# ostr00000-utils PyQt helpers in Dafny

A model of the logic inside the PyQt helper widgets of `pyqt_utils`, with
proofs about it.

The centre is the **tag-filter expression tree** and its edit engine:
- **Nodes.** A tree of tag leaves under OR, AND and NOT sequence nodes. Every node has a parent back-pointer.
- **Engine.** `TagFilterModel` owns the top OR node. It:
  - adds tags;
  - removes, merges and negates nodes;
  - turns a selection into drag paths and resolves them back;
  - moves the dragged nodes to a drop row;
  - announces each change with begin/end notifications.

Beside the newer engine sit three more models:
- the older copy of the engine;
- the older **include/exclude** tree and model, which reject bad input silently, keep the selection order when merging, and by default start from an OR node over a tuple, so that adding to it raises AttributeError;
- the small helpers:
  - **SubstringValidator**, a prefix validator with completion;
  - **SpaceLineEdit**, a row of line edits holding a list of values split at separator characters;
  - **deepMap/fromJson**, a level-by-level map over decoded JSON;
  - **TimeStatusBar**, a status bar that keeps its last ten time-stamped messages as its tooltip.

## Layout

- `wrappers.dfy`: `Option` and `Result`.
- The Python list and string operations the code relies on:
  - `py_lists.dfy`: `list.insert` clamping, `index`, `remove`, negative indexing;
  - `py_sort.dfy`: a stable `sorted` with a key;
  - `py_strings.dfy`: `split`, `join`, `str.split()`, `replace`, prefix slices.
- Tag-filter nodes:
  - `tag_filter_nodes.dfy`: the node datatype, acceptance, `filterTags`, `repr`, `len`, `insert`/`remove`;
  - `tag_filter_tree.dfy`, `tag_filter_index.dfy`: the arena view of a tree (node identity → label, parent, children), validity, and model indexes.
- Engine steps, as functions on trees:
  - `tag_filter_paths.dfy`: selection paths and their resolution;
  - `tag_filter_ops.dfy`, `tag_filter_steps.dfy`, `tag_filter_removal.dfy`, `tag_filter_edits.dfy`: adding, index checks, removal;
  - `tag_filter_negate.dfy`, `tag_filter_merge.dfy`: negation and merging;
  - `tag_filter_move.dfy`, `tag_filter_drop.dfy`: moving and dropping;
  - `tag_filter_mime.dfy`: the drop payloads and `dropMimeData` dispatch;
  - `tag_filter_events.dfy`: the notification log.
- Engine classes:
  - `tag_filter_model.dfy`: the newer `TagFilterModel` class, whose methods are proved against those functions;
  - `tag_filter_model_lib.dfy`, `tag_filter_lib_drop.dfy`: the older engine, including its interleaved drop adjustment;
  - `tag_filter_lib_finding.dfy`: a concrete tree on which the two drops differ.
- Include/exclude:
  - `include_exclude_nodes.dfy`, `include_exclude_steps.dfy`, `include_exclude_model.dfy`: nodes, steps and the model class;
  - `include_exclude_finding.dfy`: the first-index check of `mergeTags`.
- Small helpers: `substring_validator.dfy`, `space_line_edit.dfy`, `space_line_edit_lib.dfy`, `json_serializable.dfy`, `time_status_bar.dfy`.

Where the older tag-filter model runs the same code as the newer one, it is covered by `TagFilterModel.TagFilterModel`. This applies to `addSimple`, `mergeTags`, `negate`, `_isIndexInvalid`, `_filterRepeatedParentNodes`, `rowCount` and `flags`. The older model lists those lines in its rows where it differs.

The include/exclude nodes are the tag-filter nodes without NOT. Their acceptance and `filterTags` reuse `TagFilterNodes` on trees with no NOT node.

Model choices:
- Trees are values with node identities.
- A model index is `Invalid` or the index of a node by identity; its row and parent are computed from the current tree.
- Qt's begin/end row notifications and `failureCause` signals are kept in an event log that each method extends.
- A line edit is an identity into a list of texts.
- The clock is a parameter.

## Model

| member | source | states |
|---|---|---|
| TagFilterNodes.Len | src/pyqt_utils/widgets/tag_filter/nodes.py:39-66 | `len` is 0 for a leaf and the number of children for a sequence node |
| TagFilterNodes.IsAccepted | src/pyqt_utils/widgets/tag_filter/nodes.py:20-21 | a leaf is accepted iff its name is in the tags; an empty OR rejects, an empty AND accepts; a NOT node is accepted iff "NOT" is not in the tags (also lines 72-73, 82-83, 94-95) |
| TagFilterNodes.OrIsAny | src/pyqt_utils/widgets/tag_filter/nodes.py:72-73 | an OR node accepts exactly when the left-to-right `any` over its children does |
| TagFilterNodes.AndIsAll | src/pyqt_utils/widgets/tag_filter/nodes.py:94-95 | an AND node accepts exactly when the left-to-right `all` over its children does |
| TagFilterNodes.ExcludeIgnoresContent | src/pyqt_utils/widgets/tag_filter/nodes.py:82-83 | two NOT nodes are accepted alike whatever their children are (also lines 20-21) |
| TagFilterNodes.FilterTags | src/pyqt_utils/widgets/tag_filter/nodes.py:23-52 | a leaf reports `tagName in allowedTags` and is unchanged; a sequence node keeps its id, kind and parent and reports true iff children remain |
| TagFilterNodes.FilterList | src/pyqt_utils/widgets/tag_filter/nodes.py:51 | the comprehension never lengthens the list |
| TagFilterNodes.FilterListAppend | src/pyqt_utils/widgets/tag_filter/nodes.py:51 | filtering a concatenation filters each part: children are filtered independently and kept in order |
| TagFilterNodes.FilterKeepsIffChildKept | src/pyqt_utils/widgets/tag_filter/nodes.py:50-52 | a sequence node reports true exactly when some child's own `filterTags` does |
| TagFilterNodes.FilterPrunes | src/pyqt_utils/widgets/tag_filter/nodes.py:50-52 | after filtering every leaf below the node is allowed and every sequence node below it is non-empty (empty ones were pruned by their parents) |
| TagFilterNodes.FilterIdempotent | src/pyqt_utils/widgets/tag_filter/nodes.py:50-52 | a second `filterTags` with the same set changes nothing and reports the same |
| TagFilterNodes.FilterListIdempotent | src/pyqt_utils/widgets/tag_filter/nodes.py:51 | refiltering an already filtered child list gives it back |
| TagFilterNodes.Repr | src/pyqt_utils/widgets/tag_filter/nodes.py:26-30 | a leaf's repr is its name; a sequence's repr is its TAG_NAME followed by a bracketed list (also lines 62-63) |
| TagFilterNodes.Adopt | src/pyqt_utils/widgets/tag_filter/nodes.py:47-48 | every child, in order, has its parent set to the new node |
| TagFilterNodes.NewSequence | src/pyqt_utils/widgets/tag_filter/nodes.py:44-48 | the constructor keeps the children in order and points each one's parent at the new node |
| TagFilterNodes.NewExclude | src/pyqt_utils/widgets/tag_filter/nodes.py:79-88 | a NOT node is built with exactly the given child, which `content` returns |
| TagFilterNodes.Insert | src/pyqt_utils/widgets/tag_filter/nodes.py:54-56 | the node lands where `list.insert` puts it with its parent set; earlier children stay and later ones shift right by one |
| TagFilterNodes.Remove | src/pyqt_utils/widgets/tag_filter/nodes.py:58-60 | the first child with the node's identity is dropped and returned with its parent cleared; the length drops by one |
| TagFilterIndex.ParentOf | src/pyqt_utils/widgets/tag_filter/nodes.py:18 | the parent back-reference of a node other than the top one names a node of the tree |
| TagFilterIndex.IndexOfNode | src/pyqt_utils/widgets/tag_filter/model.py:90-100 | row 0 for a node without parent, otherwise the first position of the node among its parent's children |
| TagFilterIndex.ParentIndex | src/pyqt_utils/widgets/tag_filter/model.py:80-88 | the invalid index for the invalid index and for the top node, otherwise the index of the node's parent |
| TagFilterIndex.ParentNoneIffTop | src/pyqt_utils/widgets/tag_filter/model.py:85-86 | in a valid tree only the top node has no parent |
| TagFilterIndex.LiveTopLevel | src/pyqt_utils/widgets/tag_filter/model.py:45 | a live index equals `topLevelIndex` exactly when it names the top node (also line 319) |
| TagFilterIndex.PathFrom | src/pyqt_utils/widgets/tag_filter/model.py:145-157 | the root-relative path of a node: one child position per level below the top |
| TagFilterIndex.ResolvePathFrom | src/pyqt_utils/widgets/tag_filter/model.py:234-239 | walking down a node's path gives back that node |
| TagFilterIndex.PathInjective | src/pyqt_utils/widgets/tag_filter/model.py:145-157 | different nodes of a tree have different paths |
| TagFilterIndex.PathUp | src/pyqt_utils/widgets/tag_filter/model.py:148-154 | stepping to the parent drops the last position of the path and the last ancestor |
| TagFilterIndex.AncestorsSpec | src/pyqt_utils/widgets/tag_filter/model.py:148 | the nodes met walking up the parents are exactly the other nodes whose subtree holds the node |
| TagFilterPaths.Resolve | src/pyqt_utils/widgets/tag_filter/model.py:234-239 | succeeds exactly when the walk down stays on sequence nodes and in range (TypeError from a leaf, IndexError out of range, negative positions from the end) and then names the node reached |
| TagFilterPaths.ResolvePrefixErr | src/pyqt_utils/widgets/tag_filter/model.py:214 | the comprehension over the paths fails with the exception of the first failing path |
| TagFilterPaths.ResolveAllOk | src/pyqt_utils/widgets/tag_filter/model.py:214 | a list that resolves gives one node per path, each the node its path leads to |
| TagFilterPaths.KeptResolve | src/pyqt_utils/widgets/tag_filter/model.py:139-159 | every kept path leads to a selected node that has no selected strict ancestor |
| TagFilterPaths.KeptComplete | src/pyqt_utils/widgets/tag_filter/model.py:139-159 | every selected node with no selected strict ancestor has its path kept, and no other node has that path |
| TagFilterPaths.TopKept | src/pyqt_utils/widgets/tag_filter/model.py:148-157 | a selected top node is kept, with the empty path |
| TagFilterPaths.WalkStep | src/pyqt_utils/widgets/tag_filter/model.py:148-154 | one turn of the walk up the parents appends the position of the previous node and passes one ancestor |
| TagFilterPaths.WalkBlocked | src/pyqt_utils/widgets/tag_filter/model.py:149-150 | meeting a selected ancestor means the node is covered, so the `break` skips it |
| TagFilterPaths.WalkDone | src/pyqt_utils/widgets/tag_filter/model.py:156-157 | reaching the top without meeting a selected ancestor yields the node's path, reversed from the collected positions |
| TagFilterPaths.SortedPaths | src/pyqt_utils/widgets/tag_filter/model.py:159 | `sorted` of the dictionary keys keeps exactly the paths, without repeats, in tuple order |
| TagFilterOps.TagNames | src/pyqt_utils/widgets/tag_filter/model.py:252-253 | the names `addSimple` compares against, one per child, in order |
| TagFilterOps.TagNamesView | src/pyqt_utils/widgets/tag_filter/model.py:252-253 | those names are the child names read off the arena view |
| TagFilterOps.IndexOfNodeView | src/pyqt_utils/widgets/tag_filter/model.py:90-100 | `_getIndexFromNode` is the node's position among its parent record's children |
| TagFilterOps.LiveKept | src/pyqt_utils/widgets/tag_filter/model.py:90-100 | an index stays valid while its node keeps its parent and that parent keeps its children |
| TagFilterOps.AddLeafOk | src/pyqt_utils/widgets/tag_filter/model.py:261-262 | inserting the new leaf keeps the tree valid and adds exactly one record, at the insertion position, with its parent set |
| TagFilterOps.AddedLeafNames | src/pyqt_utils/widgets/tag_filter/model.py:258-262 | the new name lands at the insertion position of the child names and the other names shift |
| TagFilterOps.AddSimpleStepOk | src/pyqt_utils/widgets/tag_filter/model.py:241-264 | `addSimple` succeeds exactly on a sequence target without a child of that name; on failure it emits the matching complaint, returns False and changes nothing |
| TagFilterOps.AddSimpleAdds | src/pyqt_utils/widgets/tag_filter/model.py:258-264 | on success one begin/end insert pair is sent and the leaf stands at `row`, or last when no row is given |
| TagFilterOps.SimpleDropsOk | src/pyqt_utils/widgets/tag_filter/model.py:190-198 | a drop into a sequence node leaves it with the names of `addSimple` applied to each value in turn; on a leaf nothing changes |
| TagFilterOps.AbsorbMembers | src/pyqt_utils/widgets/tag_filter/model.py:190-198 | after a drop the node holds its old names and every dropped value, with no name twice if there was none before (also lines 252-256) |
| TagFilterOps.AbsorbAppends | src/pyqt_utils/widgets/tag_filter/model.py:191-193 | without a row the new values come after the old names, which keep their order |
| TagFilterSteps.Selected | src/pyqt_utils/widgets/tag_filter/model.py:141-143 | the set of nodes the indexes name |
| TagFilterSteps.RemovalFacts | src/pyqt_utils/widgets/tag_filter/model.py:295-322 | a list the check lets through names live nodes, none of them the top one |
| TagFilterSteps.RemoveTree | src/pyqt_utils/widgets/tag_filter/model.py:295-309 | the tree `removeIndexes` leaves: unchanged when the check fails |
| TagFilterSteps.RemoveTreeView | src/pyqt_utils/widgets/tag_filter/model.py:295-309 | a removal that goes through deletes exactly the listed subtrees and cuts them from their parents |
| TagFilterSteps.RemovalRun | src/pyqt_utils/widgets/tag_filter/model.py:299-309 | the tree, result list and begin/end pairs of a removal, largest row first |
| TagFilterSteps.RemovalAdvance | src/pyqt_utils/widgets/tag_filter/model.py:300-309 | one `_remove` of the comprehension keeps the loop's invariants |
| TagFilterSteps.SameParentSiblings | src/pyqt_utils/widgets/tag_filter/model.py:275-278 | indexes with one parent index name children of one node |
| TagFilterSteps.MinPos | src/pyqt_utils/widgets/tag_filter/model.py:274-281 | `firstNodeIndex` starts at `len(nodeParent)` and is lowered to each node's position |
| TagFilterSteps.MinPosLeast | src/pyqt_utils/widgets/tag_filter/model.py:274-281 | over children it is the least position of a listed node |
| TagFilterSteps.MergeReady | src/pyqt_utils/widgets/tag_filter/model.py:269-281 | a merge that passes the checks merges separate children of one sequence node |
| TagFilterSteps.MergeSplit | src/pyqt_utils/widgets/tag_filter/model.py:283-291 | a merge is the removal followed by inserting a new node that holds what the removal returned |
| TagFilterSteps.MergeStepOk | src/pyqt_utils/widgets/tag_filter/model.py:266-293 | a merge keeps the tree valid and fails, with nothing changed and None returned, exactly on a rejected list or different parents |
| TagFilterSteps.MergeStepGoes | src/pyqt_utils/widgets/tag_filter/model.py:283-293 | a merge that goes through adds exactly the new node |
| TagFilterSteps.MergeStepMeaning | src/pyqt_utils/widgets/tag_filter/model.py:274-300 | the new node stands in the common parent at the smallest merged position and holds the merged nodes in descending original position, each pointing back at it; the returned index names it |
| TagFilterSteps.SingleRemoval | src/pyqt_utils/widgets/tag_filter/model.py:333 | `removeIndexes([index])` on an accepted index is one `_remove` |
| TagFilterSteps.NegateStepGoes | src/pyqt_utils/widgets/tag_filter/model.py:331-342 | a `negate` of a node other than a NOT node, or of a NOT node with one child, sends one removal and one insertion at the node's row, leaves the negated tree and returns True |
| TagFilterSteps.NegateStepRaises | src/pyqt_utils/widgets/tag_filter/model.py:333-337 | a `negate` of a NOT node without exactly one child has already removed the node and announced the insertion when `content` raises AssertionError: the node's subtree is gone from the tree and from its parent's children, and the insertion is never ended |
| TagFilterSteps.NegateStepIds | src/pyqt_utils/widgets/tag_filter/model.py:324-342 | a `negate` that goes through keeps the tree valid and returns True; a wrap adds the one fresh identity, an unwrap drops the NOT node's |
| TagFilterSteps.NegateStepOk | src/pyqt_utils/widgets/tag_filter/model.py:324-342 | `negate` keeps the tree valid and its identities fresh; it returns True exactly when the index check lets the index through and the node is not a NOT node without exactly one child, raises AssertionError exactly when the check lets through such a NOT node, and otherwise changes nothing and sends only the failure |
| TagFilterSteps.NegateStepPlace | src/pyqt_utils/widgets/tag_filter/model.py:331 | the node sits at its index's row among its parent's children |
| TagFilterSteps.NegateStepWrap | src/pyqt_utils/widgets/tag_filter/model.py:338-340 | a node other than a NOT node is replaced at its row by a new NOT node holding it |
| TagFilterSteps.NegateStepUnwrap | src/pyqt_utils/widgets/tag_filter/model.py:336-340 | a NOT node is replaced at its row by its only child |
| TagFilterSteps.NegateAgain | src/pyqt_utils/widgets/tag_filter/model.py:324-342 | after a wrap the new NOT node at the same row can be negated |
| TagFilterSteps.NegateStepTwice | src/pyqt_utils/widgets/tag_filter/model.py:324-342 | negating twice at the same row restores the view and gives back the original node with its subtree and its parent |
| TagFilterRemoval.RemovalOrder | src/pyqt_utils/widgets/tag_filter/model.py:299 | the sort by descending row keeps the same indexes and the same separate nodes, largest row first |
| TagFilterRemoval.GoneIdsPerm | src/pyqt_utils/widgets/tag_filter/model.py:299-300 | reordering the indexes removes the same nodes |
| TagFilterRemoval.RemovalStep | src/pyqt_utils/widgets/tag_filter/model.py:300-309 | one turn of the removal: the first index is removed and the run continues on the new tree |
| TagFilterRemoval.RemovalResult | src/pyqt_utils/widgets/tag_filter/model.py:295-300 | what a whole removal does, stated for the list in the caller's order |
| TagFilterEdits.GoneIdsSpec | src/pyqt_utils/widgets/tag_filter/model.py:295-309 | the nodes a removal deletes are exactly those inside the listed subtrees |
| TagFilterEdits.DetachStep | src/pyqt_utils/widgets/tag_filter/model.py:302-309 | one `_remove` keeps the tree valid and leaves every other listed node's subtree as it was |
| TagFilterEdits.DetachSeq | src/pyqt_utils/widgets/tag_filter/model.py:300 | the nodes are removed in order and come back, parent cleared, in that order |
| TagFilterEdits.DetachSeqIds | src/pyqt_utils/widgets/tag_filter/model.py:300 | removing the nodes in turn keeps the tree valid and deletes exactly their subtrees |
| TagFilterEdits.DetachSeqOuts | src/pyqt_utils/widgets/tag_filter/model.py:300-309 | each removed node comes back with its subtree as it was and its parent cleared |
| TagFilterEdits.DetachSeqView | src/pyqt_utils/widgets/tag_filter/model.py:300 | the view after the removals is the old view without the removed subtrees, their parents having lost them |
| TagFilterEdits.AdoptedView | src/pyqt_utils/widgets/tag_filter/nodes.py:47-56 | reinserted nodes keep their subtrees and point back at their new parent |
| TagFilterEdits.Splice | src/pyqt_utils/widgets/tag_filter/model.py:229-230 | the positions `first, first + 1, ...` insert the ids consecutively, clamped to the end as `list.insert` does |
| TagFilterEdits.AttachSeqView | src/pyqt_utils/widgets/tag_filter/model.py:229-230 | inserting the nodes in turn lands them consecutively, at `first` or at the end when `first` is past it |
| TagFilterNegate.RowOf | src/pyqt_utils/widgets/tag_filter/model.py:331 | the row of a node among its parent's children |
| TagFilterNegate.NegateParent | src/pyqt_utils/widgets/tag_filter/model.py:329-333 | taking the node out leaves its parent in the tree with the node cut from its children |
| TagFilterNegate.Wrapped | src/pyqt_utils/widgets/tag_filter/model.py:338-340 | the view after wrapping: the new NOT node at the row, holding the old node |
| TagFilterNegate.Unwrapped | src/pyqt_utils/widgets/tag_filter/model.py:336-340 | the view after unwrapping: the NOT node gone and its child at its row |
| TagFilterNegate.WrapNode | src/pyqt_utils/widgets/tag_filter/model.py:339 | `TagFilterExcludeNode(node)` holds exactly the node, re-parented to it |
| TagFilterNegate.WrapOk | src/pyqt_utils/widgets/tag_filter/model.py:333-340 | wrapping keeps the tree valid, adds the new NOT node and leaves the view `Wrapped` |
| TagFilterNegate.UnwrapOk | src/pyqt_utils/widgets/tag_filter/model.py:333-340 | unwrapping keeps the tree valid, removes the NOT node and leaves the view `Unwrapped` |
| TagFilterNegate.UnwrapWrap | src/pyqt_utils/widgets/tag_filter/model.py:336-340 | unwrapping what was just wrapped gives the view back |
| TagFilterNegate.WrapUnwrap | src/pyqt_utils/widgets/tag_filter/model.py:336-340 | wrapping again, under the old identity, what was just unwrapped gives the view back |
| TagFilterNegate.WrapFound | src/pyqt_utils/widgets/tag_filter/model.py:339-340 | after wrapping the NOT node stands in the tree holding the old subtree |
| TagFilterNegate.UnwrapFound | src/pyqt_utils/widgets/tag_filter/model.py:337-340 | after unwrapping the former content stands under the old parent |
| TagFilterNegate.WrappedNot | src/pyqt_utils/widgets/tag_filter/model.py:324-342 | the new NOT node is itself something `negate` accepts, at the same row under the same parent |
| TagFilterNegate.NegateTwice | src/pyqt_utils/widgets/tag_filter/model.py:324-342 | negating a node and then the new NOT node gives back the original view and the node with its whole subtree |
| TagFilterMerge.SiblingsSeparate | src/pyqt_utils/widgets/tag_filter/model.py:275-281 | different children of one parent are separate, and the parent lies outside their subtrees |
| TagFilterMerge.RemovedParent | src/pyqt_utils/widgets/tag_filter/model.py:283 | the removal leaves the common parent in the tree with the merged children cut |
| TagFilterMerge.Merged | src/pyqt_utils/widgets/tag_filter/model.py:288-291 | the view after a merge: the parent lists the new node at `first` instead of the cut ones, which now hang off it |
| TagFilterMerge.MergedNode | src/pyqt_utils/widgets/tag_filter/model.py:289 | the new sequence node's children are the removed nodes, re-parented to it |
| TagFilterMerge.MergeOk | src/pyqt_utils/widgets/tag_filter/model.py:283-291 | the merge keeps the tree valid, adds exactly the new node and leaves the view `Merged` |
| TagFilterMerge.LeastPosSplice | src/pyqt_utils/widgets/tag_filter/model.py:281-290 | with `first` the least position, the new node takes the first merged child's place and the others drop out behind it |
| TagFilterMerge.MergedMeaning | src/pyqt_utils/widgets/tag_filter/model.py:283-291 | the parent's list gains the new node at `first` and loses the merged ones, and the new node holds exactly them, in removal order, each pointing back |
| TagFilterMerge.SortedRows | src/pyqt_utils/widgets/tag_filter/model.py:299 | each sorted index's row is its node's position among the parent's children |
| TagFilterMerge.MergeOrder | src/pyqt_utils/widgets/tag_filter/model.py:283-300 | the merged node receives its children in strictly decreasing original position, so their order is reversed |
| TagFilterMove.Cleared | src/pyqt_utils/widgets/tag_filter/model.py:214-223 | the dragged nodes after `removeIndexes` has cleared their parent, in payload order |
| TagFilterMove.ClearedList | src/pyqt_utils/widgets/tag_filter/model.py:223-230 | the cleared subtrees are disjoint and hold exactly the removed nodes |
| TagFilterMove.Moved | src/pyqt_utils/widgets/tag_filter/model.py:223-230 | the view after a move: the moved subtrees cut from their parents and hung, in order, into the target |
| TagFilterMove.MoveOk | src/pyqt_utils/widgets/tag_filter/model.py:223-230 | a move keeps the tree valid and its set of nodes unchanged, and leaves the view `Moved` |
| TagFilterMove.AdjustCount | src/pyqt_utils/widgets/tag_filter/model.py:217-221 | visiting rows largest first, the loop lowers `first` by exactly the number of dragged children of the target before the drop row |
| TagFilterMove.DropOrder | src/pyqt_utils/widgets/tag_filter/model.py:219 | the sorted indexes name the same nodes and have different rows under the target |
| TagFilterMove.AdjustedRow | src/pyqt_utils/widgets/tag_filter/model.py:217-221 | the adjusted row counts off the dragged children of the target among its first `first` children |
| TagFilterMove.DropPosLands | src/pyqt_utils/widgets/tag_filter/model.py:217-226 | the insertion position, against the target's remaining children |
| TagFilterMove.DropLands | src/pyqt_utils/widgets/tag_filter/model.py:210-230 | the dragged nodes land in payload order exactly where the drop row pointed among the staying children, or last for -1 |
| TagFilterDrop.IndexesOf | src/pyqt_utils/widgets/tag_filter/model.py:215 | one index per node, each the node's own index |
| TagFilterDrop.TargetLive | src/pyqt_utils/widgets/tag_filter/model.py:203-207 | the target is in the tree and the index the drop reports under is its own index |
| TagFilterDrop.DropRemoval | src/pyqt_utils/widgets/tag_filter/model.py:223 | the removal goes through exactly for a non-empty payload, and the target keeps the children that were not dragged |
| TagFilterDrop.DropParts | src/pyqt_utils/widgets/tag_filter/model.py:200-232 | a drop that goes through is the removal followed by the insertion run at the computed row |
| TagFilterDrop.DropStepKeeps | src/pyqt_utils/widgets/tag_filter/model.py:223-232 | a drop that goes through keeps the tree valid, with the same nodes, and returns True |
| TagFilterDrop.DropStepOk | src/pyqt_utils/widgets/tag_filter/model.py:200-232 | a drop fails, changing and sending nothing, exactly for a leaf target (TypeError) or a path that does not resolve |
| TagFilterDrop.DropAtLanding | src/pyqt_utils/widgets/tag_filter/model.py:210-226 | the row the drop inserts at is the landing row counted on the target's children before the drop |
| TagFilterDrop.DropStepMoves | src/pyqt_utils/widgets/tag_filter/model.py:223-231 | the dragged subtrees are cut from their parents and hung into the target in payload order from the landing row, and the insertion is reported there |
| TagFilterDrop.DropStepLands | src/pyqt_utils/widgets/tag_filter/model.py:210-230 | after the staying children for -1 and for row 1 of the top node; otherwise just after the staying children before the drop row |
| TagFilterDrop.DropNothing | src/pyqt_utils/widgets/tag_filter/model.py:214-231 | an empty payload leaves the target's children as they are |
| TagFilterDrop.AttachAll | src/pyqt_utils/widgets/tag_filter/model.py:229-230 | the insertion loop leaves the tree the consecutive insertions give |
| TagFilterMime.AddRow | src/pyqt_utils/widgets/tag_filter/model.py:191-196 | the `i`-th text goes to `row + i`, or is appended for -1 |
| TagFilterMime.SimpleDropsNext | src/pyqt_utils/widgets/tag_filter/model.py:192-196 | one `addSimple` of the loop followed by the drop of the remaining texts |
| TagFilterMime.SimpleDropStepOk | src/pyqt_utils/widgets/tag_filter/model.py:180-198 | a simple drop succeeds exactly on one column; a refused one changes nothing and reports the column count |
| TagFilterMime.SimpleDropAppends | src/pyqt_utils/widgets/tag_filter/model.py:191-193 | at row -1 the old names stay in front, in order, followed by the dropped texts |
| TagFilterMime.DropMimeStepOk | src/pyqt_utils/widgets/tag_filter/model.py:161-178 | a copy of Qt items goes to `_dropSimpleData`, a move of paths to `_dropNodePath`, anything else returns False; only a move raises |
| TagFilterMime.ResolveAllEach | src/pyqt_utils/widgets/tag_filter/model.py:214 | when every path resolves, the whole list resolves, position by position |
| TagFilterMime.PayloadResolves | src/pyqt_utils/widgets/tag_filter/model.py:133-159 | dropped back into the unchanged tree, the packed paths lead to exactly the selected nodes no selected node lies above, each once (also line 214) |
| TagFilterMime.PayloadSeparate | src/pyqt_utils/widgets/tag_filter/model.py:111-122 | the packed nodes never hold one another, and without the top node selected none is the top node (also lines 139-159) |
| TagFilterEvents.IndexProblemNone | src/pyqt_utils/widgets/tag_filter/model.py:311-322 | the list is accepted exactly when it is non-empty and every index is valid and not the top-level index |
| TagFilterEvents.FirstBadIndexAt | src/pyqt_utils/widgets/tag_filter/model.py:315-321 | the complaint names the first offending index: "The index is invalid" or "Cannot use top level index" |
| TagFilterEvents.Nodes | src/pyqt_utils/widgets/tag_filter/model.py:300-303 | the node each index points at, in order |
| TagFilterModel.TagFilterModel.constructor | src/pyqt_utils/widgets/tag_filter/model.py:37-45 | a new empty OR node, or a copy of the given tree, and no notifications yet |
| TagFilterModel.TagFilterModel.RowCount | src/pyqt_utils/widgets/tag_filter/model.py:55-60 | one row under the root, otherwise the node's number of children |
| TagFilterModel.TagFilterModel.Flags | src/pyqt_utils/widgets/tag_filter/model.py:111-122 | dropping is allowed on the root and on every sequence node (the top one included); dragging on every node except the top one |
| TagFilterModel.TagFilterModel.IsIndexInvalid | src/pyqt_utils/widgets/tag_filter/model.py:311-322 | returns True exactly when the list has a problem, after emitting that one complaint; otherwise nothing is emitted |
| TagFilterModel.TagFilterModel.GetNodeFromNodePath | src/pyqt_utils/widgets/tag_filter/model.py:234-239 | the loop computes `Resolve`: the node the path leads to, or the TypeError/IndexError |
| TagFilterModel.TagFilterModel.FilterRepeatedParentNodes | src/pyqt_utils/widgets/tag_filter/model.py:139-159 | the result is sorted, has no repeats, and holds exactly the paths of the selected nodes no selected node lies above |
| TagFilterModel.TagFilterModel.WalkUp | src/pyqt_utils/widgets/tag_filter/model.py:145-157 | the walk stops early exactly when a selected ancestor is met; otherwise the reversed positions are the node's path |
| TagFilterModel.TagFilterModel.AddSimple | src/pyqt_utils/widgets/tag_filter/model.py:241-264 | the new tree, notifications and result are those of `AddSimpleStep` |
| TagFilterModel.TagFilterModel.NameTaken | src/pyqt_utils/widgets/tag_filter/model.py:252-256 | the loop finds a child called `text` exactly when `text` is among the child names |
| TagFilterModel.TagFilterModel.MergeTags | src/pyqt_utils/widgets/tag_filter/model.py:266-293 | the new tree, notifications and returned index are those of `MergeStep` |
| TagFilterModel.TagFilterModel.MergeRemoved | src/pyqt_utils/widgets/tag_filter/model.py:283-293 | the removal and insertion half of a merge gives `MergeStep`'s outcome |
| TagFilterModel.TagFilterModel.InsertNode | src/pyqt_utils/widgets/tag_filter/model.py:288-291 | the node is attached at `pos` between one begin/end insert pair (also lines 335-341) |
| TagFilterModel.TagFilterModel.CommonParent | src/pyqt_utils/widgets/tag_filter/model.py:275-281 | the loop reports whether every index has the first one's parent and, if so, the least position of the listed nodes |
| TagFilterModel.TagFilterModel.Negate | src/pyqt_utils/widgets/tag_filter/model.py:324-342 | the new tree, notifications and result (True, None after the failure signal, or the AssertionError) are those of `NegateStep` |
| TagFilterModel.TagFilterModel.NegateAccepted | src/pyqt_utils/widgets/tag_filter/model.py:328-342 | for an index the check lets through, the removal, the announced insertion and the reinsertion or the AssertionError are those of `NegateStep` |
| TagFilterModel.TagFilterModel.PutNegated | src/pyqt_utils/widgets/tag_filter/model.py:335-342 | after the removal: the insertion is announced, then the NOT node's only child or a new NOT node holding the node goes in at the row and the insertion is ended, or `content` raises AssertionError |
| TagFilterModel.TagFilterModel.MimeData | src/pyqt_utils/widgets/tag_filter/model.py:133-137 | the payload holds exactly the kept paths, sorted and without repeats |
| TagFilterModel.TagFilterModel.DropMimeData | src/pyqt_utils/widgets/tag_filter/model.py:161-178 | the new tree, notifications and result are those of `DropMimeStep` |
| TagFilterModel.TagFilterModel.DropSimpleData | src/pyqt_utils/widgets/tag_filter/model.py:180-198 | the new tree, notifications and result are those of `SimpleDropStep` |
| TagFilterModel.TagFilterModel.DropNodePath | src/pyqt_utils/widgets/tag_filter/model.py:200-232 | the new tree, notifications and result (or the exception) are those of `DropStep` |
| TagFilterModel.TagFilterModel.DropResolved | src/pyqt_utils/widgets/tag_filter/model.py:210-232 | once the paths have resolved, the rest of the drop gives `DropStep`'s outcome |
| TagFilterModel.TagFilterModel.MoveRows | src/pyqt_utils/widgets/tag_filter/model.py:223-231 | the removal, -1 turned into the target's length, and the insertion run from that row |
| TagFilterModel.TagFilterModel.ResolvePaths | src/pyqt_utils/widgets/tag_filter/model.py:214 | the nodes, or the exception of the first failing path |
| TagFilterModel.TagFilterModel.AdjustRow | src/pyqt_utils/widgets/tag_filter/model.py:217-221 | the loop computes `Adjust`, with every `parent()` read before the removal |
| TagFilterModel.TagFilterModel.InsertAll | src/pyqt_utils/widgets/tag_filter/model.py:228-231 | one begin/end pair around the consecutive insertions of the nodes from `first` on |
| TagFilterModel.TagFilterModel.RemoveIndexes | src/pyqt_utils/widgets/tag_filter/model.py:295-300 | nothing when the check complains; otherwise the nodes are removed largest row first and returned in that order, without parent |
| TagFilterModel.TagFilterModel.RemoveAll | src/pyqt_utils/widgets/tag_filter/model.py:300 | the nodes are removed in order, one begin/end remove pair each |
| TagFilterModel.TagFilterModel.Remove | src/pyqt_utils/widgets/tag_filter/model.py:302-309 | the node is detached from its parent between one begin/end remove pair and returned |
| TagFilterModelLib.TagFilterModel.constructor | lib/pyqt_utils/widgets/tag_filter/model.py:20-26 | a new empty OR node, or a copy of the given tree, and no notifications yet |
| TagFilterModelLib.TagFilterModel.Remove | lib/pyqt_utils/widgets/tag_filter/model.py:243-254 | returns nothing exactly when the index check complains, after emitting the complaint; otherwise the node is detached between one begin/end remove pair and returned |
| TagFilterModelLib.TagFilterModel.GetNodeFromNodePath | lib/pyqt_utils/widgets/tag_filter/model.py:186-191 | the loop computes `LibResolve`: the node, AssertionError for a step into a leaf, IndexError past the children |
| TagFilterModelLib.TagFilterModel.ResolvePaths | lib/pyqt_utils/widgets/tag_filter/model.py:170 | the nodes, or the exception of the first failing path |
| TagFilterModelLib.TagFilterModel.DropNodePath | lib/pyqt_utils/widgets/tag_filter/model.py:165-184 | the new tree, notifications and result (or the exception) are those of `LibDropStep` |
| TagFilterModelLib.TagFilterModel.DropResolved | lib/pyqt_utils/widgets/tag_filter/model.py:171-184 | once the paths have resolved, the rest of the drop gives `LibDropStep`'s outcome |
| TagFilterModelLib.TagFilterModel.RemoveInterleaved | lib/pyqt_utils/widgets/tag_filter/model.py:172-176 | the loop computes `Interleave`, each `parent()` read in the tree the earlier removals left, and removes the nodes in that order |
| TagFilterModelLib.TagFilterModel.InsertAll | lib/pyqt_utils/widgets/tag_filter/model.py:180-183 | one begin/end pair around the consecutive insertions from `first` on |
| TagFilterLibDrop.LibResolve | lib/pyqt_utils/widgets/tag_filter/model.py:186-191 | the same walk as the newer model, failing with AssertionError where the newer one raises TypeError, never with TypeError |
| TagFilterLibDrop.LibOrder | lib/pyqt_utils/widgets/tag_filter/model.py:171-172 | the dragged indexes sorted largest row first name separate nodes |
| TagFilterLibDrop.InterleaveNext | lib/pyqt_utils/widgets/tag_filter/model.py:173-176 | one turn corrects the row against the first index, then goes on in the tree without its node |
| TagFilterLibDrop.InterleaveBounds | lib/pyqt_utils/widgets/tag_filter/model.py:173-175 | the corrected row stays between 0 and the drop row, and a negative row is left alone |
| TagFilterLibDrop.LibDropStepOk | lib/pyqt_utils/widgets/tag_filter/model.py:165-184 | the drop keeps the tree valid with the same nodes; it goes through exactly on a valid sequence target whose paths all resolve, and otherwise raises with nothing changed |
| TagFilterLibDrop.LibDropAtBounds | lib/pyqt_utils/widgets/tag_filter/model.py:173-179 | the insertion row lies between 0 and the drop row, and is the number of staying children for -1 |
| TagFilterLibDrop.LibDropLands | lib/pyqt_utils/widgets/tag_filter/model.py:172-183 | the dragged nodes are cut out and inserted in payload order among the staying children, at the row the interleaved correction leaves |
| TagFilterLibFinding.ExampleInterleave | lib/pyqt_utils/widgets/tag_filter/model.py:172-176 | on the example tree, once `y` is removed `P` moves to row 1, so `b0`'s parent index no longer equals the target index and the row stays 2 |
| TagFilterLibFinding.LibDropOvershoots | lib/pyqt_utils/widgets/tag_filter/model.py:165-184 | as written, dropping `y` and `b0` onto row 2 of `P` leaves `P` as `b1, b2, y, b0` |
| TagFilterLibFinding.DropKeepsRow | src/pyqt_utils/widgets/tag_filter/model.py:200-232 | the newer drop of the same payload leaves `P` as `b1, y, b0, b2`, in front of the child that was at row 2 |
| IncludeExcludeNodes.NewGroup | lib/pyqt_utils/widgets/include_exclude/nodes.py:34-37 | the new node holds the given list itself, and the children keep whatever parent they named |
| IncludeExcludeNodes.GroupAdopted | lib/pyqt_utils/widgets/include_exclude/model.py:116-118 | once the loop has pointed every child at the merged node, it is the tag-filter sequence node over the same list |
| IncludeExcludeNodes.AcceptedMonotone | lib/pyqt_utils/widgets/include_exclude/nodes.py:14-15 | a tree of leaves, OR and AND nodes accepts every superset of a set of tags it accepts (also lines 50-51, 57-58) |
| IncludeExcludeNodes.ExcludeNotMonotone | lib/pyqt_utils/widgets/include_exclude/nodes.py:47-58 | a NOT node over a leaf breaks monotonicity, so it needs the editor's node classes |
| IncludeExcludeNodes.FilterKeepsPlain | lib/pyqt_utils/widgets/include_exclude/nodes.py:17-41 | `filterTags` only drops children, so a tree of leaves, OR and AND nodes stays one |
| IncludeExcludeSteps.AddStepOk | lib/pyqt_utils/widgets/include_exclude/model.py:74-90 | a leaf is appended, last and pointing back at the target, exactly when the target is a sequence node without a child of that name and is not the top node holding a tuple; AttributeError is raised exactly when that target is the tuple top node, with the tree unchanged and only the begin-insert notification sent; otherwise nothing changes and nothing is sent |
| IncludeExcludeSteps.AddStepCases | lib/pyqt_utils/widgets/include_exclude/model.py:81-90 | `addSimple` ends untouched and silent, with the leaf appended between one begin/end insert pair, or with AttributeError on the tuple top node after a begin-insert with no end |
| IncludeExcludeSteps.DefaultTopStays | lib/pyqt_utils/widgets/include_exclude/model.py:15-16 | the top node built by `TagFilterOrNode()` holds the tuple `()` and never changes: `addSimple` into it raises AttributeError after announcing row 0, `remove` returns None, and `mergeTags` returns None or raises TypeError (also nodes.py:35-36) |
| IncludeExcludeSteps.RemoveStepOk | lib/pyqt_utils/widgets/include_exclude/model.py:124-134 | `remove` refuses exactly the invalid and top-level indexes; a removal deletes the node's subtree, cuts it from its parent's list, announces rows 0 to 0, and returns the node still naming its old parent |
| IncludeExcludeSteps.RemovePairs | lib/pyqt_utils/widgets/include_exclude/model.py:128-133 | `n` removals announced under one parent index: even entries begin removing rows 0 to 0 there, odd entries end a removal |
| IncludeExcludeSteps.ParentKept | lib/pyqt_utils/widgets/include_exclude/model.py:112 | taking a child out leaves the parent's index as it was |
| IncludeExcludeSteps.SiblingsRest | lib/pyqt_utils/widgets/include_exclude/model.py:112 | after the first sibling is taken out the others are still siblings under the same parent |
| IncludeExcludeSteps.RemoveRunPairs | lib/pyqt_utils/widgets/include_exclude/model.py:112 | removing sibling indexes in turn announces every removal under the same parent index |
| IncludeExcludeSteps.RemoveTurn | lib/pyqt_utils/widgets/include_exclude/model.py:112-134 | turn `i` of the comprehension removes index `i` as `remove` does and leaves the later indexes siblings |
| IncludeExcludeSteps.RemoveAdvance | lib/pyqt_utils/widgets/include_exclude/model.py:112 | what the comprehension keeps from one turn to the next |
| IncludeExcludeSteps.PassedAll | lib/pyqt_utils/widgets/include_exclude/model.py:101-110 | when every index passed the loop's checks, the list is editable and of one parent |
| IncludeExcludeSteps.MergeInput | lib/pyqt_utils/widgets/include_exclude/model.py:98-112 | a merge that goes through starts from separate children of one sequence node |
| IncludeExcludeSteps.MergeTagsStepOk | lib/pyqt_utils/widgets/include_exclude/model.py:92-122 | a merge keeps the tree valid; it raises TypeError exactly when the first index is invalid or the top-level one, and goes through exactly when every index is editable and all share a parent |
| IncludeExcludeSteps.MergeTagsParts | lib/pyqt_utils/widgets/include_exclude/model.py:112-120 | a merge that goes through is the removals followed by inserting the new node over the nodes they return |
| IncludeExcludeSteps.MergeTagsKeeps | lib/pyqt_utils/widgets/include_exclude/model.py:112-120 | a merge that goes through keeps the tree valid and adds exactly the new node |
| IncludeExcludeSteps.MergeTagsRefused | lib/pyqt_utils/widgets/include_exclude/model.py:94-108 | a merge that does not go through changes nothing, and raises TypeError exactly for a bad first index |
| IncludeExcludeSteps.MergeTagsMeaning | lib/pyqt_utils/widgets/include_exclude/model.py:100-122 | the new node stands in the common parent at the smallest merged position and holds the merged nodes in argument order, each pointing back; the insertion is announced as two rows |
| IncludeExcludeFinding.MergeFirstIndexRaises | lib/pyqt_utils/widgets/include_exclude/model.py:98-100 | as written, merging the top-level index alone, or the invalid index, raises TypeError |
| IncludeExcludeFinding.MergeTagsCheckedOk | lib/pyqt_utils/widgets/include_exclude/model.py:101-105 | with the index checks run before the first parent is read, the merge never raises, returns an index exactly for editable siblings and otherwise changes nothing |
| IncludeExcludeModel.IncludeExcludeModel.constructor | lib/pyqt_utils/widgets/include_exclude/model.py:13-19 | a new OR node over the tuple `()`, recorded as `topIsTuple`, or a copy of the given tree |
| IncludeExcludeModel.IncludeExcludeModel.RowCount | lib/pyqt_utils/widgets/include_exclude/model.py:25-30 | one row under the root, otherwise the node's number of children |
| IncludeExcludeModel.IncludeExcludeModel.AddSimple | lib/pyqt_utils/widgets/include_exclude/model.py:74-90 | the new tree, notifications and outcome, AttributeError included, are those of `AddStep` for the model's own kind of top node |
| IncludeExcludeModel.IncludeExcludeModel.Remove | lib/pyqt_utils/widgets/include_exclude/model.py:124-134 | the new tree, notifications and returned node are those of `RemoveStep` |
| IncludeExcludeModel.IncludeExcludeModel.MergeTags | lib/pyqt_utils/widgets/include_exclude/model.py:92-122 | the new tree, notifications and result (or the TypeError) are those of `MergeTagsStep` |
| IncludeExcludeModel.IncludeExcludeModel.CheckIndexes | lib/pyqt_utils/widgets/include_exclude/model.py:101-110 | the loop passes exactly when every index is editable and under the first one's parent, and then leaves the least position of the listed nodes |
| IncludeExcludeModel.IncludeExcludeModel.MergeRemoved | lib/pyqt_utils/widgets/include_exclude/model.py:112-122 | the removal and insertion half of a merge gives `MergeTagsStep`'s outcome |
| IncludeExcludeModel.IncludeExcludeModel.RemoveSiblings | lib/pyqt_utils/widgets/include_exclude/model.py:112 | the nodes come back in the order of the indexes, cut out as `DetachSeq` does but still naming their old parent |
| IncludeExcludeModel.IncludeExcludeModel.NewMerged | lib/pyqt_utils/widgets/include_exclude/model.py:116-118 | the constructor followed by the parent loop gives the sequence node over the list with every child pointing back |
| SubstringValidator.RemainingOptions | src/pyqt_utils/qobjects/substring_validator.py:31-33 | the options are exactly the values of the list that start with the text, never more of them than the list holds |
| SubstringValidator.RemainingAppend | src/pyqt_utils/qobjects/substring_validator.py:33 | filtering keeps the order of the list: the options of a concatenation are the options of each part, in turn |
| SubstringValidator.RemainingOne | src/pyqt_utils/qobjects/substring_validator.py:33 | a single value is kept exactly when the text is a prefix of it |
| SubstringValidator.RemainingCount | src/pyqt_utils/qobjects/substring_validator.py:33 | a value that starts with the text is kept as many times as it occurs in the list; any other value is never kept |
| SubstringValidator.SingleRemaining | src/pyqt_utils/qobjects/substring_validator.py:24-29 | exactly one option remains if and only if exactly one entry of the list starts with the text, and that entry is then the option |
| SubstringValidator.Validate | src/pyqt_utils/qobjects/substring_validator.py:15-22 | Acceptable exactly for a value of the list; Intermediate exactly for another text that some value starts with; Invalid exactly when no value starts with it; the text and position come back unchanged |
| SubstringValidator.Fixup | src/pyqt_utils/qobjects/substring_validator.py:24-29 | a text with a single completion is replaced by it; a text with none or several (duplicates counted) is kept; the result is the text or a value of the list that starts with it |
| SubstringValidator.FixupCompletes | src/pyqt_utils/qobjects/substring_validator.py:24-29 | fixing up a text that is not Invalid never makes it Invalid, and a text with a single completion becomes Acceptable |
| SubstringValidator.SubstringValidator.constructor | src/pyqt_utils/qobjects/substring_validator.py:7-10 | the validator holds the given values |
| SubstringValidator.SubstringValidator.SetPossibleValues | src/pyqt_utils/qobjects/substring_validator.py:12-13 | the stored list becomes the given values and nothing else changes |
| SubstringValidatorLib.SubstringValidator.constructor | lib/pyqt_utils/qobjects/substring_validator.py:5-7 | the public list holds the given values |
| SubstringValidatorLib.SubstringValidator.GetRemainingOptions | lib/pyqt_utils/qobjects/substring_validator.py:25-31 | the loop collects exactly the options of the list, in list order: the same list the newer comprehension gives |
| SubstringValidatorLib.SubstringValidator.Validate | lib/pyqt_utils/qobjects/substring_validator.py:9-16 | the same state, text and position as the newer validate, so the three-way characterisation above holds |
| SubstringValidatorLib.SubstringValidator.Fixup | lib/pyqt_utils/qobjects/substring_validator.py:18-23 | the same completion as the newer fixup |
| SpaceLineEdit.Normalise | src/pyqt_utils/widgets/space_line_edit.py:113-114 | every character that is one of the other split characters becomes the first one; every other character is kept; the length is kept |
| SpaceLineEdit.SplitPartsShape | src/pyqt_utils/widgets/space_line_edit.py:112-116 | there is always at least one part; no part holds a split character; the parts joined with the first split character give the normalised text; there is one part exactly when the text has no split character, and that part is the text |
| SpaceLineEdit.NormaliseConcat | src/pyqt_utils/widgets/space_line_edit.py:113-114 | replacing characters in a concatenation replaces them in each part |
| SpaceLineEdit.NormaliseJoin | src/pyqt_utils/widgets/space_line_edit.py:113-114 | values without split characters, joined with any split character, normalise to the values joined with the first one |
| SpaceLineEdit.TextRoundTrip | src/pyqt_utils/widgets/space_line_edit.py:57-64 | setText of text() gives back the same values whenever no value holds a split character and the separator is one |
| SpaceLineEdit.ValuesOf | src/pyqt_utils/widgets/space_line_edit.py:60-61 | one value per shown line edit |
| SpaceLineEdit.ChangeValues | src/pyqt_utils/widgets/space_line_edit.py:100-105 | after a change split into parts, the values are the old ones with the changed entry replaced by all the parts, and the line edits stay distinct |
| SpaceLineEdit.ChangeShown | src/pyqt_utils/widgets/space_line_edit.py:103-105 | new line edits inserted after a shown one keep the shown line edits distinct |
| SpaceLineEdit.RemoveValues | src/pyqt_utils/widgets/space_line_edit.py:126 | taking out one line edit keeps the rest distinct and drops exactly its value |
| SpaceLineEdit.FocusResult | src/pyqt_utils/widgets/space_line_edit.py:148-153 | an error exactly when the line edit is not shown (list.index raises ValueError); otherwise True exactly when the position offset places away exists |
| SpaceLineEdit.SpaceLineEdit.constructor | src/pyqt_utils/widgets/space_line_edit.py:13-30 | one empty line edit, the given split characters and separator, no update in progress, nothing emitted |
| SpaceLineEdit.SpaceLineEdit.CreateLineEdit | src/pyqt_utils/widgets/space_line_edit.py:74-79 | a fresh line edit holding the text, not yet shown |
| SpaceLineEdit.SpaceLineEdit.SplitText | src/pyqt_utils/widgets/space_line_edit.py:112-116 | the loop over the other split characters gives exactly the parts SplitPartsShape describes |
| SpaceLineEdit.SpaceLineEdit.SetValues | src/pyqt_utils/widgets/space_line_edit.py:66-72 | the values become the given ones, or one empty value for none, held by new line edits; the rest of the state is kept |
| SpaceLineEdit.SpaceLineEdit.SetText | src/pyqt_utils/widgets/space_line_edit.py:63-64 | the values become the parts of the text |
| SpaceLineEdit.SpaceLineEdit.SetFocus | src/pyqt_utils/widgets/space_line_edit.py:148-153 | the result is FocusResult; the focus moves to the line edit offset places away when there is one and stays otherwise |
| SpaceLineEdit.SpaceLineEdit.RemoveLineEdit | src/pyqt_utils/widgets/space_line_edit.py:118-129 | the last line edit is never taken out; with changeFocus the focus goes to the previous line edit, else the next; a line edit that is not shown is left alone, except that moving the focus away from it raises |
| SpaceLineEdit.SpaceLineEdit.OnTextChanged | src/pyqt_utils/widgets/space_line_edit.py:95-110 | ignored while a change is in progress; otherwise the line edit takes the first part, new line edits with the other parts follow it, the next line edit gets the focus and the joined text is emitted once; for a line edit that is not shown the ValueError leaves the guard up |
| SpaceLineEdit.SpaceLineEdit.SplitEntry | src/pyqt_utils/widgets/space_line_edit.py:103-107 | the other parts become new line edits right after the changed one, which keeps its place, and the line edit after it gets the focus |
| SpaceLineEdit.SpaceLineEdit.InsertLineEdits | src/pyqt_utils/widgets/space_line_edit.py:104-105 | the loop inserts one new line edit per part, in order, from the insert index on |
| SpaceLineEdit.SpaceLineEdit.SetEntryText | src/pyqt_utils/widgets/space_line_edit.py:102 | an unchanged text changes nothing; a changed one is stored and notifies the widget, which under the guard does nothing more |
| SpaceLineEdit.SpaceLineEdit.EventFilter | src/pyqt_utils/widgets/space_line_edit.py:131-146 | focus lost by an empty line edit removes it without moving the focus; Backspace in an empty one removes it and moves the focus; Down and Up move the focus one place; any other event changes nothing |
| SpaceLineEdit.SpaceLineEdit.FocusIn | src/pyqt_utils/widgets/space_line_edit.py:81-93 | the first line edit gets the focus |
| SpaceLineEdit.InsertAfterRun | src/pyqt_utils/widgets/space_line_edit.py:104-105 | inserting the next new line edit right after the ones already inserted extends the run by one |
| SpaceLineEditLib.LayoutIndex | lib/pyqt_utils/widgets/space_line_edit.py:96 | the position of the line edit in the layout, or -1 when it is not there |
| PyStrings.WordsUnicodeSpace | lib/pyqt_utils/widgets/space_line_edit.py:86 | `str.split()` splits at Unicode whitespace too: "a", no-break space, "b", space, "c" gives the three words |
| SpaceLineEditLib.WordsPlain | lib/pyqt_utils/widgets/space_line_edit.py:85-86 | the words of a converted text are never empty and hold no space, comma or semicolon, so converting one again changes nothing and it does not split |
| SpaceLineEditLib.ConvertChars | lib/pyqt_utils/widgets/space_line_edit.py:75-79 | commas and semicolons become spaces and every other character is kept; the converted text splits exactly when the text held a space, a comma or a semicolon |
| SpaceLineEditLib.SpaceLineEdit.constructor | lib/pyqt_utils/widgets/space_line_edit.py:11-19 | one empty line edit in the layout, no focus |
| SpaceLineEditLib.SpaceLineEdit.GetValues | lib/pyqt_utils/widgets/space_line_edit.py:24-29 | the loop over the layout gives one value per line edit, in layout order |
| SpaceLineEditLib.SpaceLineEdit.PrepareLineEdit | lib/pyqt_utils/widgets/space_line_edit.py:44-49 | a new line edit holding the text is inserted into the layout at the position |
| SpaceLineEditLib.SpaceLineEdit.CleanAll | lib/pyqt_utils/widgets/space_line_edit.py:38-42 | the layout ends up empty |
| SpaceLineEditLib.SpaceLineEdit.SetValues | lib/pyqt_utils/widgets/space_line_edit.py:31-36 | the values become the given ones, or one empty value for none, held by new line edits; the focus is kept |
| SpaceLineEditLib.SpaceLineEdit.Convert | lib/pyqt_utils/widgets/space_line_edit.py:75-79 | the loop over the comma and the semicolon gives the converted text ConvertChars describes |
| SpaceLineEditLib.SpaceLineEdit.SetFocus | lib/pyqt_utils/widgets/space_line_edit.py:120-127 | True exactly when a line edit is at the layout index plus the offset, with a line edit outside the layout at -1; the focus moves there, or stays |
| SpaceLineEditLib.SpaceLineEdit.RemoveLineEdit | lib/pyqt_utils/widgets/space_line_edit.py:64-73 | the last line edit is never taken out; with changeFocus the focus goes to the previous line edit or else the next; the line edit leaves the layout when it is in it |
| SpaceLineEditLib.SpaceLineEdit.OnTextChanged | lib/pyqt_utils/widgets/space_line_edit.py:56-62 | an empty text removes the line edit; a text that splits once converted is split into line edits; any other text changes nothing |
| SpaceLineEditLib.SpaceLineEdit.AddLineEdit | lib/pyqt_utils/widgets/space_line_edit.py:85-100 | no words empties the line edit, and that notification removes it; otherwise it takes the first word, the other words (or one empty line edit after a single word) follow it, and the first new one gets the focus |
| SpaceLineEditLib.SpaceLineEdit.InsertWords | lib/pyqt_utils/widgets/space_line_edit.py:97-98 | the loop inserts one new line edit per further word, in order, from the insert index on |
| SpaceLineEditLib.SpaceLineEdit.SetEntryText | lib/pyqt_utils/widgets/space_line_edit.py:88 | an unchanged text changes nothing; a changed one is stored and its notification is handled |
| SpaceLineEditLib.SpaceLineEdit.EventFilter | lib/pyqt_utils/widgets/space_line_edit.py:102-118 | focus lost by an empty line edit removes it without moving the focus; Backspace in an empty one removes it and moves the focus; Down and Up move the focus one place; any other event changes nothing |
| SpaceLineEditLib.SpaceLineEdit.FocusIn | lib/pyqt_utils/widgets/space_line_edit.py:51-54 | the first line edit of the layout gets the focus |
| SpaceLineEditLib.InsertShown | lib/pyqt_utils/widgets/space_line_edit.py:97-98 | new line edits inserted anywhere keep the line edits of the layout distinct |
| SpaceLineEditLib.AddedValues | lib/pyqt_utils/widgets/space_line_edit.py:85-100 | after a split, the values are the old ones with the split entry replaced by its first word and then the other words (or one empty value) |
| JsonSerializable.DeepMapRaises | src/pyqt_utils/python/json_serializable.py:29-37 | only a dictionary with a callable left can raise; a list or a string catches AttributeError from its items |
| JsonSerializable.DeepMapListFallback | src/pyqt_utils/python/json_serializable.py:34-37 | a list never raises: when an item raises AttributeError the list comes back unmapped, otherwise as the list of its walked items, of the same length, and its own level's callable is not applied |
| JsonSerializable.DeepMapSplitsStrings | src/pyqt_utils/python/json_serializable.py:34-35 | even with no callable at its level, the string "ab" comes back as the list ["a", "b"] |
| JsonSerializable.DeepMapCatches | src/pyqt_utils/python/json_serializable.py:29-37 | with a second-level callable that raises, a list holding a dictionary comes back unmapped, while a dictionary holding that dictionary makes the whole walk raise |
| JsonSerializable.DeepMapTotal | src/pyqt_utils/python/json_serializable.py:18-37 | with callables that never raise the walk never raises, a list comes back as the same-length list of its walked items, and a dictionary without a callable at its level keeps its keys with each value walked by the callables below (unchanged at the last level) |
| JsonSerializable.Explode | src/pyqt_utils/python/json_serializable.py:29-35 | an independent definition of a walk with no callables: dictionaries keep their keys, lists their lengths, and a string becomes a list of as many items as it has characters |
| JsonSerializable.DeepMapNoCallables | src/pyqt_utils/python/json_serializable.py:18-37 | with no callable at any level the walk never raises and gives the value its independent definition `Explode` describes |
| JsonSerializable.ExplodeWalkable | src/pyqt_utils/python/json_serializable.py:29-35 | with no string above the last level the independent definition leaves a value unchanged |
| JsonSerializable.DeepMapIdentity | src/pyqt_utils/python/json_serializable.py:18-37 | with no callable at any level and no string above the last level, the walk returns the value unchanged |
| JsonSerializable.WalkableMappable | src/pyqt_utils/python/json_serializable.py:29-35 | a value of nested dictionaries and lists can be walked by deepMap |
| JsonSerializable.FromJsonEmpty | src/pyqt_utils/python/json_serializable.py:11-12 | an empty text with a first callable gives whatever that callable gives when called with nothing, and the decoder does not matter |
| JsonSerializable.FromJsonNeverRaises | src/pyqt_utils/python/json_serializable.py:10-15 | with callables that never raise, fromJson fails exactly when the text is decoded and does not decode, with the decode error, and otherwise gives the walked value |
| TimeStatusBar.Digits | src/pyqt_utils/widgets/time_status_bar.py:16 | exactly width characters, all decimal digits |
| TimeStatusBar.DigitsPrefix | src/pyqt_utils/widgets/time_status_bar.py:16 | dropping the last k of the width digits of n gives the digits of n with its last k decimal digits dropped |
| TimeStatusBar.DigitsValue | src/pyqt_utils/widgets/time_status_bar.py:16 | a number below 10^width reads back from its zero-padded digits |
| TimeStatusBar.Strftime | src/pyqt_utils/widgets/time_status_bar.py:16 | the %H:%M:%S.%f text is always 15 characters long |
| TimeStatusBar.DropLast | src/pyqt_utils/widgets/time_status_bar.py:16 | slicing off the last n characters gives everything before them, or nothing for a shorter text |
| TimeStatusBar.StampShape | src/pyqt_utils/widgets/time_status_bar.py:16 | the stamp is HH:MM:SS.hh, 11 characters, with the hundredths of a second taken from the microseconds |
| TimeStatusBar.StampFields | src/pyqt_utils/widgets/time_status_bar.py:16 | each field of the stamp reads back as the hour, minute, second and hundredths of the clock, with the separators at positions 2, 5 and 8 |
| TimeStatusBar.FormatMessageParts | src/pyqt_utils/widgets/time_status_bar.py:16 | the shown text is the 11-character stamp, then " :  " and then the message unchanged |
| TimeStatusBar.AppendedShape | src/pyqt_utils/widgets/time_status_bar.py:12 | the history never holds more than HISTORY_SIZE entries and ends with the new text; below capacity, the text is appended; at capacity, the oldest entry is dropped |
| TimeStatusBar.Newest | src/pyqt_utils/widgets/time_status_bar.py:12 | the last min(HISTORY_SIZE, length) entries of the sequence, in their order |
| TimeStatusBar.AppendedNewest | src/pyqt_utils/widgets/time_status_bar.py:17 | appending to the newest entries of a sequence gives the newest entries of the longer sequence |
| TimeStatusBar.ReplayNewest | src/pyqt_utils/widgets/time_status_bar.py:17 | showing messages one by one on the newest entries of some sequence gives the newest entries of that sequence followed by the messages |
| TimeStatusBar.ReplayFromEmpty | src/pyqt_utils/widgets/time_status_bar.py:12 | starting from an empty history, the history holds the last HISTORY_SIZE messages shown, oldest first |
| TimeStatusBar.ToolTipLines | src/pyqt_utils/widgets/time_status_bar.py:18 | when no message has a line break, splitting the tooltip at the line breaks gives the history back |
| TimeStatusBar.TimeStatusBar.constructor | src/pyqt_utils/widgets/time_status_bar.py:10-12 | the history starts empty |
| TimeStatusBar.TimeStatusBar.ShowMessage | src/pyqt_utils/widgets/time_status_bar.py:14-19 | the formatted text is appended to the bounded history, the tooltip is the history joined by line breaks, and the message and timeout are shown |
| TimeStatusBarLib.TimeStatusBar.constructor | lib/pyqt_utils/widgets/time_status_bar.py:11-13 | the history starts empty |
| TimeStatusBarLib.TimeStatusBar.ShowMessage | lib/pyqt_utils/widgets/time_status_bar.py:15-19 | the same new history, tooltip and shown message as the newer status bar |

## Left out

- Pickle.
  - Node `serialize`/`deserialize` and the pickled drag payloads are not modelled: pickle is a foreign library.
  - The payload is modelled directly as the list of node paths.
  - The MIME data holds it under the tag-filter format.
- Qt internals.
  - `createIndex`, `hasIndex`, `index`, `headerData`, `data` and `tr` are not modelled. An index is a node identity, so `internalPointer` is a lookup.
  - Signal delivery is not modelled: notifications are entries in the event log.
  - The `QStandardItemModel` decoding of plain drops is not modelled: the dropped strings are the input.
- The include/exclude `parent()` row, computed with `any(...)`, is not modelled. Its notifications use the node's true parent index.
- TagFilterSteps.Removable: a removal list must name separate nodes, none inside the subtree of another. So `TagFilterSteps.RemoveTree`, `TagFilterSteps.RemoveTreeView`, `TagFilterSteps.RemovalRun`, `TagFilterSteps.RemovalFacts` and `TagFilterModel.TagFilterModel.RemoveIndexes` do not model a selection holding a node and one of its descendants. The source accepts such a selection; it then removes the descendant from the already detached subtree and announces it under a parent index that is no longer in the model.
- IncludeExcludeSteps.RemoveStep: requires the index's node to be in the tree. So `IncludeExcludeSteps.RemoveStepOk` and `IncludeExcludeModel.IncludeExcludeModel.Remove` do not model removing a node that was already detached together with an ancestor, as the dialog's removal loop does for a selection holding a node and one of its descendants. The source accepts that call: the node still names its old parent, so it is removed from that parent's detached list and announced under an index of a node no longer in the model.
- IncludeExcludeModel.IncludeExcludeModel.constructor: only the top node the model builds itself is taken to hold the tuple `()`. The sequence nodes of a given tree are taken to hold lists. A given tree built with a node's default `tagList` holds a tuple there too, and `addSimple`, `remove` and `mergeTags` would raise AttributeError on it.
- Moving a node into its own subtree is a precondition of the drop operations, not modelled behaviour. So is dragging the top node, which `flags` forbids.
- `mergeTags` with the NOT node type is a precondition, not behaviour.
- Logging calls are left out: they have no effect on the state.
- Qt layout work is left out. This covers `_refreshLayout`, `deleteLater`, `setParent(None)`, validators attached to line edits, window flags and focus policy. The line edits' order lives in the list of the newer widget and in the layout list of the older one.
- SpaceLineEdit.SpaceLineEdit.constructor: requires a non-empty `splitChars`, which Python accepts until `_splitText` indexes `splitChars[0]` and raises IndexError.
- SpaceLineEdit.SpaceLineEdit.OnTextChanged: the `textChanged` signal is modelled as the list of emitted texts. Qt widgets that react to it are not modelled.
- SpaceLineEditLib.SpaceLineEdit.PrepareLineEdit: requires a position within the layout; Qt's `insertWidget` also accepts other positions and appends there.
- Focus events from Qt itself are not modelled. Only the focus moves the widget asks for are modelled.
- JsonSerializable.DeepMap: requires a value whose every level that still has a callable is a dictionary, a list or a string.
  - Python raises TypeError when asked to iterate a number, a boolean, None or an object a callable made; the precondition excludes those inputs.
- JsonSerializable.Callable: a callable of the map list is a function of its argument that returns an object or raises AttributeError; any other exception it raises, and the state it may read or change, are not modelled.
- JSON numbers are integers: floating point is not modelled.
- `json.loads` is a parameter of `FromJson`, not a JSON parser.
- TimeStatusBar.TimeStatusBar.ShowMessage: the time is the parameter `now`, and the change of time zone in the newer copy is not modelled. The newer copy takes the UTC time and converts it to local time; the older copy reads local time directly. Both are the same wall-clock fields here.
- `QStatusBar.showMessage` is modelled as the current message and timeout fields. Its display and timer are not.
- `changeStatusDec`, `time_status_bar_dec.py` and `lib/pyqt_utils/python/time_status_bar.py` are not part of this model. They are decorators and a thin wrapper.

## Findings

| source | as written | input that shows it | evidently intended | confidence | as-written member | corrected member |
|---|---|---|---|---|---|---|
| lib/pyqt_utils/widgets/tag_filter/model.py:173-176 | each dragged index's `parent()` is compared with the target after the earlier removals, so the target index has already moved up when a dragged sibling above it was taken out | top `OR[x, y, P[b0, b1, b2]]`, drag `y` and `b0` onto row 2 of `P`: `b0` no longer counts as being above the drop row, and `P` ends as `b1, b2, y, b0` | the dragged nodes land in front of `b2`, the child at the drop row: `P` becomes `b1, y, b0, b2`, as the newer model does | not executed | TagFilterLibFinding.LibDropOvershoots | TagFilterLibFinding.DropKeepsRow |
| lib/pyqt_utils/widgets/include_exclude/model.py:98-100 | the first index's parent node is read, and `len` is taken of it, before the loop checks that index | `mergeTags(And, [topLevelModel])` or `mergeTags(And, [QModelIndex()])`: the parent node is None and `len(None)` raises TypeError | a bad first index is refused with None like a bad later one | not executed | IncludeExcludeFinding.MergeFirstIndexRaises | IncludeExcludeFinding.MergeTagsCheckedOk |
