/**
 * The editing operations of the include/exclude editor as value-level
 * steps: `addSimple` appends a leaf, `remove` takes one node out of its
 * parent and leaves its back-reference alone, and `mergeTags` replaces
 * sibling nodes by one new OR/AND node holding them in the order they were
 * handed over. Rejections are silent: nothing changes, nothing is
 * reported, None is returned.
 */
module IncludeExcludeSteps {
  import opened Wrappers
  import opened TagFilterNodes
  import opened TagFilterTree
  import opened TagFilterIndex
  import opened TagFilterEdits
  import opened TagFilterEvents
  import opened TagFilterOps
  import opened TagFilterRemoval
  import opened TagFilterMerge
  import opened TagFilterSteps
  import opened TagFilterPaths
  import opened IncludeExcludeNodes
  import PyLists

  // ---------------------------------------------------------------------
  // addSimple

  /**
   * `addSimple(text, parent)`: the invalid index stands for the top node; a
   * leaf target, or a child already called `text`, makes it return without
   * a word; otherwise a new leaf is appended, announced under the target's
   * index (the top-level index for the invalid one). `tupleTop` says the
   * top node holds the tuple `()` a sequence node gets by default: the
   * append then raises AttributeError once the insertion is announced, and
   * the end of it is never sent.
   */
  function AddStep(t: Node, next: nat, parent: Index, text: string, tupleTop: bool): Outcome<Result<bool, PyError>>
    requires ValidTree(t) && IndexArg(t, parent)
  {
    var p := Target(t, parent);
    var f := Find(t, p);
    if f.Leaf? || text in TagNames(f.tagList) then Outcome(t, next, [], Ok(false))
    else if tupleTop && p == t.id then
      Outcome(t, next, [BeginInsertRows(TargetIndex(t, parent), |f.tagList|, |f.tagList|)], Err(AttributeError))
    else
      var s := AddSimpleStep(t, next, parent, text, None);
      Outcome(s.tree, s.next, s.events, Ok(true))
  }

  /**
   * `addSimple` appends exactly when the target is a sequence node without a
   * child of that name and holds a list: the new leaf comes last among the
   * children and points back at the target. On the top node's tuple it
   * raises AttributeError with the tree as it was and the insertion
   * announced but never ended. Otherwise nothing changes and nothing is
   * sent.
   */
  lemma AddStepOk(t: Node, next: nat, parent: Index, text: string, tupleTop: bool)
    requires ValidTree(t) && IndexArg(t, parent) && Fresh(t, next)
    ensures var s := AddStep(t, next, parent, text, tupleTop);
      var p := Target(t, parent);
      var n := |View(t)[p].children|;
      && p in View(t)
      && ValidTree(s.tree) && s.tree.id == t.id && Fresh(s.tree, s.next) && IndexArg(s.tree, parent)
      && (s.result == Ok(false) <==> !(View(t)[p].what.SeqLabel? && text !in ChildNames(View(t), p)))
      && (s.result == Err(AttributeError) <==>
            View(t)[p].what.SeqLabel? && text !in ChildNames(View(t), p) && tupleTop && p == t.id)
      && (s.result == Ok(true) <==>
            View(t)[p].what.SeqLabel? && text !in ChildNames(View(t), p) && !(tupleTop && p == t.id))
      && (s.result == Ok(false) ==> s.tree == t && s.next == next && s.events == [])
      && (s.result.Err? ==>
            s.tree == t && s.next == next && s.events == [BeginInsertRows(TargetIndex(t, parent), n, n)])
      && (s.result == Ok(true) ==>
            && s.next == next + 1
            && View(s.tree) == AddedLeaf(View(t), p, n, next, text)
            && View(s.tree)[next] == Rec(LeafLabel(text), Some(p), [])
            && ChildNames(View(s.tree), p) == ChildNames(View(t), p) + [text]
            && s.events == [BeginInsertRows(TargetIndex(t, parent), n, n), EndInsertRows])
  {
    var p := Target(t, parent);
    AddSimpleStepOk(t, next, parent, text, None);
    SequenceInView(t, p);
    PyLists.InsertAtEnd(ChildNames(View(t), p), text);
    var f := Find(t, p);
    if f.Sequence? {
      TagNamesView(t, p);
    }
  }

  /** The three ways `addSimple` ends: untouched, with the leaf appended, or raising on the top node's tuple. */
  lemma AddStepCases(t: Node, next: nat, parent: Index, text: string, tupleTop: bool)
    requires ValidTree(t) && IndexArg(t, parent) && Fresh(t, next)
    ensures Target(t, parent) in Ids(t)
    ensures var s := AddStep(t, next, parent, text, tupleTop);
      var p := Target(t, parent);
      var f := Find(t, p);
      && ValidTree(s.tree) && Fresh(s.tree, s.next)
      && (f.Leaf? || text in TagNames(f.tagList) ==> s == Outcome(t, next, [], Ok(false)))
      && (f.Sequence? && text !in TagNames(f.tagList) && tupleTop && p == t.id ==>
            s == Outcome(t, next, [BeginInsertRows(TargetIndex(t, parent), |f.tagList|, |f.tagList|)], Err(AttributeError)))
      && (f.Sequence? && text !in TagNames(f.tagList) && !(tupleTop && p == t.id) ==>
            s == Outcome(Attach(t, p, |f.tagList|, Leaf(next, text, Some(p))), next + 1,
                         [BeginInsertRows(TargetIndex(t, parent), |f.tagList|, |f.tagList|), EndInsertRows], Ok(true)))
  {
    AddStepOk(t, next, parent, text, tupleTop);
  }

  // ---------------------------------------------------------------------
  // remove

  /**
   * `remove(curIndex)`: nothing for the invalid or the top-level index;
   * otherwise the node is dropped from its parent's list, announced as rows
   * 0 to 0 of the parent index whatever its row, and returned with its
   * `parent` still naming the node it left.
   */
  function RemoveStep(t: Node, next: nat, ind: Index): Outcome<Option<Node>>
    requires ValidTree(t) && (ind.At? ==> ind.node in Ids(t) && (ind.node == t.id ==> ind.row == 0))
  {
    if ind.Invalid? || ind == TopLevel(t) then Outcome(t, next, [], None)
    else
      var m := ind.node;
      Outcome(Detach(t, ParentOf(t, m), m).0, next,
              [BeginRemoveRows(ParentIndex(t, ind), 0, 0), EndRemoveRows], Some(Find(t, m)))
  }

  /**
   * `remove` refuses exactly the indexes the editing operations do not take;
   * a removal deletes the node's subtree, cuts it from its parent's list and
   * hands back the node as it was, its parent included.
   */
  lemma RemoveStepOk(t: Node, next: nat, ind: Index)
    requires ValidTree(t) && Fresh(t, next) && (ind.At? ==> ind.node in Ids(t) && (ind.node == t.id ==> ind.row == 0))
    ensures var o := RemoveStep(t, next, ind);
      && ValidTree(o.tree) && o.tree.id == t.id && o.next == next && Fresh(o.tree, o.next)
      && (o.result.None? <==> !Editable(t, ind))
      && (o.result.None? ==> o.tree == t && o.events == [])
      && (o.result.Some? ==>
            var m := ind.node;
            var p := ParentOf(t, m);
            && m != t.id && p in View(t) && m in View(t)[p].children
            && o.result.value == Find(t, m) && o.result.value.parent == Some(p)
            && Ids(o.tree) == Ids(t) - Ids(Find(t, m))
            && View(o.tree) == (View(t) - Ids(Find(t, m)))[p := View(t)[p].(children := PyLists.RemoveFirst(View(t)[p].children, m))]
            && o.events == [BeginRemoveRows(IndexOfNode(t, p), 0, 0), EndRemoveRows])
  {
    if Editable(t, ind) {
      var m := ind.node;
      var p := ParentOf(t, m);
      SequenceInView(t, p);
      DetachIds(t, p, m);
      DetachView(t, p, m);
      DetachLinked(t, p, m);
    }
  }

  // ---------------------------------------------------------------------
  // mergeTags

  /**
   * `[self.remove(ind) for ind in indexes]` on sibling indexes: one pair of
   * notifications per index, rows 0 to 0 of the parent index as the tree
   * stands at that point.
   */
  function RemoveRun(t: Node, xs: seq<Index>): seq<Event>
    requires ValidTree(t) && AllAt(xs) && Separate(t, Nodes(xs))
    decreases |xs|
  {
    if xs == [] then []
    else
      var m := xs[0].node;
      RemovalStepFacts(t, xs);
      [BeginRemoveRows(ParentIndex(t, xs[0]), 0, 0), EndRemoveRows]
        + RemoveRun(Detach(t, ParentOf(t, m), m).0, xs[1..])
  }

  /** `n` removals announced under `pidx`, each as rows 0 to 0. */
  function RemovePairs(pidx: Index, n: nat): (r: seq<Event>)
    ensures |r| == 2 * n
    ensures forall k :: 0 <= k < |r| ==> r[k] == if k % 2 == 0 then BeginRemoveRows(pidx, 0, 0) else EndRemoveRows
  {
    if n == 0 then [] else [BeginRemoveRows(pidx, 0, 0), EndRemoveRows] + RemovePairs(pidx, n - 1)
  }

  /** Taking a child of `p` out leaves the index of `p` as it was. */
  lemma ParentKept(t: Node, p: NodeId, m: NodeId)
    requires ValidTree(t) && m in Ids(t) && m != t.id && ParentOf(t, m) == p
    ensures var t1 := Detach(t, p, m).0;
      && ValidTree(t1) && t1.id == t.id && p in Ids(t1) && IndexOfNode(t1, p) == IndexOfNode(t, p)
  {
    var t1 := Detach(t, p, m).0;
    DetachIds(t, p, m);
    DetachView(t, p, m);
    DetachLinked(t, p, m);
    ChildNotAbove(t, p, m);
    if p != t.id {
      var g := ParentOf(t, p);
      IndexOfNodeView(t, p);
      if g in Ids(Find(t, m)) {
        ChildBelow(t, p, m);
      }
    }
    LiveKept(t, t1, IndexOfNode(t, p));
  }

  /** Taking the first of the sibling indexes out leaves the others siblings under `p`. */
  lemma SiblingsRest(t: Node, p: NodeId, xs: seq<Index>)
    requires ValidTree(t) && AllAt(xs) && Siblings(t, p, Nodes(xs)) && PyLists.NoDup(Nodes(xs)) && xs != []
    ensures Separate(t, Nodes(xs))
    ensures var m := xs[0].node;
      var t1 := Detach(t, ParentOf(t, m), m).0;
      && ValidTree(t1) && AllAt(xs[1..]) && Separate(t1, Nodes(xs[1..]))
      && Siblings(t1, p, Nodes(xs[1..])) && PyLists.NoDup(Nodes(xs[1..]))
  {
    var ms := Nodes(xs);
    SiblingsSeparate(t, p, ms);
    RemovalStepFacts(t, xs);
    var m := xs[0].node;
    var t1 := Detach(t, p, m).0;
    DetachStep(t, ms);
    var rest := Nodes(xs[1..]);
    assert forall k :: 0 <= k < |rest| ==> rest[k] == ms[k + 1];
    forall k | 0 <= k < |rest| ensures rest[k] in Ids(t1) && rest[k] != t1.id && ParentOf(t1, rest[k]) == p {
      assert Find(t1, rest[k]) == Find(t, rest[k]);
    }
  }

  /** One removal of the run: announced under the index of `p`, which the removal leaves as it was. */
  lemma SiblingStep(t: Node, p: NodeId, xs: seq<Index>)
    requires ValidTree(t) && AllAt(xs) && Siblings(t, p, Nodes(xs)) && PyLists.NoDup(Nodes(xs)) && xs != []
    ensures Separate(t, Nodes(xs)) && p in Ids(t)
    ensures var m := xs[0].node;
      var t1 := Detach(t, ParentOf(t, m), m).0;
      && ValidTree(t1) && AllAt(xs[1..]) && Separate(t1, Nodes(xs[1..]))
      && Siblings(t1, p, Nodes(xs[1..])) && PyLists.NoDup(Nodes(xs[1..]))
      && p in Ids(t1) && IndexOfNode(t1, p) == IndexOfNode(t, p)
      && RemoveRun(t, xs) == [BeginRemoveRows(IndexOfNode(t, p), 0, 0), EndRemoveRows] + RemoveRun(t1, xs[1..])
  {
    SiblingsRest(t, p, xs);
    assert Nodes(xs)[0] == xs[0].node;
    ParentKept(t, p, xs[0].node);
  }

  /** Removing sibling indexes in turn announces every removal under the same parent index. */
  lemma {:induction false} RemoveRunPairs(t: Node, p: NodeId, xs: seq<Index>)
    requires ValidTree(t) && AllAt(xs) && Siblings(t, p, Nodes(xs)) && PyLists.NoDup(Nodes(xs)) && p in Ids(t)
    ensures Separate(t, Nodes(xs))
    ensures RemoveRun(t, xs) == RemovePairs(IndexOfNode(t, p), |xs|)
    decreases |xs|
  {
    if xs != [] {
      SiblingStep(t, p, xs);
      var m := xs[0].node;
      var t1 := Detach(t, ParentOf(t, m), m).0;
      var pidx := IndexOfNode(t, p);
      RemoveRunPairs(t1, p, xs[1..]);
      assert RemoveRun(t1, xs[1..]) == RemovePairs(pidx, |xs| - 1);
      assert RemovePairs(pidx, |xs|) == [BeginRemoveRows(pidx, 0, 0), EndRemoveRows] + RemovePairs(pidx, |xs| - 1);
    }
  }

  /**
   * Turn `i` of `[self.remove(ind) for ind in indexes]` over sibling
   * indexes: index `i` is removed as `remove` does it, its notifications
   * open the rest of the run, and the indexes after it are still siblings
   * in the smaller tree.
   */
  lemma RemoveTurn(t: Node, next: nat, p: NodeId, xs: seq<Index>, i: nat)
    requires i < |xs| && ValidTree(t) && AllAt(xs[i..]) && Siblings(t, p, Nodes(xs[i..])) && PyLists.NoDup(Nodes(xs[i..]))
    ensures Separate(t, Nodes(xs[i..])) && p in Ids(t)
    ensures var m := xs[i].node;
      && m in Ids(t) && m != t.id && ParentOf(t, m) == p && Editable(t, xs[i])
      && var t1 := Detach(t, p, m).0;
      && ValidTree(t1) && p in Ids(t1)
      && AllAt(xs[i + 1..]) && Separate(t1, Nodes(xs[i + 1..])) && Siblings(t1, p, Nodes(xs[i + 1..]))
      && PyLists.NoDup(Nodes(xs[i + 1..]))
      && RemoveStep(t, next, xs[i]) == Outcome(t1, next, RemoveStep(t, next, xs[i]).events, Some(Find(t, m)))
      && RemoveRun(t, xs[i..]) == RemoveStep(t, next, xs[i]).events + RemoveRun(t1, xs[i + 1..])
  {
    var ys := xs[i..];
    assert ys[0] == xs[i] && ys[1..] == xs[i + 1..];
    assert Nodes(ys)[0] == xs[i].node;
    SiblingStep(t, p, ys);
  }

  /** The same turn on the value level: `DetachSeq` hands back node `i` without its parent, then goes on in the smaller tree. */
  lemma DetachTurn(t: Node, p: NodeId, xs: seq<Index>, i: nat)
    requires i < |xs| && ValidTree(t) && AllAt(xs[i..]) && Siblings(t, p, Nodes(xs[i..])) && PyLists.NoDup(Nodes(xs[i..]))
    ensures Separate(t, Nodes(xs[i..])) && xs[i].node in Ids(t) && xs[i].node != t.id && ParentOf(t, xs[i].node) == p
    ensures var m := xs[i].node;
      var t1 := Detach(t, p, m).0;
      && ValidTree(t1) && Separate(t1, Nodes(xs[i + 1..]))
      && DetachSeq(t, Nodes(xs[i..])).0 == DetachSeq(t1, Nodes(xs[i + 1..])).0
      && DetachSeq(t, Nodes(xs[i..])).1 == [WithParent(Find(t, m), None)] + DetachSeq(t1, Nodes(xs[i + 1..])).1
  {
    var ms := Nodes(xs[i..]);
    SiblingsSeparate(t, p, ms);
    var m := xs[i].node;
    assert xs[i..][1..] == xs[i + 1..];
    assert ms[0] == m && ms[1..] == Nodes(xs[i + 1..]) && ParentOf(t, m) == p;
    DetachStep(t, ms);
    DetachIds(t, p, m);
  }

  /** The nodes as `DetachSeq` hands them back: the same, without a parent. */
  function Orphans(ns: seq<Node>): (r: seq<Node>)
    ensures |r| == |ns| && forall j :: 0 <= j < |ns| ==> r[j] == WithParent(ns[j], None)
  {
    seq(|ns|, j requires 0 <= j < |ns| => WithParent(ns[j], None))
  }

  lemma OrphansAppend(ns: seq<Node>, n: Node)
    ensures Orphans(ns + [n]) == Orphans(ns) + [WithParent(n, None)]
  {
  }

  /** Setting every parent to the new node does not care what the parents were. */
  lemma AdoptOrphans(ns: seq<Node>, id: NodeId)
    ensures Adopt(Orphans(ns), id) == Adopt(ns, id)
  {
    assert forall j :: 0 <= j < |ns| ==> Adopt(Orphans(ns), id)[j] == Adopt(ns, id)[j];
  }

  /**
   * What the loop over `[self.remove(ind) for ind in indexes]` keeps from
   * turn `i` to turn `i + 1`: the rest of the run and of `DetachSeq` from
   * the tree at hand, and the nodes cut so far.
   */
  lemma RemoveAdvance(t: Node, next: nat, p: NodeId, xs: seq<Index>, i: nat, o: Outcome<Option<Node>>,
                      final: (Node, seq<Node>), finalLog: seq<Event>, cleared: seq<Node>, l: seq<Event>)
    requires i < |xs| && ValidTree(t) && AllAt(xs[i..]) && Siblings(t, p, Nodes(xs[i..])) && PyLists.NoDup(Nodes(xs[i..]))
    requires Separate(t, Nodes(xs[i..]))
    requires final.0 == DetachSeq(t, Nodes(xs[i..])).0 && final.1 == cleared + DetachSeq(t, Nodes(xs[i..])).1
    requires finalLog == l + RemoveRun(t, xs[i..])
    requires xs[i].node in Ids(t) && xs[i].node != t.id && o == RemoveStep(t, next, xs[i])
    ensures o.result.Some? && p in Ids(o.tree) && ValidTree(o.tree) && o.tree.id == t.id
    ensures AllAt(xs[i + 1..]) && Siblings(o.tree, p, Nodes(xs[i + 1..])) && PyLists.NoDup(Nodes(xs[i + 1..]))
    ensures Separate(o.tree, Nodes(xs[i + 1..]))
    ensures final.0 == DetachSeq(o.tree, Nodes(xs[i + 1..])).0
    ensures final.1 == (cleared + [WithParent(o.result.value, None)]) + DetachSeq(o.tree, Nodes(xs[i + 1..])).1
    ensures finalLog == (l + o.events) + RemoveRun(o.tree, xs[i + 1..])
  {
    RemoveTurn(t, next, p, xs, i);
    DetachTurn(t, p, xs, i);
    var t1 := Detach(t, p, xs[i].node).0;
    assert o.tree == t1;
    PyLists.AppendAssoc(l, o.events, RemoveRun(t1, xs[i + 1..]));
    PyLists.AppendAssoc(cleared, [WithParent(o.result.value, None)], DetachSeq(t1, Nodes(xs[i + 1..])).1);
  }

  /** The first `k` indexes of `mergeTags`' loop passed its checks: valid, not the top-level index, under the first one's parent. */
  predicate Passed(t: Node, xs: seq<Index>, k: nat)
    requires ValidTree(t) && xs != [] && xs[0].At? && xs[0].node in Ids(t) && k <= |xs|
  {
    forall j :: 0 <= j < k ==> Editable(t, xs[j]) && xs[j].node in Ids(t) && ParentIndex(t, xs[j]) == ParentIndex(t, xs[0])
  }

  /** Index `k` passes too: it names a child of the first index's parent. */
  lemma PassedNext(t: Node, xs: seq<Index>, k: nat)
    requires ValidTree(t) && xs != [] && xs[0].At? && xs[0].node in Ids(t) && xs[0].node != t.id && k < |xs|
    requires Passed(t, xs, k) && Live(t, xs[k]) && xs[k] != TopLevel(t) && ParentIndex(t, xs[k]) == ParentIndex(t, xs[0])
    ensures Passed(t, xs, k + 1)
    ensures xs[k].node != t.id && xs[k].node in ChildIds(Find(t, ParentOf(t, xs[0].node)).tagList)
  {
    LiveTopLevel(t, xs[k]);
    SameParentKid(t, [xs[0], xs[k]], 1);
  }

  /** All indexes passed: the list is editable and of one parent. */
  lemma PassedAll(t: Node, xs: seq<Index>)
    requires ValidTree(t) && xs != [] && xs[0].At? && xs[0].node in Ids(t) && Passed(t, xs, |xs|)
    ensures IndexProblem(t, xs).None? && SameParent(t, xs)
  {
    IndexProblemNone(t, xs);
  }

  /**
   * What a merge that goes through starts from: the indexes name separate
   * children of one sequence node `p`, the first of them not the top node.
   */
  lemma MergeInput(t: Node, xs: seq<Index>)
    requires ValidTree(t) && MergeArg(t, xs) && IndexProblem(t, xs).None? && SameParent(t, xs)
    ensures xs != [] && AllAt(xs) && xs[0].node in Ids(t) && xs[0].node != t.id
    ensures var p := ParentOf(t, xs[0].node);
      && p in View(t) && ChildIds(Find(t, p).tagList) == View(t)[p].children
      && Siblings(t, p, Nodes(xs)) && PyLists.NoDup(Nodes(xs)) && Separate(t, Nodes(xs))
      && (forall k :: 0 <= k < |xs| ==> Nodes(xs)[k] in ChildIds(Find(t, p).tagList))
      && ParentIndex(t, xs[0]) == IndexOfNode(t, p)
  {
    MergeReady(t, xs);
    Accepted(t, xs);
    SiblingsSeparate(t, ParentOf(t, xs[0].node), Nodes(xs));
  }

  /**
   * `mergeTags(nodeType, indexes)`: None for an empty list; the parent of the
   * first index is read before any check, so `len(None)` raises TypeError
   * when that index is invalid or the top-level one; None with nothing
   * changed when an index is invalid, the top-level one, or under another
   * parent; otherwise the nodes are removed in the order given, and a new
   * `kind` node holding them in that order goes in at the smallest of their
   * positions, announced as rows `first` to `first + 1`; its index is
   * returned.
   */
  function MergeTagsStep(t: Node, next: nat, kind: SeqKind, xs: seq<Index>): Outcome<Result<Option<Index>, PyError>>
    requires ValidTree(t) && MergeArg(t, xs) && kind != Not
  {
    if xs == [] then Outcome(t, next, [], Ok(None))
    else if xs[0].Invalid? || xs[0].node == t.id then Outcome(t, next, [], Err(TypeError))
    else if IndexProblem(t, xs).Some? || !SameParent(t, xs) then Outcome(t, next, [], Ok(None))
    else
      MergeInput(t, xs);
      var p := ParentOf(t, xs[0].node);
      var first := MinPos(ChildIds(Find(t, p).tagList), Nodes(xs));
      Outcome(MergeTree(t, p, first, Nodes(xs), next, kind), next + 1,
              RemoveRun(t, xs) + [BeginInsertRows(ParentIndex(t, xs[0]), first, first + 1), EndInsertRows],
              Ok(Some(At(first, next))))
  }

  /** The merge that goes through, unfolded. */
  lemma MergeTagsGoes(t: Node, next: nat, kind: SeqKind, xs: seq<Index>)
    requires ValidTree(t) && MergeArg(t, xs) && kind != Not
    requires IndexProblem(t, xs).None? && SameParent(t, xs)
    ensures xs != [] && AllAt(xs) && xs[0].node in Ids(t) && xs[0].node != t.id
    ensures var p := ParentOf(t, xs[0].node);
      && Siblings(t, p, Nodes(xs)) && PyLists.NoDup(Nodes(xs)) && Separate(t, Nodes(xs))
      && var first := MinPos(ChildIds(Find(t, p).tagList), Nodes(xs));
      && MergeTagsStep(t, next, kind, xs)
         == Outcome(MergeTree(t, p, first, Nodes(xs), next, kind), next + 1,
                    RemoveRun(t, xs) + [BeginInsertRows(ParentIndex(t, xs[0]), first, first + 1), EndInsertRows],
                    Ok(Some(At(first, next))))
  {
    MergeInput(t, xs);
  }

  /**
   * A merge keeps the tree valid, its top node and the identities to come
   * fresh. It raises exactly when the first index is invalid or the
   * top-level one, goes through exactly when every index is editable and
   * under one parent, and otherwise returns None having changed and sent
   * nothing.
   */
  lemma MergeTagsStepOk(t: Node, next: nat, kind: SeqKind, xs: seq<Index>)
    requires ValidTree(t) && Fresh(t, next) && MergeArg(t, xs) && kind != Not
    ensures var o := MergeTagsStep(t, next, kind, xs);
      && ValidTree(o.tree) && o.tree.id == t.id && Fresh(o.tree, o.next)
      && (o.result.Err? <==> xs != [] && (xs[0].Invalid? || xs[0].node == t.id))
      && (o.result.Err? ==> o.result.error == TypeError)
      && (o.result.Ok? && o.result.value.Some? <==> IndexProblem(t, xs).None? && SameParent(t, xs))
      && (!(o.result.Ok? && o.result.value.Some?) ==> o.tree == t && o.next == next && o.events == [])
  {
    if IndexProblem(t, xs).None? && SameParent(t, xs) {
      MergeTagsKeeps(t, next, kind, xs);
    } else {
      MergeTagsRefused(t, next, kind, xs);
    }
  }

  /** `MergeTree` unfolded: the nodes cut by `DetachSeq`, then the new node over them put in at `first`. */
  lemma MergeTreeParts(t: Node, p: NodeId, first: int, ms: seq<NodeId>, id: NodeId, kind: SeqKind)
    requires ValidTree(t) && Separate(t, ms) && Siblings(t, p, ms) && ms != []
    ensures p in Ids(DetachSeq(t, ms).0) && Find(DetachSeq(t, ms).0, p).Sequence?
    ensures MergeTree(t, p, first, ms, id, kind)
      == Attach(DetachSeq(t, ms).0, p, first, NewSequence(id, kind, DetachSeq(t, ms).1, Some(p)))
  {
    RemovedParent(t, p, ms);
  }

  /**
   * The merge that goes through, as the removals of `DetachSeq` followed by
   * the insertion of the new node over the nodes they hand back.
   */
  lemma MergeTagsParts(t: Node, next: nat, kind: SeqKind, xs: seq<Index>, p: NodeId, pidx: Index, first: int)
    requires ValidTree(t) && MergeArg(t, xs) && kind != Not
    requires IndexProblem(t, xs).None? && SameParent(t, xs)
    requires xs[0].node != t.id && p == ParentOf(t, xs[0].node) && pidx == ParentIndex(t, xs[0])
    requires first == MinPos(ChildIds(Find(t, p).tagList), Nodes(xs))
    ensures AllAt(xs) && Siblings(t, p, Nodes(xs)) && PyLists.NoDup(Nodes(xs)) && p in Ids(t) && Separate(t, Nodes(xs))
    ensures p in Ids(DetachSeq(t, Nodes(xs)).0) && Find(DetachSeq(t, Nodes(xs)).0, p).Sequence?
    ensures var o := MergeTagsStep(t, next, kind, xs);
      && o.tree == Attach(DetachSeq(t, Nodes(xs)).0, p, first, NewSequence(next, kind, DetachSeq(t, Nodes(xs)).1, Some(p)))
      && o.next == next + 1 && o.result == Ok(Some(At(first, next)))
      && o.events == RemoveRun(t, xs) + [BeginInsertRows(pidx, first, first + 1), EndInsertRows]
  {
    MergeTagsGoes(t, next, kind, xs);
    assert AllAt(xs) && Separate(t, Nodes(xs)) && Siblings(t, p, Nodes(xs));
    var o := MergeTagsStep(t, next, kind, xs);
    assert o == Outcome(MergeTree(t, p, first, Nodes(xs), next, kind), next + 1,
                        RemoveRun(t, xs) + [BeginInsertRows(pidx, first, first + 1), EndInsertRows],
                        Ok(Some(At(first, next))));
    MergeTreeParts(t, p, first, Nodes(xs), next, kind);
  }

  /** A merge that goes through keeps the tree valid and adds exactly the node `next`. */
  lemma MergeTagsKeeps(t: Node, next: nat, kind: SeqKind, xs: seq<Index>)
    requires ValidTree(t) && Fresh(t, next) && MergeArg(t, xs) && kind != Not
    requires IndexProblem(t, xs).None? && SameParent(t, xs)
    ensures xs != [] && xs[0].At? && xs[0].node != t.id
    ensures var o := MergeTagsStep(t, next, kind, xs);
      && ValidTree(o.tree) && o.tree.id == t.id && o.next == next + 1 && Fresh(o.tree, o.next)
      && o.result.Ok? && o.result.value.Some?
  {
    MergeTagsGoes(t, next, kind, xs);
    var p := ParentOf(t, xs[0].node);
    var first := MinPos(ChildIds(Find(t, p).tagList), Nodes(xs));
    var o := MergeTagsStep(t, next, kind, xs);
    var t' := MergeTree(t, p, first, Nodes(xs), next, kind);
    assert o.tree == t' && o.next == next + 1 && o.result == Ok(Some(At(first, next)));
    assert next !in Ids(t);
    assert ValidTree(t') && t'.id == t.id && Ids(t') == Ids(t) + {next} by { MergeOk(t, p, first, Nodes(xs), next, kind); }
    assert Fresh(t', next + 1);
  }

  /** A merge that does not go through changes nothing and raises TypeError exactly for a bad first index. */
  lemma MergeTagsRefused(t: Node, next: nat, kind: SeqKind, xs: seq<Index>)
    requires ValidTree(t) && MergeArg(t, xs) && kind != Not
    requires !(IndexProblem(t, xs).None? && SameParent(t, xs))
    ensures MergeTagsStep(t, next, kind, xs)
      == Outcome(t, next, [], if xs != [] && (xs[0].Invalid? || xs[0].node == t.id) then Err(TypeError) else Ok(None))
  {
  }

  /**
   * A merge that goes through: the new node `next` stands in the common
   * parent at the smallest position of a merged node and holds the merged
   * nodes in the order of the argument, each pointing back to it; the parent
   * loses them, nothing else changes, every removal is announced as rows 0
   * to 0 of the parent and the insertion as rows `first` to `first + 1`;
   * the returned index is the new node's live index.
   */
  lemma MergeTagsMeaning(t: Node, next: nat, kind: SeqKind, xs: seq<Index>)
    requires ValidTree(t) && Fresh(t, next) && MergeArg(t, xs) && kind != Not
    requires IndexProblem(t, xs).None? && SameParent(t, xs)
    ensures xs != [] && xs[0].At? && xs[0].node in Ids(t) && xs[0].node != t.id && next !in Ids(t)
    ensures var o := MergeTagsStep(t, next, kind, xs);
      var p := ParentOf(t, xs[0].node);
      var kids := View(t)[p].children;
      var ms := Nodes(xs);
      && o.result.Ok? && o.result.value.Some? && o.next == next + 1 && ValidTree(o.tree)
      && var first := o.result.value.value.row;
      && o.result.value.value == At(first, next) && 0 <= first < |kids| && LeastPos(kids, ms, first)
      && o.events == RemovePairs(IndexOfNode(t, p), |xs|) + [BeginInsertRows(IndexOfNode(t, p), first, first + 1), EndInsertRows]
      && var v' := View(o.tree);
      && next in v' && v'[next] == Rec(SeqLabel(kind), Some(p), ms)
      && p in v' && v'[p] == View(t)[p].(children := kids[..first] + [next] + FilterOut(kids[first..], Roots(ms)))
      && (forall k :: 0 <= k < |ms| ==> ms[k] in View(t) && ms[k] in v' && v'[ms[k]] == View(t)[ms[k]].(parent := Some(next)))
      && (forall y :: y in View(t) && y != p && y !in ms ==> y in v' && v'[y] == View(t)[y])
      && Live(o.tree, o.result.value.value)
  {
    MergeInput(t, xs);
    MergeTagsGoes(t, next, kind, xs);
    var p := ParentOf(t, xs[0].node);
    var ms := Nodes(xs);
    var first := MinPos(ChildIds(Find(t, p).tagList), ms);
    RemoveRunPairs(t, p, xs);
    MinPosLeast(ChildIds(Find(t, p).tagList), ms);
    MergedOutcome(t, p, first, ms, next, kind, IndexOfNode(t, p), |xs|, MergeTagsStep(t, next, kind, xs));
  }

  /**
   * The outcome of a merge that goes through, given its tree, counter,
   * events and result: the tree is valid, with the view `MergedMeaning`
   * describes, and the returned index is the new node's live index.
   */
  lemma MergedOutcome(t: Node, p: NodeId, first: int, ms: seq<NodeId>, next: NodeId, kind: SeqKind, pidx: Index, n: nat, o: Outcome<Result<Option<Index>, PyError>>)
    requires ValidTree(t) && Separate(t, ms) && Siblings(t, p, ms) && ms != [] && next !in Ids(t)
    requires p in Ids(t) && LeastPos(View(t)[p].children, ms, first)
    requires o == Outcome(MergeTree(t, p, first, ms, next, kind), next + 1,
                          RemovePairs(pidx, n) + [BeginInsertRows(pidx, first, first + 1), EndInsertRows], Ok(Some(At(first, next))))
    ensures var kids := View(t)[p].children;
      && o.result.Ok? && o.result.value.Some? && o.next == next + 1 && ValidTree(o.tree)
      && o.result.value.value == At(first, next) && 0 <= first < |kids|
      && o.events == RemovePairs(pidx, n) + [BeginInsertRows(pidx, first, first + 1), EndInsertRows]
      && var v' := View(o.tree);
      && next in v' && v'[next] == Rec(SeqLabel(kind), Some(p), ms)
      && p in v' && v'[p] == View(t)[p].(children := kids[..first] + [next] + FilterOut(kids[first..], Roots(ms)))
      && (forall k :: 0 <= k < |ms| ==> ms[k] in View(t) && ms[k] in v' && v'[ms[k]] == View(t)[ms[k]].(parent := Some(next)))
      && (forall y :: y in View(t) && y != p && y !in ms ==> y in v' && v'[y] == View(t)[y])
      && Live(o.tree, o.result.value.value)
  {
    var kids := View(t)[p].children;
    var t' := MergeTree(t, p, first, ms, next, kind);
    MergedMeaning(t, p, first, ms, next, kind);
    assert ValidTree(t') && t'.id == t.id && Ids(t') == Ids(t) + {next} by { MergeOk(t, p, first, ms, next, kind); }
    assert next !in kids[..first] by {
      ViewClosed(t);
      assert forall c :: c in kids[..first] ==> c in kids;
    }
    IndexOfSplice(kids[..first], next, FilterOut(kids[first..], Roots(ms)));
    IndexOfNodeView(t', next);
  }

  // ---------------------------------------------------------------------
  // the default top node

  /** The top node `IncludeExcludeModel(None)` builds: `TagFilterOrNode()`, an OR node over the tuple `()`. */
  function DefaultTop(): Node
  {
    Sequence(0, Or, None, [])
  }

  /** The default top node is a valid tree holding no node but itself. */
  lemma DefaultTopShape()
    ensures ValidTree(DefaultTop()) && Ids(DefaultTop()) == {0}
    ensures forall next: nat :: next != 0 ==> Fresh(DefaultTop(), next)
  {
  }

  /**
   * The default top node never gains a child: `addSimple` into it raises
   * AttributeError after announcing row 0, `remove` finds only the
   * top-level index, and `mergeTags` has no child to merge.
   */
  lemma DefaultTopStays(next: nat, parent: Index, text: string, ind: Index, kind: SeqKind, xs: seq<Index>)
    requires ValidTree(DefaultTop()) && IndexArg(DefaultTop(), parent)
    requires ind.At? ==> ind.node in Ids(DefaultTop()) && (ind.node == 0 ==> ind.row == 0)
    requires MergeArg(DefaultTop(), xs) && kind != Not
    ensures AddStep(DefaultTop(), next, parent, text, true)
      == Outcome(DefaultTop(), next, [BeginInsertRows(TopLevel(DefaultTop()), 0, 0)], Err(AttributeError))
    ensures RemoveStep(DefaultTop(), next, ind) == Outcome(DefaultTop(), next, [], None)
    ensures var o := MergeTagsStep(DefaultTop(), next, kind, xs);
      o.tree == DefaultTop() && o.next == next && o.events == [] && (o.result == Ok(None) || o.result == Err(TypeError))
  {
    var t := DefaultTop();
    DefaultTopShape();
    assert Target(t, parent) == 0;
    assert TargetIndex(t, parent) == TopLevel(t);
  }
}
