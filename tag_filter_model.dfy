/**
 * The item model of the tag-filter editor (the `src` variant): the tree
 * it owns, the notifications it sends and every editing operation, each
 * proved against the value-level specification of the edit engine.
 *
 * The node objects the source mutates in place are the value tree `top`;
 * `nextId` is the identity the next node the model creates receives (a
 * fresh Python object); `log` records, in order, the begin/end
 * notifications the model sends its views and every `failureCause`
 * message.
 */
module TagFilterModel {
  import opened Wrappers
  import opened TagFilterNodes
  import opened TagFilterTree
  import opened TagFilterIndex
  import opened TagFilterEdits
  import opened TagFilterEvents
  import opened TagFilterOps
  import opened TagFilterRemoval
  import opened TagFilterMerge
  import opened TagFilterNegate
  import opened TagFilterMove
  import opened TagFilterPaths
  import opened TagFilterSteps
  import opened TagFilterDrop
  import opened TagFilterMime
  import PyLists
  import PySort

  class TagFilterModel {
    var top: Node
    var nextId: nat
    var log: seq<Event>

    /** The tree is well formed and no node has the identity the next new node receives. */
    ghost predicate Valid()
      reads this
    {
      ValidTree(top) && Fresh(top, nextId)
    }

    /**
     * `TagFilterModel(topNode)`: a new empty OR node, or a copy of the given
     * tree (the copy has the same shape; its node identities are the model's
     * own from then on).
     */
    constructor (topNode: Option<Node>)
      requires topNode.Some? ==> ValidTree(topNode.value)
      ensures Valid() && log == []
      ensures topNode.None? ==> top == Sequence(0, Or, None, []) && nextId == 1
      ensures topNode.Some? ==> top == topNode.value
    {
      if topNode.None? {
        top := Sequence(0, Or, None, []);
        nextId := 1;
      } else {
        top := topNode.value;
        nextId := IdBound(topNode.value);
      }
      log := [];
    }

    /** `rowCount(index)`: one row (the top node) under the root, otherwise the node's number of children. */
    method RowCount(i: Index) returns (n: int)
      requires Valid() && IndexArg(top, i)
      ensures i.Invalid? ==> n == 1
      ensures i.At? ==> i.node in View(top) && n == |View(top)[i.node].children|
    {
      if i.Invalid? {
        return 1;
      }
      var node := Find(top, i.node);
      ViewFind(top, i.node);
      n := Len(node);
    }

    /**
     * `flags(index)`: dropping is allowed on the root, the top node and
     * every sequence node; dragging on every node but the top one.
     */
    method Flags(i: Index) returns (f: ItemFlags)
      requires Valid() && IndexArg(top, i)
      ensures f.dragEnabled <==> i.At? && i.node != top.id
      ensures f.dropEnabled <==> i.Invalid? || (i.node in View(top) && View(top)[i.node].what.SeqLabel?)
    {
      if i.Invalid? {
        return ItemFlags(true, false);
      }
      SequenceInView(top, i.node);
      TopFind(top);
      if i.node == top.id {
        f := ItemFlags(true, false);
      } else if Find(top, i.node).Sequence? {
        f := ItemFlags(true, true);
      } else {
        f := ItemFlags(false, true);
      }
    }

    /** `_isIndexInvalid(*indexes)`: the first complaint about the list is reported, and true returned, when there is one. */
    method IsIndexInvalid(xs: seq<Index>) returns (bad: bool)
      modifies this`log
      ensures bad <==> IndexProblem(top, xs).Some?
      ensures bad ==> log == old(log) + [Failure(IndexProblem(top, xs).value)]
      ensures !bad ==> log == old(log)
    {
      if |xs| == 0 {
        log := log + [Failure(NoIndex)];
        return true;
      }
      var k := 0;
      while k < |xs|
        invariant 0 <= k <= |xs| && log == old(log)
        invariant forall j :: 0 <= j < k ==> Editable(top, xs[j])
      {
        if xs[k].Invalid? {
          FirstBadIndexAt(top, xs, k);
          log := log + [Failure(InvalidIndex)];
          return true;
        }
        if xs[k] == TopLevel(top) {
          FirstBadIndexAt(top, xs, k);
          log := log + [Failure(TopLevelIndex)];
          return true;
        }
        k := k + 1;
      }
      IndexProblemNone(top, xs);
      bad := false;
    }

    /** `_getNodeFromNodePath(path)`: walks down from the top node; a step into a leaf or past the children raises. */
    method GetNodeFromNodePath(path: seq<int>) returns (r: Result<NodeId, PyError>)
      requires Valid()
      ensures r == Resolve(top, path)
      ensures r.Ok? ==> r.value in Ids(top)
    {
      var node := top;
      var i := 0;
      while i < |path|
        invariant 0 <= i <= |path|
        invariant Resolve(top, path) == Resolve(node, path[i..])
      {
        assert path[i..][0] == path[i] && path[i..][1..] == path[i + 1..];
        if node.Leaf? {
          return Err(TypeError);
        }
        var k := PyLists.PyIndex(|node.tagList|, path[i]);
        if k.None? {
          return Err(IndexError);
        }
        node := node.tagList[k.value];
        i := i + 1;
      }
      assert path[i..] == [];
      ResolveIn(top, path);
      r := Ok(node.id);
    }

    /**
     * `_filterRepeatedParentNodes(indexes)`: the root-relative path of every
     * selected node that no other selected node lies above, each once, in
     * tuple order.
     */
    method FilterRepeatedParentNodes(xs: seq<Index>) returns (r: seq<seq<int>>)
      requires Valid()
      requires forall k :: 0 <= k < |xs| ==> xs[k].At? && xs[k].node in Ids(top)
      ensures PySort.LexSorted(r) && PyLists.NoDup(r)
      ensures forall q :: q in r <==> q in KeptPaths(top, Selected(top, xs))
    {
      // the keys of `allNodes`: the selected nodes, each once
      var sel: seq<NodeId> := [];
      var i := 0;
      while i < |xs|
        invariant 0 <= i <= |xs|
        invariant forall y :: y in sel <==> exists k :: 0 <= k < i && xs[k].node == y
      {
        if xs[i].node !in sel {
          sel := sel + [xs[i].node];
        }
        i := i + 1;
      }
      ghost var s := Selected(top, xs);
      assert forall y :: y in sel <==> y in s;
      var keys: seq<seq<int>> := [];
      var j := 0;
      while j < |sel|
        invariant 0 <= j <= |sel| && PyLists.NoDup(keys)
        invariant forall q :: q in keys <==>
          exists k :: 0 <= k < j && !Covered(top, s, sel[k]) && PathFrom(top, sel[k]) == q
      {
        var node := sel[j];
        var path, blocked := WalkUp(node, sel, s);
        if !blocked {
          var key := PyLists.Reverse(path);
          if key !in keys {
            keys := keys + [key];
          }
        }
        forall q ensures q in keys <==>
          exists k :: 0 <= k < j + 1 && !Covered(top, s, sel[k]) && PathFrom(top, sel[k]) == q
        {
          if !Covered(top, s, sel[j]) && PathFrom(top, sel[j]) == q {
            assert q in keys;
          }
        }
        j := j + 1;
      }
      SortedPaths(keys);
      r := PySort.SortLex(keys);
      forall q ensures q in r <==> q in KeptPaths(top, s) {
        if q in KeptPaths(top, s) {
          var y :| y in s && !Covered(top, s, y) && PathFrom(top, y) == q;
          assert y in sel;
          var k :| 0 <= k < |sel| && sel[k] == y;
          assert q in keys;
        }
      }
    }

    /**
     * The inner loop of `_filterRepeatedParentNodes`: walks from `node` up
     * the parents, collecting each position, and stops early at a selected
     * parent.
     */
    method WalkUp(node: NodeId, sel: seq<NodeId>, ghost s: set<NodeId>) returns (path: seq<int>, blocked: bool)
      requires Valid() && node in Ids(top) && (forall y :: y in sel <==> y in s) && s <= Ids(top)
      ensures blocked <==> Covered(top, s, node)
      ensures !blocked ==> PathFrom(top, node) == PyLists.Reverse(path)
    {
      path := [];
      var prev := node;
      ghost var chk: seq<NodeId> := [];
      TopFind(top);
      while Find(top, prev).parent.Some?
        invariant prev in Ids(top)
        invariant PathFrom(top, node) == PathFrom(top, prev) + PyLists.Reverse(path)
        invariant AncestorsFrom(top, node) == AncestorsFrom(top, prev) + chk
        invariant forall k :: 0 <= k < |chk| ==> chk[k] !in s
        decreases |AncestorsFrom(top, prev)|
      {
        ParentNoneIffTop(top, prev);
        var cur := Find(top, prev).parent.value;
        if cur in sel {
          WalkBlocked(top, s, node, prev, chk);
          return path, true;
        }
        WalkStep(top, node, prev, path, chk);
        path := path + [PyLists.IndexOf(ChildIds(Find(top, cur).tagList), prev)];
        chk := [cur] + chk;
        prev := cur;
      }
      ParentNoneIffTop(top, prev);
      WalkDone(top, s, node, path, chk);
      blocked := false;
    }

    /** `addSimple(text, parent, row)`, checking the names of the children one by one. */
    method AddSimple(text: string, parent: Index, row: Option<int>) returns (ok: bool)
      requires Valid() && IndexArg(top, parent)
      modifies this
      ensures Valid()
      ensures var s := AddSimpleStep(old(top), old(nextId), parent, text, row);
        top == s.tree && nextId == s.next && log == old(log) + s.events && ok == s.result
    {
      var p := Target(top, parent);
      TopFind(top);
      var pidx := TargetIndex(top, parent);
      var node := Find(top, p);
      if node.Leaf? {
        log := log + [Failure(NotSequence)];
        return false;
      }
      var taken := NameTaken(node.tagList, text);
      if taken {
        log := log + [Failure(DuplicateTag(text))];
        return false;
      }
      var pos := AddPos(node, row);
      var t' := Attach(top, p, pos, Leaf(nextId, text, Some(p)));
      assert ValidTree(t') && Fresh(t', nextId + 1) by {
        AddSimpleAdds(top, nextId, parent, text, row);
      }
      log := log + [BeginInsertRows(pidx, pos, pos)];
      top := t';
      nextId := nextId + 1;
      log := log + [EndInsertRows];
      ok := true;
    }

    /** The loop of `addSimple` over the children: is some child called `text`? */
    static method NameTaken(ts: seq<Node>, text: string) returns (taken: bool)
      ensures taken <==> text in TagNames(ts)
    {
      var i := 0;
      while i < |ts|
        invariant 0 <= i <= |ts|
        invariant forall j :: 0 <= j < i ==> ts[j].TagName() != text
      {
        if ts[i].TagName() == text {
          assert TagNames(ts)[i] == text;
          return true;
        }
        i := i + 1;
      }
      return false;
    }

    /**
     * `mergeTags(nodeType, indexes)`: the index check, the walk over the
     * indexes comparing parents and lowering the insertion position, the
     * removal, and the insertion of the new node holding the removed ones.
     */
    method MergeTags(kind: SeqKind, xs: seq<Index>) returns (r: Option<Index>)
      requires Valid() && MergeArg(top, xs) && kind != Not
      modifies this
      ensures Valid()
      ensures var o := MergeStep(old(top), old(nextId), kind, xs);
        top == o.tree && nextId == o.next && log == old(log) + o.events && r == o.result
    {
      var bad := IsIndexInvalid(xs);
      if bad {
        return None;
      }
      assert xs != [] && NonTop(top, xs) by { Accepted(top, xs); }
      var pidx := ParentIndex(top, xs[0]);
      var p := ParentOf(top, xs[0].node);
      var same, first := CommonParent(top, xs);
      if !same {
        log := log + [Failure(DifferentParents)];
        return None;
      }
      r := MergeRemoved(kind, xs, p, pidx, first);
    }

    /** The second half of `mergeTags`, once the indexes have passed it: the removal and the insertion of the new node. */
    method MergeRemoved(kind: SeqKind, xs: seq<Index>, p: NodeId, pidx: Index, first: int) returns (r: Option<Index>)
      requires Valid() && MergeArg(top, xs) && IndexProblem(top, xs).None? && SameParent(top, xs)
      requires xs[0].node != top.id && p == ParentOf(top, xs[0].node) && pidx == ParentIndex(top, xs[0])
      requires first == MinPos(ChildIds(Find(top, p).tagList), Nodes(xs))
      modifies this
      ensures Valid()
      ensures var o := MergeStep(old(top), old(nextId), kind, xs);
        top == o.tree && nextId == o.next && log == old(log) + o.events && r == o.result
    {
      ghost var t0 := top;
      var n0: nat := nextId;
      assert Removable(t0, xs) && p in Ids(RemoveTree(t0, xs)) && Find(RemoveTree(t0, xs), p).Sequence?
        && (var ms := Nodes(PySort.SortDesc(xs, RowKey)); forall k :: 0 <= k < |ms| ==> ms[k] in Ids(t0))
        && ValidTree(MergeStep(t0, n0, kind, xs).tree)
        && Fresh(MergeStep(t0, n0, kind, xs).tree, MergeStep(t0, n0, kind, xs).next)
      by {
        assert ValidTree(t0) && MergeArg(t0, xs) && Fresh(t0, n0);
        assert IndexProblem(t0, xs).None? && SameParent(t0, xs);
        assert p == ParentOf(t0, xs[0].node) && pidx == ParentIndex(t0, xs[0]);
        assert first == MinPos(ChildIds(Find(t0, p).tagList), Nodes(xs));
        MergeParts(t0, n0, kind, xs, p, pidx, first);
        MergeStepOk(t0, n0, kind, xs);
      }
      assert MergeStep(t0, n0, kind, xs)
        == Outcome(Attach(RemoveTree(t0, xs), p, first, NewSequence(n0, kind, Cleared(t0, Nodes(PySort.SortDesc(xs, RowKey))), Some(p))),
                   n0 + 1, RemoveEvents(t0, xs) + [BeginInsertRows(pidx, first, first), EndInsertRows], Some(At(first, n0)))
      by {
        MergeParts(t0, n0, kind, xs, p, pidx, first);
      }
      ghost var l0 := log;
      var removed := RemoveIndexes(xs);
      ghost var t1, l1 := top, log;
      assert t1 == RemoveTree(t0, xs) && l1 == l0 + RemoveEvents(t0, xs);
      assert removed == Cleared(t0, Nodes(PySort.SortDesc(xs, RowKey)));
      InsertNode(p, pidx, first, NewSequence(n0, kind, removed, Some(p)));
      TakeId();
      r := Some(At(first, n0));
      assert top == MergeStep(t0, n0, kind, xs).tree;
      assert log == l0 + MergeStep(t0, n0, kind, xs).events by {
        PyLists.AppendAssoc(l0, RemoveEvents(t0, xs), [BeginInsertRows(pidx, first, first), EndInsertRows]);
      }
    }

    /** A new node object is created: the next identity is used up. */
    method TakeId()
      modifies this
      ensures top == old(top) && log == old(log) && nextId == old(nextId) + 1
    {
      nextId := nextId + 1;
    }

    /** `beginInsertRows(parent, pos, pos)`, the node put in as child `pos` of `p`, then `endInsertRows()`. */
    method InsertNode(p: NodeId, pidx: Index, pos: int, sub: Node)
      requires p in Ids(top) && Find(top, p).Sequence?
      modifies this
      ensures nextId == old(nextId)
      ensures top == Attach(old(top), p, pos, sub)
      ensures log == old(log) + [BeginInsertRows(pidx, pos, pos), EndInsertRows]
    {
      log := log + [BeginInsertRows(pidx, pos, pos)];
      top := Attach(top, p, pos, sub);
      log := log + [EndInsertRows];
    }

    /** The loop of `mergeTags`: comparing each parent with the first index's and lowering the position to each node's. */
    static method CommonParent(t: Node, xs: seq<Index>) returns (same: bool, first: int)
      requires ValidTree(t) && xs != [] && NonTop(t, xs)
      ensures same <==> SameParent(t, xs)
      ensures var kids := ChildIds(Find(t, ParentOf(t, xs[0].node)).tagList);
        same ==> (forall k :: 0 <= k < |xs| ==> xs[k].node in kids) && first == MinPos(kids, Nodes(xs))
    {
      var pidx := ParentIndex(t, xs[0]);
      ghost var p := ParentOf(t, xs[0].node);
      var kids := ChildIds(Find(t, ParentOf(t, xs[0].node)).tagList);
      ghost var ns := Nodes(xs);
      first := |kids|;
      var k := 0;
      while k < |xs|
        invariant 0 <= k <= |xs|
        invariant forall j :: 0 <= j < k ==> ParentOf(t, ns[j]) == p && ns[j] in kids
        invariant first == MinPos(kids, ns[..k])
      {
        if ParentIndex(t, xs[k]) != pidx {
          return false, first;
        }
        assert ParentOf(t, ns[k]) == p && ns[k] in kids by { SameParentKid(t, xs, k); }
        var pos := PyLists.IndexOf(kids, xs[k].node);
        assert ns[..k + 1][..k] == ns[..k];
        if pos < first {
          first := pos;
        }
        k := k + 1;
      }
      assert ns[..k] == ns;
      SameParentOf(t, xs);
      same := true;
    }

    /**
     * `negate(index)`: nothing but the complaint when the check rejects the
     * index; otherwise the node is removed and, at its old row, replaced by
     * its content when it is a NOT node, or by a new NOT node holding it.
     * The node object after the removal is the one `removeIndexes` hands back;
     * a NOT node without exactly one child fails the `content` assertion
     * after `beginInsertRows`.
     */
    method Negate(i: Index) returns (r: Result<bool, PyError>)
      requires Valid() && IndexArg(top, i)
      modifies this
      ensures Valid()
      ensures var o := NegateStep(old(top), old(nextId), i);
        top == o.tree && nextId == o.next && log == old(log) + o.events && r == o.result
    {
      var bad := IsIndexInvalid([i]);
      if bad {
        return Ok(false);
      }
      r := NegateAccepted(i);
    }

    /** `negate(index)` once the check has let the index through. */
    method NegateAccepted(i: Index) returns (r: Result<bool, PyError>)
      requires Valid() && IndexArg(top, i) && IndexProblem(top, [i]).None?
      modifies this
      ensures Valid()
      ensures var o := NegateStep(old(top), old(nextId), i);
        top == o.tree && nextId == o.next && log == old(log) + o.events && r == o.result
    {
      SingleRemoval(top, i);
      ghost var t0, l0 := top, log;
      var n0: nat := nextId;
      var x := i.node;
      var p := ParentOf(top, x);
      var pidx := ParentIndex(top, i);
      var row := i.row;
      ghost var out := Detach(t0, p, x).1;
      ghost var announced := RemoveEvents(t0, [i]) + [BeginInsertRows(pidx, row, row)];
      NegateParts(t0, n0, i, p, pidx, out);
      ghost var o := NegateStep(t0, n0, i);
      var removed := RemoveIndexes([i]);
      assert removed == [out] && top == RemoveTree(t0, [i]) && nextId == n0;
      PyLists.AppendAssoc(l0, RemoveEvents(t0, [i]), [BeginInsertRows(pidx, row, row)]);
      r := PutNegated(p, pidx, row, removed[0], o, announced, l0);
    }

    /**
     * The second half of `negate`, after the removal: `beginInsertRows`,
     * then the content of a NOT node (the `content` assertion) or a new NOT
     * node holding `out`, then `endInsertRows()`; `o` is the outcome this
     * reaches.
     */
    method PutNegated(p: NodeId, pidx: Index, row: int, out: Node,
                      ghost o: Outcome<Result<bool, PyError>>, ghost announced: seq<Event>, ghost l0: seq<Event>)
      returns (r: Result<bool, PyError>)
      requires p in Ids(top) && Find(top, p).Sequence?
      requires log + [BeginInsertRows(pidx, row, row)] == l0 + announced
      requires !(IsNot(out) && |out.tagList| != 1) ==>
        && o.tree == (if IsNot(out) then Attach(top, p, row, Content(out)) else Attach(top, p, row, NewExclude(nextId, out, None)))
        && o.events == announced + [EndInsertRows]
        && o.next == (if IsNot(out) then nextId else nextId + 1)
        && o.result == Ok(true)
      requires IsNot(out) && |out.tagList| != 1 ==> o == Outcome(top, nextId, announced, Err(AssertionError))
      modifies this
      ensures top == o.tree && nextId == o.next && log == l0 + o.events && r == o.result
    {
      log := log + [BeginInsertRows(pidx, row, row)];
      if IsNot(out) && |out.tagList| != 1 {
        return Err(AssertionError);
      }
      if IsNot(out) {
        PutNode(p, row, Content(out));
      } else {
        PutNode(p, row, NewExclude(nextId, out, None));
        TakeId();
      }
      r := Ok(true);
      PyLists.AppendAssoc(l0, announced, [EndInsertRows]);
    }

    /** The node put in as child `pos` of `p`, then `endInsertRows()`. */
    method PutNode(p: NodeId, pos: int, sub: Node)
      requires p in Ids(top) && Find(top, p).Sequence?
      modifies this
      ensures nextId == old(nextId)
      ensures top == Attach(old(top), p, pos, sub)
      ensures log == old(log) + [EndInsertRows]
    {
      top := Attach(top, p, pos, sub);
      log := log + [EndInsertRows];
    }

    /**
     * `mimeData(indexes)`: a payload holding only the node paths of
     * `_filterRepeatedParentNodes` (pickling them is not modelled).
     */
    method MimeData(xs: seq<Index>) returns (md: MimeData)
      requires Valid()
      requires forall k :: 0 <= k < |xs| ==> xs[k].At? && xs[k].node in Ids(top)
      ensures md.items.None? && md.paths.Some?
      ensures PySort.LexSorted(md.paths.value) && PyLists.NoDup(md.paths.value)
      ensures forall q :: q in md.paths.value <==> q in KeptPaths(top, Selected(top, xs))
    {
      var paths := FilterRepeatedParentNodes(xs);
      md := Formats(None, Some(paths));
    }

    /**
     * `dropMimeData(mimeData, action, row, column, parentIndex)`: the
     * dispatch on the action and on the formats the payload holds.
     */
    method DropMimeData(md: MimeData, action: DropAction, row: int, column: int, parent: Index)
      returns (r: Result<bool, PyError>)
      requires Valid() && MimeInput(top, md, action, parent)
      modifies this
      ensures Valid()
      ensures var o := DropMimeStep(old(top), old(nextId), md, action, row, parent);
        top == o.tree && nextId == o.next && log == old(log) + o.events && r == o.result
    {
      if action == CopyAction && md.items.Some? {
        var ok := DropSimpleData(parent, md.items.value, row);
        return Ok(ok);
      }
      if action == MoveAction && md.paths.Some? {
        r := DropNodePath(parent, md.paths.value, row);
        return;
      }
      return Ok(false);
    }

    /**
     * `_dropSimpleData(parentIndex, mimeData, row)`: the column check, then
     * `addSimple` for every text, appended or at `row`, `row + 1`, ...
     */
    method DropSimpleData(parent: Index, items: ItemTable, row: int) returns (ok: bool)
      requires Valid() && IndexArg(top, parent)
      modifies this
      ensures Valid()
      ensures var s := SimpleDropStep(old(top), old(nextId), parent, items, row);
        top == s.tree && nextId == s.next && log == old(log) + s.events && ok == s.result
    {
      if items.columns != 1 {
        log := log + [Failure(UnsupportedColumns(items.columns))];
        return false;
      }
      ghost var goal := SimpleDrops(top, nextId, parent, items.texts, AddRow(row, 0));
      ghost var l0 := log;
      var values := items.texts;
      var i := 0;
      assert values[i..] == values;
      while i < |values|
        invariant 0 <= i <= |values| && Valid() && IndexArg(top, parent)
        invariant var rest := SimpleDrops(top, nextId, parent, values[i..], AddRow(row, i));
          rest.tree == goal.tree && rest.next == goal.next && l0 + goal.events == log + rest.events
      {
        SimpleDropTurn(parent, values, i, row, goal, l0);
        i := i + 1;
      }
      assert values[i..] == [];
      ok := true;
    }

    /** One turn of the `_dropSimpleData` loop: `addSimple` for the text at `i` keeps what is left to do in step with the whole drop. */
    method SimpleDropTurn(parent: Index, values: seq<string>, i: nat, row: int, ghost goal: Outcome<bool>, ghost l0: seq<Event>)
      requires i < |values| && Valid() && IndexArg(top, parent)
      requires var rest := SimpleDrops(top, nextId, parent, values[i..], AddRow(row, i));
        rest.tree == goal.tree && rest.next == goal.next && l0 + goal.events == log + rest.events
      modifies this
      ensures Valid() && IndexArg(top, parent)
      ensures var rest := SimpleDrops(top, nextId, parent, values[i + 1..], AddRow(row, i + 1));
        rest.tree == goal.tree && rest.next == goal.next && l0 + goal.events == log + rest.events
    {
      ghost var t, n, l := top, nextId, log;
      SimpleDropsNext(t, n, parent, values, i, row);
      var _ := AddSimple(values[i], parent, AddRow(row, i));
      PyLists.AppendAssoc(l, AddSimpleStep(t, n, parent, values[i], AddRow(row, i)).events,
        SimpleDrops(top, nextId, parent, values[i + 1..], AddRow(row, i + 1)).events);
    }

    /**
     * `_dropNodePath(parentIndex, nodePaths, first)`: the target (the top
     * node for the invalid index) must be a sequence node and every path
     * must resolve, or the exception propagates with nothing changed;
     * otherwise the dragged nodes are removed and inserted back, in payload
     * order, from the adjusted row on, and True is returned.
     */
    method DropNodePath(parent: Index, paths: seq<seq<int>>, first: int) returns (r: Result<bool, PyError>)
      requires Valid() && DropInput(top, parent, paths)
      modifies this
      ensures Valid()
      ensures var o := DropStep(old(top), old(nextId), parent, paths, first);
        top == o.tree && nextId == o.next && log == old(log) + o.events && r == o.result
    {
      var p := if parent.Invalid? then top.id else parent.node;
      var pidx := if parent.Invalid? then TopLevel(top) else parent;
      assert p == Target(top, parent) && p in Ids(top) && pidx == TargetIndex(top, parent) by {
        TargetLive(top, parent);
      }
      if Find(top, p).Leaf? {
        return Err(TypeError);
      }
      var res := ResolvePaths(paths);
      if res.Err? {
        return Err(res.error);
      }
      DropResolved(parent, paths, first, res.value, p, pidx);
      r := Ok(true);
    }

    /** The rest of `_dropNodePath` once the target is a sequence node and every path has resolved to `ms`. */
    method DropResolved(parent: Index, ghost paths: seq<seq<int>>, first: int, ms: seq<NodeId>, p: NodeId, pidx: Index)
      requires Valid() && DropInput(top, parent, paths)
      requires p == Target(top, parent) && pidx == TargetIndex(top, parent) && p in Ids(top) && Find(top, p).Sequence?
      requires ResolveAll(top, paths) == Ok(ms)
      modifies this
      ensures Valid()
      ensures var o := DropStep(old(top), old(nextId), parent, paths, first);
        top == o.tree && nextId == o.next && log == old(log) + o.events && o.result == Ok(true)
    {
      ghost var t0, l0 := top, log;
      ghost var n0: nat := nextId;
      assert |ms| == |paths| && MoveArg(t0, p, ms)
        && Removable(t0, IndexesOf(t0, ms)) && AllLive(t0, PySort.SortDesc(IndexesOf(t0, ms), RowKey))
        && p in Ids(RemoveTree(t0, IndexesOf(t0, ms))) && Find(RemoveTree(t0, IndexesOf(t0, ms)), p).Sequence?
        && UniqueList(Cleared(t0, ms)) && IdsList(Cleared(t0, ms)) !! Ids(RemoveTree(t0, IndexesOf(t0, ms)))
        && DropStep(t0, n0, parent, paths, first)
           == Outcome(AttachSeq(RemoveTree(t0, IndexesOf(t0, ms)), p, DropAt(t0, parent, ms, first), Cleared(t0, ms)), n0,
                      DropEvents(t0, parent, ms, first), Ok(true))
        && DropEvents(t0, parent, ms, first)
           == RemoveEvents(t0, IndexesOf(t0, ms)) + InsertRun(pidx, DropAt(t0, parent, ms, first), |ms|)
        && ValidTree(DropStep(t0, n0, parent, paths, first).tree)
        && Fresh(DropStep(t0, n0, parent, paths, first).tree, n0)
        && DropAt(t0, parent, ms, first)
           == (var f1 := DropRow(t0, PySort.SortDesc(IndexesOf(t0, ms), RowKey), p, pidx, first);
               if f1 == -1 then |Find(RemoveTree(t0, IndexesOf(t0, ms)), p).tagList| else f1)
      by {
        assert ValidTree(t0) && Fresh(t0, n0) && DropInput(t0, parent, paths);
        assert Find(t0, Target(t0, parent)).Sequence? && ResolveAll(t0, paths) == Ok(ms);
        DropParts(t0, n0, parent, paths, first, ms);
        DropRemoval(t0, ms, p);
        DropOrder(t0, IndexesOf(t0, ms), p);
        DropStepOk(t0, n0, parent, paths, first);
      }
      var xs := IndexesOf(top, ms);
      var f := if p == top.id && first == 1 then -1 else first;
      if f > 0 {
        f := AdjustRow(PySort.SortDesc(xs, RowKey), pidx, f);
      }
      assert f == DropRow(t0, PySort.SortDesc(xs, RowKey), p, pidx, first);
      var pos := MoveRows(xs, p, pidx, f, Cleared(top, ms));
      assert pos == DropAt(t0, parent, ms, first);
      assert log == l0 + DropEvents(t0, parent, ms, first) by {
        PyLists.AppendAssoc(l0, RemoveEvents(t0, xs), InsertRun(pidx, pos, |ms|));
      }
    }

    /**
     * `self.removeIndexes(indexes)`, the row `-1` turned into the length of
     * the target's list, then `ns` inserted from that row on.
     */
    method MoveRows(xs: seq<Index>, p: NodeId, pidx: Index, first: int, ns: seq<Node>) returns (pos: int)
      requires Valid() && Removable(top, xs)
      requires p in Ids(RemoveTree(top, xs)) && Find(RemoveTree(top, xs), p).Sequence?
      requires UniqueList(ns) && IdsList(ns) !! Ids(RemoveTree(top, xs))
      modifies this
      ensures nextId == old(nextId)
      ensures pos == if first == -1 then |Find(RemoveTree(old(top), xs), p).tagList| else first
      ensures top == AttachSeq(RemoveTree(old(top), xs), p, pos, ns)
      ensures log == old(log) + RemoveEvents(old(top), xs) + InsertRun(pidx, pos, |ns|)
    {
      var _ := RemoveIndexes(xs);
      pos := if first == -1 then |Find(top, p).tagList| else first;
      InsertAll(p, pidx, pos, ns);
    }

    /** `[self._getNodeFromNodePath(np) for np in nodePaths]`: the nodes, or the exception of the first path that fails. */
    method ResolvePaths(paths: seq<seq<int>>) returns (r: Result<seq<NodeId>, PyError>)
      requires Valid()
      ensures r == ResolveAll(top, paths)
    {
      var ms: seq<NodeId> := [];
      var k := 0;
      while k < |paths|
        invariant 0 <= k <= |paths| && ResolveAll(top, paths[..k]) == Ok(ms)
      {
        var y := GetNodeFromNodePath(paths[k]);
        assert paths[..k + 1][..k] == paths[..k];
        if y.Err? {
          ResolvePrefixErr(top, paths, k + 1);
          return Err(y.error);
        }
        ms := ms + [y.value];
        k := k + 1;
      }
      assert paths[..k] == paths;
      r := Ok(ms);
    }

    /**
     * `for ind in sorted(indexes, key=lambda i: -i.row()): if ind.parent() == parentIndex and ind.row() < first: first -= 1`,
     * every `parent()` read before anything is removed.
     */
    method AdjustRow(order: seq<Index>, pidx: Index, first: int) returns (f: int)
      requires ValidTree(top) && AllLive(top, order)
      ensures f == Adjust(top, order, pidx, first)
    {
      f := first;
      var k := 0;
      while k < |order|
        invariant 0 <= k <= |order| && AllLive(top, order[k..])
        invariant Adjust(top, order[k..], pidx, f) == Adjust(top, order, pidx, first)
      {
        ghost var f0 := f;
        AdjustNext(top, order, pidx, f0, k);
        if ParentIndex(top, order[k]) == pidx && order[k].row < f {
          f := f - 1;
        }
        assert Adjust(top, order[k + 1..], pidx, f) == Adjust(top, order[k..], pidx, f0);
        k := k + 1;
      }
      assert order[k..] == [];
    }

    /** `beginInsertRows(parent, first, first + len(nodes) - 1)`, then `nodeParent.insert(pos, node)` for `pos, node in enumerate(nodes, first)`, then `endInsertRows()`. */
    method InsertAll(p: NodeId, pidx: Index, pos: int, ns: seq<Node>)
      requires Unique(top) && p in Ids(top) && Find(top, p).Sequence?
      requires UniqueList(ns) && IdsList(ns) !! Ids(top)
      modifies this
      ensures nextId == old(nextId)
      ensures top == AttachSeq(old(top), p, pos, ns)
      ensures log == old(log) + InsertRun(pidx, pos, |ns|)
    {
      log := log + [BeginInsertRows(pidx, pos, pos + |ns| - 1)];
      top := AttachAll(top, p, pos, ns);
      log := log + [EndInsertRows];
    }

    /**
     * `removeIndexes(indexes)`: nothing when the check complains; otherwise
     * the nodes are removed largest row first and handed back in that order,
     * detached and without parent.
     */
    method RemoveIndexes(xs: seq<Index>) returns (removed: seq<Node>)
      requires Valid() && Removable(top, xs)
      modifies this
      ensures Valid() && nextId == old(nextId)
      ensures top == RemoveTree(old(top), xs) && log == old(log) + RemoveEvents(old(top), xs)
      ensures IndexProblem(old(top), xs).Some? ==> removed == []
      ensures IndexProblem(old(top), xs).None? ==>
        && Separate(old(top), Nodes(PySort.SortDesc(xs, RowKey)))
        && removed == DetachSeq(old(top), Nodes(PySort.SortDesc(xs, RowKey))).1
        && removed == Cleared(old(top), Nodes(PySort.SortDesc(xs, RowKey)))
    {
      var bad := IsIndexInvalid(xs);
      if bad {
        return [];
      }
      ghost var t0 := top;
      var order := PySort.SortDesc(xs, RowKey);
      RemovalRun(top, xs);
      removed := RemoveAll(order);
      assert top == RemoveTree(t0, xs) && log == old(log) + RemoveEvents(t0, xs);
      assert Fresh(top, nextId) by {
        assert Ids(RemoveTree(t0, xs)) <= Ids(t0);
      }
    }

    /** `[self._remove(ind) for ind in sortedIndexes]` */
    method RemoveAll(order: seq<Index>) returns (removed: seq<Node>)
      requires ValidTree(top) && AllAt(order) && Separate(top, Nodes(order))
      modifies this
      ensures nextId == old(nextId)
      ensures top == DetachSeq(old(top), Nodes(order)).0 && removed == DetachSeq(old(top), Nodes(order)).1
      ensures log == old(log) + RemoveLog(old(top), order)
    {
      ghost var final := DetachSeq(top, Nodes(order));
      ghost var finalLog := log + RemoveLog(top, order);
      removed := [];
      var i := 0;
      while i < |order|
        invariant 0 <= i <= |order|
        invariant ValidTree(top) && AllAt(order[i..]) && Separate(top, Nodes(order[i..]))
        invariant final.0 == DetachSeq(top, Nodes(order[i..])).0
        invariant final.1 == removed + DetachSeq(top, Nodes(order[i..])).1
        invariant finalLog == log + RemoveLog(top, order[i..])
        invariant nextId == old(nextId)
      {
        ghost var t, l, rm := top, log, removed;
        RemovalStepFacts(top, order[i..]);
        assert order[i..][0] == order[i] && order[i..][1..] == order[i + 1..];
        var out := Remove(order[i]);
        removed := removed + [out];
        RemovalAdvance(t, order[i..], top, out, rm, final.1, l, finalLog);
        i := i + 1;
      }
      assert Nodes(order[i..]) == [] && RemoveLog(top, order[i..]) == [];
      assert DetachSeq(top, Nodes(order[i..])) == (top, []);
      assert final.1 == removed + [] == removed;
    }

    /** `_remove(index)`: the node is taken out of its parent's children, between the begin/end notifications. */
    method Remove(ind: Index) returns (out: Node)
      requires ValidTree(top) && ind.At? && ind.node in Ids(top) && ind.node != top.id
      modifies this
      ensures nextId == old(nextId)
      ensures top == Detach(old(top), ParentOf(old(top), ind.node), ind.node).0
      ensures out == Detach(old(top), ParentOf(old(top), ind.node), ind.node).1
      ensures log == old(log) + [BeginRemoveRows(ParentIndex(old(top), ind), ind.row, ind.row), EndRemoveRows]
    {
      var m := ind.node;
      var pi := ParentIndex(top, ind);
      log := log + [BeginRemoveRows(pi, ind.row, ind.row)];
      var (t1, o) := Detach(top, ParentOf(top, m), m);
      top, out := t1, o;
      log := log + [EndRemoveRows];
    }
  }
}
