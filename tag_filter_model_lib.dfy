/**
 * The item model of the older tag-filter editor (the `lib` variant), for
 * the operations whose code differs from the newer model: `remove` checks
 * its index itself and gives back nothing when the check complains,
 * `_getNodeFromNodePath` asserts where the newer one raises TypeError, and
 * `_dropNodePath` corrects the drop row inside its removal loop.
 *
 * The state is that of the newer model: the value tree `top`, the identity
 * `nextId` the next new node receives, and the `log` of notifications and
 * failure messages.
 */
module TagFilterModelLib {
  import opened Wrappers
  import opened TagFilterNodes
  import opened TagFilterTree
  import opened TagFilterIndex
  import opened TagFilterEdits
  import opened TagFilterEvents
  import opened TagFilterOps
  import opened TagFilterRemoval
  import opened TagFilterMove
  import opened TagFilterPaths
  import opened TagFilterSteps
  import opened TagFilterDrop
  import opened TagFilterLibDrop
  import PyLists
  import PySort

  class TagFilterModel {
    var top: Node
    var nextId: nat
    var log: seq<Event>

    /** The tree is well formed and no node has the identity the next new node receives. */
    ghost predicate Valid()
      reads this
    {
      ValidTree(top) && Fresh(top, nextId)
    }

    /** `TagFilterModel(topNode)`: a new empty OR node, or a copy of the given tree. */
    constructor (topNode: Option<Node>)
      requires topNode.Some? ==> ValidTree(topNode.value)
      ensures Valid() && log == []
      ensures topNode.None? ==> top == Sequence(0, Or, None, []) && nextId == 1
      ensures topNode.Some? ==> top == topNode.value
    {
      if topNode.None? {
        top := Sequence(0, Or, None, []);
        nextId := 1;
      } else {
        top := topNode.value;
        nextId := IdBound(topNode.value);
      }
      log := [];
    }

    /**
     * `remove(curIndex)`: the index goes through `_isIndexInvalid` first;
     * an invalid or top-level index is reported and nothing is returned.
     * Otherwise the node is taken out of its parent between the begin/end
     * notifications and returned.
     */
    method Remove(ind: Index) returns (out: Option<Node>)
      requires ValidTree(top) && (ind.At? ==> ind.node in Ids(top) && (ind.node == top.id ==> ind.row == 0))
      modifies this
      ensures nextId == old(nextId)
      ensures out.None? <==> IndexProblem(old(top), [ind]).Some?
      ensures out.None? ==> top == old(top) && log == old(log) + [Failure(IndexProblem(old(top), [ind]).value)]
      ensures out.Some? ==>
        && ind.At? && ind.node != old(top).id
        && top == Detach(old(top), ParentOf(old(top), ind.node), ind.node).0
        && out.value == Detach(old(top), ParentOf(old(top), ind.node), ind.node).1
        && log == old(log) + [BeginRemoveRows(ParentIndex(old(top), ind), ind.row, ind.row), EndRemoveRows]
    {
      assert IndexProblem(top, [ind]) == FirstBadIndex(top, [ind]);
      assert FirstBadIndex(top, [ind][1..]) == None by {
        assert [ind][1..] == [];
      }
      if ind.Invalid? {
        log := log + [Failure(InvalidIndex)];
        return None;
      }
      if ind == TopLevel(top) {
        log := log + [Failure(TopLevelIndex)];
        return None;
      }
      var m := ind.node;
      var pi := ParentIndex(top, ind);
      log := log + [BeginRemoveRows(pi, ind.row, ind.row)];
      var (t1, o) := Detach(top, ParentOf(top, m), m);
      top, out := t1, Some(o);
      log := log + [EndRemoveRows];
    }

    /** `_getNodeFromNodePath(nodePath)` of the older model: a step into a leaf fails its assertion. */
    method GetNodeFromNodePath(path: seq<int>) returns (r: Result<NodeId, PyError>)
      requires Valid()
      ensures r == LibResolve(top, path)
      ensures r.Ok? ==> r.value in Ids(top)
    {
      var node := top;
      var i := 0;
      while i < |path|
        invariant 0 <= i <= |path|
        invariant Resolve(top, path) == Resolve(node, path[i..])
      {
        assert path[i..][0] == path[i] && path[i..][1..] == path[i + 1..];
        if node.Leaf? {
          return Err(AssertionError);
        }
        var k := PyLists.PyIndex(|node.tagList|, path[i]);
        if k.None? {
          return Err(IndexError);
        }
        node := node.tagList[k.value];
        i := i + 1;
      }
      assert path[i..] == [];
      ResolveIn(top, path);
      r := Ok(node.id);
    }

    /** `[self._getNodeFromNodePath(np) for np in nodePaths]`: the nodes, or the exception of the first path that fails. */
    method ResolvePaths(paths: seq<seq<int>>) returns (r: Result<seq<NodeId>, PyError>)
      requires Valid()
      ensures r == LibResolveAll(top, paths)
    {
      var ms: seq<NodeId> := [];
      var k := 0;
      while k < |paths|
        invariant 0 <= k <= |paths| && ResolveAll(top, paths[..k]) == Ok(ms)
      {
        var y := GetNodeFromNodePath(paths[k]);
        assert paths[..k + 1][..k] == paths[..k];
        if y.Err? {
          ResolvePrefixErr(top, paths, k + 1);
          return Err(y.error);
        }
        ms := ms + [y.value];
        k := k + 1;
      }
      assert paths[..k] == paths;
      r := Ok(ms);
    }

    /**
     * `_dropNodePath(parentIndex, nodePaths, first)` of the older model:
     * the target must be a valid index of a sequence node, or the assertion
     * fails; every path must resolve, or the exception propagates; then the
     * dragged nodes are removed with the row corrected on the way, inserted
     * back in payload order, and True is returned.
     */
    method DropNodePath(parent: Index, paths: seq<seq<int>>, first: int) returns (r: Result<bool, PyError>)
      requires Valid() && LibDropInput(top, parent, paths)
      modifies this
      ensures Valid()
      ensures var o := LibDropStep(old(top), old(nextId), parent, paths, first);
        top == o.tree && nextId == o.next && log == old(log) + o.events && r == o.result
    {
      if parent.Invalid? || Find(top, parent.node).Leaf? {
        return Err(AssertionError);
      }
      var res := ResolvePaths(paths);
      if res.Err? {
        return Err(res.error);
      }
      DropResolved(parent, paths, first, res.value);
      r := Ok(true);
    }

    /** The rest of the older `_dropNodePath` once the target is a sequence node and every path has resolved to `ms`. */
    method DropResolved(parent: Index, ghost paths: seq<seq<int>>, first: int, ms: seq<NodeId>)
      requires Valid() && LibDropInput(top, parent, paths)
      requires parent.At? && Find(top, parent.node).Sequence? && ResolveAll(top, paths) == Ok(ms)
      modifies this
      ensures Valid()
      ensures var o := LibDropStep(old(top), old(nextId), parent, paths, first);
        top == o.tree && nextId == o.next && log == old(log) + o.events && o.result == Ok(true)
    {
      ghost var t0, l0 := top, log;
      ghost var n0: nat := nextId;
      var p := parent.node;
      var xs := IndexesOf(top, ms);
      var order := PySort.SortDesc(xs, RowKey);
      var ns := Cleared(top, ms);
      assert MoveArg(t0, p, ms) && AllAt(order) && Separate(t0, Nodes(order))
        && (forall k :: 0 <= k < |order| ==> order[k].row >= 0)
        && LibDropStep(t0, n0, parent, paths, first)
           == Outcome(MoveTree(t0, xs, p, LibDropAt(t0, parent, ms, first)), n0, LibDropEvents(t0, parent, ms, first), Ok(true))
        && ValidTree(LibDropStep(t0, n0, parent, paths, first).tree)
        && Fresh(LibDropStep(t0, n0, parent, paths, first).tree, n0)
      by {
        LibOrder(t0, ms);
        LibDropStepOk(t0, n0, parent, paths, first);
      }
      var f := RemoveInterleaved(order, parent, first);
      assert nextId == n0;
      ghost var t1 := top;
      assert t1 == Removed(t0, xs) && p in Ids(t1) && Find(t1, p).Sequence?
        && UniqueList(Cleared(t0, ms)) && IdsList(Cleared(t0, ms)) !! Ids(t1)
      by {
        SequenceInView(t0, p);
        SequenceInView(t1, p);
        ClearedList(t0, ms, p);
      }
      if f == -1 {
        f := |Find(top, p).tagList|;
      }
      assert f == LibDropAt(t0, parent, ms, first);
      assert Nodes(xs) == ms;
      assert MoveTree(t0, xs, p, f) == AttachSeq(t1, p, f, ns);
      InsertAll(p, parent, f, ns);
      assert nextId == n0;
      assert top == LibDropStep(t0, n0, parent, paths, first).tree;
      assert ValidTree(top) && Fresh(top, nextId);
      assert log == l0 + LibDropEvents(t0, parent, ms, first) by {
        PyLists.AppendAssoc(l0, RemoveLog(t0, order), InsertRun(parent, f, |ms|));
      }
    }

    /**
     * `for ind in indexesSorted: if ind.parent() == parentIndex and ind.row() < first: first -= 1; self.remove(ind)`:
     * each `parent()` is read in the tree as the removals before it left it.
     */
    method RemoveInterleaved(order: seq<Index>, pidx: Index, first: int) returns (f: int)
      requires ValidTree(top) && AllAt(order) && Separate(top, Nodes(order))
      modifies this
      ensures nextId == old(nextId)
      ensures f == Interleave(old(top), order, pidx, first)
      ensures top == DetachSeq(old(top), Nodes(order)).0
      ensures log == old(log) + RemoveLog(old(top), order)
    {
      ghost var final := DetachSeq(top, Nodes(order));
      ghost var finalLog := log + RemoveLog(top, order);
      ghost var row := Interleave(top, order, pidx, first);
      ghost var removed: seq<Node> := [];
      f := first;
      var i := 0;
      while i < |order|
        invariant 0 <= i <= |order|
        invariant ValidTree(top) && AllAt(order[i..]) && Separate(top, Nodes(order[i..]))
        invariant final.0 == DetachSeq(top, Nodes(order[i..])).0
        invariant final.1 == removed + DetachSeq(top, Nodes(order[i..])).1
        invariant finalLog == log + RemoveLog(top, order[i..])
        invariant row == Interleave(top, order[i..], pidx, f)
        invariant nextId == old(nextId)
      {
        assert order[i..][1..] == order[i + 1..];
        var f', out := RemoveTurn(order[i..], pidx, f, row, removed, final, finalLog);
        f := f';
        removed := removed + [out];
        i := i + 1;
      }
      assert Nodes(order[i..]) == [] && RemoveLog(top, order[i..]) == [];
      assert DetachSeq(top, Nodes(order[i..])) == (top, []);
    }

    /**
     * One turn of that loop: the row is lowered when the first index's
     * parent, read in the current tree, is the target and its row is below
     * the row; then the index is removed.
     */
    method RemoveTurn(rest: seq<Index>, pidx: Index, f: int, ghost row: int, ghost removed: seq<Node>,
                      ghost final: (Node, seq<Node>), ghost finalLog: seq<Event>) returns (f': int, ghost out: Node)
      requires ValidTree(top) && AllAt(rest) && Separate(top, Nodes(rest)) && rest != []
      requires final.0 == DetachSeq(top, Nodes(rest)).0
      requires final.1 == removed + DetachSeq(top, Nodes(rest)).1
      requires finalLog == log + RemoveLog(top, rest)
      requires row == Interleave(top, rest, pidx, f)
      modifies this
      ensures nextId == old(nextId)
      ensures ValidTree(top) && AllAt(rest[1..]) && Separate(top, Nodes(rest[1..]))
      ensures final.0 == DetachSeq(top, Nodes(rest[1..])).0
      ensures final.1 == (removed + [out]) + DetachSeq(top, Nodes(rest[1..])).1
      ensures finalLog == log + RemoveLog(top, rest[1..])
      ensures row == Interleave(top, rest[1..], pidx, f')
    {
      ghost var t, l := top, log;
      var ind := rest[0];
      RemovalStepFacts(top, rest);
      InterleaveNext(top, rest, pidx, f);
      f' := f;
      if ParentIndex(top, ind) == pidx && ind.row < f {
        f' := f - 1;
      }
      assert IndexProblem(top, [ind]).None? by {
        assert Editable(top, [ind][0]);
        IndexProblemNone(top, [ind]);
      }
      ghost var d := Detach(t, ParentOf(t, ind.node), ind.node);
      RemovalAdvance(t, rest, d.0, d.1, removed, final.1, l, finalLog);
      var o := Remove(ind);
      assert o.Some? && top == d.0 && o.value == d.1;
      out := o.value;
    }

    /** `beginInsertRows(parentIndex, first, first + len(nodePaths) - 1)`, the nodes inserted from `first` on, then `endInsertRows()`. */
    method InsertAll(p: NodeId, pidx: Index, pos: int, ns: seq<Node>)
      requires Unique(top) && p in Ids(top) && Find(top, p).Sequence?
      requires UniqueList(ns) && IdsList(ns) !! Ids(top)
      modifies this
      ensures nextId == old(nextId)
      ensures top == AttachSeq(old(top), p, pos, ns)
      ensures log == old(log) + InsertRun(pidx, pos, |ns|)
    {
      log := log + [BeginInsertRows(pidx, pos, pos + |ns| - 1)];
      top := AttachAll(top, p, pos, ns);
      log := log + [EndInsertRows];
    }
  }
}
