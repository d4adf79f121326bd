/**
 * `_dropNodePath` of the older tag-filter model (the `lib` variant): the
 * target must be a valid index of a sequence node, the drop row is
 * corrected inside the removal loop (each index's parent read from the
 * tree as it is at that point), and there is no special case for the top
 * level.
 */
module TagFilterLibDrop {
  import opened Wrappers
  import opened TagFilterNodes
  import opened TagFilterTree
  import opened TagFilterIndex
  import opened TagFilterEdits
  import opened TagFilterEvents
  import opened TagFilterOps
  import opened TagFilterRemoval
  import opened TagFilterMove
  import opened TagFilterPaths
  import opened TagFilterDrop
  import PyLists
  import PySort

  /** The older `_getNodeFromNodePath` asserts a sequence node where the newer one raises TypeError. */
  function LibError(e: PyError): PyError
  {
    if e == TypeError then AssertionError else e
  }

  /** `_getNodeFromNodePath(path)` of the older model: the node, an AssertionError for a step into a leaf, IndexError past the children. */
  function LibResolve(n: Node, path: seq<int>): (r: Result<NodeId, PyError>)
    ensures r.Ok? <==> Resolve(n, path).Ok?
    ensures r.Ok? ==> r.value == Resolve(n, path).value
    ensures r.Err? ==> r.error == LibError(Resolve(n, path).error) && r.error != TypeError
  {
    match Resolve(n, path)
    case Ok(y) => Ok(y)
    case Err(e) => Err(LibError(e))
  }

  /** `[self._getNodeFromNodePath(np) for np in nodePaths]` of the older model. */
  function LibResolveAll(t: Node, paths: seq<seq<int>>): Result<seq<NodeId>, PyError>
  {
    match ResolveAll(t, paths)
    case Ok(ms) => Ok(ms)
    case Err(e) => Err(LibError(e))
  }

  /**
   * What the older drop may be handed: an index argument as target and, when
   * it names a sequence node and the paths resolve, nodes that can be moved
   * there (neither the top node nor nested, and the target outside them).
   */
  predicate LibDropInput(t: Node, parent: Index, paths: seq<seq<int>>)
    requires ValidTree(t)
  {
    && IndexArg(t, parent)
    && (parent.At? && Find(t, parent.node).Sequence? && ResolveAll(t, paths).Ok? ==>
          MoveArg(t, parent.node, ResolveAll(t, paths).value))
  }

  /** The dragged indexes sorted largest row first are indexes of separate nodes, at rows from 0 on. */
  lemma LibOrder(t: Node, ms: seq<NodeId>)
    requires ValidTree(t) && Separate(t, ms)
    ensures var xs := IndexesOf(t, ms);
      var order := PySort.SortDesc(xs, RowKey);
      && AllAt(order) && Separate(t, Nodes(order))
      && (forall k :: 0 <= k < |order| ==> order[k].row >= 0)
  {
    var xs := IndexesOf(t, ms);
    var order := PySort.SortDesc(xs, RowKey);
    RemovalOrder(t, xs);
    forall k | 0 <= k < |order| ensures order[k].At? && order[k].row >= 0 {
      assert order[k] in multiset(xs);
      var j :| 0 <= j < |xs| && xs[j] == order[k];
    }
  }

  /**
   * The loop of the older `_dropNodePath`: for each index, largest row
   * first, the drop row is lowered when the index's parent, as the tree
   * stands at that point, is the target index and its row lies before the
   * drop row; then the node is removed.
   */
  function Interleave(t: Node, order: seq<Index>, pidx: Index, f: int): int
    requires ValidTree(t) && AllAt(order) && Separate(t, Nodes(order))
    decreases |order|
  {
    if order == [] then f
    else
      var m := order[0].node;
      RemovalStepFacts(t, order);
      var f' := if ParentIndex(t, order[0]) == pidx && order[0].row < f then f - 1 else f;
      Interleave(Detach(t, ParentOf(t, m), m).0, order[1..], pidx, f')
  }

  /** One turn of the older loop: the row is corrected against the first index, then the walk goes on in the tree without its node. */
  lemma InterleaveNext(t: Node, order: seq<Index>, pidx: Index, f: int)
    requires ValidTree(t) && AllAt(order) && Separate(t, Nodes(order)) && order != []
    ensures var m := order[0].node;
      && m in Ids(t) && m != t.id
      && var t1 := Detach(t, ParentOf(t, m), m).0;
         && ValidTree(t1) && AllAt(order[1..]) && Separate(t1, Nodes(order[1..]))
         && Interleave(t, order, pidx, f)
            == Interleave(t1, order[1..], pidx, if ParentIndex(t, order[0]) == pidx && order[0].row < f then f - 1 else f)
  {
    RemovalStepFacts(t, order);
  }

  /** The corrected row never goes below 0 nor above the drop row, and a negative drop row is left alone. */
  lemma {:induction false} InterleaveBounds(t: Node, order: seq<Index>, pidx: Index, f: int)
    requires ValidTree(t) && AllAt(order) && Separate(t, Nodes(order))
    requires forall k :: 0 <= k < |order| ==> order[k].row >= 0
    ensures f >= 0 ==> 0 <= Interleave(t, order, pidx, f) <= f
    ensures f < 0 ==> Interleave(t, order, pidx, f) == f
    decreases |order|
  {
    if order != [] {
      var m := order[0].node;
      RemovalStepFacts(t, order);
      var f' := if ParentIndex(t, order[0]) == pidx && order[0].row < f then f - 1 else f;
      assert forall k :: 0 <= k < |order[1..]| ==> order[1..][k] == order[k + 1];
      InterleaveBounds(Detach(t, ParentOf(t, m), m).0, order[1..], pidx, f');
    }
  }

  /** The row the older drop inserts the first dragged node at. */
  function LibDropAt(t: Node, parent: Index, ms: seq<NodeId>, first: int): int
    requires ValidTree(t) && parent.At? && MoveArg(t, parent.node, ms)
  {
    var p := parent.node;
    var xs := IndexesOf(t, ms);
    LibOrder(t, ms);
    var f := Interleave(t, PySort.SortDesc(xs, RowKey), parent, first);
    var t1 := Removed(t, xs);
    SequenceInView(t, p);
    SequenceInView(t1, p);
    if f == -1 then |Find(t1, p).tagList| else f
  }

  /** The notifications of an older drop that goes through: one removal pair per index, then the insertion run. */
  function LibDropEvents(t: Node, parent: Index, ms: seq<NodeId>, first: int): seq<Event>
    requires ValidTree(t) && parent.At? && MoveArg(t, parent.node, ms)
  {
    LibOrder(t, ms);
    RemoveLog(t, PySort.SortDesc(IndexesOf(t, ms), RowKey)) + InsertRun(parent, LibDropAt(t, parent, ms, first), |ms|)
  }

  /**
   * `_dropNodePath(parentIndex, nodePaths, first)` of the older model: an
   * AssertionError for an invalid or leaf target, the exception of the first
   * path that does not resolve, or the move and True.
   */
  function LibDropStep(t: Node, next: nat, parent: Index, paths: seq<seq<int>>, first: int)
    : Outcome<Result<bool, PyError>>
    requires ValidTree(t) && LibDropInput(t, parent, paths)
  {
    if parent.Invalid? || Find(t, parent.node).Leaf? then Outcome(t, next, [], Err(AssertionError))
    else match ResolveAll(t, paths)
      case Err(e) => Outcome(t, next, [], Err(LibError(e)))
      case Ok(ms) =>
        Outcome(MoveTree(t, IndexesOf(t, ms), parent.node, LibDropAt(t, parent, ms, first)), next,
                LibDropEvents(t, parent, ms, first), Ok(true))
  }

  /**
   * The older drop keeps the tree valid and `next` fresh, loses and adds no
   * node; it goes through exactly on a valid sequence target whose paths all
   * resolve, and otherwise raises with nothing changed.
   */
  lemma LibDropStepOk(t: Node, next: nat, parent: Index, paths: seq<seq<int>>, first: int)
    requires ValidTree(t) && Fresh(t, next) && LibDropInput(t, parent, paths)
    ensures var o := LibDropStep(t, next, parent, paths, first);
      && ValidTree(o.tree) && o.tree.id == t.id && Ids(o.tree) == Ids(t) && o.next == next && Fresh(o.tree, o.next)
      && (o.result.Ok? <==> parent.At? && Find(t, parent.node).Sequence? && ResolveAll(t, paths).Ok?)
      && (o.result.Ok? ==> o.result.value)
      && (o.result.Err? ==> o.tree == t && o.events == [] && o.result.error != TypeError)
      && (parent.Invalid? || Find(t, parent.node).Leaf? ==> o.result == Err(AssertionError))
      && (parent.At? && Find(t, parent.node).Sequence? && ResolveAll(t, paths).Err? ==>
            o.result == Err(LibResolveAll(t, paths).error))
  {
    if parent.At? && Find(t, parent.node).Sequence? && ResolveAll(t, paths).Ok? {
      var p := parent.node;
      var ms := ResolveAll(t, paths).value;
      var xs := IndexesOf(t, ms);
      var t1 := Removed(t, xs);
      var pos := LibDropAt(t, parent, ms, first);
      assert p in Ids(t1) && Find(t1, p).Sequence? by {
        SequenceInView(t, p);
        SequenceInView(t1, p);
      }
      ClearedList(t, ms, p);
      assert MoveTree(t, xs, p, pos) == AttachSeq(t1, p, pos, Cleared(t, ms));
      RunKeeps(t1, p, pos, Cleared(t, ms), Ids(t), GoneIds(t, ms));
    }
  }

  /** The older drop row lies between 0 and the drop row, and is the number of staying children for -1. */
  lemma LibDropAtBounds(t: Node, parent: Index, ms: seq<NodeId>, first: int)
    requires ValidTree(t) && parent.At? && MoveArg(t, parent.node, ms) && first >= -1
    ensures parent.node in View(t)
    ensures var pos := LibDropAt(t, parent, ms, first);
      && pos >= 0 && (first >= 0 ==> pos <= first)
      && (first == -1 ==> pos == |FilterOut(View(t)[parent.node].children, Roots(ms))|)
  {
    var p := parent.node;
    var xs := IndexesOf(t, ms);
    LibOrder(t, ms);
    InterleaveBounds(t, PySort.SortDesc(xs, RowKey), parent, first);
    SequenceInView(t, p);
    SequenceInView(Removed(t, xs), p);
  }

  /**
   * Where the older drop puts the dragged nodes: cut from their places and
   * inserted, in payload order, among the children that stay in the target,
   * at the row the interleaved correction leaves.
   */
  lemma LibDropLands(t: Node, next: nat, parent: Index, paths: seq<seq<int>>, first: int)
    requires ValidTree(t) && LibDropInput(t, parent, paths) && first >= -1
    requires parent.At? && Find(t, parent.node).Sequence? && ResolveAll(t, paths).Ok?
    ensures var p := parent.node;
      var ms := ResolveAll(t, paths).value;
      var pos := LibDropAt(t, parent, ms, first);
      && p in View(t) && pos >= 0 && MoveArg(t, p, ms) && GoneIds(t, ms) <= Ids(t)
      && View(LibDropStep(t, next, parent, paths, first).tree) == Moved(View(t), GoneIds(t, ms), p, pos, ms)
      && View(LibDropStep(t, next, parent, paths, first).tree)[p].children
         == Splice(FilterOut(View(t)[p].children, Roots(ms)), pos, ms)
  {
    var p := parent.node;
    var ms := ResolveAll(t, paths).value;
    var xs := IndexesOf(t, ms);
    LibDropAtBounds(t, parent, ms, first);
    var pos := LibDropAt(t, parent, ms, first);
    assert LibDropStep(t, next, parent, paths, first).tree == MoveTree(t, xs, p, pos);
    MoveOk(t, xs, p, pos);
    MovedGone(t, ms);
    MovedRecords(View(t), GoneIds(t, ms), p, pos, ms);
  }
}
