/**
 * `_dropNodePath`: the nodes named by a drag payload are removed and put
 * back, in payload order, under the drop target, at a row corrected for
 * the dragged nodes that sat before it in the same target.
 */
module TagFilterDrop {
  import opened Wrappers
  import opened TagFilterNodes
  import opened TagFilterTree
  import opened TagFilterIndex
  import opened TagFilterEdits
  import opened TagFilterEvents
  import opened TagFilterOps
  import opened TagFilterMove
  import opened TagFilterPaths
  import opened TagFilterSteps
  import PyLists
  import PySort

  /** `[self._getIndexFromNode(node) for node in nodes]` */
  function IndexesOf(t: Node, ms: seq<NodeId>): (xs: seq<Index>)
    requires ValidTree(t) && forall k :: 0 <= k < |ms| ==> ms[k] in Ids(t)
    ensures |xs| == |ms| && Nodes(xs) == ms
    ensures forall k :: 0 <= k < |xs| ==> Live(t, xs[k]) && xs[k].node == ms[k]
  {
    seq(|ms|, k requires 0 <= k < |ms| => IndexOfNode(t, ms[k]))
  }

  /**
   * What a drop may be handed: an index argument as target and, when the
   * payload resolves under a sequence target, separate nodes other than
   * the top one and a target outside their subtrees.
   */
  predicate DropInput(t: Node, parent: Index, paths: seq<seq<int>>)
    requires ValidTree(t)
  {
    IndexArg(t, parent)
    && (Find(t, Target(t, parent)).Sequence? && ResolveAll(t, paths).Ok? ==>
          MoveArg(t, Target(t, parent), ResolveAll(t, paths).value))
  }

  /** The target node is in the tree, and the index the drop reports under is that node's own index. */
  lemma TargetLive(t: Node, parent: Index)
    requires ValidTree(t) && IndexArg(t, parent)
    ensures Target(t, parent) in Ids(t)
    ensures TargetIndex(t, parent) == IndexOfNode(t, Target(t, parent))
  {
    AncestorsOfTop(t);
    ParentNoneIffTop(t, t.id);
  }

  /** The removal a drop performs: it goes through exactly for a non-empty payload, and the target keeps the children not dragged. */
  lemma DropRemoval(t: Node, ms: seq<NodeId>, p: NodeId)
    requires ValidTree(t) && MoveArg(t, p, ms)
    ensures var xs := IndexesOf(t, ms);
      && Removable(t, xs) && AllLive(t, xs)
      && (IndexProblem(t, xs).None? <==> ms != [])
      && (ms == [] ==> RemoveTree(t, xs) == t && RemoveEvents(t, xs) == [Failure(NoIndex)])
      && (ms != [] ==> RemoveTree(t, xs) == Removed(t, xs))
      && p in View(t) && p in Ids(RemoveTree(t, xs)) && Find(RemoveTree(t, xs), p).Sequence?
      && |Find(RemoveTree(t, xs), p).tagList| == |FilterOut(View(t)[p].children, Roots(ms))|
  {
    var xs := IndexesOf(t, ms);
    SequenceInView(t, p);
    assert AllLive(t, xs);
    if ms == [] {
      FilterOutNone(View(t)[p].children, Roots(ms));
    } else {
      assert IndexProblem(t, xs).None? by {
        forall k | 0 <= k < |xs| ensures Editable(t, xs[k]) {
          assert xs[k].node == ms[k] && ms[k] != t.id;
        }
        IndexProblemNone(t, xs);
      }
      var t1 := RemoveTree(t, xs);
      RemoveTreeView(t, xs);
      SequenceInView(t1, p);
    }
  }

  /** The row `_dropNodePath` inserts the first dragged node at: the adjusted drop row, or the end of the target once the dragged nodes are out. */
  function DropAt(t: Node, parent: Index, ms: seq<NodeId>, first: int): int
    requires ValidTree(t) && IndexArg(t, parent) && MoveArg(t, Target(t, parent), ms)
  {
    var p := Target(t, parent);
    DropRemoval(t, ms, p);
    var xs := IndexesOf(t, ms);
    DropOrder(t, xs, p);
    var f := DropRow(t, PySort.SortDesc(xs, RowKey), p, TargetIndex(t, parent), first);
    if f == -1 then |Find(RemoveTree(t, xs), p).tagList| else f
  }

  /** The notifications of a drop that goes through: those of the removal, then one begin/end pair around the whole insertion run. */
  function DropEvents(t: Node, parent: Index, ms: seq<NodeId>, first: int): seq<Event>
    requires ValidTree(t) && IndexArg(t, parent) && MoveArg(t, Target(t, parent), ms)
  {
    DropRemoval(t, ms, Target(t, parent));
    RemoveEvents(t, IndexesOf(t, ms)) + InsertRun(TargetIndex(t, parent), DropAt(t, parent, ms, first), |ms|)
  }

  /**
   * `_dropNodePath(parentIndex, nodePaths, first)`: a TypeError for a leaf
   * target, the exception of the first path that does not resolve, or the
   * removal of the dragged nodes followed by their insertion, in payload
   * order, from the adjusted row on (after the last child for -1 and for
   * row 1 of the top node), under one begin/end pair, returning True.
   */
  function DropStep(t: Node, next: nat, parent: Index, paths: seq<seq<int>>, first: int): Outcome<Result<bool, PyError>>
    requires ValidTree(t) && DropInput(t, parent, paths)
  {
    TargetLive(t, parent);
    var p := Target(t, parent);
    if Find(t, p).Leaf? then Outcome(t, next, [], Err(TypeError))
    else match ResolveAll(t, paths)
      case Err(e) => Outcome(t, next, [], Err(e))
      case Ok(ms) =>
        DropRemoval(t, ms, p);
        ClearedList(t, ms, p);
        var xs := IndexesOf(t, ms);
        var pos := DropAt(t, parent, ms, first);
        Outcome(AttachSeq(RemoveTree(t, xs), p, pos, Cleared(t, ms)), next, DropEvents(t, parent, ms, first), Ok(true))
  }

  /** A drop that goes through, spelled out: the removal, then the insertion run at `DropAt`. */
  lemma DropParts(t: Node, next: nat, parent: Index, paths: seq<seq<int>>, first: int, ms: seq<NodeId>)
    requires ValidTree(t) && DropInput(t, parent, paths)
    requires Find(t, Target(t, parent)).Sequence? && ResolveAll(t, paths) == Ok(ms)
    ensures |ms| == |paths| && MoveArg(t, Target(t, parent), ms)
    ensures var xs := IndexesOf(t, ms);
      var p := Target(t, parent);
      && Removable(t, xs) && p in Ids(RemoveTree(t, xs)) && Find(RemoveTree(t, xs), p).Sequence?
      && UniqueList(Cleared(t, ms)) && IdsList(Cleared(t, ms)) == GoneIds(t, ms) && GoneIds(t, ms) <= Ids(t)
      && IdsList(Cleared(t, ms)) !! Ids(RemoveTree(t, xs))
      && (forall k :: 0 <= k < |ms| ==> Linked(Cleared(t, ms)[k]))
      && Ids(RemoveTree(t, xs)) == Ids(t) - GoneIds(t, ms)
      && DropStep(t, next, parent, paths, first)
         == Outcome(AttachSeq(RemoveTree(t, xs), p, DropAt(t, parent, ms, first), Cleared(t, ms)), next,
                    DropEvents(t, parent, ms, first), Ok(true))
  {
    ResolveAllOk(t, paths);
    var p := Target(t, parent);
    DropRemoval(t, ms, p);
    ClearedList(t, ms, p);
    var xs := IndexesOf(t, ms);
    if ms != [] {
      RemoveTreeView(t, xs);
    }
  }

  /** The row the dragged nodes land at: after the last staying child, or the drop row less the dragged children of the target before it. */
  function LandingRow(kids: seq<NodeId>, cut: set<NodeId>, top: bool, first: int): int
  {
    if first == -1 || (top && first == 1) then |FilterOut(kids, cut)|
    else if first < 0 then first
    else first - CountIn(kids[..if first <= |kids| then first else |kids|], cut)
  }

  /** A drop that goes through keeps the tree valid, with the same nodes, and returns True. */
  lemma DropStepKeeps(t: Node, next: nat, parent: Index, paths: seq<seq<int>>, first: int)
    requires ValidTree(t) && DropInput(t, parent, paths)
    requires Find(t, Target(t, parent)).Sequence? && ResolveAll(t, paths).Ok?
    ensures var o := DropStep(t, next, parent, paths, first);
      ValidTree(o.tree) && o.tree.id == t.id && Ids(o.tree) == Ids(t) && o.next == next && o.result == Ok(true)
  {
    var p := Target(t, parent);
    var ms := ResolveAll(t, paths).value;
    DropParts(t, next, parent, paths, first, ms);
    RunKeeps(RemoveTree(t, IndexesOf(t, ms)), p, DropAt(t, parent, ms, first), Cleared(t, ms), Ids(t), GoneIds(t, ms));
  }

  /** Putting back the removed subtrees keeps the tree valid and restores its set of nodes. */
  lemma RunKeeps(t1: Node, p: NodeId, pos: int, ns: seq<Node>, all: set<NodeId>, gone: set<NodeId>)
    requires ValidTree(t1) && p in Ids(t1) && Find(t1, p).Sequence?
    requires UniqueList(ns) && IdsList(ns) !! Ids(t1) && forall k :: 0 <= k < |ns| ==> Linked(ns[k])
    requires Ids(t1) == all - gone && IdsList(ns) == gone && gone <= all
    ensures var t2 := AttachSeq(t1, p, pos, ns);
      ValidTree(t2) && t2.id == t1.id && Ids(t2) == all
  {
    AttachSeqIds(t1, p, pos, ns);
    AttachSeqLinked(t1, p, pos, ns);
  }

  /**
   * A drop keeps the tree valid and `next` fresh, loses and adds no node,
   * and fails, changing nothing and sending nothing, exactly for a leaf
   * target or a payload that does not resolve.
   */
  lemma DropStepOk(t: Node, next: nat, parent: Index, paths: seq<seq<int>>, first: int)
    requires ValidTree(t) && Fresh(t, next) && DropInput(t, parent, paths)
    ensures Target(t, parent) in Ids(t)
    ensures var o := DropStep(t, next, parent, paths, first);
      && ValidTree(o.tree) && o.tree.id == t.id && Ids(o.tree) == Ids(t) && o.next == next && Fresh(o.tree, o.next)
      && (o.result.Ok? <==> Find(t, Target(t, parent)).Sequence? && ResolveAll(t, paths).Ok?)
      && (o.result.Ok? ==> o.result.value)
      && (Find(t, Target(t, parent)).Leaf? ==> o == Outcome(t, next, [], Err(TypeError)))
      && (Find(t, Target(t, parent)).Sequence? && ResolveAll(t, paths).Err? ==>
            o == Outcome(t, next, [], Err(ResolveAll(t, paths).error)))
  {
    TargetLive(t, parent);
    if Find(t, Target(t, parent)).Sequence? && ResolveAll(t, paths).Ok? {
      DropStepKeeps(t, next, parent, paths, first);
    }
  }

  /** The drop position, counted on the children of the target before the drop, is the landing row. */
  lemma DropPosLanding(t: Node, xs: seq<Index>, p: NodeId, first: int)
    requires ValidTree(t) && AllLive(t, xs) && MoveArg(t, p, Nodes(xs)) && first >= -1
    ensures p in View(t) && AllLive(t, PySort.SortDesc(xs, RowKey))
    ensures var kids := View(t)[p].children;
      DropPos(t, PySort.SortDesc(xs, RowKey), p, IndexOfNode(t, p), first, |FilterOut(kids, Roots(Nodes(xs)))|)
      == LandingRow(kids, Roots(Nodes(xs)), p == t.id, first)
  {
    var order := PySort.SortDesc(xs, RowKey);
    SequenceInView(t, p);
    DropOrder(t, xs, p);
    var kids := View(t)[p].children;
    var first1 := if p == t.id && first == 1 then -1 else first;
    if first1 > 0 {
      AdjustedRow(t, order, p, first1);
    }
    LandingOfRow(kids, Roots(Nodes(xs)), p == t.id, first, DropRow(t, order, p, IndexOfNode(t, p), first));
  }

  /** The landing row on lists: the position computed from the adjusted drop row `f`. */
  lemma LandingOfRow(kids: seq<NodeId>, cut: set<NodeId>, top: bool, first: int, f: int)
    requires first >= -1
    requires var first1 := if top && first == 1 then -1 else first;
      && (first1 <= 0 ==> f == first1)
      && (first1 > 0 ==> f == first1 - CountIn(kids[..if first1 <= |kids| then first1 else |kids|], cut))
    ensures (if f == -1 then |FilterOut(kids, cut)| else f) == LandingRow(kids, cut, top, first)
  {
    var first1 := if top && first == 1 then -1 else first;
    if first1 > 0 {
      var q := if first1 <= |kids| then first1 else |kids|;
      CountInFilter(kids[..q], cut);
    } else if first1 == 0 {
      assert kids[..0] == [];
    }
  }

  /** The insertion row `_dropNodePath` computes is the landing row, counted on the children of the target before the drop. */
  lemma DropAtLanding(t: Node, parent: Index, ms: seq<NodeId>, first: int)
    requires ValidTree(t) && IndexArg(t, parent) && MoveArg(t, Target(t, parent), ms) && first >= -1
    ensures Target(t, parent) in View(t)
    ensures DropAt(t, parent, ms, first)
         == LandingRow(View(t)[Target(t, parent)].children, Roots(ms), Target(t, parent) == t.id, first)
  {
    var p := Target(t, parent);
    TargetLive(t, parent);
    DropRemoval(t, ms, p);
    var xs := IndexesOf(t, ms);
    DropPosLanding(t, xs, p, first);
  }

  /**
   * A drop that goes through moves the dragged subtrees: they are cut from
   * their parents and hung, in payload order, into the target from the
   * landing row on, and the insertion is reported at that row.
   */
  lemma DropStepMoves(t: Node, next: nat, parent: Index, paths: seq<seq<int>>, first: int)
    requires ValidTree(t) && DropInput(t, parent, paths) && first >= -1
    requires Find(t, Target(t, parent)).Sequence? && ResolveAll(t, paths).Ok?
    ensures Target(t, parent) in View(t)
    ensures var p := Target(t, parent);
      var ms := ResolveAll(t, paths).value;
      var o := DropStep(t, next, parent, paths, first);
      var pos := LandingRow(View(t)[p].children, Roots(ms), p == t.id, first);
      && pos >= 0 && MoveArg(t, p, ms) && GoneIds(t, ms) <= Ids(t)
      && o.events == DropEvents(t, parent, ms, first) && DropAt(t, parent, ms, first) == pos
      && View(o.tree) == Moved(View(t), GoneIds(t, ms), p, pos, ms)
  {
    var p := Target(t, parent);
    var ms := ResolveAll(t, paths).value;
    DropParts(t, next, parent, paths, first, ms);
    DropAtLanding(t, parent, ms, first);
    var xs := IndexesOf(t, ms);
    var pos := LandingRow(View(t)[p].children, Roots(ms), p == t.id, first);
    LandingRowNonNeg(View(t)[p].children, Roots(ms), p == t.id, first);
    if ms == [] {
      assert RemoveTree(t, xs) == t by { DropRemoval(t, ms, p); }
      DropNothing(t, p, pos);
    } else {
      assert DropStep(t, next, parent, paths, first).tree == MoveTree(t, xs, p, pos) by { DropRemoval(t, ms, p); }
      MoveOk(t, xs, p, pos);
    }
  }

  /**
   * Where a drop puts the dragged nodes among the children of the target:
   * after the children that stay, in payload order, for -1 and for row 1
   * of the top node; otherwise just after the staying children that came
   * before the drop row.
   */
  lemma DropStepLands(t: Node, next: nat, parent: Index, paths: seq<seq<int>>, first: int)
    requires ValidTree(t) && DropInput(t, parent, paths) && first >= -1
    requires Find(t, Target(t, parent)).Sequence? && ResolveAll(t, paths).Ok?
    ensures Target(t, parent) in View(t)
    ensures var p := Target(t, parent);
      var ms := ResolveAll(t, paths).value;
      var o := DropStep(t, next, parent, paths, first);
      var kids := View(t)[p].children;
      var cut := Roots(ms);
      && p in View(o.tree)
      && (first == -1 || (p == t.id && first == 1) ==> View(o.tree)[p].children == FilterOut(kids, cut) + ms)
      && (first >= 0 && !(p == t.id && first == 1) ==>
            var q := if first <= |kids| then first else |kids|;
            View(o.tree)[p].children == FilterOut(kids[..q], cut) + ms + FilterOut(kids[q..], cut))
  {
    var p := Target(t, parent);
    var ms := ResolveAll(t, paths).value;
    DropParts(t, next, parent, paths, first, ms);
    DropAtLanding(t, parent, ms, first);
    var xs := IndexesOf(t, ms);
    var pos := LandingRow(View(t)[p].children, Roots(ms), p == t.id, first);
    LandingRowNonNeg(View(t)[p].children, Roots(ms), p == t.id, first);
    if ms == [] {
      assert RemoveTree(t, xs) == t by { DropRemoval(t, ms, p); }
      DropNothing(t, p, pos);
    } else {
      assert DropStep(t, next, parent, paths, first).tree == MoveTree(t, xs, p, pos) by { DropRemoval(t, ms, p); }
      assert AllLive(t, xs) by { DropRemoval(t, ms, p); }
      DropPosLanding(t, xs, p, first);
      DropLands(t, xs, p, first);
    }
  }

  /** The landing row of a drop row of at least -1 is a position. */
  lemma LandingRowNonNeg(kids: seq<NodeId>, cut: set<NodeId>, top: bool, first: int)
    requires first >= -1
    ensures LandingRow(kids, cut, top, first) >= 0
  {
    if first >= 0 {
      CountInFilter(kids[..if first <= |kids| then first else |kids|], cut);
    }
  }

  /** Dropping an empty payload leaves the children of the target as they are, wherever it is dropped. */
  lemma DropNothing(t: Node, p: NodeId, pos: int)
    requires ValidTree(t) && p in Ids(t) && Find(t, p).Sequence? && pos >= 0
    ensures p in View(t)
    ensures AttachSeq(t, p, pos, Cleared(t, [])) == t
    ensures var kids := View(t)[p].children;
      var q := if pos <= |kids| then pos else |kids|;
      && FilterOut(kids, Roots([])) == kids
      && FilterOut(kids[..q], Roots([])) + [] + FilterOut(kids[q..], Roots([])) == kids
      && View(t) == Moved(View(t), GoneIds(t, []), p, pos, [])
  {
    SequenceInView(t, p);
    var kids := View(t)[p].children;
    var q := if pos <= |kids| then pos else |kids|;
    assert AttachSeq(t, p, pos, Cleared(t, [])) == t by {
      assert Cleared(t, []) == [];
    }
    FilterNothingSplit(kids, q);
    MovedNothing(View(t), p, pos);
  }

  /** Filtering nothing out of the two halves of a list at `q` gives the list back. */
  lemma {:induction false} FilterNothingSplit(kids: seq<NodeId>, q: nat)
    requires q <= |kids|
    ensures FilterOut(kids, Roots([])) == kids
    ensures FilterOut(kids[..q], Roots([])) + [] + FilterOut(kids[q..], Roots([])) == kids
  {
    var none := Roots([]);
    assert none == {};
    var a, b := kids[..q], kids[q..];
    assert FilterOut(kids, none) == kids by { FilterOutEmpty(kids); }
    assert FilterOut(a, none) == a by { FilterOutEmpty(a); }
    assert FilterOut(b, none) == b by { FilterOutEmpty(b); }
    assert a + [] + b == kids;
  }

  /** Filtering out nothing keeps the list. */
  lemma {:induction false} FilterOutEmpty(s: seq<NodeId>)
    ensures FilterOut(s, {}) == s
  {
    if s != [] {
      FilterOutEmpty(s[1..]);
      assert s == [s[0]] + s[1..];
    }
  }

  /** Moving nothing changes no record. */
  lemma MovedNothing(v: map<NodeId, Rec>, p: NodeId, pos: nat)
    requires p in v
    ensures Moved(v, {}, p, pos, []) == v
  {
    var w := Without(v, {}, Roots([]));
    assert w == v by {
      forall x | x in v ensures w[x] == v[x] { FilterOutNone(v[x].children, Roots([])); }
    }
    SpliceNothing(v[p].children, pos);
    assert Regrafted(v, {}, Roots([]), p) == map[];
  }

  /** One turn of the insertion loop: inserting node `k` at `pos + k` leaves the rest of the run to do. */
  lemma AttachNext(t: Node, p: NodeId, pos: int, ns: seq<Node>, k: nat)
    requires Unique(t) && p in Ids(t) && Find(t, p).Sequence? && k < |ns|
    requires UniqueList(ns[k..]) && IdsList(ns[k..]) !! Ids(t)
    ensures var t1 := Attach(t, p, pos + k, ns[k]);
      && Unique(t1) && p in Ids(t1) && Find(t1, p).Sequence?
      && UniqueList(ns[k + 1..]) && IdsList(ns[k + 1..]) !! Ids(t1)
      && AttachSeq(t1, p, pos + k + 1, ns[k + 1..]) == AttachSeq(t, p, pos + k, ns[k..])
  {
    AttachFirst(t, p, pos + k, ns[k..]);
    assert ns[k..][0] == ns[k] && ns[k..][1..] == ns[k + 1..];
  }

  /** `for pos, node in enumerate(nodes, first): nodeParent.insert(pos, node)` on the tree `t`. */
  method AttachAll(t: Node, p: NodeId, pos: int, ns: seq<Node>) returns (r: Node)
    requires Unique(t) && p in Ids(t) && Find(t, p).Sequence?
    requires UniqueList(ns) && IdsList(ns) !! Ids(t)
    ensures r == AttachSeq(t, p, pos, ns)
  {
    r := t;
    var k := 0;
    assert ns[k..] == ns;
    while k < |ns|
      invariant 0 <= k <= |ns|
      invariant Unique(r) && p in Ids(r) && Find(r, p).Sequence?
      invariant UniqueList(ns[k..]) && IdsList(ns[k..]) !! Ids(r)
      invariant AttachSeq(r, p, pos + k, ns[k..]) == AttachSeq(t, p, pos, ns)
    {
      AttachNext(r, p, pos, ns, k);
      r := Attach(r, p, pos + k, ns[k]);
      k := k + 1;
    }
  }

  /** One turn of the adjusting loop: the index at `k` decides whether the row goes down by one. */
  lemma AdjustNext(t: Node, order: seq<Index>, pi: Index, f: int, k: nat)
    requires ValidTree(t) && k < |order| && AllLive(t, order[k..])
    ensures Live(t, order[k]) && order[k].node != t.id && AllLive(t, order[k + 1..])
    ensures Adjust(t, order[k..], pi, f)
         == Adjust(t, order[k + 1..], pi, if ParentIndex(t, order[k]) == pi && order[k].row < f then f - 1 else f)
  {
    assert order[k..][0] == order[k] && order[k..][1..] == order[k + 1..];
    AllLiveTail(t, order[k..]);
  }
}
