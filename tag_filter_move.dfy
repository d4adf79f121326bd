/**
 * `_dropNodePath`: the dragged nodes are resolved from their paths, the
 * drop row is adjusted for the dragged nodes that sat before it in the
 * target, the nodes are removed (largest row first) and then inserted into
 * the target one after the other, in payload order, from the adjusted row
 * on.
 */
module TagFilterMove {
  import opened Wrappers
  import opened TagFilterNodes
  import opened TagFilterTree
  import opened TagFilterIndex
  import opened TagFilterEdits
  import opened TagFilterEvents
  import opened TagFilterOps
  import opened TagFilterRemoval
  import PyLists
  import PySort

  // ---------------------------------------------------------------------
  // The moved subtrees

  /** Setting the parent of every node of a list changes neither its identities nor its uniqueness. */
  lemma {:induction false} AdoptList(ns: seq<Node>, x: NodeId)
    ensures UniqueList(Adopt(ns, x)) == UniqueList(ns) && IdsList(Adopt(ns, x)) == IdsList(ns)
    ensures ChildIds(Adopt(ns, x)) == ChildIds(ns)
    decreases |ns|
  {
    if ns != [] {
      AdoptList(ns[1..], x);
      assert Adopt(ns, x)[1..] == Adopt(ns[1..], x);
      WithParentIds(ns[0], Some(x));
    }
  }

  /** The dragged node objects once `removeIndexes` has cleared their parent, in payload order. */
  function Cleared(t: Node, ms: seq<NodeId>): (r: seq<Node>)
    requires forall k :: 0 <= k < |ms| ==> ms[k] in Ids(t)
    ensures |r| == |ms|
  {
    seq(|ms|, k requires 0 <= k < |ms| => WithParent(Find(t, ms[k]), None))
  }

  /** The cleared subtrees are disjoint, hold exactly the removed nodes, and hang off `p` as `Regrafted` says once inserted. */
  lemma ClearedList(t: Node, ms: seq<NodeId>, p: NodeId)
    requires ValidTree(t) && Separate(t, ms)
    ensures var ns := Cleared(t, ms);
      && UniqueList(ns) && IdsList(ns) == GoneIds(t, ms) && GoneIds(t, ms) <= Ids(t) && ChildIds(ns) == ms
      && (forall k :: 0 <= k < |ns| ==> Linked(ns[k]))
      && ViewList(Adopt(ns, p)) == Regrafted(View(t), GoneIds(t, ms), Roots(ms), p)
  {
    var ns := Cleared(t, ms);
    AdoptedIds(t, ms, ns, p);
    AdoptedViewList(t, ms, ns, p);
    AdoptList(ns, p);
    forall k | 0 <= k < |ns| ensures Linked(ns[k]) {
      assert Linked(Adopt(ns, p)[k]);
      WithParentLinked(ns[k], Some(p));
    }
  }

  /** What `_dropNodePath` requires of a drop: separate dragged nodes and a sequence target outside their subtrees. */
  predicate MoveArg(t: Node, p: NodeId, ms: seq<NodeId>)
    requires ValidTree(t)
  {
    Separate(t, ms) && p in Ids(t) && Find(t, p).Sequence? && p !in GoneIds(t, ms)
  }

  /** `removeIndexes(indexes)`: the subtrees removed largest row first. */
  function Removed(t: Node, xs: seq<Index>): (r: Node)
    requires ValidTree(t) && Separate(t, Nodes(xs))
    ensures ValidTree(r) && r.id == t.id && Ids(r) == Ids(t) - GoneIds(t, Nodes(xs))
    ensures View(r) == Without(View(t), GoneIds(t, Nodes(xs)), Roots(Nodes(xs)))
  {
    RemovalResult(t, xs);
    DetachSeq(t, Nodes(PySort.SortDesc(xs, RowKey))).0
  }

  /** Removing the indexes `xs` largest row first, then inserting the nodes at `pos`, `pos + 1`, ... of `p` in the order of `xs`. */
  function MoveTree(t: Node, xs: seq<Index>, p: NodeId, pos: int): Node
    requires ValidTree(t) && MoveArg(t, p, Nodes(xs))
  {
    var t1 := Removed(t, xs);
    SequenceInView(t, p);
    SequenceInView(t1, p);
    ClearedList(t, Nodes(xs), p);
    AttachSeq(t1, p, pos, Cleared(t, Nodes(xs)))
  }

  /** The view after a move: the moved subtrees cut from their parents and hung, in order, into `p` from `pos` on. */
  function Moved(v: map<NodeId, Rec>, gone: set<NodeId>, p: NodeId, pos: nat, ms: seq<NodeId>): (r: map<NodeId, Rec>)
    requires gone <= v.Keys && p in v.Keys - gone
    ensures r.Keys == v.Keys
  {
    var w := Without(v, gone, Roots(ms));
    w[p := w[p].(children := Splice(w[p].children, pos, ms))] + Regrafted(v, gone, Roots(ms), p)
  }

  /**
   * A move keeps the tree valid and its set of nodes unchanged (no node is
   * lost or duplicated), and its view is `Moved`.
   */
  lemma MoveOk(t: Node, xs: seq<Index>, p: NodeId, pos: nat)
    requires ValidTree(t) && MoveArg(t, p, Nodes(xs))
    ensures GoneIds(t, Nodes(xs)) <= Ids(t)
    ensures var t' := MoveTree(t, xs, p, pos);
      && ValidTree(t') && t'.id == t.id && Ids(t') == Ids(t)
      && View(t') == Moved(View(t), GoneIds(t, Nodes(xs)), p, pos, Nodes(xs))
  {
    var ms := Nodes(xs);
    var t1 := Removed(t, xs);
    var ns := Cleared(t, ms);
    assert p in Ids(t1) && Find(t1, p).Sequence? by {
      SequenceInView(t, p);
      SequenceInView(t1, p);
    }
    ClearedList(t, ms, p);
    assert MoveTree(t, xs, p, pos) == AttachSeq(t1, p, pos, ns);
    assert ValidTree(AttachSeq(t1, p, pos, ns)) && AttachSeq(t1, p, pos, ns).id == t.id
      && Ids(AttachSeq(t1, p, pos, ns)) == Ids(t)
    by {
      AttachSeqIds(t1, p, pos, ns);
      AttachSeqLinked(t1, p, pos, ns);
    }
    AttachSeqView(t1, p, pos, ns);
  }

  /** The records a move leaves, read off the view. */
  lemma MovedRecords(v: map<NodeId, Rec>, gone: set<NodeId>, p: NodeId, pos: nat, ms: seq<NodeId>)
    requires gone <= v.Keys && p in v.Keys - gone && (forall k :: 0 <= k < |ms| ==> ms[k] in gone)
    ensures var r := Moved(v, gone, p, pos, ms);
      && r[p] == v[p].(children := Splice(FilterOut(v[p].children, Roots(ms)), pos, ms))
      && (forall k :: 0 <= k < |ms| ==> r[ms[k]] == v[ms[k]].(parent := Some(p)))
      && (forall y :: y in gone && y !in ms ==> r[y] == v[y])
      && (forall y :: y in v && y !in gone && y != p ==> r[y] == v[y].(children := FilterOut(v[y].children, Roots(ms))))
  {
  }

  // ---------------------------------------------------------------------
  // The adjusted drop row

  /** Every index of the list is live. */
  predicate AllLive(t: Node, xs: seq<Index>)
    requires ValidTree(t)
  {
    forall k :: 0 <= k < |xs| ==> Live(t, xs[k]) && xs[k].node != t.id
  }

  /** The index names a child of `p`. */
  predicate Under(t: Node, i: Index, p: NodeId)
    requires ValidTree(t) && Live(t, i) && i.node != t.id
  {
    ParentOf(t, i.node) == p
  }

  /**
   * `for ind in sorted(indexes, key=lambda i: -i.row()): if ind.parent() == parentIndex and ind.row() < first: first -= 1`,
   * every `parent()` taken from the tree before the removal.
   */
  function Adjust(t: Node, order: seq<Index>, pi: Index, f: int): int
    requires ValidTree(t) && AllLive(t, order)
    decreases |order|
  {
    if order == [] then f
    else
      var i := order[0];
      Adjust(t, order[1..], pi, if ParentIndex(t, i) == pi && i.row < f then f - 1 else f)
  }

  /** How many of the indexes name a child of `p` at a row before `q`. */
  function CountBefore(t: Node, xs: seq<Index>, p: NodeId, q: int): nat
    requires ValidTree(t) && AllLive(t, xs)
    decreases |xs|
  {
    if xs == [] then 0
    else (if Under(t, xs[0], p) && xs[0].row < q then 1 else 0) + CountBefore(t, xs[1..], p, q)
  }

  /** How many of the indexes name a child of `p` at the row `q`. */
  function CountAt(t: Node, xs: seq<Index>, p: NodeId, q: int): nat
    requires ValidTree(t) && AllLive(t, xs)
    decreases |xs|
  {
    if xs == [] then 0
    else (if Under(t, xs[0], p) && xs[0].row == q then 1 else 0) + CountAt(t, xs[1..], p, q)
  }

  /** The indexes naming children of `p` have pairwise different rows. */
  predicate RowsDistinct(t: Node, xs: seq<Index>, p: NodeId)
    requires ValidTree(t) && AllLive(t, xs)
  {
    forall i, j :: 0 <= i < j < |xs| && Under(t, xs[i], p) && Under(t, xs[j], p) ==> xs[i].row != xs[j].row
  }

  /** `ind.parent() == parentIndex` compares the parents: the target's index names `p`. */
  lemma ParentIndexUnder(t: Node, i: Index, p: NodeId)
    requires ValidTree(t) && Live(t, i) && i.node != t.id && p in Ids(t)
    ensures ParentIndex(t, i) == IndexOfNode(t, p) <==> Under(t, i, p)
  {
  }

  /** Different live indexes under one parent have different rows. */
  lemma LiveRowsDistinct(t: Node, xs: seq<Index>, p: NodeId)
    requires ValidTree(t) && AllLive(t, xs) && PyLists.NoDup(Nodes(xs))
    ensures RowsDistinct(t, xs, p)
  {
    forall i, j | 0 <= i < j < |xs| && Under(t, xs[i], p) && Under(t, xs[j], p) ensures xs[i].row != xs[j].row {
      assert Nodes(xs)[i] != Nodes(xs)[j];
    }
  }

  lemma AllLiveTail(t: Node, xs: seq<Index>)
    requires ValidTree(t) && AllLive(t, xs) && xs != []
    ensures AllLive(t, xs[1..])
  {
    assert forall k :: 0 <= k < |xs[1..]| ==> xs[1..][k] == xs[k + 1];
  }

  /** A bound nothing under `p` sits at does not change the count. */
  lemma {:induction false} CountBeforeShift(t: Node, xs: seq<Index>, p: NodeId, q: int)
    requires ValidTree(t) && AllLive(t, xs)
    requires forall k :: 0 <= k < |xs| && Under(t, xs[k], p) ==> xs[k].row != q - 1
    ensures CountBefore(t, xs, p, q - 1) == CountBefore(t, xs, p, q)
    decreases |xs|
  {
    if xs != [] {
      AllLiveTail(t, xs);
      assert forall k :: 0 <= k < |xs[1..]| ==> xs[1..][k] == xs[k + 1];
      CountBeforeShift(t, xs[1..], p, q);
    }
  }

  /**
   * Because the rows are visited largest first and differ under one parent,
   * lowering `first` never skips a row: the loop subtracts exactly the
   * number of moved children of the target before the drop row.
   */
  lemma {:induction false} AdjustCount(t: Node, order: seq<Index>, p: NodeId, f: int)
    requires ValidTree(t) && AllLive(t, order) && p in Ids(t)
    requires PySort.Descending(order, RowKey) && RowsDistinct(t, order, p)
    ensures Adjust(t, order, IndexOfNode(t, p), f) == f - CountBefore(t, order, p, f)
    decreases |order|
  {
    if order != [] {
      var i := order[0];
      var rest := order[1..];
      AllLiveTail(t, order);
      assert forall k :: 0 <= k < |rest| ==> rest[k] == order[k + 1];
      assert PySort.Descending(rest, RowKey);
      assert RowsDistinct(t, rest, p);
      ParentIndexUnder(t, i, p);
      if Under(t, i, p) && i.row < f {
        AdjustCount(t, rest, p, f - 1);
        forall k | 0 <= k < |rest| && Under(t, rest[k], p) ensures rest[k].row != f - 1 {
          assert RowKey(order[0]) >= RowKey(order[k + 1]);
          assert order[0].row != order[k + 1].row;
        }
        CountBeforeShift(t, rest, p, f);
      } else {
        AdjustCount(t, rest, p, f);
      }
    }
  }

  /** With pairwise different rows, at most one index sits at a row, and one does exactly when some index does. */
  lemma {:induction false} CountAtValue(t: Node, xs: seq<Index>, p: NodeId, q: int)
    requires ValidTree(t) && AllLive(t, xs) && RowsDistinct(t, xs, p)
    ensures CountAt(t, xs, p, q) == if exists k :: 0 <= k < |xs| && Under(t, xs[k], p) && xs[k].row == q then 1 else 0
    decreases |xs|
  {
    if xs != [] {
      var rest := xs[1..];
      AllLiveTail(t, xs);
      assert forall k :: 0 <= k < |rest| ==> rest[k] == xs[k + 1];
      assert RowsDistinct(t, rest, p);
      CountAtValue(t, rest, p, q);
      if Under(t, xs[0], p) && xs[0].row == q {
        assert !exists k :: 0 <= k < |rest| && Under(t, rest[k], p) && rest[k].row == q;
      } else if exists k :: 0 <= k < |xs| && Under(t, xs[k], p) && xs[k].row == q {
        var k :| 0 <= k < |xs| && Under(t, xs[k], p) && xs[k].row == q;
        assert rest[k - 1] == xs[k];
      }
    }
  }

  lemma {:induction false} CountBeforeStep(t: Node, xs: seq<Index>, p: NodeId, q: int)
    requires ValidTree(t) && AllLive(t, xs)
    ensures CountBefore(t, xs, p, q + 1) == CountBefore(t, xs, p, q) + CountAt(t, xs, p, q)
    decreases |xs|
  {
    if xs != [] {
      AllLiveTail(t, xs);
      CountBeforeStep(t, xs[1..], p, q);
    }
  }

  /** How many ids of `s` are in `cut`. */
  function CountIn(s: seq<NodeId>, cut: set<NodeId>): nat
  {
    if s == [] then 0 else (if s[0] in cut then 1 else 0) + CountIn(s[1..], cut)
  }

  lemma {:induction false} CountInFilter(s: seq<NodeId>, cut: set<NodeId>)
    ensures |FilterOut(s, cut)| + CountIn(s, cut) == |s|
  {
    if s != [] { CountInFilter(s[1..], cut); }
  }

  lemma {:induction false} CountInSnoc(s: seq<NodeId>, x: NodeId, cut: set<NodeId>)
    ensures CountIn(s + [x], cut) == CountIn(s, cut) + (if x in cut then 1 else 0)
  {
    if s == [] {
      assert s + [x] == [x];
    } else {
      assert (s + [x])[1..] == s[1..] + [x];
      CountInSnoc(s[1..], x, cut);
    }
  }

  /** Moved children of `p` at row `q` are exactly the moved node standing at position `q` of `p`'s children. */
  lemma UnderAtRow(t: Node, xs: seq<Index>, p: NodeId, q: nat)
    requires ValidTree(t) && AllLive(t, xs) && p in View(t) && q < |View(t)[p].children|
    ensures (exists k :: 0 <= k < |xs| && Under(t, xs[k], p) && xs[k].row == q)
        <==> View(t)[p].children[q] in Roots(Nodes(xs))
  {
    var kids := View(t)[p].children;
    assert p in Ids(t);
    SequenceInView(t, p);
    ChildOfParent(t, p, kids[q]);
    assert Find(t, p).Sequence?;
    FindInside(t, p);
    ChildIdsNoDup(Find(t, p).tagList);
    if exists k :: 0 <= k < |xs| && Under(t, xs[k], p) && xs[k].row == q {
      var k :| 0 <= k < |xs| && Under(t, xs[k], p) && xs[k].row == q;
      assert Nodes(xs)[k] == kids[q];
    }
    if kids[q] in Roots(Nodes(xs)) {
      var k :| 0 <= k < |xs| && Nodes(xs)[k] == kids[q];
      assert PyLists.IndexOf(kids, kids[q]) == q;
      assert Under(t, xs[k], p) && xs[k].row == q;
    }
  }

  /** The moved children of `p` before row `q` are the cut ids among its first `q` children. */
  lemma {:induction false} CountBeforeKids(t: Node, xs: seq<Index>, p: NodeId, q: nat)
    requires ValidTree(t) && AllLive(t, xs) && RowsDistinct(t, xs, p) && p in View(t)
    requires q <= |View(t)[p].children|
    ensures CountBefore(t, xs, p, q) == CountIn(View(t)[p].children[..q], Roots(Nodes(xs)))
    decreases q
  {
    var kids := View(t)[p].children;
    if q == 0 {
      CountBeforeZero(t, xs, p);
    } else {
      CountBeforeKids(t, xs, p, q - 1);
      CountBeforeStep(t, xs, p, q - 1);
      CountAtValue(t, xs, p, q - 1);
      UnderAtRow(t, xs, p, q - 1);
      assert kids[..q] == kids[..q - 1] + [kids[q - 1]];
      CountInSnoc(kids[..q - 1], kids[q - 1], Roots(Nodes(xs)));
    }
  }

  lemma {:induction false} CountBeforeZero(t: Node, xs: seq<Index>, p: NodeId)
    requires ValidTree(t) && AllLive(t, xs)
    ensures CountBefore(t, xs, p, 0) == 0
    decreases |xs|
  {
    if xs != [] {
      AllLiveTail(t, xs);
      CountBeforeZero(t, xs[1..], p);
    }
  }

  /** No child of `p` sits at or past its number of children. */
  lemma {:induction false} CountBeforeCap(t: Node, xs: seq<Index>, p: NodeId, q: int)
    requires ValidTree(t) && AllLive(t, xs) && p in View(t) && q >= |View(t)[p].children|
    ensures CountBefore(t, xs, p, q) == CountBefore(t, xs, p, |View(t)[p].children|)
    decreases |xs|
  {
    if xs != [] {
      AllLiveTail(t, xs);
      CountBeforeCap(t, xs[1..], p, q);
      if Under(t, xs[0], p) {
        assert p in Ids(t);
        SequenceInView(t, p);
      }
    }
  }

  /** Where the moved run lands among the remaining children, stated on lists. */
  lemma SpliceLands(kids: seq<NodeId>, cut: set<NodeId>, first: nat, f: int, ms: seq<NodeId>)
    requires var q := if first <= |kids| then first else |kids|;
      f == first - CountIn(kids[..q], cut)
    ensures f >= 0
    ensures var q := if first <= |kids| then first else |kids|;
      Splice(FilterOut(kids, cut), f, ms) == FilterOut(kids[..q], cut) + ms + FilterOut(kids[q..], cut)
  {
    var q := if first <= |kids| then first else |kids|;
    assert kids == kids[..q] + kids[q..];
    FilterOutAppend(kids[..q], kids[q..], cut);
    CountInFilter(kids[..q], cut);
    if first > |kids| {
      assert kids[q..] == [];
      assert FilterOut(kids[q..], cut) == [];
    }
  }

  /** The row `_dropNodePath` inserts at, before `-1` is turned into "append". */
  function DropRow(t: Node, order: seq<Index>, p: NodeId, pi: Index, first: int): int
    requires ValidTree(t) && AllLive(t, order)
  {
    var first1 := if p == t.id && first == 1 then -1 else first;
    if first1 > 0 then Adjust(t, order, pi, first1) else first1
  }

  /** The insertion position: the adjusted row, or the end of the target once the dragged nodes are out. */
  function DropPos(t: Node, order: seq<Index>, p: NodeId, pi: Index, first: int, remaining: nat): int
    requires ValidTree(t) && AllLive(t, order)
  {
    var f := DropRow(t, order, p, pi, first);
    if f == -1 then remaining else f
  }

  /** The sorted indexes are live, name the same nodes and have pairwise different rows under `p`. */
  lemma DropOrder(t: Node, xs: seq<Index>, p: NodeId)
    requires ValidTree(t) && AllLive(t, xs) && Separate(t, Nodes(xs))
    ensures var order := PySort.SortDesc(xs, RowKey);
      && AllLive(t, order) && PySort.Descending(order, RowKey) && RowsDistinct(t, order, p)
      && Roots(Nodes(order)) == Roots(Nodes(xs))
  {
    var order := PySort.SortDesc(xs, RowKey);
    PySort.SortDescSorted(xs, RowKey);
    assert AllLive(t, order) by {
      PyLists.PermMembers(xs, order);
      forall k | 0 <= k < |order| ensures Live(t, order[k]) && order[k].node != t.id {
        assert order[k] in xs;
      }
    }
    assert RowsDistinct(t, order, p) by {
      SeparatePerm(t, xs, order);
      SeparateNoDup(t, Nodes(order));
      LiveRowsDistinct(t, order, p);
    }
    RootsPerm(xs, order);
  }

  /** The adjusted row counts off the moved children of `p` among its first `f` children. */
  lemma AdjustedRow(t: Node, order: seq<Index>, p: NodeId, f: int)
    requires ValidTree(t) && AllLive(t, order) && PySort.Descending(order, RowKey) && RowsDistinct(t, order, p)
    requires p in View(t) && f > 0
    ensures var kids := View(t)[p].children;
      var q := if f <= |kids| then f else |kids|;
      Adjust(t, order, IndexOfNode(t, p), f) == f - CountIn(kids[..q], Roots(Nodes(order)))
  {
    var kids := View(t)[p].children;
    var q := if f <= |kids| then f else |kids|;
    AdjustCount(t, order, p, f);
    if f > |kids| { CountBeforeCap(t, order, p, f); }
    CountBeforeKids(t, order, p, q);
  }

  /** Where the run lands for each kind of drop row, stated on lists. */
  lemma DropCases(kids: seq<NodeId>, cut: set<NodeId>, first1: int, f: int, pos: int, ms: seq<NodeId>)
    requires first1 >= -1
    requires first1 <= 0 ==> f == first1
    requires first1 > 0 ==> f == first1 - CountIn(kids[..if first1 <= |kids| then first1 else |kids|], cut)
    requires pos == if f == -1 then |FilterOut(kids, cut)| else f
    ensures pos >= 0
    ensures first1 == -1 ==> Splice(FilterOut(kids, cut), pos, ms) == FilterOut(kids, cut) + ms
    ensures first1 >= 0 ==>
      var q := if first1 <= |kids| then first1 else |kids|;
      Splice(FilterOut(kids, cut), pos, ms) == FilterOut(kids[..q], cut) + ms + FilterOut(kids[q..], cut)
  {
    if first1 >= 0 {
      assert kids[..0] == [];
      SpliceLands(kids, cut, first1, f, ms);
    } else {
      assert FilterOut(kids, cut)[..|FilterOut(kids, cut)|] == FilterOut(kids, cut);
    }
  }

  /** The insertion position `_dropNodePath` computes, against the children of the target. */
  lemma DropPosLands(t: Node, xs: seq<Index>, p: NodeId, first: int)
    requires ValidTree(t) && AllLive(t, xs) && MoveArg(t, p, Nodes(xs)) && first >= -1
    ensures p in View(t)
    ensures var order := PySort.SortDesc(xs, RowKey);
      var kids := View(t)[p].children;
      var cut := Roots(Nodes(xs));
      && AllLive(t, order)
      && var pos := DropPos(t, order, p, IndexOfNode(t, p), first, |FilterOut(kids, cut)|);
      && pos >= 0
      && (first == -1 || (p == t.id && first == 1) ==> Splice(FilterOut(kids, cut), pos, Nodes(xs)) == FilterOut(kids, cut) + Nodes(xs))
      && (first >= 0 && !(p == t.id && first == 1) ==>
            var q := if first <= |kids| then first else |kids|;
            Splice(FilterOut(kids, cut), pos, Nodes(xs)) == FilterOut(kids[..q], cut) + Nodes(xs) + FilterOut(kids[q..], cut))
  {
    var order := PySort.SortDesc(xs, RowKey);
    var kids := View(t)[p].children;
    var cut := Roots(Nodes(xs));
    SequenceInView(t, p);
    DropOrder(t, xs, p);
    var first1 := if p == t.id && first == 1 then -1 else first;
    var f := DropRow(t, order, p, IndexOfNode(t, p), first);
    if first1 > 0 {
      AdjustedRow(t, order, p, first1);
    }
    DropCases(kids, cut, first1, f, DropPos(t, order, p, IndexOfNode(t, p), first, |FilterOut(kids, cut)|), Nodes(xs));
  }

  /** The moved nodes are among the removed ones. */
  lemma MovedGone(t: Node, ms: seq<NodeId>)
    requires ValidTree(t) && Separate(t, ms)
    ensures forall k :: 0 <= k < |ms| ==> ms[k] in GoneIds(t, ms)
  {
    forall k | 0 <= k < |ms| ensures ms[k] in GoneIds(t, ms) {
      GoneIdsSpec(t, ms, ms[k]);
      AncestorsOfTop(Find(t, ms[k]));
    }
  }

  /**
   * The children of the target after a drop at `first` (a row, or -1): the
   * moved nodes land, in payload order, exactly where the drop row pointed
   * among the children that stay, and they are appended for -1 and for
   * row 1 of the top node.
   */
  lemma DropLands(t: Node, xs: seq<Index>, p: NodeId, first: int)
    requires ValidTree(t) && AllLive(t, xs) && MoveArg(t, p, Nodes(xs)) && first >= -1
    ensures p in View(t) && GoneIds(t, Nodes(xs)) <= Ids(t)
    ensures var order := PySort.SortDesc(xs, RowKey);
      var kids := View(t)[p].children;
      var cut := Roots(Nodes(xs));
      && AllLive(t, order)
      && var pos := DropPos(t, order, p, IndexOfNode(t, p), first, |FilterOut(kids, cut)|);
      && pos >= 0
      && var t' := MoveTree(t, xs, p, pos);
      && ValidTree(t') && Ids(t') == Ids(t) && p in View(t')
      && (first == -1 || (p == t.id && first == 1) ==> View(t')[p].children == FilterOut(kids, cut) + Nodes(xs))
      && (first >= 0 && !(p == t.id && first == 1) ==>
            var q := if first <= |kids| then first else |kids|;
            View(t')[p].children == FilterOut(kids[..q], cut) + Nodes(xs) + FilterOut(kids[q..], cut))
  {
    var ms := Nodes(xs);
    var order := PySort.SortDesc(xs, RowKey);
    var kids := View(t)[p].children;
    var cut := Roots(ms);
    DropPosLands(t, xs, p, first);
    var pos := DropPos(t, order, p, IndexOfNode(t, p), first, |FilterOut(kids, cut)|);
    MoveOk(t, xs, p, pos);
    MovedGone(t, ms);
    MovedRecords(View(t), GoneIds(t, ms), p, pos, ms);
  }
}
