/**
 * `mergeTags`: sibling nodes taken out of their common parent (largest row
 * first) and put, as the children of one new sequence node, at the
 * smallest of their positions.
 */
module TagFilterMerge {
  import opened Wrappers
  import opened TagFilterNodes
  import opened TagFilterTree
  import opened TagFilterIndex
  import opened TagFilterEdits
  import opened TagFilterEvents
  import opened TagFilterOps
  import opened TagFilterRemoval
  import PyLists
  import PySort

  // ---------------------------------------------------------------------
  // Siblings

  /** Every node of `ms` is a direct child of `p`. */
  predicate Siblings(t: Node, p: NodeId, ms: seq<NodeId>)
    requires ValidTree(t)
  {
    forall k :: 0 <= k < |ms| ==> ms[k] in Ids(t) && ms[k] != t.id && ParentOf(t, ms[k]) == p
  }

  /** The parent of a node strictly inside the subtree of `x` is inside that subtree too. */
  lemma ParentInside(t: Node, x: NodeId, y: NodeId)
    requires ValidTree(t) && x in Ids(t) && y in Ids(Find(t, x)) && y != x
    ensures y in Ids(t) && y != t.id && ParentOf(t, y) in Ids(Find(t, x))
  {
    FindInside(t, x);
    if y == t.id {
      AncestorsOfTop(t);
      MutualInside(t, x, y);
    }
    var p := ParentOf(t, y);
    AncestorsSpec(t, y, x);
    PathUp(t, y);
    if x == p {
      AncestorsOfTop(Find(t, p));
    } else {
      assert x in AncestorsFrom(t, p);
      AncestorsSpec(t, p, x);
    }
  }

  /** A child of `p` does not hold `p` in its subtree. */
  lemma ChildNotAbove(t: Node, p: NodeId, c: NodeId)
    requires ValidTree(t) && c in Ids(t) && c != t.id && ParentOf(t, c) == p
    ensures p !in Ids(Find(t, c))
  {
    var f := Find(t, p);
    FindInside(t, p);
    ChildIdsInList(f.tagList);
    assert c in Ids(f);
    FindFind(t, p, c);
    if p in Ids(Find(t, c)) { MutualInside(t, p, c); }
  }

  /** Different children of one parent are separate, and the parent lies outside their subtrees. */
  lemma SiblingsSeparate(t: Node, p: NodeId, ms: seq<NodeId>)
    requires ValidTree(t) && Siblings(t, p, ms) && PyLists.NoDup(ms)
    ensures Separate(t, ms) && p !in GoneIds(t, ms)
    ensures ms != [] ==> p in Ids(t) && Find(t, p).Sequence?
  {
    forall j, k | 0 <= j < |ms| && 0 <= k < |ms| && j != k ensures ms[j] !in Ids(Find(t, ms[k])) {
      if ms[j] in Ids(Find(t, ms[k])) {
        assert ms[j] != ms[k] by {
          if j < k { assert ms[j] != ms[k]; } else { assert ms[k] != ms[j]; }
        }
        ParentInside(t, ms[k], ms[j]);
        ChildNotAbove(t, p, ms[k]);
      }
    }
    GoneIdsSpec(t, ms, p);
    forall k | 0 <= k < |ms| ensures p !in Ids(Find(t, ms[k])) { ChildNotAbove(t, p, ms[k]); }
  }

  /** Reordering keeps the nodes children of `p`. */
  lemma SiblingsPerm(t: Node, p: NodeId, a: seq<Index>, b: seq<Index>)
    requires ValidTree(t) && Siblings(t, p, Nodes(a)) && multiset(a) == multiset(b)
    ensures Siblings(t, p, Nodes(b))
  {
    PyLists.PermMembers(a, b);
    forall k | 0 <= k < |b| ensures Nodes(b)[k] in Ids(t) && Nodes(b)[k] != t.id && ParentOf(t, Nodes(b)[k]) == p {
      assert b[k] in a;
      var k' :| 0 <= k' < |a| && a[k'] == b[k];
      assert Nodes(b)[k] == Nodes(a)[k'];
    }
  }

  /** The removal run leaves the common parent in the tree, still a sequence node, with those children cut. */
  lemma RemovedParent(t: Node, p: NodeId, ms: seq<NodeId>)
    requires ValidTree(t) && Separate(t, ms) && Siblings(t, p, ms) && ms != []
    ensures p in Ids(t) && Find(t, p).Sequence? && p !in GoneIds(t, ms)
    ensures var t1 := DetachSeq(t, ms).0;
      && ValidTree(t1) && t1.id == t.id && p in Ids(t1) && Find(t1, p).Sequence?
      && p in View(t) && View(t1)[p] == View(t)[p].(children := FilterOut(View(t)[p].children, Roots(ms)))
  {
    GoneIdsSpec(t, ms, p);
    forall k | 0 <= k < |ms| ensures p !in Ids(Find(t, ms[k])) { ChildNotAbove(t, p, ms[k]); }
    var t1 := DetachSeq(t, ms).0;
    DetachSeqIds(t, ms);
    DetachSeqView(t, ms);
    SequenceInView(t, p);
    SequenceInView(t1, p);
  }

  /** Only the parent lists cut nodes among its children: every other child list survives the cut. */
  lemma CutOnlyUnder(t: Node, p: NodeId, ms: seq<NodeId>, x: NodeId)
    requires ValidTree(t) && Siblings(t, p, ms) && x in View(t) && x != p
    ensures FilterOut(View(t)[x].children, Roots(ms)) == View(t)[x].children
  {
    forall c | c in View(t)[x].children ensures c !in Roots(ms) {
      ChildOfParent(t, x, c);
    }
    FilterOutNone(View(t)[x].children, Roots(ms));
  }

  // ---------------------------------------------------------------------
  // The merge

  /** The tree after `mergeTags`: the nodes removed in the order `ms`, then a new `kind` node holding them inserted into `p` at `first`. */
  function MergeTree(t: Node, p: NodeId, first: int, ms: seq<NodeId>, id: NodeId, kind: SeqKind): Node
    requires ValidTree(t) && Separate(t, ms) && Siblings(t, p, ms) && ms != []
  {
    RemovedParent(t, p, ms);
    var (t1, outs) := DetachSeq(t, ms);
    Attach(t1, p, first, NewSequence(id, kind, outs, Some(p)))
  }

  /** The view after a merge: `p` lists the new node at `first` in place of the cut ones, which now hang off it in the order `ms`. */
  function Merged(v: map<NodeId, Rec>, gone: set<NodeId>, p: NodeId, first: int, ms: seq<NodeId>, id: NodeId, kind: SeqKind)
    : (r: map<NodeId, Rec>)
    requires gone <= v.Keys && p in v.Keys - gone
    ensures r.Keys == v.Keys + {id}
  {
    var w := Without(v, gone, Roots(ms));
    w[p := w[p].(children := PyLists.Insert(w[p].children, first, id))]
      + Regrafted(v, gone, Roots(ms), id)[id := Rec(SeqLabel(kind), Some(p), ms)]
  }

  /** The new sequence node the merge inserts, its children re-parented to it. */
  lemma MergedNode(t: Node, p: NodeId, ms: seq<NodeId>, id: NodeId, kind: SeqKind)
    requires ValidTree(t) && Separate(t, ms) && id !in Ids(t)
    ensures var n := WithParent(NewSequence(id, kind, DetachSeq(t, ms).1, Some(p)), Some(p));
      && GoneIds(t, ms) <= Ids(t)
      && Unique(n) && Linked(n) && Ids(n) == GoneIds(t, ms) + {id}
      && View(n) == Regrafted(View(t), GoneIds(t, ms), Roots(ms), id)[id := Rec(SeqLabel(kind), Some(p), ms)]
  {
    AdoptedView(t, ms, id);
    var ns := Adopt(DetachSeq(t, ms).1, id);
    var n := NewSequence(id, kind, DetachSeq(t, ms).1, Some(p));
    assert n == Sequence(id, kind, Some(p), ns);
    assert WithParent(n, Some(p)) == n;
  }

  /**
   * `mergeTags` as a tree edit: the tree stays valid, gains exactly the new
   * node, and its view is `Merged`.
   */
  lemma MergeOk(t: Node, p: NodeId, first: int, ms: seq<NodeId>, id: NodeId, kind: SeqKind)
    requires ValidTree(t) && Separate(t, ms) && Siblings(t, p, ms) && ms != [] && id !in Ids(t)
    ensures GoneIds(t, ms) <= Ids(t) && p in Ids(t) - GoneIds(t, ms)
    ensures var t' := MergeTree(t, p, first, ms, id, kind);
      && ValidTree(t') && t'.id == t.id && Ids(t') == Ids(t) + {id}
      && View(t') == Merged(View(t), GoneIds(t, ms), p, first, ms, id, kind)
  {
    RemovedParent(t, p, ms);
    MergedNode(t, p, ms, id, kind);
    var (t1, outs) := DetachSeq(t, ms);
    DetachSeqIds(t, ms);
    DetachSeqView(t, ms);
    var n := NewSequence(id, kind, outs, Some(p));
    AttachIds(t1, p, first, n);
    AttachView(t1, p, first, n);
    AttachLinked(t1, p, first, n);
  }

  // ---------------------------------------------------------------------
  // What the merge promises

  /** `first` is the smallest position of a node of `ms` among `kids`, all of which are there. */
  predicate LeastPos(kids: seq<NodeId>, ms: seq<NodeId>, first: int)
  {
    (forall k :: 0 <= k < |ms| ==> ms[k] in kids && first <= PyLists.IndexOf(kids, ms[k]))
    && exists k :: 0 <= k < |ms| && ms[k] in kids && PyLists.IndexOf(kids, ms[k]) == first
  }

  /** With `first` the least position, the new node takes the place of the first merged child and the others drop out behind it. */
  lemma LeastPosSplice(kids: seq<NodeId>, ms: seq<NodeId>, first: int, id: NodeId)
    requires LeastPos(kids, ms, first)
    ensures 0 <= first < |kids|
    ensures PyLists.Insert(FilterOut(kids, Roots(ms)), first, id)
         == kids[..first] + [id] + FilterOut(kids[first..], Roots(ms))
  {
    var k :| 0 <= k < |ms| && ms[k] in kids && PyLists.IndexOf(kids, ms[k]) == first;
    var cut := Roots(ms);
    assert kids == kids[..first] + kids[first..];
    FilterOutAppend(kids[..first], kids[first..], cut);
    forall i | 0 <= i < first ensures kids[i] !in ms {
      BeforeLeast(kids, ms, first, i);
    }
    FilterOutNone(kids[..first], cut);
  }

  /** A node before the least position is not merged. */
  lemma BeforeLeast(kids: seq<NodeId>, ms: seq<NodeId>, first: int, i: nat)
    requires LeastPos(kids, ms, first) && i < first && i < |kids|
    ensures kids[i] !in ms
  {
  }

  /** The records a merge leaves, read off `Merged`. */
  lemma MergedRecords(v: map<NodeId, Rec>, gone: set<NodeId>, p: NodeId, first: int, ms: seq<NodeId>, id: NodeId, kind: SeqKind)
    requires gone <= v.Keys && p in v.Keys - gone && id !in v
    requires forall k :: 0 <= k < |ms| ==> ms[k] in gone
    requires forall y :: y in v && y != p && y !in gone ==> FilterOut(v[y].children, Roots(ms)) == v[y].children
    ensures var r := Merged(v, gone, p, first, ms, id, kind);
      && r[id] == Rec(SeqLabel(kind), Some(p), ms)
      && r[p] == v[p].(children := PyLists.Insert(FilterOut(v[p].children, Roots(ms)), first, id))
      && (forall k :: 0 <= k < |ms| ==> r[ms[k]] == v[ms[k]].(parent := Some(id)))
      && (forall y :: y in v && y != p && y !in ms ==> r[y] == v[y])
  {
  }

  /**
   * What a merge of the children `ms` of `p` leaves: `p`'s list with the new
   * node at `first` and without the merged ones, the new node holding
   * exactly `ms` in that order, each of them pointing back to it, and every
   * other record as it was.
   */
  lemma MergedMeaning(t: Node, p: NodeId, first: int, ms: seq<NodeId>, id: NodeId, kind: SeqKind)
    requires ValidTree(t) && Separate(t, ms) && Siblings(t, p, ms) && ms != [] && id !in Ids(t)
    requires p in Ids(t) && LeastPos(View(t)[p].children, ms, first)
    ensures var v' := View(MergeTree(t, p, first, ms, id, kind));
      var kids := View(t)[p].children;
      && 0 <= first < |kids|
      && id in v' && v'[id] == Rec(SeqLabel(kind), Some(p), ms)
      && p in v' && v'[p] == View(t)[p].(children := kids[..first] + [id] + FilterOut(kids[first..], Roots(ms)))
      && (forall k :: 0 <= k < |ms| ==> ms[k] in v' && v'[ms[k]] == View(t)[ms[k]].(parent := Some(id)))
      && (forall y :: y in View(t) && y != p && y !in ms ==> y in v' && v'[y] == View(t)[y])
  {
    MergeOk(t, p, first, ms, id, kind);
    var v := View(t);
    LeastPosSplice(v[p].children, ms, first, id);
    var gone := GoneIds(t, ms);
    forall y | y in v && y != p && y !in gone ensures FilterOut(v[y].children, Roots(ms)) == v[y].children {
      CutOnlyUnder(t, p, ms, y);
    }
    forall k | 0 <= k < |ms| ensures ms[k] in gone {
      GoneIdsSpec(t, ms, ms[k]);
      AncestorsOfTop(Find(t, ms[k]));
    }
    MergedRecords(v, gone, p, first, ms, id, kind);
  }

  /** Each sorted index's row is its node's position among the children of `p`. */
  lemma SortedRows(t: Node, p: NodeId, xs: seq<Index>, order: seq<Index>)
    requires ValidTree(t) && (forall k :: 0 <= k < |xs| ==> Live(t, xs[k]))
    requires Siblings(t, p, Nodes(xs)) && multiset(order) == multiset(xs) && xs != []
    ensures p in View(t)
    ensures forall k :: 0 <= k < |order| ==>
      (Nodes(order)[k] in View(t)[p].children
       && RowKey(order[k]) == PyLists.IndexOf(View(t)[p].children, Nodes(order)[k]))
  {
    PyLists.PermMembers(xs, order);
    assert ParentOf(t, Nodes(xs)[0]) == p;
    ViewFind(t, p);
    var ms := Nodes(order);
    forall k | 0 <= k < |order| ensures ms[k] in View(t)[p].children
      && RowKey(order[k]) == PyLists.IndexOf(View(t)[p].children, ms[k])
    {
      assert order[k] in xs;
      var k' :| 0 <= k' < |xs| && xs[k'] == order[k];
      assert Nodes(xs)[k'] == ms[k];
      IndexOfNodeView(t, ms[k]);
    }
  }

  /**
   * The order `removeIndexes` hands the merged nodes back in, for live
   * indexes of siblings: rows strictly decreasing, that is, descending
   * original position among the parent's children.
   */
  lemma MergeOrder(t: Node, p: NodeId, xs: seq<Index>)
    requires ValidTree(t) && (forall k :: 0 <= k < |xs| ==> Live(t, xs[k]))
    requires Siblings(t, p, Nodes(xs)) && PyLists.NoDup(Nodes(xs)) && xs != []
    ensures var ms := Nodes(PySort.SortDesc(xs, RowKey));
      && p in View(t) && multiset(PySort.SortDesc(xs, RowKey)) == multiset(xs)
      && Separate(t, ms) && Siblings(t, p, ms)
      && (forall k :: 0 <= k < |ms| ==> ms[k] in View(t)[p].children)
      && (forall i, j :: 0 <= i < j < |ms| ==>
            PyLists.IndexOf(View(t)[p].children, ms[i]) > PyLists.IndexOf(View(t)[p].children, ms[j]))
  {
    var order := PySort.SortDesc(xs, RowKey);
    var ms := Nodes(order);
    SiblingsSeparate(t, p, Nodes(xs));
    RemovalOrder(t, xs);
    SeparateNoDup(t, ms);
    SiblingsPerm(t, p, xs, order);
    SortedRows(t, p, xs, order);
    StrictRows(View(t)[p].children, order);
  }

  /** Rows in non-increasing order that are the positions of different nodes are strictly decreasing positions. */
  lemma StrictRows(kids: seq<NodeId>, order: seq<Index>)
    requires PySort.Descending(order, RowKey) && PyLists.NoDup(Nodes(order))
    requires forall k :: 0 <= k < |order| ==>
      (Nodes(order)[k] in kids && RowKey(order[k]) == PyLists.IndexOf(kids, Nodes(order)[k]))
    ensures forall i, j :: 0 <= i < j < |order| ==>
      PyLists.IndexOf(kids, Nodes(order)[i]) > PyLists.IndexOf(kids, Nodes(order)[j])
  {
    var ms := Nodes(order);
    forall i, j | 0 <= i < j < |order| ensures PyLists.IndexOf(kids, ms[i]) > PyLists.IndexOf(kids, ms[j]) {
      assert RowKey(order[i]) >= RowKey(order[j]);
      assert ms[i] != ms[j];
    }
  }
}
