/**
 * `removeIndexes`: the indexes sorted by row, largest first, and removed
 * one after the other, each announced by a begin/end pair of remove-row
 * notifications. The sorted list is a permutation of the argument, so the
 * removed subtrees do not depend on the order.
 */
module TagFilterRemoval {
  import opened Wrappers
  import opened TagFilterNodes
  import opened TagFilterTree
  import opened TagFilterIndex
  import opened TagFilterEdits
  import opened TagFilterEvents
  import PyLists
  import PySort

  // ---------------------------------------------------------------------
  // Permutations

  /** Separate nodes make the indexes pairwise different. */
  lemma SeparateIndexesNoDup(t: Node, a: seq<Index>)
    requires Separate(t, Nodes(a))
    ensures PyLists.NoDup(a)
  {
    SeparateNoDup(t, Nodes(a));
  }

  /** Reordering the indexes keeps their nodes separate. */
  lemma SeparatePerm(t: Node, a: seq<Index>, b: seq<Index>)
    requires Separate(t, Nodes(a)) && multiset(a) == multiset(b)
    ensures Separate(t, Nodes(b))
  {
    PyLists.PermMembers(a, b);
    SeparateIndexesNoDup(t, a);
    PyLists.NoDupCount(a);
    PyLists.NoDupCount(b);
    var ma, mb := Nodes(a), Nodes(b);
    forall k | 0 <= k < |b| ensures mb[k] in Ids(t) && mb[k] != t.id {
      assert b[k] in a;
      var k' :| 0 <= k' < |a| && a[k'] == b[k];
      assert mb[k] == ma[k'];
    }
    forall j, k | 0 <= j < |b| && 0 <= k < |b| && j != k ensures mb[j] !in Ids(Find(t, mb[k])) {
      assert b[j] in a;
      var j' :| 0 <= j' < |a| && a[j'] == b[j];
      assert b[k] in a;
      var k' :| 0 <= k' < |a| && a[k'] == b[k];
      assert mb[j] == ma[j'] && mb[k] == ma[k'];
    }
  }

  /** Reordering the indexes removes the same nodes. */
  lemma GoneIdsPerm(t: Node, a: seq<Index>, b: seq<Index>)
    requires Separate(t, Nodes(a)) && Separate(t, Nodes(b)) && multiset(a) == multiset(b)
    ensures GoneIds(t, Nodes(b)) == GoneIds(t, Nodes(a))
  {
    PyLists.PermMembers(a, b);
    var ma, mb := Nodes(a), Nodes(b);
    forall y ensures y in GoneIds(t, mb) <==> y in GoneIds(t, ma) {
      GoneIdsSpec(t, ma, y);
      GoneIdsSpec(t, mb, y);
      if y in GoneIds(t, ma) {
        var k :| 0 <= k < |ma| && y in Ids(Find(t, ma[k]));
        assert a[k] in b;
        var k' :| 0 <= k' < |b| && b[k'] == a[k];
        assert mb[k'] == ma[k];
      }
      if y in GoneIds(t, mb) {
        var k :| 0 <= k < |mb| && y in Ids(Find(t, mb[k]));
        assert b[k] in a;
        var k' :| 0 <= k' < |a| && a[k'] == b[k];
        assert ma[k'] == mb[k];
      }
    }
  }

  /** Reordering the indexes cuts the same roots. */
  lemma RootsPerm(a: seq<Index>, b: seq<Index>)
    requires multiset(a) == multiset(b)
    ensures Roots(Nodes(b)) == Roots(Nodes(a))
  {
    PyLists.PermMembers(a, b);
    var ma, mb := Nodes(a), Nodes(b);
    forall y | y in mb ensures y in ma {
      var k :| 0 <= k < |mb| && mb[k] == y;
      assert b[k] in a;
      var k' :| 0 <= k' < |a| && a[k'] == b[k];
      assert ma[k'] == y;
    }
    forall y | y in ma ensures y in mb {
      var k :| 0 <= k < |ma| && ma[k] == y;
      assert a[k] in b;
      var k' :| 0 <= k' < |b| && b[k'] == a[k];
      assert mb[k'] == y;
    }
  }

  /** `sorted(indexes, key=lambda i: -i.row())`: largest row first, the same indexes, the same separate nodes. */
  lemma RemovalOrder(t: Node, xs: seq<Index>)
    requires ValidTree(t) && Separate(t, Nodes(xs))
    ensures var order := PySort.SortDesc(xs, RowKey);
      && PySort.Descending(order, RowKey) && multiset(order) == multiset(xs)
      && Separate(t, Nodes(order)) && GoneIds(t, Nodes(order)) == GoneIds(t, Nodes(xs))
      && Roots(Nodes(order)) == Roots(Nodes(xs))
  {
    var order := PySort.SortDesc(xs, RowKey);
    PySort.SortDescSorted(xs, RowKey);
    SeparatePerm(t, xs, order);
    GoneIdsPerm(t, xs, order);
    RootsPerm(xs, order);
  }

  /** Every index of the list names a node. */
  predicate AllAt(xs: seq<Index>)
  {
    forall k :: 0 <= k < |xs| ==> xs[k].At?
  }

  // ---------------------------------------------------------------------
  // The removal loop

  /** The notifications of `_remove` for each index of the list in turn, each parent index taken from the tree at the time. */
  function RemoveLog(t: Node, xs: seq<Index>): seq<Event>
    requires ValidTree(t) && AllAt(xs) && Separate(t, Nodes(xs))
    decreases |xs|
  {
    if xs == [] then []
    else
      var m := xs[0].node;
      RemovalStepFacts(t, xs);
      [BeginRemoveRows(ParentIndex(t, xs[0]), xs[0].row, xs[0].row), EndRemoveRows]
        + RemoveLog(Detach(t, ParentOf(t, m), m).0, xs[1..])
  }

  lemma RemovalStepFacts(t: Node, xs: seq<Index>)
    requires ValidTree(t) && AllAt(xs) && Separate(t, Nodes(xs)) && xs != []
    ensures var m := xs[0].node;
      && Nodes(xs)[0] == m && Nodes(xs)[1..] == Nodes(xs[1..]) && AllAt(xs[1..])
      && m in Ids(t) && m != t.id
      && var t1 := Detach(t, ParentOf(t, m), m).0;
         ValidTree(t1) && Separate(t1, Nodes(xs[1..]))
  {
    assert Nodes(xs)[1..] == Nodes(xs[1..]);
    assert forall k :: 0 <= k < |xs[1..]| ==> xs[1..][k] == xs[k + 1];
    DetachStep(t, Nodes(xs));
  }

  /** One turn of the removal loop: the first index is removed, the rest of the run continues from the new tree. */
  lemma RemovalStep(t: Node, xs: seq<Index>)
    requires ValidTree(t) && AllAt(xs) && Separate(t, Nodes(xs)) && xs != []
    ensures var m := xs[0].node;
      && m in Ids(t) && m != t.id && AllAt(xs[1..])
      && var (t1, out) := Detach(t, ParentOf(t, m), m);
         && ValidTree(t1) && Separate(t1, Nodes(xs[1..]))
         && DetachSeq(t, Nodes(xs)).0 == DetachSeq(t1, Nodes(xs[1..])).0
         && DetachSeq(t, Nodes(xs)).1 == [out] + DetachSeq(t1, Nodes(xs[1..])).1
         && RemoveLog(t, xs)
            == [BeginRemoveRows(ParentIndex(t, xs[0]), xs[0].row, xs[0].row), EndRemoveRows] + RemoveLog(t1, xs[1..])
  {
    RemovalStepFacts(t, xs);
  }

  /** What a whole removal run does, stated for the argument list in the caller's order. */
  lemma RemovalResult(t: Node, xs: seq<Index>)
    requires ValidTree(t) && Separate(t, Nodes(xs))
    ensures Separate(t, Nodes(PySort.SortDesc(xs, RowKey)))
    ensures var ms := Nodes(PySort.SortDesc(xs, RowKey));
      var t' := DetachSeq(t, ms).0;
      && ValidTree(t') && t'.id == t.id
      && Ids(t') == Ids(t) - GoneIds(t, Nodes(xs))
      && View(t') == Without(View(t), GoneIds(t, Nodes(xs)), Roots(Nodes(xs)))
      && (forall k :: 0 <= k < |ms| ==> DetachSeq(t, ms).1[k] == WithParent(Find(t, ms[k]), None))
  {
    RemovalOrder(t, xs);
    RemovalIn(t, Nodes(xs), Nodes(PySort.SortDesc(xs, RowKey)));
  }

  /** Removing `ms` deletes the subtrees of `ns`, which lists the same separate nodes. */
  lemma RemovalIn(t: Node, ns: seq<NodeId>, ms: seq<NodeId>)
    requires ValidTree(t) && Separate(t, ns) && Separate(t, ms)
    requires GoneIds(t, ms) == GoneIds(t, ns) && Roots(ms) == Roots(ns)
    ensures var t' := DetachSeq(t, ms).0;
      && ValidTree(t') && t'.id == t.id
      && Ids(t') == Ids(t) - GoneIds(t, ns)
      && View(t') == Without(View(t), GoneIds(t, ns), Roots(ns))
      && (forall k :: 0 <= k < |ms| ==> DetachSeq(t, ms).1[k] == WithParent(Find(t, ms[k]), None))
  {
    DetachSeqIds(t, ms);
    DetachSeqView(t, ms);
    DetachSeqOuts(t, ms);
  }
}
