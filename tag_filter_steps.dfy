/**
 * The operations of the tag-filter model as steps on values: each takes
 * the tree, the identity the next new node receives and the arguments, and
 * gives the tree after, the next identity, the notifications sent and the
 * value returned. The methods of `TagFilterModel` are proved equal to
 * these, and the lemmas here state what each step promises.
 */
module TagFilterSteps {
  import opened Wrappers
  import opened TagFilterNodes
  import opened TagFilterTree
  import opened TagFilterIndex
  import opened TagFilterEdits
  import opened TagFilterEvents
  import opened TagFilterOps
  import opened TagFilterRemoval
  import opened TagFilterMerge
  import opened TagFilterNegate
  import opened TagFilterMove
  import opened TagFilterPaths
  import PyLists
  import PySort

  /** The flags of an item that the model adds to the base class's. */
  datatype ItemFlags = ItemFlags(dropEnabled: bool, dragEnabled: bool)

  /** The selected nodes of a list of indexes naming nodes of the tree. */
  function Selected(t: Node, xs: seq<Index>): (s: set<NodeId>)
    requires forall k :: 0 <= k < |xs| ==> xs[k].At? && xs[k].node in Ids(t)
    ensures s <= Ids(t)
    ensures forall y :: y in s <==> exists k :: 0 <= k < |xs| && xs[k].node == y
  {
    set k | 0 <= k < |xs| :: xs[k].node
  }

  /** What `removeIndexes` may be handed: index arguments, and separate nodes whenever the check lets the list through. */
  predicate Removable(t: Node, xs: seq<Index>)
    requires ValidTree(t)
  {
    (forall k :: 0 <= k < |xs| ==> IndexArg(t, xs[k]))
    && (IndexProblem(t, xs).None? ==> Separate(t, Nodes(xs)))
  }

  /** A list the check lets through names editable nodes, in any order. */
  lemma RemovalFacts(t: Node, xs: seq<Index>)
    requires ValidTree(t) && Removable(t, xs) && IndexProblem(t, xs).None?
    ensures AllAt(xs) && Separate(t, Nodes(xs))
    ensures var order := PySort.SortDesc(xs, RowKey);
      AllAt(order) && Separate(t, Nodes(order)) && multiset(order) == multiset(xs)
  {
    IndexProblemNone(t, xs);
    var order := PySort.SortDesc(xs, RowKey);
    RemovalOrder(t, xs);
    forall k | 0 <= k < |order| ensures order[k].At? {
      assert order[k] in multiset(xs);
    }
  }

  /** The notifications of `removeIndexes`: the complaint about the list, or a begin/end pair per removal, largest row first. */
  function RemoveEvents(t: Node, xs: seq<Index>): seq<Event>
    requires ValidTree(t) && Removable(t, xs)
  {
    match IndexProblem(t, xs)
    case Some(c) => [Failure(c)]
    case None =>
      RemovalFacts(t, xs);
      RemoveLog(t, PySort.SortDesc(xs, RowKey))
  }

  /** The tree `removeIndexes` leaves. */
  function RemoveTree(t: Node, xs: seq<Index>): (r: Node)
    requires ValidTree(t) && Removable(t, xs)
    ensures ValidTree(r) && r.id == t.id && Ids(r) <= Ids(t)
  {
    if IndexProblem(t, xs).Some? then t
    else
      RemovalFacts(t, xs);
      Removed(t, xs)
  }

  /** A removal that goes through deletes exactly the subtrees of the listed nodes and cuts them from their parents. */
  lemma RemoveTreeView(t: Node, xs: seq<Index>)
    requires ValidTree(t) && Removable(t, xs) && IndexProblem(t, xs).None?
    ensures Separate(t, Nodes(xs))
    ensures Ids(RemoveTree(t, xs)) == Ids(t) - GoneIds(t, Nodes(xs))
    ensures View(RemoveTree(t, xs)) == Without(View(t), GoneIds(t, Nodes(xs)), Roots(Nodes(xs)))
  {
    RemovalFacts(t, xs);
  }

  /** What a removal run that goes through leaves, returns and sends, as the loop computes it. */
  lemma RemovalRun(t: Node, xs: seq<Index>)
    requires ValidTree(t) && Removable(t, xs) && IndexProblem(t, xs).None?
    ensures var order := PySort.SortDesc(xs, RowKey);
      && AllAt(order) && Separate(t, Nodes(order))
      && RemoveTree(t, xs) == DetachSeq(t, Nodes(order)).0
      && RemoveEvents(t, xs) == RemoveLog(t, order)
      && DetachSeq(t, Nodes(order)).1 == Cleared(t, Nodes(order))
  {
    RemovalFacts(t, xs);
    RemovalResult(t, xs);
  }

  /** One turn of the removal loop keeps its invariants. */
  lemma RemovalAdvance(t: Node, rest: seq<Index>, t1: Node, out: Node, removed: seq<Node>, final: seq<Node>,
                       log: seq<Event>, finalLog: seq<Event>)
    requires ValidTree(t) && AllAt(rest) && Separate(t, Nodes(rest)) && rest != []
    requires rest[0].node in Ids(t) && rest[0].node != t.id
    requires t1 == Detach(t, ParentOf(t, rest[0].node), rest[0].node).0
    requires out == Detach(t, ParentOf(t, rest[0].node), rest[0].node).1
    requires final == removed + DetachSeq(t, Nodes(rest)).1
    requires finalLog == log + RemoveLog(t, rest)
    ensures ValidTree(t1) && AllAt(rest[1..]) && Separate(t1, Nodes(rest[1..]))
    ensures DetachSeq(t, Nodes(rest)).0 == DetachSeq(t1, Nodes(rest[1..])).0
    ensures final == (removed + [out]) + DetachSeq(t1, Nodes(rest[1..])).1
    ensures finalLog == (log + [BeginRemoveRows(ParentIndex(t, rest[0]), rest[0].row, rest[0].row), EndRemoveRows])
                        + RemoveLog(t1, rest[1..])
  {
    var m := rest[0].node;
    var p := ParentOf(t, m);
    var d := DetachSeq(t, Nodes(rest));
    assert ValidTree(t1) && AllAt(rest[1..]) && Separate(t1, Nodes(rest[1..])) by {
      RemovalStepFacts(t, rest);
    }
    var d1 := DetachSeq(t1, Nodes(rest[1..]));
    var e := [BeginRemoveRows(ParentIndex(t, rest[0]), rest[0].row, rest[0].row), EndRemoveRows];
    assert d.0 == d1.0 && d.1 == [out] + d1.1 && RemoveLog(t, rest) == e + RemoveLog(t1, rest[1..])
    by {
      RemovalStep(t, rest);
    }
    PyLists.AppendAssoc(removed, [out], d1.1);
    PyLists.AppendAssoc(log, e, RemoveLog(t1, rest[1..]));
  }

  /** The top node is found as itself and has no parent. */
  lemma TopFind(t: Node)
    requires ValidTree(t)
    ensures t.id in Ids(t) && Find(t, t.id) == t
  {
    AncestorsOfTop(t);
  }

  /** One more than the largest identity of the tree. */
  function IdBound(n: Node): (r: nat)
    decreases n, 1
    ensures Fresh(n, r)
  {
    match n
    case Leaf(id, _, _) => id + 1
    case Sequence(id, _, _, ts) =>
      var b := IdBoundList(ts);
      assert Ids(n) == {id} + IdsList(ts);
      if b > id then b else id + 1
  }

  function IdBoundList(ts: seq<Node>): (r: nat)
    decreases ts, 0
    ensures forall y :: y in IdsList(ts) ==> y < r
  {
    if ts == [] then 0
    else
      var a := IdBound(ts[0]);
      var b := IdBoundList(ts[1..]);
      if a > b then a else b
  }

  // ---------------------------------------------------------------------
  // mergeTags

  /** A list the check lets through names live nodes other than the top one. */
  lemma Accepted(t: Node, xs: seq<Index>)
    requires ValidTree(t) && (forall k :: 0 <= k < |xs| ==> IndexArg(t, xs[k])) && IndexProblem(t, xs).None?
    ensures xs != [] && AllAt(xs) && AllLive(t, xs) && NonTop(t, xs)
  {
    IndexProblemNone(t, xs);
    forall k | 0 <= k < |xs| ensures Live(t, xs[k]) && xs[k].node != t.id {
      LiveTopLevel(t, xs[k]);
    }
  }

  /** What `mergeTags` may be handed: index arguments naming different nodes whenever the check lets the list through. */
  predicate MergeArg(t: Node, xs: seq<Index>)
    requires ValidTree(t)
  {
    (forall k :: 0 <= k < |xs| ==> IndexArg(t, xs[k]))
    && (IndexProblem(t, xs).None? ==> PyLists.NoDup(Nodes(xs)))
  }

  /** `ind.parent() == indexParent` for every index of the list. */
  predicate SameParent(t: Node, xs: seq<Index>)
    requires ValidTree(t)
  {
    && xs != []
    && (forall k :: 0 <= k < |xs| ==> xs[k].At? && xs[k].node in Ids(t))
    && (forall k :: 0 <= k < |xs| ==> ParentIndex(t, xs[k]) == ParentIndex(t, xs[0]))
  }

  /** Live indexes with one parent index name children of one node. */
  lemma SameParentSiblings(t: Node, xs: seq<Index>)
    requires ValidTree(t) && AllLive(t, xs) && SameParent(t, xs)
    ensures Siblings(t, ParentOf(t, xs[0].node), Nodes(xs))
  {
    var p := ParentOf(t, xs[0].node);
    forall k | 0 <= k < |xs| ensures Nodes(xs)[k] in Ids(t) && Nodes(xs)[k] != t.id && ParentOf(t, Nodes(xs)[k]) == p {
      assert ParentIndex(t, xs[k]) == ParentIndex(t, xs[0]);
    }
  }

  /** Every index names a node of the tree other than the top one. */
  predicate NonTop(t: Node, xs: seq<Index>)
  {
    forall k :: 0 <= k < |xs| ==> xs[k].At? && xs[k].node in Ids(t) && xs[k].node != t.id
  }

  /** An index with the same parent index as the first names a child of the first one's parent. */
  lemma SameParentKid(t: Node, xs: seq<Index>, k: nat)
    requires ValidTree(t) && NonTop(t, xs) && k < |xs| && ParentIndex(t, xs[k]) == ParentIndex(t, xs[0])
    ensures ParentOf(t, xs[k].node) == ParentOf(t, xs[0].node)
    ensures xs[k].node in ChildIds(Find(t, ParentOf(t, xs[0].node)).tagList)
  {
    assert IndexOfNode(t, ParentOf(t, xs[k].node)).node == IndexOfNode(t, ParentOf(t, xs[0].node)).node;
  }

  /** Indexes of children of one node have one parent index. */
  lemma SameParentOf(t: Node, xs: seq<Index>)
    requires ValidTree(t) && NonTop(t, xs) && xs != []
    requires forall k :: 0 <= k < |xs| ==> ParentOf(t, Nodes(xs)[k]) == ParentOf(t, Nodes(xs)[0])
    ensures SameParent(t, xs)
  {
    forall k | 0 <= k < |xs| ensures ParentIndex(t, xs[k]) == ParentIndex(t, xs[0]) {
      assert ParentOf(t, Nodes(xs)[k]) == ParentOf(t, Nodes(xs)[0]);
    }
  }

  /**
   * `firstNodeIndex`: `len(nodeParent)` lowered to the position of each node
   * in turn (a node missing from `kids` leaves it as it is; the parent check
   * in front of it rules that out).
   */
  function MinPos(kids: seq<NodeId>, ms: seq<NodeId>): (r: int)
    decreases |ms|
    ensures r <= |kids|
  {
    if ms == [] then |kids|
    else
      var a := MinPos(kids, ms[..|ms| - 1]);
      var y := ms[|ms| - 1];
      if y in kids && PyLists.IndexOf(kids, y) < a then PyLists.IndexOf(kids, y) else a
  }

  /** Over nodes that are all children, the lowered position is the least of their positions. */
  lemma {:induction false} MinPosLeast(kids: seq<NodeId>, ms: seq<NodeId>)
    requires ms != [] && forall k :: 0 <= k < |ms| ==> ms[k] in kids
    ensures LeastPos(kids, ms, MinPos(kids, ms))
    decreases |ms|
  {
    var init := ms[..|ms| - 1];
    var y := ms[|ms| - 1];
    var b := PyLists.IndexOf(kids, y);
    if init == [] {
      assert MinPos(kids, init) == |kids|;
      assert ms == [y];
    } else {
      assert forall k :: 0 <= k < |init| ==> init[k] == ms[k] && init[k] in kids;
      MinPosLeast(kids, init);
      var a := MinPos(kids, init);
      var r := if b < a then b else a;
      assert MinPos(kids, ms) == r;
      var j :| 0 <= j < |init| && init[j] in kids && PyLists.IndexOf(kids, init[j]) == a;
      forall k | 0 <= k < |ms| ensures r <= PyLists.IndexOf(kids, ms[k]) {
        if k < |init| {
          assert ms[k] == init[k];
        }
      }
      if b < a {
        assert ms[|ms| - 1] == y;
      } else {
        assert ms[j] == init[j];
      }
    }
  }

  /** The least position depends only on which nodes are listed. */
  lemma LeastPosPerm(kids: seq<NodeId>, a: seq<NodeId>, b: seq<NodeId>, first: int)
    requires LeastPos(kids, a, first) && forall y :: y in a <==> y in b
    ensures LeastPos(kids, b, first)
  {
    var k :| 0 <= k < |a| && a[k] in kids && PyLists.IndexOf(kids, a[k]) == first;
    assert a[k] in b;
    forall j | 0 <= j < |b| ensures b[j] in kids && first <= PyLists.IndexOf(kids, b[j]) {
      assert b[j] in a;
    }
  }

  /** A reordering of the indexes names the same nodes. */
  lemma NodesPerm(a: seq<Index>, b: seq<Index>)
    requires multiset(a) == multiset(b)
    ensures forall y :: y in Nodes(a) <==> y in Nodes(b)
  {
    PyLists.PermMembers(a, b);
    forall y ensures y in Nodes(a) ==> y in Nodes(b) {
      if y in Nodes(a) {
        var k :| 0 <= k < |a| && Nodes(a)[k] == y;
        assert a[k] in b;
      }
    }
    forall y ensures y in Nodes(b) ==> y in Nodes(a) {
      if y in Nodes(b) {
        var k :| 0 <= k < |b| && Nodes(b)[k] == y;
        assert b[k] in a;
      }
    }
  }

  /** A new id put at `|a|` is found there. */
  lemma IndexOfSplice(a: seq<NodeId>, n: NodeId, b: seq<NodeId>)
    requires n !in a
    ensures n in a + [n] + b && PyLists.IndexOf(a + [n] + b, n) == |a|
  {
    var s := a + [n] + b;
    assert s[|a|] == n;
    assert forall j :: 0 <= j < |a| ==> s[j] == a[j];
  }

  /** What a merge that goes through relies on: the listed nodes are separate children of one sequence node. */
  lemma MergeReady(t: Node, xs: seq<Index>)
    requires ValidTree(t) && MergeArg(t, xs) && IndexProblem(t, xs).None? && SameParent(t, xs)
    ensures xs[0].node in Ids(t) && xs[0].node != t.id
    ensures var p := ParentOf(t, xs[0].node);
      var ms := Nodes(PySort.SortDesc(xs, RowKey));
      && Removable(t, xs) && AllLive(t, xs)
      && p in View(t) && ChildIds(Find(t, p).tagList) == View(t)[p].children
      && Siblings(t, p, Nodes(xs))
      && (forall k :: 0 <= k < |xs| ==> Nodes(xs)[k] in ChildIds(Find(t, p).tagList))
      && Separate(t, ms) && Siblings(t, p, ms) && ms != []
      && (forall y :: y in ms <==> y in Nodes(xs))
      && (forall i, j :: 0 <= i < j < |ms| ==>
            ms[i] in View(t)[p].children && ms[j] in View(t)[p].children
            && PyLists.IndexOf(View(t)[p].children, ms[i]) > PyLists.IndexOf(View(t)[p].children, ms[j]))
  {
    Accepted(t, xs);
    var p := ParentOf(t, xs[0].node);
    SameParentSiblings(t, xs);
    MergeOrder(t, p, xs);
    SiblingsSeparate(t, p, Nodes(xs));
    SequenceInView(t, p);
    NodesPerm(xs, PySort.SortDesc(xs, RowKey));
  }

  /**
   * `mergeTags(nodeType, indexes)`: the complaint of the index check, or
   * "Indexes have different parents", with nothing changed and None
   * returned; otherwise the nodes are removed, largest row first, and a new
   * `kind` node holding them in that order is inserted at the smallest of
   * their positions, whose index is returned.
   */
  function MergeStep(t: Node, next: nat, kind: SeqKind, xs: seq<Index>): Outcome<Option<Index>>
    requires ValidTree(t) && MergeArg(t, xs)
  {
    match IndexProblem(t, xs)
    case Some(c) => Outcome(t, next, [Failure(c)], None)
    case None =>
      if !SameParent(t, xs) then Outcome(t, next, [Failure(DifferentParents)], None)
      else
        MergeReady(t, xs);
        var p := ParentOf(t, xs[0].node);
        var first := MinPos(ChildIds(Find(t, p).tagList), Nodes(xs));
        Outcome(MergeTree(t, p, first, Nodes(PySort.SortDesc(xs, RowKey)), next, kind), next + 1,
                RemoveEvents(t, xs) + [BeginInsertRows(ParentIndex(t, xs[0]), first, first), EndInsertRows],
                Some(At(first, next)))
  }

  /** A merge as `mergeTags` performs it: the removal, then the insertion of a new node holding what the removal returned. */
  lemma MergeSplit(t: Node, next: nat, kind: SeqKind, xs: seq<Index>)
    requires ValidTree(t) && MergeArg(t, xs) && IndexProblem(t, xs).None? && SameParent(t, xs)
    ensures xs[0].node != t.id && Removable(t, xs)
    ensures var ms := Nodes(PySort.SortDesc(xs, RowKey));
      forall k :: 0 <= k < |ms| ==> ms[k] in Ids(t)
    ensures var p := ParentOf(t, xs[0].node);
      p in Ids(RemoveTree(t, xs)) && Find(RemoveTree(t, xs), p).Sequence?
    ensures var p := ParentOf(t, xs[0].node);
      var first := MinPos(ChildIds(Find(t, p).tagList), Nodes(xs));
      var sub := NewSequence(next, kind, Cleared(t, Nodes(PySort.SortDesc(xs, RowKey))), Some(p));
      Attach(RemoveTree(t, xs), p, first, sub) == MergeStep(t, next, kind, xs).tree
    ensures var first := MinPos(ChildIds(Find(t, ParentOf(t, xs[0].node)).tagList), Nodes(xs));
      var o := MergeStep(t, next, kind, xs);
      && o.next == next + 1 && o.result == Some(At(first, next))
      && o.events == RemoveEvents(t, xs) + [BeginInsertRows(ParentIndex(t, xs[0]), first, first), EndInsertRows]
  {
    MergeReady(t, xs);
    RemovalRun(t, xs);
    var p := ParentOf(t, xs[0].node);
    var ms := Nodes(PySort.SortDesc(xs, RowKey));
    RemovedParent(t, p, ms);
  }

  /** The merge outcome spelled out in the parent `p`, its index `pidx`, the position `first` and the removed nodes. */
  lemma MergeParts(t: Node, next: nat, kind: SeqKind, xs: seq<Index>, p: NodeId, pidx: Index, first: int)
    requires ValidTree(t) && MergeArg(t, xs) && IndexProblem(t, xs).None? && SameParent(t, xs)
    requires p == ParentOf(t, xs[0].node) && pidx == ParentIndex(t, xs[0])
    requires first == MinPos(ChildIds(Find(t, p).tagList), Nodes(xs))
    ensures Removable(t, xs) && p in Ids(RemoveTree(t, xs)) && Find(RemoveTree(t, xs), p).Sequence?
    ensures var ms := Nodes(PySort.SortDesc(xs, RowKey));
      forall k :: 0 <= k < |ms| ==> ms[k] in Ids(t)
    ensures var sub := NewSequence(next, kind, Cleared(t, Nodes(PySort.SortDesc(xs, RowKey))), Some(p));
      MergeStep(t, next, kind, xs)
      == Outcome(Attach(RemoveTree(t, xs), p, first, sub), next + 1,
                 RemoveEvents(t, xs) + [BeginInsertRows(pidx, first, first), EndInsertRows], Some(At(first, next)))
  {
    MergeSplit(t, next, kind, xs);
  }

  /** A merge keeps the tree valid and `next` fresh, and fails, changing nothing, exactly on a rejected list or different parents. */
  lemma MergeStepOk(t: Node, next: nat, kind: SeqKind, xs: seq<Index>)
    requires ValidTree(t) && Fresh(t, next) && MergeArg(t, xs)
    ensures ValidTree(MergeStep(t, next, kind, xs).tree)
    ensures MergeStep(t, next, kind, xs).tree.id == t.id
    ensures Fresh(MergeStep(t, next, kind, xs).tree, MergeStep(t, next, kind, xs).next)
    ensures MergeStep(t, next, kind, xs).result.Some? <==> IndexProblem(t, xs).None? && SameParent(t, xs)
    ensures IndexProblem(t, xs).Some? ==> MergeStep(t, next, kind, xs) == Outcome(t, next, [Failure(IndexProblem(t, xs).value)], None)
    ensures IndexProblem(t, xs).None? && !SameParent(t, xs) ==> MergeStep(t, next, kind, xs) == Outcome(t, next, [Failure(DifferentParents)], None)
  {
    var o := MergeStep(t, next, kind, xs);
    if IndexProblem(t, xs).Some? {
      assert o == Outcome(t, next, [Failure(IndexProblem(t, xs).value)], None);
    } else if !SameParent(t, xs) {
      assert o == Outcome(t, next, [Failure(DifferentParents)], None);
    } else {
      MergeStepGoes(t, next, kind, xs);
    }
  }

  /** A merge that goes through adds exactly the new node. */
  lemma MergeStepGoes(t: Node, next: nat, kind: SeqKind, xs: seq<Index>)
    requires ValidTree(t) && Fresh(t, next) && MergeArg(t, xs) && IndexProblem(t, xs).None? && SameParent(t, xs)
    ensures var o := MergeStep(t, next, kind, xs);
      && ValidTree(o.tree) && o.tree.id == t.id && Ids(o.tree) == Ids(t) + {next}
      && o.next == next + 1 && o.result.Some? && next !in Ids(t)
  {
    MergeReady(t, xs);
    var p := ParentOf(t, xs[0].node);
    var first := MinPos(ChildIds(Find(t, p).tagList), Nodes(xs));
    var ms := Nodes(PySort.SortDesc(xs, RowKey));
    var o := MergeStep(t, next, kind, xs);
    assert o.tree == MergeTree(t, p, first, ms, next, kind) && o.next == next + 1 && o.result.Some?;
    MergeOk(t, p, first, ms, next, kind);
  }

  /**
   * A merge that goes through: the new node `next` stands in the common
   * parent at the smallest position of a merged node, holds the merged
   * nodes in descending original position (each pointing back to it), the
   * parent loses them, nothing else changes, and the returned index is the
   * new node's live index.
   */
  lemma MergeStepMeaning(t: Node, next: nat, kind: SeqKind, xs: seq<Index>)
    requires ValidTree(t) && Fresh(t, next) && MergeArg(t, xs) && IndexProblem(t, xs).None? && SameParent(t, xs)
    ensures xs[0].node in Ids(t) && xs[0].node != t.id && next !in Ids(t)
    ensures var o := MergeStep(t, next, kind, xs);
      var p := ParentOf(t, xs[0].node);
      var kids := View(t)[p].children;
      var ms := Nodes(PySort.SortDesc(xs, RowKey));
      && o.result.Some? && o.next == next + 1 && ValidTree(o.tree)
      && var first := o.result.value.row;
      && o.result.value == At(first, next) && 0 <= first < |kids| && LeastPos(kids, Nodes(xs), first)
      && (forall y :: y in ms <==> y in Nodes(xs))
      && (forall i, j :: 0 <= i < j < |ms| ==>
            ms[i] in kids && ms[j] in kids && PyLists.IndexOf(kids, ms[i]) > PyLists.IndexOf(kids, ms[j]))
      && |o.events| >= 2
      && o.events[|o.events| - 2..] == [BeginInsertRows(IndexOfNode(t, p), first, first), EndInsertRows]
      && var v' := View(o.tree);
      && next in v' && v'[next] == Rec(SeqLabel(kind), Some(p), ms)
      && p in v' && v'[p] == View(t)[p].(children := kids[..first] + [next] + FilterOut(kids[first..], Roots(ms)))
      && (forall k :: 0 <= k < |ms| ==> ms[k] in View(t) && ms[k] in v' && v'[ms[k]] == View(t)[ms[k]].(parent := Some(next)))
      && (forall y :: y in View(t) && y != p && y !in ms ==> y in v' && v'[y] == View(t)[y])
      && Live(o.tree, o.result.value)
  {
    MergeReady(t, xs);
    var p := ParentOf(t, xs[0].node);
    var ms := Nodes(PySort.SortDesc(xs, RowKey));
    var kids := View(t)[p].children;
    var first := MinPos(ChildIds(Find(t, p).tagList), Nodes(xs));
    var t' := MergeTree(t, p, first, ms, next, kind);
    var o := MergeStep(t, next, kind, xs);
    assert o.tree == t' && o.result == Some(At(first, next)) && o.next == next + 1;
    assert o.events[|o.events| - 2..] == [BeginInsertRows(IndexOfNode(t, p), first, first), EndInsertRows];
    MinPosLeast(ChildIds(Find(t, p).tagList), Nodes(xs));
    LeastPosPerm(kids, Nodes(xs), ms, first);
    MergedMeaning(t, p, first, ms, next, kind);
    MergeOk(t, p, first, ms, next, kind);
    assert next !in kids[..first] by {
      ViewClosed(t);
      assert forall c :: c in kids[..first] ==> c in kids;
    }
    IndexOfSplice(kids[..first], next, FilterOut(kids[first..], Roots(ms)));
    IndexOfNodeView(t', next);
  }

  // ---------------------------------------------------------------------
  // negate

  /** `removeIndexes([index])` on an accepted index: one `_remove`. */
  lemma SingleRemoval(t: Node, i: Index)
    requires ValidTree(t) && IndexArg(t, i) && IndexProblem(t, [i]).None?
    ensures i.At? && Live(t, i) && i.node != t.id && Removable(t, [i])
    ensures var x := i.node;
      var p := ParentOf(t, x);
      && PySort.SortDesc([i], RowKey) == [i] && Nodes([i]) == [x]
      && RemoveTree(t, [i]) == Detach(t, p, x).0
      && Cleared(t, Nodes(PySort.SortDesc([i], RowKey))) == [Detach(t, p, x).1]
      && RemoveEvents(t, [i]) == [BeginRemoveRows(ParentIndex(t, i), i.row, i.row), EndRemoveRows]
      && i.row == RowOf(t, x)
  {
    Accepted(t, [i]);
    var x := i.node;
    var p := ParentOf(t, x);
    var s := PySort.SortDesc([i], RowKey);
    assert s[0] in multiset([i]);
    assert s == [i];
    assert Nodes([i]) == [x];
    assert Separate(t, [x]);
    DetachIds(t, p, x);
    DetachStep(t, [x]);
    assert [x][1..] == [];
    RemovalRun(t, [i]);
    assert [i][1..] == [];
  }

  /**
   * `negate(index)`: the complaint of the index check with nothing changed
   * and None returned (`Ok(false)`); otherwise the node is removed and, at
   * its row, a NOT node is put back in place of its content, or a new NOT
   * node `next` around it (`Ok(true)`). A NOT node without exactly one
   * child fails the `content` assertion after the removal and after the
   * insertion was announced: the node is lost and the insertion never ends.
   */
  function NegateStep(t: Node, next: nat, i: Index): Outcome<Result<bool, PyError>>
    requires ValidTree(t) && IndexArg(t, i)
  {
    match IndexProblem(t, [i])
    case Some(c) => Outcome(t, next, [Failure(c)], Ok(false))
    case None =>
      SingleRemoval(t, i);
      var x := i.node;
      var announced := RemoveEvents(t, [i]) + [BeginInsertRows(ParentIndex(t, i), i.row, i.row)];
      if NegateArg(t, x) then
        Outcome(Negated(t, x, next), if IsNot(Find(t, x)) then next else next + 1, announced + [EndInsertRows], Ok(true))
      else
        Outcome(RemoveTree(t, [i]), next, announced, Err(AssertionError))
  }

  /** A `negate` that goes through: the tree `Negated`, the notifications of one removal and one insertion at the node's row. */
  lemma NegateStepGoes(t: Node, next: nat, i: Index)
    requires ValidTree(t) && IndexArg(t, i) && IndexProblem(t, [i]).None?
    requires i.At? && NegateArg(t, i.node)
    ensures i.node in Ids(t) && i.node != t.id && i.row == RowOf(t, i.node)
    ensures var x := i.node;
      var pi := IndexOfNode(t, ParentOf(t, x));
      NegateStep(t, next, i) == Outcome(Negated(t, x, next), if IsNot(Find(t, x)) then next else next + 1,
        [BeginRemoveRows(pi, i.row, i.row), EndRemoveRows, BeginInsertRows(pi, i.row, i.row), EndInsertRows], Ok(true))
  {
    SingleRemoval(t, i);
    var x := i.node;
    var pi := IndexOfNode(t, ParentOf(t, x));
    var announced := RemoveEvents(t, [i]) + [BeginInsertRows(ParentIndex(t, i), i.row, i.row)];
    assert announced + [EndInsertRows]
      == [BeginRemoveRows(pi, i.row, i.row), EndRemoveRows, BeginInsertRows(pi, i.row, i.row), EndInsertRows];
    assert NegateStep(t, next, i)
      == Outcome(Negated(t, x, next), if IsNot(Find(t, x)) then next else next + 1, announced + [EndInsertRows], Ok(true));
  }

  /**
   * A NOT node with no child or several: the node is cut out with its
   * subtree, the removal and the start of the insertion are announced, and
   * AssertionError is raised.
   */
  lemma NegateStepRaises(t: Node, next: nat, i: Index)
    requires ValidTree(t) && IndexArg(t, i) && IndexProblem(t, [i]).None?
    requires i.At? ==> !NegateArg(t, i.node)
    ensures i.At? && i.node in Ids(t) && i.node != t.id
    ensures IsNot(Find(t, i.node)) && |Find(t, i.node).tagList| != 1
    ensures var x := i.node;
      var p := ParentOf(t, x);
      var pi := IndexOfNode(t, p);
      var v := View(t);
      var o := NegateStep(t, next, i);
      && o == Outcome(Detach(t, p, x).0, next,
        [BeginRemoveRows(pi, i.row, i.row), EndRemoveRows, BeginInsertRows(pi, i.row, i.row)], Err(AssertionError))
      && ValidTree(o.tree) && o.tree.id == t.id && Ids(o.tree) == Ids(t) - Ids(Find(t, x))
      && p in v && x in v[p].children && View(o.tree) == (v - Ids(Find(t, x)))[p := v[p].(children := PyLists.RemoveFirst(v[p].children, x))]
  {
    SingleRemoval(t, i);
    NegateParent(t, i.node);
  }

  /** What the method `negate` works with: the removal of the node, and the outcome of each of its paths. */
  lemma NegateParts(t: Node, next: nat, i: Index, p: NodeId, pidx: Index, out: Node)
    requires ValidTree(t) && Fresh(t, next) && IndexArg(t, i) && IndexProblem(t, [i]).None?
    requires i.At? && i.node in Ids(t) && i.node != t.id
    requires p == ParentOf(t, i.node) && pidx == ParentIndex(t, i) && out == Detach(t, p, i.node).1
    ensures Removable(t, [i]) && p in Ids(RemoveTree(t, [i])) && Find(RemoveTree(t, [i]), p).Sequence?
    ensures Cleared(t, Nodes(PySort.SortDesc([i], RowKey))) == [out]
    ensures NegateArg(t, i.node) <==> !(IsNot(out) && |out.tagList| != 1)
    ensures var announced := RemoveEvents(t, [i]) + [BeginInsertRows(pidx, i.row, i.row)];
      var o := NegateStep(t, next, i);
      && (NegateArg(t, i.node) ==>
        && o.tree == (if IsNot(out) then Attach(RemoveTree(t, [i]), p, i.row, Content(out))
                      else Attach(RemoveTree(t, [i]), p, i.row, NewExclude(next, out, None)))
        && o.events == announced + [EndInsertRows]
        && o.next == (if IsNot(out) then next else next + 1)
        && o.result == Ok(true))
      && (!NegateArg(t, i.node) ==> o == Outcome(RemoveTree(t, [i]), next, announced, Err(AssertionError)))
      && ValidTree(o.tree) && Fresh(o.tree, o.next)
  {
    SingleRemoval(t, i);
    NegateParent(t, i.node);
    NegateStepOk(t, next, i);
  }

  /** A `negate` that goes through keeps the tree valid and its identities below the next fresh one. */
  lemma NegateStepIds(t: Node, next: nat, i: Index)
    requires ValidTree(t) && Fresh(t, next) && IndexArg(t, i) && IndexProblem(t, [i]).None?
    requires i.At? && NegateArg(t, i.node)
    ensures var o := NegateStep(t, next, i);
      && ValidTree(o.tree) && o.tree.id == t.id && o.result == Ok(true)
      && (IsNot(Find(t, i.node)) ==> Ids(o.tree) == Ids(t) - {i.node} && o.next == next)
      && (!IsNot(Find(t, i.node)) ==> Ids(o.tree) == Ids(t) + {next} && o.next == next + 1)
  {
    NegateStepGoes(t, next, i);
    var x := i.node;
    var o := NegateStep(t, next, i);
    assert o.tree == Negated(t, x, next) && o.result == Ok(true);
    if IsNot(Find(t, x)) {
      assert Negated(t, x, next) == Negated(t, x, 0) by { NegateParent(t, x); }
      UnwrapOk(t, x);
    } else {
      WrapOk(t, x, next);
    }
  }

  /**
   * `negate` keeps the tree valid and `next` fresh; it goes through exactly
   * when the check lets the index through and the node is not a NOT node
   * without exactly one child, and raises exactly when it is one.
   */
  lemma NegateStepOk(t: Node, next: nat, i: Index)
    requires ValidTree(t) && Fresh(t, next) && IndexArg(t, i)
    ensures ValidTree(NegateStep(t, next, i).tree)
    ensures NegateStep(t, next, i).tree.id == t.id
    ensures Fresh(NegateStep(t, next, i).tree, NegateStep(t, next, i).next)
    ensures NegateStep(t, next, i).result == Ok(true) <==> IndexProblem(t, [i]).None? && i.At? && NegateArg(t, i.node)
    ensures NegateStep(t, next, i).result == Err(AssertionError) <==> IndexProblem(t, [i]).None? && !(i.At? && NegateArg(t, i.node))
    ensures IndexProblem(t, [i]).Some? ==> NegateStep(t, next, i) == Outcome(t, next, [Failure(IndexProblem(t, [i]).value)], Ok(false))
  {
    var o := NegateStep(t, next, i);
    if IndexProblem(t, [i]).Some? {
      assert o == Outcome(t, next, [Failure(IndexProblem(t, [i]).value)], Ok(false));
    } else if i.At? && NegateArg(t, i.node) {
      NegateStepIds(t, next, i);
    } else {
      NegateStepRaises(t, next, i);
    }
  }

  /** Where the node sits: row `i.row` of its parent's children. */
  lemma NegateStepPlace(t: Node, i: Index)
    requires ValidTree(t) && IndexArg(t, i) && IndexProblem(t, [i]).None?
    ensures i.At? && i.node in Ids(t) && i.node != t.id
    ensures var x := i.node;
      var p := ParentOf(t, x);
      var v := View(t);
      && p in v && x in v && p != x && i.row < |v[p].children| && v[p].children[i.row] == x
  {
    SingleRemoval(t, i);
    NegateParent(t, i.node);
    IndexOfNodeView(t, i.node);
  }

  /** Negating a node other than a NOT node: the node at its row is replaced by a new NOT node `next` holding it. */
  lemma NegateStepWrap(t: Node, next: nat, i: Index)
    requires ValidTree(t) && Fresh(t, next) && IndexArg(t, i) && IndexProblem(t, [i]).None?
    requires i.At? && !IsNot(Find(t, i.node))
    ensures next !in Ids(t)
    ensures var o := NegateStep(t, next, i);
      var p := ParentOf(t, i.node);
      && p in View(t) && i.node in View(t) && i.row < |View(t)[p].children|
      && o.next == next + 1 && View(o.tree) == Wrapped(View(t), p, i.row, i.node, next)
  {
    SingleRemoval(t, i);
    NegateStepGoes(t, next, i);
    WrapOk(t, i.node, next);
  }

  /** Negating a NOT node: it is replaced at its row by its only child. */
  lemma NegateStepUnwrap(t: Node, next: nat, i: Index)
    requires ValidTree(t) && IndexArg(t, i) && IndexProblem(t, [i]).None?
    requires i.At? && IsNot(Find(t, i.node)) && |Find(t, i.node).tagList| == 1
    ensures var o := NegateStep(t, next, i);
      var x := i.node;
      var p := ParentOf(t, x);
      var v := View(t);
      && p in v && Find(t, x).tagList[0].id in v && p != x && i.row < |v[p].children|
      && o.next == next && View(o.tree) == Unwrapped(v, p, i.row, x, Find(t, x).tagList[0].id)
  {
    SingleRemoval(t, i);
    NegateStepGoes(t, next, i);
    NegateParent(t, i.node);
    NotChild(t, i.node);
    UnwrapOk(t, i.node);
    assert Negated(t, i.node, next) == Negated(t, i.node, 0);
  }

  /** After a wrap, the new NOT node at the same row is an index `negate` accepts. */
  lemma NegateAgain(t: Node, x: NodeId, n: NodeId)
    requires ValidTree(t) && NegateArg(t, x) && !IsNot(Find(t, x)) && n !in Ids(t)
    ensures ValidTree(Negated(t, x, n))
    ensures IndexArg(Negated(t, x, n), At(RowOf(t, x), n)) && NegateArg(Negated(t, x, n), n)
    ensures IndexProblem(Negated(t, x, n), [At(RowOf(t, x), n)]).None?
  {
    var t' := Negated(t, x, n);
    var j := At(RowOf(t, x), n);
    NegateTwice(t, x, n, n + 1);
    WrapOk(t, x, n);
    assert Live(t', j);
    assert Editable(t', j) by {
      AncestorsOfTop(t);
    }
    IndexProblemNone(t', [j]);
  }

  /** The first of two negations: the node is wrapped in a new NOT node at its row, which can be negated in turn. */
  lemma NegateStepFirst(t: Node, next: nat, i: Index)
    requires ValidTree(t) && Fresh(t, next) && IndexArg(t, i) && IndexProblem(t, [i]).None?
    requires i.At? && !IsNot(Find(t, i.node))
    ensures i.node in Ids(t) && NegateArg(t, i.node) && next !in Ids(t)
    ensures var o := NegateStep(t, next, i);
      && o.tree == Negated(t, i.node, next) && o.next == next + 1
      && ValidTree(o.tree) && IndexArg(o.tree, At(i.row, next)) && NegateArg(o.tree, next)
      && IndexProblem(o.tree, [At(i.row, next)]).None?
  {
    var x := i.node;
    assert NegateStep(t, next, i).tree == Negated(t, x, next) && NegateStep(t, next, i).next == next + 1
      && NegateArg(t, x) && i.row == RowOf(t, x) by {
      SingleRemoval(t, i);
      NegateStepGoes(t, next, i);
    }
    assert next !in Ids(t);
    var t' := Negated(t, x, next);
    assert ValidTree(t') && IndexArg(t', At(i.row, next)) && NegateArg(t', next) && IndexProblem(t', [At(i.row, next)]).None? by {
      NegateAgain(t, x, next);
    }
  }

  /** The second of two negations: unwrapping the new NOT node restores the view and the node. */
  lemma NegateStepSecond(t: Node, x: NodeId, n: nat, row: int, t1: Node)
    requires ValidTree(t) && x in Ids(t) && NegateArg(t, x) && !IsNot(Find(t, x)) && n !in Ids(t)
    requires t1 == Negated(t, x, n)
    requires ValidTree(t1) && IndexArg(t1, At(row, n)) && IndexProblem(t1, [At(row, n)]).None?
    ensures var o2 := NegateStep(t1, n + 1, At(row, n));
      && o2.result == Ok(true) && View(o2.tree) == View(t)
      && x in Ids(o2.tree) && Find(o2.tree, x) == Find(t, x)
  {
    assert NegateArg(t1, n) && View(Negated(t1, n, n + 1)) == View(t)
      && x in Ids(Negated(t1, n, n + 1)) && Find(Negated(t1, n, n + 1), x) == Find(t, x) by {
      NegateTwice(t, x, n, n + 1);
    }
    var j := At(row, n);
    assert NegateStep(t1, n + 1, j).tree == Negated(t1, n, n + 1) && NegateStep(t1, n + 1, j).result == Ok(true) by {
      NegateStepGoes(t1, n + 1, j);
    }
  }

  /**
   * Negating a node other than a NOT node and then negating the new NOT
   * node at the same row restores the view and gives back the original node
   * object with its whole subtree and its parent.
   */
  lemma NegateStepTwice(t: Node, next: nat, i: Index)
    requires ValidTree(t) && Fresh(t, next) && IndexArg(t, i) && IndexProblem(t, [i]).None?
    requires i.At? && !IsNot(Find(t, i.node))
    ensures var o := NegateStep(t, next, i);
      && ValidTree(o.tree) && IndexArg(o.tree, At(i.row, next)) && IndexProblem(o.tree, [At(i.row, next)]).None?
      && var o2 := NegateStep(o.tree, o.next, At(i.row, next));
      && o2.result == Ok(true) && View(o2.tree) == View(t)
      && i.node in Ids(o2.tree) && Find(o2.tree, i.node) == Find(t, i.node)
  {
    NegateStepFirst(t, next, i);
    var o := NegateStep(t, next, i);
    NegateStepSecond(t, i.node, next, i.row, o.tree);
  }


}
