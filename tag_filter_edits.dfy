/**
 * Compound edits of the tag-filter tree: removing several separate nodes
 * one after the other (each from its own parent, as `_remove` does), and
 * inserting several nodes at consecutive positions of one sequence node
 * (`for pos, node in enumerate(nodes, first): nodeParent.insert(pos, node)`).
 * Both are specified through the arena view.
 */
module TagFilterEdits {
  import opened Wrappers
  import opened TagFilterNodes
  import opened TagFilterTree
  import opened TagFilterIndex
  import PyLists

  /** Nodes other than the top one, none of them inside another's subtree (so also pairwise different). */
  predicate Separate(t: Node, ms: seq<NodeId>)
  {
    (forall k :: 0 <= k < |ms| ==> ms[k] in Ids(t) && ms[k] != t.id)
    && (forall j, k :: 0 <= j < |ms| && 0 <= k < |ms| && j != k ==> ms[j] !in Ids(Find(t, ms[k])))
  }

  lemma SeparateNoDup(t: Node, ms: seq<NodeId>)
    requires Separate(t, ms)
    ensures PyLists.NoDup(ms)
  {
    forall j, k | 0 <= j < k < |ms| ensures ms[j] != ms[k] {
      assert ms[j] !in Ids(Find(t, ms[k]));
      AncestorsOfTop(Find(t, ms[k]));
    }
  }

  /** All nodes of the subtrees under `ms`. */
  function GoneIds(t: Node, ms: seq<NodeId>): set<NodeId>
    requires forall k :: 0 <= k < |ms| ==> ms[k] in Ids(t)
  {
    if ms == [] then {} else Ids(Find(t, ms[0])) + GoneIds(t, ms[1..])
  }

  lemma {:induction false} GoneIdsSpec(t: Node, ms: seq<NodeId>, y: NodeId)
    requires forall k :: 0 <= k < |ms| ==> ms[k] in Ids(t)
    ensures y in GoneIds(t, ms) <==> exists k :: 0 <= k < |ms| && y in Ids(Find(t, ms[k]))
  {
    if ms != [] {
      GoneIdsSpec(t, ms[1..], y);
      if y in GoneIds(t, ms[1..]) {
        var k :| 0 <= k < |ms[1..]| && y in Ids(Find(t, ms[1..][k]));
        assert ms[1..][k] == ms[k + 1];
      }
      if exists k :: 0 <= k < |ms| && y in Ids(Find(t, ms[k])) {
        var k :| 0 <= k < |ms| && y in Ids(Find(t, ms[k]));
        if k > 0 { assert ms[1..][k - 1] == ms[k]; }
      }
    }
  }

  /** The child list with every id of `cut` left out. */
  function FilterOut(s: seq<NodeId>, cut: set<NodeId>): (r: seq<NodeId>)
    ensures |r| <= |s|
  {
    if s == [] then [] else (if s[0] in cut then [] else [s[0]]) + FilterOut(s[1..], cut)
  }

  lemma {:induction false} FilterOutMembers(s: seq<NodeId>, cut: set<NodeId>, x: NodeId)
    ensures x in FilterOut(s, cut) <==> x in s && x !in cut
  {
    if s != [] {
      FilterOutMembers(s[1..], cut, x);
      assert s == [s[0]] + s[1..];
    }
  }

  lemma {:induction false} FilterOutAppend(a: seq<NodeId>, b: seq<NodeId>, cut: set<NodeId>)
    ensures FilterOut(a + b, cut) == FilterOut(a, cut) + FilterOut(b, cut)
  {
    if a == [] {
      assert a + b == b;
    } else {
      assert (a + b)[1..] == a[1..] + b;
      FilterOutAppend(a[1..], b, cut);
    }
  }

  lemma {:induction false} FilterOutNone(s: seq<NodeId>, cut: set<NodeId>)
    requires forall x :: x in s ==> x !in cut
    ensures FilterOut(s, cut) == s
  {
    if s != [] { FilterOutNone(s[1..], cut); }
  }

  lemma {:induction false} FilterOutMore(s: seq<NodeId>, cut: set<NodeId>, c: NodeId)
    requires c !in s
    ensures FilterOut(s, cut + {c}) == FilterOut(s, cut)
  {
    if s != [] { FilterOutMore(s[1..], cut, c); }
  }

  /** Removing the one occurrence of `c` first and then the rest of the cut is filtering by both. */
  lemma FilterOutRemoveFirst(s: seq<NodeId>, cut: set<NodeId>, c: NodeId)
    requires c in s && PyLists.NoDup(s)
    ensures FilterOut(PyLists.RemoveFirst(s, c), cut) == FilterOut(s, cut + {c})
  {
    var i := PyLists.IndexOf(s, c);
    var a, b := s[..i], s[i + 1..];
    var cb := [c] + b;
    var more := cut + {c};
    assert s == a + cb by {
      assert s == s[..i] + [s[i]] + s[i + 1..];
    }
    assert c !in a;
    assert c !in b by {
      forall j | 0 <= j < |b| ensures b[j] != c { assert b[j] == s[i + 1 + j]; }
    }
    assert FilterOut(s, more) == FilterOut(a, more) + FilterOut(cb, more) by {
      FilterOutAppend(a, cb, more);
    }
    assert FilterOut(cb, more) == FilterOut(b, more) by {
      assert cb[0] == c && cb[1..] == b;
    }
    assert FilterOut(a, more) == FilterOut(a, cut) by { FilterOutMore(a, cut, c); }
    assert FilterOut(b, more) == FilterOut(b, cut) by { FilterOutMore(b, cut, c); }
    assert FilterOut(PyLists.RemoveFirst(s, c), cut) == FilterOut(a, cut) + FilterOut(b, cut) by {
      FilterOutAppend(a, b, cut);
    }
  }

  /** The view after removing the subtrees `gone` whose roots are `cut`: the parents lose those children. */
  function Without(v: map<NodeId, Rec>, gone: set<NodeId>, cut: set<NodeId>): (r: map<NodeId, Rec>)
    ensures r.Keys == v.Keys - gone
  {
    map x | x in v.Keys - gone :: v[x].(children := FilterOut(v[x].children, cut))
  }

  /** A child id listed in the view belongs to the node its back-reference names, and to no other. */
  lemma ChildOfParent(t: Node, x: NodeId, c: NodeId)
    requires ValidTree(t) && x in View(t) && c in View(t)[x].children
    ensures c in Ids(t) && c != t.id && ParentOf(t, c) == x
  {
    ViewFind(t, x);
    var f := Find(t, x);
    var i :| 0 <= i < |f.tagList| && ChildIds(f.tagList)[i] == c;
    FindInside(t, x);
    LinkedFind(t, x);
    assert f.tagList[i].id in Ids(f.tagList[i]);
    FindListIn(f.tagList, i, c);
    ChildInList(f.tagList, i);
    FindFind(t, x, c);
    assert Find(t, c).parent == Some(x);
  }

  /** Two nodes each inside the other's subtree are the same node. */
  lemma {:induction false} MutualInside(n: Node, x: NodeId, y: NodeId)
    requires Unique(n) && x in Ids(n) && y in Ids(n) && y in Ids(Find(n, x)) && x in Ids(Find(n, y))
    ensures x == y
    decreases n
  {
    if x != n.id && y != n.id {
      var ts := n.tagList;
      var i := ChildHolding(ts, x);
      FindListIn(ts, i, x);
      ChildInList(ts, i);
      FindInside(ts[i], x);
      FindListIn(ts, i, y);
      MutualInside(ts[i], x, y);
    } else if x != n.id || y != n.id {
      var z := if x != n.id then x else y;
      var ts := n.tagList;
      var j := ChildHolding(ts, z);
      FindListIn(ts, j, z);
      ChildInList(ts, j);
      FindInside(ts[j], z);
    }
  }

  /** Two subtrees neither of which holds the other's root share no node. */
  lemma {:induction false} SubtreesDisjoint(n: Node, x: NodeId, y: NodeId)
    requires Unique(n) && x in Ids(n) && y in Ids(n)
    requires x !in Ids(Find(n, y)) && y !in Ids(Find(n, x))
    ensures Ids(Find(n, x)) !! Ids(Find(n, y))
    decreases n
  {
    var ts := n.tagList;
    var i := ChildHolding(ts, x);
    var j := ChildHolding(ts, y);
    FindListIn(ts, i, x);
    FindListIn(ts, j, y);
    ChildInList(ts, i);
    ChildInList(ts, j);
    FindInside(ts[i], x);
    FindInside(ts[j], y);
    if i == j {
      SubtreesDisjoint(ts[i], x, y);
    } else if i < j {
      ChildrenDisjoint(ts, i, j);
    } else {
      ChildrenDisjoint(ts, j, i);
    }
  }

  // ---------------------------------------------------------------------
  // Removing several nodes

  /** A subtree that holds a node's parent holds the node too. */
  lemma ChildBelow(t: Node, c: NodeId, y: NodeId)
    requires ValidTree(t) && c in Ids(t) && c != t.id && y in Ids(t) && ParentOf(t, c) in Ids(Find(t, y))
    ensures c in Ids(Find(t, y))
  {
    var p := ParentOf(t, c);
    FindFind(t, y, p);
    FindInside(Find(t, y), p);
    ChildIdsInList(Find(t, p).tagList);
    assert c in Ids(Find(Find(t, y), p));
  }

  /** Removing the first node keeps the tree valid and leaves the other nodes' subtrees as they were. */
  lemma DetachStep(t: Node, ms: seq<NodeId>)
    requires ValidTree(t) && Separate(t, ms) && ms != []
    ensures var t1 := Detach(t, ParentOf(t, ms[0]), ms[0]).0;
      && ValidTree(t1) && Ids(t1) == Ids(t) - Ids(Find(t, ms[0]))
      && (forall k :: 1 <= k < |ms| ==> ms[k] in Ids(t1) && Find(t1, ms[k]) == Find(t, ms[k]))
      && Separate(t1, ms[1..])
  {
    var c := ms[0];
    var p := ParentOf(t, c);
    DetachIds(t, p, c);
    DetachLinked(t, p, c);
    var t1 := Detach(t, p, c).0;
    forall k | 1 <= k < |ms| ensures ms[k] in Ids(t1) && Find(t1, ms[k]) == Find(t, ms[k]) {
      var y := ms[k];
      assert y !in Ids(Find(t, c));
      assert c !in Ids(Find(t, y));
      if p in Ids(Find(t, y)) { ChildBelow(t, c, y); }
      DetachFindOther(t, p, c, y);
    }
    forall j, k | 0 <= j < |ms[1..]| && 0 <= k < |ms[1..]| && j != k
      ensures ms[1..][j] !in Ids(Find(t1, ms[1..][k]))
    {
      assert ms[1..][j] == ms[j + 1] && ms[1..][k] == ms[k + 1];
    }
  }

  /** `[self._remove(ind) for ind in ...]`: remove the nodes in order; the removed nodes, parent cleared, in that order. */
  function DetachSeq(t: Node, ms: seq<NodeId>): (r: (Node, seq<Node>))
    requires ValidTree(t) && Separate(t, ms)
    decreases |ms|
    ensures |r.1| == |ms|
  {
    if ms == [] then (t, [])
    else
      DetachStep(t, ms);
      var (t1, out) := Detach(t, ParentOf(t, ms[0]), ms[0]);
      var (t2, outs) := DetachSeq(t1, ms[1..]);
      (t2, [out] + outs)
  }

  lemma GoneIdsSame(t: Node, t1: Node, ms: seq<NodeId>)
    requires forall k :: 0 <= k < |ms| ==> ms[k] in Ids(t) && ms[k] in Ids(t1) && Find(t1, ms[k]) == Find(t, ms[k])
    ensures GoneIds(t1, ms) == GoneIds(t, ms)
  {
    if ms != [] { GoneIdsSame(t, t1, ms[1..]); }
  }

  /** One removal step composes with the removal of the rest. */
  lemma WithoutStep(v: map<NodeId, Rec>, i0: set<NodeId>, p: NodeId, c: NodeId, g: set<NodeId>, cut: set<NodeId>)
    requires p in v && p !in i0 && p !in g && c in v[p].children && PyLists.NoDup(v[p].children)
    requires forall x :: x in v && x != p ==> c !in v[x].children
    ensures Without((v - i0)[p := v[p].(children := PyLists.RemoveFirst(v[p].children, c))], g, cut)
         == Without(v, i0 + g, cut + {c})
  {
    var w := (v - i0)[p := v[p].(children := PyLists.RemoveFirst(v[p].children, c))];
    var l, r := Without(w, g, cut), Without(v, i0 + g, cut + {c});
    forall x | x in l.Keys ensures l[x] == r[x] {
      if x == p {
        FilterOutRemoveFirst(v[p].children, cut, c);
      } else {
        FilterOutMore(v[x].children, cut, c);
      }
    }
  }

  /** The nodes a list names, as a set: the roots a removal cuts. */
  function Roots(ms: seq<NodeId>): (r: set<NodeId>)
    ensures forall y :: y in r <==> y in ms
  {
    set y | y in ms
  }

  /** The members of a list: the head and the members of the tail. */
  lemma SeqSet(ms: seq<NodeId>)
    requires ms != []
    ensures Roots(ms) == Roots(ms[1..]) + {ms[0]}
  {
    assert ms == [ms[0]] + ms[1..];
  }

  lemma WithoutNothing(v: map<NodeId, Rec>)
    ensures Without(v, {}, {}) == v
  {
    forall x | x in v ensures v[x].children == FilterOut(v[x].children, {}) {
      FilterOutNone(v[x].children, {});
    }
  }

  /** The facts about the first removal that let it compose with the removal of the rest. */
  lemma DetachStepView(t: Node, ms: seq<NodeId>)
    requires ValidTree(t) && Separate(t, ms) && ms != []
    ensures var c := ms[0];
      var p := ParentOf(t, c);
      var v := View(t);
      && p in v && c in v[p].children && PyLists.NoDup(v[p].children)
      && p !in Ids(Find(t, c)) && p !in GoneIds(t, ms[1..])
      && (forall x :: x in v && x != p ==> c !in v[x].children)
      && View(Detach(t, p, c).0) == (v - Ids(Find(t, c)))[p := v[p].(children := PyLists.RemoveFirst(v[p].children, c))]
  {
    var c := ms[0];
    var p := ParentOf(t, c);
    var v := View(t);
    DetachView(t, p, c);
    assert p !in GoneIds(t, ms[1..]) by {
      GoneIdsSpec(t, ms[1..], p);
      forall k | 0 <= k < |ms[1..]| ensures p !in Ids(Find(t, ms[1..][k])) {
        var y := ms[1..][k];
        assert y == ms[k + 1];
        assert c !in Ids(Find(t, y));
        if p in Ids(Find(t, y)) { ChildBelow(t, c, y); }
      }
    }
    assert p !in Ids(Find(t, c)) by {
      FindInside(t, p);
      ChildIdsInList(Find(t, p).tagList);
      assert c in Ids(Find(t, p));
      FindFind(t, p, c);
      if p in Ids(Find(t, c)) { MutualInside(t, p, c); }
    }
    LinkedFind(t, p);
    FindInside(t, p);
    ChildIdsNoDup(Find(t, p).tagList);
    forall x | x in v && x != p ensures c !in v[x].children {
      if c in v[x].children { ChildOfParent(t, x, c); }
    }
  }

  /** Removing the nodes one after the other keeps the tree valid and deletes exactly their subtrees. */
  lemma {:induction false} DetachSeqIds(t: Node, ms: seq<NodeId>)
    requires ValidTree(t) && Separate(t, ms)
    ensures ValidTree(DetachSeq(t, ms).0) && DetachSeq(t, ms).0.id == t.id
    ensures Ids(DetachSeq(t, ms).0) == Ids(t) - GoneIds(t, ms)
    decreases |ms|
  {
    if ms != [] {
      var c := ms[0];
      var p := ParentOf(t, c);
      DetachStep(t, ms);
      DetachIds(t, p, c);
      var t1 := Detach(t, p, c).0;
      DetachSeqIds(t1, ms[1..]);
      GoneIdsSame(t, t1, ms[1..]);
    }
  }

  /** The removed nodes come back in order, each with its subtree as it was and its parent cleared. */
  lemma {:induction false} DetachSeqOuts(t: Node, ms: seq<NodeId>)
    requires ValidTree(t) && Separate(t, ms)
    ensures forall k :: 0 <= k < |ms| ==> DetachSeq(t, ms).1[k] == WithParent(Find(t, ms[k]), None)
    decreases |ms|
  {
    if ms != [] {
      var c := ms[0];
      var p := ParentOf(t, c);
      DetachStep(t, ms);
      DetachIds(t, p, c);
      var t1 := Detach(t, p, c).0;
      DetachSeqOuts(t1, ms[1..]);
      var outs := DetachSeq(t, ms).1;
      assert outs == [Detach(t, p, c).1] + DetachSeq(t1, ms[1..]).1;
      forall k | 0 <= k < |ms| ensures outs[k] == WithParent(Find(t, ms[k]), None) {
        if k > 0 { assert outs[k] == DetachSeq(t1, ms[1..]).1[k - 1]; }
      }
    }
  }

  /** One step of the removal loop, seen through the view. */
  lemma DetachSeqStep(t: Node, ms: seq<NodeId>)
    requires ValidTree(t) && Separate(t, ms) && ms != []
    ensures var t1 := Detach(t, ParentOf(t, ms[0]), ms[0]).0;
      && ValidTree(t1) && Separate(t1, ms[1..])
      && DetachSeq(t, ms).0 == DetachSeq(t1, ms[1..]).0
      && Without(View(t1), GoneIds(t1, ms[1..]), Roots(ms[1..]))
         == Without(View(t), GoneIds(t, ms), Roots(ms))
  {
    DetachStep(t, ms);
    DetachSeqStepView(t, ms);
  }

  lemma DetachSeqStepView(t: Node, ms: seq<NodeId>)
    requires ValidTree(t) && Separate(t, ms) && ms != []
    ensures var t1 := Detach(t, ParentOf(t, ms[0]), ms[0]).0;
      && ms[1..] == ms[1..] && (forall k :: 0 <= k < |ms[1..]| ==> ms[1..][k] in Ids(t1))
      && Without(View(t1), GoneIds(t1, ms[1..]), Roots(ms[1..]))
         == Without(View(t), GoneIds(t, ms), Roots(ms))
  {
    var c, rest := ms[0], ms[1..];
    var p := ParentOf(t, c);
    var t1 := Detach(t, p, c).0;
    var v, i0, g := View(t), Ids(Find(t, c)), GoneIds(t, rest);
    var cutRest := Roots(rest);
    assert View(t1) == (v - i0)[p := v[p].(children := PyLists.RemoveFirst(v[p].children, c))]
      && PyLists.NoDup(v[p].children) && p !in i0 && p !in g
      && (forall x :: x in v && x != p ==> c !in v[x].children)
      && c in v[p].children
    by {
      DetachStepView(t, ms);
    }
    assert (forall k :: 0 <= k < |rest| ==> rest[k] in Ids(t1)) && GoneIds(t1, rest) == g by {
      DetachStep(t, ms);
      GoneIdsSame(t, t1, rest);
    }
    WithoutStep(v, i0, p, c, g, cutRest);
    SeqSet(ms);
    assert GoneIds(t, ms) == i0 + g;
  }

  /** Removing the nodes one after the other deletes their subtrees and cuts them from their parents' child lists. */
  lemma {:induction false} DetachSeqView(t: Node, ms: seq<NodeId>)
    requires ValidTree(t) && Separate(t, ms)
    ensures View(DetachSeq(t, ms).0) == Without(View(t), GoneIds(t, ms), Roots(ms))
    decreases |ms|
  {
    if ms == [] {
      var none: set<NodeId> := Roots(ms);
      assert none == {} && GoneIds(t, ms) == {} && DetachSeq(t, ms).0 == t;
      WithoutNothing(View(t));
      assert Without(View(t), GoneIds(t, ms), none) == View(t);
    } else {
      DetachSeqStep(t, ms);
      DetachSeqView(Detach(t, ParentOf(t, ms[0]), ms[0]).0, ms[1..]);
    }
  }

  // ---------------------------------------------------------------------
  // The removed subtrees, re-parented

  /** The records of the removed subtrees once their roots hang off `x`. */
  function Regrafted(v: map<NodeId, Rec>, gone: set<NodeId>, cut: set<NodeId>, x: NodeId): (r: map<NodeId, Rec>)
    requires gone <= v.Keys
    ensures r.Keys == gone
  {
    map y | y in gone :: if y in cut then v[y].(parent := Some(x)) else v[y]
  }

  /** The removed nodes with their back-reference set to `x`, as `insert` or the sequence constructor leaves them. */
  lemma AdoptedView(t: Node, ms: seq<NodeId>, x: NodeId)
    requires ValidTree(t) && Separate(t, ms)
    ensures var ns := Adopt(DetachSeq(t, ms).1, x);
      && UniqueList(ns) && IdsList(ns) == GoneIds(t, ms) && GoneIds(t, ms) <= Ids(t)
      && ChildIds(ns) == ms
      && ViewList(ns) == Regrafted(View(t), GoneIds(t, ms), Roots(ms), x)
      && (forall k :: 0 <= k < |ns| ==> Linked(ns[k]))
  {
    DetachSeqOuts(t, ms);
    AdoptedIds(t, ms, DetachSeq(t, ms).1, x);
    AdoptedViewList(t, ms, DetachSeq(t, ms).1, x);
  }

  /** The head of a separate list against its tail. */
  lemma SeparateTail(t: Node, ms: seq<NodeId>)
    requires ValidTree(t) && Separate(t, ms) && ms != []
    ensures Separate(t, ms[1..])
    ensures Ids(Find(t, ms[0])) !! GoneIds(t, ms[1..])
    ensures forall y :: y in Ids(Find(t, ms[0])) && y != ms[0] ==> y !in ms
  {
    var c, tail := ms[0], ms[1..];
    forall j, k | 0 <= j < |tail| && 0 <= k < |tail| && j != k ensures tail[j] !in Ids(Find(t, tail[k])) {
      assert tail[j] == ms[j + 1] && tail[k] == ms[k + 1];
    }
    forall y | y in Ids(Find(t, c)) && y in GoneIds(t, tail) ensures false {
      GoneIdsSpec(t, tail, y);
      var k :| 0 <= k < |tail| && y in Ids(Find(t, tail[k]));
      assert tail[k] == ms[k + 1];
      SubtreesDisjoint(t, c, tail[k]);
    }
  }

  lemma {:induction false} AdoptedIds(t: Node, ms: seq<NodeId>, outs: seq<Node>, x: NodeId)
    requires ValidTree(t) && Separate(t, ms) && |outs| == |ms|
    requires forall k :: 0 <= k < |ms| ==> outs[k] == WithParent(Find(t, ms[k]), None)
    ensures var ns := Adopt(outs, x);
      && UniqueList(ns) && IdsList(ns) == GoneIds(t, ms) && GoneIds(t, ms) <= Ids(t)
      && ChildIds(ns) == ms
      && (forall k :: 0 <= k < |ns| ==> Linked(ns[k]))
    decreases |ms|
  {
    var ns := Adopt(outs, x);
    if ms == [] {
      assert ns == [];
    } else {
      var c := ms[0];
      SeparateTail(t, ms);
      AdoptedIds(t, ms[1..], outs[1..], x);
      assert Adopt(outs[1..], x) == ns[1..];
      var f := Find(t, c);
      FindInside(t, c);
      LinkedFind(t, c);
      WithParentView(f, None);
      WithParentView(WithParent(f, None), Some(x));
      assert ns[0] == WithParent(WithParent(f, None), Some(x));
      assert ChildIds(ns) == [c] + ChildIds(ns[1..]);
      assert ms == [c] + ms[1..];
      forall k | 0 <= k < |ns| ensures Linked(ns[k]) {
        if k > 0 { assert ns[k] == ns[1..][k - 1]; }
      }
    }
  }

  /** One more regrafted subtree, on maps: `f` is the view of the subtree under `c`, whose nodes are `fids`. */
  lemma RegraftStep(v: map<NodeId, Rec>, f: map<NodeId, Rec>, fids: set<NodeId>, c: NodeId, x: NodeId,
                    g: set<NodeId>, cut: set<NodeId>, rest: map<NodeId, Rec>, gAll: set<NodeId>, cutAll: set<NodeId>)
    requires f.Keys == fids && fids <= v.Keys && g <= v.Keys && c in fids && fids !! g
    requires forall y :: y in fids ==> f[y] == v[y]
    requires forall y :: y in fids ==> y !in cut
    requires rest == Regrafted(v, g, cut, x)
    requires gAll == fids + g && cutAll == cut + {c}
    ensures f[c := v[c].(parent := Some(x))] + rest == Regrafted(v, gAll, cutAll, x)
  {
  }

  /** The first removed subtree against the others: disjoint, and its nodes not among the other roots. */
  lemma AdoptedHeadSets(t: Node, ms: seq<NodeId>)
    requires ValidTree(t) && Separate(t, ms) && ms != []
    ensures var f := Find(t, ms[0]);
      && Separate(t, ms[1..]) && Ids(f) !! GoneIds(t, ms[1..]) && Ids(f) <= Ids(t) && GoneIds(t, ms[1..]) <= Ids(t)
      && (forall y :: y in Ids(f) ==> y !in (set z | z in ms[1..]))
      && GoneIds(t, ms) == Ids(f) + GoneIds(t, ms[1..])
      && (set z | z in ms) == (set z | z in ms[1..]) + {ms[0]}
  {
    var c, tail := ms[0], ms[1..];
    var f := Find(t, c);
    SeparateTail(t, ms);
    FindInside(t, c);
    forall y | y in GoneIds(t, tail) ensures y in Ids(t) {
      GoneIdsSpec(t, tail, y);
      var k :| 0 <= k < |tail| && y in Ids(Find(t, tail[k]));
      FindInside(t, tail[k]);
    }
    forall y | y in Ids(f) ensures y !in (set z | z in tail) {
      if y != c { assert y !in ms; assert y !in tail; } else { assert c !in tail; }
    }
    SeqSet(ms);
  }

  /** The first regrafted subtree's records. */
  lemma AdoptedHeadView(t: Node, ms: seq<NodeId>, outs: seq<Node>, x: NodeId)
    requires ValidTree(t) && Separate(t, ms) && |outs| == |ms| && ms != []
    requires forall k :: 0 <= k < |ms| ==> outs[k] == WithParent(Find(t, ms[k]), None)
    ensures var f := Find(t, ms[0]);
      && (forall y :: y in Ids(f) ==> y in View(t) && View(f)[y] == View(t)[y])
      && (forall k :: 0 <= k < |ms[1..]| ==> outs[1..][k] == WithParent(Find(t, ms[1..][k]), None))
      && ViewList(Adopt(outs, x)) == View(f)[ms[0] := View(t)[ms[0]].(parent := Some(x))] + ViewList(Adopt(outs[1..], x))
  {
    var c := ms[0];
    var f := Find(t, c);
    ViewOfFind(t, c);
    ViewFind(t, c);
    AdoptCons(outs, x);
    assert WithParent(outs[0], Some(x)) == WithParent(f, Some(x));
    WithParentView(f, Some(x));
  }

  lemma {:induction false} AdoptedViewList(t: Node, ms: seq<NodeId>, outs: seq<Node>, x: NodeId)
    requires ValidTree(t) && Separate(t, ms) && |outs| == |ms|
    requires forall k :: 0 <= k < |ms| ==> outs[k] == WithParent(Find(t, ms[k]), None)
    ensures GoneIds(t, ms) <= Ids(t)
    ensures ViewList(Adopt(outs, x)) == Regrafted(View(t), GoneIds(t, ms), Roots(ms), x)
    decreases |ms|
  {
    if ms == [] {
      var none: set<NodeId> := Roots(ms);
      assert Adopt(outs, x) == [] && none == {} && GoneIds(t, ms) == {};
      assert ViewList(Adopt(outs, x)) == Regrafted(View(t), GoneIds(t, ms), none, x);
    } else {
      AdoptedHeadSets(t, ms);
      AdoptedHeadView(t, ms, outs, x);
      AdoptedViewList(t, ms[1..], outs[1..], x);
      var f := Find(t, ms[0]);
      RegraftStep(View(t), View(f), Ids(f), ms[0], x, GoneIds(t, ms[1..]), (set z | z in ms[1..]),
        ViewList(Adopt(outs[1..], x)), GoneIds(t, ms), Roots(ms));
    }
  }

  // ---------------------------------------------------------------------
  // Inserting several nodes at consecutive positions

  /** `for pos, node in enumerate(nodes, first): nodeParent.insert(pos, node)` */
  function AttachSeq(t: Node, p: NodeId, pos: int, ns: seq<Node>): Node
    requires Unique(t) && p in Ids(t) && Find(t, p).Sequence?
    requires UniqueList(ns) && IdsList(ns) !! Ids(t)
    decreases |ns|
  {
    if ns == [] then t
    else
      AttachIds(t, p, pos, ns[0]);
      ListSplitUnique(ns, 0);
      FindInside(t, p);
      AttachFind(t, p, pos, ns[0]);
      AttachSeq(Attach(t, p, pos, ns[0]), p, pos + 1, ns[1..])
  }

  /** After an attach, the sequence node `p` is still found and still a sequence node. */
  lemma AttachFind(t: Node, p: NodeId, pos: int, sub: Node)
    requires Unique(t) && p in Ids(t) && Find(t, p).Sequence? && Unique(sub) && Ids(sub) !! Ids(t)
    ensures p in Ids(Attach(t, p, pos, sub)) && Find(Attach(t, p, pos, sub), p).Sequence?
  {
    var f := Find(t, p);
    FindInside(t, p);
    InsertIds(f, pos, sub);
    var s := Insert(f, pos, sub);
    assert CanReplace(t, p, s);
    assert p in Ids(s);
    ReplaceFindInside(t, p, s, p);
  }

  /** The ids `xs` inserted one after the other from position `pos` on (clamped to the end, as `list.insert` does). */
  function Splice(kids: seq<NodeId>, pos: nat, xs: seq<NodeId>): (r: seq<NodeId>)
    ensures |r| == |kids| + |xs|
  {
    var q := if pos <= |kids| then pos else |kids|;
    kids[..q] + xs + kids[q..]
  }

  lemma SpliceStep(kids: seq<NodeId>, pos: nat, x: NodeId, rest: seq<NodeId>)
    ensures Splice(PyLists.Insert(kids, pos, x), pos + 1, rest) == Splice(kids, pos, [x] + rest)
  {
    var q := if pos <= |kids| then pos else |kids|;
    var k1 := PyLists.Insert(kids, pos, x);
    assert PyLists.InsertPos(|kids|, pos) == q;
    assert k1 == kids[..q] + [x] + kids[q..];
    assert k1[..q + 1] == kids[..q] + [x];
    assert k1[q + 1..] == kids[q..];
  }

  lemma SpliceNothing(kids: seq<NodeId>, pos: nat)
    ensures Splice(kids, pos, []) == kids
  {
    var q := if pos <= |kids| then pos else |kids|;
    assert kids[..q] + kids[q..] == kids;
  }

  lemma MapUpdateUnion<K, V>(v: map<K, V>, k: K, a: V, b: V, w: map<K, V>, rest: map<K, V>)
    requires k !in w.Keys
    ensures (v[k := a] + w)[k := b] + rest == v[k := b] + (w + rest)
  {
  }

  lemma {:induction false} AttachSeqIds(t: Node, p: NodeId, pos: int, ns: seq<Node>)
    requires Unique(t) && p in Ids(t) && Find(t, p).Sequence?
    requires UniqueList(ns) && IdsList(ns) !! Ids(t)
    ensures var t' := AttachSeq(t, p, pos, ns);
      && Unique(t') && t'.id == t.id && t'.parent == t.parent && t'.Sequence? == t.Sequence?
      && Ids(t') == Ids(t) + IdsList(ns) && p in Ids(t') && Find(t', p).Sequence?
    decreases |ns|
  {
    if ns != [] {
      AttachFirst(t, p, pos, ns);
      AttachSeqIds(Attach(t, p, pos, ns[0]), p, pos + 1, ns[1..]);
    }
  }

  lemma {:induction false} AttachSeqLinked(t: Node, p: NodeId, pos: int, ns: seq<Node>)
    requires Unique(t) && p in Ids(t) && Find(t, p).Sequence?
    requires UniqueList(ns) && IdsList(ns) !! Ids(t)
    requires Linked(t) && forall k :: 0 <= k < |ns| ==> Linked(ns[k])
    ensures Linked(AttachSeq(t, p, pos, ns))
    decreases |ns|
  {
    if ns != [] {
      AttachFirst(t, p, pos, ns);
      assert forall k :: 0 <= k < |ns[1..]| ==> ns[1..][k] == ns[k + 1];
      AttachSeqLinked(Attach(t, p, pos, ns[0]), p, pos + 1, ns[1..]);
    }
  }

  lemma ChildIdsCons(ns: seq<Node>)
    requires ns != []
    ensures ChildIds(ns) == [ns[0].id] + ChildIds(ns[1..])
  {
    assert ns == [ns[0]] + ns[1..];
    ChildIdsAppend([ns[0]], ns[1..]);
  }

  lemma AdoptCons(ns: seq<Node>, p: NodeId)
    requires ns != []
    ensures ViewList(Adopt(ns, p)) == View(WithParent(ns[0], Some(p))) + ViewList(Adopt(ns[1..], p))
  {
    assert Adopt(ns, p) == [WithParent(ns[0], Some(p))] + Adopt(ns[1..], p);
  }

  /** One more insertion at the front of a consecutive run, on maps: `w` is the view of the inserted node. */
  lemma SpliceCompose(v: map<NodeId, Rec>, p: NodeId, pos: nat, x: NodeId, w: map<NodeId, Rec>,
                      xs: seq<NodeId>, rest: map<NodeId, Rec>)
    requires p in v && p !in w
    ensures var v1 := v[p := v[p].(children := PyLists.Insert(v[p].children, pos, x))] + w;
      v1[p := v1[p].(children := Splice(v1[p].children, pos + 1, xs))] + rest
      == v[p := v[p].(children := Splice(v[p].children, pos, [x] + xs))] + (w + rest)
  {
    var kids := v[p].children;
    SpliceStep(kids, pos, x, xs);
    MapUpdateUnion(v, p, v[p].(children := PyLists.Insert(kids, pos, x)),
      v[p].(children := Splice(kids, pos, [x] + xs)), w, rest);
  }

  /** The first insertion of a run. */
  lemma AttachFirst(t: Node, p: NodeId, pos: int, ns: seq<Node>)
    requires Unique(t) && p in Ids(t) && Find(t, p).Sequence?
    requires UniqueList(ns) && IdsList(ns) !! Ids(t) && ns != []
    ensures p in View(t)
    ensures var t1 := Attach(t, p, pos, ns[0]);
      var w0 := View(WithParent(ns[0], Some(p)));
      && Unique(t1) && p in Ids(t1) && Find(t1, p).Sequence? && UniqueList(ns[1..]) && IdsList(ns[1..]) !! Ids(t1)
      && t1.id == t.id && t1.parent == t.parent && t1.Sequence? == t.Sequence?
      && Ids(t1) == Ids(t) + Ids(ns[0]) && IdsList(ns) == Ids(ns[0]) + IdsList(ns[1..])
      && View(t1) == View(t)[p := View(t)[p].(children := PyLists.Insert(View(t)[p].children, pos, ns[0].id))] + w0
      && p !in w0.Keys
      && AttachSeq(t, p, pos, ns) == AttachSeq(t1, p, pos + 1, ns[1..])
      && (Linked(t) && Linked(ns[0]) ==> Linked(t1))
  {
    var n0 := ns[0];
    FindInside(t, p);
    ListSplitUnique(ns, 0);
    AttachIds(t, p, pos, n0);
    AttachView(t, p, pos, n0);
    AttachFind(t, p, pos, n0);
    assert ns[..0] == [];
    ListSplit(ns, 0);
    WithParentView(n0, Some(p));
    if Linked(t) && Linked(n0) { AttachLinked(t, p, pos, n0); }
  }

  lemma AttachSeqNil(t: Node, p: NodeId, pos: nat)
    requires Unique(t) && p in Ids(t) && Find(t, p).Sequence?
    ensures p in View(t)
    ensures View(AttachSeq(t, p, pos, []))
         == View(t)[p := View(t)[p].(children := Splice(View(t)[p].children, pos, ChildIds([])))]
            + ViewList(Adopt([], p))
  {
    var v := View(t);
    SpliceNothing(v[p].children, pos);
    assert ChildIds([]) == [];
    assert v[p := v[p].(children := v[p].children)] == v;
    assert ViewList(Adopt([], p)) == map[];
  }

  /** The insertion positions `first, first + 1, ...` land consecutively, at `first` or at the end when `first` is past it. */
  lemma {:induction false} AttachSeqView(t: Node, p: NodeId, pos: nat, ns: seq<Node>)
    requires Unique(t) && p in Ids(t) && Find(t, p).Sequence?
    requires UniqueList(ns) && IdsList(ns) !! Ids(t)
    ensures p in View(t)
    ensures View(AttachSeq(t, p, pos, ns))
         == View(t)[p := View(t)[p].(children := Splice(View(t)[p].children, pos, ChildIds(ns)))]
            + ViewList(Adopt(ns, p))
    decreases |ns|
  {
    if ns == [] {
      AttachSeqNil(t, p, pos);
    } else {
      AttachFirst(t, p, pos, ns);
      var t1 := Attach(t, p, pos, ns[0]);
      AttachSeqView(t1, p, pos + 1, ns[1..]);
      ChildIdsCons(ns);
      AdoptCons(ns, p);
      SpliceCompose(View(t), p, pos, ns[0].id, View(WithParent(ns[0], Some(p))), ChildIds(ns[1..]), ViewList(Adopt(ns[1..], p)));
    }
  }
}
