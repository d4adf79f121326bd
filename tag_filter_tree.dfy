/**
 * Whole-tree structure of the tag-filter tree: the ids a subtree holds,
 * uniqueness of node identity, the arena view (id -> kind/name, parent
 * back-reference, child ids) in which the edit engine is specified, and
 * the two primitive edits every engine operation is made of: detaching a
 * child from its sequence node and attaching a node into one.
 */
module TagFilterTree {
  import opened Wrappers
  import opened TagFilterNodes
  import PyLists

  function Ids(n: Node): set<NodeId>
    decreases n, 1
  {
    match n
    case Leaf(id, _, _) => {id}
    case Sequence(id, _, _, ts) => {id} + IdsList(ts)
  }

  function IdsList(ts: seq<Node>): set<NodeId>
    decreases ts, 0
  {
    if ts == [] then {} else Ids(ts[0]) + IdsList(ts[1..])
  }

  /** No node instance appears twice in the subtree. */
  predicate Unique(n: Node)
    decreases n, 1
  {
    match n
    case Leaf(_, _, _) => true
    case Sequence(id, _, _, ts) => id !in IdsList(ts) && UniqueList(ts)
  }

  predicate UniqueList(ts: seq<Node>)
    decreases ts, 0
  {
    ts == [] || (Unique(ts[0]) && Ids(ts[0]) !! IdsList(ts[1..]) && UniqueList(ts[1..]))
  }

  datatype Label = LeafLabel(name: string) | SeqLabel(kind: SeqKind)

  /** One arena record: what the node is, its back-reference and its child ids in order. */
  datatype Rec = Rec(what: Label, parent: Option<NodeId>, children: seq<NodeId>)

  function RecOf(n: Node): Rec
  {
    match n
    case Leaf(_, name, p) => Rec(LeafLabel(name), p, [])
    case Sequence(_, k, p, ts) => Rec(SeqLabel(k), p, ChildIds(ts))
  }

  /** The arena view of a subtree. */
  function View(n: Node): (v: map<NodeId, Rec>)
    decreases n, 1
    ensures v.Keys == Ids(n)
  {
    match n
    case Leaf(id, _, _) => map[id := RecOf(n)]
    case Sequence(id, _, _, ts) => ViewList(ts)[id := RecOf(n)]
  }

  function ViewList(ts: seq<Node>): (v: map<NodeId, Rec>)
    decreases ts, 0
    ensures v.Keys == IdsList(ts)
  {
    if ts == [] then map[] else View(ts[0]) + ViewList(ts[1..])
  }

  /** The subtree rooted at the node with id `x`. */
  function Find(n: Node, x: NodeId): (r: Node)
    requires x in Ids(n)
    decreases n, 1
    ensures r.id == x
  {
    match n
    case Leaf(_, _, _) => n
    case Sequence(id, _, _, ts) => if id == x then n else FindList(ts, x)
  }

  function FindList(ts: seq<Node>, x: NodeId): (r: Node)
    requires x in IdsList(ts)
    decreases ts, 0
    ensures r.id == x
  {
    if x in Ids(ts[0]) then Find(ts[0], x) else FindList(ts[1..], x)
  }

  // ---------------------------------------------------------------------
  // Basic facts

  /** Cutting a child list in two at position `p`. */
  lemma {:induction false} ListCutIds(ts: seq<Node>, p: nat)
    requires p <= |ts|
    ensures IdsList(ts) == IdsList(ts[..p]) + IdsList(ts[p..])
  {
    if p == 0 {
      assert ts[..0] == [] && ts[0..] == ts;
    } else {
      ListCutIds(ts[1..], p - 1);
      assert ts[1..][..p - 1] == ts[..p][1..] && ts[1..][p - 1..] == ts[p..];
    }
  }

  lemma {:induction false} ListCutView(ts: seq<Node>, p: nat)
    requires p <= |ts|
    ensures ViewList(ts) == ViewList(ts[..p]) + ViewList(ts[p..])
  {
    if p == 0 {
      assert ts[..0] == [] && ts[0..] == ts;
      assert map[] + ViewList(ts) == ViewList(ts);
    } else {
      ListCutView(ts[1..], p - 1);
      assert ts[1..][..p - 1] == ts[..p][1..] && ts[1..][p - 1..] == ts[p..];
      MapUnionAssoc(View(ts[0]), ViewList(ts[..p][1..]), ViewList(ts[p..]));
    }
  }

  lemma {:induction false} ListCutUnique(ts: seq<Node>, p: nat)
    requires p <= |ts|
    ensures UniqueList(ts) <==>
      UniqueList(ts[..p]) && UniqueList(ts[p..]) && IdsList(ts[..p]) !! IdsList(ts[p..])
  {
    if p == 0 {
      assert ts[..0] == [] && ts[0..] == ts;
    } else {
      ListCutUnique(ts[1..], p - 1);
      ListCutIds(ts[1..], p - 1);
      assert ts[1..][..p - 1] == ts[..p][1..] && ts[1..][p - 1..] == ts[p..];
    }
  }

  lemma ListOne(ts: seq<Node>)
    requires |ts| == 1
    ensures IdsList(ts) == Ids(ts[0]) && ViewList(ts) == View(ts[0]) && (UniqueList(ts) <==> Unique(ts[0]))
  {
    assert ts[1..] == [];
    assert View(ts[0]) + map[] == View(ts[0]);
  }

  lemma ListAppend(a: seq<Node>, b: seq<Node>)
    ensures IdsList(a + b) == IdsList(a) + IdsList(b)
    ensures ViewList(a + b) == ViewList(a) + ViewList(b)
    ensures UniqueList(a + b) <==> UniqueList(a) && UniqueList(b) && IdsList(a) !! IdsList(b)
  {
    var s := a + b;
    assert s[..|a|] == a && s[|a|..] == b;
    ListCutIds(s, |a|);
    ListCutView(s, |a|);
    ListCutUnique(s, |a|);
  }

  /** Splitting a child list around position `i`. */
  lemma ListSplit(ts: seq<Node>, i: nat)
    requires i < |ts|
    ensures IdsList(ts) == IdsList(ts[..i]) + Ids(ts[i]) + IdsList(ts[i + 1..])
    ensures ViewList(ts) == ViewList(ts[..i]) + View(ts[i]) + ViewList(ts[i + 1..])
  {
    ListSplitIds(ts, i);
    ListSplitView(ts, i);
  }

  lemma {:induction false} ListSplitIds(ts: seq<Node>, i: nat)
    requires i < |ts|
    ensures IdsList(ts) == IdsList(ts[..i]) + Ids(ts[i]) + IdsList(ts[i + 1..])
  {
    if i > 0 {
      ListSplitIds(ts[1..], i - 1);
      assert ts[1..][..i - 1] == ts[..i][1..];
      assert ts[1..][i - 1] == ts[i] && ts[1..][i..] == ts[i + 1..];
    }
  }

  lemma {:induction false} ListSplitView(ts: seq<Node>, i: nat)
    requires i < |ts|
    ensures ViewList(ts) == ViewList(ts[..i]) + View(ts[i]) + ViewList(ts[i + 1..])
  {
    if i == 0 {
      assert ViewList(ts[..0]) == map[];
      assert map[] + View(ts[0]) == View(ts[0]);
    } else {
      ListSplitView(ts[1..], i - 1);
      assert ts[1..][..i - 1] == ts[..i][1..];
      assert ts[1..][i - 1] == ts[i] && ts[1..][i..] == ts[i + 1..];
      MapUnion3(View(ts[0]), ViewList(ts[..i][1..]), View(ts[i]), ViewList(ts[i + 1..]));
    }
  }

  lemma ListSplitUnique(ts: seq<Node>, i: nat)
    requires i < |ts|
    ensures UniqueList(ts) <==>
      UniqueList(ts[..i]) && Unique(ts[i]) && UniqueList(ts[i + 1..])
      && IdsList(ts[..i]) !! Ids(ts[i]) && IdsList(ts[..i]) !! IdsList(ts[i + 1..])
      && Ids(ts[i]) !! IdsList(ts[i + 1..])
  {
    ListCutUnique(ts, i);
    ListCutIds(ts, i);
    var post := ts[i..];
    assert post[1..] == ts[i + 1..] && post[0] == ts[i];
  }

  lemma MapUnion3<K, V>(a: map<K, V>, b: map<K, V>, c: map<K, V>, d: map<K, V>)
    ensures a + (b + c + d) == (a + b) + c + d
  {
  }

  lemma MapUnionAssoc<K, V>(a: map<K, V>, b: map<K, V>, c: map<K, V>)
    ensures a + (b + c) == (a + b) + c
  {
  }

  /** Editing the left operand of a union whose right operand is untouched. */
  lemma MapEditLeft<K, V>(a: map<K, V>, b: map<K, V>, o: set<K>, n: map<K, V>)
    requires b.Keys !! o && b.Keys !! n.Keys
    ensures ((a - o) + n) + b == ((a + b) - o) + n
  {
  }

  /** Editing the right operand of a union whose left operand is untouched. */
  lemma MapEditRight<K, V>(a: map<K, V>, b: map<K, V>, o: set<K>, n: map<K, V>)
    requires a.Keys !! o && a.Keys !! n.Keys
    ensures a + ((b - o) + n) == ((a + b) - o) + n
  {
  }

  /** Each child's ids are among the list's ids; the child's id lists them. */
  lemma ChildInList(ts: seq<Node>, i: nat)
    requires i < |ts|
    ensures Ids(ts[i]) <= IdsList(ts)
    ensures UniqueList(ts) ==> Unique(ts[i])
  {
    ListSplit(ts, i);
    ListSplitUnique(ts, i);
  }

  lemma {:induction false} ChildIdsInList(ts: seq<Node>)
    ensures forall c :: c in ChildIds(ts) ==> c in IdsList(ts)
  {
    forall c | c in ChildIds(ts) ensures c in IdsList(ts) {
      var i :| 0 <= i < |ts| && ChildIds(ts)[i] == c;
      ChildInList(ts, i);
      assert c in Ids(ts[i]) by { assert ts[i].id == c; }
    }
  }

  /** Under uniqueness the child ids of a node are pairwise distinct. */
  lemma {:induction false} ChildIdsNoDup(ts: seq<Node>)
    requires UniqueList(ts)
    ensures PyLists.NoDup(ChildIds(ts))
  {
    forall i, j | 0 <= i < j < |ts| ensures ts[i].id != ts[j].id {
      var rest := ts[i + 1..];
      assert Ids(ts[i]) !! IdsList(rest) by { ListSplitUnique(ts, i); }
      assert ts[j] == rest[j - i - 1];
      assert Ids(ts[j]) <= IdsList(rest) by { ChildInList(rest, j - i - 1); }
      assert ts[i].id in Ids(ts[i]) && ts[j].id in Ids(ts[j]);
    }
    var c := ChildIds(ts);
    assert forall i, j :: 0 <= i < j < |c| ==> c[i] == ts[i].id && c[j] == ts[j].id;
  }

  /** The subtree found under `x` lies inside the tree and is itself unique. */
  lemma {:induction false} FindInside(n: Node, x: NodeId)
    requires x in Ids(n)
    ensures Ids(Find(n, x)) <= Ids(n)
    ensures Unique(n) ==> Unique(Find(n, x))
    decreases n, 1
  {
    match n
    case Leaf(_, _, _) =>
    case Sequence(id, _, _, ts) =>
      if id != x { FindInsideList(ts, x); }
  }

  lemma {:induction false} FindInsideList(ts: seq<Node>, x: NodeId)
    requires x in IdsList(ts)
    ensures Ids(FindList(ts, x)) <= IdsList(ts)
    ensures UniqueList(ts) ==> Unique(FindList(ts, x))
    decreases ts, 0
  {
    if x in Ids(ts[0]) { FindInside(ts[0], x); } else { FindInsideList(ts[1..], x); }
  }

  /** The arena record of `x` is the record of the subtree found under `x`. */
  lemma {:induction false} ViewFind(n: Node, x: NodeId)
    requires Unique(n) && x in Ids(n)
    ensures View(n)[x] == RecOf(Find(n, x))
    decreases n, 1
  {
    match n
    case Leaf(_, _, _) =>
    case Sequence(id, _, _, ts) =>
      if id != x { ViewFindList(ts, x); }
  }

  lemma {:induction false} ViewFindList(ts: seq<Node>, x: NodeId)
    requires UniqueList(ts) && x in IdsList(ts)
    ensures ViewList(ts)[x] == RecOf(FindList(ts, x))
    decreases ts, 0
  {
    if x in Ids(ts[0]) {
      ViewFind(ts[0], x);
    } else {
      ViewFindList(ts[1..], x);
    }
  }

  /** The view of a subtree found under `x` is the restriction of the tree's view. */
  lemma {:induction false} ViewOfFind(n: Node, x: NodeId)
    requires Unique(n) && x in Ids(n)
    ensures forall y :: y in Ids(Find(n, x)) ==> y in View(n) && View(n)[y] == View(Find(n, x))[y]
    decreases n, 1
  {
    match n
    case Leaf(_, _, _) =>
    case Sequence(id, _, _, ts) =>
      if id != x { ViewOfFindList(ts, x); }
  }

  lemma {:induction false} ViewOfFindList(ts: seq<Node>, x: NodeId)
    requires UniqueList(ts) && x in IdsList(ts)
    ensures forall y :: y in Ids(FindList(ts, x)) ==> y in ViewList(ts) && ViewList(ts)[y] == View(FindList(ts, x))[y]
    decreases ts, 0
  {
    if x in Ids(ts[0]) {
      ViewOfFind(ts[0], x);
      FindInside(ts[0], x);
    } else {
      ViewOfFindList(ts[1..], x);
      FindInsideList(ts[1..], x);
    }
  }

  /** The record a subtree's view gives its own root. */
  lemma ViewRoot(n: Node)
    requires Unique(n)
    ensures View(n)[n.id] == RecOf(n)
  {
  }

  /** The arena view is closed: every child id it lists is a node of the view. */
  lemma {:induction false} ViewClosed(n: Node)
    requires Unique(n)
    ensures forall x, c :: x in View(n) && c in View(n)[x].children ==> c in View(n)
  {
    forall x, c | x in View(n) && c in View(n)[x].children ensures c in View(n) {
      ViewFind(n, x);
      FindInside(n, x);
      var f := Find(n, x);
      if f.Sequence? {
        ChildIdsInList(f.tagList);
      }
    }
  }

  // ---------------------------------------------------------------------
  // Replacing one subtree

  /** The tree with the subtree under `x` replaced by `sub`. */
  function Replace(n: Node, x: NodeId, sub: Node): Node
    decreases n, 1
  {
    if n.id == x then sub
    else match n
      case Leaf(_, _, _) => n
      case Sequence(id, k, p, ts) => Sequence(id, k, p, ReplaceList(ts, x, sub))
  }

  function ReplaceList(ts: seq<Node>, x: NodeId, sub: Node): (r: seq<Node>)
    decreases ts, 0
    ensures |r| == |ts|
  {
    if ts == [] then [] else [Replace(ts[0], x, sub)] + ReplaceList(ts[1..], x, sub)
  }

  lemma {:induction false} ReplaceAbsent(n: Node, x: NodeId, sub: Node)
    requires x !in Ids(n)
    ensures Replace(n, x, sub) == n
    decreases n, 1
  {
    match n
    case Leaf(_, _, _) =>
    case Sequence(id, k, p, ts) => ReplaceAbsentList(ts, x, sub);
  }

  lemma {:induction false} ReplaceAbsentList(ts: seq<Node>, x: NodeId, sub: Node)
    requires x !in IdsList(ts)
    ensures ReplaceList(ts, x, sub) == ts
    decreases ts, 0
  {
    if ts != [] {
      ReplaceAbsent(ts[0], x, sub);
      ReplaceAbsentList(ts[1..], x, sub);
    }
  }

  lemma {:induction false} ReplaceKeepsChildIds(ts: seq<Node>, x: NodeId, sub: Node)
    requires sub.id == x
    ensures ChildIds(ReplaceList(ts, x, sub)) == ChildIds(ts)
  {
    if ts != [] {
      ReplaceKeepsChildIds(ts[1..], x, sub);
      var r := ReplaceList(ts, x, sub);
      assert r == [Replace(ts[0], x, sub)] + ReplaceList(ts[1..], x, sub);
      forall i | 0 <= i < |ts| ensures r[i].id == ts[i].id {
        if i > 0 { assert r[i] == ReplaceList(ts[1..], x, sub)[i - 1]; }
      }
    }
  }

  /** Preconditions under which replacing the subtree under `x` by `sub` keeps identities unique. */
  predicate CanReplace(n: Node, x: NodeId, sub: Node)
  {
    Unique(n) && x in Ids(n) && Unique(sub) && sub.id == x
    && Ids(sub) !! (Ids(n) - Ids(Find(n, x)))
  }

  lemma {:induction false} ReplaceIds(n: Node, x: NodeId, sub: Node)
    requires CanReplace(n, x, sub)
    ensures Unique(Replace(n, x, sub)) && Replace(n, x, sub).id == n.id
    ensures Ids(Replace(n, x, sub)) == (Ids(n) - Ids(Find(n, x))) + Ids(sub)
    decreases n, 1
  {
    match n
    case Leaf(_, _, _) =>
    case Sequence(id, k, p, ts) =>
      if id != x {
        FindInsideList(ts, x);
        ReplaceIdsList(ts, x, sub);
      }
  }

  lemma {:induction false} ReplaceIdsList(ts: seq<Node>, x: NodeId, sub: Node)
    requires UniqueList(ts) && x in IdsList(ts) && Unique(sub) && sub.id == x
    requires Ids(sub) !! (IdsList(ts) - Ids(FindList(ts, x)))
    ensures UniqueList(ReplaceList(ts, x, sub))
    ensures IdsList(ReplaceList(ts, x, sub)) == (IdsList(ts) - Ids(FindList(ts, x))) + Ids(sub)
    decreases ts, 0
  {
    var r := ReplaceList(ts, x, sub);
    assert r[1..] == ReplaceList(ts[1..], x, sub);
    assert r[0] == Replace(ts[0], x, sub);
    if x in Ids(ts[0]) {
      FindInside(ts[0], x);
      ReplaceIds(ts[0], x, sub);
      ReplaceAbsentList(ts[1..], x, sub);
    } else {
      FindInsideList(ts[1..], x);
      ReplaceAbsent(ts[0], x, sub);
      ReplaceIdsList(ts[1..], x, sub);
    }
  }

  lemma {:induction false} ReplaceView(n: Node, x: NodeId, sub: Node)
    requires CanReplace(n, x, sub)
    ensures View(Replace(n, x, sub)) == (View(n) - Ids(Find(n, x))) + View(sub)
    decreases n, 1
  {
    match n
    case Leaf(_, _, _) =>
    case Sequence(id, k, p, ts) =>
      if id != x {
        FindInsideList(ts, x);
        ReplaceViewList(ts, x, sub);
        ReplaceKeepsChildIds(ts, x, sub);
        var o, nv := Ids(Find(n, x)), View(sub);
        assert id !in o && id !in nv;
        assert RecOf(Replace(n, x, sub)) == RecOf(n);
        MapUpdateFar(ViewList(ts), o, nv, id, RecOf(n));
      }
  }

  lemma MapUpdateFar<K, V>(l: map<K, V>, o: set<K>, nv: map<K, V>, k: K, r: V)
    requires k !in o && k !in nv
    ensures ((l - o) + nv)[k := r] == (l[k := r] - o) + nv
  {
  }

  lemma {:induction false} ReplaceViewList(ts: seq<Node>, x: NodeId, sub: Node)
    requires UniqueList(ts) && x in IdsList(ts) && Unique(sub) && sub.id == x
    requires Ids(sub) !! (IdsList(ts) - Ids(FindList(ts, x)))
    ensures ViewList(ReplaceList(ts, x, sub)) == (ViewList(ts) - Ids(FindList(ts, x))) + View(sub)
    decreases ts, 0
  {
    var r := ReplaceList(ts, x, sub);
    assert r[1..] == ReplaceList(ts[1..], x, sub);
    assert r[0] == Replace(ts[0], x, sub);
    var o, nv := Ids(FindList(ts, x)), View(sub);
    if x in Ids(ts[0]) {
      FindInside(ts[0], x);
      ReplaceView(ts[0], x, sub);
      ReplaceAbsentList(ts[1..], x, sub);
      MapEditLeft(View(ts[0]), ViewList(ts[1..]), o, nv);
    } else {
      FindInsideList(ts[1..], x);
      ReplaceAbsent(ts[0], x, sub);
      ReplaceViewList(ts[1..], x, sub);
      MapEditRight(View(ts[0]), ViewList(ts[1..]), o, nv);
    }
  }

  // ---------------------------------------------------------------------
  // Finding inside a child

  /** In a unique list, looking up an id of the `i`-th child looks inside that child. */
  lemma {:induction false} FindListIn(ts: seq<Node>, i: nat, y: NodeId)
    requires UniqueList(ts) && i < |ts| && y in Ids(ts[i])
    ensures y in IdsList(ts) && FindList(ts, y) == Find(ts[i], y)
  {
    ChildInList(ts, i);
    if i > 0 {
      assert ts[i] == ts[1..][i - 1];
      ChildInList(ts[1..], i - 1);
      FindListIn(ts[1..], i - 1, y);
    }
  }

  /** Looking up an id below `x` inside the subtree found under `x` gives the same subtree. */
  lemma {:induction false} FindFind(n: Node, x: NodeId, y: NodeId)
    requires Unique(n) && x in Ids(n) && y in Ids(Find(n, x))
    ensures y in Ids(n) && Find(Find(n, x), y) == Find(n, y)
    decreases n, 1
  {
    FindInside(n, x);
    match n
    case Leaf(_, _, _) =>
    case Sequence(id, _, _, ts) =>
      if id != x { FindFindList(ts, x, y); }
  }

  lemma {:induction false} FindFindList(ts: seq<Node>, x: NodeId, y: NodeId)
    requires UniqueList(ts) && x in IdsList(ts) && y in Ids(FindList(ts, x))
    ensures y in IdsList(ts) && Find(FindList(ts, x), y) == FindList(ts, y)
    decreases ts, 0
  {
    if x in Ids(ts[0]) {
      FindFind(ts[0], x, y);
      FindListIn(ts, 0, y);
    } else {
      FindInsideList(ts[1..], x);
      FindFindList(ts[1..], x, y);
      assert y !in Ids(ts[0]);
    }
  }

  // ---------------------------------------------------------------------
  // Back-references

  /** Every child of a sequence node points back at it, all the way down. */
  predicate Linked(n: Node)
    decreases n
  {
    match n
    case Leaf(_, _, _) => true
    case Sequence(id, _, _, ts) =>
      forall i :: 0 <= i < |ts| ==> ts[i].parent == Some(id) && Linked(ts[i])
  }

  lemma {:induction false} LinkedFind(n: Node, x: NodeId)
    requires Linked(n) && Unique(n) && x in Ids(n)
    ensures Linked(Find(n, x))
    decreases n, 1
  {
    match n
    case Leaf(_, _, _) =>
    case Sequence(id, _, _, ts) =>
      if id != x {
        var i := ChildHolding(ts, x);
        FindListIn(ts, i, x);
        ChildInList(ts, i);
        LinkedFind(ts[i], x);
      }
  }

  /** The position of the child whose subtree holds `y`. */
  lemma {:induction false} ChildHolding(ts: seq<Node>, y: NodeId) returns (i: nat)
    requires y in IdsList(ts)
    ensures i < |ts| && y in Ids(ts[i])
  {
    if y in Ids(ts[0]) {
      i := 0;
    } else {
      var j := ChildHolding(ts[1..], y);
      i := j + 1;
      assert ts[1..][j] == ts[i];
    }
  }

  /**
   * The parent back-reference of every non-root node names a sequence node
   * of the tree that lists it among its children; the root has none.
   */
  lemma {:induction false} ParentHolds(n: Node, y: NodeId)
    requires Linked(n) && Unique(n) && y in Ids(n) && y != n.id
    ensures Find(n, y).parent.Some?
    ensures var p := Find(n, y).parent.value;
      p in Ids(n) && p != y && Find(n, p).Sequence? && y in ChildIds(Find(n, p).tagList)
    decreases n
  {
    var ts := n.tagList;
    var i := ChildHolding(ts, y);
    FindListIn(ts, i, y);
    ChildInList(ts, i);
    if ts[i].id == y {
      assert ChildIds(ts)[i] == y;
    } else {
      ParentHolds(ts[i], y);
      var p := Find(ts[i], y).parent.value;
      FindListIn(ts, i, p);
      assert n.id !in Ids(ts[i]);
    }
  }

  // ---------------------------------------------------------------------
  // Node-level edits seen through the view

  lemma WithParentIds(n: Node, p: Option<NodeId>)
    ensures Ids(WithParent(n, p)) == Ids(n)
    ensures Unique(WithParent(n, p)) == Unique(n)
  {
    match n
    case Leaf(_, _, _) =>
    case Sequence(_, _, _, _) =>
  }

  lemma WithParentLinked(n: Node, p: Option<NodeId>)
    ensures Linked(WithParent(n, p)) == Linked(n)
  {
    match n
    case Leaf(_, _, _) =>
    case Sequence(_, _, _, _) =>
  }

  lemma WithParentView(n: Node, p: Option<NodeId>)
    ensures Ids(WithParent(n, p)) == Ids(n)
    ensures Unique(WithParent(n, p)) == Unique(n)
    ensures Linked(WithParent(n, p)) == Linked(n)
    ensures View(WithParent(n, p)) == View(n)[n.id := RecOf(n).(parent := p)]
  {
    WithParentIds(n, p);
    WithParentLinked(n, p);
    match n
    case Leaf(_, _, _) =>
    case Sequence(_, _, _, _) =>
  }

  lemma ChildIdsAppend(a: seq<Node>, b: seq<Node>)
    ensures ChildIds(a + b) == ChildIds(a) + ChildIds(b)
  {
  }

  lemma MapRemoveMiddle<K, V>(a: map<K, V>, b: map<K, V>, c: map<K, V>, k: K, x: V, y: V)
    requires a.Keys !! b.Keys && b.Keys !! c.Keys && k !in b.Keys
    ensures ((a + b + c)[k := x] - b.Keys)[k := y] == (a + c)[k := y]
  {
  }

  lemma MapInsertMiddle<K, V>(a: map<K, V>, b: map<K, V>, c: map<K, V>, k: K, x: V, y: V)
    requires a.Keys !! b.Keys && b.Keys !! c.Keys && k !in b.Keys
    ensures (a + c)[k := x][k := y] + b == (a + b + c)[k := y]
  {
  }

  /** The child `seq.remove(node)` takes out is the subtree found under `node`. */
  lemma {:induction false} RemoveIds(s: Node, c: NodeId)
    requires s.Sequence? && Unique(s) && c in ChildIds(s.tagList)
    ensures c in Ids(s) && c != s.id
    ensures Find(s, c) == s.tagList[PyLists.IndexOf(ChildIds(s.tagList), c)]
    ensures Remove(s, c).1 == WithParent(Find(s, c), None)
    ensures Unique(Remove(s, c).0) && Ids(Remove(s, c).0) == Ids(s) - Ids(Find(s, c))
  {
    var ts := s.tagList;
    var i := PyLists.IndexOf(ChildIds(ts), c);
    var r := Remove(s, c).0.tagList;
    assert r[..i] == ts[..i] && r[i..] == ts[i + 1..];
    ListSplitIds(ts, i);
    ListSplitUnique(ts, i);
    ListCutIds(r, i);
    ListCutUnique(r, i);
    assert ts[i].id in Ids(ts[i]);
    FindListIn(ts, i, c);
  }

  lemma RemoveRec(s: Node, c: NodeId)
    requires s.Sequence? && c in ChildIds(s.tagList)
    ensures RecOf(Remove(s, c).0) == RecOf(s).(children := PyLists.RemoveFirst(ChildIds(s.tagList), c))
  {
    var ts := s.tagList;
    var i := PyLists.IndexOf(ChildIds(ts), c);
    ChildIdsAppend(ts[..i], ts[i + 1..]);
    assert ChildIds(ts[..i]) == ChildIds(ts)[..i] && ChildIds(ts[i + 1..]) == ChildIds(ts)[i + 1..];
  }

  lemma {:induction false} RemoveView(s: Node, c: NodeId)
    requires s.Sequence? && Unique(s) && c in ChildIds(s.tagList)
    ensures c in Ids(s)
    ensures View(Remove(s, c).0) ==
      (View(s) - Ids(Find(s, c)))[s.id := RecOf(s).(children := PyLists.RemoveFirst(ChildIds(s.tagList), c))]
  {
    RemoveIds(s, c);
    RemoveRec(s, c);
    var ts := s.tagList;
    var i := PyLists.IndexOf(ChildIds(ts), c);
    var pre, t, post := ts[..i], ts[i], ts[i + 1..];
    var r := Remove(s, c).0;
    assert r.tagList[..i] == pre && r.tagList[i..] == post;
    ListSplitView(ts, i);
    ListSplitUnique(ts, i);
    ListSplitIds(ts, i);
    ListCutView(r.tagList, i);
    assert View(r) == (ViewList(pre) + ViewList(post))[s.id := RecOf(r)];
    assert View(s) == (ViewList(pre) + View(t) + ViewList(post))[s.id := RecOf(s)];
    MapRemoveMiddle(ViewList(pre), View(t), ViewList(post), s.id, RecOf(s), RecOf(r));
  }

  lemma {:induction false} RemoveLinked(s: Node, c: NodeId)
    requires s.Sequence? && Linked(s) && c in ChildIds(s.tagList)
    ensures Linked(Remove(s, c).0) && Linked(Remove(s, c).1)
  {
    var ts := s.tagList;
    var i := PyLists.IndexOf(ChildIds(ts), c);
    var rest := Remove(s, c).0.tagList;
    assert |rest| == |ts| - 1;
    forall j | 0 <= j < |rest| ensures rest[j].parent == Some(s.id) && Linked(rest[j]) {
      if j < i { assert rest[j] == ts[j]; } else { assert rest[j] == ts[j + 1]; }
    }
    assert Linked(WithParent(ts[i], None)) by { WithParentLinked(ts[i], None); }
  }

  lemma InsertChildIds(ts: seq<Node>, pos: int, x: Node)
    ensures ChildIds(PyLists.Insert(ts, pos, x)) == PyLists.Insert(ChildIds(ts), pos, x.id)
  {
    var q := PyLists.InsertPos(|ts|, pos);
    var r := PyLists.Insert(ts, pos, x);
    var l, m := ChildIds(r), PyLists.Insert(ChildIds(ts), pos, x.id);
    forall j | 0 <= j < |l| ensures l[j] == m[j] {
      if j < q {
        assert r[j] == r[..q][j] == ts[..q][j];
        assert m[j] == m[..q][j] == ChildIds(ts)[..q][j];
      } else if j > q {
        assert r[j] == r[q + 1..][j - q - 1] == ts[q..][j - q - 1];
        assert m[j] == m[q + 1..][j - q - 1] == ChildIds(ts)[q..][j - q - 1];
      }
    }
  }

  /** `seq.insert(pos, node)` seen through the view. */
  lemma {:induction false} InsertIds(s: Node, pos: int, c: Node)
    requires s.Sequence? && Unique(s) && Unique(c) && Ids(c) !! Ids(s)
    ensures Unique(Insert(s, pos, c)) && Ids(Insert(s, pos, c)) == Ids(s) + Ids(c)
  {
    var ts := s.tagList;
    var p := PyLists.InsertPos(|ts|, pos);
    var c' := WithParent(c, Some(s.id));
    var r := Insert(s, pos, c).tagList;
    assert r[..p] == ts[..p] && r[p] == c' && r[p + 1..] == ts[p..];
    WithParentIds(c, Some(s.id));
    ListCutIds(ts, p);
    ListCutUnique(ts, p);
    ListSplitIds(r, p);
    ListSplitUnique(r, p);
  }

  lemma {:induction false} InsertView(s: Node, pos: int, c: Node)
    requires s.Sequence? && Unique(s) && Unique(c) && Ids(c) !! Ids(s)
    ensures View(Insert(s, pos, c)) ==
      View(s)[s.id := RecOf(s).(children := PyLists.Insert(ChildIds(s.tagList), pos, c.id))]
      + View(WithParent(c, Some(s.id)))
  {
    var ts := s.tagList;
    var p := PyLists.InsertPos(|ts|, pos);
    var c' := WithParent(c, Some(s.id));
    var pre, post := ts[..p], ts[p..];
    var r := Insert(s, pos, c);
    assert r.tagList[..p] == pre && r.tagList[p] == c' && r.tagList[p + 1..] == post;
    WithParentIds(c, Some(s.id));
    ListCutIds(ts, p);
    ListCutView(ts, p);
    ListSplitView(r.tagList, p);
    InsertChildIds(ts, pos, c');
    assert Ids(c') !! IdsList(pre) && Ids(c') !! IdsList(post);
    MapInsertMiddle(ViewList(pre), View(c'), ViewList(post), s.id, RecOf(s), RecOf(r));
  }

  lemma {:induction false} InsertLinked(s: Node, pos: int, c: Node)
    requires s.Sequence? && Linked(s) && Linked(c)
    ensures Linked(Insert(s, pos, c))
  {
    var ts := s.tagList;
    var p := PyLists.InsertPos(|ts|, pos);
    var r := Insert(s, pos, c).tagList;
    WithParentView(c, Some(s.id));
    forall j | 0 <= j < |r| ensures r[j].parent == Some(s.id) && Linked(r[j]) {
      if j < p { assert r[j] == ts[j]; }
      else if j > p { assert r[j] == ts[j - 1]; }
    }
  }

  // ---------------------------------------------------------------------
  // Replacement keeps the root and the back-references

  lemma ReplaceRoot(n: Node, x: NodeId, sub: Node)
    requires sub.id == x && (n.id == x ==> sub.parent == n.parent && sub.Sequence? == n.Sequence?)
    ensures Replace(n, x, sub).id == n.id && Replace(n, x, sub).parent == n.parent
    ensures Replace(n, x, sub).Sequence? == n.Sequence?
  {
  }

  lemma ReplaceListAt(ts: seq<Node>, x: NodeId, sub: Node, i: nat)
    requires i < |ts|
    ensures ReplaceList(ts, x, sub)[i] == Replace(ts[i], x, sub)
  {
    if i > 0 {
      assert ts[i] == ts[1..][i - 1];
      ReplaceListAt(ts[1..], x, sub, i - 1);
    }
  }

  lemma {:induction false} ReplaceLinked(n: Node, x: NodeId, sub: Node)
    requires Unique(n) && Linked(n) && x in Ids(n) && Linked(sub)
    requires sub.id == x && sub.parent == Find(n, x).parent
    ensures Linked(Replace(n, x, sub))
    decreases n
  {
    match n
    case Leaf(_, _, _) =>
    case Sequence(id, k, p, ts) =>
      if id != x {
        var r := ReplaceList(ts, x, sub);
        forall i | 0 <= i < |ts| ensures r[i].parent == Some(id) && Linked(r[i]) {
          ReplaceListAt(ts, x, sub, i);
          if x in Ids(ts[i]) {
            FindListIn(ts, i, x);
            ChildInList(ts, i);
            ReplaceLinked(ts[i], x, sub);
          } else {
            ReplaceAbsent(ts[i], x, sub);
          }
        }
      }
  }

  // ---------------------------------------------------------------------
  // The two primitive edits on the whole tree

  lemma MapCarve<K, V>(v: map<K, V>, w: map<K, V>, i: set<K>, k: K, y: V)
    requires forall z :: z in w ==> z in v && v[z] == w[z]
    requires i <= w.Keys && k in w && k !in i
    ensures (v - w.Keys) + (w - i)[k := y] == (v - i)[k := y]
  {
  }

  lemma MapRegraft<K, V>(v: map<K, V>, w: map<K, V>, k: K, y: V, x: map<K, V>)
    requires forall z :: z in w ==> z in v && v[z] == w[z]
    requires k in w
    ensures (v - w.Keys) + (w[k := y] + x) == v[k := y] + x
  {
  }

  /** `parentNode.remove(node)` on the sequence node `p` of the tree: the new tree and the removed node. */
  function Detach(t: Node, p: NodeId, c: NodeId): (Node, Node)
    requires p in Ids(t) && Find(t, p).Sequence? && c in ChildIds(Find(t, p).tagList)
  {
    var (s, out) := Remove(Find(t, p), c);
    (Replace(t, p, s), out)
  }

  /** `parentNode.insert(pos, node)` on the sequence node `p` of the tree. */
  function Attach(t: Node, p: NodeId, pos: int, sub: Node): Node
    requires p in Ids(t) && Find(t, p).Sequence?
  {
    Replace(t, p, Insert(Find(t, p), pos, sub))
  }

  /** The removed node and the node set after a detach. */
  lemma DetachIds(t: Node, p: NodeId, c: NodeId)
    requires Unique(t) && p in Ids(t) && Find(t, p).Sequence? && c in ChildIds(Find(t, p).tagList)
    ensures c in Ids(t) && c != p
    ensures Detach(t, p, c).1 == WithParent(Find(t, c), None)
    ensures var t' := Detach(t, p, c).0;
      && Unique(t') && t'.id == t.id && t'.parent == t.parent && t'.Sequence? == t.Sequence?
      && Ids(t') == Ids(t) - Ids(Find(t, c))
  {
    var f := Find(t, p);
    FindInside(t, p);
    RemoveIds(f, c);
    FindFind(t, p, c);
    FindInside(f, c);
    var s := Remove(f, c).0;
    assert Detach(t, p, c) == (Replace(t, p, s), Remove(f, c).1);
    assert CanReplace(t, p, s);
    ReplaceIds(t, p, s);
    ReplaceRoot(t, p, s);
    var a, fi, ci := Ids(t), Ids(f), Ids(Find(t, c));
    assert ci <= fi <= a;
    assert (a - fi) + (fi - ci) == a - ci;
  }

  lemma DetachView(t: Node, p: NodeId, c: NodeId)
    requires Unique(t) && p in Ids(t) && Find(t, p).Sequence? && c in ChildIds(Find(t, p).tagList)
    ensures p in View(t) && View(t)[p] == RecOf(Find(t, p)) && c in Ids(t)
    ensures View(Detach(t, p, c).0) ==
      (View(t) - Ids(Find(t, c)))[p := View(t)[p].(children := PyLists.RemoveFirst(View(t)[p].children, c))]
  {
    var f := Find(t, p);
    FindInside(t, p);
    RemoveIds(f, c);
    RemoveView(f, c);
    FindFind(t, p, c);
    FindInside(f, c);
    ViewFind(t, p);
    ViewOfFind(t, p);
    var s := Remove(f, c).0;
    assert Detach(t, p, c).0 == Replace(t, p, s);
    assert CanReplace(t, p, s);
    ReplaceView(t, p, s);
    assert View(Replace(t, p, s)) == (View(t) - Ids(f)) + (View(f) - Ids(Find(t, c)))[p := RecOf(s)];
    MapCarve(View(t), View(f), Ids(Find(t, c)), p, RecOf(s));
  }

  lemma DetachLinked(t: Node, p: NodeId, c: NodeId)
    requires Unique(t) && Linked(t) && p in Ids(t) && Find(t, p).Sequence? && c in ChildIds(Find(t, p).tagList)
    ensures Linked(Detach(t, p, c).0) && Linked(Detach(t, p, c).1)
  {
    var f := Find(t, p);
    LinkedFind(t, p);
    RemoveLinked(f, c);
    ReplaceLinked(t, p, Remove(f, c).0);
  }

  /** The node set, root and view after an attach. */
  lemma AttachIds(t: Node, p: NodeId, pos: int, sub: Node)
    requires Unique(t) && p in Ids(t) && Find(t, p).Sequence? && Unique(sub) && Ids(sub) !! Ids(t)
    ensures var t' := Attach(t, p, pos, sub);
      && Unique(t') && t'.id == t.id && t'.parent == t.parent && t'.Sequence? == t.Sequence?
      && Ids(t') == Ids(t) + Ids(sub)
  {
    var f := Find(t, p);
    FindInside(t, p);
    InsertIds(f, pos, sub);
    var s := Insert(f, pos, sub);
    assert CanReplace(t, p, s);
    ReplaceIds(t, p, s);
    ReplaceRoot(t, p, s);
  }

  lemma AttachView(t: Node, p: NodeId, pos: int, sub: Node)
    requires Unique(t) && p in Ids(t) && Find(t, p).Sequence? && Unique(sub) && Ids(sub) !! Ids(t)
    ensures p in View(t) && View(t)[p] == RecOf(Find(t, p))
    ensures View(Attach(t, p, pos, sub)) ==
      View(t)[p := View(t)[p].(children := PyLists.Insert(View(t)[p].children, pos, sub.id))]
      + View(WithParent(sub, Some(p)))
  {
    var f := Find(t, p);
    FindInside(t, p);
    InsertIds(f, pos, sub);
    InsertView(f, pos, sub);
    ViewFind(t, p);
    ViewOfFind(t, p);
    var s := Insert(f, pos, sub);
    assert CanReplace(t, p, s);
    ReplaceView(t, p, s);
    MapRegraft(View(t), View(f), p, RecOf(s), View(WithParent(sub, Some(p))));
  }

  lemma AttachLinked(t: Node, p: NodeId, pos: int, sub: Node)
    requires Unique(t) && Linked(t) && p in Ids(t) && Find(t, p).Sequence? && Linked(sub)
    ensures Linked(Attach(t, p, pos, sub))
  {
    var f := Find(t, p);
    LinkedFind(t, p);
    InsertLinked(f, pos, sub);
    ReplaceLinked(t, p, Insert(f, pos, sub));
  }

  // ---------------------------------------------------------------------
  // Subtrees an edit does not touch

  /** After a replacement, the nodes of the new subtree are found inside it. */
  lemma {:induction false} ReplaceFindInside(n: Node, x: NodeId, sub: Node, y: NodeId)
    requires CanReplace(n, x, sub) && y in Ids(sub)
    ensures y in Ids(Replace(n, x, sub)) && Find(Replace(n, x, sub), y) == Find(sub, y)
    decreases n
  {
    ReplaceIds(n, x, sub);
    match n
    case Leaf(_, _, _) =>
    case Sequence(id, k, p, ts) =>
      if id != x {
        var i := ChildHolding(ts, x);
        FindListIn(ts, i, x);
        ChildInList(ts, i);
        var r := ReplaceList(ts, x, sub);
        ReplaceListAt(ts, x, sub, i);
        ReplaceIds(ts[i], x, sub);
        assert CanReplace(ts[i], x, sub);
        ReplaceFindInside(ts[i], x, sub, y);
        ReplaceIdsList(ts, x, sub);
        FindListIn(r, i, y);
        assert y != id;
      }
  }

  /** Two different children of a unique list share no node. */
  lemma ChildrenDisjoint(ts: seq<Node>, i: nat, j: nat)
    requires UniqueList(ts) && i < j < |ts|
    ensures Ids(ts[i]) !! Ids(ts[j])
  {
    ListSplitUnique(ts, i);
    assert ts[j] == ts[i + 1..][j - i - 1];
    ChildInList(ts[i + 1..], j - i - 1);
  }

  /** After a replacement, a subtree that neither holds nor lies in the replaced one is unchanged. */
  lemma {:induction false} ReplaceFindOutside(n: Node, x: NodeId, sub: Node, y: NodeId)
    requires CanReplace(n, x, sub) && y in Ids(n) && y !in Ids(Find(n, x)) && x !in Ids(Find(n, y))
    ensures y in Ids(Replace(n, x, sub)) && Find(Replace(n, x, sub), y) == Find(n, y)
    decreases n
  {
    ReplaceIds(n, x, sub);
    var ts := n.tagList;
    var i := ChildHolding(ts, x);
    var j := ChildHolding(ts, y);
    FindListIn(ts, i, x);
    FindListIn(ts, j, y);
    ChildInList(ts, j);
    var r := ReplaceList(ts, x, sub);
    ReplaceIdsList(ts, x, sub);
    ReplaceListAt(ts, x, sub, j);
    if i == j {
      ChildInList(ts, i);
      ReplaceFindOutside(ts[i], x, sub, y);
      ReplaceIds(ts[j], x, sub);
    } else {
      if i < j { ChildrenDisjoint(ts, i, j); } else { ChildrenDisjoint(ts, j, i); }
      ReplaceAbsent(ts[j], x, sub);
    }
    FindListIn(r, j, y);
  }

  /** Removing one child leaves every other subtree below the sequence node as it was. */
  lemma {:induction false} RemoveFindOther(s: Node, c: NodeId, y: NodeId)
    requires s.Sequence? && Unique(s) && c in ChildIds(s.tagList)
    requires y in Ids(s) && y != s.id
    requires c in Ids(s) && y !in Ids(Find(s, c))
    ensures y in Ids(Remove(s, c).0) && Find(Remove(s, c).0, y) == Find(s, y)
  {
    RemoveIds(s, c);
    var ts := s.tagList;
    var i := PyLists.IndexOf(ChildIds(ts), c);
    var j := ChildHolding(ts, y);
    FindListIn(ts, j, y);
    var rest := Remove(s, c).0.tagList;
    assert rest == ts[..i] + ts[i + 1..];
    assert j != i;
    var j' := if j < i then j else j - 1;
    assert rest[j'] == ts[j];
    RemoveIds(s, c);
    FindListIn(rest, j', y);
  }

  /** A detach leaves alone every subtree that neither holds the detached node's parent nor lies in the detached node. */
  lemma DetachFindOther(t: Node, p: NodeId, c: NodeId, y: NodeId)
    requires Unique(t) && p in Ids(t) && Find(t, p).Sequence? && c in ChildIds(Find(t, p).tagList)
    requires y in Ids(t) && p !in Ids(Find(t, y))
    requires c in Ids(t) && y !in Ids(Find(t, c))
    ensures y in Ids(Detach(t, p, c).0) && Find(Detach(t, p, c).0, y) == Find(t, y)
  {
    var f := Find(t, p);
    FindInside(t, p);
    RemoveIds(f, c);
    FindFind(t, p, c);
    var s := Remove(f, c).0;
    assert Detach(t, p, c).0 == Replace(t, p, s);
    assert CanReplace(t, p, s);
    if y in Ids(f) {
      FindFind(t, p, y);
      assert y != p;
      RemoveFindOther(f, c, y);
      ReplaceFindInside(t, p, s, y);
    } else {
      ReplaceFindOutside(t, p, s, y);
    }
  }
}
