/**
 * The nodes of the tag-filter expression tree: a leaf names one tag; an OR,
 * AND or NOT node is a sequence node that owns an ordered list of children.
 * Every node keeps a back-reference `parent` to the id of the sequence node
 * holding it. Object identity is an id; an in-place update of a node is a
 * function from the old node value to the new one.
 */
module TagFilterNodes {
  import opened Wrappers
  import PyLists
  import PyStrings

  type NodeId = nat

  datatype SeqKind = Or | And | Not

  datatype Node =
    | Leaf(id: NodeId, name: string, parent: Option<NodeId>)
    | Sequence(id: NodeId, kind: SeqKind, parent: Option<NodeId>, tagList: seq<Node>)
  {
    /** `tagName`: the leaf's own name, or the class constant TAG_NAME of a sequence node. */
    function TagName(): string
    {
      match this
      case Leaf(_, name, _) => name
      case Sequence(_, kind, _, _) => KindName(kind)
    }
  }

  /** TAG_NAME of the sequence classes. */
  function KindName(k: SeqKind): string
  {
    match k
    case Or => "OR"
    case And => "AND"
    case Not => "NOT"
  }

  /** `len(node)`: 0 for a leaf, the number of children for a sequence node. */
  function Len(n: Node): (r: nat)
    ensures n.Leaf? ==> r == 0
    ensures n.Sequence? ==> r == |n.tagList|
  {
    match n
    case Leaf(_, _, _) => 0
    case Sequence(_, _, _, ts) => |ts|
  }

  // ---------------------------------------------------------------------
  // Evaluation

  /**
   * `isAccepted(tags)`. A NOT node calls `super().isAccepted`, which resolves
   * to the leaf rule `self.tagName in tags` with tagName "NOT": its child is
   * never consulted.
   */
  function IsAccepted(n: Node, tags: set<string>): (r: bool)
    decreases n
    ensures n.Leaf? ==> (r <==> n.name in tags)
    ensures n.Sequence? && n.kind == Or && n.tagList == [] ==> !r
    ensures n.Sequence? && n.kind == And && n.tagList == [] ==> r
    ensures n.Sequence? && n.kind == Not ==> (r <==> "NOT" !in tags)
  {
    match n
    case Leaf(_, name, _) => name in tags
    case Sequence(_, kind, _, ts) =>
      match kind
      case Or => exists i :: 0 <= i < |ts| && IsAccepted(ts[i], tags)
      case And => forall i :: 0 <= i < |ts| ==> IsAccepted(ts[i], tags)
      case Not => !("NOT" in tags)
  }

  /** Python's `any(t.isAccepted(tags) for t in ts)`, evaluated left to right. */
  function AnyAccepted(ts: seq<Node>, tags: set<string>): bool
  {
    if ts == [] then false else IsAccepted(ts[0], tags) || AnyAccepted(ts[1..], tags)
  }

  /** Python's `all(t.isAccepted(tags) for t in ts)`, evaluated left to right. */
  function AllAccepted(ts: seq<Node>, tags: set<string>): bool
  {
    if ts == [] then true else IsAccepted(ts[0], tags) && AllAccepted(ts[1..], tags)
  }

  /** An OR node accepts exactly when the left-to-right `any` over its children does. */
  lemma {:induction false} OrIsAny(id: NodeId, p: Option<NodeId>, ts: seq<Node>, tags: set<string>)
    ensures IsAccepted(Sequence(id, Or, p, ts), tags) == AnyAccepted(ts, tags)
  {
    if ts != [] {
      OrIsAny(id, p, ts[1..], tags);
      if AnyAccepted(ts[1..], tags) && !IsAccepted(ts[0], tags) {
        var i :| 0 <= i < |ts[1..]| && IsAccepted(ts[1..][i], tags);
        assert IsAccepted(ts[i + 1], tags);
      }
      if IsAccepted(Sequence(id, Or, p, ts), tags) && !IsAccepted(ts[0], tags) {
        var i :| 0 <= i < |ts| && IsAccepted(ts[i], tags);
        assert i > 0 && IsAccepted(ts[1..][i - 1], tags);
      }
    }
  }

  /** An AND node accepts exactly when the left-to-right `all` over its children does. */
  lemma {:induction false} AndIsAll(id: NodeId, p: Option<NodeId>, ts: seq<Node>, tags: set<string>)
    ensures IsAccepted(Sequence(id, And, p, ts), tags) == AllAccepted(ts, tags)
  {
    if ts != [] {
      AndIsAll(id, p, ts[1..], tags);
      if AllAccepted(ts, tags) {
        forall i | 0 <= i < |ts| ensures IsAccepted(ts[i], tags) {
          if i > 0 { assert ts[i] == ts[1..][i - 1]; }
        }
      }
      if IsAccepted(Sequence(id, And, p, ts), tags) {
        forall i | 0 <= i < |ts[1..]| ensures IsAccepted(ts[1..][i], tags) {
          assert ts[1..][i] == ts[i + 1];
        }
      }
    }
  }

  /** The child of a NOT node has no influence on its acceptance. */
  lemma ExcludeIgnoresContent(a: Node, b: Node, tags: set<string>)
    requires a.Sequence? && b.Sequence? && a.kind == Not && b.kind == Not
    ensures IsAccepted(a, tags) == IsAccepted(b, tags)
  {
  }

  // ---------------------------------------------------------------------
  // Tag filtering (`filterTags` reassigns `tagList` of every sequence node)

  /**
   * `filterTags(allowedTags)`: the returned flag, and the node after the call.
   * A leaf reports `tagName in allowedTags` and is unchanged; a sequence node
   * keeps, in order, the children whose own `filterTags` returned true (each
   * of them already filtered) and reports whether any survived.
   */
  function FilterTags(n: Node, allowed: set<string>): (r: (bool, Node))
    decreases n, 1
    ensures r.1.id == n.id && r.1.parent == n.parent && r.1.Leaf? == n.Leaf?
    ensures n.Leaf? ==> r == (n.name in allowed, n)
    ensures n.Sequence? ==> r.1.kind == n.kind && (r.0 <==> r.1.tagList != [])
  {
    match n
    case Leaf(_, name, _) => (name in allowed, n)
    case Sequence(id, kind, p, ts) =>
      var kept := FilterList(ts, allowed);
      (kept != [], Sequence(id, kind, p, kept))
  }

  /** The list comprehension `[t for t in ts if t.filterTags(allowedTags)]`. */
  function FilterList(ts: seq<Node>, allowed: set<string>): (r: seq<Node>)
    decreases ts, 0
    ensures |r| <= |ts|
  {
    if ts == [] then []
    else
      var f := FilterTags(ts[0], allowed);
      (if f.0 then [f.1] else []) + FilterList(ts[1..], allowed)
  }

  /** The comprehension distributes over concatenation: it filters each child independently, in order. */
  lemma {:induction false} FilterListAppend(a: seq<Node>, b: seq<Node>, allowed: set<string>)
    ensures FilterList(a + b, allowed) == FilterList(a, allowed) + FilterList(b, allowed)
  {
    if a != [] {
      assert (a + b)[0] == a[0];
      assert (a + b)[1..] == a[1..] + b;
      FilterListAppend(a[1..], b, allowed);
    } else {
      assert a + b == b;
    }
  }

  /** A sequence node survives filtering exactly when one of its children does. */
  lemma {:induction false} FilterKeepsIffChildKept(ts: seq<Node>, allowed: set<string>)
    ensures FilterList(ts, allowed) != [] <==> exists i :: 0 <= i < |ts| && FilterTags(ts[i], allowed).0
  {
    if ts != [] {
      FilterKeepsIffChildKept(ts[1..], allowed);
      if FilterList(ts[1..], allowed) != [] {
        var i :| 0 <= i < |ts[1..]| && FilterTags(ts[1..][i], allowed).0;
        assert FilterTags(ts[i + 1], allowed).0;
      }
      if exists i :: 0 <= i < |ts| && FilterTags(ts[i], allowed).0 {
        var i :| 0 <= i < |ts| && FilterTags(ts[i], allowed).0;
        if i > 0 { assert FilterTags(ts[1..][i - 1], allowed).0; }
      }
    }
  }

  /**
   * After filtering, everything strictly below the node is allowed: every
   * leaf's name is in the allowed set and every sequence node is non-empty
   * (a sequence that ends up empty reports false and its parent drops it).
   */
  ghost predicate Pruned(n: Node, allowed: set<string>)
    decreases n
  {
    match n
    case Leaf(_, _, _) => true
    case Sequence(_, _, _, ts) =>
      forall i :: 0 <= i < |ts| ==>
        (if ts[i].Leaf? then ts[i].name in allowed else ts[i].tagList != []) && Pruned(ts[i], allowed)
  }

  lemma {:induction false} FilterPrunes(n: Node, allowed: set<string>)
    ensures Pruned(FilterTags(n, allowed).1, allowed)
    decreases n, 1
  {
    match n
    case Leaf(_, _, _) =>
    case Sequence(id, kind, p, ts) =>
      FilterListPrunes(ts, allowed);
  }

  lemma {:induction false} FilterListPrunes(ts: seq<Node>, allowed: set<string>)
    ensures forall i :: 0 <= i < |FilterList(ts, allowed)| ==>
      var t := FilterList(ts, allowed)[i];
      (if t.Leaf? then t.name in allowed else t.tagList != []) && Pruned(t, allowed)
    decreases ts, 0
  {
    if ts != [] {
      FilterPrunes(ts[0], allowed);
      FilterListPrunes(ts[1..], allowed);
    }
  }

  /** `filterTags` is idempotent: a second call with the same allowed set changes nothing and reports the same. */
  lemma {:induction false} FilterIdempotent(n: Node, allowed: set<string>)
    ensures FilterTags(FilterTags(n, allowed).1, allowed) == FilterTags(n, allowed)
    decreases n, 1
  {
    match n
    case Leaf(_, _, _) =>
    case Sequence(id, kind, p, ts) =>
      FilterListIdempotent(ts, allowed);
  }

  lemma {:induction false} FilterListIdempotent(ts: seq<Node>, allowed: set<string>)
    ensures FilterList(FilterList(ts, allowed), allowed) == FilterList(ts, allowed)
    decreases ts, 0
  {
    if ts != [] {
      var f := FilterTags(ts[0], allowed);
      var head := if f.0 then [f.1] else [];
      FilterListIdempotent(ts[1..], allowed);
      FilterListAppend(head, FilterList(ts[1..], allowed), allowed);
      if f.0 {
        FilterIdempotent(ts[0], allowed);
        assert FilterList(head, allowed) == [f.1] by {
          assert head[1..] == [];
        }
      }
    }
  }

  // ---------------------------------------------------------------------
  // Text form

  /** `repr(node)`: a leaf's tag name, or TAG_NAME followed by the comma-joined child reprs in brackets. */
  function Repr(n: Node): (r: string)
    decreases n, 1
    ensures n.Leaf? ==> r == n.name
    ensures n.Sequence? ==>
      (|r| > |KindName(n.kind)| && r[..|KindName(n.kind)|] == KindName(n.kind)
       && r[|KindName(n.kind)|] == '[' && r[|r| - 1] == ']')
  {
    match n
    case Leaf(_, name, _) => name
    case Sequence(_, kind, _, ts) => KindName(kind) + "[" + PyStrings.Join(ReprList(ts), ",") + "]"
  }

  function ReprList(ts: seq<Node>): (r: seq<string>)
    decreases ts, 0
    ensures |r| == |ts|
  {
    if ts == [] then [] else [Repr(ts[0])] + ReprList(ts[1..])
  }

  // ---------------------------------------------------------------------
  // Construction and in-place edits of one sequence node

  function WithParent(n: Node, p: Option<NodeId>): (r: Node)
    ensures r.id == n.id && r.parent == p && r.Leaf? == n.Leaf?
  {
    n.(parent := p)
  }

  /** The children after `t.parent = self` for every `t` of the list. */
  function Adopt(ts: seq<Node>, id: NodeId): (r: seq<Node>)
    ensures |r| == |ts|
    ensures forall i :: 0 <= i < |ts| ==> r[i] == WithParent(ts[i], Some(id))
  {
    seq(|ts|, i requires 0 <= i < |ts| => WithParent(ts[i], Some(id)))
  }

  /** `TagFilterSequenceNode(tagList, parent)`: the constructor sets the parent of every child to the new node. */
  function NewSequence(id: NodeId, kind: SeqKind, tagList: seq<Node>, parent: Option<NodeId>): (r: Node)
    ensures r.Sequence? && r.id == id && r.kind == kind && r.parent == parent
    ensures |r.tagList| == |tagList|
    ensures forall i :: 0 <= i < |tagList| ==>
      r.tagList[i].id == tagList[i].id && r.tagList[i].parent == Some(id)
  {
    Sequence(id, kind, parent, Adopt(tagList, id))
  }

  /** `TagFilterExcludeNode(x)`: a NOT node with exactly the child `x`. */
  function NewExclude(id: NodeId, content: Node, parent: Option<NodeId>): (r: Node)
    ensures r.Sequence? && r.kind == Not && r.id == id && r.parent == parent
    ensures r.tagList == [WithParent(content, Some(id))]
    ensures Content(r) == WithParent(content, Some(id))
  {
    NewSequence(id, Not, [content], parent)
  }

  /** The `content` property: it asserts a single child and returns it. */
  function Content(n: Node): Node
    requires n.Sequence? && |n.tagList| == 1
  {
    n.tagList[0]
  }

  /**
   * `seq.insert(pos, node)`: `node` lands at the position `list.insert`
   * chooses, with its parent set to `seq`; the children before it stay and
   * the later ones shift right by one.
   */
  function Insert(s: Node, pos: int, c: Node): (r: Node)
    requires s.Sequence?
    ensures r.Sequence? && r.id == s.id && r.kind == s.kind && r.parent == s.parent
    ensures Len(r) == Len(s) + 1
    ensures var p := PyLists.InsertPos(|s.tagList|, pos);
      && r.tagList[p] == WithParent(c, Some(s.id))
      && r.tagList[..p] == s.tagList[..p]
      && r.tagList[p + 1..] == s.tagList[p..]
  {
    s.(tagList := PyLists.Insert(s.tagList, pos, WithParent(c, Some(s.id))))
  }

  function ChildIds(ts: seq<Node>): (r: seq<NodeId>)
    ensures |r| == |ts|
    ensures forall i :: 0 <= i < |ts| ==> r[i] == ts[i].id
  {
    seq(|ts|, i requires 0 <= i < |ts| => ts[i].id)
  }

  /**
   * `seq.remove(node)`: drops the first child that is `node` (identity, here
   * the id) and clears the parent of the removed node, which is returned too.
   */
  function Remove(s: Node, c: NodeId): (r: (Node, Node))
    requires s.Sequence? && c in ChildIds(s.tagList)
    ensures var i := PyLists.IndexOf(ChildIds(s.tagList), c);
      && r.0 == s.(tagList := s.tagList[..i] + s.tagList[i + 1..])
      && r.1 == WithParent(s.tagList[i], None)
    ensures Len(r.0) == Len(s) - 1 && r.1.id == c && r.1.parent == None
  {
    var i := PyLists.IndexOf(ChildIds(s.tagList), c);
    (s.(tagList := s.tagList[..i] + s.tagList[i + 1..]), WithParent(s.tagList[i], None))
  }
}
