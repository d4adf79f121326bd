/**
 * The nodes of the include/exclude editor: the same leaves and OR/AND
 * sequence nodes as the tag filter (`TagFilterNodes`), without a NOT node.
 * Acceptance and tag filtering follow the same rules; the one difference
 * in construction is that a sequence node keeps the list it is given and
 * leaves the parents of the children alone.
 */
module IncludeExcludeNodes {
  import opened Wrappers
  import opened TagFilterNodes

  /** A tree of leaves, OR and AND nodes only: the classes this editor has. */
  predicate Plain(n: Node)
    decreases n
  {
    match n
    case Leaf(_, _, _) => true
    case Sequence(_, kind, _, ts) => kind != Not && forall i :: 0 <= i < |ts| ==> Plain(ts[i])
  }

  /**
   * `TagFilterSequenceNode(tagList, parent)`: the new node holds the given
   * list itself; unlike the tag-filter constructor, the children still name
   * whatever parent they had.
   */
  function NewGroup(id: NodeId, kind: SeqKind, tagList: seq<Node>, parent: Option<NodeId>): (r: Node)
    requires kind != Not
    ensures r.Sequence? && r.id == id && r.kind == kind && r.parent == parent && Len(r) == |tagList|
    ensures forall i :: 0 <= i < |tagList| ==> r.tagList[i] == tagList[i]
  {
    Sequence(id, kind, parent, tagList)
  }

  /**
   * `for n in nodes: n.parent = mergedNode` after the constructor: the group
   * is then the tag-filter sequence node over the same list, whose children
   * all point back at it.
   */
  lemma GroupAdopted(id: NodeId, kind: SeqKind, tagList: seq<Node>, parent: Option<NodeId>)
    requires kind != Not
    ensures var g := NewGroup(id, kind, tagList, parent);
      g.Sequence? && g.(tagList := Adopt(tagList, id)) == NewSequence(id, kind, tagList, parent)
    ensures forall i :: 0 <= i < |tagList| ==> Adopt(tagList, id)[i].parent == Some(id)
  {
  }

  /**
   * Without a NOT node, acceptance only grows with the set of tags: a leaf
   * asks for its own tag, an OR node for one accepting child, an AND node
   * for all of them.
   */
  lemma {:induction false} AcceptedMonotone(n: Node, tags: set<string>, more: set<string>)
    requires Plain(n) && tags <= more && IsAccepted(n, tags)
    ensures IsAccepted(n, more)
    decreases n
  {
    match n
    case Leaf(_, _, _) =>
    case Sequence(_, kind, _, ts) =>
      if kind == Or {
        var i :| 0 <= i < |ts| && IsAccepted(ts[i], tags);
        AcceptedMonotone(ts[i], tags, more);
      } else {
        forall i | 0 <= i < |ts| ensures IsAccepted(ts[i], more) {
          AcceptedMonotone(ts[i], tags, more);
        }
      }
  }

  /** The same little tree, a NOT node of the tag filter over a leaf, shows that monotonicity needs `Plain`. */
  lemma ExcludeNotMonotone()
    ensures var n := Sequence(0, Not, None, [Leaf(1, "a", Some(0))]);
      !Plain(n) && IsAccepted(n, {}) && !IsAccepted(n, {"NOT"})
  {
  }

  /** `filterTags` only drops children: a tree without NOT nodes stays without them. */
  lemma {:induction false} FilterKeepsPlain(n: Node, allowed: set<string>)
    requires Plain(n)
    ensures Plain(FilterTags(n, allowed).1)
    decreases n, 1
  {
    match n
    case Leaf(_, _, _) =>
    case Sequence(id, kind, p, ts) =>
      FilterListKeepsPlain(ts, allowed);
      assert FilterTags(n, allowed).1 == Sequence(id, kind, p, FilterList(ts, allowed));
  }

  lemma {:induction false} FilterListKeepsPlain(ts: seq<Node>, allowed: set<string>)
    requires forall i :: 0 <= i < |ts| ==> Plain(ts[i])
    ensures forall i :: 0 <= i < |FilterList(ts, allowed)| ==> Plain(FilterList(ts, allowed)[i])
    decreases ts, 0
  {
    if ts != [] {
      assert Plain(ts[0]);
      FilterKeepsPlain(ts[0], allowed);
      assert forall i :: 0 <= i < |ts[1..]| ==> ts[1..][i] == ts[i + 1];
      FilterListKeepsPlain(ts[1..], allowed);
      var f := FilterTags(ts[0], allowed);
      var head: seq<Node> := if f.0 then [f.1] else [];
      assert FilterList(ts, allowed) == head + FilterList(ts[1..], allowed);
    }
  }
}
