/**
 * Model indexes of the tag-filter tree and root-relative node paths.
 *
 * A `QModelIndex` is a row and a node (`createIndex(row, 0, node)`); the
 * invalid index is the view's root. Equality of indexes, as in Qt,
 * compares the row as well as the node. A node path is the tuple of child
 * positions leading from the top node to a node.
 */
module TagFilterIndex {
  import opened Wrappers
  import opened TagFilterNodes
  import opened TagFilterTree
  import PyLists

  /** The shape the engine keeps: a top sequence node without parent, unique identities, consistent back-references. */
  predicate ValidTree(t: Node)
  {
    t.Sequence? && t.parent == None && Unique(t) && Linked(t)
  }

  /** `node.parent` of a node other than the top one. */
  function ParentOf(t: Node, y: NodeId): (p: NodeId)
    requires Unique(t) && Linked(t) && y in Ids(t) && y != t.id
    ensures p in Ids(t) && p != y && Find(t, y).parent == Some(p)
    ensures Find(t, p).Sequence? && y in ChildIds(Find(t, p).tagList)
  {
    ParentHolds(t, y);
    Find(t, y).parent.value
  }

  datatype Index = Invalid | At(row: int, node: NodeId)

  /**
   * `_getIndexFromNode(node)`: row 0 for a node without a parent, otherwise
   * the first position of the node among its parent's children.
   */
  function IndexOfNode(t: Node, y: NodeId): (i: Index)
    requires ValidTree(t) && y in Ids(t)
    ensures i.At? && i.node == y && i.row >= 0
    ensures y == t.id ==> i.row == 0
    ensures y != t.id ==>
      (i.row < |Find(t, ParentOf(t, y)).tagList| && Find(t, ParentOf(t, y)).tagList[i.row].id == y)
  {
    if Find(t, y).parent.None? then At(0, y)
    else At(PyLists.IndexOf(ChildIds(Find(t, ParentOf(t, y)).tagList), y), y)
  }

  /** An index the view hands to the model: it names a node of the tree at its current row. */
  predicate Live(t: Node, i: Index)
    requires ValidTree(t)
  {
    i.At? && i.node in Ids(t) && i == IndexOfNode(t, i.node)
  }

  /** An index argument: the invalid index or a live one. */
  predicate IndexArg(t: Node, i: Index)
    requires ValidTree(t)
  {
    i.Invalid? || Live(t, i)
  }

  /** `self.topLevelIndex = createIndex(0, 0, topNode)` */
  function TopLevel(t: Node): Index
  {
    At(0, t.id)
  }

  /** `parent(child)`: the invalid index for the invalid index and the top node, the parent's index otherwise. */
  function ParentIndex(t: Node, i: Index): (r: Index)
    requires ValidTree(t) && (i.At? ==> i.node in Ids(t))
    ensures i.Invalid? || i.node == t.id <==> r.Invalid?
    ensures i.At? && i.node != t.id ==> r == IndexOfNode(t, ParentOf(t, i.node))
  {
    if i.Invalid? then Invalid
    else
      ParentNoneIffTop(t, i.node);
      if Find(t, i.node).parent.None? then Invalid
      else IndexOfNode(t, ParentOf(t, i.node))
  }

  /** Only the top node has no parent. */
  lemma ParentNoneIffTop(t: Node, y: NodeId)
    requires ValidTree(t) && y in Ids(t)
    ensures Find(t, y).parent.None? <==> y == t.id
  {
    if y != t.id { ParentHolds(t, y); }
  }

  /** A live index is the top-level index exactly when it names the top node. */
  lemma LiveTopLevel(t: Node, i: Index)
    requires ValidTree(t) && Live(t, i)
    ensures i == TopLevel(t) <==> i.node == t.id
  {
  }

  // ---------------------------------------------------------------------
  // Paths from the top node

  /** The position of the first child holding `y`. */
  function HolderIndex(ts: seq<Node>, y: NodeId): (i: nat)
    requires y in IdsList(ts)
    ensures i < |ts| && y in Ids(ts[i])
    ensures forall j :: 0 <= j < i ==> y !in Ids(ts[j])
  {
    if y in Ids(ts[0]) then 0
    else
      var j := HolderIndex(ts[1..], y);
      assert ts[1..][j] == ts[j + 1];
      assert forall k :: 1 <= k <= j ==> ts[1..][k - 1] == ts[k];
      j + 1
  }

  /** In a unique list the holder is the only child holding `y`. */
  lemma HolderUnique(ts: seq<Node>, y: NodeId, i: nat)
    requires UniqueList(ts) && i < |ts| && y in Ids(ts[i])
    ensures y in IdsList(ts) && HolderIndex(ts, y) == i
  {
    ChildInList(ts, i);
    var h := HolderIndex(ts, y);
    if h < i { ChildrenDisjoint(ts, h, i); }
  }

  /** The root-relative path of the node `y`: the child positions leading down to it. */
  function PathFrom(n: Node, y: NodeId): (r: seq<int>)
    requires y in Ids(n)
    decreases n
    ensures forall k :: 0 <= k < |r| ==> r[k] >= 0
  {
    if n.id == y then []
    else
      var i := HolderIndex(n.tagList, y);
      [i] + PathFrom(n.tagList[i], y)
  }

  /** The strict ancestors of `y`, top first. */
  function AncestorsFrom(n: Node, y: NodeId): seq<NodeId>
    requires y in Ids(n)
    decreases n
  {
    if n.id == y then []
    else
      var i := HolderIndex(n.tagList, y);
      [n.id] + AncestorsFrom(n.tagList[i], y)
  }

  /**
   * `_getNodeFromNodePath`: walk down from `n` following the positions
   * (negative ones count from the end); `None` stands for the TypeError of
   * stepping into a leaf and the IndexError of a position out of range.
   */
  function ResolveFrom(n: Node, path: seq<int>): Option<NodeId>
    decreases |path|
  {
    if path == [] then Some(n.id)
    else if n.Leaf? then None
    else match PyLists.PyIndex(|n.tagList|, path[0])
      case None => None
      case Some(k) => ResolveFrom(n.tagList[k], path[1..])
  }

  /** Resolving the path of a node gives back that node. */
  lemma {:induction false} ResolvePathFrom(n: Node, y: NodeId)
    requires y in Ids(n)
    ensures ResolveFrom(n, PathFrom(n, y)) == Some(y)
    decreases n
  {
    if n.id != y {
      var i := HolderIndex(n.tagList, y);
      ResolvePathFrom(n.tagList[i], y);
      assert ([i] + PathFrom(n.tagList[i], y))[1..] == PathFrom(n.tagList[i], y);
    }
  }

  /** Different nodes of a tree have different paths. */
  lemma PathInjective(n: Node, x: NodeId, y: NodeId)
    requires x in Ids(n) && y in Ids(n) && PathFrom(n, x) == PathFrom(n, y)
    ensures x == y
  {
    ResolvePathFrom(n, x);
    ResolvePathFrom(n, y);
  }

  /** Stepping to the parent drops the last position of the path and the last ancestor. */
  lemma {:induction false} PathUp(n: Node, y: NodeId)
    requires Unique(n) && Linked(n) && y in Ids(n) && y != n.id
    ensures var p := ParentOf(n, y);
      && PathFrom(n, y) == PathFrom(n, p) + [PyLists.IndexOf(ChildIds(Find(n, p).tagList), y)]
      && AncestorsFrom(n, y) == AncestorsFrom(n, p) + [p]
    decreases n
  {
    var ts := n.tagList;
    var p := ParentOf(n, y);
    var i := HolderIndex(ts, y);
    FindListIn(ts, i, y);
    ChildInList(ts, i);
    if ts[i].id == y {
      assert p == n.id;
      ChildIdsNoDup(ts);
      assert ChildIds(ts)[i] == y;
      assert PathFrom(ts[i], y) == [];
    } else {
      ParentHolds(ts[i], y);
      var q := Find(ts[i], y).parent.value;
      assert q == p;
      FindListIn(ts, i, p);
      HolderUnique(ts, p, i);
      assert n.id !in Ids(ts[i]);
      PathUp(ts[i], y);
      assert ParentOf(ts[i], y) == p;
    }
  }

  /** The ancestors are exactly the other nodes whose subtree holds `y`. */
  lemma {:induction false} AncestorsSpec(n: Node, y: NodeId, a: NodeId)
    requires Unique(n) && y in Ids(n)
    ensures a in AncestorsFrom(n, y) <==> a in Ids(n) && a != y && y in Ids(Find(n, a))
    decreases n
  {
    if n.id != y {
      var ts := n.tagList;
      var i := HolderIndex(ts, y);
      ChildInList(ts, i);
      AncestorsSpec(ts[i], y, a);
      assert AncestorsFrom(n, y) == [n.id] + AncestorsFrom(ts[i], y);
    }
    if a in Ids(n) && a != n.id {
      var ts := n.tagList;
      var j := ChildHolding(ts, a);
      FindListIn(ts, j, a);
      ChildInList(ts, j);
      FindInside(ts[j], a);
      assert n.id !in Ids(ts[j]);
      if n.id != y {
        var i := HolderIndex(ts, y);
        if y in Ids(Find(n, a)) {
          HolderUnique(ts, y, j);
        } else if a in Ids(ts[i]) {
          FindListIn(ts, i, a);
        }
      }
    }
  }

  /** The top node and the index of its path's depth: the top node has no ancestor. */
  lemma AncestorsOfTop(n: Node)
    ensures n.id in Ids(n) && AncestorsFrom(n, n.id) == [] && PathFrom(n, n.id) == []
  {
    match n
    case Leaf(_, _, _) =>
    case Sequence(_, _, _, _) =>
  }
}
