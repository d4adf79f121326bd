/**
 * `negate`: a node is taken out of its parent and, at the same row, either
 * wrapped in a new NOT node or, when it is a NOT node itself, replaced by
 * its single child.
 */
module TagFilterNegate {
  import opened Wrappers
  import opened TagFilterNodes
  import opened TagFilterTree
  import opened TagFilterIndex
  import opened TagFilterEdits
  import opened TagFilterOps
  import opened TagFilterMerge
  import PyLists

  /** `isinstance(node, TagFilterExcludeNode)` */
  predicate IsNot(n: Node)
  {
    n.Sequence? && n.kind == Not
  }

  /** A node `negate` goes through on: not the top one, and a NOT node only with exactly one child (the `content` assertion). */
  predicate NegateArg(t: Node, x: NodeId)
    requires ValidTree(t)
  {
    x in Ids(t) && x != t.id && (IsNot(Find(t, x)) ==> |Find(t, x).tagList| == 1)
  }

  /** The row of `x` among its parent's children. */
  function RowOf(t: Node, x: NodeId): (row: nat)
    requires ValidTree(t) && x in Ids(t) && x != t.id
    ensures IndexOfNode(t, x) == At(row, x)
  {
    PyLists.IndexOf(ChildIds(Find(t, ParentOf(t, x)).tagList), x)
  }

  /** Taking `x` out leaves its parent in the tree, a sequence node, with `x` cut from its children. */
  lemma NegateParent(t: Node, x: NodeId)
    requires ValidTree(t) && x in Ids(t) && x != t.id
    ensures var p := ParentOf(t, x);
      var t1 := Detach(t, p, x).0;
      var v := View(t);
      && p in v && x in v && x != p && p !in Ids(Find(t, x))
      && v[x].parent == Some(p) && v[p].children == ChildIds(Find(t, p).tagList)
      && RowOf(t, x) < |v[p].children| && v[p].children[RowOf(t, x)] == x
      && ValidTree(t1) && t1.id == t.id && Ids(t1) == Ids(t) - Ids(Find(t, x))
      && Detach(t, p, x).1 == WithParent(Find(t, x), None)
      && p in Ids(t1) && Find(t1, p).Sequence?
      && View(t1) == (v - Ids(Find(t, x)))[p := v[p].(children := PyLists.RemoveFirst(v[p].children, x))]
  {
    var p := ParentOf(t, x);
    ChildNotAbove(t, p, x);
    DetachIds(t, p, x);
    DetachView(t, p, x);
    DetachLinked(t, p, x);
    ViewFind(t, x);
    var t1 := Detach(t, p, x).0;
    SequenceInView(t1, p);
  }

  /** `negate(index)` on the node `x`; `n` is the identity a new NOT node receives. */
  function Negated(t: Node, x: NodeId, n: NodeId): Node
    requires ValidTree(t) && NegateArg(t, x)
  {
    NegateParent(t, x);
    var p := ParentOf(t, x);
    var (t1, out) := Detach(t, p, x);
    if IsNot(out) then Attach(t1, p, RowOf(t, x), Content(out))
    else Attach(t1, p, RowOf(t, x), NewExclude(n, out, None))
  }

  /** The view after `x`, at `row` among the children of `p`, is wrapped in the new NOT node `n`. */
  function Wrapped(v: map<NodeId, Rec>, p: NodeId, row: nat, x: NodeId, n: NodeId): (r: map<NodeId, Rec>)
    requires p in v && x in v && row < |v[p].children|
    ensures r.Keys == v.Keys + {n}
  {
    v[p := v[p].(children := v[p].children[row := n])][x := v[x].(parent := Some(n))]
      [n := Rec(SeqLabel(Not), Some(p), [x])]
  }

  /** The view after the NOT node `x`, at `row` among the children of `p`, is replaced by its child `c`. */
  function Unwrapped(v: map<NodeId, Rec>, p: NodeId, row: nat, x: NodeId, c: NodeId): (r: map<NodeId, Rec>)
    requires p in v && c in v && p != x && row < |v[p].children|
    ensures r.Keys == v.Keys - {x} + {c}
  {
    (v - {x})[p := v[p].(children := v[p].children[row := c])][c := v[c].(parent := Some(p))]
  }

  /** Removing the item at its first position and inserting at that position replaces it. */
  lemma ReplaceAtIndex(kids: seq<NodeId>, x: NodeId, y: NodeId)
    requires x in kids
    ensures PyLists.Insert(PyLists.RemoveFirst(kids, x), PyLists.IndexOf(kids, x), y)
         == kids[PyLists.IndexOf(kids, x) := y]
  {
    var i := PyLists.IndexOf(kids, x);
    var r := PyLists.RemoveFirst(kids, x);
    assert PyLists.InsertPos(|r|, i) == i;
    assert r[..i] == kids[..i] && r[i..] == kids[i + 1..];
  }

  lemma MapWrap(v: map<NodeId, Rec>, s: set<NodeId>, g: map<NodeId, Rec>, p: NodeId, x: NodeId, n: NodeId,
                a: Rec, b: Rec, c: Rec)
    requires s <= v.Keys && g.Keys == s && (forall y :: y in s ==> g[y] == v[y])
    requires p in v && p !in s && x in s && n !in v
    ensures (v - s)[p := a] + g[x := b][n := c] == v[p := a][x := b][n := c]
  {
  }

  lemma MapUnwrap(v: map<NodeId, Rec>, s: set<NodeId>, g: map<NodeId, Rec>, p: NodeId, x: NodeId, c: NodeId,
                  a: Rec, b: Rec)
    requires s <= v.Keys && x in s && g.Keys == s - {x} && (forall y :: y in g ==> g[y] == v[y])
    requires p in v && p !in s && c in g
    ensures (v - s)[p := a] + g[c := b] == (v - {x})[p := a][c := b]
  {
  }

  /** The new NOT node `TagFilterExcludeNode(f)` builds around `f`, once inserted into `p`. */
  lemma WrapNode(f: Node, n: NodeId, p: NodeId)
    requires Unique(f) && Linked(f) && n !in Ids(f)
    ensures var sub := NewExclude(n, WithParent(f, None), None);
      && sub.id == n && Unique(sub) && Linked(sub) && Ids(sub) == Ids(f) + {n}
      && View(WithParent(sub, Some(p)))
         == View(f)[f.id := RecOf(f).(parent := Some(n))][n := Rec(SeqLabel(Not), Some(p), [f.id])]
  {
    var o' := WithParent(f, Some(n));
    var sub := NewExclude(n, WithParent(f, None), None);
    assert sub == Sequence(n, Not, None, [o']);
    WithParentView(f, Some(n));
    assert ViewList([o']) == View(o');
    assert IdsList([o']) == Ids(o');
    assert ChildIds([o']) == [f.id];
  }

  /** The view arithmetic of wrapping: cut `x` out, insert the NOT node at its row, hang `x`'s subtree below it. */
  lemma WrapView(v: map<NodeId, Rec>, v1: map<NodeId, Rec>, s: set<NodeId>, g: map<NodeId, Rec>,
                 p: NodeId, row: nat, x: NodeId, n: NodeId)
    requires p in v && x in v[p].children && row == PyLists.IndexOf(v[p].children, x)
    requires v1 == (v - s)[p := v[p].(children := PyLists.RemoveFirst(v[p].children, x))]
    requires s <= v.Keys && g.Keys == s && (forall y :: y in s ==> g[y] == v[y])
    requires p !in s && x in s && n !in v
    ensures x in v && row < |v[p].children|
    ensures v1[p := v1[p].(children := PyLists.Insert(v1[p].children, row, n))]
            + g[x := v[x].(parent := Some(n))][n := Rec(SeqLabel(Not), Some(p), [x])]
         == Wrapped(v, p, row, x, n)
  {
    var kids := v[p].children;
    var a := v[p].(children := kids[row := n]);
    var b, c := v[x].(parent := Some(n)), Rec(SeqLabel(Not), Some(p), [x]);
    var r1 := v[p].(children := PyLists.RemoveFirst(kids, x));
    var w := v1[p].(children := PyLists.Insert(v1[p].children, row, n));
    assert w == a by {
      assert v1[p] == r1;
      ReplaceAtIndex(kids, x, n);
    }
    assert v1[p := w] == (v - s)[p := a] by {
      assert v1 == (v - s)[p := r1];
    }
    assert (v - s)[p := a] + g[x := b][n := c] == v[p := a][x := b][n := c] by {
      MapWrap(v, s, g, p, x, n, a, b, c);
    }
  }

  /** Wrapping: the tree stays valid, gains the new NOT node, and its view is `Wrapped`. */
  lemma WrapOk(t: Node, x: NodeId, n: NodeId)
    requires ValidTree(t) && NegateArg(t, x) && !IsNot(Find(t, x)) && n !in Ids(t)
    ensures var p := ParentOf(t, x);
      var t' := Negated(t, x, n);
      && p in View(t) && x in View(t) && RowOf(t, x) < |View(t)[p].children|
      && ValidTree(t') && t'.id == t.id && Ids(t') == Ids(t) + {n}
      && View(t') == Wrapped(View(t), p, RowOf(t, x), x, n)
  {
    NegateParent(t, x);
    var p := ParentOf(t, x);
    var v := View(t);
    var f := Find(t, x);
    var (t1, out) := Detach(t, p, x);
    var row := RowOf(t, x);
    var sub := NewExclude(n, out, None);
    assert Negated(t, x, n) == Attach(t1, p, row, sub);
    assert Unique(f) && Linked(f) && Ids(f) <= Ids(t) by { FindInside(t, x); LinkedFind(t, x); }
    WrapNode(f, n, p);
    assert ValidTree(Attach(t1, p, row, sub)) && Attach(t1, p, row, sub).id == t.id
      && Ids(Attach(t1, p, row, sub)) == Ids(t) + {n}
    by {
      AttachIds(t1, p, row, sub);
      AttachLinked(t1, p, row, sub);
    }
    assert View(Attach(t1, p, row, sub)) == Wrapped(v, p, row, x, n) by {
      AttachView(t1, p, row, sub);
      ViewOfFind(t, x);
      ViewFind(t, x);
      WrapView(v, View(t1), Ids(f), View(f), p, row, x, n);
    }
  }

  /** The single child of a sequence node: its ids and view are the list's, and it is distinct and linked below the node. */
  lemma {:induction false} OnlyChild(f: Node)
    requires f.Sequence? && |f.tagList| == 1 && Unique(f) && Linked(f)
    ensures var cn := f.tagList[0];
      && IdsList(f.tagList) == Ids(cn) && ViewList(f.tagList) == View(cn)
      && Unique(cn) && f.id !in Ids(cn) && Linked(cn) && cn.parent == Some(f.id)
  {
    assert f.tagList[1..] == [];
  }

  /** The only child of a NOT node, read off the tree. */
  lemma NotChild(t: Node, x: NodeId)
    requires ValidTree(t) && NegateArg(t, x) && IsNot(Find(t, x))
    ensures var f := Find(t, x);
      var cn := f.tagList[0];
      && Ids(f) == {x} + Ids(cn) && x !in Ids(cn) && Ids(f) <= Ids(t) && Unique(cn) && Linked(cn)
      && cn.id in Ids(t) && cn.id != x && cn.id in View(t) && View(t)[cn.id] == RecOf(cn)
      && View(t)[x].children == [cn.id] && cn.parent == Some(x)
      && (forall y :: y in Ids(cn) ==> y in View(t) && View(cn)[y] == View(t)[y])
      && View(f) == View(cn)[x := RecOf(f)]
  {
    var f := Find(t, x);
    var cn := f.tagList[0];
    assert Ids(f) <= Ids(t) && Unique(f) by { FindInside(t, x); }
    assert Linked(f) by { LinkedFind(t, x); }
    assert forall y :: y in Ids(f) ==> y in View(t) && View(t)[y] == View(f)[y] by { ViewOfFind(t, x); }
    assert View(t)[x] == RecOf(f) by { ViewFind(t, x); }
    assert f.Sequence? && f.id == x && |f.tagList| == 1;
    assert IdsList(f.tagList) == Ids(cn) && ViewList(f.tagList) == View(cn)
      && Unique(cn) && x !in Ids(cn) && Linked(cn) && cn.parent == Some(x) by { OnlyChild(f); }
    assert cn.id in Ids(cn) by { AncestorsOfTop(cn); }
    assert View(cn)[cn.id] == RecOf(cn) by { ViewRoot(cn); }
  }

  /** The view arithmetic of unwrapping: cut `x` out, insert its child `c` at its row. */
  lemma UnwrapView(v: map<NodeId, Rec>, v1: map<NodeId, Rec>, s: set<NodeId>, g: map<NodeId, Rec>,
                   p: NodeId, row: nat, x: NodeId, c: NodeId)
    requires p in v && x in v[p].children && row == PyLists.IndexOf(v[p].children, x)
    requires v1 == (v - s)[p := v[p].(children := PyLists.RemoveFirst(v[p].children, x))]
    requires s <= v.Keys && x in s && g.Keys == s - {x} && (forall y :: y in g ==> g[y] == v[y])
    requires p !in s && c in g && p != x
    ensures c in v && row < |v[p].children|
    ensures v1[p := v1[p].(children := PyLists.Insert(v1[p].children, row, c))]
            + g[c := g[c].(parent := Some(p))]
         == Unwrapped(v, p, row, x, c)
  {
    ReplaceAtIndex(v[p].children, x, c);
    MapUnwrap(v, s, g, p, x, c, v[p].(children := v[p].children[row := c]), v[c].(parent := Some(p)));
  }

  /** Unwrapping: the tree stays valid, loses the NOT node, and its view is `Unwrapped`. */
  lemma UnwrapOk(t: Node, x: NodeId)
    requires ValidTree(t) && NegateArg(t, x) && IsNot(Find(t, x))
    ensures var p := ParentOf(t, x);
      var t' := Negated(t, x, 0);
      var c := Find(t, x).tagList[0].id;
      && p in View(t) && c in View(t) && RowOf(t, x) < |View(t)[p].children|
      && ValidTree(t') && t'.id == t.id && Ids(t') == Ids(t) - {x}
      && View(t') == Unwrapped(View(t), p, RowOf(t, x), x, c)
  {
    NegateParent(t, x);
    NotChild(t, x);
    var p := ParentOf(t, x);
    var v := View(t);
    var f := Find(t, x);
    var cn := f.tagList[0];
    var (t1, out) := Detach(t, p, x);
    var row := RowOf(t, x);
    assert Content(out) == cn;
    assert Negated(t, x, 0) == Attach(t1, p, row, cn);
    assert ValidTree(Attach(t1, p, row, cn)) && Attach(t1, p, row, cn).id == t.id
      && Ids(Attach(t1, p, row, cn)) == Ids(t) - {x}
    by {
      AttachIds(t1, p, row, cn);
      AttachLinked(t1, p, row, cn);
    }
    assert View(Attach(t1, p, row, cn)) == Unwrapped(v, p, row, x, cn.id) by {
      AttachView(t1, p, row, cn);
      WithParentView(cn, Some(p));
      assert cn.id in View(cn) && View(cn)[cn.id] == RecOf(cn) by { AncestorsOfTop(cn); ViewRoot(cn); }
      UnwrapView(v, View(t1), Ids(f), View(cn), p, row, x, cn.id);
    }
  }

  // ---------------------------------------------------------------------
  // Negating twice

  /** Unwrapping what was just wrapped gives the view back. */
  lemma UnwrapWrap(v: map<NodeId, Rec>, p: NodeId, row: nat, x: NodeId, n: NodeId)
    requires p in v && x in v && n !in v && p != x && row < |v[p].children|
    requires v[p].children[row] == x && v[x].parent == Some(p)
    ensures var w := Wrapped(v, p, row, x, n);
      row < |w[p].children| && Unwrapped(w, p, row, n, x) == v
  {
    var w := Wrapped(v, p, row, x, n);
    assert w[p].children[row := x] == v[p].children;
  }

  /** Wrapping again, under the old identity, what was just unwrapped gives the view back. */
  lemma WrapUnwrap(v: map<NodeId, Rec>, p: NodeId, row: nat, x: NodeId, c: NodeId)
    requires p in v && x in v && c in v && p != x && c != x && c != p && row < |v[p].children|
    requires v[p].children[row] == x && v[x] == Rec(SeqLabel(Not), Some(p), [c]) && v[c].parent == Some(x)
    ensures var u := Unwrapped(v, p, row, x, c);
      row < |u[p].children| && x !in u && Wrapped(u, p, row, c, x) == v
  {
    var u := Unwrapped(v, p, row, x, c);
    assert u[p].children[row := x] == v[p].children;
  }

  /** After `Negated` the node that now stands at the row is the new NOT node or the old content. */
  lemma AttachedFound(t: Node, p: NodeId, pos: int, sub: Node)
    requires Unique(t) && p in Ids(t) && Find(t, p).Sequence? && Unique(sub) && Ids(sub) !! Ids(t)
    ensures sub.id in Ids(Attach(t, p, pos, sub)) && Find(Attach(t, p, pos, sub), sub.id) == WithParent(sub, Some(p))
  {
    var f := Find(t, p);
    FindInside(t, p);
    InsertIds(f, pos, sub);
    var s := Insert(f, pos, sub);
    assert CanReplace(t, p, s);
    var q := PyLists.InsertPos(|f.tagList|, pos);
    var sub' := WithParent(sub, Some(p));
    assert s.tagList[q] == sub';
    WithParentIds(sub, Some(p));
    assert sub.id in Ids(sub') by { AncestorsOfTop(sub'); }
    FindListIn(s.tagList, q, sub.id);
    assert p != sub.id by { AncestorsOfTop(sub); }
    assert Find(sub', sub.id) == sub' by { AncestorsOfTop(sub'); }
    ReplaceFindInside(t, p, s, sub.id);
  }

  /** After wrapping, the new NOT node stands in the tree holding the old subtree. */
  lemma WrapFound(t: Node, x: NodeId, n: NodeId)
    requires ValidTree(t) && NegateArg(t, x) && !IsNot(Find(t, x)) && n !in Ids(t)
    ensures n in Ids(Negated(t, x, n))
      && Find(Negated(t, x, n), n) == NewExclude(n, WithParent(Find(t, x), None), Some(ParentOf(t, x)))
  {
    NegateParent(t, x);
    var p := ParentOf(t, x);
    var (t1, out) := Detach(t, p, x);
    var f := Find(t, x);
    assert Unique(f) && Linked(f) && Ids(f) <= Ids(t) by { FindInside(t, x); LinkedFind(t, x); }
    WrapNode(f, n, p);
    AttachedFound(t1, p, RowOf(t, x), NewExclude(n, out, None));
  }

  /** After unwrapping, the former content stands in the tree under the old parent. */
  lemma UnwrapFound(t: Node, x: NodeId)
    requires ValidTree(t) && NegateArg(t, x) && IsNot(Find(t, x))
    ensures var cn := Find(t, x).tagList[0];
      cn.id in Ids(Negated(t, x, 0)) && Find(Negated(t, x, 0), cn.id) == WithParent(cn, Some(ParentOf(t, x)))
  {
    NegateParent(t, x);
    NotChild(t, x);
    var p := ParentOf(t, x);
    var (t1, out) := Detach(t, p, x);
    AttachedFound(t1, p, RowOf(t, x), Content(out));
  }

  /** After wrapping, the new NOT node is a valid argument of `negate`, at the same row under the same parent. */
  lemma WrappedNot(t: Node, x: NodeId, n: NodeId)
    requires ValidTree(t) && NegateArg(t, x) && !IsNot(Find(t, x)) && n !in Ids(t)
    ensures var t' := Negated(t, x, n);
      && ValidTree(t') && NegateArg(t', n) && IsNot(Find(t', n)) && Find(t', n).tagList[0].id == x
      && ParentOf(t', n) == ParentOf(t, x) && RowOf(t', n) == RowOf(t, x)
  {
    WrapOk(t, x, n);
    NegateParent(t, x);
    var p := ParentOf(t, x);
    var v := View(t);
    var row := RowOf(t, x);
    var t' := Negated(t, x, n);
    var w := View(t');
    ViewFind(t', n);
    assert n != t'.id;
    assert RecOf(Find(t', n)) == Rec(SeqLabel(Not), Some(p), [x]);
    assert ChildIds(Find(t', n).tagList) == [x];
    ViewClosed(t);
    WrappedRow(v, w, p, row, x, n);
    IndexOfNodeView(t', n);
  }

  /** In the wrapped view the new node is found at the row of the node it wraps. */
  lemma WrappedRow(v: map<NodeId, Rec>, w: map<NodeId, Rec>, p: NodeId, row: nat, x: NodeId, n: NodeId)
    requires p in v && x in v && p != x && row < |v[p].children| && n !in v
    requires forall c :: c in v[p].children ==> c in v
    requires w == Wrapped(v, p, row, x, n)
    ensures n in w[p].children && PyLists.IndexOf(w[p].children, n) == row
  {
    var kids := v[p].children;
    assert forall j :: 0 <= j < row ==> kids[j] in v;
    assert w[p].children == kids[row := n];
    assert forall j :: 0 <= j < row ==> w[p].children[j] != n;
    assert w[p].children[row] == n;
  }

  /**
   * Negating a node other than a NOT node and then negating the new NOT
   * node at the same row gives the original view back, and the original
   * node with its whole subtree as it was.
   */
  lemma NegateTwice(t: Node, x: NodeId, n: NodeId, m: NodeId)
    requires ValidTree(t) && NegateArg(t, x) && !IsNot(Find(t, x)) && n !in Ids(t)
    ensures var t' := Negated(t, x, n);
      && ValidTree(t') && NegateArg(t', n) && IsNot(Find(t', n))
      && RowOf(t', n) == RowOf(t, x) && ParentOf(t', n) == ParentOf(t, x)
      && View(Negated(t', n, m)) == View(t)
      && x in Ids(Negated(t', n, m)) && Find(Negated(t', n, m), x) == Find(t, x)
  {
    WrappedNot(t, x, n);
    NegateParent(t, x);
    var p := ParentOf(t, x);
    var row := RowOf(t, x);
    var t' := Negated(t, x, n);
    assert Negated(t', n, m) == Negated(t', n, 0) by { NegateParent(t', n); }
    assert View(Negated(t', n, 0)) == View(t) by {
      WrapOk(t, x, n);
      UnwrapOk(t', n);
      UnwrapWrap(View(t), p, row, x, n);
    }
    assert Find(Negated(t', n, 0), x) == Find(t, x) by {
      WrapFound(t, x, n);
      UnwrapFound(t', n);
    }
  }
}
