/**
 * Where the two drops part ways. The older drop reads each index's parent
 * after the removals before it; once a dragged sibling of the target with
 * a smaller row is out, the target's own index has moved up a row, no
 * longer equals `parentIndex`, and the dragged children of the target
 * before the drop row stop lowering it.
 */
module TagFilterLibFinding {
  import opened Wrappers
  import opened TagFilterNodes
  import opened TagFilterTree
  import opened TagFilterIndex
  import opened TagFilterEdits
  import opened TagFilterEvents
  import opened TagFilterOps
  import opened TagFilterRemoval
  import opened TagFilterMove
  import opened TagFilterPaths
  import opened TagFilterDrop
  import opened TagFilterLibDrop
  import PyLists
  import PySort

  /** The sequence `P[b0, b1, b2]` under the top node. */
  function Inner(): Node
  {
    Sequence(3, And, Some(0), [Leaf(4, "b0", Some(3)), Leaf(5, "b1", Some(3)), Leaf(6, "b2", Some(3))])
  }

  /** `x`, `y` and `P[b0, b1, b2]` at the top level, with identities 1 to 6. */
  function Example(): Node
  {
    Sequence(0, Or, None, [Leaf(1, "x", Some(0)), Leaf(2, "y", Some(0)), Inner()])
  }

  /** The example after `y` is taken out. */
  function ExampleLessY(): Node
  {
    Sequence(0, Or, None, [Leaf(1, "x", Some(0)), Inner()])
  }

  lemma InnerValid()
    ensures Ids(Inner()) == {3, 4, 5, 6} && Unique(Inner()) && Linked(Inner())
    ensures ChildIds(Inner().tagList) == [4, 5, 6]
  {
    var ts := Inner().tagList;
    assert IdsList(ts[2..]) == {6};
    assert IdsList(ts[1..]) == {5, 6};
    assert IdsList(ts) == {4, 5, 6};
  }

  /** The example tree is well formed. */
  lemma ExampleValid()
    ensures ValidTree(Example()) && Ids(Example()) == {0, 1, 2, 3, 4, 5, 6} && Fresh(Example(), 7)
  {
    InnerValid();
    var ts := Example().tagList;
    assert IdsList(ts[2..]) == {3, 4, 5, 6};
    assert IdsList(ts[1..]) == {2, 3, 4, 5, 6};
  }

  /** The paths of `y` and `b0` resolve to those two nodes. */
  lemma ExampleResolves()
    ensures ResolveAll(Example(), [[1], [2, 0]]) == Ok([2, 4])
  {
    var one: seq<seq<int>> := [[1]];
    var paths: seq<seq<int>> := [[1], [2, 0]];
    assert Resolve(Example(), [1]) == Ok(2);
    assert Resolve(Inner(), [0]) == Ok(4);
    assert Resolve(Example(), [2, 0]) == Ok(4);
    assert one[..0] == [] && one[0] == [1];
    var none: seq<NodeId> := [];
    assert ResolveAll(Example(), one) == Ok(none + [2]);
    assert none + [2] == [2];
    assert paths[..1] == one && paths[1] == [2, 0];
    assert ResolveAll(Example(), paths[..|paths| - 1]) == Ok([2]);
    assert ResolveAll(Example(), paths) == Ok([2] + [4]);
    assert [2] + [4] == [2, 4];
  }

  /** The nodes each example index stands for, and the indexes of the nodes that move. */
  lemma ExampleIndexes()
    ensures ValidTree(Example()) && Ids(Example()) == {0, 1, 2, 3, 4, 5, 6}
    ensures Find(Example(), 2) == Leaf(2, "y", Some(0)) && Find(Example(), 3) == Inner()
    ensures Find(Example(), 4) == Leaf(4, "b0", Some(3))
    ensures IndexOfNode(Example(), 3) == At(2, 3)
    ensures IndexesOf(Example(), [2, 4]) == [At(1, 2), At(0, 4)]
  {
    ExampleValid();
    InnerValid();
    var t := Example();
    assert ChildIds(t.tagList) == [1, 2, 3];
    assert ChildIds(Inner().tagList) == [4, 5, 6];
    assert PyLists.IndexOf([1, 2, 3], 3) == 2;
    assert PyLists.IndexOf([1, 2, 3], 2) == 1;
  }

  /** The example without `y` is well formed, and `P` is its second child. */
  lemma LessYValid()
    ensures ValidTree(ExampleLessY()) && Ids(ExampleLessY()) == {0, 1, 3, 4, 5, 6}
    ensures Find(ExampleLessY(), 4) == Leaf(4, "b0", Some(3)) && Find(ExampleLessY(), 3) == Inner()
    ensures IndexOfNode(ExampleLessY(), 3) == At(1, 3)
  {
    InnerValid();
    var t := ExampleLessY();
    assert IdsList(t.tagList[1..]) == {3, 4, 5, 6};
    assert ChildIds(t.tagList) == [1, 3];
    assert PyLists.IndexOf([1, 3], 3) == 1;
  }

  /** `y` and `b0` can be moved into `P`: neither holds the other and `P` is not among them. */
  lemma ExampleMoveArg()
    ensures ValidTree(Example()) && MoveArg(Example(), 3, [2, 4]) && GoneIds(Example(), [2, 4]) == {2, 4}
  {
    ExampleIndexes();
    var ms: seq<NodeId> := [2, 4];
    assert ms[1..] == [4] && ms[1..][1..] == [];
  }

  /** The dragged indexes are already largest row first. */
  lemma ExampleOrder()
    ensures PySort.SortDesc([At(1, 2), At(0, 4)], RowKey) == [At(1, 2), At(0, 4)]
  {
    var xs := [At(1, 2), At(0, 4)];
    assert xs[..1] == [At(1, 2)] && xs[..1][..0] == [];
    assert PySort.SortDesc(xs[..1], RowKey) == [At(1, 2)];
  }

  /** Taking `y` out of the top node leaves `x` and `P`. */
  lemma ExampleDetachY()
    ensures ValidTree(Example()) && 2 in Ids(Example()) && 2 != Example().id && ParentOf(Example(), 2) == 0
    ensures Detach(Example(), 0, 2).0 == ExampleLessY()
  {
    ExampleIndexes();
    var t := Example();
    assert ChildIds(t.tagList) == [1, 2, 3];
    assert PyLists.IndexOf([1, 2, 3], 2) == 1;
    assert t.tagList[..1] + t.tagList[2..] == ExampleLessY().tagList;
  }

  /**
   * The older loop on the example: `y`'s parent is the top level, not `P`;
   * after `y` is gone, `P` sits at row 1, so `b0`'s parent index `(1, P)`
   * is not the target `(2, P)` either, and the drop row stays 2.
   */
  lemma ExampleInterleave()
    ensures ValidTree(Example()) && AllAt([At(1, 2), At(0, 4)])
    ensures Separate(Example(), Nodes([At(1, 2), At(0, 4)]))
    ensures Interleave(Example(), [At(1, 2), At(0, 4)], At(2, 3), 2) == 2
  {
    ExampleMoveArg();
    ExampleDetachY();
    LessYValid();
    var t := Example();
    var order := [At(1, 2), At(0, 4)];
    assert Nodes(order) == [2, 4];
    assert ParentIndex(t, order[0]) == At(0, 0);
    var t1 := Detach(t, ParentOf(t, 2), 2).0;
    assert t1 == ExampleLessY();
    var rest := order[1..];
    assert rest == [At(0, 4)] && rest[1..] == [];
    assert ParentOf(t1, 4) == 3;
    assert ParentIndex(t1, rest[0]) == At(1, 3);
  }

  /**
   * What the example tree `t` shows about the drop of `y` (node 2) and `b0`
   * (node 4) onto row 2 of `P` (node 3): both drops accept it, and `P`
   * holds `b0, b1, b2`.
   */
  predicate DropCase(t: Node)
  {
    && ValidTree(t) && Fresh(t, 7) && Live(t, At(2, 3)) && Find(t, 3).Sequence?
    && ResolveAll(t, [[1], [2, 0]]) == Ok([2, 4]) && MoveArg(t, 3, [2, 4])
    && 3 in View(t) && View(t)[3].children == [4, 5, 6]
  }

  lemma ExampleDropCase()
    ensures DropCase(Example())
  {
    ExampleValid();
    ExampleIndexes();
    ExampleResolves();
    ExampleMoveArg();
    InnerValid();
    SequenceInView(Example(), 3);
  }

  /** On the example, the row the older drop inserts at stays 2. */
  lemma ExampleLibRow()
    ensures ValidTree(Example()) && MoveArg(Example(), 3, [2, 4])
    ensures LibDropAt(Example(), At(2, 3), [2, 4], 2) == 2
  {
    ExampleIndexes();
    ExampleMoveArg();
    ExampleOrder();
    ExampleInterleave();
  }

  /** The children of `P` after the older drop: those not dragged, then the dragged ones at row 2. */
  lemma LibLanding(kids: seq<NodeId>)
    requires kids == [4, 5, 6]
    ensures Splice(FilterOut(kids, Roots([2, 4])), 2, [2, 4]) == [5, 6, 2, 4]
  {
    var kept: seq<NodeId> := [5, 6];
    assert FilterOut(kids, Roots([2, 4])) == kept;
    assert kept[..2] == kept && kept[2..] == [];
  }

  /** The children of `P` after the newer drop: the dragged ones in front of what was at row 2. */
  lemma Landing(kids: seq<NodeId>)
    requires kids == [4, 5, 6]
    ensures FilterOut(kids[..2], Roots([2, 4])) + [2, 4] + FilterOut(kids[2..], Roots([2, 4])) == [5, 2, 4, 6]
  {
    var cut := Roots([2, 4]);
    assert kids[..2] == [4, 5] && kids[2..] == [6];
    assert FilterOut([4, 5], cut) == [5];
    assert FilterOut([6], cut) == [6];
  }

  /** The older drop of that payload to a tree where the corrected row stays 2. */
  lemma LibDropCase(t: Node)
    requires DropCase(t) && LibDropAt(t, At(2, 3), [2, 4], 2) == 2
    ensures LibDropInput(t, At(2, 3), [[1], [2, 0]])
    ensures var o := LibDropStep(t, 7, At(2, 3), [[1], [2, 0]], 2);
      && o.result == Ok(true) && 3 in View(o.tree) && View(o.tree)[3].children == [5, 6, 2, 4]
  {
    LibDropStepOk(t, 7, At(2, 3), [[1], [2, 0]], 2);
    LibDropLands(t, 7, At(2, 3), [[1], [2, 0]], 2);
    LibLanding(View(t)[3].children);
  }

  /** The newer drop of that payload. */
  lemma DropCaseLands(t: Node)
    requires DropCase(t)
    ensures DropInput(t, At(2, 3), [[1], [2, 0]])
    ensures var o := DropStep(t, 7, At(2, 3), [[1], [2, 0]], 2);
      && o.result == Ok(true) && 3 in View(o.tree) && View(o.tree)[3].children == [5, 2, 4, 6]
  {
    DropStepOk(t, 7, At(2, 3), [[1], [2, 0]], 2);
    DropStepLands(t, 7, At(2, 3), [[1], [2, 0]], 2);
    Landing(View(t)[3].children);
  }

  /**
   * As written, the older drop of `y` and `b0` onto row 2 of `P` leaves
   * `P` as `b1, b2, y, b0`: the dragged nodes land after `b2`, the child
   * they were dropped in front of.
   */
  lemma LibDropOvershoots()
    ensures ValidTree(Example()) && LibDropInput(Example(), At(2, 3), [[1], [2, 0]])
    ensures var o := LibDropStep(Example(), 7, At(2, 3), [[1], [2, 0]], 2);
      && o.result == Ok(true) && 3 in View(o.tree) && View(o.tree)[3].children == [5, 6, 2, 4]
  {
    ExampleDropCase();
    ExampleLibRow();
    LibDropCase(Example());
  }

  /**
   * The newer drop of the same payload leaves `P` as `b1, y, b0, b2`: the
   * dragged nodes land in front of `b2`, which was at row 2.
   */
  lemma DropKeepsRow()
    ensures ValidTree(Example()) && DropInput(Example(), At(2, 3), [[1], [2, 0]])
    ensures var o := DropStep(Example(), 7, At(2, 3), [[1], [2, 0]], 2);
      && o.result == Ok(true) && 3 in View(o.tree) && View(o.tree)[3].children == [5, 2, 4, 6]
  {
    ExampleDropCase();
    DropCaseLands(Example());
  }
}
