/**
 * `mergeTags` of the include/exclude editor reads `indexes[0].parent()`
 * and the length of the node behind it before its loop checks the indexes.
 * When the first index is invalid, or is the top-level index, that parent
 * is the invalid index, its node is None, and `len(None)` raises TypeError;
 * the loop's own checks for exactly these two indexes, which return None
 * without a word, are never reached for the first one.
 */
module IncludeExcludeFinding {
  import opened Wrappers
  import opened TagFilterNodes
  import opened TagFilterTree
  import opened TagFilterIndex
  import opened TagFilterEvents
  import opened TagFilterOps
  import opened TagFilterSteps
  import opened TagFilterPaths
  import opened IncludeExcludeSteps

  /** The top OR node with one leaf `a`. */
  function Small(): Node
  {
    Sequence(0, Or, None, [Leaf(1, "a", Some(0))])
  }

  lemma SmallValid()
    ensures ValidTree(Small()) && Ids(Small()) == {0, 1} && Fresh(Small(), 2)
    ensures MergeArg(Small(), [TopLevel(Small())]) && MergeArg(Small(), [Invalid])
  {
    assert IdsList(Small().tagList) == {1};
    assert IndexOfNode(Small(), 0) == TopLevel(Small());
  }

  /** As written: merging the top-level index alone, or the invalid index, raises TypeError. */
  lemma MergeFirstIndexRaises()
    ensures ValidTree(Small()) && MergeArg(Small(), [TopLevel(Small())]) && MergeArg(Small(), [Invalid])
    ensures MergeTagsStep(Small(), 2, And, [TopLevel(Small())]).result == Err(TypeError)
    ensures MergeTagsStep(Small(), 2, And, [Invalid]).result == Err(TypeError)
  {
    SmallValid();
  }

  /**
   * `mergeTags` with its index checks before the first index's parent is
   * read: a bad first index is refused like a bad later one.
   */
  function MergeTagsChecked(t: Node, next: nat, kind: SeqKind, xs: seq<Index>): Outcome<Result<Option<Index>, PyError>>
    requires ValidTree(t) && MergeArg(t, xs) && kind != Not
  {
    if xs != [] && (xs[0].Invalid? || xs[0].node == t.id) then Outcome(t, next, [], Ok(None))
    else MergeTagsStep(t, next, kind, xs)
  }

  /**
   * The checked merge never raises: it returns an index exactly when the
   * indexes are editable siblings, and then does what `mergeTags` does;
   * otherwise it returns None with nothing changed.
   */
  lemma MergeTagsCheckedOk(t: Node, next: nat, kind: SeqKind, xs: seq<Index>)
    requires ValidTree(t) && Fresh(t, next) && MergeArg(t, xs) && kind != Not
    ensures var o := MergeTagsChecked(t, next, kind, xs);
      && o.result.Ok? && ValidTree(o.tree) && Fresh(o.tree, o.next)
      && (o.result.value.Some? <==> IndexProblem(t, xs).None? && SameParent(t, xs))
      && (o.result.value.Some? ==> o == MergeTagsStep(t, next, kind, xs))
      && (o.result.value.None? ==> o.tree == t && o.next == next && o.events == [])
  {
    MergeTagsStepOk(t, next, kind, xs);
    if xs != [] && (xs[0].Invalid? || xs[0].node == t.id) {
      assert FirstBadIndex(t, xs).Some? by {
        assert !Editable(t, xs[0]);
      }
    }
  }
}
