/**
 * What the tag-filter model reports: the `failureCause` messages and the
 * row-change notifications (`beginInsertRows`/`endInsertRows`,
 * `beginRemoveRows`/`endRemoveRows`), and the index checks of
 * `_isIndexInvalid`.
 */
module TagFilterEvents {
  import opened Wrappers
  import opened TagFilterNodes
  import opened TagFilterTree
  import opened TagFilterIndex

  /** The messages emitted on `failureCause`. */
  datatype FailureCause =
    | NoIndex                         // "There is no index"
    | InvalidIndex                    // "The index is invalid"
    | TopLevelIndex                   // "Cannot use top level index"
    | DifferentParents                // "Indexes have different parents"
    | NotSequence                     // "Index is not of sequence type"
    | DuplicateTag(name: string)      // "Tag with name: {} already exist"
    | UnsupportedColumns(count: int)  // "Unsupported column size: {}, expected 1"

  /** One notification, in the order the model sends them. */
  datatype Event =
    | BeginInsertRows(parent: Index, first: int, last: int)
    | EndInsertRows
    | BeginRemoveRows(parent: Index, first: int, last: int)
    | EndRemoveRows
    | Failure(cause: FailureCause)

  /** An index the editing operations accept: a valid one other than the top-level index. */
  predicate Editable(t: Node, i: Index)
  {
    i.At? && i != TopLevel(t)
  }

  /** `_isIndexInvalid(*indexes)`: the complaint about the list, or nothing when every index is editable. */
  function IndexProblem(t: Node, xs: seq<Index>): Option<FailureCause>
  {
    if xs == [] then Some(NoIndex) else FirstBadIndex(t, xs)
  }

  /** The complaint about the first index that is not editable. */
  function FirstBadIndex(t: Node, xs: seq<Index>): Option<FailureCause>
  {
    if xs == [] then None
    else if xs[0].Invalid? then Some(InvalidIndex)
    else if xs[0] == TopLevel(t) then Some(TopLevelIndex)
    else FirstBadIndex(t, xs[1..])
  }

  /** The list is accepted exactly when it is non-empty and every index is editable. */
  lemma {:induction false} IndexProblemNone(t: Node, xs: seq<Index>)
    ensures IndexProblem(t, xs).None? <==> xs != [] && forall k :: 0 <= k < |xs| ==> Editable(t, xs[k])
  {
    FirstBadIndexNone(t, xs);
  }

  lemma {:induction false} FirstBadIndexNone(t: Node, xs: seq<Index>)
    ensures FirstBadIndex(t, xs).None? <==> forall k :: 0 <= k < |xs| ==> Editable(t, xs[k])
  {
    if xs != [] {
      FirstBadIndexNone(t, xs[1..]);
      assert forall k :: 1 <= k < |xs| ==> xs[k] == xs[1..][k - 1];
    }
  }

  /** The complaint names the first index that is not editable: invalid, or the top-level index. */
  lemma {:induction false} FirstBadIndexAt(t: Node, xs: seq<Index>, k: nat)
    requires k < |xs| && !Editable(t, xs[k])
    requires forall j :: 0 <= j < k ==> Editable(t, xs[j])
    ensures IndexProblem(t, xs) == Some(if xs[k].Invalid? then InvalidIndex else TopLevelIndex)
    decreases k
  {
    if k > 0 {
      assert Editable(t, xs[0]);
      FirstBadIndexAt(t, xs[1..], k - 1);
      assert xs[1..][k - 1] == xs[k];
      assert forall j :: 0 <= j < k - 1 ==> xs[1..][j] == xs[j + 1];
    }
  }

  /** `beginInsertRows(parent, first, first + n - 1)` and `endInsertRows()` around an insertion of `n` rows from `first` on. */
  function InsertRun(parent: Index, first: int, n: int): seq<Event>
  {
    [BeginInsertRows(parent, first, first + n - 1), EndInsertRows]
  }

  /** The node an index points at (0 stands in for the invalid index, which the callers have ruled out). */
  function NodeOf(i: Index): NodeId
  {
    if i.At? then i.node else 0
  }

  /** The node of each index. */
  function Nodes(xs: seq<Index>): (r: seq<NodeId>)
    ensures |r| == |xs|
    ensures forall k :: 0 <= k < |xs| ==> r[k] == NodeOf(xs[k])
  {
    seq(|xs|, k requires 0 <= k < |xs| => NodeOf(xs[k]))
  }

  /** The sort key `lambda i: -i.row()` without the sign: `PySort.SortDesc` puts the largest first. */
  function RowKey(i: Index): int
  {
    if i.At? then i.row else 0
  }
}
