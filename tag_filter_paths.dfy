/**
 * The drag payload: `_filterRepeatedParentNodes` keeps one root-relative
 * path per selected node that has no strict ancestor in the selection,
 * and `_getNodeFromNodePath` walks such a path back down to its node.
 */
module TagFilterPaths {
  import opened Wrappers
  import opened TagFilterNodes
  import opened TagFilterTree
  import opened TagFilterIndex
  import PyLists
  import PySort

  /**
   * The exceptions the models' operations can raise (the older model asserts
   * where the newer one raises TypeError; AttributeError is the
   * include/exclude editor appending to a tuple).
   */
  datatype PyError = TypeError | IndexError | AssertionError | AttributeError

  /**
   * `_getNodeFromNodePath(path)` with its exceptions: a step from a leaf
   * raises TypeError, a position out of range IndexError.
   */
  function Resolve(n: Node, path: seq<int>): (r: Result<NodeId, PyError>)
    decreases |path|
    ensures r.Ok? <==> ResolveFrom(n, path).Some?
    ensures r.Ok? ==> r.value == ResolveFrom(n, path).value
  {
    if path == [] then Ok(n.id)
    else if n.Leaf? then Err(TypeError)
    else match PyLists.PyIndex(|n.tagList|, path[0])
      case None => Err(IndexError)
      case Some(k) => Resolve(n.tagList[k], path[1..])
  }

  /** `[self._getNodeFromNodePath(np) for np in nodePaths]`: the nodes, or the exception of the first path that fails. */
  function ResolveAll(t: Node, paths: seq<seq<int>>): Result<seq<NodeId>, PyError>
    decreases |paths|
  {
    if paths == [] then Ok([])
    else match ResolveAll(t, paths[..|paths| - 1])
      case Err(e) => Err(e)
      case Ok(ys) =>
        match Resolve(t, paths[|paths| - 1])
        case Err(e) => Err(e)
        case Ok(y) => Ok(ys + [y])
  }

  /** A failure on a prefix of the paths is the failure of the whole list. */
  lemma {:induction false} ResolvePrefixErr(t: Node, paths: seq<seq<int>>, j: nat)
    requires j <= |paths| && ResolveAll(t, paths[..j]).Err?
    ensures ResolveAll(t, paths) == ResolveAll(t, paths[..j])
    decreases |paths| - j
  {
    if j < |paths| {
      var q := paths[..j + 1];
      assert q[..|q| - 1] == paths[..j];
      ResolvePrefixErr(t, paths, j + 1);
    } else {
      assert paths[..j] == paths;
    }
  }

  /** The nodes of a list that resolves: one per path, each the node its path leads to, all in the tree. */
  lemma {:induction false} ResolveAllOk(t: Node, paths: seq<seq<int>>)
    requires ResolveAll(t, paths).Ok?
    ensures var ms := ResolveAll(t, paths).value;
      && |ms| == |paths|
      && forall k :: 0 <= k < |ms| ==> ResolveFrom(t, paths[k]) == Some(ms[k]) && ms[k] in Ids(t)
    decreases |paths|
  {
    if paths != [] {
      var init := paths[..|paths| - 1];
      ResolveAllOk(t, init);
      ResolveIn(t, paths[|paths| - 1]);
      var ms := ResolveAll(t, paths).value;
      forall k | 0 <= k < |ms| ensures ResolveFrom(t, paths[k]) == Some(ms[k]) && ms[k] in Ids(t) {
        if k < |paths| - 1 {
          assert paths[k] == init[k];
        }
      }
    }
  }

  /** Some strict ancestor of `y` is selected. */
  predicate Covered(t: Node, sel: set<NodeId>, y: NodeId)
    requires y in Ids(t)
  {
    exists k :: 0 <= k < |AncestorsFrom(t, y)| && AncestorsFrom(t, y)[k] in sel
  }

  /** The paths of the selected nodes no selected node lies above. */
  function KeptPaths(t: Node, sel: set<NodeId>): set<seq<int>>
    requires sel <= Ids(t)
  {
    set y | y in sel && !Covered(t, sel, y) :: PathFrom(t, y)
  }

  /** A kept path leads back to a selected node no selected node lies above. */
  lemma KeptResolve(t: Node, sel: set<NodeId>, q: seq<int>)
    requires sel <= Ids(t) && q in KeptPaths(t, sel)
    ensures ResolveFrom(t, q).Some? && ResolveFrom(t, q).value in sel
    ensures !Covered(t, sel, ResolveFrom(t, q).value) && PathFrom(t, ResolveFrom(t, q).value) == q
  {
    var y :| y in sel && !Covered(t, sel, y) && PathFrom(t, y) == q;
    ResolvePathFrom(t, y);
  }

  /** Every selected node no selected node lies above has its path kept, and only that node has it. */
  lemma KeptComplete(t: Node, sel: set<NodeId>, y: NodeId)
    requires sel <= Ids(t) && y in sel && !Covered(t, sel, y)
    ensures PathFrom(t, y) in KeptPaths(t, sel)
    ensures forall z :: z in Ids(t) && PathFrom(t, z) == PathFrom(t, y) ==> z == y
  {
    forall z | z in Ids(t) && PathFrom(t, z) == PathFrom(t, y) ensures z == y {
      PathInjective(t, z, y);
    }
  }

  /** The top node has the empty path and no ancestor, so it is kept whenever it is selected. */
  lemma TopKept(t: Node, sel: set<NodeId>)
    requires sel <= Ids(t) && t.id in sel
    ensures [] in KeptPaths(t, sel)
  {
    AncestorsOfTop(t);
    assert !Covered(t, sel, t.id);
  }

  /**
   * One step of the walk up the parents: `path` holds the positions
   * collected so far (deepest first), `chk` the ancestors passed so far.
   */
  lemma WalkStep(t: Node, y: NodeId, prev: NodeId, path: seq<int>, chk: seq<NodeId>)
    requires ValidTree(t) && y in Ids(t) && prev in Ids(t) && prev != t.id
    requires PathFrom(t, y) == PathFrom(t, prev) + PyLists.Reverse(path)
    requires AncestorsFrom(t, y) == AncestorsFrom(t, prev) + chk
    ensures var cur := ParentOf(t, prev);
      var i := PyLists.IndexOf(ChildIds(Find(t, cur).tagList), prev);
      && PathFrom(t, y) == PathFrom(t, cur) + PyLists.Reverse(path + [i])
      && AncestorsFrom(t, y) == AncestorsFrom(t, cur) + ([cur] + chk)
      && |AncestorsFrom(t, cur)| < |AncestorsFrom(t, prev)|
  {
    var cur := ParentOf(t, prev);
    var i := PyLists.IndexOf(ChildIds(Find(t, cur).tagList), prev);
    PathUp(t, prev);
    Regroup(PathFrom(t, y), PathFrom(t, prev), PathFrom(t, cur), [i], PyLists.Reverse(path));
    ReverseSnoc(path, i);
    Regroup(AncestorsFrom(t, y), AncestorsFrom(t, prev), AncestorsFrom(t, cur), [cur], chk);
  }

  /** Re-associating a split of a split. */
  lemma Regroup<T>(a: seq<T>, b: seq<T>, c: seq<T>, d: seq<T>, e: seq<T>)
    requires a == b + e && b == c + d
    ensures a == c + (d + e) && |c| + |d| == |b|
  {
  }

  /** Reversing after appending puts the appended item first. */
  lemma ReverseSnoc<T>(s: seq<T>, x: T)
    ensures PyLists.Reverse(s + [x]) == [x] + PyLists.Reverse(s)
  {
  }

  /** Reaching an ancestor that is selected: `y` is covered. */
  lemma WalkBlocked(t: Node, sel: set<NodeId>, y: NodeId, prev: NodeId, chk: seq<NodeId>)
    requires ValidTree(t) && y in Ids(t) && prev in Ids(t) && prev != t.id
    requires AncestorsFrom(t, y) == AncestorsFrom(t, prev) + chk && ParentOf(t, prev) in sel
    ensures Covered(t, sel, y)
  {
    PathUp(t, prev);
    var a := AncestorsFrom(t, ParentOf(t, prev));
    assert AncestorsFrom(t, y)[|a|] == ParentOf(t, prev);
  }

  /** Reaching the top with no selected ancestor on the way: `y` is not covered, and the collected positions are its path. */
  lemma WalkDone(t: Node, sel: set<NodeId>, y: NodeId, path: seq<int>, chk: seq<NodeId>)
    requires ValidTree(t) && y in Ids(t)
    requires PathFrom(t, y) == PathFrom(t, t.id) + PyLists.Reverse(path)
    requires AncestorsFrom(t, y) == AncestorsFrom(t, t.id) + chk
    requires forall k :: 0 <= k < |chk| ==> chk[k] !in sel
    ensures !Covered(t, sel, y) && PathFrom(t, y) == PyLists.Reverse(path)
  {
    AncestorsOfTop(t);
  }

  /** Sorting keeps the paths and their lack of repetition, and orders them as tuples. */
  lemma SortedPaths(keys: seq<seq<int>>)
    requires PyLists.NoDup(keys)
    ensures var r := PySort.SortLex(keys);
      PySort.LexSorted(r) && PyLists.NoDup(r) && forall q :: q in r <==> q in keys
  {
    PySort.SortLexSorted(keys);
    PyLists.NoDupPerm(keys, PySort.SortLex(keys));
    PyLists.PermMembers(keys, PySort.SortLex(keys));
  }

  /** A resolved path ends at a node of the tree. */
  lemma {:induction false} ResolveIn(n: Node, path: seq<int>)
    requires ResolveFrom(n, path).Some?
    ensures ResolveFrom(n, path).value in Ids(n)
    decreases |path|
  {
    if path == [] {
      AncestorsOfTop(n);
    } else {
      var k := PyLists.PyIndex(|n.tagList|, path[0]).value;
      ResolveIn(n.tagList[k], path[1..]);
      ChildInList(n.tagList, k);
    }
  }
}
