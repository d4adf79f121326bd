/**
 * The item model of the include/exclude editor: the tree it owns and the
 * notifications it sends its views, with `rowCount`, `addSimple`, `remove`
 * and `mergeTags`, each proved against the value-level steps of
 * `IncludeExcludeSteps`.
 *
 * As in the tag-filter model, the node objects the source mutates in place
 * are the value tree `top`, `nextId` is the identity of the next node the
 * model creates, and `log` records the begin/end notifications in order
 * (this model sends no failure messages).
 */
module IncludeExcludeModel {
  import opened Wrappers
  import opened TagFilterNodes
  import opened TagFilterTree
  import opened TagFilterIndex
  import opened TagFilterEdits
  import opened TagFilterEvents
  import opened TagFilterOps
  import opened TagFilterRemoval
  import opened TagFilterMerge
  import opened TagFilterSteps
  import opened TagFilterPaths
  import opened IncludeExcludeNodes
  import opened IncludeExcludeSteps
  import TagFilterModel
  import PyLists

  /**
   * Where the removal loop of `mergeTags` stands before the index at `i`, on
   * the tree `t` with counter `next` and notifications `log`: `nodes` holds
   * the `i` nodes taken out, `done` the rows announced since `l0`, and what
   * is left to do on `t` completes `final` and `run`.
   */
  ghost predicate SiblingsLeft(t: Node, next: nat, log: seq<Event>, xs: seq<Index>, i: nat, p: NodeId,
                               final: (Node, seq<Node>), run: seq<Event>, nodes: seq<Node>, done: seq<Event>, l0: seq<Event>)
  {
    && i <= |xs| && |nodes| == i && ValidTree(t) && Fresh(t, next) && p in Ids(t)
    && AllAt(xs[i..]) && Siblings(t, p, Nodes(xs[i..])) && PyLists.NoDup(Nodes(xs[i..]))
    && Separate(t, Nodes(xs[i..]))
    && final.0 == DetachSeq(t, Nodes(xs[i..])).0
    && final.1 == Orphans(nodes) + DetachSeq(t, Nodes(xs[i..])).1
    && run == done + RemoveRun(t, xs[i..])
    && log == l0 + done
  }

  /** Before the loop nothing is done: all of `DetachSeq` and `RemoveRun` is left. */
  lemma SiblingsStart(t: Node, next: nat, log: seq<Event>, xs: seq<Index>, p: NodeId)
    requires ValidTree(t) && Fresh(t, next) && AllAt(xs) && Siblings(t, p, Nodes(xs)) && PyLists.NoDup(Nodes(xs)) && p in Ids(t)
    ensures Separate(t, Nodes(xs))
    ensures SiblingsLeft(t, next, log, xs, 0, p, DetachSeq(t, Nodes(xs)), RemoveRun(t, xs), [], [], log)
  {
    SiblingsSeparate(t, p, Nodes(xs));
    assert xs[0..] == xs;
    assert Orphans([]) == [];
  }

  /** After the last index the tree is the one `DetachSeq` gives, the nodes are its orphans and the rows are `RemoveRun`. */
  lemma SiblingsEnd(t: Node, next: nat, log: seq<Event>, xs: seq<Index>, p: NodeId,
                    final: (Node, seq<Node>), run: seq<Event>, nodes: seq<Node>, done: seq<Event>, l0: seq<Event>)
    requires SiblingsLeft(t, next, log, xs, |xs|, p, final, run, nodes, done, l0)
    ensures ValidTree(t) && Fresh(t, next) && t == final.0 && Orphans(nodes) == final.1 && log == l0 + run
  {
    assert xs[|xs|..] == [];
  }

  class IncludeExcludeModel {
    var top: Node
    var nextId: nat
    var log: seq<Event>
    /** The top node's children are the tuple `()` rather than a list. */
    const topIsTuple: bool

    /** The tree is well formed and no node has the identity the next new node receives. */
    ghost predicate Valid()
      reads this
    {
      ValidTree(top) && Fresh(top, nextId)
    }

    /**
     * `IncludeExcludeModel(topNode)`: a new empty OR node, or a copy of the
     * given tree. The new OR node holds the tuple `()` its class defaults
     * to, which `topIsTuple` records.
     */
    constructor (topNode: Option<Node>)
      requires topNode.Some? ==> ValidTree(topNode.value)
      ensures Valid() && log == []
      ensures topIsTuple <==> topNode.None?
      ensures topNode.None? ==> top == DefaultTop() && nextId == 1
      ensures topNode.Some? ==> top == topNode.value
    {
      if topNode.None? {
        DefaultTopShape();
        top := DefaultTop();
        nextId := 1;
      } else {
        top := topNode.value;
        nextId := IdBound(topNode.value);
      }
      topIsTuple := topNode.None?;
      log := [];
    }

    /** `rowCount(index)`: one row (the top node) under the root, otherwise the node's number of children. */
    method RowCount(i: Index) returns (n: int)
      requires Valid() && IndexArg(top, i)
      ensures i.Invalid? ==> n == 1
      ensures i.At? ==> i.node in View(top) && n == |View(top)[i.node].children|
    {
      if i.Invalid? {
        return 1;
      }
      var node := Find(top, i.node);
      ViewFind(top, i.node);
      n := Len(node);
    }

    /**
     * `addSimple(text, parent)`: the invalid index stands for the top node;
     * nothing happens for a leaf target or a name already among the
     * children; otherwise a leaf is appended between the notifications, or,
     * on the top node's tuple, AttributeError is raised after the first one.
     * `Ok(true)` marks the append, `Ok(false)` the silent return.
     */
    method AddSimple(text: string, parent: Index) returns (r: Result<bool, PyError>)
      requires Valid() && IndexArg(top, parent)
      modifies this
      ensures Valid()
      ensures var s := AddStep(old(top), old(nextId), parent, text, topIsTuple);
        top == s.tree && nextId == s.next && log == old(log) + s.events && r == s.result
    {
      AddStepCases(top, nextId, parent, text, topIsTuple);
      var p := Target(top, parent);
      var pidx := TargetIndex(top, parent);
      var node := Find(top, p);
      if node.Leaf? {
        return Ok(false);
      }
      var taken := TagFilterModel.TagFilterModel.NameTaken(node.tagList, text);
      if taken {
        return Ok(false);
      }
      var row := |node.tagList|;
      log := log + [BeginInsertRows(pidx, row, row)];
      if topIsTuple && p == top.id {
        return Err(AttributeError);
      }
      top := Attach(top, p, row, Leaf(nextId, text, Some(p)));
      nextId := nextId + 1;
      log := log + [EndInsertRows];
      r := Ok(true);
    }

    /**
     * `remove(curIndex)`: nothing for the invalid or the top-level index;
     * otherwise the node leaves its parent's list between the notifications
     * for rows 0 to 0 and is returned, still naming its old parent.
     */
    method Remove(ind: Index) returns (out: Option<Node>)
      requires Valid() && (ind.At? ==> ind.node in Ids(top) && (ind.node == top.id ==> ind.row == 0))
      modifies this
      ensures Valid()
      ensures var o := RemoveStep(old(top), old(nextId), ind);
        top == o.tree && nextId == o.next && log == old(log) + o.events && out == o.result
    {
      if ind.Invalid? || ind == TopLevel(top) {
        return None;
      }
      RemoveStepOk(top, nextId, ind);
      var m := ind.node;
      log := log + [BeginRemoveRows(ParentIndex(top, ind), 0, 0)];
      var node := Find(top, m);
      var (t1, _) := Detach(top, ParentOf(top, m), m);
      top := t1;
      log := log + [EndRemoveRows];
      out := Some(node);
    }

    /**
     * `mergeTags(nodeType, indexes)`: None for no index; TypeError when the
     * first index is invalid or the top-level one, whose parent has no node
     * to take the length of; None when the loop finds an invalid or
     * top-level index or another parent; otherwise the nodes are removed in
     * the order given and a new node holding them goes in at the smallest of
     * their rows, whose index is returned.
     */
    method MergeTags(kind: SeqKind, xs: seq<Index>) returns (r: Result<Option<Index>, PyError>)
      requires Valid() && MergeArg(top, xs) && kind != Not
      modifies this
      ensures Valid()
      ensures var o := MergeTagsStep(old(top), old(nextId), kind, xs);
        top == o.tree && nextId == o.next && log == old(log) + o.events && r == o.result
    {
      if xs == [] {
        return Ok(None);
      }
      if xs[0].Invalid? || xs[0].node == top.id {
        return Err(TypeError);
      }
      var pidx := ParentIndex(top, xs[0]);
      var p := ParentOf(top, xs[0].node);
      var ok, first := CheckIndexes(top, xs);
      if !ok {
        return Ok(None);
      }
      r := MergeRemoved(kind, xs, p, pidx, first);
    }

    /**
     * The loop of `mergeTags` over the indexes: each must be valid, not the
     * top-level index and under the first one's parent; the first position
     * is lowered to each node's row in that parent.
     */
    static method CheckIndexes(t: Node, xs: seq<Index>) returns (ok: bool, first: int)
      requires ValidTree(t) && MergeArg(t, xs) && xs != [] && xs[0].At? && xs[0].node != t.id
      ensures xs[0].node in Ids(t)
      ensures ok <==> IndexProblem(t, xs).None? && SameParent(t, xs)
      ensures ok ==> first == MinPos(ChildIds(Find(t, ParentOf(t, xs[0].node)).tagList), Nodes(xs))
    {
      assert IndexArg(t, xs[0]);
      var pidx := ParentIndex(t, xs[0]);
      var kids := ChildIds(Find(t, ParentOf(t, xs[0].node)).tagList);
      ghost var ns := Nodes(xs);
      first := |kids|;
      var k := 0;
      while k < |xs|
        invariant 0 <= k <= |xs| && Passed(t, xs, k)
        invariant first == MinPos(kids, ns[..k])
      {
        var ind := xs[k];
        assert IndexArg(t, xs[k]);
        if ind.Invalid? || ind == TopLevel(t) {
          IndexProblemNone(t, xs);
          return false, first;
        }
        if ParentIndex(t, ind) != pidx {
          return false, first;
        }
        first := LowerFirst(t, xs, k, kids, first);
        k := k + 1;
      }
      assert ns[..k] == ns;
      PassedAll(t, xs);
      ok := true;
    }

    /** One index of that loop that passes: the first position is lowered to its row when that is smaller. */
    static method LowerFirst(t: Node, xs: seq<Index>, k: nat, kids: seq<NodeId>, first: int) returns (first': int)
      requires ValidTree(t) && xs != [] && xs[0].At? && xs[0].node in Ids(t) && xs[0].node != t.id && k < |xs|
      requires Passed(t, xs, k) && Live(t, xs[k]) && xs[k] != TopLevel(t) && ParentIndex(t, xs[k]) == ParentIndex(t, xs[0])
      requires kids == ChildIds(Find(t, ParentOf(t, xs[0].node)).tagList) && first == MinPos(kids, Nodes(xs)[..k])
      ensures Passed(t, xs, k + 1) && first' == MinPos(kids, Nodes(xs)[..k + 1])
    {
      PassedNext(t, xs, k);
      ghost var ns := Nodes(xs);
      var pos := PyLists.IndexOf(kids, xs[k].node);
      assert ns[..k + 1][..k] == ns[..k] && ns[..k + 1][k] == xs[k].node;
      first' := if pos < first then pos else first;
    }

    /** The second half of `mergeTags`, once the indexes have passed: the removals, the new node and its insertion. */
    method MergeRemoved(kind: SeqKind, xs: seq<Index>, p: NodeId, pidx: Index, first: int)
      returns (r: Result<Option<Index>, PyError>)
      requires Valid() && MergeArg(top, xs) && kind != Not && IndexProblem(top, xs).None? && SameParent(top, xs)
      requires xs[0].node != top.id && p == ParentOf(top, xs[0].node) && pidx == ParentIndex(top, xs[0])
      requires first == MinPos(ChildIds(Find(top, p).tagList), Nodes(xs))
      modifies this
      ensures Valid()
      ensures var o := MergeTagsStep(old(top), old(nextId), kind, xs);
        top == o.tree && nextId == o.next && log == old(log) + o.events && r == o.result
    {
      ghost var t0, l0 := top, log;
      var n0 := nextId;
      MergeTagsParts(t0, n0, kind, xs, p, pidx, first);
      MergeTagsKeeps(t0, n0, kind, xs);
      ghost var outs := DetachSeq(t0, Nodes(xs)).1;
      var nodes := RemoveSiblings(xs, p);
      var group := NewMerged(n0, kind, nodes, Some(p));
      assert group == NewSequence(n0, kind, outs, Some(p)) by {
        AdoptOrphans(nodes, n0);
      }
      log := log + [BeginInsertRows(pidx, first, first + 1)];
      top := Attach(top, p, first, group);
      log := log + [EndInsertRows];
      nextId := nextId + 1;
      r := Ok(Some(At(first, n0)));
      PyLists.AppendAssoc(l0, RemoveRun(t0, xs), [BeginInsertRows(pidx, first, first + 1), EndInsertRows]);
    }

    /**
     * `nodes = [self.remove(ind) for ind in indexes]` over sibling indexes:
     * the nodes come back in the order of the indexes, each as `DetachSeq`
     * cuts it out but still naming the parent it left.
     */
    method RemoveSiblings(xs: seq<Index>, ghost p: NodeId) returns (nodes: seq<Node>)
      requires Valid() && AllAt(xs) && Siblings(top, p, Nodes(xs)) && PyLists.NoDup(Nodes(xs)) && p in Ids(top)
      modifies this
      ensures Valid() && nextId == old(nextId) && Separate(old(top), Nodes(xs))
      ensures top == DetachSeq(old(top), Nodes(xs)).0 && log == old(log) + RemoveRun(old(top), xs)
      ensures Orphans(nodes) == DetachSeq(old(top), Nodes(xs)).1
    {
      SiblingsStart(top, nextId, log, xs, p);
      ghost var final := DetachSeq(top, Nodes(xs));
      ghost var run := RemoveRun(top, xs);
      ghost var l0 := log;
      ghost var done: seq<Event> := [];
      nodes := [];
      var i := 0;
      while i < |xs|
        invariant 0 <= i <= |xs| && nextId == old(nextId)
        invariant SiblingsLeft(top, nextId, log, xs, i, p, final, run, nodes, done, l0)
      {
        nodes, done := RemoveSibling(xs, i, p, final, run, nodes, done, l0);
        i := i + 1;
      }
      SiblingsEnd(top, nextId, log, xs, p, final, run, nodes, done, l0);
    }

    /** One turn of that loop: the index at `i` is removed, and the node it names is appended to `nodes`. */
    method RemoveSibling(xs: seq<Index>, i: nat, ghost p: NodeId, ghost final: (Node, seq<Node>), ghost run: seq<Event>,
                         nodes: seq<Node>, ghost done: seq<Event>, ghost l0: seq<Event>)
      returns (nodes': seq<Node>, ghost done': seq<Event>)
      requires i < |xs| && SiblingsLeft(top, nextId, log, xs, i, p, final, run, nodes, done, l0)
      modifies this
      ensures nextId == old(nextId) && SiblingsLeft(top, nextId, log, xs, i + 1, p, final, run, nodes', done', l0)
    {
      ghost var cleared := Orphans(nodes);
      assert xs[i..][0] == xs[i] && Nodes(xs[i..])[0] == xs[i].node;
      ghost var o := RemoveStep(top, nextId, xs[i]);
      RemoveAdvance(top, nextId, p, xs, i, o, final, run, cleared, done);
      var r := Remove(xs[i]);
      PyLists.AppendAssoc(l0, done, o.events);
      OrphansAppend(nodes, r.value);
      nodes' := nodes + [r.value];
      done' := done + o.events;
    }

    /**
     * `mergedNode = nodeType(tagList=nodes, parent=nodeParent)` followed by
     * `for n in nodes: n.parent = mergedNode`: the node holds the list, and
     * the loop points every child back at it.
     */
    static method NewMerged(id: NodeId, kind: SeqKind, nodes: seq<Node>, parent: Option<NodeId>) returns (g: Node)
      requires kind != Not
      ensures g == NewSequence(id, kind, nodes, parent)
    {
      var merged := NewGroup(id, kind, nodes, parent);
      var kids := merged.tagList;
      var j := 0;
      while j < |kids|
        invariant 0 <= j <= |kids| && |kids| == |nodes|
        invariant forall i :: 0 <= i < j ==> kids[i] == WithParent(nodes[i], Some(id))
        invariant forall i :: j <= i < |kids| ==> kids[i] == nodes[i]
      {
        kids := kids[j := WithParent(kids[j], Some(id))];
        j := j + 1;
      }
      assert kids == Adopt(nodes, id);
      GroupAdopted(id, kind, nodes, parent);
      g := merged.(tagList := kids);
    }
  }
}
