/**
 * The edits of the tag-filter model, as functions from the tree before to
 * the tree after, each with its meaning in the arena view: `addSimple`
 * (a new leaf), `mergeTags` (siblings under a new sequence node), `negate`
 * (wrap in or unwrap from a NOT node) and `_dropNodePath` (move subtrees).
 */
module TagFilterOps {
  import opened Wrappers
  import opened TagFilterNodes
  import opened TagFilterTree
  import opened TagFilterIndex
  import opened TagFilterEdits
  import opened TagFilterEvents
  import PyLists

  // ---------------------------------------------------------------------
  // Names and positions seen through the view

  /** `[t.tagName for t in tagList]` */
  function TagNames(ts: seq<Node>): (r: seq<string>)
    ensures |r| == |ts|
    ensures forall i :: 0 <= i < |ts| ==> r[i] == ts[i].TagName()
  {
    seq(|ts|, i requires 0 <= i < |ts| => ts[i].TagName())
  }

  /** The `tagName` a record stands for. */
  function LabelName(l: Label): string
  {
    match l
    case LeafLabel(name) => name
    case SeqLabel(kind) => KindName(kind)
  }

  /** The `tagName` of the node `c` of a view (empty for an id the view does not hold). */
  function NameOf(v: map<NodeId, Rec>, c: NodeId): string
  {
    if c in v then LabelName(v[c].what) else ""
  }

  /** The `tagName`s of the children of `p`, in order. */
  function ChildNames(v: map<NodeId, Rec>, p: NodeId): (r: seq<string>)
    requires p in v
    ensures |r| == |v[p].children|
    ensures forall i :: 0 <= i < |r| ==> r[i] == NameOf(v, v[p].children[i])
  {
    seq(|v[p].children|, i requires 0 <= i < |v[p].children| => NameOf(v, v[p].children[i]))
  }

  /** The names `addSimple` compares against are the child names of the view. */
  lemma TagNamesView(t: Node, p: NodeId)
    requires Unique(t) && p in Ids(t) && Find(t, p).Sequence?
    ensures p in View(t) && TagNames(Find(t, p).tagList) == ChildNames(View(t), p)
  {
    var f := Find(t, p);
    var ts := f.tagList;
    ViewFind(t, p);
    ViewOfFind(t, p);
    FindInside(t, p);
    forall i | 0 <= i < |ts| ensures NameOf(View(t), ts[i].id) == ts[i].TagName() {
      var c := ts[i].id;
      ChildInList(ts, i);
      FindListIn(ts, i, c);
      ViewFindList(ts, c);
      assert c in Ids(f);
      assert View(f)[c] == ViewList(ts)[c];
      match ts[i]
      case Leaf(_, _, _) =>
      case Sequence(_, _, _, _) =>
    }
  }

  /** A record tells a sequence node from a leaf. */
  lemma SequenceInView(t: Node, p: NodeId)
    requires Unique(t) && p in Ids(t)
    ensures p in View(t) && (Find(t, p).Sequence? <==> View(t)[p].what.SeqLabel?)
    ensures Find(t, p).Sequence? ==> View(t)[p].children == ChildIds(Find(t, p).tagList)
  {
    ViewFind(t, p);
  }

  /** `_getIndexFromNode` read off the view: the position among the parent record's children. */
  lemma IndexOfNodeView(t: Node, y: NodeId)
    requires ValidTree(t) && y in Ids(t) && y != t.id
    ensures var q := ParentOf(t, y);
      && y in View(t) && q in View(t) && View(t)[y].parent == Some(q)
      && y in View(t)[q].children
      && IndexOfNode(t, y) == At(PyLists.IndexOf(View(t)[q].children, y), y)
  {
    var q := ParentOf(t, y);
    ViewFind(t, y);
    ViewFind(t, q);
    ParentNoneIffTop(t, y);
  }

  /** An index stays live while its node keeps its parent and that parent keeps its children. */
  lemma LiveKept(t: Node, t': Node, i: Index)
    requires ValidTree(t) && ValidTree(t') && Live(t, i) && t'.id == t.id && i.node in Ids(t')
    requires i.node != t.id ==>
      var q := ParentOf(t, i.node);
      && View(t')[i.node].parent == View(t)[i.node].parent
      && q in View(t') && View(t')[q].children == View(t)[q].children
    ensures Live(t', i)
  {
    var y := i.node;
    if y != t.id {
      IndexOfNodeView(t, y);
      IndexOfNodeView(t', y);
    }
  }

  // ---------------------------------------------------------------------
  // addSimple

  /** Every node id is below `next`, so `next` names a new object. */
  predicate Fresh(t: Node, next: nat)
  {
    forall y :: y in Ids(t) ==> y < next
  }

  /** The view after a new leaf `id` named `text` is inserted among the children of `p` at `pos`. */
  function AddedLeaf(v: map<NodeId, Rec>, p: NodeId, pos: int, id: NodeId, text: string): (r: map<NodeId, Rec>)
    requires p in v
    ensures r.Keys == v.Keys + {id}
  {
    v[p := v[p].(children := PyLists.Insert(v[p].children, pos, id))][id := Rec(LeafLabel(text), Some(p), [])]
  }

  /** `node.insert(row, TagFilterNode(tagName=text, parent=node))` */
  lemma AddLeafOk(t: Node, p: NodeId, pos: int, id: NodeId, text: string)
    requires ValidTree(t) && p in Ids(t) && Find(t, p).Sequence? && id !in Ids(t)
    ensures p in View(t)
    ensures var t' := Attach(t, p, pos, Leaf(id, text, Some(p)));
      && ValidTree(t') && t'.id == t.id && Ids(t') == Ids(t) + {id}
      && View(t') == AddedLeaf(View(t), p, pos, id, text)
  {
    var leaf := Leaf(id, text, Some(p));
    AttachIds(t, p, pos, leaf);
    AttachView(t, p, pos, leaf);
    AttachLinked(t, p, pos, leaf);
    assert View(WithParent(leaf, Some(p))) == map[id := Rec(LeafLabel(text), Some(p), [])];
  }

  /** The new leaf's name lands at the insertion position of the child names; the other names shift. */
  lemma AddedLeafNames(v: map<NodeId, Rec>, p: NodeId, pos: int, id: NodeId, text: string)
    requires p in v && id !in v && id !in v[p].children
    ensures ChildNames(AddedLeaf(v, p, pos, id, text), p) == PyLists.Insert(ChildNames(v, p), pos, text)
  {
    var v' := AddedLeaf(v, p, pos, id, text);
    var kids := v[p].children;
    var q := PyLists.InsertPos(|kids|, pos);
    var a := ChildNames(v', p);
    var b := PyLists.Insert(ChildNames(v, p), pos, text);
    assert v'[p].children == PyLists.Insert(kids, pos, id);
    forall i | 0 <= i < |a| ensures a[i] == b[i] {
      if i < q {
        assert v'[p].children[i] == kids[i] && kids[i] != id;
        assert NameOf(v', kids[i]) == NameOf(v, kids[i]);
        assert b[i] == ChildNames(v, p)[i];
      } else if i == q {
        assert v'[p].children[i] == id;
      } else {
        assert v'[p].children[i] == kids[i - 1] && kids[i - 1] != id;
        assert NameOf(v', kids[i - 1]) == NameOf(v, kids[i - 1]);
        assert b[i] == ChildNames(v, p)[i - 1];
      }
    }
  }

  /** The sequence node an operation works in: the index's node, or the top node for the invalid index. */
  function Target(t: Node, i: Index): NodeId
  {
    if i.Invalid? then t.id else i.node
  }

  /** The index an operation reports its notifications under: the top-level index stands in for the invalid one. */
  function TargetIndex(t: Node, i: Index): Index
  {
    if i.Invalid? then TopLevel(t) else i
  }

  /** The state an operation leaves, the notifications it sent and what it returned. */
  datatype Outcome<R> = Outcome(tree: Node, next: nat, events: seq<Event>, result: R)

  /** Where `addSimple` inserts: at `row`, or after the last child when no row is given. */
  function AddPos(n: Node, row: Option<int>): int
    requires n.Sequence?
  {
    if row.Some? then row.value else |n.tagList|
  }

  /** `addSimple(text, parent, row)`; `next` is the identity the new leaf receives. */
  function AddSimpleStep(t: Node, next: nat, parent: Index, text: string, row: Option<int>): Outcome<bool>
    requires ValidTree(t) && IndexArg(t, parent)
  {
    var p := Target(t, parent);
    var f := Find(t, p);
    if f.Leaf? then Outcome(t, next, [Failure(NotSequence)], false)
    else if text in TagNames(f.tagList) then Outcome(t, next, [Failure(DuplicateTag(text))], false)
    else
      var pos := AddPos(f, row);
      Outcome(Attach(t, p, pos, Leaf(next, text, Some(p))), next + 1,
           [BeginInsertRows(TargetIndex(t, parent), pos, pos), EndInsertRows], true)
  }

  /**
   * `addSimple` succeeds exactly on a sequence node without a child of the
   * same name; it then inserts the new leaf at the requested position with
   * its parent set, and otherwise reports why and changes nothing.
   */
  lemma AddSimpleStepOk(t: Node, next: nat, parent: Index, text: string, row: Option<int>)
    requires ValidTree(t) && IndexArg(t, parent) && Fresh(t, next)
    ensures var s := AddSimpleStep(t, next, parent, text, row);
      var p := Target(t, parent);
      && p in Ids(t) && p in View(t)
      && ValidTree(s.tree) && s.tree.id == t.id && Fresh(s.tree, s.next) && IndexArg(s.tree, parent)
      && p in Ids(s.tree) && (Find(s.tree, p).Sequence? <==> Find(t, p).Sequence?)
      && (s.result <==> View(t)[p].what.SeqLabel? && text !in ChildNames(View(t), p))
      && (!s.result ==> s.tree == t && s.next == next && |s.events| == 1 && s.events[0].Failure?)
      && (s.result ==>
            var pos := AddPos(Find(t, p), row);
            && s.next == next + 1
            && View(s.tree) == AddedLeaf(View(t), p, pos, next, text)
            && ChildNames(View(s.tree), p) == PyLists.Insert(ChildNames(View(t), p), pos, text)
            && s.events == [BeginInsertRows(TargetIndex(t, parent), pos, pos), EndInsertRows])
  {
    var p := Target(t, parent);
    var f := Find(t, p);
    AncestorsOfTop(t);
    SequenceInView(t, p);
    if f.Sequence? {
      TagNamesView(t, p);
      if text !in TagNames(f.tagList) {
        AddSimpleAdds(t, next, parent, text, row);
      }
    }
  }

  /** The successful case of `addSimple`. */
  lemma AddSimpleAdds(t: Node, next: nat, parent: Index, text: string, row: Option<int>)
    requires ValidTree(t) && IndexArg(t, parent) && Fresh(t, next)
    requires Target(t, parent) in Ids(t) && Find(t, Target(t, parent)).Sequence?
    requires text !in TagNames(Find(t, Target(t, parent)).tagList)
    ensures var p := Target(t, parent);
      var pos := AddPos(Find(t, p), row);
      var t' := Attach(t, p, pos, Leaf(next, text, Some(p)));
      && p in View(t)
      && ValidTree(t') && t'.id == t.id && Fresh(t', next + 1) && IndexArg(t', parent)
      && p in Ids(t') && Find(t', p).Sequence?
      && View(t') == AddedLeaf(View(t), p, pos, next, text)
      && ChildNames(View(t'), p) == PyLists.Insert(ChildNames(View(t), p), pos, text)
  {
    var p := Target(t, parent);
    var f := Find(t, p);
    var pos := AddPos(f, row);
    var t' := Attach(t, p, pos, Leaf(next, text, Some(p)));
    AddLeafOk(t, p, pos, next, text);
    var v := View(t);
    assert next !in v;
    assert next !in v[p].children by {
      SequenceInView(t, p);
      if next in v[p].children { ChildIdsInList(f.tagList); FindInside(t, p); }
    }
    AddedLeafNames(v, p, pos, next, text);
    AttachFind(t, p, pos, Leaf(next, text, Some(p)));
    if parent.At? && parent.node != t.id {
      ParentHolds(t, parent.node);
      LiveKept(t, t', parent);
    }
  }

  /** The row the next value of a drop is tried at: one further, or still "append". */
  function Succ(row: Option<int>): Option<int>
  {
    if row.Some? then Some(row.value + 1) else None
  }

  /**
   * `_dropSimpleData` after the column check: `addSimple` for each value in
   * turn, at `row`, `row + 1`, ... (every value moves the row on, whether
   * it was added or not), or appended when the row is -1 (here `None`).
   */
  function SimpleDrops(t: Node, next: nat, parent: Index, values: seq<string>, row: Option<int>): (s: Outcome<bool>)
    requires ValidTree(t) && IndexArg(t, parent) && Fresh(t, next)
    decreases |values|
  {
    if values == [] then Outcome(t, next, [], true)
    else
      var s0 := AddSimpleStep(t, next, parent, values[0], row);
      AddSimpleStepOk(t, next, parent, values[0], row);
      var rest := SimpleDrops(s0.tree, s0.next, parent, values[1..], Succ(row));
      Outcome(rest.tree, rest.next, s0.events + rest.events, true)
  }

  /** The names of a sequence node after a run of `addSimple` calls on the given values and rows. */
  function Absorb(names: seq<string>, values: seq<string>, row: Option<int>): seq<string>
    decreases |values|
  {
    if values == [] then names
    else
      var pos := if row.Some? then row.value else |names|;
      var names' := if values[0] in names then names else PyLists.Insert(names, pos, values[0]);
      Absorb(names', values[1..], Succ(row))
  }

  /** A drop into a sequence node leaves it with the child names `Absorb` computes; into a leaf it changes nothing. */
  lemma {:induction false} SimpleDropsOk(t: Node, next: nat, parent: Index, values: seq<string>, row: Option<int>)
    requires ValidTree(t) && IndexArg(t, parent) && Fresh(t, next)
    ensures var s := SimpleDrops(t, next, parent, values, row);
      var p := Target(t, parent);
      && p in Ids(t) && p in View(t)
      && ValidTree(s.tree) && s.tree.id == t.id && Fresh(s.tree, s.next) && IndexArg(s.tree, parent)
      && p in View(s.tree) && s.result
      && (View(t)[p].what.SeqLabel? ==>
            ChildNames(View(s.tree), p) == Absorb(ChildNames(View(t), p), values, row))
      && (View(t)[p].what.LeafLabel? ==> s.tree == t && s.next == next)
    decreases |values|
  {
    var p := Target(t, parent);
    if values == [] {
      AncestorsOfTop(t);
      SequenceInView(t, p);
    } else {
      AddSimpleStepOk(t, next, parent, values[0], row);
      var s0 := AddSimpleStep(t, next, parent, values[0], row);
      SimpleDropsOk(s0.tree, s0.next, parent, values[1..], Succ(row));
      SequenceInView(t, p);
      SequenceInView(s0.tree, p);
      if View(t)[p].what.SeqLabel? && values[0] in ChildNames(View(t), p) {
        assert s0.tree == t;
      }
    }
  }

  /** After a drop the node holds its old names and the dropped values, each name once if it was so before. */
  lemma {:induction false} AbsorbMembers(names: seq<string>, values: seq<string>, row: Option<int>)
    ensures PyLists.Members(Absorb(names, values, row)) == PyLists.Members(names) + PyLists.Members(values)
    ensures PyLists.NoDup(names) ==> PyLists.NoDup(Absorb(names, values, row))
    decreases |values|
  {
    if values != [] {
      var pos := if row.Some? then row.value else |names|;
      var names' := if values[0] in names then names else PyLists.Insert(names, pos, values[0]);
      if values[0] !in names { PyLists.InsertMembers(names, pos, values[0]); }
      AbsorbMembers(names', values[1..], Succ(row));
      assert values == [values[0]] + values[1..];
      assert PyLists.Members(values) == {values[0]} + PyLists.Members(values[1..]);
    }
  }

  /** Dropped without a row, the values go after the names already there, which keep their order. */
  lemma {:induction false} AbsorbAppends(names: seq<string>, values: seq<string>)
    ensures var r := Absorb(names, values, None);
      |names| <= |r| <= |names| + |values| && r[..|names|] == names
    decreases |values|
  {
    if values != [] {
      var names' := if values[0] in names then names else PyLists.Insert(names, |names|, values[0]);
      AbsorbAppends(names', values[1..]);
      var r := Absorb(names', values[1..], None);
      assert names'[..|names|] == names;
      assert r[..|names|] == r[..|names'|][..|names|];
    }
  }
}

