/**
 * Drag and drop payloads of the tag-filter model: `mimeData` packs the
 * paths of the dragged nodes, `dropMimeData` dispatches a drop either to
 * `_dropSimpleData` (plain items copied from another view) or to
 * `_dropNodePath` (nodes moved within the tree).
 */
module TagFilterMime {
  import opened Wrappers
  import opened TagFilterNodes
  import opened TagFilterTree
  import opened TagFilterIndex
  import opened TagFilterEdits
  import opened TagFilterEvents
  import opened TagFilterOps
  import opened TagFilterMove
  import opened TagFilterPaths
  import opened TagFilterDrop
  import PyLists

  /**
   * The items a `QStandardItemModel` decodes from Qt's item-list format:
   * its column count and the texts of its first column, row by row.
   */
  datatype ItemTable = ItemTable(columns: int, texts: seq<string>)

  /**
   * The formats a payload holds, already decoded: the item list of
   * `QT_MIME` and the node paths pickled under `TAG_FILTER_MIME`.
   */
  datatype MimeData = Formats(items: Option<ItemTable>, paths: Option<seq<seq<int>>>)

  /** The drop actions Qt can hand the model. */
  datatype DropAction = CopyAction | MoveAction | LinkAction | IgnoreAction

  /**
   * `_dropSimpleData(parentIndex, mimeData, row)`: anything but one column
   * is refused with a failure message; otherwise every text is added with
   * `addSimple`, and True is returned.
   */
  function SimpleDropStep(t: Node, next: nat, parent: Index, items: ItemTable, row: int): Outcome<bool>
    requires ValidTree(t) && IndexArg(t, parent) && Fresh(t, next)
  {
    if items.columns != 1 then Outcome(t, next, [Failure(UnsupportedColumns(items.columns))], false)
    else SimpleDrops(t, next, parent, items.texts, AddRow(row, 0))
  }

  /** The row of the `i`-th text of a simple drop: `row + i`, or none when appending. */
  function AddRow(row: int, i: nat): (r: Option<int>)
    ensures r.None? <==> row == -1
    ensures r.Some? ==> r.value == row + i
  {
    if row == -1 then None else Some(row + i)
  }

  /** One `addSimple` of the drop loop: the drop of the texts from `i` on is that call followed by the drop of the rest. */
  lemma SimpleDropsNext(t: Node, next: nat, parent: Index, values: seq<string>, i: nat, row: int)
    requires ValidTree(t) && IndexArg(t, parent) && Fresh(t, next) && i < |values|
    ensures var s0 := AddSimpleStep(t, next, parent, values[i], AddRow(row, i));
      && ValidTree(s0.tree) && IndexArg(s0.tree, parent) && Fresh(s0.tree, s0.next)
      && var rest := SimpleDrops(s0.tree, s0.next, parent, values[i + 1..], AddRow(row, i + 1));
         SimpleDrops(t, next, parent, values[i..], AddRow(row, i))
           == Outcome(rest.tree, rest.next, s0.events + rest.events, true)
  {
    AddSimpleStepOk(t, next, parent, values[i], AddRow(row, i));
    assert values[i..][0] == values[i] && values[i..][1..] == values[i + 1..];
    assert Succ(AddRow(row, i)) == AddRow(row, i + 1);
  }

  /**
   * A simple drop succeeds exactly on one column. A refused drop changes
   * nothing and reports the column count; an accepted one leaves a sequence
   * target with the names `Absorb` computes and a leaf target as it was.
   */
  lemma SimpleDropStepOk(t: Node, next: nat, parent: Index, items: ItemTable, row: int)
    requires ValidTree(t) && IndexArg(t, parent) && Fresh(t, next)
    ensures var s := SimpleDropStep(t, next, parent, items, row);
      var p := Target(t, parent);
      && p in View(t) && p in View(s.tree)
      && ValidTree(s.tree) && s.tree.id == t.id && Fresh(s.tree, s.next) && IndexArg(s.tree, parent)
      && (s.result <==> items.columns == 1)
      && (!s.result ==> s.tree == t && s.next == next && s.events == [Failure(UnsupportedColumns(items.columns))])
      && (s.result && View(t)[p].what.SeqLabel? ==>
            ChildNames(View(s.tree), p) == Absorb(ChildNames(View(t), p), items.texts, AddRow(row, 0)))
      && (s.result && View(t)[p].what.LeafLabel? ==> s.tree == t && s.next == next)
  {
    SimpleDropsOk(t, next, parent, items.texts, AddRow(row, 0));
    AncestorsOfTop(t);
    SequenceInView(t, Target(t, parent));
  }

  /**
   * A drop at row -1 keeps the names already there in front, in order,
   * and leaves the node with exactly those names and the dropped texts,
   * each once when the names were distinct before.
   */
  lemma SimpleDropAppends(t: Node, next: nat, parent: Index, items: ItemTable)
    requires ValidTree(t) && IndexArg(t, parent) && Fresh(t, next) && items.columns == 1
    requires var p := Target(t, parent); p in View(t) && View(t)[p].what.SeqLabel?
    ensures var s := SimpleDropStep(t, next, parent, items, -1);
      var p := Target(t, parent);
      && p in View(s.tree)
      && var before, after := ChildNames(View(t), p), ChildNames(View(s.tree), p);
      && |before| <= |after| <= |before| + |items.texts| && after[..|before|] == before
      && PyLists.Members(after) == PyLists.Members(before) + PyLists.Members(items.texts)
      && (PyLists.NoDup(before) ==> PyLists.NoDup(after))
  {
    var p := Target(t, parent);
    SimpleDropStepOk(t, next, parent, items, -1);
    AbsorbAppends(ChildNames(View(t), p), items.texts);
    AbsorbMembers(ChildNames(View(t), p), items.texts, None);
  }

  /** What `dropMimeData` may be handed: an index argument, and a valid node move whenever it is a move with paths. */
  predicate MimeInput(t: Node, md: MimeData, action: DropAction, parent: Index)
    requires ValidTree(t)
  {
    IndexArg(t, parent) && (action == MoveAction && md.paths.Some? ==> DropInput(t, parent, md.paths.value))
  }

  /**
   * `dropMimeData(mimeData, action, row, column, parentIndex)`: a copy of
   * Qt items goes to `_dropSimpleData`, a move of node paths to
   * `_dropNodePath` (whose exceptions propagate); anything else is refused
   * with False. The column is not looked at.
   */
  function DropMimeStep(t: Node, next: nat, md: MimeData, action: DropAction, row: int, parent: Index)
    : Outcome<Result<bool, PyError>>
    requires ValidTree(t) && Fresh(t, next) && MimeInput(t, md, action, parent)
  {
    if action == CopyAction && md.items.Some? then
      var s := SimpleDropStep(t, next, parent, md.items.value, row);
      Outcome(s.tree, s.next, s.events, Ok(s.result))
    else if action == MoveAction && md.paths.Some? then DropStep(t, next, parent, md.paths.value, row)
    else Outcome(t, next, [], Ok(false))
  }

  /**
   * A drop keeps the tree valid, its top node and the identities to come
   * fresh; it raises only on a move, exactly when the target is a leaf or a
   * path does not resolve; it returns True exactly for a copy of one column
   * of items or a move that goes through, and changes nothing otherwise.
   */
  lemma DropMimeStepOk(t: Node, next: nat, md: MimeData, action: DropAction, row: int, parent: Index)
    requires ValidTree(t) && Fresh(t, next) && MimeInput(t, md, action, parent)
    ensures var o := DropMimeStep(t, next, md, action, row, parent);
      && ValidTree(o.tree) && o.tree.id == t.id && Fresh(o.tree, o.next)
      && (o.result.Err? <==> action == MoveAction && md.paths.Some?
                             && (Find(t, Target(t, parent)).Leaf? || ResolveAll(t, md.paths.value).Err?))
      && (o.result == Ok(true) <==>
            || (action == CopyAction && md.items.Some? && md.items.value.columns == 1)
            || (action == MoveAction && md.paths.Some?
                && Find(t, Target(t, parent)).Sequence? && ResolveAll(t, md.paths.value).Ok?))
      && (o.result != Ok(true) && !(action == CopyAction && md.items.Some?) ==> o.tree == t && o.next == next)
  {
    if action == CopyAction && md.items.Some? {
      SimpleDropStepOk(t, next, parent, md.items.value, row);
    } else if action == MoveAction && md.paths.Some? {
      DropStepOk(t, next, parent, md.paths.value, row);
    }
  }

  /** Every path resolving, the whole list resolves, position by position. */
  lemma {:induction false} ResolveAllEach(t: Node, paths: seq<seq<int>>)
    requires forall k :: 0 <= k < |paths| ==> ResolveFrom(t, paths[k]).Some?
    ensures ResolveAll(t, paths).Ok? && |ResolveAll(t, paths).value| == |paths|
    ensures forall k :: 0 <= k < |paths| ==> ResolveAll(t, paths).value[k] == ResolveFrom(t, paths[k]).value
    decreases |paths|
  {
    if paths != [] {
      var init := paths[..|paths| - 1];
      assert forall k :: 0 <= k < |init| ==> init[k] == paths[k];
      ResolveAllEach(t, init);
    }
  }

  /**
   * The paths a drag packs lead back, on drop into the unchanged tree, to
   * exactly the selected nodes that no selected node lies above, each once;
   * when the top node is not among them, none of them holds another.
   */
  lemma PayloadResolves(t: Node, sel: set<NodeId>, paths: seq<seq<int>>)
    requires ValidTree(t) && sel <= Ids(t) && PyLists.NoDup(paths)
    requires forall q :: q in paths <==> q in KeptPaths(t, sel)
    ensures ResolveAll(t, paths).Ok?
    ensures var ms := ResolveAll(t, paths).value;
      && |ms| == |paths| && PyLists.NoDup(ms)
      && (forall y :: y in ms <==> y in sel && !Covered(t, sel, y))
      && (t.id !in sel ==> Separate(t, ms))
  {
    forall k | 0 <= k < |paths| ensures ResolveFrom(t, paths[k]).Some? {
      KeptResolve(t, sel, paths[k]);
    }
    ResolveAllEach(t, paths);
    var ms := ResolveAll(t, paths).value;
    forall j, k | 0 <= j < k < |ms| ensures ms[j] != ms[k] {
      KeptResolve(t, sel, paths[j]);
      KeptResolve(t, sel, paths[k]);
    }
    forall y ensures y in ms <==> y in sel && !Covered(t, sel, y) {
      if y in ms {
        var k :| 0 <= k < |ms| && ms[k] == y;
        KeptResolve(t, sel, paths[k]);
      }
      if y in sel && !Covered(t, sel, y) {
        KeptComplete(t, sel, y);
        var k :| 0 <= k < |paths| && paths[k] == PathFrom(t, y);
        ResolvePathFrom(t, y);
      }
    }
    if t.id !in sel {
      PayloadSeparate(t, sel, ms);
    }
  }

  /**
   * The nodes a drag packs never hold one another, and none is the top
   * node when the top node is not selected (its flags do not let it be
   * dragged): they form a list the move can take apart.
   */
  lemma PayloadSeparate(t: Node, sel: set<NodeId>, ms: seq<NodeId>)
    requires Unique(t) && sel <= Ids(t) && t.id !in sel && PyLists.NoDup(ms)
    requires forall y :: y in ms <==> y in sel && !Covered(t, sel, y)
    ensures Separate(t, ms)
  {
    forall j, k | 0 <= j < |ms| && 0 <= k < |ms| && j != k ensures ms[j] !in Ids(Find(t, ms[k])) {
      AncestorsSpec(t, ms[j], ms[k]);
      CoveredBy(t, sel, ms[j], ms[k]);
    }
  }

  /** A selected ancestor covers a node. */
  lemma CoveredBy(t: Node, sel: set<NodeId>, y: NodeId, a: NodeId)
    requires y in Ids(t)
    ensures a in sel && a in AncestorsFrom(t, y) ==> Covered(t, sel, y)
  {
    if a in sel && a in AncestorsFrom(t, y) {
      var k :| 0 <= k < |AncestorsFrom(t, y)| && AncestorsFrom(t, y)[k] == a;
    }
  }
}
