/**
 * `SpaceLineEdit` of the newer module: a row of line edits, one per value,
 * that splits a typed text into several entries at any of its split
 * characters (by default space, comma and semicolon) and reports its text
 * as the values joined with the text separator (by default a comma).
 *
 * A line edit is named by its creation number: `texts[id]` is the text of
 * the `id`-th line edit the widget created, shown or not, and `lineEdits`
 * lists the ones shown, in order. `isUpdating` is the guard against the
 * change notification that setting a line edit's text sends back into the
 * widget, `focus` the line edit last given the focus, and `emitted` the
 * texts the widget's own `textChanged` signal carried.
 */
module SpaceLineEdit {
  import opened Wrappers
  import opened PyStrings
  import PyLists

  /** The ValueError `list.index` and `list.remove` raise for a line edit that is not shown. */
  datatype Raised = ValueError

  datatype Key = Backspace | Down | Up | OtherKey

  /** The events the widget's event filter looks at. */
  datatype InputEvent = FocusOut | KeyPress(key: Key) | OtherEvent

  /** `for sch in others: text = text.replace(sch, c)`: every character of `others` becomes `c`. */
  function Normalise(text: string, others: string, c: char): (r: string)
    ensures |r| == |text|
    ensures forall k :: 0 <= k < |text| ==> r[k] == if text[k] in others then c else text[k]
    decreases |others|
  {
    if others == [] then text
    else Normalise(ReplaceChar(text, others[0], c), others[1..], c)
  }

  /** `_splitText(text)`: the other split characters become the first one, then the text is split on it. */
  function SplitParts(text: string, splitChars: string): seq<string>
    requires splitChars != ""
  {
    Split(Normalise(text, splitChars[1..], splitChars[0]), splitChars[0])
  }

  /**
   * The parts are never none and hold no split character; joined with the
   * first split character they give the normalised text; and a text with no
   * split character is the one part.
   */
  lemma SplitPartsShape(text: string, splitChars: string)
    requires splitChars != ""
    ensures var parts := SplitParts(text, splitChars);
      && |parts| >= 1
      && (forall k, j :: 0 <= k < |parts| && 0 <= j < |parts[k]| ==> parts[k][j] !in splitChars)
      && Join(parts, [splitChars[0]]) == Normalise(text, splitChars[1..], splitChars[0])
      && (|parts| == 1 <==> forall j :: 0 <= j < |text| ==> text[j] !in splitChars)
      && ((forall j :: 0 <= j < |text| ==> text[j] !in splitChars) ==> parts == [text])
  {
    var c := splitChars[0];
    var others := splitChars[1..];
    var s := Normalise(text, others, c);
    var parts := Split(s, c);
    SplitPartsFree(s, c);
    SplitPartsIn(s, c);
    SplitJoin(s, c);
    SplitSingle(s, c);
    assert forall x :: x in splitChars ==> x == c || x in others by {
      assert splitChars == [c] + others;
    }
    forall k, j | 0 <= k < |parts| && 0 <= j < |parts[k]| ensures parts[k][j] !in splitChars {
      assert parts[k][j] != c;
      var x := parts[k][j];
      assert x in s;
      var m :| 0 <= m < |s| && s[m] == x;
    }
    if forall j :: 0 <= j < |text| ==> text[j] !in splitChars {
      assert s == text;
    } else {
      var j :| 0 <= j < |text| && text[j] in splitChars;
      assert s[j] == c;
    }
  }

  /** Normalising a concatenation normalises each part. */
  lemma NormaliseConcat(a: string, b: string, others: string, c: char)
    ensures Normalise(a + b, others, c) == Normalise(a, others, c) + Normalise(b, others, c)
  {
    var l, r := Normalise(a + b, others, c), Normalise(a, others, c) + Normalise(b, others, c);
    forall k | 0 <= k < |l| ensures l[k] == r[k] {
      if k < |a| {
        assert (a + b)[k] == a[k];
      } else {
        assert (a + b)[k] == b[k - |a|];
      }
    }
  }

  /** Values free of split characters, joined with one of them, normalise to the values joined with the first. */
  lemma {:induction false} NormaliseJoin(vs: seq<string>, splitChars: string, sep: char)
    requires splitChars != "" && sep in splitChars
    requires forall k, j :: 0 <= k < |vs| && 0 <= j < |vs[k]| ==> vs[k][j] !in splitChars
    ensures Normalise(Join(vs, [sep]), splitChars[1..], splitChars[0]) == Join(vs, [splitChars[0]])
  {
    var c, others := splitChars[0], splitChars[1..];
    assert splitChars == [c] + others;
    if vs == [] {
    } else if |vs| == 1 {
      assert Normalise(vs[0], others, c) == vs[0];
    } else {
      var tail := vs[1..];
      var js, jc := Join(tail, [sep]), Join(tail, [c]);
      assert Normalise(js, others, c) == jc by {
        assert forall k :: 0 <= k < |tail| ==> tail[k] == vs[k + 1];
        NormaliseJoin(tail, splitChars, sep);
      }
      assert Normalise(vs[0], others, c) == vs[0] by {
        assert forall j :: 0 <= j < |vs[0]| ==> vs[0][j] !in splitChars;
      }
      assert Normalise([sep], others, c) == [c];
      NormaliseJoinStep(vs[0], sep, js, jc, others, c);
      assert Join(vs, [sep]) == vs[0] + [sep] + js;
      assert Join(vs, [c]) == vs[0] + [c] + jc;
    }
  }

  /** One entry and a separator in front of the rest normalise part by part. */
  lemma NormaliseJoinStep(head: string, sep: char, js: string, jc: string, others: string, c: char)
    requires Normalise(head, others, c) == head && Normalise([sep], others, c) == [c] && Normalise(js, others, c) == jc
    ensures Normalise(head + [sep] + js, others, c) == head + [c] + jc
  {
    NormaliseConcat(head + [sep], js, others, c);
    NormaliseConcat(head, [sep], others, c);
  }

  /**
   * `setText(text())` gives the values back: entries free of split
   * characters, joined with a separator that is itself a split character,
   * split back into the same entries.
   */
  lemma TextRoundTrip(vs: seq<string>, splitChars: string, sep: char)
    requires splitChars != "" && sep in splitChars && vs != []
    requires forall k, j :: 0 <= k < |vs| && 0 <= j < |vs[k]| ==> vs[k][j] !in splitChars
    ensures SplitParts(Join(vs, [sep]), splitChars) == vs
  {
    NormaliseJoin(vs, splitChars, sep);
    JoinSplit(vs, splitChars[0]);
  }

  /** `getValues()`: the text of every shown line edit, in order. */
  function ValuesOf(lineEdits: seq<nat>, texts: seq<string>): (r: seq<string>)
    ensures |r| == |lineEdits|
  {
    seq(|lineEdits|, i requires 0 <= i < |lineEdits| => if lineEdits[i] < |texts| then texts[lineEdits[i]] else "")
  }

  /** The creation numbers `n`, ..., `n + m - 1` of `m` new line edits. */
  function Run(n: nat, m: nat): (r: seq<nat>)
    ensures |r| == m && forall k :: 0 <= k < m ==> r[k] == n + k
  {
    seq(m, k requires 0 <= k < m => n + k)
  }

  /** Shown line edits are distinct and all created. */
  predicate Shown(lineEdits: seq<nat>, n: nat)
  {
    PyLists.NoDup(lineEdits) && forall i :: 0 <= i < |lineEdits| ==> lineEdits[i] < n
  }

  /**
   * The line edits after a change of the one at `i`: `m` new ones right
   * after it. The result is again distinct, and its values are the old ones
   * with the entry at `i` replaced by the parts.
   */
  lemma ChangeValues(l0: seq<nat>, t0: seq<string>, i: nat, parts: seq<string>)
    requires Shown(l0, |t0|) && i < |l0| && |parts| >= 1
    ensures var l := l0[..i + 1] + Run(|t0|, |parts| - 1) + l0[i + 1..];
      && Shown(l, |t0| + |parts| - 1)
      && ValuesOf(l, t0[l0[i] := parts[0]] + parts[1..]) == ValuesOf(l0, t0)[..i] + parts + ValuesOf(l0, t0)[i + 1..]
  {
    assert Shown(l0[..i + 1] + Run(|t0|, |parts| - 1) + l0[i + 1..], |t0| + |parts| - 1) by {
      ChangeShown(l0, |t0|, i, |parts| - 1);
    }
    ChangeValuesOnly(l0, t0, i, parts);
  }

  /** The values part of `ChangeValues`. */
  lemma ChangeValuesOnly(l0: seq<nat>, t0: seq<string>, i: nat, parts: seq<string>)
    requires Shown(l0, |t0|) && i < |l0| && |parts| >= 1
    ensures ValuesOf(l0[..i + 1] + Run(|t0|, |parts| - 1) + l0[i + 1..], t0[l0[i] := parts[0]] + parts[1..])
      == ValuesOf(l0, t0)[..i] + parts + ValuesOf(l0, t0)[i + 1..]
  {
    var n := |t0|;
    var m := |parts| - 1;
    var l := l0[..i + 1] + Run(n, m) + l0[i + 1..];
    var t := t0[l0[i] := parts[0]] + parts[1..];
    assert forall k :: 0 <= k < |l| ==> l[k] == if k <= i then l0[k] else if k <= i + m then n + (k - i - 1) else l0[k - m];
    var lhs, rhs := ValuesOf(l, t), ValuesOf(l0, t0)[..i] + parts + ValuesOf(l0, t0)[i + 1..];
    assert |lhs| == |rhs|;
    forall k | 0 <= k < |lhs| ensures lhs[k] == rhs[k] {
      if k < i {
        assert l0[k] != l0[i];
      } else if k == i {
      } else if k <= i + m {
        assert t[n + (k - i - 1)] == parts[k - i];
      } else {
        assert l0[k - m] != l0[i];
      }
    }
  }

  /** New line edits right after the one at `i` keep the shown ones distinct. */
  lemma ChangeShown(l0: seq<nat>, n: nat, i: nat, m: nat)
    requires Shown(l0, n) && i < |l0|
    ensures Shown(l0[..i + 1] + Run(n, m) + l0[i + 1..], n + m)
  {
    var l := l0[..i + 1] + Run(n, m) + l0[i + 1..];
    assert forall k :: 0 <= k < |l| ==> l[k] == if k <= i then l0[k] else if k <= i + m then n + (k - i - 1) else l0[k - m];
    forall j, k | 0 <= j < k < |l| ensures l[j] != l[k] {
    }
  }

  /** Taking out the item at `i` keeps the list distinct, and its values lose the one at `i`. */
  lemma RemoveValues(l0: seq<nat>, t0: seq<string>, i: nat)
    requires Shown(l0, |t0|) && i < |l0|
    ensures Shown(l0[..i] + l0[i + 1..], |t0|)
    ensures ValuesOf(l0[..i] + l0[i + 1..], t0) == ValuesOf(l0, t0)[..i] + ValuesOf(l0, t0)[i + 1..]
  {
    var l := l0[..i] + l0[i + 1..];
    assert forall k :: 0 <= k < |l| ==> l[k] == if k < i then l0[k] else l0[k + 1];
    forall j, k | 0 <= j < k < |l| ensures l[j] != l[k] {
    }
  }

  /**
   * What `_setFocus(le, offset)` returns: True exactly when a line edit is
   * shown `offset` places after `le`; ValueError when `le` is not shown.
   */
  function FocusResult(lineEdits: seq<nat>, le: nat, offset: int): (r: Result<bool, Raised>)
    ensures r.Err? <==> le !in lineEdits
    ensures r.Ok? ==> (r.value <==> 0 <= PyLists.IndexOf(lineEdits, le) + offset < |lineEdits|)
  {
    if le !in lineEdits then Err(ValueError)
    else Ok(0 <= PyLists.IndexOf(lineEdits, le) + offset < |lineEdits|)
  }

  class SpaceLineEdit {
    var splitChars: string
    var textSeparator: string
    var lineEdits: seq<nat>
    var texts: seq<string>
    var isUpdating: bool
    var focus: Option<nat>
    var emitted: seq<string>

    /** There is a split character, and at least one line edit is shown, each once. */
    ghost predicate Valid()
      reads this
    {
      splitChars != "" && |lineEdits| >= 1 && Shown(lineEdits, |texts|)
    }

    /** `SpaceLineEdit(splitChars=..., textSeparator=...)`: one empty line edit, nothing being updated. */
    constructor (splitChars: string, textSeparator: string)
      requires splitChars != ""
      ensures Valid() && this.splitChars == splitChars && this.textSeparator == textSeparator
      ensures lineEdits == [0] && texts == [""] && !isUpdating && focus == None && emitted == []
    {
      this.splitChars := splitChars;
      this.textSeparator := textSeparator;
      lineEdits := [0];
      texts := [""];
      isUpdating := false;
      focus := None;
      emitted := [];
    }

    /** `getValues()` */
    function GetValues(): seq<string>
      reads this
    {
      ValuesOf(lineEdits, texts)
    }

    /** `text()`: the values joined with the text separator. */
    function Text(): string
      reads this
    {
      Join(GetValues(), textSeparator)
    }

    /** `_createLineEdit(text)`: a new line edit holding the text, not shown yet. */
    method CreateLineEdit(text: string) returns (id: nat)
      modifies this`texts
      ensures id == old(|texts|) && texts == old(texts) + [text]
    {
      id := |texts|;
      texts := texts + [text];
    }

    /** `_splitText(text)`, with its loop over the split characters after the first. */
    method SplitText(text: string) returns (parts: seq<string>)
      requires splitChars != ""
      ensures parts == SplitParts(text, splitChars)
    {
      var c := splitChars[0];
      var t := text;
      var k := 1;
      while k < |splitChars|
        invariant 1 <= k <= |splitChars|
        invariant Normalise(text, splitChars[1..], c) == Normalise(t, splitChars[k..], c)
      {
        assert splitChars[k..][0] == splitChars[k] && splitChars[k..][1..] == splitChars[k + 1..];
        t := ReplaceChar(t, splitChars[k], c);
        k := k + 1;
      }
      assert splitChars[k..] == [];
      parts := Split(t, c);
    }

    /** `setValues(values)`: new line edits, one per value, or one empty line edit for no values. */
    method SetValues(values: seq<string>)
      requires Valid()
      modifies this
      ensures Valid() && splitChars == old(splitChars) && textSeparator == old(textSeparator)
      ensures GetValues() == if values == [] then [""] else values
      ensures lineEdits == Run(old(|texts|), |GetValues()|) && texts == old(texts) + GetValues()
      ensures isUpdating == old(isUpdating) && focus == old(focus) && emitted == old(emitted)
    {
      var vs := if values == [] then [""] else values;
      ghost var n := |texts|;
      ghost var t0 := texts;
      lineEdits := [];
      var k := 0;
      while k < |vs|
        invariant 0 <= k <= |vs|
        invariant texts == t0 + vs[..k] && lineEdits == Run(n, k)
        invariant ValuesOf(lineEdits, texts) == vs[..k]
        invariant isUpdating == old(isUpdating) && focus == old(focus) && emitted == old(emitted)
        invariant splitChars == old(splitChars) && textSeparator == old(textSeparator)
      {
        var id := CreateLineEdit(vs[k]);
        lineEdits := lineEdits + [id];
        assert vs[..k + 1] == vs[..k] + [vs[k]];
        k := k + 1;
      }
      assert vs[..k] == vs;
      assert forall i, j :: 0 <= i < j < |lineEdits| ==> lineEdits[i] != lineEdits[j];
    }

    /** `setText(text)`: the values become the parts of the text. */
    method SetText(text: string)
      requires Valid()
      modifies this
      ensures Valid() && splitChars == old(splitChars) && textSeparator == old(textSeparator)
      ensures GetValues() == SplitParts(text, splitChars)
      ensures lineEdits == Run(old(|texts|), |GetValues()|) && texts == old(texts) + GetValues()
      ensures isUpdating == old(isUpdating) && focus == old(focus) && emitted == old(emitted)
    {
      var parts := SplitText(text);
      SplitPartsShape(text, splitChars);
      SetValues(parts);
    }

    /** Where `_setFocus(le, offset)` leaves the focus, from the shown line edits `l0` and the focus `f0`. */
    ghost predicate FocusedFrom(l0: seq<nat>, f0: Option<nat>, le: nat, offset: int)
      reads this
    {
      if le !in l0 then focus == f0
      else
        var idx := PyLists.IndexOf(l0, le) + offset;
        focus == if 0 <= idx < |l0| then Some(l0[idx]) else f0
    }

    /**
     * `_setFocus(le, offset)`: the line edit `offset` places after `le`
     * gets the focus and True comes back when there is one; `index` raises
     * ValueError when `le` is not shown.
     */
    method SetFocus(le: nat, offset: int) returns (r: Result<bool, Raised>)
      modifies this`focus
      ensures r == FocusResult(lineEdits, le, offset) && FocusedFrom(lineEdits, old(focus), le, offset)
    {
      if le !in lineEdits {
        return Err(ValueError);
      }
      var index := PyLists.IndexOf(lineEdits, le) + offset;
      if 0 <= index < |lineEdits| {
        focus := Some(lineEdits[index]);
        return Ok(true);
      }
      return Ok(false);
    }

    /** What `_removeLineEdit(le, changeFocus)` leaves, from the shown line edits `l0` and the focus `f0`. */
    ghost predicate RemovedFrom(l0: seq<nat>, f0: Option<nat>, le: nat, changeFocus: bool, raised: bool)
      reads this
    {
      if |l0| <= 1 then !raised && lineEdits == l0 && focus == f0
      else if le !in l0 then raised == changeFocus && lineEdits == l0 && focus == f0
      else
        var i := PyLists.IndexOf(l0, le);
        && !raised
        && lineEdits == l0[..i] + l0[i + 1..]
        && focus == if changeFocus then Some(l0[if i > 0 then i - 1 else i + 1]) else f0
    }

    /**
     * `_removeLineEdit(le, changeFocus)`: never takes out the last line
     * edit; otherwise moves the focus to the previous line edit, or the next
     * one, when asked to, and takes `le` out. A line edit that is not shown
     * is left alone (the ValueError of `remove` is caught), but moving the
     * focus away from it raises.
     */
    method RemoveLineEdit(le: nat, changeFocus: bool) returns (raised: bool)
      requires Valid()
      modifies this`lineEdits, this`focus
      ensures Valid()
      ensures RemovedFrom(old(lineEdits), old(focus), le, changeFocus, raised)
    {
      if |lineEdits| <= 1 {
        return false;
      }
      if changeFocus {
        var moved := SetFocus(le, -1);
        if moved.Err? {
          return true;
        }
        if !moved.value {
          moved := SetFocus(le, 1);
        }
      }
      if le in lineEdits {
        var i := PyLists.IndexOf(lineEdits, le);
        RemoveValues(lineEdits, texts, i);
        lineEdits := PyLists.RemoveFirst(lineEdits, le);
      }
      raised := false;
    }

    /**
     * What a change notification for `le` with `text` leaves when no other
     * one is being handled, from the shown line edits `l0`, the texts `t0`,
     * the focus `f0` and the emitted texts `e0`. The line edit takes the
     * first part of the text and new line edits with the other parts follow
     * it; the line edit after it gets the focus; the widget emits its text.
     * For a line edit that is not shown, `index` raises after its text was
     * set, and the guard stays up.
     */
    ghost predicate HandledFrom(l0: seq<nat>, t0: seq<string>, f0: Option<nat>, e0: seq<string>, le: nat, text: string, raised: bool)
      requires splitChars != "" && le < |t0|
      reads this
    {
      var parts := SplitParts(text, splitChars);
      if |parts| == 0 then false
      else if le !in l0 then
        raised && isUpdating && lineEdits == l0 && texts == t0[le := parts[0]] && focus == f0 && emitted == e0
      else
        var i := PyLists.IndexOf(l0, le);
        && !raised && !isUpdating
        && lineEdits == l0[..i + 1] + Run(|t0|, |parts| - 1) + l0[i + 1..]
        && texts == t0[le := parts[0]] + parts[1..]
        && focus == (if i + 1 < |lineEdits| then Some(lineEdits[i + 1]) else f0)
        && emitted == e0 + [Text()]
    }

    /**
     * `onTextChanged(le, text)`: ignored while another change is handled;
     * otherwise the text is split, `le` is set to the first part (which
     * notifies the widget again, under the guard) and the other parts become
     * new line edits after it.
     */
    method OnTextChanged(le: nat, text: string) returns (raised: bool)
      requires Valid() && le < |texts|
      modifies this
      decreases if isUpdating then 0 else 1, 1
      ensures Valid() && splitChars == old(splitChars) && textSeparator == old(textSeparator)
      ensures old(isUpdating) ==>
        !raised && isUpdating && lineEdits == old(lineEdits) && texts == old(texts) && focus == old(focus) && emitted == old(emitted)
      ensures !old(isUpdating) ==> HandledFrom(old(lineEdits), old(texts), old(focus), old(emitted), le, text, raised)
    {
      if isUpdating {
        return false;
      }
      isUpdating := true;
      ghost var l0, t0, f0 := lineEdits, texts, focus;
      var parts := SplitText(text);
      var first, others := parts[0], parts[1..];
      var ignored := SetEntryText(le, first);
      assert lineEdits == l0 && texts == t0[le := first] && focus == f0;
      if le !in lineEdits {
        return true;
      }
      SplitEntry(le, others);
      FinishUpdate();
      raised := false;
    }

    /** The end of `onTextChanged`: the guard comes down and the widget's text is emitted. */
    method FinishUpdate()
      modifies this`isUpdating, this`emitted
      ensures !isUpdating && emitted == old(emitted) + [Text()]
    {
      isUpdating := false;
      emitted := emitted + [Text()];
    }

    /**
     * The rest of `onTextChanged` once `le` holds the first part: new line
     * edits for the other parts right after it, then the focus to the line
     * edit after `le`.
     */
    method SplitEntry(le: nat, others: seq<string>)
      requires Valid() && le in lineEdits
      modifies this`lineEdits, this`texts, this`focus
      ensures var i := PyLists.IndexOf(old(lineEdits), le);
        && Valid()
        && lineEdits == old(lineEdits)[..i + 1] + Run(old(|texts|), |others|) + old(lineEdits)[i + 1..]
        && texts == old(texts) + others
        && focus == (if i + 1 < |lineEdits| then Some(lineEdits[i + 1]) else old(focus))
    {
      ghost var l0 := lineEdits;
      var i := PyLists.IndexOf(lineEdits, le);
      ChangeShown(lineEdits, |texts|, i, |others|);
      InsertLineEdits(i + 1, others);
      assert PyLists.IndexOf(lineEdits, le) == i by {
        assert lineEdits[i] == le;
        assert forall j :: 0 <= j < i ==> lineEdits[j] == l0[j];
      }
      var ignored := SetFocus(le, 1);
    }

    /**
     * The loop of `onTextChanged` over the further parts: a new line edit
     * for each, shown in order from `insertIndex` on.
     */
    method InsertLineEdits(insertIndex: nat, others: seq<string>)
      requires insertIndex <= |lineEdits|
      modifies this`lineEdits, this`texts
      ensures lineEdits == old(lineEdits)[..insertIndex] + Run(old(|texts|), |others|) + old(lineEdits)[insertIndex..]
      ensures texts == old(texts) + others
    {
      ghost var t0 := texts;
      var l0 := lineEdits;
      var shown := l0;
      var k := 0;
      while k < |others|
        invariant 0 <= k <= |others|
        invariant shown == l0[..insertIndex] + Run(|t0|, k) + l0[insertIndex..]
        invariant texts == t0 + others[..k]
      {
        var id := CreateLineEdit(others[k]);
        InsertAfterRun(l0, insertIndex, |t0|, k);
        shown := PyLists.Insert(shown, insertIndex + k, id);
        AppendOne(t0, others, k);
        k := k + 1;
      }
      assert others[..k] == others;
      lineEdits := shown;
    }

    /**
     * `le.setText(t)`, which is also how typing reaches the widget: the
     * line edit takes the text and, when it changed, notifies the widget.
     */
    method SetEntryText(le: nat, t: string) returns (raised: bool)
      requires Valid() && le < |texts|
      modifies this
      decreases if isUpdating then 0 else 1, 2
      ensures Valid() && splitChars == old(splitChars) && textSeparator == old(textSeparator)
      ensures old(texts[le]) == t ==>
        !raised && isUpdating == old(isUpdating) && lineEdits == old(lineEdits) && texts == old(texts)
        && focus == old(focus) && emitted == old(emitted)
      ensures old(texts[le]) != t && old(isUpdating) ==>
        !raised && isUpdating && lineEdits == old(lineEdits) && texts == old(texts)[le := t]
        && focus == old(focus) && emitted == old(emitted)
      ensures old(texts[le]) != t && !old(isUpdating) ==>
        HandledFrom(old(lineEdits), old(texts)[le := t], old(focus), old(emitted), le, t, raised)
    {
      if texts[le] == t {
        return false;
      }
      texts := texts[le := t];
      raised := OnTextChanged(le, t);
    }

    /**
     * `eventFilter(le, event)`: an empty line edit losing the focus is taken
     * out without moving the focus; Backspace in an empty one takes it out
     * and moves the focus; Down and Up move the focus to the next or
     * previous line edit.
     */
    method EventFilter(le: nat, event: InputEvent) returns (raised: bool)
      requires Valid() && le < |texts|
      modifies this`lineEdits, this`focus
      ensures Valid()
      ensures event == FocusOut && texts[le] == "" ==> RemovedFrom(old(lineEdits), old(focus), le, false, raised)
      ensures event == KeyPress(Backspace) && texts[le] == "" ==> RemovedFrom(old(lineEdits), old(focus), le, true, raised)
      ensures event == KeyPress(Down) ==>
        lineEdits == old(lineEdits) && FocusedFrom(lineEdits, old(focus), le, 1) && raised == FocusResult(lineEdits, le, 1).Err?
      ensures event == KeyPress(Up) ==>
        lineEdits == old(lineEdits) && FocusedFrom(lineEdits, old(focus), le, -1) && raised == FocusResult(lineEdits, le, -1).Err?
      ensures (event == FocusOut || event == KeyPress(Backspace)) && texts[le] != "" ==> lineEdits == old(lineEdits) && focus == old(focus) && !raised
      ensures event.OtherEvent? || event == KeyPress(OtherKey) ==> lineEdits == old(lineEdits) && focus == old(focus) && !raised
    {
      raised := false;
      if event == FocusOut {
        if texts[le] == "" {
          raised := RemoveLineEdit(le, false);
        }
      } else if event.KeyPress? {
        if event.key == Backspace && texts[le] == "" {
          raised := RemoveLineEdit(le, true);
        } else if event.key == Down {
          var r := SetFocus(le, 1);
          raised := r.Err?;
        } else if event.key == Up {
          var r := SetFocus(le, -1);
          raised := r.Err?;
        }
      }
    }

    /** `focusInEvent`: the first line edit gets the focus. */
    method FocusIn()
      requires Valid()
      modifies this`focus
      ensures focus == Some(lineEdits[0])
    {
      focus := Some(lineEdits[0]);
    }
  }

  lemma AppendOne(t0: seq<string>, others: seq<string>, k: nat)
    requires k < |others|
    ensures t0 + others[..k] + [others[k]] == t0 + others[..k + 1]
  {
    assert others[..k + 1] == others[..k] + [others[k]];
  }

  /** One more new line edit right after the run of new ones in the list being rebuilt. */
  lemma InsertAfterRun(l0: seq<nat>, p: nat, n: nat, k: nat)
    requires p <= |l0|
    ensures PyLists.Insert(l0[..p] + Run(n, k) + l0[p..], p + k, n + k) == l0[..p] + Run(n, k + 1) + l0[p..]
  {
    var l := l0[..p] + Run(n, k) + l0[p..];
    assert l[..p + k] == l0[..p] + Run(n, k);
    assert l[p + k..] == l0[p..];
    assert Run(n, k) + [n + k] == Run(n, k + 1);
  }
}
