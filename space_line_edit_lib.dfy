/**
 * `SpaceLineEdit` of the older module: the line edits are the widgets of
 * its layout, and values are split at spaces, commas and semicolons only.
 * Typing a text with one of them splits the line edit into words; an empty
 * text takes the line edit out. Setting a line edit's text from the widget
 * notifies the widget again, with no guard: the model follows that second
 * notification.
 *
 * A line edit is named by its creation number: `texts[id]` is the text of
 * the `id`-th line edit the widget created, `layout` lists the ones in the
 * layout, in order, and `focus` is the line edit last given the focus.
 */
module SpaceLineEditLib {
  import opened Wrappers
  import opened PyStrings
  import PyLists
  import SLE = SpaceLineEdit

  /** `SPLIT_CHARS`: a space, a comma and a semicolon. */
  const SplitChars: string := " ,;"

  /** The text `_convert` makes of `text`: the split characters after the first become spaces. */
  function ConvertOf(text: string): string
  {
    SLE.Normalise(text, SplitChars[1..], ' ')
  }

  /** `_isSplit(text)` */
  predicate IsSplit(text: string)
  {
    ' ' in text
  }

  /** The measure of the chain of notifications a text can start: one more step when it splits. */
  function Splits(text: string): nat
  {
    if IsSplit(ConvertOf(text)) then 1 else 0
  }

  /** `layout.indexOf(le)`: the position of `le`, or -1 when it is not in the layout. */
  function LayoutIndex(layout: seq<nat>, le: nat): (r: int)
    ensures le in layout ==> r == PyLists.IndexOf(layout, le)
    ensures le !in layout ==> r == -1
  {
    if le in layout then PyLists.IndexOf(layout, le) else -1
  }

  /**
   * The words of a converted text: none is empty, none holds a space, a
   * comma or a semicolon, so converting one leaves it as it is and it does
   * not split again.
   */
  lemma WordsPlain(text: string)
    requires ',' !in text && ';' !in text
    ensures forall w :: w in Words(text) ==> w != "" && ConvertOf(w) == w && Splits(w) == 0
  {
    WordsShape(text, "");
    WordsIn(text, "");
    forall w | w in Words(text) ensures ConvertOf(w) == w && Splits(w) == 0 {
      assert forall k :: 0 <= k < |w| ==> w[k] in text && !IsSpace(w[k]);
      assert ConvertOf(w) == w;
    }
  }

  /** `_convert` turns commas and semicolons into spaces and leaves every other character alone. */
  lemma ConvertChars(text: string)
    ensures |ConvertOf(text)| == |text|
    ensures forall k :: 0 <= k < |text| ==>
      ConvertOf(text)[k] == if text[k] == ',' || text[k] == ';' then ' ' else text[k]
    ensures ',' !in ConvertOf(text) && ';' !in ConvertOf(text)
    ensures IsSplit(ConvertOf(text)) <==> exists k :: 0 <= k < |text| && text[k] in " ,;"
  {
    var r := ConvertOf(text);
    assert forall k :: 0 <= k < |text| ==> (text[k] in SplitChars[1..] <==> text[k] == ',' || text[k] == ';');
    if IsSplit(r) {
      var k :| 0 <= k < |r| && r[k] == ' ';
      assert text[k] in " ,;";
    }
    if exists k :: 0 <= k < |text| && text[k] in " ,;" {
      var k :| 0 <= k < |text| && text[k] in " ,;";
      assert r[k] == ' ';
    }
  }

  class SpaceLineEdit {
    var layout: seq<nat>
    var texts: seq<string>
    var focus: Option<nat>

    /** At least one line edit is in the layout, each once. */
    ghost predicate Valid()
      reads this
    {
      |layout| >= 1 && SLE.Shown(layout, |texts|)
    }

    /** `SpaceLineEdit()`: one empty line edit. */
    constructor ()
      ensures Valid() && layout == [0] && texts == [""] && focus == None
    {
      layout := [0];
      texts := [""];
      focus := None;
    }

    /** `getValues()`, with its loop over the layout. */
    method GetValues() returns (values: seq<string>)
      ensures values == SLE.ValuesOf(layout, texts)
    {
      values := [];
      var index := 0;
      while index < |layout|
        invariant 0 <= index <= |layout|
        invariant values == SLE.ValuesOf(layout[..index], texts)
      {
        values := values + [if layout[index] < |texts| then texts[layout[index]] else ""];
        index := index + 1;
      }
      assert layout[..index] == layout;
    }

    /** `_prepareLineEdit(position, text)`: a new line edit holding the text, put in the layout at `position`. */
    method PrepareLineEdit(position: nat, text: string)
      requires position <= |layout|
      modifies this`layout, this`texts
      ensures texts == old(texts) + [text]
      ensures layout == old(layout)[..position] + [old(|texts|)] + old(layout)[position..]
    {
      var id := |texts|;
      texts := texts + [text];
      layout := layout[..position] + [id] + layout[position..];
    }

    /** `_cleanAll()`: every line edit taken out of the layout, the last one first. */
    method CleanAll()
      modifies this`layout
      ensures layout == []
    {
      var index := |layout|;
      while index > 0
        invariant 0 <= index <= |layout|
        invariant index == |layout|
      {
        index := index - 1;
        layout := layout[..index];
      }
    }

    /** `setValues(values)`: one new line edit per value, in order, or a single empty one for no values. */
    method SetValues(values: seq<string>)
      modifies this
      ensures Valid()
      ensures SLE.ValuesOf(layout, texts) == if values == [] then [""] else values
      ensures layout == SLE.Run(old(|texts|), |SLE.ValuesOf(layout, texts)|) && texts == old(texts) + SLE.ValuesOf(layout, texts)
      ensures focus == old(focus)
    {
      CleanAll();
      var vs := if values == [] then [""] else values;
      ghost var t0 := texts;
      var index := 0;
      while index < |vs|
        invariant 0 <= index <= |vs|
        invariant texts == t0 + vs[..index] && layout == SLE.Run(|t0|, index)
        invariant SLE.ValuesOf(layout, texts) == vs[..index]
        invariant focus == old(focus)
      {
        PrepareLineEdit(index, vs[index]);
        assert layout == SLE.Run(|t0|, index + 1);
        assert vs[..index + 1] == vs[..index] + [vs[index]];
        index := index + 1;
      }
      assert vs[..index] == vs;
      assert forall i, j :: 0 <= i < j < |layout| ==> layout[i] != layout[j];
    }

    /** `_convert(text)`, with its loop over the comma and the semicolon. */
    static method Convert(text: string) returns (r: string)
      ensures r == ConvertOf(text)
    {
      var chars := SplitChars;
      r := text;
      var k := 1;
      while k < |chars|
        invariant 1 <= k <= |chars|
        invariant ConvertOf(text) == SLE.Normalise(r, chars[k..], ' ')
      {
        assert chars[k..][0] == chars[k] && chars[k..][1..] == chars[k + 1..];
        r := ReplaceChar(r, chars[k], ' ');
        k := k + 1;
      }
      assert chars[k..] == [];
    }

    /**
     * `_setFocus(le, offset)`: the line edit `offset` places after `le` in
     * the layout gets the focus, and True comes back, when there is one. A
     * line edit not in the layout counts as being at -1.
     */
    method SetFocus(le: nat, offset: int) returns (ok: bool)
      modifies this`focus
      ensures var index := LayoutIndex(layout, le) + offset;
        && (ok <==> 0 <= index < |layout|)
        && focus == if ok then Some(layout[index]) else old(focus)
    {
      var index := LayoutIndex(layout, le) + offset;
      if 0 <= index < |layout| {
        focus := Some(layout[index]);
        return true;
      }
      return false;
    }

    /** What `_removeLineEdit(le, changeFocus)` leaves, from the layout `l0` and the focus `f0`. */
    ghost predicate RemovedFrom(l0: seq<nat>, f0: Option<nat>, le: nat, changeFocus: bool)
      reads this
    {
      if |l0| <= 1 then layout == l0 && focus == f0
      else
        && layout == (if le in l0 then l0[..PyLists.IndexOf(l0, le)] + l0[PyLists.IndexOf(l0, le) + 1..] else l0)
        && focus == if !changeFocus then f0
                    else if le !in l0 then Some(l0[0])
                    else Some(l0[if PyLists.IndexOf(l0, le) > 0 then PyLists.IndexOf(l0, le) - 1 else 1])
    }

    /**
     * `_removeLineEdit(le, changeFocus)`: the last line edit is never taken
     * out; otherwise the focus moves to the previous line edit, or failing
     * that the next one, when asked to, and `le` leaves the layout.
     */
    method RemoveLineEdit(le: nat, changeFocus: bool)
      requires Valid()
      modifies this`layout, this`focus
      ensures Valid()
      ensures RemovedFrom(old(layout), old(focus), le, changeFocus)
    {
      if |layout| <= 1 {
        return;
      }
      if changeFocus {
        var ok := SetFocus(le, -1);
        if !ok {
          ok := SetFocus(le, 1);
        }
      }
      if le in layout {
        SLE.RemoveValues(layout, texts, PyLists.IndexOf(layout, le));
        layout := PyLists.RemoveFirst(layout, le);
      }
    }

    /**
     * What `_addLineEdit(le, text)` leaves, from the layout `l0`, the texts
     * `t0` and the focus `f0`, with the notifications its `setText` calls
     * send back. No words: the line edit is emptied, and the notification
     * of that takes it out. Otherwise it holds the first word, the other
     * words (or one empty line edit when there is a single word) follow it,
     * and the first new line edit gets the focus.
     */
    ghost predicate AddedFrom(l0: seq<nat>, t0: seq<string>, f0: Option<nat>, le: nat, text: string)
      requires le < |t0|
      reads this
    {
      var ws := Words(text);
      if ws == [] then
        if t0[le] == "" then layout == l0 && texts == t0 && focus == f0
        else texts == t0[le := ""] && RemovedFrom(l0, f0, le, true)
      else
        var extras := if |ws| == 1 then [""] else ws[1..];
        var pos := LayoutIndex(l0, le) + 1;
        && layout == l0[..pos] + SLE.Run(|t0|, |extras|) + l0[pos..]
        && texts == t0[le := ws[0]] + extras
        && focus == Some(|t0|)
    }

    /**
     * What a change notification for `le` with `text` leaves, from the
     * layout `l0`, the texts `t0` and the focus `f0`: an empty text takes
     * the line edit out; a text that splits once converted is split.
     */
    ghost predicate HandledFrom(l0: seq<nat>, t0: seq<string>, f0: Option<nat>, le: nat, text: string)
      requires le < |t0|
      reads this
    {
      if text == "" then texts == t0 && RemovedFrom(l0, f0, le, true)
      else if !IsSplit(ConvertOf(text)) then layout == l0 && texts == t0 && focus == f0
      else AddedFrom(l0, t0, f0, le, ConvertOf(text))
    }

    /** `onTextChanged(le, text)` */
    method OnTextChanged(le: nat, text: string)
      requires Valid() && le < |texts|
      modifies this
      decreases Splits(text), 1
      ensures Valid()
      ensures HandledFrom(old(layout), old(texts), old(focus), le, text)
    {
      if text == "" {
        RemoveLineEdit(le, true);
      }
      var converted := Convert(text);
      ConvertChars(text);
      if IsSplit(converted) {
        AddLineEdit(le, converted);
      }
    }

    /** `_addLineEdit(le, text)` for a converted text that splits. */
    method AddLineEdit(le: nat, text: string)
      requires Valid() && le < |texts| && ',' !in text && ';' !in text
      modifies this
      decreases 1, 0
      ensures Valid()
      ensures AddedFrom(old(layout), old(texts), old(focus), le, text)
    {
      var words := Words(text);
      WordsPlain(text);
      if words == [] {
        SetEntryText(le, "");
        return;
      }
      ghost var l0, t0 := layout, texts;
      assert words[0] in words;
      assert !IsSplit(ConvertOf(words[0])) && words[0] != "";
      SetEntryText(le, words[0]);
      assert layout == l0 && texts == t0[le := words[0]];
      ghost var extras := if |words| == 1 then [""] else words[1..];
      if |words| == 1 {
        words := words + [""];
      }
      assert words[1..] == extras;
      var insertIndex := LayoutIndex(layout, le) + 1;
      InsertWords(insertIndex, words[1..]);
      assert layout[insertIndex] == |t0| && LayoutIndex(layout, le) + 1 == insertIndex;
      var ok := SetFocus(le, 1);
    }

    /** The loop of `_addLineEdit` over the further words: a new line edit for each, in order from `insertIndex` on. */
    method InsertWords(insertIndex: nat, extras: seq<string>)
      requires Valid() && insertIndex <= |layout| && extras != []
      modifies this`layout, this`texts
      ensures Valid()
      ensures layout == old(layout)[..insertIndex] + SLE.Run(old(|texts|), |extras|) + old(layout)[insertIndex..]
      ensures texts == old(texts) + extras
    {
      ghost var l0, t0 := layout, texts;
      var k := 0;
      while k < |extras|
        invariant 0 <= k <= |extras|
        invariant layout == l0[..insertIndex] + SLE.Run(|t0|, k) + l0[insertIndex..]
        invariant texts == t0 + extras[..k]
      {
        SLE.InsertAfterRun(l0, insertIndex, |t0|, k);
        PrepareLineEdit(insertIndex + k, extras[k]);
        SLE.AppendOne(t0, extras, k);
        k := k + 1;
      }
      assert extras[..k] == extras;
      InsertShown(l0, |t0|, insertIndex, |extras|);
    }

    /** `le.setText(t)`, which is also how typing reaches the widget: a changed text notifies it. */
    method SetEntryText(le: nat, t: string)
      requires Valid() && le < |texts|
      modifies this
      decreases Splits(t), 2
      ensures Valid()
      ensures old(texts[le]) == t ==> layout == old(layout) && texts == old(texts) && focus == old(focus)
      ensures old(texts[le]) != t ==> HandledFrom(old(layout), old(texts)[le := t], old(focus), le, t)
    {
      if texts[le] == t {
        return;
      }
      texts := texts[le := t];
      OnTextChanged(le, t);
    }

    /**
     * `eventFilter(le, event)`: an empty line edit losing the focus is taken
     * out without moving the focus; Backspace in an empty one takes it out
     * and moves the focus; Down and Up move the focus to the next or
     * previous line edit.
     */
    method EventFilter(le: nat, event: SLE.InputEvent)
      requires Valid() && le < |texts|
      modifies this`layout, this`focus
      ensures Valid()
      ensures event == SLE.FocusOut && texts[le] == "" ==> RemovedFrom(old(layout), old(focus), le, false)
      ensures event == SLE.KeyPress(SLE.Backspace) && texts[le] == "" ==> RemovedFrom(old(layout), old(focus), le, true)
      ensures event == SLE.KeyPress(SLE.Down) || event == SLE.KeyPress(SLE.Up) ==>
        var index := LayoutIndex(layout, le) + (if event == SLE.KeyPress(SLE.Down) then 1 else -1);
        layout == old(layout) && focus == if 0 <= index < |layout| then Some(layout[index]) else old(focus)
      ensures (event == SLE.FocusOut || event == SLE.KeyPress(SLE.Backspace)) && texts[le] != "" ==> layout == old(layout) && focus == old(focus)
      ensures event.OtherEvent? || event == SLE.KeyPress(SLE.OtherKey) ==> layout == old(layout) && focus == old(focus)
    {
      if event == SLE.FocusOut {
        if texts[le] == "" {
          RemoveLineEdit(le, false);
        }
      } else if event.KeyPress? {
        if event.key == SLE.Backspace && texts[le] == "" {
          RemoveLineEdit(le, true);
        }
        if event.key == SLE.Down {
          var ok := SetFocus(le, 1);
        } else if event.key == SLE.Up {
          var ok := SetFocus(le, -1);
        }
      }
    }

    /** `focusInEvent`: the first line edit of the layout gets the focus. */
    method FocusIn()
      requires Valid()
      modifies this`focus
      ensures focus == Some(layout[0])
    {
      focus := Some(layout[0]);
    }
  }

  /** New line edits put at `p` keep the line edits of the layout distinct. */
  lemma InsertShown(l0: seq<nat>, n: nat, p: nat, m: nat)
    requires SLE.Shown(l0, n) && p <= |l0|
    ensures SLE.Shown(l0[..p] + SLE.Run(n, m) + l0[p..], n + m)
  {
    var l := l0[..p] + SLE.Run(n, m) + l0[p..];
    assert forall k :: 0 <= k < |l| ==> l[k] == if k < p then l0[k] else if k < p + m then n + (k - p) else l0[k - m];
    forall j, k | 0 <= j < k < |l| ensures l[j] != l[k] {
    }
  }

  /**
   * The values after `_addLineEdit` splits a line edit of the layout into
   * words: the first word in its place, then the other words (or one empty
   * value for a single word), then the values that followed it.
   */
  lemma AddedValues(l0: seq<nat>, t0: seq<string>, le: nat, ws: seq<string>)
    requires SLE.Shown(l0, |t0|) && le in l0 && ws != []
    ensures var extras := if |ws| == 1 then [""] else ws[1..];
      var i := PyLists.IndexOf(l0, le);
      SLE.ValuesOf(l0[..i + 1] + SLE.Run(|t0|, |extras|) + l0[i + 1..], t0[le := ws[0]] + extras)
        == SLE.ValuesOf(l0, t0)[..i] + [ws[0]] + extras + SLE.ValuesOf(l0, t0)[i + 1..]
  {
    var extras := if |ws| == 1 then [""] else ws[1..];
    var parts := [ws[0]] + extras;
    var i := PyLists.IndexOf(l0, le);
    assert i < |l0| && l0[i] == le;
    assert parts[0] == ws[0] && parts[1..] == extras;
    assert |parts| - 1 == |extras| && SLE.ValuesOf(l0, t0)[..i] + parts == SLE.ValuesOf(l0, t0)[..i] + [ws[0]] + extras;
    SLE.ChangeValuesOnly(l0, t0, i, parts);
  }
}
