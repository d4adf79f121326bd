/**
 * `SubstringValidator`, the line-edit validator that accepts one of a list
 * of possible values and lets through any text that can still grow into
 * one of them.
 *
 * The queries are functions of the list: `RemainingOptions` (the values
 * that start with the text, in list order), `Validate` (the validator
 * state, with the text and cursor position handed back) and `Fixup` (the
 * completion offered when exactly one value is left). The class below is
 * the newer validator, whose only state is the list it keeps a copy of.
 */
module SubstringValidator {
  import opened PyStrings

  /** `QValidator.State`. */
  datatype State = Invalid | Intermediate | Acceptable

  /** The triple `validate` returns: the state, the text and the cursor position. */
  datatype Validation = Validation(state: State, text: string, pos: int)

  /** `[p for p in possibleValues if p[:len(inputText)] == inputText]` */
  function RemainingOptions(values: seq<string>, text: string): (r: seq<string>)
    ensures |r| <= |values|
    ensures forall p :: p in r <==> p in values && IsPrefix(text, p)
  {
    if values == [] then []
    else
      SliceCompareIsPrefix(text, values[0]);
      (if Take(values[0], |text|) == text then [values[0]] else []) + RemainingOptions(values[1..], text)
  }

  /** Filtering a concatenation filters each part, so the options keep the order of the list. */
  lemma {:induction false} RemainingAppend(a: seq<string>, b: seq<string>, text: string)
    ensures RemainingOptions(a + b, text) == RemainingOptions(a, text) + RemainingOptions(b, text)
  {
    if a != [] {
      assert (a + b)[0] == a[0] && (a + b)[1..] == a[1..] + b;
      RemainingAppend(a[1..], b, text);
      var head := if Take(a[0], |text|) == text then [a[0]] else [];
      assert RemainingOptions(a + b, text) == head + (RemainingOptions(a[1..], text) + RemainingOptions(b, text));
      assert RemainingOptions(a, text) == head + RemainingOptions(a[1..], text);
      assert head + (RemainingOptions(a[1..], text) + RemainingOptions(b, text))
        == (head + RemainingOptions(a[1..], text)) + RemainingOptions(b, text);
    } else {
      assert a + b == b;
    }
  }

  /** A one-element list is kept exactly when the value starts with the text. */
  lemma RemainingOne(p: string, text: string)
    ensures RemainingOptions([p], text) == if IsPrefix(text, p) then [p] else []
  {
    SliceCompareIsPrefix(text, p);
    assert [p][1..] == [];
  }

  /** Every value that starts with the text is kept as often as it occurs; no other value is kept. */
  lemma {:induction false} RemainingCount(values: seq<string>, text: string, p: string)
    ensures multiset(RemainingOptions(values, text))[p] == if IsPrefix(text, p) then multiset(values)[p] else 0
  {
    if values != [] {
      var rest := values[1..];
      RemainingCount(rest, text, p);
      SliceCompareIsPrefix(text, values[0]);
      var head := if IsPrefix(text, values[0]) then [values[0]] else [];
      assert RemainingOptions(values, text) == head + RemainingOptions(rest, text);
      assert values == [values[0]] + rest;
      assert multiset(values) == multiset([values[0]]) + multiset(rest);
      assert multiset(RemainingOptions(values, text)) == multiset(head) + multiset(RemainingOptions(rest, text));
    }
  }

  /** The value at `i` is the one and only entry of the list that starts with the text. */
  predicate OnlyCompletion(values: seq<string>, text: string, i: int)
  {
    && 0 <= i < |values| && IsPrefix(text, values[i])
    && forall j :: 0 <= j < |values| && j != i ==> !IsPrefix(text, values[j])
  }

  /** Exactly one option remains precisely when exactly one entry of the list starts with the text. */
  lemma {:induction false} SingleRemaining(values: seq<string>, text: string)
    ensures |RemainingOptions(values, text)| == 1 <==> exists i :: OnlyCompletion(values, text, i)
    ensures forall i :: OnlyCompletion(values, text, i) ==> RemainingOptions(values, text) == [values[i]]
  {
    if values != [] {
      SingleRemaining(values[1..], text);
      if IsPrefix(text, values[0]) {
        SingleRemainingKept(values, text);
      } else {
        SingleRemainingSkipped(values, text);
      }
    }
  }

  /** The induction step of `SingleRemaining` when the first value starts with the text. */
  lemma {:induction false} SingleRemainingKept(values: seq<string>, text: string)
    requires values != [] && IsPrefix(text, values[0])
    requires |RemainingOptions(values[1..], text)| == 1 <==> exists i :: OnlyCompletion(values[1..], text, i)
    ensures |RemainingOptions(values, text)| == 1 <==> exists i :: OnlyCompletion(values, text, i)
    ensures forall i :: OnlyCompletion(values, text, i) ==> RemainingOptions(values, text) == [values[i]]
  {
    var rest := values[1..];
    SliceCompareIsPrefix(text, values[0]);
    var r := RemainingOptions(values, text);
    assert forall j :: 1 <= j < |values| ==> values[j] == rest[j - 1];
    assert r == [values[0]] + RemainingOptions(rest, text);
    if RemainingOptions(rest, text) == [] {
      assert OnlyCompletion(values, text, 0) by {
        forall j | 0 <= j < |values| && j != 0 ensures !IsPrefix(text, values[j]) {
          assert values[j] in rest;
        }
      }
    } else {
      var q := RemainingOptions(rest, text)[0];
      assert q in rest && IsPrefix(text, q);
      var j :| 0 <= j < |rest| && rest[j] == q;
      forall i ensures !OnlyCompletion(values, text, i) {
        if i == 0 {
          assert values[j + 1] == q;
        }
      }
    }
  }

  /** The induction step of `SingleRemaining` when the first value does not start with the text. */
  lemma {:induction false} SingleRemainingSkipped(values: seq<string>, text: string)
    requires values != [] && !IsPrefix(text, values[0])
    requires |RemainingOptions(values[1..], text)| == 1 <==> exists i :: OnlyCompletion(values[1..], text, i)
    requires forall i :: OnlyCompletion(values[1..], text, i) ==> RemainingOptions(values[1..], text) == [values[1..][i]]
    ensures |RemainingOptions(values, text)| == 1 <==> exists i :: OnlyCompletion(values, text, i)
    ensures forall i :: OnlyCompletion(values, text, i) ==> RemainingOptions(values, text) == [values[i]]
  {
    var rest := values[1..];
    SliceCompareIsPrefix(text, values[0]);
    assert RemainingOptions(values, text) == RemainingOptions(rest, text);
    assert forall j :: 1 <= j < |values| ==> values[j] == rest[j - 1];
    forall i | OnlyCompletion(values, text, i) ensures i > 0 && OnlyCompletion(rest, text, i - 1) {
    }
    forall i | OnlyCompletion(rest, text, i) ensures OnlyCompletion(values, text, i + 1) {
      forall j | 0 <= j < |values| && j != i + 1 ensures !IsPrefix(text, values[j]) {
        if j > 0 {
          assert values[j] == rest[j - 1];
        }
      }
    }
  }

  /**
   * `validate(inputText, pos)`: Acceptable for a value of the list,
   * Intermediate for any other text some value starts with, Invalid when
   * no value starts with it; the text and the position come back as given.
   */
  function Validate(values: seq<string>, text: string, pos: int): (v: Validation)
    ensures v.text == text && v.pos == pos
    ensures v.state == Acceptable <==> text in values
    ensures v.state == Intermediate <==> text !in values && exists p :: p in values && IsPrefix(text, p)
    ensures v.state == Invalid <==> forall p :: p in values ==> !IsPrefix(text, p)
  {
    if text in values then Validation(Acceptable, text, pos)
    else if RemainingOptions(values, text) != [] then
      assert RemainingOptions(values, text)[0] in RemainingOptions(values, text);
      Validation(Intermediate, text, pos)
    else Validation(Invalid, text, pos)
  }

  /**
   * `fixup(inputText)`: when a single entry of the list starts with the
   * text, that entry; otherwise (none, or several, duplicates counted) the
   * text itself.
   */
  function Fixup(values: seq<string>, text: string): (r: string)
    ensures forall i :: OnlyCompletion(values, text, i) ==> r == values[i]
    ensures (forall i :: !OnlyCompletion(values, text, i)) ==> r == text
    ensures r == text || (r in values && IsPrefix(text, r))
  {
    SingleRemaining(values, text);
    var rem := RemainingOptions(values, text);
    if |rem| == 1 then rem[0] else text
  }

  /**
   * Fixing up a text that is not Invalid never makes it Invalid, and a text
   * with a single completion is fixed up into an Acceptable one.
   */
  lemma FixupCompletes(values: seq<string>, text: string, pos: int)
    ensures Validate(values, text, pos).state != Invalid ==> Validate(values, Fixup(values, text), pos).state != Invalid
    ensures (exists i :: OnlyCompletion(values, text, i)) ==> Validate(values, Fixup(values, text), pos).state == Acceptable
  {
    var r := Fixup(values, text);
    if r != text {
      assert IsPrefix(r, r);
    }
    if exists i :: OnlyCompletion(values, text, i) {
      var i :| OnlyCompletion(values, text, i);
      assert r == values[i];
    }
  }

  /** The validator of the newer module: the list of possible values it keeps its own copy of. */
  class SubstringValidator {
    var possibleValues: seq<string>

    /** `SubstringValidator(possibleValues)`: starts from an empty list, then sets the given values. */
    constructor (possibleValues: seq<string>)
      ensures this.possibleValues == possibleValues
    {
      this.possibleValues := [];
      new;
      SetPossibleValues(possibleValues);
    }

    /** `setPossibleValues(possibleValues)`: the stored list is replaced by a copy of the argument. */
    method SetPossibleValues(possibleValues: seq<string>)
      modifies this
      ensures this.possibleValues == possibleValues
    {
      this.possibleValues := possibleValues;
    }
  }
}

/**
 * The older `SubstringValidator`: the same queries over a public list, with
 * the remaining options collected by a loop.
 */
module SubstringValidatorLib {
  import opened PyStrings
  import SV = SubstringValidator

  class SubstringValidator {
    var possibleValues: seq<string>

    /** `SubstringValidator(possibleValues)`: a copy of the given values. */
    constructor (possibleValues: seq<string>)
      ensures this.possibleValues == possibleValues
    {
      this.possibleValues := possibleValues;
    }

    /** `_getRemainingOptions(inputText)`: the loop appending each value whose slice of the text's length is the text. */
    method GetRemainingOptions(inputText: string) returns (remainingOptions: seq<string>)
      ensures remainingOptions == SV.RemainingOptions(possibleValues, inputText)
    {
      var size := |inputText|;
      remainingOptions := [];
      var k := 0;
      while k < |possibleValues|
        invariant 0 <= k <= |possibleValues|
        invariant remainingOptions == SV.RemainingOptions(possibleValues[..k], inputText)
      {
        var p := possibleValues[k];
        assert possibleValues[..k + 1] == possibleValues[..k] + [p];
        SV.RemainingAppend(possibleValues[..k], [p], inputText);
        SV.RemainingOne(p, inputText);
        SliceCompareIsPrefix(inputText, p);
        if Take(p, size) == inputText {
          remainingOptions := remainingOptions + [p];
        }
        k := k + 1;
      }
      assert possibleValues[..k] == possibleValues;
    }

    /** `validate(inputText, pos)` */
    method Validate(inputText: string, pos: int) returns (v: SV.Validation)
      ensures v == SV.Validate(possibleValues, inputText, pos)
    {
      if inputText in possibleValues {
        return SV.Validation(SV.Acceptable, inputText, pos);
      }
      var remaining := GetRemainingOptions(inputText);
      if remaining != [] {
        return SV.Validation(SV.Intermediate, inputText, pos);
      }
      return SV.Validation(SV.Invalid, inputText, pos);
    }

    /** `fixup(inputText)`: the only remaining option when `len(remaining) == 1`, else the text. */
    method Fixup(inputText: string) returns (r: string)
      ensures r == SV.Fixup(possibleValues, inputText)
    {
      var remaining := GetRemainingOptions(inputText);
      if |remaining| == 1 {
        r := remaining[0];
      } else {
        r := inputText;
      }
    }
  }
}
