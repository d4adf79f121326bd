/**
 * Python string primitives the source relies on: `sep.join(parts)`,
 * `s.split(c)` with an explicit one-character separator, `s.split()` on
 * runs of whitespace, `s.replace(a, b)` for single characters and the
 * slice `s[:n]`.
 */
module PyStrings {

  /** `sep.join(parts)` */
  function Join(parts: seq<string>, sep: string): (r: string)
    ensures parts == [] ==> r == ""
    ensures |parts| == 1 ==> r == parts[0]
  {
    if parts == [] then ""
    else if |parts| == 1 then parts[0]
    else parts[0] + sep + Join(parts[1..], sep)
  }

  /** `s.split(c)` for one separator character `c`: keeps empty parts, never returns `[]`. */
  function Split(s: string, c: char): (r: seq<string>)
    ensures |r| >= 1
  {
    if s == [] then [""]
    else
      var rest := Split(s[1..], c);
      if s[0] == c then [""] + rest else [[s[0]] + rest[0]] + rest[1..]
  }

  /** No part produced by `Split` contains the separator. */
  lemma {:induction false} SplitPartsFree(s: string, c: char)
    ensures forall k :: 0 <= k < |Split(s, c)| ==> c !in Split(s, c)[k]
  {
    if s != [] {
      SplitPartsFree(s[1..], c);
      var rest := Split(s[1..], c);
      if s[0] != c {
        assert c !in rest[0];
        assert c !in [s[0]] + rest[0];
      }
    }
  }

  /** Joining the parts of a split with the separator gives back the text. */
  lemma {:induction false} SplitJoin(s: string, c: char)
    ensures Join(Split(s, c), [c]) == s
  {
    if s != [] {
      SplitJoin(s[1..], c);
      var rest := Split(s[1..], c);
      if s[0] == c {
        assert Split(s, c) == [""] + rest;
        assert ([""] + rest)[1..] == rest;
      } else {
        var r := Split(s, c);
        assert r[0] == [s[0]] + rest[0];
        if |rest| == 1 {
          assert r == [[s[0]] + rest[0]];
        } else {
          assert r[1..] == rest[1..];
          assert Join(rest, [c]) == rest[0] + [c] + Join(rest[1..], [c]);
        }
      }
    }
  }

  /** A text without the separator splits into itself alone; one with it splits into several parts. */
  lemma {:induction false} SplitSingle(s: string, c: char)
    ensures |Split(s, c)| == 1 <==> c !in s
    ensures c !in s ==> Split(s, c) == [s]
  {
    if s != [] {
      SplitSingle(s[1..], c);
      assert s == [s[0]] + s[1..];
    }
  }

  /** Every character of a part of a split occurs in the text. */
  lemma {:induction false} SplitPartsIn(s: string, c: char)
    ensures forall k, j :: 0 <= k < |Split(s, c)| && 0 <= j < |Split(s, c)[k]| ==> Split(s, c)[k][j] in s
  {
    if s != [] {
      SplitPartsIn(s[1..], c);
      var rest := Split(s[1..], c);
      assert forall x :: x in s[1..] ==> x in s;
      if s[0] != c {
        var r := Split(s, c);
        forall k, j | 0 <= k < |r| && 0 <= j < |r[k]| ensures r[k][j] in s {
          if k == 0 {
            if j > 0 {
              assert r[0][j] == rest[0][j - 1];
            }
          } else {
            assert r[k] == rest[k];
          }
        }
      }
    }
  }

  /** Text before the first separator joins the first part. */
  lemma {:induction false} SplitPrefix(w: string, rest: string, c: char)
    requires c !in w
    ensures Split(w + rest, c) == [w + Split(rest, c)[0]] + Split(rest, c)[1..]
  {
    if w != [] {
      assert (w + rest)[0] == w[0] && (w + rest)[1..] == w[1..] + rest;
      SplitPrefix(w[1..], rest, c);
      assert [w[0]] + (w[1..] + Split(rest, c)[0]) == w + Split(rest, c)[0];
    } else {
      var r := Split(rest, c);
      assert w + rest == rest && w + r[0] == r[0];
      assert r == [r[0]] + r[1..];
    }
  }

  /** Splitting parts joined by the separator gives the parts back, when none of them holds it. */
  lemma {:induction false} JoinSplit(vs: seq<string>, c: char)
    requires vs != [] && forall k :: 0 <= k < |vs| ==> c !in vs[k]
    ensures Split(Join(vs, [c]), c) == vs
  {
    if |vs| == 1 {
      SplitSingle(vs[0], c);
    } else {
      var tail := vs[1..];
      assert forall k :: 0 <= k < |tail| ==> tail[k] == vs[k + 1];
      JoinSplit(tail, c);
      var j := Join(tail, [c]);
      assert Join(vs, [c]) == vs[0] + ([c] + j);
      SplitPrefix(vs[0], [c] + j, c);
      assert ([c] + j)[0] == c && ([c] + j)[1..] == j;
      assert Split([c] + j, c) == [""] + tail;
      assert vs[0] + "" == vs[0];
      assert vs == [vs[0]] + tail;
    }
  }

  /**
   * The whitespace `str.split()` separates on: the characters for which
   * `str.isspace` holds, the ASCII ones and the Unicode spaces and line
   * and paragraph separators.
   */
  predicate IsSpace(ch: char)
  {
    ch == ' ' || ch == '\t' || ch == '\n' || ch == '\r' || ch == '\U{B}' || ch == '\U{C}'
    || ('\U{1C}' <= ch <= '\U{1F}')
    || ch == '\U{85}' || ch == '\U{A0}' || ch == '\U{1680}' || ('\U{2000}' <= ch <= '\U{200A}')
    || ch == '\U{2028}' || ch == '\U{2029}' || ch == '\U{202F}' || ch == '\U{205F}' || ch == '\U{3000}'
  }

  /** `s.split()`: the maximal runs of non-whitespace characters, in order. */
  function Words(s: string): seq<string>
  {
    WordsFrom(s, "")
  }

  /** Words of `cur + s`, where `cur` is a run of non-whitespace already read. */
  function WordsFrom(s: string, cur: string): seq<string>
  {
    if s == [] then (if cur == "" then [] else [cur])
    else if IsSpace(s[0]) then (if cur == "" then [] else [cur]) + WordsFrom(s[1..], "")
    else WordsFrom(s[1..], cur + [s[0]])
  }

  /** A no-break space separates words like an ASCII space does. */
  lemma WordsUnicodeSpace()
    ensures Words("a\U{A0}b c") == ["a", "b", "c"]
  {
    var s := "a\U{A0}b c";
    assert s[1..] == "\U{A0}b c" && s[1..][1..] == "b c" && "b c"[1..] == " c" && " c"[1..] == "c";
    assert !IsSpace('a') && !IsSpace('b') && !IsSpace('c');
    assert "" + ['a'] == "a" && "" + ['b'] == "b" && "" + ['c'] == "c";
    assert WordsFrom("c", "") == WordsFrom("", "c") == ["c"];
    assert WordsFrom(" c", "b") == ["b"] + WordsFrom("c", "");
    assert WordsFrom("b c", "") == WordsFrom(" c", "b");
    assert WordsFrom("\U{A0}b c", "a") == ["a"] + WordsFrom("b c", "");
    assert Words(s) == WordsFrom("\U{A0}b c", "a");
  }

  /**
   * Every word is non-empty, free of whitespace and no longer than the text;
   * it is strictly shorter when the text holds a whitespace character.
   */
  lemma {:induction false} WordsShape(s: string, cur: string)
    requires forall k :: 0 <= k < |cur| ==> !IsSpace(cur[k])
    ensures forall w :: w in WordsFrom(s, cur) ==>
      w != "" && (forall k :: 0 <= k < |w| ==> !IsSpace(w[k])) && |w| <= |cur| + |s|
    ensures (exists k :: 0 <= k < |s| && IsSpace(s[k])) ==>
      forall w :: w in WordsFrom(s, cur) ==> |w| < |cur| + |s|
  {
    if s != [] {
      if IsSpace(s[0]) {
        WordsShape(s[1..], "");
      } else {
        var cur' := cur + [s[0]];
        assert forall k :: 0 <= k < |cur'| ==> !IsSpace(cur'[k]) by {
          forall k | 0 <= k < |cur'| ensures !IsSpace(cur'[k]) {
            if k < |cur| { assert cur'[k] == cur[k]; }
          }
        }
        WordsShape(s[1..], cur');
        if exists k :: 0 <= k < |s| && IsSpace(s[k]) {
          var k :| 0 <= k < |s| && IsSpace(s[k]);
          assert k > 0 && IsSpace(s[1..][k - 1]);
        }
      }
    }
  }

  /** Every character of a word comes from the run already read or from the text. */
  lemma {:induction false} WordsIn(s: string, cur: string)
    ensures forall w, x :: w in WordsFrom(s, cur) && x in w ==> x in cur || x in s
  {
    if s != [] {
      assert forall x :: x in s[1..] ==> x in s;
      if IsSpace(s[0]) {
        WordsIn(s[1..], "");
      } else {
        WordsIn(s[1..], cur + [s[0]]);
      }
    }
  }

  /** `s.replace(a, b)` for single characters. */
  function ReplaceChar(s: string, a: char, b: char): (r: string)
    ensures |r| == |s|
    ensures forall k :: 0 <= k < |s| ==> r[k] == if s[k] == a then b else s[k]
  {
    seq(|s|, k requires 0 <= k < |s| => if s[k] == a then b else s[k])
  }

  /** The slice `s[:n]` for `n >= 0`: clamped to the length of `s`. */
  function Take(s: string, n: nat): string
  {
    if n <= |s| then s[..n] else s
  }

  predicate IsPrefix(p: string, s: string)
  {
    |p| <= |s| && s[..|p|] == p
  }

  /** `s[:len(p)] == p` holds exactly when `p` is a prefix of `s`. */
  lemma SliceCompareIsPrefix(p: string, s: string)
    ensures (Take(s, |p|) == p) <==> IsPrefix(p, s)
  {
  }
}
