/**
 * Python's `sorted`: the lexicographic order on tuples of ints (used for
 * node paths) and a stable sort by an integer key in descending order
 * (`sorted(xs, key=lambda i: -i.row())`).
 */
module PySort {

  // ---------------------------------------------------------------------
  // Tuple comparison

  /** `a <= b` on Python tuples of ints: lexicographic, a proper prefix first. */
  predicate LexLe(a: seq<int>, b: seq<int>)
    decreases |a|
  {
    a == [] || (b != [] && (a[0] < b[0] || (a[0] == b[0] && LexLe(a[1..], b[1..]))))
  }

  lemma {:induction false} LexLeTotal(a: seq<int>, b: seq<int>)
    ensures LexLe(a, b) || LexLe(b, a)
    decreases |a|
  {
    if a != [] && b != [] && a[0] == b[0] {
      LexLeTotal(a[1..], b[1..]);
    }
  }

  lemma {:induction false} LexLeTrans(a: seq<int>, b: seq<int>, c: seq<int>)
    requires LexLe(a, b) && LexLe(b, c)
    ensures LexLe(a, c)
    decreases |a|
  {
    if a != [] && a[0] == b[0] && b[0] == c[0] {
      LexLeTrans(a[1..], b[1..], c[1..]);
    }
  }

  lemma {:induction false} LexLeAntisym(a: seq<int>, b: seq<int>)
    requires LexLe(a, b) && LexLe(b, a)
    ensures a == b
    decreases |a|
  {
    if a != [] {
      LexLeAntisym(a[1..], b[1..]);
      assert a == [a[0]] + a[1..] && b == [b[0]] + b[1..];
    }
  }

  predicate LexSorted(s: seq<seq<int>>)
  {
    forall i, j :: 0 <= i < j < |s| ==> LexLe(s[i], s[j])
  }

  function InsertLex(s: seq<seq<int>>, x: seq<int>): (r: seq<seq<int>>)
    ensures multiset(r) == multiset(s) + multiset{x}
  {
    if s == [] then [x]
    else if LexLe(x, s[0]) then [x] + s
    else
      assert s == [s[0]] + s[1..];
      [s[0]] + InsertLex(s[1..], x)
  }

  /** `sorted(paths)` */
  function SortLex(s: seq<seq<int>>): (r: seq<seq<int>>)
    ensures multiset(r) == multiset(s)
  {
    if s == [] then []
    else
      assert s == [s[0]] + s[1..];
      InsertLex(SortLex(s[1..]), s[0])
  }

  lemma {:induction false} InsertLexSorted(s: seq<seq<int>>, x: seq<int>)
    requires LexSorted(s)
    ensures LexSorted(InsertLex(s, x))
  {
    var r := InsertLex(s, x);
    if s == [] {
    } else if LexLe(x, s[0]) {
      forall i, j | 0 <= i < j < |r| ensures LexLe(r[i], r[j]) {
        if i == 0 && j > 1 { LexLeTrans(x, s[0], s[j - 1]); }
      }
    } else {
      InsertLexSorted(s[1..], x);
      LexLeTotal(x, s[0]);
      var tail := InsertLex(s[1..], x);
      forall i, j | 0 <= i < j < |r| ensures LexLe(r[i], r[j]) {
        if i == 0 {
          assert r[j] == tail[j - 1];
          assert r[j] in multiset(tail);
          assert r[j] in multiset(s[1..]) + multiset{x};
          if r[j] == x {
          } else {
            assert r[j] in s[1..];
            var k :| 0 <= k < |s[1..]| && s[1..][k] == r[j];
            assert s[k + 1] == r[j];
          }
        } else {
          assert r[i] == tail[i - 1] && r[j] == tail[j - 1];
        }
      }
    }
  }

  /** `sorted` returns the same paths in ascending order. */
  lemma {:induction false} SortLexSorted(s: seq<seq<int>>)
    ensures LexSorted(SortLex(s)) && multiset(SortLex(s)) == multiset(s)
  {
    if s != [] {
      SortLexSorted(s[1..]);
      InsertLexSorted(SortLex(s[1..]), s[0]);
    }
  }

  /** A sorted list without repetitions is strictly ascending. */
  lemma SortedDistinct(s: seq<seq<int>>, i: nat, j: nat)
    requires LexSorted(s) && i < j < |s| && s[i] != s[j]
    ensures !LexLe(s[j], s[i])
  {
    if LexLe(s[j], s[i]) { LexLeAntisym(s[i], s[j]); }
  }

  // ---------------------------------------------------------------------
  // Stable sort by a key, largest key first

  predicate Descending<T>(s: seq<T>, key: T -> int)
  {
    forall i, j :: 0 <= i < j < |s| ==> key(s[i]) >= key(s[j])
  }

  /** Puts `x` after every element whose key is at least its own. */
  function InsertDesc<T>(s: seq<T>, x: T, key: T -> int): (r: seq<T>)
    ensures multiset(r) == multiset(s) + multiset{x} && |r| == |s| + 1
  {
    if s == [] then [x]
    else if key(s[0]) >= key(x) then
      assert s == [s[0]] + s[1..];
      [s[0]] + InsertDesc(s[1..], x, key)
    else [x] + s
  }

  /** `sorted(s, key=lambda e: -key(e))`: stable, so later elements go after earlier ones with the same key. */
  function SortDesc<T>(s: seq<T>, key: T -> int): (r: seq<T>)
    ensures multiset(r) == multiset(s) && |r| == |s|
  {
    if s == [] then []
    else
      assert s == s[..|s| - 1] + [s[|s| - 1]];
      InsertDesc(SortDesc(s[..|s| - 1], key), s[|s| - 1], key)
  }

  lemma {:induction false} InsertDescSorted<T>(s: seq<T>, x: T, key: T -> int)
    requires Descending(s, key)
    ensures Descending(InsertDesc(s, x, key), key)
  {
    var r := InsertDesc(s, x, key);
    if s != [] && key(s[0]) >= key(x) {
      InsertDescSorted(s[1..], x, key);
      var tail := InsertDesc(s[1..], x, key);
      forall i, j | 0 <= i < j < |r| ensures key(r[i]) >= key(r[j]) {
        if i == 0 {
          assert r[j] == tail[j - 1];
          assert r[j] in multiset(s[1..]) + multiset{x};
          if r[j] != x {
            assert r[j] in s[1..];
            var k :| 0 <= k < |s[1..]| && s[1..][k] == r[j];
            assert s[k + 1] == r[j];
          }
        } else {
          assert r[i] == tail[i - 1] && r[j] == tail[j - 1];
        }
      }
    }
  }

  /** The stable sort gives a permutation in non-increasing key order. */
  lemma {:induction false} SortDescSorted<T>(s: seq<T>, key: T -> int)
    ensures Descending(SortDesc(s, key), key) && multiset(SortDesc(s, key)) == multiset(s)
  {
    if s != [] {
      SortDescSorted(s[..|s| - 1], key);
      InsertDescSorted(SortDesc(s[..|s| - 1], key), s[|s| - 1], key);
    }
  }
}
