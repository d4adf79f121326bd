/**
 * Python list primitives the source relies on: `list.insert` (which clamps
 * its position and counts negative positions from the end), `list.index`,
 * `list.remove` (first occurrence) and subscripting with negative indexes.
 */
module PyLists {
  import opened Wrappers

  /** The position at which `list.insert(pos, x)` puts `x` in a list of length `len`. */
  function InsertPos(len: nat, pos: int): (p: nat)
    ensures p <= len
    ensures 0 <= pos <= len ==> p == pos
    ensures pos > len ==> p == len
    ensures pos < 0 && pos + len >= 0 ==> p == pos + len
    ensures pos + len < 0 ==> p == 0
  {
    if pos < 0 then (if pos + len < 0 then 0 else pos + len)
    else if pos > len then len
    else pos
  }

  /** `s.insert(pos, x)` */
  function Insert<T>(s: seq<T>, pos: int, x: T): (r: seq<T>)
    ensures |r| == |s| + 1
    ensures r[InsertPos(|s|, pos)] == x
    ensures r[..InsertPos(|s|, pos)] == s[..InsertPos(|s|, pos)]
    ensures r[InsertPos(|s|, pos) + 1..] == s[InsertPos(|s|, pos)..]
  {
    var p := InsertPos(|s|, pos);
    s[..p] + [x] + s[p..]
  }

  /** `s.index(x)`: the first position holding `x` (the source only calls it on members). */
  function IndexOf<T(==)>(s: seq<T>, x: T): (i: nat)
    requires x in s
    ensures i < |s| && s[i] == x
    ensures forall j :: 0 <= j < i ==> s[j] != x
  {
    if s[0] == x then 0 else 1 + IndexOf(s[1..], x)
  }

  /** `s.remove(x)`: drops the first occurrence of `x`. */
  function RemoveFirst<T(==)>(s: seq<T>, x: T): (r: seq<T>)
    requires x in s
    ensures |r| == |s| - 1
    ensures r == s[..IndexOf(s, x)] + s[IndexOf(s, x) + 1..]
  {
    var i := IndexOf(s, x);
    s[..i] + s[i + 1..]
  }

  predicate NoDup<T(==)>(s: seq<T>)
  {
    forall i, j :: 0 <= i < j < |s| ==> s[i] != s[j]
  }

  /**
   * Python subscripting `s[k]`: a negative `k` counts from the end; `None`
   * stands for the IndexError raised outside `-len(s) <= k < len(s)`.
   */
  function PyIndex(len: nat, k: int): (r: Option<nat>)
    ensures 0 <= k < len ==> r == Some(k)
    ensures k < 0 && 0 <= k + len ==> r == Some(k + len)
    ensures (k >= len || k + len < 0) ==> r == None
    ensures r.Some? ==> r.value < len
  {
    if 0 <= k < len then Some(k) else if k < 0 && 0 <= k + len then Some(k + len) else None
  }

  /** Python slice `s[:-n]` for a positive `n`: everything but the last `n` items, or nothing. */
  function DropLast<T>(s: seq<T>, n: nat): (r: seq<T>)
    ensures |s| >= n ==> r == s[..|s| - n]
    ensures |s| < n ==> r == []
  {
    if |s| >= n then s[..|s| - n] else []
  }

  /** A list has no repetition exactly when no value occurs twice in its multiset. */
  lemma {:induction false} NoDupCount<T>(s: seq<T>)
    ensures NoDup(s) <==> forall x :: multiset(s)[x] <= 1
  {
    if NoDup(s) {
      NoDupCountAtMostOne(s);
    } else {
      var j, k :| 0 <= j < k < |s| && s[j] == s[k];
      assert s == s[..k] + [s[k]] + s[k + 1..];
      assert s[j] in s[..k];
      assert multiset(s)[s[k]] >= 2;
    }
  }

  lemma {:induction false} NoDupCountAtMostOne<T>(s: seq<T>)
    requires NoDup(s)
    ensures forall x :: multiset(s)[x] <= 1
  {
    if s != [] {
      assert NoDup(s[1..]) by {
        forall j, k | 0 <= j < k < |s[1..]| ensures s[1..][j] != s[1..][k] {
          assert s[1..][j] == s[j + 1] && s[1..][k] == s[k + 1];
        }
      }
      NoDupCountAtMostOne(s[1..]);
      assert s == [s[0]] + s[1..];
      assert s[0] !in s[1..] by {
        forall k | 0 <= k < |s[1..]| ensures s[1..][k] != s[0] {
          assert s[1..][k] == s[k + 1];
        }
      }
    }
  }

  /** Concatenation regroups freely. */
  lemma AppendAssoc<T>(a: seq<T>, b: seq<T>, c: seq<T>)
    ensures (a + b) + c == a + (b + c)
  {
  }

  /** `s.insert(len(s), x)` is `s.append(x)`. */
  lemma InsertAtEnd<T>(s: seq<T>, x: T)
    ensures Insert(s, |s|, x) == s + [x]
  {
  }

  /** Two lists with the same multiset have the same members. */
  lemma PermMembers<T>(a: seq<T>, b: seq<T>)
    requires multiset(a) == multiset(b)
    ensures forall x :: x in a <==> x in b
  {
    forall x ensures x in a <==> x in b {
      assert x in a <==> x in multiset(a);
      assert x in b <==> x in multiset(b);
    }
  }

  /** A list with the same multiset as one without repetition has none either. */
  lemma NoDupPerm<T>(a: seq<T>, b: seq<T>)
    requires multiset(a) == multiset(b) && NoDup(a)
    ensures NoDup(b)
  {
    NoDupCount(a);
    NoDupCount(b);
  }

  /** `reversed(s)` */
  function Reverse<T>(s: seq<T>): (r: seq<T>)
    ensures |r| == |s|
    ensures forall i :: 0 <= i < |s| ==> r[i] == s[|s| - 1 - i]
  {
    if s == [] then [] else Reverse(s[1..]) + [s[0]]
  }

  /** The members of a list, as a set. */
  function Members<T>(s: seq<T>): set<T>
  {
    set x | x in s
  }

  /** A list without repetition has as many members as items. */
  lemma {:induction false} NoDupCard<T>(s: seq<T>)
    requires NoDup(s)
    ensures |Members(s)| == |s|
  {
    if s != [] {
      assert NoDup(s[1..]) by {
        forall j, k | 0 <= j < k < |s[1..]| ensures s[1..][j] != s[1..][k] {
          assert s[1..][j] == s[j + 1] && s[1..][k] == s[k + 1];
        }
      }
      NoDupCard(s[1..]);
      assert s[0] !in s[1..] by {
        forall k | 0 <= k < |s[1..]| ensures s[1..][k] != s[0] {
          assert s[1..][k] == s[k + 1];
        }
      }
      assert s == [s[0]] + s[1..];
      assert Members(s) == Members(s[1..]) + {s[0]};
    }
  }

  /** Two lists without repetition and with the same members are equally long. */
  lemma SameMembersLength<T>(a: seq<T>, b: seq<T>)
    requires NoDup(a) && NoDup(b) && Members(a) == Members(b)
    ensures |a| == |b|
  {
    NoDupCard(a);
    NoDupCard(b);
  }

  /** `list.insert` adds exactly the new item to the members. */
  lemma InsertMembers<T>(s: seq<T>, pos: int, x: T)
    ensures Members(Insert(s, pos, x)) == Members(s) + {x}
    ensures NoDup(s) && x !in s ==> NoDup(Insert(s, pos, x))
  {
    var p := InsertPos(|s|, pos);
    var r := Insert(s, pos, x);
    assert r == s[..p] + [x] + s[p..];
    assert s == s[..p] + s[p..];
    if NoDup(s) && x !in s {
      forall i, j | 0 <= i < j < |r| ensures r[i] != r[j] {
        var si := if i < p then i else i - 1;
        var sj := if j <= p then j else j - 1;
        if i != p && j != p {
          assert r[i] == s[si] && r[j] == s[sj] && si < sj;
        } else if i == p {
          assert r[j] == s[sj];
        } else {
          assert r[i] == s[si];
        }
      }
    }
  }
}
