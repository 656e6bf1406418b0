/**
 * Python's ordering `<=` on strings and the built-in `sorted()` on a list of
 * strings, as scripts/make_datastore_grpc.py uses them for the message-type names.
 */
module PySorted {

  /** Python's `a <= b` on strings: lexicographic by code point, a prefix first. */
  predicate LexLe(a: string, b: string)
    decreases |a|
  {
    |a| == 0 || (|b| > 0 && (a[0] < b[0] || (a[0] == b[0] && LexLe(a[1..], b[1..]))))
  }

  lemma {:induction false} LexLeReflexive(a: string)
    ensures LexLe(a, a)
  {
    if |a| > 0 {
      LexLeReflexive(a[1..]);
    }
  }

  lemma {:induction false} LexLeTotal(a: string, b: string)
    ensures LexLe(a, b) || LexLe(b, a)
  {
    if |a| > 0 && |b| > 0 && a[0] == b[0] {
      LexLeTotal(a[1..], b[1..]);
    }
  }

  lemma {:induction false} LexLeTransitive(a: string, b: string, c: string)
    requires LexLe(a, b) && LexLe(b, c)
    ensures LexLe(a, c)
  {
    if |a| > 0 && a[0] == b[0] && b[0] == c[0] {
      LexLeTransitive(a[1..], b[1..], c[1..]);
    }
  }

  lemma {:induction false} LexLeAntisymmetric(a: string, b: string)
    requires LexLe(a, b) && LexLe(b, a)
    ensures a == b
  {
    if |a| > 0 {
      LexLeAntisymmetric(a[1..], b[1..]);
      assert a == [a[0]] + a[1..] && b == [b[0]] + b[1..];
    }
  }

  predicate IsSorted(s: seq<string>) {
    forall i, j :: 0 <= i < j < |s| ==> LexLe(s[i], s[j])
  }

  /** Insert `x` into the sorted list `s` after every element smaller than it. */
  function Insert(x: string, s: seq<string>): (r: seq<string>)
    requires IsSorted(s)
    ensures IsSorted(r)
    ensures multiset(r) == multiset(s) + multiset{x}
  {
    if s == [] then [x]
    else if LexLe(x, s[0]) then
      assert forall i :: 0 <= i < |s| ==> LexLe(x, s[i]) by {
        forall i | 0 <= i < |s| ensures LexLe(x, s[i]) {
          if i > 0 { LexLeTransitive(x, s[0], s[i]); }
        }
      }
      [x] + s
    else
      var tail := Insert(x, s[1..]);
      LexLeTotal(x, s[0]);
      assert s == [s[0]] + s[1..];
      forall k | 0 <= k < |tail| ensures LexLe(s[0], tail[k]) {
        assert tail[k] in multiset(tail);
        assert tail[k] == x || tail[k] in multiset(s[1..]);
      }
      [s[0]] + tail
  }

  /** `sorted(s)` for a list of strings. */
  function Sorted(s: seq<string>): (r: seq<string>)
    ensures IsSorted(r)
    ensures multiset(r) == multiset(s)
  {
    if s == [] then []
    else
      assert s == s[..|s| - 1] + [s[|s| - 1]];
      Insert(s[|s| - 1], Sorted(s[..|s| - 1]))
  }

  /** The first element of a sorted list is at most every element of it. */
  lemma SortedFirstIsLeast(x: seq<string>, v: string)
    requires IsSorted(x) && v in multiset(x)
    ensures x != [] && LexLe(x[0], v)
  {
    var i :| 0 <= i < |x| && x[i] == v;
    if i == 0 {
      LexLeReflexive(v);
    }
  }

  /** Dropping the first element of a list removes one copy of it from its multiset. */
  lemma MultisetTail(x: seq<string>)
    requires x != []
    ensures multiset(x[1..]) == multiset(x) - multiset{x[0]}
  {
    assert x == [x[0]] + x[1..];
  }

  /**
   * A sorted permutation is unique, so `Sorted` returns exactly the list that
   * Python's (stable) `sorted` returns, whatever algorithm computes it.
   */
  lemma {:induction false} SortedUnique(x: seq<string>, y: seq<string>)
    requires IsSorted(x) && IsSorted(y) && multiset(x) == multiset(y)
    ensures x == y
  {
    if x != [] {
      assert x[0] in multiset(y);
      SortedFirstIsLeast(y, x[0]);
      SortedFirstIsLeast(x, y[0]);
      LexLeAntisymmetric(x[0], y[0]);
      MultisetTail(x);
      MultisetTail(y);
      SortedUnique(x[1..], y[1..]);
      assert x == [x[0]] + x[1..] && y == [y[0]] + y[1..];
    } else {
      assert |multiset(y)| == 0;
    }
  }
}
