/**
 * Splitting a sequence along a mask of flags: the independent description
 * against which the diff of the two protoc outputs and the filter of the
 * marker lines are both stated.
 */
module Subsequences {

  /** The elements of `a` at the positions where `m` is `want`, in order. */
  function Pick<T>(a: seq<T>, m: seq<bool>, want: bool): seq<T>
    requires |m| == |a|
    decreases |a|
  {
    if a == [] then []
    else Pick(a[..|a| - 1], m[..|m| - 1], want) + (if m[|m| - 1] == want then [a[|a| - 1]] else [])
  }

  /** `x` is `y` with some elements left out, the rest kept in order. */
  ghost predicate IsSubsequence<T>(x: seq<T>, y: seq<T>) {
    exists m: seq<bool> :: |m| == |y| && Pick(y, m, true) == x
  }

  /** Appending one element to a sequence and one flag to its mask. */
  lemma PickSnoc<T>(a: seq<T>, m: seq<bool>, z: T, t: bool, want: bool)
    requires |m| == |a|
    ensures Pick(a + [z], m + [t], want) == Pick(a, m, want) + (if t == want then [z] else [])
  {
    assert (a + [z])[..|a|] == a;
    assert (m + [t])[..|m|] == m;
  }

  /** Every picked element is an element of the sequence. */
  lemma {:induction false} PickIn<T>(a: seq<T>, m: seq<bool>, want: bool, k: nat)
    requires |m| == |a| && k < |Pick(a, m, want)|
    ensures Pick(a, m, want)[k] in a
    decreases |a|
  {
    var init := a[..|a| - 1];
    var p := Pick(init, m[..|m| - 1], want);
    if k < |p| {
      PickIn(init, m[..|m| - 1], want, k);
      assert p[k] in init;
    }
  }

  /** A subsequence stays one when the longer sequence grows at its end. */
  lemma SubsequenceSnoc<T>(x: seq<T>, y: seq<T>, z: T)
    requires IsSubsequence(x, y)
    ensures IsSubsequence(x, y + [z])
  {
    var m: seq<bool> :| |m| == |y| && Pick(y, m, true) == x;
    PickSnoc(y, m, z, false, true);
    assert Pick(y + [z], m + [false], true) == x;
  }

  /** Flipping every flag of a mask swaps the kept and the dropped elements. */
  lemma {:induction false} PickFlip<T>(a: seq<T>, m: seq<bool>, flipped: seq<bool>)
    requires |m| == |a| && |flipped| == |m|
    requires forall k :: 0 <= k < |m| ==> flipped[k] == !m[k]
    ensures Pick(a, flipped, true) == Pick(a, m, false)
    decreases |a|
  {
    if a != [] {
      PickFlip(a[..|a| - 1], m[..|m| - 1], flipped[..|flipped| - 1]);
    }
  }
}
