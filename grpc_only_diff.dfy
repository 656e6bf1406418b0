/**
 * `get_pb2_grpc_only` of scripts/make_datastore_grpc.py: walk the lines that
 * protoc generates with the gRPC plugin (`grpcContents`, A below) with one
 * cursor into the lines it generates without the plugin (`nonGrpcContents`,
 * B below). A line equal to the line under the cursor advances the cursor;
 * any other line is gRPC-only. The cursor is used as an index without a
 * bounds check, so the walk raises IndexError once B is used up while A
 * still has lines.
 */
module GrpcOnlyDiff {
  import opened PyStr
  import opened Subsequences

  /** The loop's two variables: `grpc_only_lines` and `curr_non_grpc_line`. */
  datatype Scan = Scan(grpcOnly: seq<string>, cursor: nat)

  /**
   * The state of the loop after it has gone through all of `a`, or the
   * IndexError it raised on the way. Defined on the last line of `a` so that
   * `Walk(a[..i], b)` is the state after `i` iterations.
   */
  function Walk(a: seq<string>, b: seq<string>): (r: Result<Scan>)
    decreases |a|
    ensures r.Ok? ==> r.value.cursor <= |b|
    ensures r.Ok? ==> |r.value.grpcOnly| + r.value.cursor == |a|
    ensures r.Err? ==> r.error == IndexError && |a| > 0
  {
    if a == [] then Ok(Scan([], 0))
    else
      var prev := Walk(a[..|a| - 1], b);
      var line := a[|a| - 1];
      if prev.Err? then prev
      else if prev.value.cursor == |b| then Err(IndexError)
      else if line == b[prev.value.cursor] then Ok(Scan(prev.value.grpcOnly, prev.value.cursor + 1))
      else Ok(Scan(prev.value.grpcOnly + [line], prev.value.cursor))
  }

  // ---------------------------------------------------------------------------
  // What the walk computes

  /** Which lines of A a completed walk matched against B (the trace of the `if`). */
  ghost function Matched(a: seq<string>, b: seq<string>): (m: seq<bool>)
    requires Walk(a, b).Ok?
    decreases |a|
    ensures |m| == |a|
  {
    if a == [] then []
    else
      var init := a[..|a| - 1];
      Matched(init, b) + [a[|a| - 1] == b[Walk(init, b).value.cursor]]
  }

  /**
   * A completed walk splits A in two, in order: the lines it matched, which
   * are exactly the first `cursor` lines of B, and the gRPC-only lines.
   */
  lemma {:induction false} WalkSplitsA(a: seq<string>, b: seq<string>)
    requires Walk(a, b).Ok?
    ensures Pick(a, Matched(a, b), true) == b[..Walk(a, b).value.cursor]
    ensures Pick(a, Matched(a, b), false) == Walk(a, b).value.grpcOnly
    decreases |a|
  {
    if a != [] {
      var init, line := a[..|a| - 1], a[|a| - 1];
      var p := Walk(init, b).value;
      var m0 := Matched(init, b);
      WalkSplitsA(init, b);
      assert a == init + [line];
      var matched := line == b[p.cursor];
      assert Matched(a, b) == m0 + [matched];
      PickSnoc(init, m0, line, matched, true);
      PickSnoc(init, m0, line, matched, false);
      if matched {
        assert Walk(a, b).value == Scan(p.grpcOnly, p.cursor + 1);
        assert b[..p.cursor + 1] == b[..p.cursor] + [line];
      } else {
        assert Walk(a, b).value == Scan(p.grpcOnly + [line], p.cursor);
      }
    }
  }

  /** The gRPC-only lines are the lines of A in their original order, some left out. */
  lemma GrpcOnlyIsSubsequence(a: seq<string>, b: seq<string>)
    requires Walk(a, b).Ok?
    ensures IsSubsequence(Walk(a, b).value.grpcOnly, a)
  {
    WalkSplitsA(a, b);
    var m := Matched(a, b);
    var flipped := seq(|m|, k requires 0 <= k < |m| => !m[k]);
    PickFlip(a, m, flipped);
  }

  /**
   * The walk matches greedily, and greedy matching is as good as any: if the
   * first `k` lines of B can be found in order in A, the cursor gets to `k`.
   */
  lemma WalkCursorIsMaximal(a: seq<string>, b: seq<string>, k: nat)
    requires Walk(a, b).Ok? && k <= |b|
    requires IsSubsequence(b[..k], a)
    ensures k <= Walk(a, b).value.cursor
  {
    var m: seq<bool> :| |m| == |a| && Pick(a, m, true) == b[..k];
    WalkCursorReaches(a, b, m, k);
  }

  /** `WalkCursorIsMaximal` for one given choice `m` of the lines of A. */
  lemma {:induction false} WalkCursorReaches(a: seq<string>, b: seq<string>, m: seq<bool>, k: nat)
    requires Walk(a, b).Ok? && k <= |b|
    requires |m| == |a| && Pick(a, m, true) == b[..k]
    ensures k <= Walk(a, b).value.cursor
    decreases |a|
  {
    if a != [] && k > 0 {
      var init, m0 := a[..|a| - 1], m[..|m| - 1];
      if m[|m| - 1] {
        assert Pick(init, m0, true) + [a[|a| - 1]] == b[..k];
        assert Pick(init, m0, true) == b[..k][..k - 1] == b[..k - 1];
        WalkCursorReaches(init, b, m0, k - 1);
      } else {
        WalkCursorReaches(init, b, m0, k);
      }
    }
  }

  /** An IndexError raised on a prefix of A is the result of the whole walk: the raise ends the loop. */
  lemma {:induction false} WalkPrefixErr(a: seq<string>, b: seq<string>, i: nat)
    requires i <= |a| && Walk(a[..i], b).Err?
    ensures Walk(a, b).Err?
    decreases |a|
  {
    if i < |a| {
      assert a[..|a| - 1][..i] == a[..i];
      WalkPrefixErr(a[..|a| - 1], b, i);
    } else {
      assert a[..i] == a;
    }
  }

  /** A completed walk whose cursor reached the end of B found all of B in order in A. */
  lemma WalkAtEndFoundB(a: seq<string>, b: seq<string>)
    requires Walk(a, b).Ok? && Walk(a, b).value.cursor == |b|
    ensures IsSubsequence(b, a)
  {
    WalkSplitsA(a, b);
    assert b[..|b|] == b;
    assert Pick(a, Matched(a, b), true) == b;
  }

  /**
   * The walk raises IndexError exactly when A has lines and all of B can be
   * found in order among the lines of A before its last one: the cursor then
   * reaches the end of B while a line of A is left.
   */
  lemma {:induction false} WalkErrIff(a: seq<string>, b: seq<string>)
    ensures Walk(a, b).Err? <==> |a| > 0 && IsSubsequence(b, a[..|a| - 1])
    decreases |a|
  {
    if |a| > 0 {
      var init := a[..|a| - 1];
      WalkErrIff(init, b);
      if Walk(init, b).Err? {
        assert init == init[..|init| - 1] + [init[|init| - 1]];
        SubsequenceSnoc(b, init[..|init| - 1], init[|init| - 1]);
      } else {
        if IsSubsequence(b, init) {
          assert b[..|b|] == b;
          WalkCursorIsMaximal(init, b, |b|);
        }
        if Walk(init, b).value.cursor == |b| {
          WalkAtEndFoundB(init, b);
        }
      }
    }
  }

  /** Walking a prefix of B against B matches every line and collects none. */
  lemma {:induction false} WalkPrefix(b: seq<string>, k: nat)
    requires k <= |b|
    ensures Walk(b[..k], b) == Ok(Scan([], k))
  {
    if k > 0 {
      WalkPrefix(b, k - 1);
      assert b[..k][..k - 1] == b[..k - 1];
    }
  }

  /** Identical outputs of the two protoc runs leave no gRPC-only line and use up B. */
  lemma WalkIdentical(a: seq<string>)
    ensures Walk(a, a) == Ok(Scan([], |a|))
  {
    WalkPrefix(a, |a|);
    assert a[..|a|] == a;
  }

  /**
   * A gRPC-only line after the last line of B is not collected: the cursor is
   * past the end of B by then, and indexing B with it raises IndexError.
   */
  lemma WalkLineAfterB(b: seq<string>, line: string)
    ensures Walk(b + [line], b) == Err(IndexError)
  {
    WalkPrefix(b, |b|);
    assert (b + [line])[..|b|] == b[..|b|] == b;
  }

  /**
   * When B can be found in order in A and the walk completes, it uses up B
   * and the gRPC-only lines are as many as A has lines more than B.
   */
  lemma WalkCountsInsertedLines(a: seq<string>, b: seq<string>)
    requires IsSubsequence(b, a) && Walk(a, b).Ok?
    ensures Walk(a, b).value.cursor == |b|
    ensures |Walk(a, b).value.grpcOnly| == |a| - |b|
  {
    assert b[..|b|] == b;
    WalkCursorIsMaximal(a, b, |b|);
  }

  // ---------------------------------------------------------------------------
  // The loop

  /** `get_pb2_grpc_only()` with the two protoc outputs passed in. */
  method GetPb2GrpcOnly(grpcContents: seq<string>, nonGrpcContents: seq<string>)
    returns (r: Result<seq<string>>)
    ensures r.Ok? <==> Walk(grpcContents, nonGrpcContents).Ok?
    ensures r.Ok? ==> r.value == Walk(grpcContents, nonGrpcContents).value.grpcOnly
    ensures r.Err? ==> r.error == IndexError
    ensures grpcContents == [] ==> r == Ok([])
  {
    var grpcOnlyLines: seq<string> := [];
    var currNonGrpcLine: nat := 0;
    for i := 0 to |grpcContents|
      invariant Walk(grpcContents[..i], nonGrpcContents) == Ok(Scan(grpcOnlyLines, currNonGrpcLine))
    {
      var line := grpcContents[i];
      assert grpcContents[..i + 1][..i] == grpcContents[..i];
      if currNonGrpcLine >= |nonGrpcContents| {
        WalkPrefixErr(grpcContents, nonGrpcContents, i + 1);
        return Err(IndexError);
      }
      if line == nonGrpcContents[currNonGrpcLine] {
        currNonGrpcLine := currNonGrpcLine + 1;
      } else {
        grpcOnlyLines := grpcOnlyLines + [line];
      }
    }
    assert grpcContents[..|grpcContents|] == grpcContents;
    return Ok(grpcOnlyLines);
  }
}
