/**
 * The parts of Python's built-in `str` and exception behaviour that
 * scripts/make_datastore_grpc.py relies on: substring search (`in`,
 * `str.find`), `str.split(sep)`, `str.join` and `file.readlines()`.
 */
module PyStr {

  /** The two exceptions the script can raise on its own (everything else is I/O). */
  datatype PyError = IndexError | ValueError

  /** A Python call that either returns a value or raises. */
  datatype Result<T> = Ok(value: T) | Err(error: PyError)

  datatype Option<T> = None | Some(value: T)

  // ---------------------------------------------------------------------------
  // Substring search

  /** `pat` occurs in `s` at index `i`. */
  predicate OccursAt(s: string, pat: string, i: nat) {
    i + |pat| <= |s| && s[i..i + |pat|] == pat
  }

  /** `pat` occurs in `s` at two different indices. */
  ghost predicate OccursTwice(s: string, pat: string) {
    exists i: nat, j: nat :: i < j && OccursAt(s, pat, i) && OccursAt(s, pat, j)
  }

  /** No proper suffix of `pat` is also a prefix of it, so two occurrences never overlap. */
  ghost predicate NoSelfOverlap(pat: string) {
    forall k :: 0 < k < |pat| ==> pat[k..] != pat[..|pat| - k]
  }

  /** The search of `str.find` from index `k` on. */
  function FindFrom(s: string, pat: string, k: nat): (r: Option<nat>)
    decreases |s| - k
    ensures r.Some? ==> k <= r.value && OccursAt(s, pat, r.value)
  {
    if k + |pat| > |s| then None
    else if s[k..k + |pat|] == pat then Some(k)
    else FindFrom(s, pat, k + 1)
  }

  /** `s.find(pat)`: the lowest index where `pat` occurs, `None` for Python's -1. */
  function Find(s: string, pat: string): (r: Option<nat>)
    ensures r.Some? ==> OccursAt(s, pat, r.value)
  {
    FindFrom(s, pat, 0)
  }

  /** `pat in s`. */
  predicate Contains(s: string, pat: string) {
    Find(s, pat).Some?
  }

  lemma {:induction false} FindFromLeftmost(s: string, pat: string, k: nat, j: nat)
    requires k <= j && OccursAt(s, pat, j)
    ensures FindFrom(s, pat, k).Some? && FindFrom(s, pat, k).value <= j
    decreases |s| - k
  {
    if k < j && s[k..k + |pat|] != pat {
      FindFromLeftmost(s, pat, k + 1, j);
    }
  }

  /** `str.find` reports an occurrence wherever there is one, and none later than any other. */
  lemma FindLeftmost(s: string, pat: string, j: nat)
    requires OccursAt(s, pat, j)
    ensures Contains(s, pat) && Find(s, pat).value <= j
  {
    FindFromLeftmost(s, pat, 0, j);
  }

  /** An occurrence at `i` with none before it is what `str.find` reports. */
  lemma FindIs(s: string, pat: string, i: nat)
    requires OccursAt(s, pat, i)
    requires forall j: nat :: j < i ==> !OccursAt(s, pat, j)
    ensures Find(s, pat) == Some(i)
  {
    FindLeftmost(s, pat, i);
  }

  /** An occurrence in a suffix of `s` is an occurrence in `s`, shifted. */
  lemma OccursInSuffix(s: string, pat: string, k: nat, j: nat)
    requires k <= |s|
    ensures OccursAt(s[k..], pat, j) <==> OccursAt(s, pat, k + j)
  {
    if k + j + |pat| <= |s| {
      assert s[k..][j..j + |pat|] == s[k + j..k + j + |pat|];
    }
  }

  /** An occurrence in a prefix of `s` is an occurrence in `s`. */
  lemma OccursInPrefix(s: string, pat: string, k: nat, j: nat)
    requires k <= |s|
    requires OccursAt(s[..k], pat, j)
    ensures OccursAt(s, pat, j)
  {
    assert s[..k][j..j + |pat|] == s[j..j + |pat|];
  }

  // ---------------------------------------------------------------------------
  // split and join

  /** `sep.join(parts)`. */
  function JoinWith(sep: string, parts: seq<string>): string {
    if |parts| == 0 then ""
    else if |parts| == 1 then parts[0]
    else parts[0] + sep + JoinWith(sep, parts[1..])
  }

  /**
   * `s.split(sep)` for a non-empty `sep`: cut at the leftmost occurrence and
   * carry on after it, so the occurrences used never overlap.
   */
  function Split(s: string, sep: string): (parts: seq<string>)
    requires |sep| > 0
    decreases |s|
    ensures |parts| >= 1
  {
    match Find(s, sep)
    case None => [s]
    case Some(i) => [s[..i]] + Split(s[i + |sep|..], sep)
  }

  /** A string is the text before an occurrence, the occurrence and the text after it. */
  lemma AroundOccurrence(s: string, pat: string, i: nat)
    requires OccursAt(s, pat, i)
    ensures s == s[..i] + pat + s[i + |pat|..]
  {
    assert s == s[..i] + s[i..i + |pat|] + s[i + |pat|..];
  }

  /** Joining the parts of a split with the same separator gives back the string. */
  lemma {:induction false} SplitJoin(s: string, sep: string)
    requires |sep| > 0
    ensures JoinWith(sep, Split(s, sep)) == s
    decreases |s|
  {
    SplitHead(s, sep);
    if Contains(s, sep) {
      var i := Find(s, sep).value;
      var rest := s[i + |sep|..];
      var parts := Split(s, sep);
      SplitJoin(rest, sep);
      AroundOccurrence(s, sep, i);
      assert JoinWith(sep, parts) == parts[0] + sep + JoinWith(sep, parts[1..]);
    }
  }

  /**
   * A string without the separator splits into itself alone; otherwise the
   * first part is the text before the first occurrence of the separator and
   * the other parts are the split of the text after it.
   */
  lemma SplitHead(s: string, sep: string)
    requires |sep| > 0
    ensures !Contains(s, sep) ==> Split(s, sep) == [s]
    ensures Contains(s, sep) ==> |Split(s, sep)| >= 2
    ensures Contains(s, sep) ==> Split(s, sep)[0] == s[..Find(s, sep).value]
    ensures Contains(s, sep) ==> Split(s, sep)[1..] == Split(s[Find(s, sep).value + |sep|..], sep)
  {
  }

  /** Two overlapping occurrences make a proper suffix of the pattern equal a prefix of it. */
  lemma OverlapIsBorder(s: string, sep: string, f: nat, q: nat)
    requires f < q < f + |sep|
    requires OccursAt(s, sep, f) && OccursAt(s, sep, q)
    ensures sep[q - f..] == sep[..|sep| - (q - f)]
  {
    var k := q - f;
    forall t | 0 <= t < |sep| - k ensures sep[k..][t] == sep[..|sep| - k][t] {
      assert s[f..f + |sep|][k + t] == s[q..q + |sep|][t];
    }
  }

  /** Two occurrences of a separator that cannot overlap lie at least its length apart. */
  lemma OccurrencesApart(s: string, sep: string, f: nat, q: nat)
    requires NoSelfOverlap(sep)
    requires f < q && OccursAt(s, sep, f) && OccursAt(s, sep, q)
    ensures f + |sep| <= q
  {
    if q < f + |sep| {
      OverlapIsBorder(s, sep, f, q);
      assert false;
    }
  }

  lemma OccursTwiceAt(s: string, sep: string, i: nat, j: nat)
    requires i < j && OccursAt(s, sep, i) && OccursAt(s, sep, j)
    ensures OccursTwice(s, sep)
  {
  }

  /** A split into three or more parts leaves the separator in the text after its first occurrence. */
  lemma SplitThreeRest(s: string, sep: string)
    requires |sep| > 0 && |Split(s, sep)| >= 3
    ensures Contains(s, sep) && Contains(s[Find(s, sep).value + |sep|..], sep)
  {
    SplitHead(s, sep);
    SplitHead(s[Find(s, sep).value + |sep|..], sep);
  }

  /** A split into three or more parts used two occurrences of the separator. */
  lemma SplitThreeOccursTwice(s: string, sep: string)
    requires |sep| > 0 && |Split(s, sep)| >= 3
    ensures OccursTwice(s, sep)
  {
    SplitThreeRest(s, sep);
    var f := Find(s, sep).value;
    var g := Find(s[f + |sep|..], sep).value;
    OccursInSuffix(s, sep, f + |sep|, g);
    OccursTwiceAt(s, sep, f, f + |sep| + g);
  }

  /** The separator found in the text after its first occurrence makes three or more parts. */
  lemma RestSplitThree(s: string, sep: string)
    requires |sep| > 0 && Contains(s, sep) && Contains(s[Find(s, sep).value + |sep|..], sep)
    ensures |Split(s, sep)| >= 3
  {
    var rest := s[Find(s, sep).value + |sep|..];
    SplitHead(rest, sep);
    SplitHead(s, sep);
    assert |Split(s, sep)| == 1 + |Split(rest, sep)|;
  }

  /**
   * For a separator whose occurrences cannot overlap, occurrences at two
   * indices make `split` yield three or more parts.
   */
  lemma SplitThreeAt(s: string, sep: string, i: nat, j: nat)
    requires |sep| > 0 && NoSelfOverlap(sep)
    requires i < j && OccursAt(s, sep, i) && OccursAt(s, sep, j)
    ensures |Split(s, sep)| >= 3
  {
    FindLeftmost(s, sep, i);
    var f := Find(s, sep).value;
    var q := if i == f then j else i;
    OccurrencesApart(s, sep, f, q);
    OccursInSuffix(s, sep, f + |sep|, q - f - |sep|);
    FindLeftmost(s[f + |sep|..], sep, q - f - |sep|);
    RestSplitThree(s, sep);
  }

  /** With such a separator, `split` yields three or more parts exactly when it occurs twice. */
  lemma SplitThreeIff(s: string, sep: string)
    requires |sep| > 0 && NoSelfOverlap(sep)
    ensures |Split(s, sep)| >= 3 <==> OccursTwice(s, sep)
  {
    if |Split(s, sep)| >= 3 {
      SplitThreeOccursTwice(s, sep);
    }
    if OccursTwice(s, sep) {
      var i: nat, j: nat :| i < j && OccursAt(s, sep, i) && OccursAt(s, sep, j);
      SplitThreeAt(s, sep, i, j);
    }
  }

  // ---------------------------------------------------------------------------
  // readlines

  /** A non-empty line with no newline before its last character: one line as `readlines()` yields it. */
  predicate OneLine(line: string) {
    |line| > 0 && forall k :: 0 <= k < |line| - 1 ==> line[k] != '\n'
  }

  /** A line that ends with its newline. */
  predicate CompleteLine(line: string) {
    OneLine(line) && line[|line| - 1] == '\n'
  }

  /** What `readlines()` returns: lines that each end with a newline, except perhaps the last. */
  predicate IsLineList(lines: seq<string>) {
    (forall i :: 0 <= i < |lines| - 1 ==> CompleteLine(lines[i])) &&
    (|lines| > 0 ==> OneLine(lines[|lines| - 1]))
  }

  /**
   * `readlines()` of a file whose content is `s`: each line keeps its
   * terminating newline; a last line without one is kept as it is.
   */
  function ReadLines(s: string): seq<string>
    decreases |s|
  {
    if s == [] then []
    else match Find(s, "\n")
      case None => [s]
      case Some(i) => [s[..i + 1]] + ReadLines(s[i + 1..])
  }

  /** Reading back a complete line followed by anything splits off exactly that line. */
  lemma ReadLinesCons(line: string, rest: string)
    requires CompleteLine(line)
    ensures ReadLines(line + rest) == [line] + ReadLines(rest)
  {
    var s := line + rest;
    var n := |line| - 1;
    assert s[n..n + 1] == "\n";
    forall j: nat | j < n ensures !OccursAt(s, "\n", j) {
      assert s[j..j + 1] == [line[j]];
    }
    FindIs(s, "\n", n);
    assert s[..n + 1] == line && s[n + 1..] == rest;
  }

  /** `''.join` of a non-empty list is its first element followed by the join of the rest. */
  lemma JoinEmptyCons(lines: seq<string>)
    requires |lines| > 0
    ensures JoinWith("", lines) == lines[0] + JoinWith("", lines[1..])
  {
    if |lines| == 1 {
      assert lines[0] + "" == lines[0];
    }
  }

  /** A line with no newline but perhaps at its end reads back as itself. */
  lemma ReadLinesLast(line: string)
    requires OneLine(line)
    ensures ReadLines(line) == [line]
  {
    if line[|line| - 1] == '\n' {
      ReadLinesCons(line, "");
      assert line + "" == line;
    } else {
      forall j: nat | j < |line| ensures !OccursAt(line, "\n", j) {
        assert j + 1 <= |line| ==> line[j..j + 1] == [line[j]];
      }
      assert Find(line, "\n").None?;
    }
  }

  /** Complete lines in front of a list of lines keep it a list of lines. */
  lemma IsLineListAppend(x: seq<string>, y: seq<string>)
    requires forall i :: 0 <= i < |x| ==> CompleteLine(x[i])
    requires IsLineList(y)
    ensures IsLineList(x + y)
  {
    forall i | 0 <= i < |x + y| - 1 ensures CompleteLine((x + y)[i]) {
      if i >= |x| {
        assert (x + y)[i] == y[i - |x|];
      }
    }
  }

  /**
   * Writing lines one after another and reading them back gives the same
   * lines, when they are lines `readlines()` could have returned.
   */
  lemma {:induction false} ReadLinesJoin(lines: seq<string>)
    requires IsLineList(lines)
    ensures ReadLines(JoinWith("", lines)) == lines
    decreases |lines|
  {
    if |lines| == 1 {
      ReadLinesLast(lines[0]);
    } else if |lines| > 1 {
      var tail := lines[1..];
      assert forall i :: 0 <= i < |tail| - 1 ==> tail[i] == lines[i + 1];
      assert tail[|tail| - 1] == lines[|lines| - 1];
      ReadLinesJoin(tail);
      JoinEmptyCons(lines);
      ReadLinesCons(lines[0], JoinWith("", tail));
      assert lines == [lines[0]] + tail;
    }
  }

  /** A newline at `k` makes `find` report a newline no later than `k`. */
  lemma NewlineFound(s: string, k: nat)
    requires k < |s| && s[k] == '\n'
    ensures Find(s, "\n").Some? && Find(s, "\n").value <= k
  {
    assert s[k..k + 1] == "\n";
    FindLeftmost(s, "\n", k);
  }

  /** Text in which `find` reports no newline is one line. */
  lemma NoNewlineIsOneLine(s: string)
    requires s != [] && Find(s, "\n").None?
    ensures OneLine(s)
  {
    forall k | 0 <= k < |s| ensures s[k] != '\n' {
      if s[k] == '\n' {
        NewlineFound(s, k);
      }
    }
  }

  /** The text up to and including the first newline is a complete line. */
  lemma FirstLineComplete(s: string)
    requires Find(s, "\n").Some?
    ensures CompleteLine(s[..Find(s, "\n").value + 1])
  {
    var i := Find(s, "\n").value;
    forall k | 0 <= k < i ensures s[k] != '\n' {
      if s[k] == '\n' {
        NewlineFound(s, k);
      }
    }
  }

  /**
   * `readlines()` cuts a text into lines that each end with a newline, except
   * perhaps the last, and joined back together they are the text.
   */
  lemma {:induction false} ReadLinesSplitsText(s: string)
    ensures IsLineList(ReadLines(s))
    ensures JoinWith("", ReadLines(s)) == s
    decreases |s|
  {
    if s != [] {
      match Find(s, "\n")
      case None =>
        NoNewlineIsOneLine(s);
      case Some(i) =>
        var line, rest := s[..i + 1], s[i + 1..];
        FirstLineComplete(s);
        ReadLinesSplitsText(rest);
        IsLineListAppend([line], ReadLines(rest));
        JoinEmptyCons([line] + ReadLines(rest));
        assert ([line] + ReadLines(rest))[1..] == ReadLines(rest);
        assert s == line + rest;
    }
  }

  /** `''.join` distributes over list concatenation. */
  lemma {:induction false} JoinEmptyAppend(x: seq<string>, y: seq<string>)
    ensures JoinWith("", x + y) == JoinWith("", x) + JoinWith("", y)
  {
    if |x| == 0 {
      assert x + y == y;
    } else if |x| == 1 && |y| == 0 {
      assert x + y == x;
    } else if |x| == 1 {
      assert x + y == [x[0]] + y;
      assert (x + y)[1..] == y;
    } else {
      JoinEmptyAppend(x[1..], y);
      assert (x + y)[1..] == x[1..] + y;
    }
  }

  /** Whatever precedes it, `''.join` of one more line appends that line. */
  lemma JoinEmptySnoc(written: string, lines: seq<string>, line: string)
    ensures written + JoinWith("", lines + [line]) == written + JoinWith("", lines) + line
  {
    JoinEmptyAppend(lines, [line]);
    assert written + (JoinWith("", lines) + line) == written + JoinWith("", lines) + line;
  }
}
