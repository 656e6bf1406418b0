/**
 * `get_pb2_message_types` of scripts/make_datastore_grpc.py: every line of
 * the plain protoc output that holds the marker of a generated message class
 * is split on that marker and unpacked into exactly two parts, the name on
 * the left being kept; the names come back sorted, duplicates included. A
 * line holding the marker twice splits into three or more parts and the
 * unpack raises ValueError.
 */
module MessageTypes {
  import opened PyStr
  import opened PySorted
  import opened Subsequences

  /** `MESSAGE_SNIPPET`: what protoc writes between a message class's name and its definition. */
  const MessageSnippet: string := " = _reflection.GeneratedProtocolMessageType("

  /** The marker ends with the only '(' in it, so two occurrences of it never overlap. */
  lemma MessageSnippetNoSelfOverlap()
    ensures NoSelfOverlap(MessageSnippet)
  {
    var n := |MessageSnippet|;
    assert forall j :: 0 <= j < n - 1 ==> MessageSnippet[j] != '(';
    forall k | 0 < k < n ensures MessageSnippet[k..] != MessageSnippet[..n - k] {
      assert MessageSnippet[k..][n - k - 1] == '(';
      assert MessageSnippet[..n - k][n - k - 1] != '(';
    }
  }

  /** `MESSAGE_SNIPPET in line`. */
  predicate IsMessageLine(line: string) {
    Contains(line, MessageSnippet)
  }

  /** The text in front of the marker in a line that holds it. */
  function NameIn(line: string): string
    requires IsMessageLine(line)
  {
    line[..Find(line, MessageSnippet).value]
  }

  /** The lines that hold the marker, in their order. */
  function MessageLines(lines: seq<string>): (r: seq<string>)
    decreases |lines|
    ensures |r| <= |lines|
    ensures forall k :: 0 <= k < |r| ==> r[k] in lines && IsMessageLine(r[k])
  {
    if lines == [] then []
    else
      var init, line := lines[..|lines| - 1], lines[|lines| - 1];
      assert forall k :: 0 <= k < |init| ==> init[k] in lines;
      MessageLines(init) + (if IsMessageLine(line) then [line] else [])
  }

  /** The flags of the lines that hold the marker. */
  function MarkerMask(lines: seq<string>): (m: seq<bool>)
    ensures |m| == |lines|
    ensures forall i :: 0 <= i < |lines| ==> m[i] == IsMessageLine(lines[i])
  {
    seq(|lines|, i requires 0 <= i < |lines| => IsMessageLine(lines[i]))
  }

  /**
   * The lines the `if` selects are exactly the marker lines, each as often
   * as it occurs and in the order of the input.
   */
  lemma {:induction false} MessageLinesArePicked(lines: seq<string>)
    ensures MessageLines(lines) == Pick(lines, MarkerMask(lines), true)
    decreases |lines|
  {
    if lines != [] {
      var init := lines[..|lines| - 1];
      MessageLinesArePicked(init);
      assert MarkerMask(lines)[..|lines| - 1] == MarkerMask(init);
    }
  }

  /**
   * The loop of `get_pb2_message_types` over all of `lines`: the names
   * appended to `result`, or the ValueError raised by the unpack. Defined on
   * the last line so that `Collect(lines[..i])` is the state after `i`
   * iterations.
   */
  function Collect(lines: seq<string>): (r: Result<seq<string>>)
    decreases |lines|
    ensures r.Err? ==> r.error == ValueError
  {
    if lines == [] then Ok([])
    else
      var prev := Collect(lines[..|lines| - 1]);
      var line := lines[|lines| - 1];
      if prev.Err? || !IsMessageLine(line) then prev
      else
        var parts := Split(line, MessageSnippet);
        if |parts| != 2 then Err(ValueError) else Ok(prev.value + [parts[0]])
  }

  /**
   * The two-way unpack of a line that holds the marker fails exactly when the
   * marker occurs in it twice; otherwise the name is the text before the marker.
   */
  lemma UnpackLine(line: string)
    requires IsMessageLine(line)
    ensures |Split(line, MessageSnippet)| != 2 <==> OccursTwice(line, MessageSnippet)
    ensures Split(line, MessageSnippet)[0] == NameIn(line)
  {
    SplitHead(line, MessageSnippet);
    MessageSnippetNoSelfOverlap();
    SplitThreeIff(line, MessageSnippet);
  }

  /** A line without the marker cannot hold it twice. */
  lemma NoMarkerNotTwice(line: string)
    requires !IsMessageLine(line)
    ensures !OccursTwice(line, MessageSnippet)
  {
    if OccursTwice(line, MessageSnippet) {
      var i: nat, j: nat :| i < j && OccursAt(line, MessageSnippet, i) && OccursAt(line, MessageSnippet, j);
      FindLeftmost(line, MessageSnippet, i);
    }
  }

  /** Extraction raises ValueError exactly when some line holds the marker twice. */
  lemma {:induction false} CollectErrIff(lines: seq<string>)
    ensures Collect(lines).Err? <==>
      exists i :: 0 <= i < |lines| && OccursTwice(lines[i], MessageSnippet)
    decreases |lines|
  {
    if lines != [] {
      var init, line := lines[..|lines| - 1], lines[|lines| - 1];
      CollectErrIff(init);
      assert forall i :: 0 <= i < |init| ==> init[i] == lines[i];
      if IsMessageLine(line) {
        UnpackLine(line);
      } else {
        NoMarkerNotTwice(line);
      }
      if Collect(lines).Err? && Collect(init).Ok? {
        assert OccursTwice(lines[|lines| - 1], MessageSnippet);
      }
    }
  }

  /**
   * A completed extraction holds one name per marker line, in the order of
   * the lines, each the text before the marker in its line.
   */
  lemma {:induction false} CollectNames(lines: seq<string>)
    requires Collect(lines).Ok?
    ensures |Collect(lines).value| == |MessageLines(lines)|
    ensures forall k :: 0 <= k < |MessageLines(lines)| ==>
      Collect(lines).value[k] == NameIn(MessageLines(lines)[k])
    decreases |lines|
  {
    if lines != [] {
      var init, line := lines[..|lines| - 1], lines[|lines| - 1];
      CollectNames(init);
      if IsMessageLine(line) {
        UnpackLine(line);
      }
    }
  }

  /** Once the unpack has raised, the rest of the lines do not matter. */
  lemma {:induction false} CollectPrefixErr(lines: seq<string>, i: nat)
    requires i <= |lines| && Collect(lines[..i]).Err?
    ensures Collect(lines).Err?
    decreases |lines|
  {
    if i < |lines| {
      assert lines[..|lines| - 1][..i] == lines[..i];
      CollectPrefixErr(lines[..|lines| - 1], i);
    } else {
      assert lines[..i] == lines;
    }
  }

  /** The name in front of the marker holds no marker and is followed by it in its line. */
  lemma NameInLine(line: string)
    requires IsMessageLine(line)
    ensures OccursAt(line, MessageSnippet, |NameIn(line)|)
    ensures line[..|NameIn(line)|] == NameIn(line)
    ensures !Contains(NameIn(line), MessageSnippet)
  {
    var name := NameIn(line);
    if Contains(name, MessageSnippet) {
      var j := Find(name, MessageSnippet).value;
      OccursInPrefix(line, MessageSnippet, |name|, j);
      FindLeftmost(line, MessageSnippet, j);
    }
  }

  /** A name taken from a line that `readlines()` gives holds no newline. */
  lemma NameInHasNoNewline(line: string)
    requires IsMessageLine(line) && OneLine(line)
    ensures forall k :: 0 <= k < |NameIn(line)| ==> NameIn(line)[k] != '\n'
  {
    NameInLine(line);
  }

  /** `get_pb2_message_types()` with the plain protoc output passed in. */
  method GetPb2MessageTypes(nonGrpcContents: seq<string>) returns (r: Result<seq<string>>)
    ensures r.Err? <==> exists i :: 0 <= i < |nonGrpcContents| && OccursTwice(nonGrpcContents[i], MessageSnippet)
    ensures r.Err? ==> r.error == ValueError
    ensures r.Ok? <==> Collect(nonGrpcContents).Ok?
    ensures r.Ok? ==> r.value == Sorted(Collect(nonGrpcContents).value)
    ensures r.Ok? ==> IsSorted(r.value) && |r.value| == |MessageLines(nonGrpcContents)|
    ensures r.Ok? ==> multiset(r.value) == multiset(Collect(nonGrpcContents).value)
  {
    CollectErrIff(nonGrpcContents);
    var result: seq<string> := [];
    for i := 0 to |nonGrpcContents|
      invariant Collect(nonGrpcContents[..i]) == Ok(result)
    {
      var line := nonGrpcContents[i];
      assert nonGrpcContents[..i + 1][..i] == nonGrpcContents[..i];
      if Contains(line, MessageSnippet) {
        var parts := Split(line, MessageSnippet);
        if |parts| != 2 {
          CollectPrefixErr(nonGrpcContents, i + 1);
          return Err(ValueError);
        }
        var name := parts[0];
        result := result + [name];
      }
    }
    assert nonGrpcContents[..|nonGrpcContents|] == nonGrpcContents;
    CollectNames(nonGrpcContents);
    return Ok(Sorted(result));
  }

  /** Every name that extraction returns is the text before the marker in one of the lines. */
  lemma SortedNamesComeFromLines(lines: seq<string>, name: string)
    requires Collect(lines).Ok? && name in Sorted(Collect(lines).value)
    ensures exists i :: 0 <= i < |lines| && IsMessageLine(lines[i]) && NameIn(lines[i]) == name
  {
    var names := Collect(lines).value;
    assert name in multiset(Sorted(names));
    assert name in names;
    var k :| 0 <= k < |names| && names[k] == name;
    CollectNames(lines);
    var line := MessageLines(lines)[k];
    var i :| 0 <= i < |lines| && lines[i] == line;
  }
}
