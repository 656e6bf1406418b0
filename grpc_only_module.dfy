/**
 * `main` of scripts/make_datastore_grpc.py: compute the gRPC-only lines,
 * open the destination module for writing (which empties it), then write a
 * header comment, one import line per message type, a footer comment and
 * the gRPC-only lines.
 */
module GrpcOnlyModule {
  import opened PyStr
  import opened PySorted
  import opened Subsequences
  import opened GrpcOnlyDiff
  import opened MessageTypes

  /** The module the plain protoc output becomes: `google.cloud.datastore._generated.datastore_pb2`. */
  const DatastorePb2: string := "google.cloud.datastore" + "._generated" + ".datastore_pb2"

  /** `IMPORT_TEMPLATE`, cut at its one `%s`. */
  const ImportPrefix: string := "from " + DatastorePb2 + " import "
  const ImportSuffix: string := "\n"

  const BeginImports: string := "# BEGIN: Imports from datastore_pb2\n"
  const EndImports: string := "#   END: Imports from datastore_pb2\n"

  /** `IMPORT_TEMPLATE % (name,)`. */
  function ImportLine(name: string): string {
    ImportPrefix + name + ImportSuffix
  }

  /** The import lines for `names`, in order. */
  function ImportLines(names: seq<string>): (r: seq<string>)
    ensures |r| == |names|
    ensures forall k :: 0 <= k < |names| ==> r[k] == ImportLine(names[k])
  {
    seq(|names|, k requires 0 <= k < |names| => ImportLine(names[k]))
  }

  /** What `main` writes for these names and these gRPC-only lines. */
  function ModuleText(names: seq<string>, grpcOnly: seq<string>): string {
    BeginImports + JoinWith("", ImportLines(names)) + EndImports + JoinWith("", grpcOnly)
  }

  /**
   * What the script leaves in the destination module when it completes, or
   * the exception it ends with: IndexError from the diff, ValueError from the
   * extraction.
   */
  function Generate(grpcContents: seq<string>, nonGrpcContents: seq<string>): Result<string> {
    var walk := Walk(grpcContents, nonGrpcContents);
    var names := Collect(nonGrpcContents);
    if walk.Err? then Err(IndexError)
    else if names.Err? then Err(ValueError)
    else Ok(ModuleText(Sorted(names.value), walk.value.grpcOnly))
  }

  /** An import line is one complete line when the name holds no newline. */
  lemma ImportLineComplete(name: string)
    requires forall k :: 0 <= k < |name| ==> name[k] != '\n'
    ensures CompleteLine(ImportLine(name))
  {
    var line := ImportLine(name);
    var pieces := ["from ", "google.cloud.datastore", "._generated", ".datastore_pb2", " import "];
    assert ImportPrefix == pieces[0] + pieces[1] + pieces[2] + pieces[3] + pieces[4];
    forall i, k | 0 <= i < |pieces| && 0 <= k < |pieces[i]| ensures pieces[i][k] != '\n' {
    }
    assert forall k :: 0 <= k < |ImportPrefix| ==> ImportPrefix[k] != '\n';
    forall k | 0 <= k < |line| - 1 ensures line[k] != '\n' {
      if k < |ImportPrefix| {
        assert line[k] == ImportPrefix[k];
      } else {
        assert line[k] == name[k - |ImportPrefix|];
      }
    }
  }

  /**
   * Read back with `readlines()`, the module holds the header, one import
   * line per name in the given order, the footer and then the gRPC-only
   * lines, and nothing else.
   */
  lemma ModuleTextLines(names: seq<string>, grpcOnly: seq<string>)
    requires forall i, k :: 0 <= i < |names| && 0 <= k < |names[i]| ==> names[i][k] != '\n'
    requires IsLineList(grpcOnly)
    ensures ReadLines(ModuleText(names, grpcOnly))
      == [BeginImports] + ImportLines(names) + [EndImports] + grpcOnly
  {
    var head := [BeginImports] + ImportLines(names) + [EndImports];
    assert CompleteLine(BeginImports) && CompleteLine(EndImports);
    forall i | 0 <= i < |head| ensures CompleteLine(head[i]) {
      if 0 < i < |head| - 1 {
        ImportLineComplete(names[i - 1]);
      }
    }
    IsLineListAppend(head, grpcOnly);
    JoinEmptyAppend([BeginImports], ImportLines(names));
    JoinEmptyAppend([BeginImports] + ImportLines(names), [EndImports]);
    JoinEmptyAppend(head, grpcOnly);
    ReadLinesJoin(head + grpcOnly);
  }

  /**
   * When both protoc outputs are what `readlines()` returns and the script
   * completes, the written module reads back as the header, the sorted
   * imports, the footer and the lines of the gRPC output that the plain
   * output does not account for.
   */
  lemma GenerateLines(grpcContents: seq<string>, nonGrpcContents: seq<string>)
    requires IsLineList(grpcContents) && IsLineList(nonGrpcContents)
    requires Generate(grpcContents, nonGrpcContents).Ok?
    ensures ReadLines(Generate(grpcContents, nonGrpcContents).value)
      == [BeginImports] + ImportLines(Sorted(Collect(nonGrpcContents).value)) + [EndImports]
         + Walk(grpcContents, nonGrpcContents).value.grpcOnly
  {
    var names := Sorted(Collect(nonGrpcContents).value);
    var grpcOnly := Walk(grpcContents, nonGrpcContents).value.grpcOnly;
    forall i, k | 0 <= i < |names| && 0 <= k < |names[i]| ensures names[i][k] != '\n' {
      SortedNamesComeFromLines(nonGrpcContents, names[i]);
      var j :| 0 <= j < |nonGrpcContents| && IsMessageLine(nonGrpcContents[j])
        && NameIn(nonGrpcContents[j]) == names[i];
      assert OneLine(nonGrpcContents[j]);
      NameInHasNoNewline(nonGrpcContents[j]);
    }
    GrpcOnlyLinesAreLines(grpcContents, nonGrpcContents);
    ModuleTextLines(names, grpcOnly);
  }

  /** Each gRPC-only line is a line of the gRPC output. */
  lemma GrpcOnlyLineFromA(a: seq<string>, b: seq<string>, i: nat)
    requires Walk(a, b).Ok? && i < |Walk(a, b).value.grpcOnly|
    ensures Walk(a, b).value.grpcOnly[i] in a
  {
    WalkSplitsA(a, b);
    PickIn(a, Matched(a, b), false, i);
  }

  /** Lines picked in order out of what `readlines()` returns are again such lines. */
  lemma {:induction false} PickLineList(a: seq<string>, m: seq<bool>, want: bool)
    requires |m| == |a| && IsLineList(a)
    ensures IsLineList(Pick(a, m, want))
    decreases |a|
  {
    if a != [] {
      var init, m0 := a[..|a| - 1], m[..|m| - 1];
      var p0 := Pick(init, m0, want);
      forall k | 0 <= k < |p0| ensures CompleteLine(p0[k]) {
        PickIn(init, m0, want, k);
        var j :| 0 <= j < |init| && init[j] == p0[k];
      }
      if m[|m| - 1] == want {
        IsLineListAppend(p0, [a[|a| - 1]]);
      } else {
        IsLineListAppend(p0, []);
        assert p0 + [] == p0;
      }
    }
  }

  /**
   * The gRPC-only lines of a gRPC output that `readlines()` returned are
   * complete lines, except perhaps the last.
   */
  lemma GrpcOnlyLinesAreLines(a: seq<string>, b: seq<string>)
    requires Walk(a, b).Ok? && IsLineList(a)
    ensures IsLineList(Walk(a, b).value.grpcOnly)
    ensures var g := Walk(a, b).value.grpcOnly;
      g != [] && !CompleteLine(g[|g| - 1]) ==> g[|g| - 1] == a[|a| - 1]
  {
    WalkSplitsA(a, b);
    PickLineList(a, Matched(a, b), false);
    var g := Walk(a, b).value.grpcOnly;
    if g != [] && !CompleteLine(g[|g| - 1]) {
      GrpcOnlyLineFromA(a, b, |g| - 1);
      var j :| 0 <= j < |a| && a[j] == g[|g| - 1];
      assert j == |a| - 1;
    }
  }

  /**
   * Identical outputs of the two protoc runs give a module with no gRPC-only
   * line, yet the imports of the plain output's message types are still there.
   */
  lemma GenerateIdentical(contents: seq<string>)
    requires Collect(contents).Ok?
    ensures Generate(contents, contents)
      == Ok(BeginImports + JoinWith("", ImportLines(Sorted(Collect(contents).value))) + EndImports)
  {
    WalkIdentical(contents);
    var text := BeginImports + JoinWith("", ImportLines(Sorted(Collect(contents).value))) + EndImports;
    assert text + JoinWith("", []) == text;
  }

  /** The destination module: its whole content, which `open(..., 'wb')` empties. */
  class OutputFile {
    var content: string

    constructor (existing: string)
      ensures content == existing
    {
      content := existing;
    }

    /** `open(GRPC_ONLY_FILE, 'wb')`. */
    method Truncate()
      modifies this
      ensures content == ""
    {
      content := "";
    }

    /** `file_obj.write(data)`. */
    method Write(data: string)
      modifies this
      ensures content == old(content) + data
    {
      content := content + data;
    }
  }

  /** Writing one more import line extends what has been written by that line. */
  lemma WrittenImportsSnoc(written: string, names: seq<string>, i: nat)
    requires i < |names|
    ensures written + JoinWith("", ImportLines(names[..i + 1]))
      == written + JoinWith("", ImportLines(names[..i])) + ImportLine(names[i])
  {
    var lines, line := ImportLines(names[..i]), ImportLine(names[i]);
    assert ImportLines(names[..i + 1]) == lines + [line];
    JoinEmptySnoc(written, lines, line);
  }

  /** The `for` loop of `main`: one import line per name, in order. */
  method WriteImports(file: OutputFile, names: seq<string>)
    modifies file
    ensures file.content == old(file.content) + JoinWith("", ImportLines(names))
  {
    ghost var start := file.content;
    for i := 0 to |names|
      invariant file.content == start + JoinWith("", ImportLines(names[..i]))
    {
      WrittenImportsSnoc(start, names, i);
      file.Write(ImportLine(names[i]));
    }
    assert names[..|names|] == names;
  }

  /**
   * `main()` with both protoc outputs passed in. IndexError from the diff is
   * raised before the module is opened, so it is left as it was; ValueError
   * from the extraction is raised after the header is written, so the module
   * then holds the header alone.
   */
  method WriteGrpcOnlyModule(file: OutputFile, grpcContents: seq<string>, nonGrpcContents: seq<string>)
    returns (raised: Option<PyError>)
    modifies file
    ensures raised.None? <==> Generate(grpcContents, nonGrpcContents).Ok?
    ensures raised.None? ==> file.content == Generate(grpcContents, nonGrpcContents).value
    ensures raised.Some? ==> raised.value == Generate(grpcContents, nonGrpcContents).error
    ensures raised == Some(IndexError) ==> file.content == old(file.content)
    ensures raised == Some(ValueError) ==> file.content == BeginImports
  {
    var grpcOnlyLines := GetPb2GrpcOnly(grpcContents, nonGrpcContents);
    if grpcOnlyLines.Err? {
      return Some(IndexError);
    }
    file.Truncate();
    file.Write(BeginImports);
    assert file.content == BeginImports;
    var names := GetPb2MessageTypes(nonGrpcContents);
    if names.Err? {
      return Some(ValueError);
    }
    WriteImports(file, names.value);
    file.Write(EndImports);
    file.Write(JoinWith("", grpcOnlyLines.value));
    assert file.content == ModuleText(names.value, grpcOnlyLines.value);
    assert Generate(grpcContents, nonGrpcContents) == Ok(ModuleText(names.value, grpcOnlyLines.value));
    return None;
  }
}
