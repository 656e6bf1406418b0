# make_datastore_grpc, modelled in Dafny

`scripts/make_datastore_grpc.py` regenerates the hand-kept module
`datastore_grpc_pb2.py`. It runs protoc on the Datastore proto twice: once
with the gRPC plugin (output A) and once without it (output B). It then
writes the module in four parts:

1. a header comment;
2. one `from google.cloud.datastore._generated.datastore_pb2 import <Name>`
   line per message type defined in B, sorted by name;
3. a footer comment;
4. the lines of A that B does not account for (the gRPC-only lines).

This project models the text processing of that script. The protoc runs
and the file system are left out. Six modules cover it:

- `PyStr` (`pystr.dfy`) holds the Python behaviour the script relies on:
  - `in` and `str.find`;
  - `str.split(sep)`, including how many parts a line with two markers gives;
  - `''.join`;
  - `readlines()`;
  - the two exceptions the script can raise, as a `Result`.
- `PySorted` (`pysorted.dfy`) holds Python's `<=` on strings and `sorted()`.
  The model sorts by insertion. `SortedUnique` proves this gives the same
  list as Python's own sort, because a sorted permutation is unique.
- `Subsequences` (`subsequences.dfy`) selects the elements of a sequence by
  a mask of flags. It is the independent description that the diff and the
  marker-line filter are both stated against.
- `GrpcOnlyDiff` (`grpc_only_diff.dfy`) is the loop of `get_pb2_grpc_only`.
  - `Walk` is its specification, defined line by line.
  - `GetPb2GrpcOnly` is the loop itself, proved equal to `Walk`.
  - The lemmas relate `Walk` to an independent description: A split by a
    mask into the lines matched against B and the rest.
- `MessageTypes` (`message_types.dfy`) is `get_pb2_message_types`.
  - `Collect` specifies the loop.
  - `GetPb2MessageTypes` is the loop with the sort.
  - The lemmas say when the two-way unpack raises ValueError and what each
    extracted name is.
- `GrpcOnlyModule` (`grpc_only_module.dfy`) is `main`. `OutputFile` is the
  destination module, and its content is a field. `WriteGrpcOnlyModule`
  performs the writes. `Generate` states the content, or the exception,
  that the script ends with. The lemmas read the written module back with
  `readlines()`.

Three consequences of the code are worth stating outright:

- **Identical protoc outputs** give a module with no gRPC-only line, but it
  still has one import line per message type found in B
  (`GenerateIdentical`).
- **A line of A after a full copy of B raises IndexError.** The cursor is
  used to index B without a bounds check, so once every line of B has been
  matched, the next line of A raises (`WalkLineAfterB`). The count
  `len(A) - len(B)` therefore holds only for a walk that completes
  (`WalkCountsInsertedLines`). `WalkErrIff` gives the exact condition under
  which the walk raises.
- **What an exception leaves in the module.**
  - IndexError comes from the diff, before the module is opened, so the
    module is left as it was.
  - ValueError comes from the unpack, after `open(..., 'wb')` has emptied
    the module and the header has been written. The module then holds the
    header alone.

## Model

| member | source | states |
|---|---|---|
| GrpcOnlyDiff.Walk | scripts/make_datastore_grpc.py:110-118 | after the walk the cursor is within B, the gRPC-only lines and the matched lines together number the lines of A, and the only exception is IndexError, which needs a line of A |
| GrpcOnlyDiff.GetPb2GrpcOnly | scripts/make_datastore_grpc.py:110-118 | the loop returns exactly the gRPC-only lines of `Walk` and raises IndexError exactly when `Walk` does; an empty A gives `[]` |
| GrpcOnlyDiff.WalkSplitsA | scripts/make_datastore_grpc.py:112-116 | a completed walk splits A by one mask: the matched lines are exactly `B[:cursor]` and the other lines, in order, are the gRPC-only lines |
| GrpcOnlyDiff.GrpcOnlyIsSubsequence | scripts/make_datastore_grpc.py:112-116 | the gRPC-only lines are lines of A in their original order with some left out |
| GrpcOnlyDiff.WalkCursorIsMaximal | scripts/make_datastore_grpc.py:112-114 | greedy matching is optimal: if `B[:k]` can be found in order in A, the cursor reaches at least `k` |
| GrpcOnlyDiff.WalkPrefixErr | scripts/make_datastore_grpc.py:112-113 | once the loop has raised on a prefix of A, the whole run raises |
| GrpcOnlyDiff.WalkErrIff | scripts/make_datastore_grpc.py:113 | the loop raises IndexError if and only if A is non-empty and all of B can be found in order among the lines of A before its last one |
| GrpcOnlyDiff.WalkLineAfterB | scripts/make_datastore_grpc.py:113 | a line after a full copy of B raises IndexError instead of being collected as gRPC-only |
| GrpcOnlyDiff.WalkPrefix | scripts/make_datastore_grpc.py:112-114 | walking a prefix of B against B matches every line and collects none |
| GrpcOnlyDiff.WalkIdentical | scripts/make_datastore_grpc.py:110-118 | identical outputs give no gRPC-only line and leave the cursor at the end of B |
| GrpcOnlyDiff.WalkCountsInsertedLines | scripts/make_datastore_grpc.py:110-118 | when B is a subsequence of A and the walk completes, all of B is matched and there are `len(A) - len(B)` gRPC-only lines |
| Subsequences.PickIn | scripts/make_datastore_grpc.py:116 | every element the mask selects is an element of the sequence |
| MessageTypes.MessageSnippetNoSelfOverlap | scripts/make_datastore_grpc.py:37 | no proper suffix of `MESSAGE_SNIPPET` is a prefix of it, so two occurrences in a line never overlap |
| MessageTypes.IsMessageLine | scripts/make_datastore_grpc.py:130 | `MESSAGE_SNIPPET in line`, through `PyStr.Contains` |
| MessageTypes.NameIn | scripts/make_datastore_grpc.py:131 | the text before the first marker of a marker line; `UnpackLine` shows it is the first part of the split and `NameInLine` what it holds |
| MessageTypes.MessageLines | scripts/make_datastore_grpc.py:129-130 | the lines the `if` selects are lines of the input that hold the marker, and there are no more of them than input lines; `MessageLinesArePicked` states exactly which they are |
| MessageTypes.MessageLinesArePicked | scripts/make_datastore_grpc.py:129-130 | the selected lines are exactly the lines of the input that hold the marker, each as often as it occurs and in input order: those the mask of `in` tests picks |
| MessageTypes.Collect | scripts/make_datastore_grpc.py:128-133 | the only exception the extraction loop raises is ValueError |
| MessageTypes.UnpackLine | scripts/make_datastore_grpc.py:131 | the split of a marker line fails to unpack into two parts if and only if the marker occurs in the line twice; otherwise the first part is the text before the marker |
| MessageTypes.NoMarkerNotTwice | scripts/make_datastore_grpc.py:130 | a line the `in` test rejects does not hold the marker twice |
| MessageTypes.CollectErrIff | scripts/make_datastore_grpc.py:129-132 | the extraction raises ValueError if and only if some line holds the marker twice |
| MessageTypes.CollectNames | scripts/make_datastore_grpc.py:129-132 | a completed extraction has one name per marker line, in line order, each the text before the marker in its line |
| MessageTypes.CollectPrefixErr | scripts/make_datastore_grpc.py:131 | once the unpack has raised on a prefix of the lines, the whole extraction raises |
| MessageTypes.NameInLine | scripts/make_datastore_grpc.py:131 | an extracted name is the start of its line, the marker follows it directly, and the name does not contain the marker |
| MessageTypes.NameInHasNoNewline | scripts/make_datastore_grpc.py:131 | a name taken from a line `readlines()` gives has no newline |
| MessageTypes.GetPb2MessageTypes | scripts/make_datastore_grpc.py:128-134 | raises ValueError if and only if a line holds the marker twice; otherwise returns `Collect`'s names sorted, which is a sorted permutation of them with one name per marker line |
| MessageTypes.SortedNamesComeFromLines | scripts/make_datastore_grpc.py:129-134 | every returned name is the text before the marker in some line of the plain output |
| PyStr.FindFrom | scripts/make_datastore_grpc.py:130 | a match found from index `k` on starts at or after `k` and is an occurrence of the pattern |
| PyStr.Find | scripts/make_datastore_grpc.py:130 | a match `str.find` reports is an occurrence of the pattern |
| PyStr.Contains | scripts/make_datastore_grpc.py:130 | `pat in s`, true exactly when `find` reports a match; `FindLeftmost` shows it is true whenever the pattern occurs |
| PyStr.FindLeftmost | scripts/make_datastore_grpc.py:130 | whenever the pattern occurs, `in` is true and `find` reports an index no later than that occurrence |
| PyStr.FindIs | scripts/make_datastore_grpc.py:130 | the first occurrence is the index `find` reports |
| PyStr.OccursInSuffix | scripts/make_datastore_grpc.py:131 | an occurrence in the text after a cut is an occurrence in the whole text, shifted by the cut, and the reverse |
| PyStr.Split | scripts/make_datastore_grpc.py:131 | `str.split` gives at least one part |
| PyStr.SplitJoin | scripts/make_datastore_grpc.py:131 | joining the parts of `s.split(sep)` with `sep` gives back `s` |
| PyStr.SplitHead | scripts/make_datastore_grpc.py:131 | unfolds the definition of `Split`: without the separator the split is `[s]`; with it there are at least two parts, the first being the text before the first occurrence and the rest the split of the text after it |
| PyStr.OccurrencesApart | scripts/make_datastore_grpc.py:131 | occurrences of a separator that cannot overlap itself are at least its length apart |
| PyStr.SplitThreeIff | scripts/make_datastore_grpc.py:131 | for such a separator, `split` gives three or more parts if and only if the separator occurs twice |
| PyStr.ReadLines | scripts/make_datastore_grpc.py:66-67 | `readlines()`: cut after each newline, keeping the newline, with an unterminated last line kept as it is; its properties are stated by `ReadLinesSplitsText` and `ReadLinesJoin` |
| PyStr.ReadLinesLast | scripts/make_datastore_grpc.py:66-67 | a line with no newline except perhaps at its end reads back as itself alone |
| PyStr.NewlineFound | scripts/make_datastore_grpc.py:66-67 | a newline anywhere in the text makes `find` report one no later than it |
| PyStr.NoNewlineIsOneLine | scripts/make_datastore_grpc.py:66-67 | text without a newline is a single line |
| PyStr.FirstLineComplete | scripts/make_datastore_grpc.py:66-67 | the text up to and including its first newline is one complete line |
| PyStr.ReadLinesSplitsText | scripts/make_datastore_grpc.py:66-67 | `readlines()` gives lines that each end with a newline except perhaps the last, and joined together they are the whole text |
| PyStr.ReadLinesJoin | scripts/make_datastore_grpc.py:66-67 | lines of that shape, written one after another and read back with `readlines()`, come back unchanged |
| PyStr.IsLineListAppend | scripts/make_datastore_grpc.py:142-147 | complete lines written in front of lines of that shape keep the shape |
| PyStr.JoinWith | scripts/make_datastore_grpc.py:147 | `sep.join(parts)`: `""` for no parts, otherwise the parts with `sep` between each two; `SplitJoin` and `JoinEmptyAppend` state its properties |
| PyStr.JoinEmptyAppend | scripts/make_datastore_grpc.py:147 | `''.join` of two lists concatenated is the concatenation of their joins |
| PySorted.LexLe | scripts/make_datastore_grpc.py:134 | Python's `<=` on strings: character by character, a prefix first; the three lemmas below show it is a total order |
| PySorted.LexLeTotal | scripts/make_datastore_grpc.py:134 | any two names are comparable under Python's string order |
| PySorted.LexLeTransitive | scripts/make_datastore_grpc.py:134 | Python's string order is transitive |
| PySorted.LexLeAntisymmetric | scripts/make_datastore_grpc.py:134 | two names each `<=` the other are equal |
| PySorted.Insert | scripts/make_datastore_grpc.py:134 | inserting into a sorted list keeps it sorted and adds exactly that one element |
| PySorted.Sorted | scripts/make_datastore_grpc.py:134 | `sorted()` returns a sorted permutation of its input |
| PySorted.SortedUnique | scripts/make_datastore_grpc.py:134 | two sorted permutations of the same names are equal, so any correct sort returns Python's result |
| GrpcOnlyModule.ImportLine | scripts/make_datastore_grpc.py:38-39 | `IMPORT_TEMPLATE % (name,)`, as written at line 144: the template's text with the name in place of `%s` |
| GrpcOnlyModule.ModuleText | scripts/make_datastore_grpc.py:142-147 | the four writes of `main` in order: header, import lines, footer, `''.join` of the gRPC-only lines; `ModuleTextLines` reads it back |
| GrpcOnlyModule.Generate | scripts/make_datastore_grpc.py:137-147 | the result of `main`: IndexError if the diff raises, else ValueError if the extraction raises, else `ModuleText` of the sorted names and the gRPC-only lines |
| GrpcOnlyModule.ImportLineComplete | scripts/make_datastore_grpc.py:38-39 | `IMPORT_TEMPLATE % (name,)` is one complete line whenever the name has no newline |
| GrpcOnlyModule.ModuleTextLines | scripts/make_datastore_grpc.py:142-147 | read back with `readlines()`, the written module is the header, one import line per name in the given order, the footer and the gRPC-only lines, and nothing else |
| GrpcOnlyModule.GenerateLines | scripts/make_datastore_grpc.py:137-147 | when both protoc outputs are what `readlines()` returns and the script finishes, the module reads back as the header, the sorted imports, the footer and the gRPC-only lines |
| GrpcOnlyModule.PickLineList | scripts/make_datastore_grpc.py:112-116 | lines taken in order out of what `readlines()` returns are again lines of that shape |
| GrpcOnlyModule.GrpcOnlyLinesAreLines | scripts/make_datastore_grpc.py:112-116 | the gRPC-only lines are complete lines, except perhaps the last; a last one without its newline is the last line of A |
| GrpcOnlyModule.GrpcOnlyLineFromA | scripts/make_datastore_grpc.py:116 | every gRPC-only line is a line of the gRPC output |
| GrpcOnlyModule.GenerateIdentical | scripts/make_datastore_grpc.py:137-147 | identical protoc outputs give the header, the imports of B's message types and the footer, and no gRPC-only line |
| GrpcOnlyModule.OutputFile.Truncate | scripts/make_datastore_grpc.py:140 | opening with `'wb'` empties the module |
| GrpcOnlyModule.OutputFile.Write | scripts/make_datastore_grpc.py:142 | a write appends its data to the module and changes nothing else |
| GrpcOnlyModule.WrittenImportsSnoc | scripts/make_datastore_grpc.py:143-145 | writing the import line of one more name extends the written text by exactly that line |
| GrpcOnlyModule.WriteImports | scripts/make_datastore_grpc.py:143-145 | the loop appends the import lines of the names, in order, to what the module already holds |
| GrpcOnlyModule.WriteGrpcOnlyModule | scripts/make_datastore_grpc.py:137-147 | `main` completes exactly when `Generate` does and leaves `Generate`'s text as the module; otherwise it raises `Generate`'s exception, with the module unchanged on IndexError and holding only the header on ValueError |

## Left out

- Running protoc, checking its exit status and `sys.exit` (lines 52-65 and 82-93) are left out. Both protoc outputs are parameters.
- The temporary directories, their removal and reading the generated file (lines 48-50, 66-69, 78-80, 94-97) are left out. The file's lines are a parameter.
- `get_pb2_contents_without_grpc` is called twice, at lines 108 and 127. The model assumes both calls produce the same lines and passes them in once.
- `script_utils.PROJECT_ROOT`, the `GRPCIO_VIRTUALENV` environment variable and the path constants (lines 23-36) are left out. `script_utils` is not part of this model.
- Opening `GRPC_ONLY_FILE` by path is left out. `OutputFile` stands for the opened file and models only its content.
- Bytes and text are not told apart: the files are read with `'rb'` and written with `'wb'`, and every line is a `string`.
- PyStr.Split: requires a non-empty separator. Python raises ValueError for an empty one, but the script only splits on `MESSAGE_SNIPPET`.
- PySorted.Sorted: computes by insertion rather than by Python's merge-based sort. `SortedUnique` shows the result is the same list.
