# Go dependency counter, modelled in Dafny

`go_depts_counter.py` counts the third-party modules of a Go repository. It
runs `go mod graph`, which writes one edge of the module graph per line,

    source[@version] target@version

parses each line into a `Token` with `log_parser`, and collects in a set the
names of the modules that do not belong to the Go project itself: a source
whose name does not contain `github.com/golang/` is added, and so is its
target when the target's name does not contain it either. It then prints the
names and `Total:` followed by the size of the set.

This project models the parser, the collecting loop and the count, and proves
what they do:

- `pystr.dfy` (module `PyStr`): the parts of Python's `str` the script relies
  on. `Fields` is `s.split()` with no argument (runs of CPython whitespace
  separate fields; leading and trailing whitespace give no empty field),
  `Split` is `s.split(c)` for a one-character separator (empty pieces are
  kept), and `Contains` is the substring test `sub in s`.
- `edge_parser.dfy` (module `EdgeParser`): the `Token` dataclass and
  `log_parser` as `ParseLine`. The two `ValueError`s that the tuple
  unpacking raises become `Err(FieldCount(n))` (the line does not split into
  exactly two fields) and `Err(TargetPieces(n))` (the target does not split on
  '@' into exactly two pieces). `Format` prints an edge the way
  `go mod graph` does, and `ParseLine` is proved to read it back.
- `package_collector.dfy` (module `PackageCollector`): the loop of the
  `__main__` block as the method `CountPackages`. It takes the log as a
  sequence of lines and the exclusion pattern as a parameter that defaults to
  `GolangPattern`. It is proved against `Collected`, a fold of the loop body
  over the parsed tokens. The lemmas say which names end up in the set.
- `scenarios.dfy` (module `Scenarios`): small logs worked through end to end.

Three behaviours of the code that the model keeps as they are:

- A source with two or more '@' keeps only the text between the first and the
  second '@' as its version (`a@1@2` gives version `1`), because the code takes
  piece `[1]` of `split("@")`.
- Names and versions are not checked for being non-empty: `@v1 b@2` parses to
  package `""`, and `a b@` to dependency version `""`.
- The first malformed line ends the run: no package list and no total are
  produced.

## Model

| member | source | states |
|---|---|---|
| PyStr.Fields | go_depts_counter.py:36 | every field `split()` returns is non-empty and has no whitespace |
| PyStr.FieldsSkipLeadingSpace | go_depts_counter.py:36 | whitespace before a line does not change its fields |
| PyStr.FieldsSkipTrailingSpace | go_depts_counter.py:36 | whitespace after a line, such as its newline, does not change its fields |
| PyStr.FieldsOfTwoWords | go_depts_counter.py:36 | two words joined by one space split into exactly those two words |
| PyStr.FieldsJoin | go_depts_counter.py:36 | words joined by single spaces split back into exactly those words, so such a line has as many fields as words |
| PyStr.Split | go_depts_counter.py:37-40 | `split("@")` gives at least one piece and no piece holds the separator |
| PyStr.JoinSplit | go_depts_counter.py:37-40 | joining the pieces with the separator gives back the string |
| PyStr.SplitJoin | go_depts_counter.py:37-40 | splitting a join of separator-free pieces gives back those pieces |
| PyStr.SplitCount | go_depts_counter.py:37-40 | there is one piece more than there are separators |
| PyStr.SplitFirstTwo | go_depts_counter.py:37-39 | with a separator present, the first two pieces and the separator between them make up the start of the string, followed by the end or another separator |
| PyStr.Contains | go_depts_counter.py:58-61 | the `in` test on a name: a match is never longer than the name, and the empty pattern is in every name |
| PyStr.ContainsIffSurrounded | go_depts_counter.py:58-61 | `pattern in name` holds exactly when the name is some text, the pattern, then more text |
| EdgeParser.ParseLine | go_depts_counter.py:35-46 | a parsed edge always has a dependency version |
| EdgeParser.ParseEdge | go_depts_counter.py:37-45 | reading the two fields always yields a dependency version on success |
| EdgeParser.ParseLineOutcome | go_depts_counter.py:36-40 | a line is rejected with the field count when it has other than two fields, with the piece count when its target has other than one '@', and parses exactly when neither happens |
| EdgeParser.ParseLineTarget | go_depts_counter.py:40-45 | on success the target field is dependency, '@', version, and neither part holds an '@' |
| EdgeParser.ParseLineUnversionedSource | go_depts_counter.py:37-39 | a source without '@' is the package name, with no package version |
| EdgeParser.ParseLineVersionedSource | go_depts_counter.py:37-39 | a source with '@' gives the text before the first '@' as package and the text up to the next '@' or the end as version |
| EdgeParser.ParseLineIgnoresSurroundingSpace | go_depts_counter.py:36 | whitespace around a line, including the newline the file iteration keeps, does not change the result |
| EdgeParser.WrongFieldCountRejected | go_depts_counter.py:36 | a line of words one space apart is rejected with its word count unless there are exactly two |
| EdgeParser.ThreeFieldsRejected | go_depts_counter.py:36 | a line with three fields is rejected with three fields |
| EdgeParser.FormatRoundTrip | go_depts_counter.py:35-46 | the printed line of a well-formed edge, with or without its newline, parses back to that edge |
| EdgeParser.RejectedTarget | go_depts_counter.py:40 | two words whose target does not split into two pieces are rejected with the piece count |
| EdgeParser.TargetWithoutVersionRejected | go_depts_counter.py:40 | a target without '@' is rejected with one piece |
| EdgeParser.TargetWithTwoVersionsRejected | go_depts_counter.py:40 | a target with two '@' is rejected with three pieces |
| EdgeParser.SourceWithTwoVersions | go_depts_counter.py:37-39 | a source with two '@' keeps the first version and drops the rest |
| PackageCollector.ParseAll | go_depts_counter.py:56-57 | a parsed log has one token per line, each the parse of its line |
| PackageCollector.ParseAllFails | go_depts_counter.py:56-57 | the log parses exactly when every line does, and otherwise fails with the error of its first bad line |
| PackageCollector.ParseAllFailsFromPrefix | go_depts_counter.py:56-57 | once a prefix fails, the whole log fails with the same error |
| PackageCollector.PrintedLogParses | go_depts_counter.py:53-57 | the log printed for well-formed edges is read back as those edges, in order |
| PackageCollector.CountPackages | go_depts_counter.py:55-64 | a malformed log gives the first line's error; otherwise the package set is the fold of the loop body over the tokens and the total is its size |
| PackageCollector.Step | go_depts_counter.py:58-61 | one pass of the loop body keeps every name it had and adds exactly the names the edge admits: its source if the source avoids the pattern, and its dependency if both avoid it |
| PackageCollector.Collected | go_depts_counter.py:55-61 | the set the loop builds from an empty set never holds a name that contains the pattern |
| PackageCollector.CollectedMembers | go_depts_counter.py:58-61 | a name is collected exactly when some edge's source avoids the pattern and the name is that source, or that edge's dependency and avoids the pattern |
| PackageCollector.CollectedExcludesPattern | go_depts_counter.py:58-61 | no collected name contains the pattern |
| PackageCollector.SourceCollected | go_depts_counter.py:58-59 | an edge's source is collected exactly when it avoids the pattern |
| PackageCollector.DependencyCollected | go_depts_counter.py:58-61 | an edge whose source and dependency both avoid the pattern has its dependency collected |
| PackageCollector.ExcludedSourceAddsNothing | go_depts_counter.py:58-61 | removing an edge whose source contains the pattern leaves the set unchanged, so its dependency is not recorded through it |
| PackageCollector.CollectedAppend | go_depts_counter.py:55-61 | the set of a log is the union of the sets of its two parts |
| PackageCollector.CollectedGrows | go_depts_counter.py:55-61 | the set after a prefix of the log is a subset of the final set |
| PackageCollector.CollectedOrderAndRepeat | go_depts_counter.py:55-61 | swapping the two halves of a log, or reading the same log twice, gives the same set |
| PackageCollector.CollectedSameEdges | go_depts_counter.py:55-61 | two logs with the same edges give the same set, however the edges are ordered and however often each is repeated |
| PackageCollector.CollectedIgnoresVersions | go_depts_counter.py:57-61 | versions play no part in the set |
| PackageCollector.CollectedSize | go_depts_counter.py:58-64 | the total is at most twice the number of lines |
| PackageCollector.EmptyPatternCollectsNothing | go_depts_counter.py:58-61 | with an empty pattern every name matches and nothing is collected |
| Scenarios.RootDepsAndTool | go_depts_counter.py:53-61 | a three-edge log with a root, two dependencies and a tool that matches the pattern parses back and collects exactly the root and the two dependencies |
| Scenarios.CountRootDepsAndTool | go_depts_counter.py:53-64 | the whole run on the three printed lines of that graph reports the root and the two dependencies, with total three when the names differ |
| Scenarios.ThreePackagesCounted | go_depts_counter.py:55-64 | with the default pattern, a log whose only other module is `github.com/golang/x/tools` counts three packages |

## Left out

- Command-line parsing and `~` expansion of the paths (lines 27-32, 50-52): they only choose where the log lives.
- Running `go mod graph` and writing the log file (line 53): an external process. Its output is the `lines` argument of `CountPackages`, and `PrintedLog` describes the lines it writes for well-formed edges.
- Opening and reading the file (lines 54, 56): the file is given as the sequence of its lines. How Python splits a file into lines (universal newlines) is not modelled; each line keeps its newline or not, and `ParseLineIgnoresSurroundingSpace` shows either reads the same.
- Printing the names (lines 62-63): Python prints a set in an arbitrary order. The model returns the set itself with its size as `Report`.
- The exception itself: a `ValueError` with its message and traceback is the `ParseError` value that `CountPackages` returns.
- Strings are sequences of Unicode characters. The byte decoding of the log file is not modelled.
- Scenarios.ThreePackagesCounted: starts from the example's three tokens rather than its three text lines. Reasoning about the literal lines character by character costs more proof effort than the rest of the project, so the line-level run, from printed lines to the report, is proved for any names by `Scenarios.CountRootDepsAndTool`.
