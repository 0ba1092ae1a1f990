# dmuncle dependency extraction, modelled in Dafny

The `dmuncle-watch` goal of the dmuncle Maven plugin (`DmUncleMavenMojo`) lists
the dependencies of every module of a build and adds them to a persisted package
document. The document holds four JSON arrays of dependency records, one per
scope. This project models the extraction pipeline of that goal and proves its
properties:

- **The line parser** (`output_parser.dfy`). It models `processCommandLineOutput`,
  a single forward pass over the captured `mvn dependency:list` output. The pass
  keeps three variables: the current module (null at the start), a build-failure
  latch, and whether it is inside a "The following files have been resolved:"
  block. It emits `module:entry` strings for the lines of each block and the
  error-log lines that follow a `BUILD FAILURE`. The pass is specified by the
  fold `Run` over the single-line function `Step`, and
  `ProcessCommandLineOutput` is the loop method proved against that fold.
- **The field splitter** (`dependency_normalizer.dfy`). `Normalize` is
  `line.split(":")` followed by the positional reads of parts 0 to 5.
- **The package document** (`package_document.dfy`). The class
  `PackageDocument` holds the four collections as `seq` fields.
  `AddDependency` routes a record by exact scope match.
  `MapExtractedOutputLines` normalizes and adds every extracted string and stops
  where the source throws `ArrayIndexOutOfBoundsException`. The value-level
  functions `Add` and `MapLines` specify both methods.
- **The goal** (`mojo.dfy`). `Execute` strings the three parts together as
  `execute` does.
- **String operations** (`java_strings.dfy`). These are the `java.lang.String`
  operations the pipeline relies on: `contains`, `replace(target, "")`
  (left-to-right and non-overlapping), `trim` (strips characters up to `' '`)
  and `split` on one character (trailing empty strings dropped, and `""` splits
  to `[""]`).

Reading files, writing files and the `mvn` subprocess are outside the model. The
captured output is a `seq<string>` parameter. The lines appended to the error log
are an output sequence. A previously saved document is given as its four
collections.

Two behaviours of the code are worth stating on their own:
- **Field count.** The splitter reads parts 0 to 5 of each extracted string and
  silently ignores any further parts. With fewer than six parts it throws
  `ArrayIndexOutOfBoundsException`, which ends the mapping loop: records added
  for earlier lines stay, and later lines are never read. The model returns that
  stop as `Outcome.IndexOutOfBounds`.
- **Empty scope.** Java's `split` drops only trailing empty strings. An entry
  whose scope is empty and followed by no non-empty part therefore has only five
  parts and takes that same path (`NormalizeEmptyScope`). An empty scope followed
  by a further non-empty part survives the split: the entry is read with scope
  `""` (`NormalizeEmptyScopeKept`), and no collection takes it, so the record is
  dropped and the loop goes on (`MapLinesUnknownScopes`).

## Model

| member | source | states |
|---|---|---|
| JavaStrings.Contains | src/main/java/io/dmuncle/maven/DmUncleMavenMojo.java:168 | `String.contains`; its meaning, an occurrence at some index, is proved in `ContainsOccurs` |
| JavaStrings.RemoveAll | src/main/java/io/dmuncle/maven/DmUncleMavenMojo.java:169 | `String.replace(pat, "")`, scanning left to right without overlap; never lengthens the string |
| JavaStrings.Trim | src/main/java/io/dmuncle/maven/DmUncleMavenMojo.java:194 | `String.trim`, stripping characters up to the space from both ends; its properties are proved in `TrimInfix`, `TrimKeeps` and `TrimIdempotent` |
| JavaStrings.JavaSplit | src/main/java/io/dmuncle/maven/DmUncleMavenMojo.java:211 | `String.split` on one character: the pieces without trailing empty ones, and `[""]` for the empty string; its properties are proved in `JavaSplitPieces` and `JavaSplitJoin` |
| JavaStrings.ContainsOccurs | src/main/java/io/dmuncle/maven/DmUncleMavenMojo.java:168 | `contains` holds exactly when the pattern occurs at some index |
| JavaStrings.RemoveAllChanges | src/main/java/io/dmuncle/maven/DmUncleMavenMojo.java:169 | `replace(pat, "")` shortens the string exactly when `pat` occurs, and with no occurrence returns the string unchanged |
| JavaStrings.RemoveAllAround | src/main/java/io/dmuncle/maven/DmUncleMavenMojo.java:194 | removing `pat` leaves intact a text that shares no character with `pat` and removes around it independently |
| JavaStrings.RemoveAllKeeps | src/main/java/io/dmuncle/maven/DmUncleMavenMojo.java:194-195 | an occurrence of a text sharing no character with `pat` survives removing `pat` |
| JavaStrings.TrimInfix | src/main/java/io/dmuncle/maven/DmUncleMavenMojo.java:169 | `trim` returns an infix that neither starts nor ends with a character up to the space, and every character cut off before or after it is one up to the space |
| JavaStrings.TrimKeeps | src/main/java/io/dmuncle/maven/DmUncleMavenMojo.java:194-195 | an occurrence that starts and ends with kept characters survives `trim` |
| JavaStrings.TrimIdempotent | src/main/java/io/dmuncle/maven/DmUncleMavenMojo.java:194 | trimming twice equals trimming once |
| JavaStrings.SplitOnPieces | src/main/java/io/dmuncle/maven/DmUncleMavenMojo.java:211 | splitting yields separator-free pieces that join back to the input |
| JavaStrings.DropTrailingEmptyPrefix | src/main/java/io/dmuncle/maven/DmUncleMavenMojo.java:211 | `split` keeps a prefix of the pieces, drops only empty pieces, and the kept prefix never ends in an empty piece |
| JavaStrings.JavaSplitJoin | src/main/java/io/dmuncle/maven/DmUncleMavenMojo.java:211 | `split` of separator-free fields joined by the separator gives the fields back when the last one is non-empty |
| OutputParser.Render | src/main/java/io/dmuncle/maven/DmUncleMavenMojo.java:174 | Java string concatenation renders the unset (null) `module` as the text `null`, at :174 and :196 alike |
| OutputParser.AnnouncesModule | src/main/java/io/dmuncle/maven/DmUncleMavenMojo.java:168 | the `Building` test |
| OutputParser.AnnouncesFailure | src/main/java/io/dmuncle/maven/DmUncleMavenMojo.java:171 | the `BUILD FAILURE` test |
| OutputParser.IsErrorLine | src/main/java/io/dmuncle/maven/DmUncleMavenMojo.java:180 | the `ERROR` test |
| OutputParser.OpensBlock | src/main/java/io/dmuncle/maven/DmUncleMavenMojo.java:188 | the resolved-files header test |
| OutputParser.ClosesBlock | src/main/java/io/dmuncle/maven/DmUncleMavenMojo.java:190 | the block terminator: the line is a single space once `[INFO]` is removed |
| OutputParser.ModuleOf | src/main/java/io/dmuncle/maven/DmUncleMavenMojo.java:169 | the module a `Building` line names: `[INFO]` and `Building` removed, then trimmed |
| OutputParser.Processed | src/main/java/io/dmuncle/maven/DmUncleMavenMojo.java:194 | a block line with `[INFO]` removed, then trimmed |
| OutputParser.IsEntry | src/main/java/io/dmuncle/maven/DmUncleMavenMojo.java:195 | a processed line is emitted unless it contains the header text or equals `none` |
| OutputParser.Initial | src/main/java/io/dmuncle/maven/DmUncleMavenMojo.java:163-165 | the loop starts with the module null, no failure, outside a block, and with both output lists empty |
| OutputParser.Step | src/main/java/io/dmuncle/maven/DmUncleMavenMojo.java:167-198 | one loop iteration: the module, failure, error-log, block and entry checks in source order; its effect is proved in the lemmas below |
| OutputParser.Run | src/main/java/io/dmuncle/maven/DmUncleMavenMojo.java:166-198 | the loop as a fold of `Step` over the lines; `ProcessCommandLineOutput` is proved equal to it |
| OutputParser.ProcessCommandLineOutput | src/main/java/io/dmuncle/maven/DmUncleMavenMojo.java:163-198 | the loop's entries and error-log lines are exactly those of the fold `Run`, with at most one entry and two log lines per input line (empty input, empty outputs) |
| OutputParser.RunAppendOnly | src/main/java/io/dmuncle/maven/DmUncleMavenMojo.java:166-198 | the pass only appends: earlier entries and log lines stay in order, at most one entry and two log lines per line |
| OutputParser.RunConcat | src/main/java/io/dmuncle/maven/DmUncleMavenMojo.java:166-198 | the pass over `a + b` is the pass over `b` started from the state after `a` |
| OutputParser.ModuleKeptWithoutAnnouncement | src/main/java/io/dmuncle/maven/DmUncleMavenMojo.java:163-170 | without a `Building` line the module keeps its value (null at the start) |
| OutputParser.ModuleIsLastAnnouncement | src/main/java/io/dmuncle/maven/DmUncleMavenMojo.java:168-170 | the module is the last `Building` line with `[INFO]` and `Building` removed, then trimmed |
| OutputParser.FailureLatch | src/main/java/io/dmuncle/maven/DmUncleMavenMojo.java:171-187 | `buildFailed` holds exactly when it held before or some line contained `BUILD FAILURE`; without a failure the error log is untouched |
| OutputParser.StepOnFailure | src/main/java/io/dmuncle/maven/DmUncleMavenMojo.java:171-187 | every `BUILD FAILURE` line, first or later, sets the flag and logs the current module name, then the line itself when it contains `ERROR` |
| OutputParser.FailureSegment | src/main/java/io/dmuncle/maven/DmUncleMavenMojo.java:171-187 | from any state, a failure line followed by lines without one logs the module at the failure line, then every `ERROR` line from the failure line on; with `RunConcat` this covers any number of failures |
| OutputParser.ErrorsAfterFailure | src/main/java/io/dmuncle/maven/DmUncleMavenMojo.java:179-187 | once failed, and with no further failure line, the log gains exactly the later `ERROR` lines, in input order |
| OutputParser.FirstFailureLog | src/main/java/io/dmuncle/maven/DmUncleMavenMojo.java:171-187 | from a state that has not failed, a single failure line appends the current module name (`null` when unset), then every `ERROR` line from the failure line on, including that line |
| OutputParser.BlockBody | src/main/java/io/dmuncle/maven/DmUncleMavenMojo.java:193-198 | inside an open block, a body of lines that neither open nor close a block nor name a module yields each line's processed form prefixed by `module:`, unless it is the header text or `none`; the block stays open and the module unchanged |
| OutputParser.ModuleSwitchInBlock | src/main/java/io/dmuncle/maven/DmUncleMavenMojo.java:168-198 | a `Building` line inside an open block switches the module mid-block: that line and the body lines after it are emitted under the new name, and the block stays open |
| OutputParser.OutsideBlockSilent | src/main/java/io/dmuncle/maven/DmUncleMavenMojo.java:188-198 | outside a block, lines that do not open one emit nothing |
| OutputParser.OpeningLineNotEntry | src/main/java/io/dmuncle/maven/DmUncleMavenMojo.java:188-195 | the line that opens a block is never emitted |
| OutputParser.TerminatorIsPlain | src/main/java/io/dmuncle/maven/DmUncleMavenMojo.java:168-190 | a line that is a single space once `[INFO]` is removed contains neither the header text nor `Building`, so the terminator neither reopens a block nor changes the module |
| OutputParser.DependencyBlock | src/main/java/io/dmuncle/maven/DmUncleMavenMojo.java:188-198 | a header that names no module, a body of lines that neither open nor close a block nor name a module, and any terminator emit exactly the body's entries, close the block and keep the module |
| OutputParser.NoneBlockEmitsNothing | src/main/java/io/dmuncle/maven/DmUncleMavenMojo.java:194-197 | a block holding only `none` emits nothing |
| DependencyNormalizer.Normalize | src/main/java/io/dmuncle/maven/DmUncleMavenMojo.java:211-217 | `split(":")` and the reads of parts 0 to 5; every field read is free of colons |
| DependencyNormalizer.NormalizeJoin | src/main/java/io/dmuncle/maven/DmUncleMavenMojo.java:211-219 | six or more colon-free fields, when some field from the sixth on is non-empty, read back as module, group, artifact, type, version and scope; extra parts are ignored |
| DependencyNormalizer.NormalizeTooFew | src/main/java/io/dmuncle/maven/DmUncleMavenMojo.java:211-217 | one to five fields cannot be read (the source indexes out of bounds) |
| DependencyNormalizer.NormalizeEmptyScope | src/main/java/io/dmuncle/maven/DmUncleMavenMojo.java:211-217 | six fields ending in an empty scope are too few, because `split` drops the trailing empty field |
| DependencyNormalizer.NormalizeEmptyScopeKept | src/main/java/io/dmuncle/maven/DmUncleMavenMojo.java:211-217 | an empty scope followed by a non-empty part survives `split`, and the entry is read with scope `""` |
| DependencyNormalizer.NormalizeEntry | src/main/java/io/dmuncle/maven/DmUncleMavenMojo.java:196-219 | an emitted `module:g:a:t:v:s` entry, with a colon-free module, colon-free fields and a non-empty scope, reads back as that module and those five fields |
| PackageDocument.ToRecord | src/main/java/io/dmuncle/maven/DmUncleMavenMojo.java:90-94 | the stored record: group, artifact, version and module name; type and scope are not stored |
| PackageDocument.Key | src/main/java/io/dmuncle/maven/DmUncleMavenMojo.java:68-71 | the `system` collection, and only it, is stored under the key `testRuntimeArtifacts` |
| PackageDocument.ScopeOf | src/main/java/io/dmuncle/maven/DmUncleMavenMojo.java:95-106 | the scope literal each collection is tested against: `compile`, `test`, `runtime`, `system` |
| PackageDocument.ScopeOfInjective | src/main/java/io/dmuncle/maven/DmUncleMavenMojo.java:95-106 | each of the four scopes feeds exactly one collection |
| PackageDocument.EmptyTables | src/main/java/io/dmuncle/maven/DmUncleMavenMojo.java:61-72 | a fresh document has all four collections empty |
| PackageDocument.Add | src/main/java/io/dmuncle/maven/DmUncleMavenMojo.java:89-107 | the collection whose scope equals the dependency's scope grows by one record of group, artifact, version and module; every other collection is unchanged |
| PackageDocument.AddGrows | src/main/java/io/dmuncle/maven/DmUncleMavenMojo.java:95-106 | adding keeps each collection as a prefix and grows the document by at most one record |
| PackageDocument.MapLines | src/main/java/io/dmuncle/maven/DmUncleMavenMojo.java:208-223 | the mapping loop on values: each line in order is normalized and added, and the first line with too few parts stops the loop; returns at most one dependency per line |
| PackageDocument.MapLinesOutcome | src/main/java/io/dmuncle/maven/DmUncleMavenMojo.java:208-223 | mapping reads every line, or stops at a line with too few parts after one dependency per earlier line |
| PackageDocument.MapLinesReads | src/main/java/io/dmuncle/maven/DmUncleMavenMojo.java:210-218 | dependency `i` is what line `i` splits into, in input order |
| PackageDocument.MapLinesStopped | src/main/java/io/dmuncle/maven/DmUncleMavenMojo.java:210-220 | once the loop has stopped, later lines change nothing |
| PackageDocument.MapLinesAppendOnly | src/main/java/io/dmuncle/maven/DmUncleMavenMojo.java:210-220 | mapping never removes or reorders records and adds at most one per line |
| PackageDocument.MapLinesDuplicate | src/main/java/io/dmuncle/maven/DmUncleMavenMojo.java:95-106 | the same line mapped twice stores two equal records in its scope's collection, and nothing elsewhere |
| PackageDocument.MapLinesUnknownScopes | src/main/java/io/dmuncle/maven/DmUncleMavenMojo.java:95-106 | lines whose scope is none of the four exact names leave the document unchanged |
| PackageDocument.PackageDocument.Initialize | src/main/java/io/dmuncle/maven/DmUncleMavenMojo.java:61-72 | the new document's four collections are empty |
| PackageDocument.PackageDocument.Load | src/main/java/io/dmuncle/maven/DmUncleMavenMojo.java:74-87 | the document holds the four given collections |
| PackageDocument.PackageDocument.AddDependency | src/main/java/io/dmuncle/maven/DmUncleMavenMojo.java:89-107 | the fields change exactly as `Add` prescribes |
| PackageDocument.PackageDocument.MapExtractedOutputLines | src/main/java/io/dmuncle/maven/DmUncleMavenMojo.java:208-223 | the fields, the returned dependencies and the outcome are those of `MapLines` on the old contents |
| Mojo.StartOf | src/main/java/io/dmuncle/maven/DmUncleMavenMojo.java:50-54 | the stored document when one exists, otherwise the fresh empty one |
| Mojo.Gather | src/main/java/io/dmuncle/maven/DmUncleMavenMojo.java:56-57 | the run on values: the entries the scan extracts, mapped onto the starting document; `Execute` is proved equal to it |
| Mojo.Execute | src/main/java/io/dmuncle/maven/DmUncleMavenMojo.java:47-59 | the document is the stored (or fresh) one with the scanned entries mapped onto it; earlier records are kept as prefixes |
| Mojo.GatherWithoutBlock | src/main/java/io/dmuncle/maven/DmUncleMavenMojo.java:56-57 | output without a resolved-files header leaves the document unchanged |
| Mojo.GatherBeforeAnyModule | src/main/java/io/dmuncle/maven/DmUncleMavenMojo.java:196-219 | an entry listed before any `Building` line is stored with the module name `null` |

## Left out

- `runCommandToListDependencies` (the Maven Invoker subprocess and the capture of `System.out` into the buffer file) is not part of this model. Its captured output is the parameter of `ProcessCommandLineOutput`.
- File I/O is left out: reading and deleting the buffer file, appending to the error-log file, and writing the package document. The error log is modelled as the lines one run appends. That the file accumulates across runs is not modelled.
- JSON parsing and serialisation (`getExistingJSONPackage`, `saveJSONPackage`) is left out. A loaded document is its four collections. A parse or read failure, after which the source's fields stay null and the first add throws, is not modelled.
- A stored document that parses but lacks one of the four keys, or holds something other than an array under one, is not modelled. The source then leaves that field null or throws on the cast, and the first add to that scope throws `NullPointerException`. `Load` takes four sequences, so every loaded collection exists.
- The buffer read failing in `processCommandLineOutput`, after which the source dereferences a null list, is not modelled: the input is always a sequence.
- Logging calls have no effect on the data and are left out.
- Mojo.Execute: when the mapping stops at a line with too few parts, the source's exception leaves `execute` before the document is saved. The model returns the document and the outcome, and saving is outside the model.
- The list that `mapExtractedOutputLinesToDependencies` returns is discarded by `execute`. The model still returns it, for the properties about it.
- The dependency type is read into `Dependency` but never stored in a record, as in the source.
- `DmUncleSendMojo` (the HTTP upload, the error-log check, and adding the project name to the document) is not part of this model.
- Strings are sequences of Dafny characters. Java's UTF-16 code units and the platform charset used to read the buffer are not modelled.
