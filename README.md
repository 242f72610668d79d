# SPSS study table source, modelled in Dafny

This project models the core of the Mica SPSS table-source plugin. It covers two classes.

- `SpssTableSource` is a table source named by a URN of the form `urn:file:<path>[:<table>]`.
  - On first use it asks its stream provider for the file's bytes.
  - It copies them into a fresh directory under the configured `work.dir`.
  - It hands the copy to the SPSS decoder and caches the decoded datasource.
  - It answers table requests from that cache.
  - `dispose` removes its work directory.
- `SpssStudyTableSourceService` recognises `.sav` URNs, builds and configures table sources, and sweeps the work directory's subdirectories when the plugin stops.

Modules, in dependency order:

- `Wrappers`: `Option` (Java's `null`), `Result` and `Outcome`.
- `Exceptions`: the Java exceptions these classes raise or let through, as values.
- `JavaStrings`: the `String` and Guava operations the code relies on, each characterised by what it computes.
  - `replace` removes every occurrence of the target.
  - `lastIndexOf` finds the last occurrence.
  - `Splitter.on(":").splitToList` keeps empty pieces, and is proved inverse to joining.
  - `toLowerCase` and `endsWith` are also modelled.
- `Files`: an abstract file system.
  - The `FileSystem` class holds a set of directories, a set of regular files and a set of paths whose removal fails.
  - Every path's parent directories exist, and no path is both a directory and a regular file.
  - `createTempDirectory` always returns a name that does not exist.
  - `new File(dir, name)` normalises the name as `java.io.File` does: runs of `/` collapse, a trailing `/` goes, and a leading `/` is dropped after the directory.
  - `Files.copy` creates its target first, which fails when the target's parent is missing or the target exists.
  - `FileUtil.delete` removes a whole subtree, or nothing when some path in it cannot be removed.
- `SpssUrn`: `fromURN`'s parsing as the function `Parse`, and `getURN`'s serialisation as `Format`, with both round trips characterised.
- `SpssTables`: the `SpssTableSource` class with its lifecycle. The module also holds client methods that prove what sequences of calls do:
  - after a read that leaves the source initialised, a second read is answered from the cache and requests no new stream;
  - on a configured source, rebinding, even to the same provider, makes the next read request a new stream;
  - `dispose` is idempotent;
  - a restage leaks the first work directory.
- `SpssService`: `isFor`, `makeSource`, `getName` and `stop`.

Worth knowing about the code as written (each point is proved):

- Every occurrence of `urn:file:` is removed, not only the leading one (`ParseInnerPrefix`).
- The split is at the last colon beyond index 0. So `urn:file:C:/d/s.sav` names path `C` and table `/d/s.sav` (`ExampleDriveLetter`).
- A trailing colon gives an empty table name, which `getURN` then drops (`ExampleEmptyTable`, `ParseThenFormat`).
- Without a table, the staged copy is named `null.sav` (`StagedFileName`, `NullTableStageable`).
- A table name that still holds a `/` after normalisation names a file in a subdirectory of the new work directory. That subdirectory does not exist, so the copy fails with `NoSuchFileException`, wrapped in a `RuntimeException`. `urn:file:C:/d/s.sav` is such a case (`DriveLetterUnstageable`). A single leading `/` is harmless (`PlainTableStageable`).
- `isFor`'s token-count test can never fail once the prefix is present (`TokenCountGuardRedundant`).
- `dispose` keeps its `tmpdir` field. A source that is rebound and read again stages into a second directory, and only that second one is ever removed (`RestageThenDispose`).

The model follows the code on these points:

- The path keeps its `.sav` extension: `urn:file:/data/study1.sav` names `/data/study1.sav`.
- `dispose` does not dispose the decoded datasource.
- A missing `work.dir` is a `NullPointerException` raised after the stream was requested. It is not a dedicated configuration error. No directory is created.
- A named table that is absent is reported by the decoder library's own exception (`NoSuchValueTable` here). A datasource without tables raises `NoSuchElementException` when no table is named.
- The code has no locking, so two threads reading a fresh source at once can both stage it. The model is sequential. It proves that after a read that leaves the source initialised, a second read is answered from the cache and requests no new stream (`ReadTwice`). A first read that fails leaves the source uninitialised, so the next read stages again.

## Model

| member | source | states |
|---|---|---|
| JavaStrings.RemoveAll | src/main/java/org/obiba/mica/tables/spss/SpssTableSource.java:55 | `replace(target, "")` never lengthens the text; `RemoveAllIdentity` says it shortens the text exactly when the target occurs, and `RemoveAllShrinks` bounds from below, by the target's length, how much it shortens it |
| JavaStrings.RemoveAllIdentity | src/main/java/org/obiba/mica/tables/spss/SpssTableSource.java:55 | removing the prefix leaves the text unchanged exactly when the prefix does not occur in it |
| JavaStrings.RemoveAllShrinks | src/main/java/org/obiba/mica/tables/spss/SpssTableSource.java:55 | when the prefix occurs, the result is shorter by at least the prefix's length |
| JavaStrings.LastIndexOf | src/main/java/org/obiba/mica/tables/spss/SpssTableSource.java:56 | the result is -1 or an index holding the character, and no later index holds it |
| JavaStrings.Split | src/main/java/org/obiba/mica/source/spss/SpssStudyTableSourceService.java:36 | there is at least one token, the first is the text before the first separator, and no token holds a separator |
| JavaStrings.JoinSplit | src/main/java/org/obiba/mica/source/spss/SpssStudyTableSourceService.java:36 | joining the tokens with the separator gives back the input, so empty tokens are kept and nothing is lost |
| JavaStrings.SplitJoin | src/main/java/org/obiba/mica/source/spss/SpssStudyTableSourceService.java:36 | splitting the join of separator-free pieces gives back those pieces |
| JavaStrings.ToLower | src/main/java/org/obiba/mica/source/spss/SpssStudyTableSourceService.java:37 | same length; each character is lower-cased on its own |
| SpssUrn.Parse | src/main/java/org/obiba/mica/tables/spss/SpssTableSource.java:51-60 | refused with the "Not a valid SPSS table source URN" message exactly when the source is null, empty or lacks the prefix; otherwise the locator is the split of the prefix-free text at its last colon beyond index 0 |
| SpssUrn.SplitAtLastColonUnique | src/main/java/org/obiba/mica/tables/spss/SpssTableSource.java:56-58 | at most one locator is the split of a text, so the contract of `Parse` fixes its result |
| SpssUrn.Format | src/main/java/org/obiba/mica/tables/spss/SpssTableSource.java:103-105 | the URN starts with `urn:file:` and is no longer than the prefix, path, one colon and table together |
| SpssUrn.ParseThenFormat | src/main/java/org/obiba/mica/tables/spss/SpssTableSource.java:103-105 | every prefixed URN parses, and re-serialising the result gives the same URN exactly when the remainder has no second prefix and no trailing colon beyond index 0 |
| SpssUrn.FormatThenParse | src/main/java/org/obiba/mica/tables/spss/SpssTableSource.java:51-60 | a well-formed locator comes back unchanged from serialising and parsing |
| SpssUrn.ParseCanonical | src/main/java/org/obiba/mica/tables/spss/SpssTableSource.java:55-58 | a remainder with no second prefix parses to its own last-colon split |
| SpssUrn.ExamplePathOnly | src/main/java/org/obiba/mica/tables/spss/SpssTableSource.java:55-58 | `urn:file:/data/study1.sav` names path `/data/study1.sav`, with no table, and serialises back unchanged |
| SpssUrn.ExampleNamedTable | src/main/java/org/obiba/mica/tables/spss/SpssTableSource.java:56-58 | `urn:file:/data/study1.sav:baseline` names table `baseline` |
| SpssUrn.ExampleEmptyTable | src/main/java/org/obiba/mica/tables/spss/SpssTableSource.java:58 | a trailing colon gives the empty table, which serialisation drops |
| SpssUrn.ExampleDriveLetter | src/main/java/org/obiba/mica/tables/spss/SpssTableSource.java:56-58 | `urn:file:C:/d/s.sav` names path `C` and table `/d/s.sav` |
| SpssUrn.ExampleLeadingColon | src/main/java/org/obiba/mica/tables/spss/SpssTableSource.java:57-58 | a colon at index 0 does not split |
| SpssUrn.ParseInnerPrefix | src/main/java/org/obiba/mica/tables/spss/SpssTableSource.java:55 | a second `urn:file:` inside a colon-free path is removed too: the path is what remains around it |
| SpssUrn.ExampleRefused | src/main/java/org/obiba/mica/tables/spss/SpssTableSource.java:52-53 | null is refused with the message ending in "null"; the empty source and an unprefixed source are refused |
| Files.FileSystem.CreateTempDirectory | src/main/java/org/obiba/mica/tables/spss/SpssTableSource.java:116 | fails when the parent is not a directory; otherwise adds and returns an immediate child of the parent, under a non-empty name that did not exist, keeping the file-system invariant |
| Files.FileSystem.CreateFile | src/main/java/org/obiba/mica/tables/spss/SpssTableSource.java:119 | fails with NoSuchFile when the parent is not a directory, with AlreadyExists when the path exists, and otherwise adds exactly that regular file, keeping the file-system invariant |
| Files.FileSystem.Delete | src/main/java/org/obiba/mica/tables/spss/SpssTableSource.java:137 | succeeds exactly when nothing in the subtree is locked, and then removes exactly the subtree; otherwise changes nothing |
| Files.Normalize | src/main/java/org/obiba/mica/tables/spss/SpssTableSource.java:118 | `java.io.File`'s normalisation of a name never lengthens it, and a name that does not end in a separator normalises to its collapse, keeping its last character; `NormalizeIdempotent` states what the result looks like |
| Files.Resolve | src/main/java/org/obiba/mica/tables/spss/SpssTableSource.java:118 | `new File(dir, name)` always starts with `dir`, and is `dir` itself when the name normalises to nothing; `ResolveBelow` gives the result, `dir` then a separator then the name's leaf, for every non-empty name that does not end in a separator, under any directory other than `""` and `/` |
| Files.NormalizeIdempotent | src/main/java/org/obiba/mica/tables/spss/SpssTableSource.java:118 | a normalised name has no doubled separator, and normalising it again changes nothing |
| Files.ResolveBelow | src/main/java/org/obiba/mica/tables/spss/SpssTableSource.java:118 | under a directory other than the root, a name that does not end in a separator resolves to the directory, one separator and the name's leaf, which is non-empty |
| Files.StagingTarget | src/main/java/org/obiba/mica/tables/spss/SpssTableSource.java:118-119 | in a fresh directory, the staged file does not exist yet; its parent is a directory exactly when its leaf holds no separator, and then it is an immediate child of the fresh directory |
| Files.ChildSubtree | src/main/java/org/obiba/mica/source/spss/SpssStudyTableSourceService.java:57-61 | below an immediate child of a directory lie exactly the paths whose way down passes through that child |
| SpssTables.Settings | src/main/java/org/obiba/mica/tables/spss/SpssTableSource.java:109-114 | the decoder is named by the path and given the staged file; each of `entity_type`, `charset`, `locale` and `id_variable` is taken from the properties when present, and is otherwise Participant, ISO-8859-1, en or the empty id variable |
| SpssTables.StagedFileName | src/main/java/org/obiba/mica/tables/spss/SpssTableSource.java:118 | the staged name ends in `.sav`; it is `null.sav` for a null table, and otherwise the table name followed by four characters |
| SpssTables.FindTable | src/main/java/org/obiba/mica/tables/spss/SpssTableSource.java:89 | nothing is found exactly when no table has the name; a found table has the name and is the first table that does |
| SpssTables.PlainTableStageable | src/main/java/org/obiba/mica/tables/spss/SpssTableSource.java:118-119 | a table name without `/`, after at most one leading `/`, is staged directly in the work directory |
| SpssTables.NullTableStageable | src/main/java/org/obiba/mica/tables/spss/SpssTableSource.java:118-119 | without a table, `null.sav` is staged directly in the work directory |
| SpssTables.NestedTableUnstageable | src/main/java/org/obiba/mica/tables/spss/SpssTableSource.java:118-119 | a table name with a `/` after a non-empty first segment is not staged directly in the work directory |
| SpssTables.DriveLetterUnstageable | src/main/java/org/obiba/mica/tables/spss/SpssTableSource.java:118-119 | `urn:file:C:/d/s.sav` parses, and its table `/d/s.sav` cannot be staged directly in the work directory |
| SpssTables.SelectTable | src/main/java/org/obiba/mica/tables/spss/SpssTableSource.java:89 | with no table name: the first table, or NoSuchElement when there are none; with a name: the first table of that name, found exactly when one exists, else NoSuchValueTable |
| SpssTables.StreamProvider.GetInputStream | src/main/java/org/obiba/mica/tables/spss/SpssTableSource.java:115 | each call is counted, and it opens or fails as the provider does |
| SpssTables.SpssTableSource.constructor | src/main/java/org/obiba/mica/tables/spss/SpssTableSource.java:62-67 | a new source holds the path and table, and is unconfigured, unbound and unstaged |
| SpssTables.SpssTableSource.FromUrn | src/main/java/org/obiba/mica/tables/spss/SpssTableSource.java:51-60 | passes on the refusal of `Parse`, or returns a fresh pristine source naming the parsed locator |
| SpssTables.SpssTableSource.Configure | src/main/java/org/obiba/mica/tables/spss/SpssTableSource.java:69-71 | replaces the properties and nothing else |
| SpssTables.SpssTableSource.GetUrn | src/main/java/org/obiba/mica/tables/spss/SpssTableSource.java:103-105 | the URN is prefixed, and for a well-formed locator it parses back to this source's path and table |
| SpssTables.SpssTableSource.SetStudyTableFileStreamProvider | src/main/java/org/obiba/mica/tables/spss/SpssTableSource.java:80-84 | binds the provider and clears the initialised flag, keeping the cache and work directory |
| SpssTables.SpssTableSource.GetContingency | src/main/java/org/obiba/mica/tables/spss/SpssTableSource.java:93-95 | always UnsupportedOperation with the contingency message |
| SpssTables.SpssTableSource.GetVariableSummary | src/main/java/org/obiba/mica/tables/spss/SpssTableSource.java:98-100 | always UnsupportedOperation with the summary message |
| SpssTables.SpssTableSource.CopyStream | src/main/java/org/obiba/mica/tables/spss/SpssTableSource.java:118-119 | the staged file resolves to the directory, a separator and the name's leaf. A leaf holding a separator fails with NoSuchFile and creates nothing. Otherwise the file is created directly in the directory, and the result is success exactly when the stream drains |
| SpssTables.SpssTableSource.Stage | src/main/java/org/obiba/mica/tables/spss/SpssTableSource.java:115-122 | exactly one stream request. A stream that does not open, a missing `work.dir` or a `work.dir` that is not a directory each give their own failure and change nothing. Otherwise a fresh child of `work.dir` becomes the work directory, and the copy's outcome is that of `CopyStream` |
| SpssTables.SpssTableSource.Load | src/main/java/org/obiba/mica/tables/spss/SpssTableSource.java:109-127 | the source is initialised exactly when creation and initialisation both succeed; a created datasource is kept even when its initialisation fails; any failure is DecoderFailure |
| SpssTables.SpssTableSource.GetValueTable | src/main/java/org/obiba/mica/tables/spss/SpssTableSource.java:87-129 | an initialised source answers from its cache without touching the stream or the disk. Otherwise: NPE and no change when unconfigured or unbound; else exactly one stream request; failures before the directory exists stage nothing; a fresh child of `work.dir` becomes the work directory; a table name whose leaf holds a separator fails with NoSuchFile; otherwise the staged file is created in that directory, the source is initialised exactly when decoding fully succeeds, and it answers by table selection |
| SpssTables.SpssTableSource.Dispose | src/main/java/org/obiba/mica/tables/spss/SpssTableSource.java:131-143 | removes exactly the work directory's subtree when it exists and is removable, changes nothing otherwise, and afterwards a removable work directory no longer exists |
| SpssTables.ReadTwice | src/main/java/org/obiba/mica/tables/spss/SpssTableSource.java:107-108 | after a successful read, a second read returns the same answer, and at most one stream was requested in all |
| SpssTables.RebindThenRead | src/main/java/org/obiba/mica/tables/spss/SpssTableSource.java:80-84 | on a configured source, rebinding, even to the same provider, makes the next read request a new stream |
| SpssTables.DisposeTwice | src/main/java/org/obiba/mica/tables/spss/SpssTableSource.java:131-143 | two disposals have the effect of one |
| SpssTables.RestageThenDispose | src/main/java/org/obiba/mica/tables/spss/SpssTableSource.java:116-117 | staging twice uses two distinct directories; dispose removes the second and leaves the first, with its staged file whenever the table name could be staged |
| SpssService.IsFor | src/main/java/org/obiba/mica/source/spss/SpssStudyTableSourceService.java:33-38 | a recognised source is non-null, carries the `urn:file:` prefix and is one `fromURN` accepts; `IsForThirdToken` gives the exact condition |
| SpssService.IsForThirdToken | src/main/java/org/obiba/mica/source/spss/SpssStudyTableSourceService.java:33-38 | a source is recognised exactly when it is prefixed and the text after the prefix, up to the next colon, ends in `.sav` ignoring case |
| SpssService.SplitUrn | src/main/java/org/obiba/mica/source/spss/SpssStudyTableSourceService.java:36 | the tokens of a prefixed URN are `urn`, `file` and then the tokens of the remainder |
| SpssService.TokenCountGuardRedundant | src/main/java/org/obiba/mica/source/spss/SpssStudyTableSourceService.java:37 | a prefixed URN always has more than two tokens |
| SpssService.IsForThenParses | src/main/java/org/obiba/mica/source/spss/SpssStudyTableSourceService.java:33-38 | every recognised source is one `fromURN` accepts |
| SpssService.IsForFileOnly | src/main/java/org/obiba/mica/source/spss/SpssStudyTableSourceService.java:36-37 | without a table, a URN is recognised exactly when its whole remainder ends in `.sav` ignoring case |
| SpssService.IsForWithTable | src/main/java/org/obiba/mica/source/spss/SpssStudyTableSourceService.java:36-37 | with a table, a URN is recognised exactly when the colon-free path before it ends in `.sav` ignoring case |
| SpssService.IsForUpperCaseExtension | src/main/java/org/obiba/mica/source/spss/SpssStudyTableSourceService.java:37 | `.SAV` is recognised, and a table after the file does not matter |
| SpssService.IsForLaterExtension | src/main/java/org/obiba/mica/source/spss/SpssStudyTableSourceService.java:37 | a colon-free path followed by `.bak` is not recognised, whatever the path holds |
| SpssService.IsForEmptyToken | src/main/java/org/obiba/mica/source/spss/SpssStudyTableSourceService.java:34-35 | null, the empty source and the bare prefix are not recognised |
| SpssService.ReapedScope | src/main/java/org/obiba/mica/source/spss/SpssStudyTableSourceService.java:57 | in a well-formed file system, the sweep never removes the work directory itself or a regular file directly inside it |
| SpssService.SpssStudyTableSourceService.GetName | src/main/java/org/obiba/mica/source/spss/SpssStudyTableSourceService.java:47-50 | the name is `mica-source-spss` |
| SpssService.SpssStudyTableSourceService.MakeSource | src/main/java/org/obiba/mica/source/spss/SpssStudyTableSourceService.java:40-45 | passes on the refusal of `Parse`, or returns a fresh source for the parsed locator, carrying the service's properties, with nothing decoded, bound or staged |
| SpssService.SpssStudyTableSourceService.Stop | src/main/java/org/obiba/mica/source/spss/SpssStudyTableSourceService.java:52-69 | NPE and no change without `work.dir`. Otherwise the paths removed are exactly those at or below an immediate subdirectory of an existing `work.dir` that could be removed as a whole; everything else stays |

## Left out

- The SPSS decoder (`SpssDatasourceFactory.create` and `Initialisables.initialise`) is an opaque function parameter from its settings to one of three outcomes. How it reads the file is not modelled.
- Byte contents are not modelled: the file system records which paths exist, not what they hold. The copy either drains the stream or fails; a failed copy still leaves the target file.
- Closing the stream at the end of the try-with-resources block is not modelled, and neither are its failures.
- `deleteOnExit` is left out: it only acts when the virtual machine exits.
- `FileUtil.delete` failing part-way, after some paths are already gone, is not modelled. A failure removes nothing.
- Path handling is string-based with `/` as the separator. `Paths.get` normalisation, relative paths and symbolic links are not modelled.
- `.` and `..` segments in a table name are kept as ordinary names, not resolved. A staged name that uses them is treated like any other name with a separator.
- A parent path that exists as a regular file is reported as `NoSuchFile`, where Java reports a generic `FileSystemException`.
- JavaStrings.ToLower: lower-cases ASCII letters only, because `String.toLowerCase` depends on the locale and on Unicode tables that the model does not include.
- JavaStrings.RemoveAll: requires a non-empty target, because `replace` with an empty target (which inserts text) is never used here.
- Concurrency is left out: the code has no locking, and the model is sequential.
- `getPath` is a plain field read with nothing to state; the path is the `path` field.
- `super.stop()`, plugin registration and the logger belong to the host and are not modelled. The Mica DTO types returned by `getContingency` and `getVariableSummary` are not modelled either, because both methods only throw.
- The service's `properties` field is set by the host framework. The model sets it in the constructor.
