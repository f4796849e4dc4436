# TaskStatsServer core in Dafny

TaskStatsServer reads per-process figures (name, PID, CPU, memory, ...) out of
the Windows Task Manager window through UI automation. It keeps the rows whose
names match the featured-process patterns from the command line, and serves
the newest snapshot as JSON over HTTP. This project models the part of it that
decides what ends up in that JSON:

- `automation.dfy` (module `Automation`): the automation tree as a value. An
  `Element` has a name, a class name and children. A name or class name that
  cannot be read is `None`. The three extension readers work on it:
  `GetCurrentName`, `GetCurrentClassName` and `FindOneBy` (the first direct
  child satisfying a predicate).
- `array_extension.dfy` (module `ArrayExtension`): `Slice`, the
  JavaScript-style copying slice on arrays, with C# `int` bounds.
- `strings.dfy` (module `Strings`): the .NET string operations the core relies
  on, written out on `seq<char>`: ordinal `Contains`, `Split`, `Join`,
  `TrimEnd`, and first-segment truncation.
- `records.dfy` (module `ProcessRecords`): a `Dictionary<string, string>` as
  its key/value pairs in insertion order. That is the order .NET enumerates a
  dictionary with no removals in, and so the order the serialiser prints in.
- `analyzer.dfy` (module `Analyzer`): the `TaskmgrAnalyzer` class.
  `StartAnalyzer` finds the root, the column header, the process master
  region and the foreground and background categories. `_UpdateHeaders`
  turns the column header's children into truncated header names.
  `ExtractFeaturedProcessInfo` selects the target rows of each category and
  builds one record per row: the zip of headers and cells, then the name and
  PID fix-ups. The methods are proved against the functions `LocateAnchors`,
  `UpdatedHeaders`, `Selected`, `Targets`, `ProcessInfo` and `Extract`. The
  lemmas state what those functions mean.
- `program.dfy` (module `Program`): how `Main` turns its arguments into
  patterns (`args.Slice(1)` joined with spaces, split on commas), and the
  hand-written JSON serialiser of `HandleIncomingConnections`. The serialiser
  is proved equal to a comma-join of objects and pairs.
- `wrappers.dfy` (module `Wrappers`): `Option`, `Result` and `Outcome`.

Exceptions become values. `StartAnalyzer` returns `Fail(error)` for the
`InvalidOperationException` it throws. Record building returns
`Failure(KeyNotFound("PID"))` where the dictionary getter throws.

The model follows the code on these points:

- Records are not normalised. There is no renaming of memory-column
  synonyms, no escaping of quotes and no defaulting of CPU, GPU or memory.
  Only an empty `PID` becomes `"0"`.
- A row whose record has no `PID` key at all throws `KeyNotFoundException`.
  This aborts the whole extraction. It is not defaulted.
- Sub-process rows are the target row's direct children of class
  `TmViewItemSelector`. They are not tested against the patterns, and
  grandchildren are not flattened.

## Model

| member | source | states |
|---|---|---|
| Automation.GetCurrentName | Extensions/AutomationElementExtension.cs:13-23 | the name when it can be read, "" when reading it throws |
| Automation.GetCurrentClassName | Extensions/AutomationElementExtension.cs:25-35 | the class name when it can be read, "" when reading it throws |
| Automation.FirstIndex | Extensions/AutomationElementExtension.cs:39 | `FirstOrDefault` position: none iff no element satisfies the predicate, otherwise the index of one that does with none before it |
| Automation.FindOneBy | Extensions/AutomationElementExtension.cs:37-40 | null iff no direct child matches; otherwise the result matches and is the first matching child |
| Automation.FindOneByFindsFirstMatch | Extensions/AutomationElementExtension.cs:37-40 | converse: whenever x is the first matching child, `FindOneBy` returns exactly x |
| ArrayExtension.SliceOf | Extensions/ArrayExtension.cs:19-35 | the copied range: length max(0, min(end, len) - max(start, 0)) and element k is the source element at max(start, 0) + k |
| ArrayExtension.SliceEmpty | Extensions/ArrayExtension.cs:21-27 | the slice is empty iff the clamped start is not below the clamped end; so for a non-positive end or a start past the length |
| ArrayExtension.SliceDefaultEnd | Extensions/ArrayExtension.cs:19-22 | with the default end `int.MaxValue` the slice is the suffix from the clamped start; from 0 it is a full copy |
| ArrayExtension.SliceIsSegment | Extensions/ArrayExtension.cs:29-33 | a non-empty slice is the contiguous segment between the clamped bounds |
| ArrayExtension.Slice | Extensions/ArrayExtension.cs:19-35 | returns a fresh array whose contents are `SliceOf` the input; every index the copy loop uses is in bounds for all start and end values |
| Strings.Contains | TaskStats/TaskmgrAnalyzer.cs:117 | ordinal substring test: true iff the pattern occurs at some position |
| Strings.BeforeFirst | TaskStats/TaskmgrAnalyzer.cs:162-165 | `Split(c).FirstOrDefault("")`: a prefix without c that is the whole string or stops at a c |
| Strings.BeforeFirstNoDelimiter | TaskStats/TaskmgrAnalyzer.cs:162-165 | a string without the delimiter is its own first segment |
| Strings.Split | Program.cs:31 | at least one segment, and no segment contains the separator |
| Strings.SplitLength | Program.cs:31 | one more segment than there are separators |
| Strings.JoinSplit | Program.cs:31 | joining the segments with the separator gives back the input |
| Strings.SplitJoin | Program.cs:31 | splitting a join of separator-free segments gives back the segments |
| Strings.SplitOfPlain | Program.cs:31 | a string without the separator splits into itself alone |
| Strings.SplitPrefix | Program.cs:31 | a separator-free prefix before a separator is the first segment, then the rest splits on its own |
| Strings.Join | Program.cs:31 | `string.Join`; its meaning is given by `JoinSplit`, `SplitJoin` and `JoinAppend` |
| Strings.JoinAppend | Program.cs:31 | joining one more element appends the separator and the element |
| Strings.TrimEnd | Program.cs:95-98 | a prefix not ending in c, with only c's removed after it |
| Strings.TrimEndOne | Program.cs:95-98 | a string not ending in c is unchanged, and with one c appended loses exactly that c |
| ProcessRecords.Keys | TaskStats/TaskmgrAnalyzer.cs:132-137 | the record's keys, one per entry, in insertion order |
| ProcessRecords.Get | TaskStats/TaskmgrAnalyzer.cs:143 | the dictionary getter, `None` for the KeyNotFoundException; meaning given by `GetAbsent`, `GetSetSame` and `GetSetOther` |
| ProcessRecords.Set | TaskStats/TaskmgrAnalyzer.cs:137-145 | the dictionary indexer `r[k] = v`; meaning given by `GetSetSame`, `GetSetOther`, `SetKeys` and `SetUnique` |
| ProcessRecords.GetAbsent | TaskStats/TaskmgrAnalyzer.cs:143 | the getter fails (KeyNotFound) iff the key is not among the keys |
| ProcessRecords.GetSetSame | TaskStats/TaskmgrAnalyzer.cs:137 | after `r[k] = v`, reading k gives v |
| ProcessRecords.GetSetOther | TaskStats/TaskmgrAnalyzer.cs:137 | `r[k] = v` leaves every other key's value unchanged |
| ProcessRecords.SetKeys | TaskStats/TaskmgrAnalyzer.cs:137 | writing an existing key keeps the key order; a new key is appended |
| ProcessRecords.SetUnique | TaskStats/TaskmgrAnalyzer.cs:137 | writes keep the keys unique |
| Analyzer.LocateAnchors | TaskStats/TaskmgrAnalyzer.cs:37-80 | on success every anchor is the first matching direct child of its parent; a failure is one of the four start-up errors |
| Analyzer.LocateAnchorsComplete | TaskStats/TaskmgrAnalyzer.cs:37-80 | converse: when all five anchors exist as first matches, start-up locates exactly them |
| Analyzer.LocateAnchorsErrors | TaskStats/TaskmgrAnalyzer.cs:48-78 | each error iff the anchors before it exist and it is the first one missing; root, then column header, then master region, then categories |
| Analyzer.FindRootElement | TaskStats/TaskmgrAnalyzer.cs:37-46 | the early-exit loop finds nothing iff no child is named "TaskManagerMain", else the first such child |
| Analyzer.TruncateHeader | TaskStats/TaskmgrAnalyzer.cs:160-165 | a prefix of the name without '.' or ' ' that is the whole name or stops at the first '.' or ' ' |
| Analyzer.TruncateHeaderIdempotent | TaskStats/TaskmgrAnalyzer.cs:160-165 | truncating twice is truncating once |
| Analyzer.TruncateHeaderExample | TaskStats/TaskmgrAnalyzer.cs:160-165 | "CPU.sort 12" becomes "CPU" |
| Analyzer.HeaderNames | TaskStats/TaskmgrAnalyzer.cs:160-165 | one header per column-header child: header i is the truncated name of child i |
| Analyzer.UpdatedHeaders | TaskStats/TaskmgrAnalyzer.cs:154-166 | unchanged without a column header, otherwise exactly the truncated child names |
| Analyzer.UpdateHeadersIdempotent | TaskStats/TaskmgrAnalyzer.cs:154-166 | refreshing the headers twice from the same column header equals refreshing once |
| Analyzer.IsTargetIff | TaskStats/TaskmgrAnalyzer.cs:113-120 | a row is kept iff its class is "TmViewItemSelector" and some pattern occurs in its name; no patterns keep nothing |
| Analyzer.ProcessRows | TaskStats/TaskmgrAnalyzer.cs:122-124 | the `where` query over a row's children; its meaning is given by `ProcessRowsConcat`, `ProcessRowsSingle` and `ProcessRowsMembers` |
| Analyzer.ProcessRowsMembers | TaskStats/TaskmgrAnalyzer.cs:122-124 | the sub-candidates are exactly the children of class "TmViewItemSelector" (as a set) |
| Analyzer.ProcessRowsConcat | TaskStats/TaskmgrAnalyzer.cs:122-124 | the query distributes over concatenation of child lists, so child order and repeats are kept |
| Analyzer.ProcessRowsSingle | TaskStats/TaskmgrAnalyzer.cs:122-124 | no children give no rows; a single child is kept iff it is a process row; with `ProcessRowsConcat` this determines the query |
| Analyzer.SelectedBy | TaskStats/TaskmgrAnalyzer.cs:111-126 | the target list of one category for a row test; meaning given by `SelectedConcat`, `SelectedAround` and `SelectedMembers` |
| Analyzer.Selected | TaskStats/TaskmgrAnalyzer.cs:111-126 | `SelectedBy` with the pattern test; `SelectTargetProcesses` computes it and `IsTargetIff` and `SelectedNoPatterns` describe the test |
| Analyzer.ContributionMembers | TaskStats/TaskmgrAnalyzer.cs:121-125 | one candidate adds exactly itself (if kept) and its process-row children |
| Analyzer.SelectedConcat | TaskStats/TaskmgrAnalyzer.cs:111-126 | selection over concatenated candidate lists is the concatenation of the selections |
| Analyzer.SelectedAround | TaskStats/TaskmgrAnalyzer.cs:121-125 | a kept row is immediately followed by its sub-process rows, between the earlier and later candidates' targets |
| Analyzer.SelectedMembers | TaskStats/TaskmgrAnalyzer.cs:111-126 | an element is a target iff it is a kept candidate or a process-row child of one |
| Analyzer.SelectedNoPatterns | TaskStats/TaskmgrAnalyzer.cs:117 | with no patterns a category yields no targets |
| Analyzer.Targets | TaskStats/TaskmgrAnalyzer.cs:106-126 | the targets of all categories, category after category; meaning given by `ConcatMapConcat` and `TargetsOfTwo` |
| Analyzer.ConcatMapConcat | TaskStats/TaskmgrAnalyzer.cs:106-126 | the targets of concatenated category lists are the concatenation of their targets |
| Analyzer.TargetsOfTwo | TaskStats/TaskmgrAnalyzer.cs:80 | with the two categories, all foreground targets come before all background targets |
| Analyzer.SelectTargetProcesses | TaskStats/TaskmgrAnalyzer.cs:108-126 | the loop with its two `continue`s builds exactly `Selected` of the category's children |
| Analyzer.ZipFields | TaskStats/TaskmgrAnalyzer.cs:134-139 | the dictionary after the first n zip writes; meaning given by `ZipBindsLast`, `ZipAbsent`, `ZipKeys` and `ZipUnique` |
| Analyzer.ZipLength | TaskStats/TaskmgrAnalyzer.cs:134-139 | `Zip` pairs as many as the shorter of headers and cells |
| Analyzer.ZipBindsLast | TaskStats/TaskmgrAnalyzer.cs:134-139 | a header holds the name of the cell at its position unless a later zipped position repeats it (last write wins) |
| Analyzer.ZipAbsent | TaskStats/TaskmgrAnalyzer.cs:134-139 | a key that is no zipped header is absent |
| Analyzer.FirstOccurrences | TaskStats/TaskmgrAnalyzer.cs:134-139 | holds exactly the elements of the input (as a set) |
| Analyzer.FirstOccurrencesOrder | TaskStats/TaskmgrAnalyzer.cs:134-139 | no element twice, and an earlier element always occurs in the input before every occurrence of a later one (first-occurrence order) |
| Analyzer.ZipKeys | TaskStats/TaskmgrAnalyzer.cs:134-139 | the zipped record's keys are the zipped headers in first-occurrence order |
| Analyzer.ZipUnique | TaskStats/TaskmgrAnalyzer.cs:132-139 | the zipped record never holds a key twice |
| Analyzer.ZipExample | TaskStats/TaskmgrAnalyzer.cs:134-139 | with three headers and two cells the third header is absent (not defaulted) |
| Analyzer.PostProcess | TaskStats/TaskmgrAnalyzer.cs:141-146 | the name and PID fix-ups; meaning given by `PostProcessSpec` and `PostProcessKeys` |
| Analyzer.ProcessInfo | TaskStats/TaskmgrAnalyzer.cs:131-146 | one row's record; `BuildProcessInfo` computes it, `ProcessInfoUnique` and `ProcessInfoError` describe it |
| Analyzer.PostProcessSpec | TaskStats/TaskmgrAnalyzer.cs:141-146 | succeeds iff the zip bound PID; then the name key holds the row's name, an empty PID is "0", every other key is untouched; otherwise KeyNotFound("PID") |
| Analyzer.PostProcessKeys | TaskStats/TaskmgrAnalyzer.cs:141-146 | post-processing keeps the key order, appending the name key only when no header was "名称" |
| Analyzer.ProcessInfoUnique | TaskStats/TaskmgrAnalyzer.cs:131-146 | every record produced has unique keys |
| Analyzer.ProcessInfoError | TaskStats/TaskmgrAnalyzer.cs:143 | a row's record fails only with KeyNotFound("PID") |
| Analyzer.BuildAll | TaskStats/TaskmgrAnalyzer.cs:129-148 | the records of a row list, aborting at the first row that raises; meaning given by `BuildAllPointwise`, `BuildAllStep` and `BuildAllFailed` |
| Analyzer.BuildAllFailed | TaskStats/TaskmgrAnalyzer.cs:129-148 | once a row raises, the rows after it change nothing: the same failure |
| Analyzer.BuildAllStep | TaskStats/TaskmgrAnalyzer.cs:129-148 | one more row appends its record or ends with its failure |
| Analyzer.BuildAllFailedEarly | TaskStats/TaskmgrAnalyzer.cs:106-149 | a failure within the first categories is the failure of the whole extraction |
| Analyzer.BuildAllPointwise | TaskStats/TaskmgrAnalyzer.cs:127-149 | succeeds iff every row's record does, record i is row i's, and a failure is some row's failure |
| Analyzer.Extract | TaskStats/TaskmgrAnalyzer.cs:96-152 | the extraction result; `ExtractFeaturedProcessInfo` computes it and `ExtractStarted` describes it |
| Analyzer.ExtractStarted | TaskStats/TaskmgrAnalyzer.cs:105-151 | a started extraction yields record i for target i, or fails with KeyNotFound("PID"), never with "not started" |
| Analyzer.BuildProcessInfo | TaskStats/TaskmgrAnalyzer.cs:131-146 | the zip loop and the fix-ups compute exactly `ProcessInfo` of the row |
| Analyzer.AppendProcessInfos | TaskStats/TaskmgrAnalyzer.cs:129-148 | the record loop extends the records so far and stops at the first row that raises, as `BuildAll` over all rows |
| Analyzer.TaskmgrAnalyzer.constructor | TaskStats/TaskmgrAnalyzer.cs:17-20 | patterns empty; headers, categories and column header null |
| Analyzer.TaskmgrAnalyzer.UpdateHeaders | TaskStats/TaskmgrAnalyzer.cs:154-166 | the new headers are `UpdatedHeaders` of the old headers and the column header |
| Analyzer.TaskmgrAnalyzer.StartAnalyzer | TaskStats/TaskmgrAnalyzer.cs:35-80 | patterns stored; succeeds iff all anchors exist, then categories are [foreground, background] and headers come from the column header; a failure is `LocateAnchors`'s error; fields assigned before the throw keep their values |
| Analyzer.TaskmgrAnalyzer.ExtractFeaturedProcessInfo | TaskStats/TaskmgrAnalyzer.cs:96-152 | refreshes the headers and changes nothing else; "Analyzer not started" iff headers or categories are null; otherwise exactly `Extract` |
| Program.PatternsOf | Program.cs:24-31 | the patterns of the command line; `ParseCommandLine` computes it and `PatternsShape` and `PatternsExample` describe it |
| Program.ParseCommandLine | Program.cs:24-31 | null with fewer than two arguments; otherwise the arguments after the port, joined with spaces and split on commas |
| Program.PatternsShape | Program.cs:31 | one more pattern than commas, none holds a comma, and comma-joining them gives the space-joined arguments back (no trimming) |
| Program.PatternsExample | Program.cs:31 | arguments "8080", "a,", "b" give the patterns "a" and " b" |
| Program.PairJson | Program.cs:93 | quote, key verbatim, `":"`, value verbatim, quote |
| Program.PairJsonKeyEnd | Program.cs:93 | with a quote-free key, the first quote after the opening one closes the key |
| Program.PairJsonInjective | Program.cs:93 | with quote-free keys, equal pair texts have equal keys and values |
| Program.PairJsons | Program.cs:91-94 | one pair fragment per entry, in dictionary order |
| Program.RecordJson | Program.cs:90-95 | an object: starts with '{', ends with '}' |
| Program.RecordJsons | Program.cs:88-97 | one object per record, in list order |
| Program.SnapshotJson | Program.cs:87-98 | the printed snapshot; `SerializeSnapshot` computes it, `EmptyJson`, `RecordJsons`, `RecordJson` and `PairJsonInjective` describe it |
| Program.EmptyJson | Program.cs:87-98 | an empty snapshot prints `[]` and an empty record prints `{}` |
| Program.TerminatedIsJoin | Program.cs:93-96 | fragments each followed by a comma are their comma-join plus one comma |
| Program.JoinClosed | Program.cs:95-98 | a join ends the way its last fragment ends |
| Program.TrimTerminated | Program.cs:95-98 | `TrimEnd(',')` removes exactly the one trailing separator, since no fragment and no opening bracket ends in a comma |
| Program.TerminatedStep | Program.cs:93-96 | one more fragment appends itself and a comma |
| Program.SerializeRecord | Program.cs:90-95 | the pair loop and trim print exactly `RecordJson` of the record |
| Program.SerializeSnapshot | Program.cs:86-98 | the serialiser prints `[`, the comma-joined objects and `]`; a null snapshot prints as an empty one |

## Left out

- Killing and launching Task Manager, `SYSTEMDRIVE` and the UIA3 session (TaskStats/TaskmgrAnalyzer.cs:24-34): process control and foreign automation code. `StartAnalyzer` receives the main window as a tree value instead.
- `TraverseUITree` (TaskStats/TaskmgrAnalyzer.cs:86-94): a console debugging aid that only `Console.WriteLine`s and is never called.
- Live reads of the tree. Each `FindAllChildren` and property read is a snapshot of a fixed tree value. A `FindAllChildren` that throws is not modelled. Failing `Name` and `ClassName` reads are modelled (`None`).
- `_headers` is a deferred LINQ query in the source, re-evaluated at every `Zip`. The model evaluates it once per `_UpdateHeaders`. On a fixed tree the two agree.
- Program.ParseCommandLine: `Main` parses the port with `int.Parse` (Program.cs:30) after the argument-count test, and a non-numeric port throws there. The model does not parse the port, so it returns the patterns even for such a port.
- The URL prefix, the banner, the `HttpListener`, the response writing and UTF-8 encoding (Program.cs:32-39, 58-85, 100-105): network and console I/O.
- The analyzer thread, its one-second `Thread.Sleep` loop and the unsynchronised `_latestProcesses` field (Program.cs:42-56): concurrency and time. `SerializeSnapshot` takes the field's current value as a parameter.
- Analyzer.TaskmgrAnalyzer.StartAnalyzer: models the anchor search from line 35 onwards only, because lines 24-34 are process control.
- ArrayExtension.Slice: requires `arr.Length <= int.MaxValue`, which every C# array meets. It is generic over element types with a default value (`T(0)`) because `new T[n]` needs one.
- JSON validity of the output: keys and values are copied verbatim, so a name containing `"` or `\` prints invalid JSON. The model states what is printed (`PairJson`) and proves it unambiguous for quote-free keys (`PairJsonInjective`). It does not define a JSON parser.
