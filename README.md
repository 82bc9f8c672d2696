# XamlColorizer, modelled in Dafny

A model of the semantic colouring of XAML in SharpDevelop's XAML binding
(`XamlColorizer`). A document line is coloured from a per-line cache,
`highlightCache`, which maps each line to a `HighlightTask`. The task scans a
snapshot of the line for attribute and property tokens and resolves the
member each token names. When it completes, it publishes a list of
highlights. The rendering pass paints a line from its task's results. Edits
reported by the line tracker drop or invalidate cache entries. Invalid
entries are restarted on the next pass.

The model has these modules:

- `Highlighting` holds the values a scan produces: `XamlContext`,
  `HighlightingInfo`, `Highlight` and a resolved `Member`. It also holds the
  argument checks of the `HighlightingInfo` constructor, with its exceptions
  as a `Result`.
- `Text` holds the .NET string operations the scan uses (`IndexOfAny`,
  `IndexOf`, `LastIndexOf`, `Trim`, `TrimEnd`), with ordinal comparison.
- `Document` treats the document as a sequence of lines. Each line has a
  stable identity (the cache key), a number, a text and an offset. A line
  handle is a position in that sequence, and `NextLine` is the next position
  or null.
- `TokenScan` holds `GetInfo`. The method is a `while` loop proved equal to
  the recursive specification `Scan`. It also holds the resolution loop of
  `Process`. `CompletionDataHelper.ResolveContext` and `XamlResolver.Resolve`
  are functions passed in as parameters.
- `Styles` holds the classification made by `ColorizeMember` and the paints
  a line receives. A paint is a document span and one of four styles.
- `Tasks` holds `HighlightTask`. It is a class whose fields are the snapshot,
  `Invalid`, the task status and the results. `TaskState` is its value
  abstraction. The worker thread's run of `Process` is one atomic step: scan,
  resolve, then publish the results and clear `Invalid`.
- `Colorizer` holds the `XamlColorizer` class with `highlightCache`, the
  rendering-pass operations and the line-tracker callbacks. Each is specified
  by a function on the cache's values (`Entries()`).
- `ScanExamples` holds two whole-line scans worked through.

Behaviours of the code that the model keeps on purpose:

- Painting an invalid cached line does not rescan that line alone. The
  line is not painted, and the following `ColorizeInvalidated` restarts every
  invalid entry in the cache.
- A dotted attribute such as `x:Foo.Bar` or `Grid.Row` is highlighted over
  its whole name. Only the element name's '.' position moves the span's
  start. `ScanExamples.GridRowScan` shows this case.
- The end of a span is not checked against its start. A span that ends
  before it starts is rejected only by the painting call, which removes the
  line's entry.
- Publication clears `Invalid` unconditionally. An edit that marks a line
  while its task is running is therefore lost, and the task's results for the
  old text become paintable. `Tasks.FinishedPaintsItsSnapshot` states this
  race.
- Line insertion invalidates nothing. `LineInserted` leaves the cache as it
  is.

## Model

| member | source | states |
|---|---|---|
| Highlighting.NewHighlightingInfo | src/AddIns/BackendBindings/XamlBinding/XamlBinding/XamlColorizer.cs:316-334 | succeeds iff the token and the context are non-null and the three offsets are non-negative; the five values are then stored unchanged; otherwise the first failing check, in source order, decides the exception and the parameter it names |
| Text.IndexOfAny | src/AddIns/BackendBindings/XamlBinding/XamlBinding/XamlColorizer.cs:138 | the result is -1 or a position at or after the start holding '=' or '.', and no such character lies between the start and the result (none after the start at all when -1) |
| Text.IndexOf | src/AddIns/BackendBindings/XamlBinding/XamlBinding/XamlColorizer.cs:142-145 | -1 iff the character does not occur; otherwise the position of its first occurrence |
| Text.LastIndexOf | src/AddIns/BackendBindings/XamlBinding/XamlBinding/XamlColorizer.cs:152 | -1 or a position where the substring occurs, with no occurrence after it |
| Text.TrimEnd | src/AddIns/BackendBindings/XamlBinding/XamlBinding/XamlColorizer.cs:154 | a prefix of the input not ending in the character, and everything removed is that character |
| Text.Trim | src/AddIns/BackendBindings/XamlBinding/XamlBinding/XamlColorizer.cs:154 | the input with only runs of the character removed at its two ends: the result occurs in the input, everything before and after that occurrence is the character, and the result neither starts nor ends with it |
| TokenScan.Qualify | src/AddIns/BackendBindings/XamlBinding/XamlBinding/XamlColorizer.cs:140-150 | a dotted attribute is kept and the index moves past it (strictly forward, at most its length); with no attribute a dotted element name becomes the attribute and the index moves likewise; otherwise the attribute and the index are unchanged |
| TokenScan.AttributeStart | src/AddIns/BackendBindings/XamlBinding/XamlBinding/XamlColorizer.cs:152 | -1, or the start of an occurrence of the attribute in the line that ends by the index, with no later occurrence that also ends by the index |
| TokenScan.SpanInfo | src/AddIns/BackendBindings/XamlBinding/XamlBinding/XamlColorizer.cs:152-156 | without a '.' in the element name, an info exists iff the line offset is valid and the attribute occurs before the index, and its span is exactly that occurrence, within the line; with one, the span starts one past the '.' counted from the occurrence and ends at the name without trailing '/', the token is the name trimmed of '/'; any failure is ArgumentOutOfRange, and with a valid line offset only when the attribute was not found |
| TokenScan.Emit | src/AddIns/BackendBindings/XamlBinding/XamlBinding/XamlColorizer.cs:151-157 | an info is produced iff the position is not in a comment and the attribute is non-empty |
| TokenScan.GetInfo | src/AddIns/BackendBindings/XamlBinding/XamlBinding/XamlColorizer.cs:128-162 | the do-while loop returns exactly the scan's infos in order, or the first constructor exception |
| TokenScan.ScanLength | src/AddIns/BackendBindings/XamlBinding/XamlBinding/XamlColorizer.cs:134-159 | the scan emits at most one info per character left after the index |
| TokenScan.ScanInfos | src/AddIns/BackendBindings/XamlBinding/XamlBinding/XamlColorizer.cs:151-157 | no emitted info comes from a comment, and every info carries the snapshot's line offset |
| TokenScan.ScanSpans | src/AddIns/BackendBindings/XamlBinding/XamlBinding/XamlColorizer.cs:134-159 | every info the scan emits lies in the line as `SpanMatches` says: for an element name without '.', its span holds exactly its token; otherwise it starts one past the '.' from an occurrence of the name (or from -1) and ends at the name without trailing '/' |
| TokenScan.ScanErrors | src/AddIns/BackendBindings/XamlBinding/XamlBinding/XamlColorizer.cs:152-156 | the scan can only fail with ArgumentOutOfRangeException, never a null argument; with a non-negative line offset the exception names startOffset or endOffset |
| TokenScan.ResolveInfos | src/AddIns/BackendBindings/XamlBinding/XamlBinding/XamlColorizer.cs:99-113 | one highlight per info, in the same order; a token starting with "xmlns" gets no member and is not resolved; every other token gets what the resolver returns |
| ScanExamples.GridRowScan | src/AddIns/BackendBindings/XamlBinding/XamlBinding/XamlColorizer.cs:128-162 | `<Button Grid.Row="1"/>` yields exactly one info, "Grid.Row" at 8..16; the '=' after the name is skipped |
| ScanExamples.PropertyElementScan | src/AddIns/BackendBindings/XamlBinding/XamlBinding/XamlColorizer.cs:128-162 | `<Grid.ColumnDefinitions>` yields exactly one info, whose span 6..23 covers only "ColumnDefinitions" |
| Styles.Classify | src/AddIns/BackendBindings/XamlBinding/XamlBinding/XamlColorizer.cs:219-232 | exactly one outcome in priority order: an ignorable prefix gives Ignored; otherwise a member gives Event or Property; otherwise an xmlns or markup-compatibility token gives NamespaceDeclaration; otherwise nothing |
| Styles.PaintOf | src/AddIns/BackendBindings/XamlBinding/XamlBinding/XamlColorizer.cs:216-237 | a highlight paints iff it is classified and its span lies in the line; the paint has the classified style and lies within the line's document range |
| Styles.AnyOutOfRange | src/AddIns/BackendBindings/XamlBinding/XamlBinding/XamlColorizer.cs:208-210 | true iff some highlight of the list is classified but lies outside the line |
| Styles.PaintsOfAppend | src/AddIns/BackendBindings/XamlBinding/XamlBinding/XamlColorizer.cs:208-210 | painting a concatenation paints the first list, then the second |
| Styles.PaintsOfAll | src/AddIns/BackendBindings/XamlBinding/XamlBinding/XamlColorizer.cs:208-210 | when every highlight paints, the i-th paint is the i-th highlight's, and no highlight is skipped |
| Styles.PaintsOfLength | src/AddIns/BackendBindings/XamlBinding/XamlBinding/XamlColorizer.cs:208-210 | painting never applies more paints than there are highlights |
| Tasks.ReboundNotPainted | src/AddIns/BackendBindings/XamlBinding/XamlBinding/XamlColorizer.cs:72-95 | a restarted task is bound to the new snapshot, is not invalid and does not count as completed, so its old results are never painted |
| Tasks.FinishedPaintsItsSnapshot | src/AddIns/BackendBindings/XamlBinding/XamlBinding/XamlColorizer.cs:72-76 | a completed run publishes the highlights of the snapshot it read and is then painted, even when an edit marked it invalid while it ran (lines 115-118 clear the mark) |
| Tasks.HighlightTask.constructor | src/AddIns/BackendBindings/XamlBinding/XamlBinding/XamlColorizer.cs:46-55 | a new task holds the snapshot of the file and the line, is not started, not invalid and has no results |
| Tasks.HighlightTask.Start | src/AddIns/BackendBindings/XamlBinding/XamlBinding/XamlColorizer.cs:67-70 | a created task becomes running and nothing else changes |
| Tasks.HighlightTask.Invalidate | src/AddIns/BackendBindings/XamlBinding/XamlBinding/XamlColorizer.cs:80-95 | `Invalid` is cleared, the snapshot is rebound to the current file and line, and a new run is started; the old results stay |
| Tasks.HighlightTask.Process | src/AddIns/BackendBindings/XamlBinding/XamlBinding/XamlColorizer.cs:97-121 | the task's new state is the publication of the highlights of its snapshot: the results, `Invalid` cleared and completion; or a fault when the scan throws |
| Colorizer.Rebind | src/AddIns/BackendBindings/XamlBinding/XamlBinding/XamlColorizer.cs:239-246 | keys unchanged; no entry stays invalid; a valid entry is kept as it was; an invalid one is rebound to its line's current state, running and not paintable, with its old results |
| Colorizer.InvalidatedLinesRescanned | src/AddIns/BackendBindings/XamlBinding/XamlBinding/XamlColorizer.cs:248-259 | invalidating from a line, then restarting, rescans every cached line from there on against its current text and leaves the others as a plain restart would |
| Colorizer.RemovalKeepsKeys | src/AddIns/BackendBindings/XamlBinding/XamlBinding/XamlColorizer.cs:285-289 | after a line is removed, every remaining key is the identity of a line still in the document |
| Colorizer.XmlnsStyledAsNamespace | src/AddIns/BackendBindings/XamlBinding/XamlBinding/XamlColorizer.cs:107-110 | an xmlns token is not resolved, and is painted as a namespace declaration unless its prefix is ignorable |
| Colorizer.XamlColorizer.constructor | src/AddIns/BackendBindings/XamlBinding/XamlBinding/XamlColorizer.cs:170 | the cache starts empty |
| Colorizer.XamlColorizer.Colorize | src/AddIns/BackendBindings/XamlBinding/XamlBinding/XamlColorizer.cs:191-197 | the pass records the file's text and name for the tasks it creates |
| Colorizer.XamlColorizer.MarkInvalid | src/AddIns/BackendBindings/XamlBinding/XamlBinding/XamlColorizer.cs:252-255 | the line's entry, if cached, is marked invalid; no key is added or removed and no other entry changes |
| Colorizer.XamlColorizer.InvalidateLines | src/AddIns/BackendBindings/XamlBinding/XamlBinding/XamlColorizer.cs:248-259 | exactly the cached lines at or after the given line are marked invalid; no key is added or removed and nothing else changes; a null line changes nothing |
| Colorizer.XamlColorizer.RestartIfInvalid | src/AddIns/BackendBindings/XamlBinding/XamlBinding/XamlColorizer.cs:242-244 | one cached entry is rebound to its line's current state and restarted if it was invalid, and kept otherwise; no other entry changes |
| Colorizer.XamlColorizer.ColorizeInvalidated | src/AddIns/BackendBindings/XamlBinding/XamlBinding/XamlColorizer.cs:239-246 | the cache becomes `Rebind` of its old entries for the current file and document |
| Colorizer.XamlColorizer.ColorizeMember | src/AddIns/BackendBindings/XamlBinding/XamlBinding/XamlColorizer.cs:216-237 | the paint applied is `PaintOf` the highlight; the line's entry is removed iff the classified span lies outside the line |
| Colorizer.XamlColorizer.ColorizeResults | src/AddIns/BackendBindings/XamlBinding/XamlBinding/XamlColorizer.cs:207-211 | the results are painted in order; the line's entry is removed iff one of them is out of range |
| Colorizer.XamlColorizer.AddEntry | src/AddIns/BackendBindings/XamlBinding/XamlBinding/XamlColorizer.cs:201-204 | exactly one fresh entry is added, keyed by the line, running on the line's current snapshot; the other entries are unchanged |
| Colorizer.XamlColorizer.PaintEntry | src/AddIns/BackendBindings/XamlBinding/XamlBinding/XamlColorizer.cs:205-211 | a cached line is painted with its results in order only when its task completed and is not invalid; the cache is unchanged except that an out-of-range result drops the line's entry |
| Colorizer.XamlColorizer.ColorizeLine | src/AddIns/BackendBindings/XamlBinding/XamlBinding/XamlColorizer.cs:199-214 | an uncached line gets one new entry and is not painted; a cached line is painted only when its task completed and is not invalid, with the highlights of the snapshot the task read, in order; then every invalid entry is restarted; keys stay within the document |
| Colorizer.XamlColorizer.CompleteTask | src/AddIns/BackendBindings/XamlBinding/XamlBinding/XamlColorizer.cs:97-121 | the worker's run of one cached task publishes the highlights of its snapshot; every other entry is unchanged |
| Colorizer.XamlColorizer.BeforeRemoveLine | src/AddIns/BackendBindings/XamlBinding/XamlBinding/XamlColorizer.cs:285-289 | the line's entry is removed and every cached line after it is marked invalid |
| Colorizer.XamlColorizer.SetLineLength | src/AddIns/BackendBindings/XamlBinding/XamlBinding/XamlColorizer.cs:291-295 | the line's entry is removed and every cached line after it is marked invalid |
| Colorizer.XamlColorizer.LineInserted | src/AddIns/BackendBindings/XamlBinding/XamlBinding/XamlColorizer.cs:297-299 | the cache is unchanged |
| Colorizer.XamlColorizer.RebuildDocument | src/AddIns/BackendBindings/XamlBinding/XamlBinding/XamlColorizer.cs:301-304 | the cache is empty |

## Left out

- Threading is not modelled: `Tasks.Task` creation, `Cancel`, the polling of `IsCancellationRequested`, `lock (this)` and `WorkbenchSingleton.SafeThreadAsyncCall`. The worker's run is the atomic step `CompleteTask`, taken whenever the environment chooses.
- Cancellation and overlapping runs are not modelled. In the code, `Invalidate` cancels the old run's task (line 83) but then replaces the `task` field with a new one (line 93); the old run's cancellation check at line 104 reads that field, so from then on it is not stopped, reads the rebound snapshot fields, and can publish its results and clear `Invalid` at lines 115-118 even after the new run has published. The model runs each task once per binding, so a rebound task's old run never publishes.
- `InvokeRedraw` and `textView.Redraw` are not modelled; they are only a repaint request.
- Brushes, `XamlColorizerSettings` and the `Highlight*` style callbacks are not modelled. A paint records a span and one of four styles.
- The painting call `ChangeLinePart` belongs to the rendering library and is not part of this model. Its range check is taken to be "start ≤ end ≤ line length, relative to the line's start" (`Styles.InLine`); it throws ArgumentOutOfRangeException otherwise.
- The view-content lookup, the document snapshot and the base rendering pass of `Colorize` are not modelled; the file's text and name are parameters. The same applies to the constructor's `WeakLineTracker.Register`.
- `CompletionDataHelper.ResolveContext` and `XamlResolver.Resolve` are functions given to the colorizer. They are total and deterministic, and an exception from either is not modelled. A context reports only the fields the colorizer reads.
- `IndexOfAny(int, params char[])` is an extension method that is not part of this model. It is taken to return the first position at or after the start that holds one of the characters, or -1.
- String comparison is ordinal. The culture-sensitive `StartsWith` and `LastIndexOf(string)` of .NET are modelled as ordinal prefix and substring tests.
- `HighlightingInfo.Empty`, `GetExpressionResult` and the logging call in `ColorizeMember` are not modelled.
- `GetResults` returning null is not reachable in the model. Results are read only from a task that ran to completion, and such a task has published them.
- src/AddIns/Misc/Debugger/Debugger.Tests/Project/Src/TestPrograms/ThreadName.cs is not part of this model; it is a debugger test program with no colorizer logic.
