# CQ-editor widgets: wire-to-code encoder and selection rules, in Dafny

This project models the rule-bearing core of four widgets of CQ-editor
(a CadQuery IDE):

- **Wire Walker** (`wire_walker.py`). `generate_wire_code` checks the file
  extension and turns every wire of a STEP file into a block of CadQuery code.
  `_analyze_chain` walks the ordered edges of a wire and coalesces them into
  typed runs of points: LINE edges make "polyline" runs and every other edge
  makes "spline" runs. Its inner `flush` de-duplicates neighbouring points and
  drops runs shorter than two points. `_format_hybrid_code` serialises the runs
  as `cq.Edge.makeLine` / `cq.Edge.makeSpline` lines between an
  `assembleEdges([` header and a `]))` footer.
  - Modules: `ChainAnalysis`, `HybridFormat`, `WireWalker`.
- **Traceback viewer** (`traceback_viewer.py`). The error tree is built from an
  exception: the `dropwhile` frame filter, the resolution of a frame's code
  line, and the extra row for a `SyntaxError`. `handleSelection` decides which
  editor line to highlight, and `copy_selection` builds the clipboard text.
  - Module: `TracebackViewer`.
- **Kernel inspector** (`kernel_inspector.py`). `_unwrap_and_append` decides
  which sub-shapes of a compound are inspected. `on_tree_click` picks the shape
  to highlight from a row or its parent. `clear_highlight` removes the
  temporary highlight objects.
  - Module: `KernelInspector`.
- **Pathfinder** (`pathfinder.py`). This is the list of captured path points.
  `capture_point` deduplicates against the last point. `remove_point` pops the
  selected rows in descending order and keeps the list widget in step.
  `clear_all` empties everything, `update_preview` refuses to build a preview
  from fewer than two points, and `insert_code` does nothing without points.
  - Module: `Pathfinder`.

Shared modules:

- `Common`: `Option`, `Result`, `Last`, `DropLast` and a subsequence relation
  with its lemmas.
- `Geometry`: points with real coordinates. `(a - b).Length < tol` is stated
  as squared distance below `tol * tol`.
- `Text`: Python's `str.join`, `str.split`, ASCII `lower`, `in`, `strip`,
  `splitlines` and `str` of a natural number.
- `Viewer`: the slice of the OCP interactive context the widgets call. It is a
  class that records every object handed to `Display` and to `Remove`, and
  every redraw requested through `Display`, `Remove` or
  `UpdateCurrentViewer`.

Modelling choices:

- State that the source updates in place is a `class` whose methods carry
  `modifies` clauses. This covers the traceback tree, the inspector's
  temporary objects, the pathfinder's points, list entries and preview
  objects, and the viewer context.
- The source's loops are methods with loop invariants. A method that computes
  a value or rebuilds a list (`AnalyzeChain`, `FormatHybridCode`,
  `GenerateWireCode`, `AddTraceback`, `CopySelection`, `CollectSelection`,
  `AddVertices`, `CapturePoint`, `RemovePoint`) is proved equal to a
  specification function, and the properties the source promises are lemmas
  about those functions. The methods that only clear or rebuild the preview
  (`UpdatePreview`, `ClearAll`, `ClearHighlight`) state their new state and
  the context's log directly.
- A LINE edge contributes exactly its start and end point. A curve contributes
  what the discretiser produced, or nothing when the discretiser did not finish
  (`ChainAnalysis.EdgePoints`).
- Foreign computations are parameters of the model:
  - `cq.Vector` equality, used by the de-duplication in `flush`, is `same: PointEq`.
  - The `.3f` / `.2f` number formats are `fmt: NumberFormat`.
  - The STEP loader's outcome is `loaded: Result<seq<Wire>, string>`.
  - The discretiser's outcome is an `Option<seq<Point>>` on each edge.
  - The objects a preview puts on screen (the wire, and the pipe when the
    pipe box is ticked) are `preview: Preview`.

## Model

| member | source | states |
|---|---|---|
| ChainAnalysis.Dedup | cq_editor/widgets/wire_walker.py:55-58 | the `clean` list is never longer than the run, is empty only for an empty run, and has no two equal neighbours |
| ChainAnalysis.DedupSubsequence | cq_editor/widgets/wire_walker.py:55-58 | `clean` is the run with some points deleted, order kept |
| ChainAnalysis.DedupKeepsFirst | cq_editor/widgets/wire_walker.py:55-58 | the first point of a run is always kept |
| ChainAnalysis.DedupNoRepeats | cq_editor/widgets/wire_walker.py:55-58 | a run without equal neighbours is left as it is |
| ChainAnalysis.EdgePoints | cq_editor/widgets/wire_walker.py:64-77 | the points of one edge: start and end of a LINE, the discretiser's points of a curve, none when it did not finish; its use is stated by `StepCarried` and `ChainKeepsEdgeOrder` |
| ChainAnalysis.Flush | cq_editor/widgets/wire_walker.py:52-61 | `flush()` keeps the current type and empties the accumulator; what it emits is stated by `FlushEmits` and `FlushDropsShortRun` |
| ChainAnalysis.FlushEmits | cq_editor/widgets/wire_walker.py:54-60 | a cleaned run of two or more points is appended as one command of the current type, after the commands already emitted |
| ChainAnalysis.FlushDropsShortRun | cq_editor/widgets/wire_walker.py:59 | a cleaned run of fewer than two points emits nothing |
| ChainAnalysis.FlushRun | cq_editor/widgets/wire_walker.py:52-61 | the loop that builds `clean` and the append of `(current_type, clean)` compute exactly `Flush` |
| ChainAnalysis.Step | cq_editor/widgets/wire_walker.py:63-93 | after an edge the accumulator's type is that edge's type, and points are only held under a type; each branch is stated by `StepAtBreak`, `StepJoins` and `StepExtends` |
| ChainAnalysis.StepJoins | cq_editor/widgets/wire_walker.py:84-87 | a same-type edge starting within 1e-4 of the run's last point appends all its points but the first, and nothing is emitted |
| ChainAnalysis.StepExtends | cq_editor/widgets/wire_walker.py:84-93 | a same-type edge meeting an empty run, or bringing no points, appends all its points, and nothing is emitted |
| ChainAnalysis.RunFrom | cq_editor/widgets/wire_walker.py:63-93 | after a non-empty edge list the current type is the last edge's type |
| ChainAnalysis.ChainCommands | cq_editor/widgets/wire_walker.py:45-96 | what `_analyze_chain` returns: `[]` for no edges, else the final `flush` after the loop; its properties are `ChainCommandsWellFormed`, `ChainKeepsEdgeOrder`, `ChainCommandsKindPure`, `SplitAtBreak` and `ConnectedRunEncodes` |
| ChainAnalysis.AnalyzeChain | cq_editor/widgets/wire_walker.py:45-96 | the accumulator loop returns `ChainCommands(edges)`, and `[]` for no edges |
| ChainAnalysis.RunFromWellFormed | cq_editor/widgets/wire_walker.py:52-93 | while the loop runs, every emitted command has two or more points and no equal neighbours |
| ChainAnalysis.ChainCommandsWellFormed | cq_editor/widgets/wire_walker.py:52-61 | every command returned has at least two points and no two consecutive equal points |
| ChainAnalysis.FlushCarried | cq_editor/widgets/wire_walker.py:52-61 | flushing only deletes points: emitted plus pending points after are a subsequence of those before |
| ChainAnalysis.StepCarriedCases | cq_editor/widgets/wire_walker.py:79-93 | an edge either flushes and then adds all its points, or adds all its points, or adds all but its first |
| ChainAnalysis.StepCarried | cq_editor/widgets/wire_walker.py:79-93 | one edge adds only its own points, in order |
| ChainAnalysis.RunFromCarried | cq_editor/widgets/wire_walker.py:63-93 | the held points are always a subsequence of the points the edges supplied, in edge order |
| ChainAnalysis.ChainKeepsEdgeOrder | cq_editor/widgets/wire_walker.py:45-96 | the commands' points, concatenated, are the edges' points with some deleted: edge order is kept |
| ChainAnalysis.StepKindPure | cq_editor/widgets/wire_walker.py:79-93 | each pending and emitted point came from an edge of the run's type |
| ChainAnalysis.RunFromKindPure | cq_editor/widgets/wire_walker.py:63-94 | the same holds after any number of edges |
| ChainAnalysis.ChainCommandsKindPure | cq_editor/widgets/wire_walker.py:79-95 | every point of a polyline command comes from a LINE edge and every point of a spline command from a non-LINE edge |
| ChainAnalysis.RunFromAppend | cq_editor/widgets/wire_walker.py:63-93 | walking `a + b` is walking `a` and then `b` |
| ChainAnalysis.FlushCommandsIndependent | cq_editor/widgets/wire_walker.py:52-61 | `flush` only appends to the commands already emitted |
| ChainAnalysis.StepCommandsIndependent | cq_editor/widgets/wire_walker.py:79-93 | an edge's effect does not depend on the commands already emitted |
| ChainAnalysis.RunFromCommandsIndependent | cq_editor/widgets/wire_walker.py:63-93 | the commands emitted earlier never influence what is emitted later |
| ChainAnalysis.StepEndsWithEdge | cq_editor/widgets/wire_walker.py:79-93 | after an edge with two or more points the accumulator ends with that edge's last point |
| ChainAnalysis.StepAtBreak | cq_editor/widgets/wire_walker.py:79-91 | a type change, or a same-type gap of at least 1e-4, flushes and restarts the run with all of the edge's points |
| ChainAnalysis.RunAcrossSplit | cq_editor/widgets/wire_walker.py:63-93 | the walk over `a + b` is the walk over `a`, one step for `b[0]`, then the rest |
| ChainAnalysis.RestartAfterBreak | cq_editor/widgets/wire_walker.py:88-95 | after a break, the rest is encoded as if the chain began at the breaking edge |
| ChainAnalysis.SplitAtBreak | cq_editor/widgets/wire_walker.py:79-96 | where an edge breaks from the previous one, the chain's commands are those of the part before followed by those of the part after: disjoint same-type edges give two separate runs |
| ChainAnalysis.FailedCurveSkipped | cq_editor/widgets/wire_walker.py:74-93 | a curve whose discretiser did not finish, met inside a spline run, leaves the commands as if it were absent |
| ChainAnalysis.Vertices | cq_editor/widgets/wire_walker.py:68-70 | a chain of N line edges has N + 1 vertices, the last being the last edge's end |
| ChainAnalysis.ConnectedLinesAccumulate | cq_editor/widgets/wire_walker.py:84-87 | connected line edges (each starting within 1e-4 of the previous end) accumulate as one polyline run of their vertices |
| ChainAnalysis.LineChainIsOnePolyline | cq_editor/widgets/wire_walker.py:79-96 | an all-LINE connected chain of N edges with no repeated neighbouring vertices yields exactly one polyline command with N + 1 points |
| ChainAnalysis.RunPoints | cq_editor/widgets/wire_walker.py:82-87 | the points a connected run accumulates: the first edge's points, then each later edge's without its first |
| ChainAnalysis.ConnectedRunDropLast | cq_editor/widgets/wire_walker.py:84-87 | a connected run without its last edge is still connected, and that last edge has the run's type, at least two points, and starts within 1e-4 of where the shorter run ends |
| ChainAnalysis.ConnectedRunAccumulates | cq_editor/widgets/wire_walker.py:79-93 | same-type edges of either kind, each starting within 1e-4 of the previous edge's last point, accumulate as one run holding `RunPoints`, with nothing emitted |
| ChainAnalysis.ConnectedRunEncodes | cq_editor/widgets/wire_walker.py:45-96 | such a run encodes as one command of its type holding the cleaned points, or as nothing when fewer than two survive cleaning |
| ChainAnalysis.ConnectedRunIsOneCommand | cq_editor/widgets/wire_walker.py:45-96 | such a run with no repeated neighbouring points gives exactly one command holding all of them |
| ChainAnalysis.OneCurveIsOneSpline | cq_editor/widgets/wire_walker.py:71-96 | a single curve with two or more distinct neighbouring discretised points becomes exactly one spline command of those points |
| HybridFormat.FormatHybridCode | cq_editor/widgets/wire_walker.py:98-123 | the nested loops over commands and point pairs produce exactly `HybridCode(commands)` |
| HybridFormat.HybridCode | cq_editor/widgets/wire_walker.py:98-123 | what `_format_hybrid_code` returns: header, the lines of each command, footer, joined with newlines; its properties are `HybridCodeFrame`, `PolylineLines` and `SplineRunsOneLineEach` |
| HybridFormat.VecStr | cq_editor/widgets/wire_walker.py:102-103 | `vec_str`: `cq.Vector(x, y, z)` in the number format; it holds no line break (`VecStrOneLine`) |
| HybridFormat.ListStr | cq_editor/widgets/wire_walker.py:105-106 | `list_str`: the `vec_str` texts joined with `", "` in brackets; it holds no line break (`ListStrOneLine`) |
| HybridFormat.LineText | cq_editor/widgets/wire_walker.py:116 | one `makeLine` line between two points (`SegmentLinesAreLongPairs`, `LineTextOneLine`) |
| HybridFormat.SplineText | cq_editor/widgets/wire_walker.py:119 | one `makeSpline` line of all the points (`SplineRunsOneLineEach`, `SplineTextOneLine`) |
| HybridFormat.SegmentLines | cq_editor/widgets/wire_walker.py:112-116 | the `makeLine` lines of the first neighbouring pairs, skipping pairs of length at most 1e-5; characterised by `SegmentLinesAreLongPairs` and `PolylineLines` |
| HybridFormat.CommandLines | cq_editor/widgets/wire_walker.py:108-119 | the lines one command emits: none below two points, the segment lines of a polyline, one spline line; characterised by `ShortCommandSilent`, `PolylineLines` and `SplineRunsOneLineEach` |
| HybridFormat.HybridCodeFrame | cq_editor/widgets/wire_walker.py:100-121 | the first line is the `assembleEdges([` header and the last is `]))`; the text starts and ends with them |
| HybridFormat.LongPairs | cq_editor/widgets/wire_walker.py:112-115 | the indices of the emitted pairs are fewer than the pairs and each below the pair count |
| HybridFormat.LongPairsExact | cq_editor/widgets/wire_walker.py:112-115 | a pair is listed exactly when its length exceeds 1e-5, each once, in increasing order |
| HybridFormat.SegmentLinesAreLongPairs | cq_editor/widgets/wire_walker.py:112-116 | the k-th `makeLine` line joins the k-th long pair |
| HybridFormat.PolylineLines | cq_editor/widgets/wire_walker.py:111-116 | a k-point polyline emits at most k - 1 `makeLine` lines, one per neighbouring pair longer than 1e-5, in order |
| HybridFormat.PolylineAllLong | cq_editor/widgets/wire_walker.py:112-116 | when every pair is longer than 1e-5, exactly one line per pair, the j-th joining points j and j + 1 |
| HybridFormat.BodyLinesAppend | cq_editor/widgets/wire_walker.py:108-119 | the lines of two command lists are the lines of each, in order |
| HybridFormat.ShortCommandSilent | cq_editor/widgets/wire_walker.py:109 | a command with fewer than two points emits nothing |
| HybridFormat.SplineRunsOneLineEach | cq_editor/widgets/wire_walker.py:118-119 | each spline command emits exactly one `makeSpline` line holding all of its points |
| HybridFormat.FormattedAtBreak | cq_editor/widgets/wire_walker.py:45-123 | at a break, the formatted lines of the chain are the lines of the part before followed by those of the part after |
| HybridFormat.SingleCommandLines | cq_editor/widgets/wire_walker.py:98-123 | one command's block is header, its lines, footer |
| HybridFormat.PolylineBlock | cq_editor/widgets/wire_walker.py:111-121 | a polyline with all pairs long gives header, one `makeLine` per pair in order, footer |
| HybridFormat.LineChainFormatsAsLines | cq_editor/widgets/wire_walker.py:45-123 | a connected chain of N long line edges becomes header, N `makeLine` lines joining consecutive vertices, footer |
| HybridFormat.DegenerateEdgeScenario | cq_editor/widgets/wire_walker.py:45-123 | a single line edge no longer than 1e-5 produces only header and footer |
| WireWalker.GenerateWireCode | cq_editor/widgets/wire_walker.py:7-31 | the loop over wires computes `WireCode`; it succeeds exactly when the extension is `step`/`stp`, loading succeeded and at least one wire was found |
| WireWalker.WireCode | cq_editor/widgets/wire_walker.py:7-31 | the result or the `ValueError` text of `generate_wire_code`; checked in the order extension, load, empty wire list; its output is stated by `WireCodeLines` |
| WireWalker.Extension | cq_editor/widgets/wire_walker.py:11 | `filename.lower().split('.')[-1]`; characterised by `ExtensionIsLastPiece` and `ExtensionOfSuffix` |
| WireWalker.ExtensionIsLastPiece | cq_editor/widgets/wire_walker.py:11 | the extension holds no `.`, is a suffix of the lower-cased name, and is the whole name or preceded by `.` |
| WireWalker.SplitAfterLastSeparator | cq_editor/widgets/wire_walker.py:11 | the last piece of a split is what follows the last separator |
| WireWalker.LowerConcat | cq_editor/widgets/wire_walker.py:11 | lower-casing works piecewise |
| WireWalker.ExtensionOfSuffix | cq_editor/widgets/wire_walker.py:11 | the extension of `name.suffix` is the lower-cased suffix whenever the suffix has no `.` |
| WireWalker.StepNamesAccepted | cq_editor/widgets/wire_walker.py:11-13 | `.STEP` and `.stp` names are accepted in any case; `x.step.bak` is refused with "Unsupported format. Use STEP." |
| WireWalker.JoinBlocks | cq_editor/widgets/wire_walker.py:31 | joining blocks with `"\n\n"` is joining all their lines with `"\n"` and an empty line between blocks |
| WireWalker.VecStrOneLine | cq_editor/widgets/wire_walker.py:102-103 | `vec_str` produces no line break when the number format produces none |
| WireWalker.ListStrOneLine | cq_editor/widgets/wire_walker.py:105-106 | `list_str` produces no line break |
| WireWalker.LineTextOneLine | cq_editor/widgets/wire_walker.py:116 | a `makeLine` line has no line break |
| WireWalker.SplineTextOneLine | cq_editor/widgets/wire_walker.py:119 | a `makeSpline` line has no line break |
| WireWalker.CommandLineOneLine | cq_editor/widgets/wire_walker.py:108-119 | every line a command emits is a single line |
| WireWalker.BodyOneLine | cq_editor/widgets/wire_walker.py:108-119 | every body line is a single line |
| WireWalker.LineOfBodyOneLine | cq_editor/widgets/wire_walker.py:99-123 | every line of a block is a single line |
| WireWalker.CodeLinesOneLine | cq_editor/widgets/wire_walker.py:99-123 | every entry of `code_lines` is a single line |
| WireWalker.InterleaveOneLine | cq_editor/widgets/wire_walker.py:20-31 | the lines of all blocks with empty separators are single lines |
| WireWalker.WireCodeLines | cq_editor/widgets/wire_walker.py:20-31 | read back with `splitlines`, the output is one block per wire in wire order, separated by one empty line, each opening with the header and closing with `]))` |
| Text.Split | cq_editor/widgets/wire_walker.py:11 | `split` gives at least one piece and no piece holds the separator |
| Text.SplitJoin | cq_editor/widgets/wire_walker.py:11 | joining the pieces with the separator gives the text back |
| Text.Lower | cq_editor/widgets/wire_walker.py:11 | `lower()` keeps the length, leaves no upper-case letter, and changes only upper-case letters |
| Text.LowerIdempotent | cq_editor/widgets/wire_walker.py:11 | lower-casing twice is lower-casing once |
| Text.JoinCons | cq_editor/widgets/wire_walker.py:31 | `sep.join` peels off from the front as from the back |
| Text.JoinEnds | cq_editor/widgets/wire_walker.py:123 | a join starts with its first piece and ends with its last |
| Text.ContainsIsOccurrence | cq_editor/widgets/traceback_viewer.py:77 | `pat in s` holds exactly when `pat` occurs at some position of `s` |
| Text.StripLeftSpec | cq_editor/widgets/traceback_viewer.py:85 | the left strip removes exactly the leading whitespace |
| Text.StripRightSpec | cq_editor/widgets/traceback_viewer.py:85 | the right strip removes exactly the trailing whitespace |
| Text.StripKeepsMiddle | cq_editor/widgets/traceback_viewer.py:85 | `strip()` keeps the middle of the text between two runs of whitespace, and the result begins and ends with a non-space |
| Text.StripIdempotent | cq_editor/widgets/traceback_viewer.py:103 | stripping twice is stripping once |
| Text.FirstBreak | cq_editor/widgets/traceback_viewer.py:72 | the first line-break position, with no break before it |
| Text.SplitLines | cq_editor/widgets/traceback_viewer.py:72 | no line `splitlines` returns holds a line break |
| Text.SplitLinesJoin | cq_editor/widgets/traceback_viewer.py:72 | `splitlines` undoes joining single lines with `"\n"` |
| Text.NatDigits | cq_editor/widgets/traceback_viewer.py:92 | `str(lineno)` is a non-empty string of decimal digits |
| TracebackViewer.ShownFramesSuffix | cq_editor/widgets/traceback_viewer.py:76-78 | the shown frames are the suffix starting at the first frame whose file contains `string>`; every dropped frame lacks it and later frames are kept whatever their file |
| TracebackViewer.ShownFrames | cq_editor/widgets/traceback_viewer.py:76-78 | the `dropwhile` filter; characterised by `ShownFramesSuffix` |
| TracebackViewer.LineContent | cq_editor/widgets/traceback_viewer.py:82-89 | the code shown for a frame; characterised by `LineContentCases` and `LineFromSource` |
| TracebackViewer.PyIndex | cq_editor/widgets/traceback_viewer.py:85-87 | Python indexing: present exactly for `-len <= i < len`, and then an element of the list (`IndexError` is `None`) |
| TracebackViewer.FrameRow | cq_editor/widgets/traceback_viewer.py:92-97 | the row of a frame: its file, `str(lineno)`, its code line, storing the file and line number; characterised by `ReportShape` and `FrameRowHighlight` |
| TracebackViewer.HeaderText | cq_editor/widgets/traceback_viewer.py:56-58 | `"{TypeName}: {exc}"`; stated by `ReportShape` |
| TracebackViewer.LineContentCases | cq_editor/widgets/traceback_viewer.py:82-89 | without `el.line` the code is the stripped source line `lineno`; line 0 reads the last line; out of range gives `???` |
| TracebackViewer.LineFromSource | cq_editor/widgets/traceback_viewer.py:72-89 | for source text made of the given lines, a frame without `el.line` shows the stripped line it names, or `???` |
| TracebackViewer.SyntaxRow | cq_editor/widgets/traceback_viewer.py:100-107 | a missing or empty file name becomes `<string>` and a present one is kept; the line column is `?` exactly when the line number is absent or 0, and `str(lineno)` otherwise; the text is empty when absent and stripped when present; the stored data are the shown file and `exc.lineno` |
| TracebackViewer.ReportShape | cq_editor/widgets/traceback_viewer.py:50-107 | a falsy `exc_info` leaves the tree empty; otherwise one error row `"{TypeName}: {exc}"` whose children are one row per shown frame, storing its file and line and showing `LineContent` of the editor's code lines, followed, for a `SyntaxError`, by `SyntaxRow` of its details |
| TracebackViewer.TracebackReport | cq_editor/widgets/traceback_viewer.py:50-107 | the tree `addTraceback` builds; characterised by `ReportShape` and built by `TracebackPane.AddTraceback` |
| TracebackViewer.SelectionHighlight | cq_editor/widgets/traceback_viewer.py:110-122 | the line `handleSelection` highlights: nothing for the error row, and for a child row its stored line when the stored file is non-empty and contains `<string>` and the stored line is non-zero; its promise per row kind is stated by `FrameRowHighlight` and `SyntaxRowHighlight` |
| TracebackViewer.FrameRowHighlight | cq_editor/widgets/traceback_viewer.py:92-122 | clicking a frame row from `<string>` with a non-zero line highlights that line; a frame from another file highlights nothing |
| TracebackViewer.SyntaxRowHighlight | cq_editor/widgets/traceback_viewer.py:100-122 | clicking a `SyntaxError` row highlights its line number exactly when the shown file contains `<string>` and the line number is present and non-zero; with a missing or empty file name only the line number decides |
| TracebackViewer.ChildEntryIndented | cq_editor/widgets/traceback_viewer.py:153-157 | the error row's entry for a child is the child's own copy on a new line, indented by two spaces |
| TracebackViewer.RootCopyListsChildren | cq_editor/widgets/traceback_viewer.py:149-153 | copying the error row gives its text followed by the entry of each child, in order |
| TracebackViewer.CopyText | cq_editor/widgets/traceback_viewer.py:148-157 | the clipboard text of an item: the error row with every child entry, or the child's own text; characterised by `RootCopyListsChildren` and `ChildEntryIndented` |
| TracebackViewer.ChildText | cq_editor/widgets/traceback_viewer.py:157 | the copy of a child row: `File {file}, line {line}` and the indented code; related to the root's entries by `ChildEntryIndented` |
| TracebackViewer.RootText | cq_editor/widgets/traceback_viewer.py:150-154 | the error text followed by the entries of the first `n` children; characterised by `RootCopyListsChildren` |
| TracebackViewer.TracebackPane.constructor | cq_editor/widgets/traceback_viewer.py:26 | the tree starts empty |
| TracebackViewer.TracebackPane.AddTraceback | cq_editor/widgets/traceback_viewer.py:50-107 | clearing the tree and adding the rows in a loop leaves exactly `TracebackReport(exc_info, code)` |
| TracebackViewer.TracebackPane.HandleSelection | cq_editor/widgets/traceback_viewer.py:110-122 | emits exactly `SelectionHighlight` for the current item, nothing without an item |
| TracebackViewer.TracebackPane.CopySelection | cq_editor/widgets/traceback_viewer.py:140-159 | nothing is copied without an item; otherwise the `+=` loop builds exactly `CopyText` |
| KernelInspector.FirstSingleton | cq_editor/widgets/kernel_inspector.py:126-130 | the first kind in the order solids, faces, wires, edges, vertices with exactly one member |
| KernelInspector.FirstCrowded | cq_editor/widgets/kernel_inspector.py:132-136 | the first kind in that order with more than one member |
| KernelInspector.Unwrapped | cq_editor/widgets/kernel_inspector.py:118-139 | the shapes `_unwrap_and_append` adds; characterised by `SingletonWins`, `CrowdedKindAdded`, `EmptyCompoundKept` and `UnwrappedFromShape` |
| KernelInspector.UnwrapAndAppend | cq_editor/widgets/kernel_inspector.py:118-139 | the `elif` chain appends `Unwrapped(shape)`: at least one shape, the earlier selection kept as a prefix |
| KernelInspector.SingletonWins | cq_editor/widgets/kernel_inspector.py:126-130 | a kind with exactly one member wins over every kind with many, whatever comes before it |
| KernelInspector.CrowdedKindAdded | cq_editor/widgets/kernel_inspector.py:132-136 | without a singleton kind, all members of the first crowded kind are appended in order |
| KernelInspector.EmptyCompoundKept | cq_editor/widgets/kernel_inspector.py:137-139 | a non-compound, or a compound with no sub-shapes, is appended itself |
| KernelInspector.UnwrappedFromShape | cq_editor/widgets/kernel_inspector.py:118-139 | every appended shape is the shape itself or one of its sub-shapes, and at least one is appended |
| KernelInspector.SelectionOf | cq_editor/widgets/kernel_inspector.py:79-104 | the selection `analyze` collects, in pick order; characterised by `SelectionCounts` |
| KernelInspector.CollectSelection | cq_editor/widgets/kernel_inspector.py:79-104 | the selection loop collects `SelectionOf(picked)`, skipping objects without geometry |
| KernelInspector.SelectionCounts | cq_editor/widgets/kernel_inspector.py:95-108 | the selection has at least one shape per object with geometry; "Nothing Selected" appears exactly when no object had geometry |
| KernelInspector.ClickTarget | cq_editor/widgets/kernel_inspector.py:141-145 | the shape `on_tree_click` highlights: the row's own stored shape, else its parent's, else none; its promise per row kind is stated by `ClickHighlightsRowShape` |
| KernelInspector.ClickHighlightsRowShape | cq_editor/widgets/kernel_inspector.py:141-145 | clicking a shape row or one of its property rows highlights that shape; a status row highlights nothing |
| KernelInspector.Inspector.constructor | cq_editor/widgets/kernel_inspector.py:24 | no temporary objects at first |
| KernelInspector.Inspector.ClearHighlight | cq_editor/widgets/kernel_inspector.py:229-234 | every temporary object is removed once, in order, without redraw; one redraw follows only if there were any; nothing is displayed; the list ends empty |
| Pathfinder.CaptureOneCases | cq_editor/widgets/pathfinder.py:119-130 | a vertex is skipped, or appended only when the list is empty or it is at least 1e-5 from the last point |
| Pathfinder.CandidateVertices | cq_editor/widgets/pathfinder.py:100-113 | the vertex centres of a selected object, or its own centre when it has no vertices and is a vertex |
| Pathfinder.CaptureOne | cq_editor/widgets/pathfinder.py:117-130 | one vertex, skipped within 1e-5 of the last point; characterised by `CaptureOneCases` |
| Pathfinder.PointLabel | cq_editor/widgets/pathfinder.py:129 | the list-widget entry `(x, y, z)` of a captured point; kept next to its point by `RemoveKeepsLabels` and `AddVertices` |
| Pathfinder.CaptureAll | cq_editor/widgets/pathfinder.py:116-130 | the inner loop over one object's vertices; characterised by `CaptureAllAppends`, `CaptureAllSpaced` and `RepeatedVertexOnce` |
| Pathfinder.CapturedFrom | cq_editor/widgets/pathfinder.py:96-135 | the outer loop over the selected objects; characterised by `CapturedFromExtends` and `FirstCaptureAppends` |
| Pathfinder.CaptureAllAppends | cq_editor/widgets/pathfinder.py:116-130 | capturing keeps the earlier points and appends some of the vertices, in order |
| Pathfinder.CaptureAllSpaced | cq_editor/widgets/pathfinder.py:119-128 | each appended point lies at least 1e-5 from the point before it |
| Pathfinder.RepeatedVertexOnce | cq_editor/widgets/pathfinder.py:119-128 | the same vertex twice in one capture is taken once, because the last point is re-read for each vertex |
| Pathfinder.CapturedFromExtends | cq_editor/widgets/pathfinder.py:96-135 | a capture never changes the points already captured |
| Pathfinder.FirstCaptureAppends | cq_editor/widgets/pathfinder.py:137-143 | from an empty list, a selection with any vertex appends a point, so no warning is shown |
| Pathfinder.InsertDescending | cq_editor/widgets/pathfinder.py:146 | inserting into a strictly descending list keeps it strictly descending, with the same elements plus one |
| Pathfinder.SortDescending | cq_editor/widgets/pathfinder.py:146 | `sorted(rows, reverse=True)` of distinct rows is strictly descending with the same elements |
| Pathfinder.DescendingPrefix | cq_editor/widgets/pathfinder.py:146-149 | each row popped is below every row popped before it and was not popped yet |
| Pathfinder.KeptIndicesSpec | cq_editor/widgets/pathfinder.py:146-149 | the kept indices are every unselected index, once each, in increasing order |
| Pathfinder.WithoutKeeps | cq_editor/widgets/pathfinder.py:146-149 | what remains are exactly the points at the unselected indices, in their original order |
| Pathfinder.Without | cq_editor/widgets/pathfinder.py:146-149 | the points left after the selected rows are popped; characterised by `WithoutKeeps` |
| Pathfinder.WithoutNothing | cq_editor/widgets/pathfinder.py:146-149 | removing no index in range leaves the list unchanged |
| Pathfinder.RemoveBelowRemoved | cq_editor/widgets/pathfinder.py:147-148 | popping row `r` after only rows above it were popped removes the original `points[r]` |
| Pathfinder.RemoveKeepsLabels | cq_editor/widgets/pathfinder.py:148-149 | popping the same row from the points and the widget keeps each entry next to its point |
| Pathfinder.InsertedCode | cq_editor/widgets/pathfinder.py:192-209 | no code without points; otherwise the code starts with the `path_points = [` list |
| Pathfinder.PointEntry | cq_editor/widgets/pathfinder.py:195 | one indented `(x, y, z)` entry of `pts_str` |
| Pathfinder.PointsText | cq_editor/widgets/pathfinder.py:195 | `pts_str`: the entries joined with `",\n"` between `"[\n"` and `"\n]"`; the prefix is stated by `InsertedCode` |
| Pathfinder.PathfinderPane.constructor | cq_editor/widgets/pathfinder.py:17-18 | no points, no entries, no preview objects |
| Pathfinder.PathfinderPane.UpdatePreview | cq_editor/widgets/pathfinder.py:152-177 | without a context nothing changes; otherwise each old preview object is removed with a redraw, and from two points on the wire, then the pipe if any, is displayed with a redraw and becomes the new preview; the context's logs grow by exactly those objects and redraws |
| Pathfinder.PathfinderPane.AddVertices | cq_editor/widgets/pathfinder.py:116-130 | the inner loop computes `CaptureAll`, adding one list entry per appended point, and reports whether it appended anything |
| Pathfinder.PathfinderPane.CapturePoint | cq_editor/widgets/pathfinder.py:90-143 | the points become `CapturedFrom(points, selection)` with one list entry each; the warning is shown exactly when nothing was appended, and then the preview and the context are untouched; otherwise the preview is rebuilt as `UpdatePreview` states |
| Pathfinder.PathfinderPane.RemovePoint | cq_editor/widgets/pathfinder.py:145-150 | the points lose exactly the selected rows, the rest in order, the widget in step; then the preview is rebuilt as `UpdatePreview` states, and kept as it was without a context |
| Pathfinder.PathfinderPane.ClearAll | cq_editor/widgets/pathfinder.py:179-185 | points, entries and preview all empty; with a context each preview object is removed once, in order, with one redraw each |

## Left out

- `_load_step_wires` (STEP file reading through `cq.importers`, with the edge-assembly fallback) is file I/O. Its outcome is the `loaded` parameter of `WireWalker.WireCode`, and a failure stands for "STEP Load Error: …".
- The OCP curve discretiser (`BRepAdaptor_Curve`, `GCPnts_QuasiUniformDeflection`) is a foreign call. Its outcome is stored on each `Edge`.
- Number formatting (`:.3f`, `:.2f`) and `str` of the pipe radius are opaque parameters. The one-line lemmas assume only that the format writes no line break.
- `cq.Vector` equality in `flush` is the abstract relation `same`. Its tolerance is not visible in these files.
- Point arithmetic is done on exact reals. Floating-point rounding of `.Length` is not modelled.
- `filename.lower()` is modelled for ASCII letters only. No non-ASCII character lowers to `s`, `t`, `e`, `p` or `.`, so the accept/reject decision is the same as Python's.
- TracebackViewer.TracebackReport: the extra row is added when the caller marks the exception as exactly `SyntaxError` (`t is SyntaxError`). Its subclasses get no extra row, and the model leaves that choice to the caller.
- Qt and OCP rendering is not modelled: tree widgets, fonts and colours, the context menu, the clipboard, signals, `locate_context`/`get_viewer`, `draw_marker`, `highlight_shape` and the face-normal arrow, `inspect_shape`, and the construction of the wire and pipe in `update_preview` (polyline or spline, the circle swept along it, colours, transparency). The objects built are the `preview` parameter.
- Editor insertion in `insert_code` and `get_editor` are left out. `Pathfinder.InsertedCode` only gives the text that would be inserted.
- Exceptions caught and printed inside `capture_point`, `analyze`, `update_preview` and `insert_code` are not modelled. The model follows the path on which nothing throws.
- KernelInspector.UnwrapAndAppend returns the extended list instead of appending to the caller's list in place. Its only caller, `analyze`, owns that list, so no aliasing is lost.
- KernelInspector.CollectSelection abstracts each selected object to its shape, or to no geometry. The `hasattr(ais, "Shape")` / `get()` lookup and `IsNull` are folded into that abstraction.
- Pathfinder.PathfinderPane.RemovePoint takes the selected rows as distinct and in range, which is what the list widget's `selectedIndexes()` delivers.
- Drag-and-drop reordering in the pathfinder's list widget reorders only the widget, not `points`. The model does not claim that the two stay in step under a drag.
- Pathfinder.CandidateVertices takes each selected object's vertex centres as given. `cq.Shape.cast`, `Vertices()` and `Center()` are not modelled.
