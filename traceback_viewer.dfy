/** The traceback pane of `traceback_viewer.py`: which stack frames it shows,
    what code text each row carries, when selecting a row highlights a line
    of the editor, and the text it copies. */
module TracebackViewer {
  import opened Common
  import opened Text

  /** One entry of `extract_tb(tb)`: the file name, the line number and the
      source line the traceback module found (`""` when it found none). */
  datatype Frame = Frame(filename: string, lineno: int, line: string)

  /** The `filename`, `lineno` and `text` attributes of a `SyntaxError`;
      `None` stands for Python's `None`. */
  datatype SyntaxDetails = SyntaxDetails(filename: Option<string>, lineno: Option<int>, text: Option<string>)

  /** A truthy `exc_info = (t, exc, tb)`: the name of `t`, `str(exc)`, the
      frames of `tb`, and the syntax details when `t is SyntaxError`. */
  datatype ExcInfo = ExcInfo(typeName: string, message: string, frames: seq<Frame>, syntax: Option<SyntaxDetails>)

  /** A child row of the tree: its three column texts and the values stored
      under `Qt.UserRole` in columns 0 and 1. */
  datatype Row = Row(file: string, line: string, code: string, fileData: Option<string>, lineData: Option<int>)

  /** The tree after `addTraceback`: the error row and its children. */
  datatype Report = Report(header: string, children: seq<Row>)

  /** A row of the tree: the error row or the child at an index. */
  datatype Item = HeaderItem | ChildItem(index: nat)

  const UnknownLine: string := "???"
  const DefaultFile: string := "<string>"

  // ---------------------------------------------------------------------
  // Which frames are shown.

  /** A frame of code run from the editor: its file name contains `string>`. */
  predicate IsUserFrame(f: Frame)
  {
    Contains(f.filename, "string>")
  }

  /** `dropwhile(lambda el: "string>" not in el.filename, frames)`. */
  function ShownFrames(frames: seq<Frame>): seq<Frame>
    decreases |frames|
  {
    if frames != [] && !IsUserFrame(frames[0]) then ShownFrames(frames[1..]) else frames
  }

  /** The shown frames are the suffix of the trace that starts at its first
      user frame, or nothing when there is none; later frames are kept
      whatever their file. */
  lemma {:induction false} ShownFramesSuffix(frames: seq<Frame>)
    ensures var shown := ShownFrames(frames); var k := |frames| - |shown|;
      && |shown| <= |frames| && shown == frames[k..]
      && (forall j :: 0 <= j < k ==> !IsUserFrame(frames[j]))
      && (shown != [] ==> IsUserFrame(shown[0]))
    decreases |frames|
  {
    if frames != [] && !IsUserFrame(frames[0]) {
      var rest := frames[1..];
      ShownFramesSuffix(rest);
      var k := |rest| - |ShownFrames(rest)|;
      assert rest[k..] == frames[k + 1..];
      forall j | 0 <= j < k + 1 ensures !IsUserFrame(frames[j]) {
        if j > 0 {
          assert frames[j] == rest[j - 1];
        }
      }
    }
  }

  // ---------------------------------------------------------------------
  // The code text of a frame row.

  /** Python's `xs[i]`: negative indices count from the end, and an index
      outside `-len(xs) <= i < len(xs)` raises `IndexError` (`None`). */
  function PyIndex<T>(xs: seq<T>, i: int): (r: Option<T>)
    ensures r.Some? <==> -|xs| <= i < |xs|
    ensures r.Some? ==> r.value in xs
  {
    if 0 <= i < |xs| then Some(xs[i])
    else if -|xs| <= i < 0 then Some(xs[|xs| + i])
    else None
  }

  /** `line_content`: the frame's own line, or else the stripped source line
      at `lineno - 1` of the editor's code, or `"???"` when there is none. */
  function LineContent(f: Frame, codeLines: seq<string>): string
  {
    if f.line != "" then f.line
    else
      var l := PyIndex(codeLines, f.lineno - 1);
      if l.Some? then Strip(l.value) else UnknownLine
  }

  /** For source text made of `lines` joined by newlines, a frame without a
      line of its own shows line `lineno` (counted from 1) of that text,
      stripped, and `"???"` past its end; line number 0 wraps around to the
      last line, as Python indexing does. */
  lemma LineFromSource(f: Frame, lines: seq<string>)
    requires forall i :: 0 <= i < |lines| ==> NoLineBreak(lines[i])
    requires lines != [] ==> Last(lines) != ""
    requires f.line == ""
    ensures var shown := LineContent(f, SplitLines(Join("\n", lines)));
      && (1 <= f.lineno <= |lines| ==> shown == Strip(lines[f.lineno - 1]))
      && (f.lineno == 0 && lines != [] ==> shown == Strip(Last(lines)))
      && (f.lineno > |lines| || f.lineno < 1 - |lines| ==> shown == UnknownLine)
  {
    var codeLines := SplitLines(Join("\n", lines));
    SplitLinesJoin(lines);
    assert LineContent(f, codeLines) == LineContent(f, lines);
    LineContentCases(f, lines);
  }

  lemma LineContentCases(f: Frame, lines: seq<string>)
    requires f.line == ""
    ensures 1 <= f.lineno <= |lines| ==> LineContent(f, lines) == Strip(lines[f.lineno - 1])
    ensures f.lineno == 0 && lines != [] ==> LineContent(f, lines) == Strip(Last(lines))
    ensures f.lineno > |lines| || f.lineno < 1 - |lines| ==> LineContent(f, lines) == UnknownLine
  {
    var l := PyIndex(lines, f.lineno - 1);
    if 1 <= f.lineno <= |lines| {
      assert l == Some(lines[f.lineno - 1]);
    } else if f.lineno == 0 && lines != [] {
      assert l == Some(Last(lines));
    }
  }

  /** The row of one shown frame. */
  function FrameRow(f: Frame, codeLines: seq<string>): Row
  {
    Row(f.filename, DecimalString(f.lineno), LineContent(f, codeLines), Some(f.filename), Some(f.lineno))
  }

  /** The extra row of a `SyntaxError`: a missing file name becomes
      `"<string>"`, a missing line number is shown as `"?"` (and stored as
      it is), a missing text becomes `""`; a present file name is kept, a
      present line number is shown in decimal and a present text is
      stripped. */
  function SyntaxRow(d: SyntaxDetails): (r: Row)
    ensures r.fileData == Some(r.file)
    ensures r.lineData == d.lineno
    ensures r.file == DefaultFile <== d.filename.None? || d.filename == Some("")
    ensures d.filename.Some? && d.filename.value != "" ==> r.file == d.filename.value
    ensures r.line == "?" <==> d.lineno.None? || d.lineno == Some(0)
    ensures d.lineno.Some? && d.lineno.value != 0 ==> r.line == DecimalString(d.lineno.value)
    ensures d.text.None? ==> r.code == ""
    ensures d.text.Some? && d.text.value != "" ==> r.code == Strip(d.text.value)
  {
    var file := if d.filename.Some? && d.filename.value != "" then d.filename.value else DefaultFile;
    var line := if d.lineno.Some? && d.lineno.value != 0 then DecimalString(d.lineno.value) else "?";
    var text := if d.text.Some? && d.text.value != "" then Strip(d.text.value) else "";
    Row(file, line, text, Some(file), d.lineno)
  }

  /** The error row's text: `"{TypeName}: {str(exc)}"`. */
  function HeaderText(e: ExcInfo): string
  {
    e.typeName + ": " + e.message
  }

  function FrameRows(frames: seq<Frame>, codeLines: seq<string>): seq<Row>
  {
    seq(|frames|, i requires 0 <= i < |frames| => FrameRow(frames[i], codeLines))
  }

  /** The tree after `addTraceback(exc_info, code)`. */
  function TracebackReport(excInfo: Option<ExcInfo>, code: string): Option<Report>
  {
    match excInfo
    case None => None
    case Some(e) =>
      var rows := FrameRows(ShownFrames(e.frames), SplitLines(code));
      Some(Report(HeaderText(e), if e.syntax.Some? then rows + [SyntaxRow(e.syntax.value)] else rows))
  }

  /** An item the tree holds. */
  predicate ItemIn(r: Report, item: Item)
  {
    item.ChildItem? ==> item.index < |r.children|
  }

  // ---------------------------------------------------------------------
  // Selecting a row.

  /** `handleSelection(item)`: the line to highlight in the editor, if any.
      The error row stores nothing; a child row highlights its stored line
      number when both stored values are truthy and the file is `<string>`. */
  function SelectionHighlight(r: Report, item: Option<Item>): Option<int>
    requires item.Some? ==> ItemIn(r, item.value)
  {
    match item
    case None => None
    case Some(HeaderItem) => None
    case Some(ChildItem(i)) =>
      var row := r.children[i];
      if row.fileData.Some? && row.fileData.value != "" && row.lineData.Some? && row.lineData.value != 0 then
        if Contains(row.fileData.value, DefaultFile) then Some(row.lineData.value) else None
      else None
  }

  /** Selecting the row of a frame highlights that frame's line exactly when
      its file is code run from the editor and its line number is not 0. */
  lemma FrameRowHighlight(r: Report, i: nat, f: Frame, codeLines: seq<string>)
    requires i < |r.children| && r.children[i] == FrameRow(f, codeLines)
    ensures SelectionHighlight(r, Some(ChildItem(i))) == Some(f.lineno)
        <==> Contains(f.filename, DefaultFile) && f.lineno != 0
    ensures SelectionHighlight(r, Some(ChildItem(i))).None?
        <==> !Contains(f.filename, DefaultFile) || f.lineno == 0
  {
    if Contains(f.filename, DefaultFile) {
      assert |DefaultFile| <= |f.filename|;
    }
  }

  /** Selecting the extra row of a `SyntaxError` highlights its line number
      exactly when the shown file contains `<string>` and the line number
      is present and non-zero; a missing or empty file name is shown as
      `<string>`, so then only the line number decides. */
  lemma SyntaxRowHighlight(r: Report, i: nat, d: SyntaxDetails)
    requires i < |r.children| && r.children[i] == SyntaxRow(d)
    ensures SelectionHighlight(r, Some(ChildItem(i))) ==
      (if Contains(SyntaxRow(d).file, DefaultFile) && d.lineno.Some? && d.lineno.value != 0 then d.lineno else None)
    ensures d.filename.None? || d.filename == Some("") ==>
      SelectionHighlight(r, Some(ChildItem(i))) == (if d.lineno.Some? && d.lineno.value != 0 then d.lineno else None)
  {
    var file := SyntaxRow(d).file;
    if Contains(file, DefaultFile) {
      assert |DefaultFile| <= |file|;
    }
    if d.filename.None? || d.filename == Some("") {
      assert Contains(DefaultFile, DefaultFile);
    }
  }

  // ---------------------------------------------------------------------
  // Copying.

  /** The copy of one child row on its own. */
  function ChildText(row: Row): string
  {
    "File " + row.file + ", line " + row.line + "\n    " + row.code
  }

  /** The entry the error row's copy holds for one child. */
  function ChildEntry(c: Row): string
  {
    "\n  File " + c.file + ", line " + c.line + "\n    " + c.code
  }

  /** The error text followed by the entries of the first `n` children. */
  function RootText(r: Report, n: nat): string
    requires n <= |r.children|
  {
    if n == 0 then r.header else RootText(r, n - 1) + ChildEntry(r.children[n - 1])
  }

  lemma ChildEntryIndented(c: Row)
    ensures ChildEntry(c) == "\n  " + ChildText(c)
  {
    var rest := c.file + ", line " + c.line + "\n    " + c.code;
    assert ChildEntry(c) == "\n  File " + rest;
    assert ChildText(c) == "File " + rest;
    assert "\n  File " == "\n  " + "File ";
  }

  /** What `copy_selection` puts on the clipboard for an item. */
  function CopyText(r: Report, item: Item): string
    requires ItemIn(r, item)
  {
    match item
    case HeaderItem => RootText(r, |r.children|)
    case ChildItem(i) => ChildText(r.children[i])
  }

  /** The strings one after the other. */
  function Concat(xs: seq<string>): string
    decreases |xs|
  {
    if xs == [] then "" else Concat(DropLast(xs)) + Last(xs)
  }

  /** The entries the error row's copy holds for the rows `cs`. */
  function Entries(cs: seq<Row>): seq<string>
  {
    seq(|cs|, i requires 0 <= i < |cs| => ChildEntry(cs[i]))
  }

  /** Copying the error row gives the error text followed by the entry of
      each child, in order; by `ChildEntryIndented` each entry is the child's
      own copy on a new line, indented by two spaces. */
  lemma {:induction false} RootCopyListsChildren(r: Report, n: nat)
    requires n <= |r.children|
    ensures RootText(r, n) == r.header + Concat(Entries(r.children[..n]))
    decreases n
  {
    if n > 0 {
      RootCopyListsChildren(r, n - 1);
      var front, x := Entries(r.children[..n - 1]), ChildEntry(r.children[n - 1]);
      assert DropLast(Entries(r.children[..n])) == front;
      assert Concat(Entries(r.children[..n])) == Concat(front) + x;
    } else {
      assert Entries(r.children[..0]) == [];
    }
  }

  // ---------------------------------------------------------------------
  // The pane.

  class TracebackPane {
    /** The tree: empty, or one error row with its children. */
    var tree: Option<Report>

    constructor ()
      ensures tree.None?
    {
      tree := None;
    }

    /** `addTraceback(exc_info, code)`. */
    method AddTraceback(excInfo: Option<ExcInfo>, code: string)
      modifies this
      ensures tree == TracebackReport(excInfo, code)
    {
      tree := None;
      if excInfo.Some? {
        var e := excInfo.value;
        var header := e.typeName + ": " + e.message;
        var codeLines := SplitLines(code);
        var filtered := ShownFrames(e.frames);
        var children: seq<Row> := [];
        for i := 0 to |filtered|
          invariant children == FrameRows(filtered[..i], codeLines)
        {
          var el := filtered[i];
          var lineContent := LineContent(el, codeLines);
          children := children + [Row(el.filename, DecimalString(el.lineno), lineContent, Some(el.filename), Some(el.lineno))];
          assert FrameRows(filtered[..i + 1], codeLines) == FrameRows(filtered[..i], codeLines) + [FrameRow(el, codeLines)];
        }
        assert filtered[..|filtered|] == filtered;
        if e.syntax.Some? {
          var d := e.syntax.value;
          var filename := if d.filename.Some? && d.filename.value != "" then d.filename.value else DefaultFile;
          var lineno := if d.lineno.Some? && d.lineno.value != 0 then DecimalString(d.lineno.value) else "?";
          var text := if d.text.Some? && d.text.value != "" then Strip(d.text.value) else "";
          children := children + [Row(filename, lineno, text, Some(filename), d.lineno)];
        }
        tree := Some(Report(header, children));
      }
    }

    /** `handleSelection(item, prev)`: the line number emitted, if any. */
    method HandleSelection(item: Option<Item>) returns (emitted: Option<int>)
      requires item.Some? ==> tree.Some? && ItemIn(tree.value, item.value)
      ensures emitted == (if tree.Some? then SelectionHighlight(tree.value, item) else None)
    {
      emitted := None;
      if item.None? {
        return;
      }
      var r := tree.value;
      var fName: Option<string> := None;
      var lineno: Option<int> := None;
      if item.value.ChildItem? {
        fName := r.children[item.value.index].fileData;
        lineno := r.children[item.value.index].lineData;
      }
      if fName.Some? && fName.value != "" && lineno.Some? && lineno.value != 0 {
        if Contains(fName.value, DefaultFile) {
          emitted := Some(lineno.value);
        }
      }
    }

    /** `copy_selection()`: the clipboard text, or `None` when no row is
        selected and the clipboard is left alone. */
    method CopySelection(item: Option<Item>) returns (text: Option<string>)
      requires item.Some? ==> tree.Some? && ItemIn(tree.value, item.value)
      ensures text.None? <==> item.None?
      ensures item.Some? ==> text == Some(CopyText(tree.value, item.value))
    {
      if item.None? {
        return None;
      }
      var r := tree.value;
      var textToCopy := "";
      match item.value {
        case HeaderItem =>
          textToCopy := r.header;
          for i := 0 to |r.children|
            invariant textToCopy == RootText(r, i)
          {
            var child := r.children[i];
            textToCopy := textToCopy + ("\n  File " + child.file + ", line " + child.line + "\n    " + child.code);
          }
        case ChildItem(i) =>
          var row := r.children[i];
          textToCopy := "File " + row.file + ", line " + row.line + "\n    " + row.code;
      }
      text := Some(textToCopy);
    }
  }

  /** With a falsy `exc_info` the tree stays empty; otherwise it holds one
      error row whose children are the rows of the shown frames, in order,
      each storing its frame's file and line and showing its code line,
      followed by the `SyntaxError` row when there is one. */
  lemma ReportShape(excInfo: Option<ExcInfo>, code: string)
    ensures excInfo.None? <==> TracebackReport(excInfo, code).None?
    ensures excInfo.Some? ==>
      var e, r := excInfo.value, TracebackReport(excInfo, code).value;
      var shown := ShownFrames(e.frames);
      && r.header == e.typeName + ": " + e.message
      && |r.children| == |shown| + (if e.syntax.Some? then 1 else 0)
      && (forall i :: 0 <= i < |shown| ==>
            && r.children[i].fileData == Some(shown[i].filename)
            && r.children[i].lineData == Some(shown[i].lineno)
            && r.children[i].code == LineContent(shown[i], SplitLines(code)))
      && (e.syntax.Some? ==> r.children[|shown|] == SyntaxRow(e.syntax.value))
  {
  }
}
