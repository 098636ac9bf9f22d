/** `generate_wire_code` of `wire_walker.py`: the file-extension check, the
    outcome of loading the STEP file, and one formatted block per wire,
    joined by blank lines. */
module WireWalker {
  import opened Common
  import opened Geometry
  import opened Text
  import opened ChainAnalysis
  import opened HybridFormat

  /** A wire as the STEP loader hands it over: its edges in the order
      `wire.Edges()` yields them. */
  datatype Wire = Wire(edges: seq<Edge>)

  const UnsupportedFormat: string := "Unsupported format. Use STEP."
  const NoWiresFound: string := "No Wires found in STEP file. Ensure you exported a Wire/Path, not just loose edges."
  const LoadErrorPrefix: string := "STEP Load Error: "
  const BlockSeparator: string := "\n\n"

  /** `filename.lower().split('.')[-1]`. */
  function Extension(filename: string): string
  {
    Last(Split(Lower(filename), '.'))
  }

  predicate IsStepExtension(ext: string)
  {
    ext == "step" || ext == "stp"
  }

  /** The code block of one wire: its edges encoded into runs, then formatted. */
  function WireBlock(w: Wire, same: PointEq, fmt: NumberFormat): string
  {
    HybridCode(ChainCommands(w.edges, same), fmt)
  }

  function WireBlocks(wires: seq<Wire>, same: PointEq, fmt: NumberFormat): seq<string>
  {
    seq(|wires|, i requires 0 <= i < |wires| => WireBlock(wires[i], same, fmt))
  }

  /** What `generate_wire_code(filename)` returns (`Success`) or raises as
      `ValueError` (`Failure`). `loaded` is the outcome of the STEP loader:
      the wires it found, or the text of the exception it caught. */
  function WireCode(filename: string, loaded: Result<seq<Wire>, string>, same: PointEq, fmt: NumberFormat)
    : Result<string, string>
  {
    if !IsStepExtension(Extension(filename)) then Failure(UnsupportedFormat)
    else match loaded
      case Failure(e) => Failure(LoadErrorPrefix + e)
      case Success(wires) =>
        if wires == [] then Failure(NoWiresFound)
        else Success(Join(BlockSeparator, WireBlocks(wires, same, fmt)))
  }

  /** `generate_wire_code(filename)`. */
  method GenerateWireCode(filename: string, loaded: Result<seq<Wire>, string>, same: PointEq, fmt: NumberFormat)
    returns (r: Result<string, string>)
    ensures r == WireCode(filename, loaded, same, fmt)
    ensures r.Success? <==> IsStepExtension(Extension(filename)) && loaded.Success? && loaded.value != []
  {
    var ext := Last(Split(Lower(filename), '.'));
    if ext != "step" && ext != "stp" {
      return Failure(UnsupportedFormat);
    }
    if loaded.Failure? {
      return Failure(LoadErrorPrefix + loaded.error);
    }
    var wires := loaded.value;
    if wires == [] {
      return Failure(NoWiresFound);
    }
    var segments: seq<string> := [];
    for i := 0 to |wires|
      invariant segments == WireBlocks(wires[..i], same, fmt)
    {
      var commands := AnalyzeChain(wires[i].edges, same);
      var block := FormatHybridCode(commands, fmt);
      segments := segments + [block];
    }
    assert wires[..|wires|] == wires;
    return Success(Join(BlockSeparator, segments));
  }

  // ---------------------------------------------------------------------
  // The extension.

  /** The extension is the text after the last `.` of the lower-cased name
      (the whole name when it has no `.`), and holds no `.` itself. */
  lemma ExtensionIsLastPiece(filename: string)
    ensures var name, ext := Lower(filename), Extension(filename);
      && '.' !in ext
      && |ext| <= |name| && name[|name| - |ext|..] == ext
      && (|ext| < |name| ==> name[|name| - |ext| - 1] == '.')
  {
    var name := Lower(filename);
    var pieces := Split(name, '.');
    var ext := Last(pieces);
    SplitJoin(name, '.');
    assert '.' !in pieces[|pieces| - 1];
    if |pieces| == 1 {
      assert Join(['.'], pieces) == ext;
    } else {
      var front := Join(['.'], DropLast(pieces));
      assert name == front + ['.'] + ext;
      assert name[|name| - |ext|..] == ext;
      assert name[|name| - |ext| - 1] == '.';
    }
  }

  lemma {:induction false} SplitAfterLastSeparator(s: string, c: char, t: string)
    requires c !in t
    ensures Last(Split(s + [c] + t, c)) == t
    decreases |t|
  {
    var u := s + [c] + t;
    if t == [] {
      assert u == s + [c];
      assert DropLast(u) == s && Last(u) == c;
    } else {
      SplitAfterLastSeparator(s, c, DropLast(t));
      assert DropLast(u) == s + [c] + DropLast(t) && Last(u) == Last(t);
      assert DropLast(t) + [Last(t)] == t;
    }
  }

  lemma LowerConcat(a: string, b: string)
    ensures Lower(a + b) == Lower(a) + Lower(b)
  {
  }

  /** A name ending in `.` followed by a dot-free suffix has that suffix,
      lower-cased, as its extension. */
  lemma ExtensionOfSuffix(name: string, suffix: string)
    requires '.' !in suffix
    ensures Extension(name + "." + suffix) == Lower(suffix)
  {
    LowerConcat(name + ".", suffix);
    LowerConcat(name, ".");
    assert Lower(".") == ['.'];
    assert '.' !in Lower(suffix) by {
      forall k | 0 <= k < |suffix| ensures Lower(suffix)[k] != '.' {
        assert suffix[k] != '.';
      }
    }
    SplitAfterLastSeparator(Lower(name), '.', Lower(suffix));
  }

  /** Upper-case `.STEP` and `.STP` names are accepted; a name whose last
      suffix is something else is refused before anything is loaded. */
  lemma StepNamesAccepted(name: string, loaded: Result<seq<Wire>, string>, same: PointEq, fmt: NumberFormat)
    ensures Extension(name + ".STEP") == "step" && Extension(name + ".stp") == "stp"
    ensures WireCode(name + ".step.bak", loaded, same, fmt) == Failure(UnsupportedFormat)
  {
    assert Lower("STEP") == "step" && Lower("stp") == "stp" && Lower("bak") == "bak";
    ExtensionOfSuffix(name, "STEP");
    assert name + ".STEP" == name + "." + "STEP";
    ExtensionOfSuffix(name, "stp");
    assert name + ".stp" == name + "." + "stp";
    ExtensionOfSuffix(name + ".step", "bak");
    assert name + ".step.bak" == name + ".step" + "." + "bak";
  }

  // ---------------------------------------------------------------------
  // The output: the blocks of the wires, in order, between blank lines.

  lemma {:induction false} JoinAppend(sep: string, a: seq<string>, b: seq<string>)
    requires a != [] && b != []
    ensures Join(sep, a + b) == Join(sep, a) + sep + Join(sep, b)
    decreases |b|
  {
    if |b| == 1 {
      assert DropLast(a + b) == a;
    } else {
      JoinAppend(sep, a, DropLast(b));
      assert DropLast(a + b) == a + DropLast(b);
    }
  }

  /** The lines of several blocks, with one empty line between neighbours. */
  function Interleave(blocks: seq<seq<string>>): seq<string>
    decreases |blocks|
  {
    if blocks == [] then []
    else if |blocks| == 1 then blocks[0]
    else Interleave(DropLast(blocks)) + [""] + Last(blocks)
  }

  lemma {:induction false} InterleaveNonEmpty(blocks: seq<seq<string>>)
    requires blocks != [] && Last(blocks) != []
    ensures Interleave(blocks) != [] && Last(Interleave(blocks)) == Last(Last(blocks))
  {
  }

  /** Joining line-joined blocks with a blank line is joining all their lines,
      with an empty line between blocks. */
  lemma {:induction false} JoinBlocks(blocks: seq<seq<string>>)
    requires forall i :: 0 <= i < |blocks| ==> blocks[i] != []
    ensures Join(BlockSeparator, seq(|blocks|, i requires 0 <= i < |blocks| => Join("\n", blocks[i])))
         == Join("\n", Interleave(blocks))
    decreases |blocks|
  {
    var texts := seq(|blocks|, i requires 0 <= i < |blocks| => Join("\n", blocks[i]));
    if |blocks| > 1 {
      var front := DropLast(blocks);
      JoinBlocks(front);
      assert DropLast(texts) == seq(|front|, i requires 0 <= i < |front| => Join("\n", front[i]));
      InterleaveNonEmpty(front);
      var a := Interleave(front);
      assert a != [];
      JoinAppend("\n", a + [""], Last(blocks));
      JoinAppend("\n", a, [""]);
      assert Join("\n", [""]) == "";
    }
  }

  ghost predicate OneLineFormat(fmt: NumberFormat)
  {
    forall v :: NoLineBreak(fmt(v))
  }

  lemma NoLineBreakConcat(a: string, b: string)
    requires NoLineBreak(a) && NoLineBreak(b)
    ensures NoLineBreak(a + b)
  {
    forall j | 0 <= j < |a + b| ensures !IsLineBreak((a + b)[j]) {
      if j >= |a| {
        assert (a + b)[j] == b[j - |a|];
      }
    }
  }

  lemma {:induction false} JoinNoLineBreak(sep: string, xs: seq<string>)
    requires NoLineBreak(sep)
    requires forall i :: 0 <= i < |xs| ==> NoLineBreak(xs[i])
    ensures NoLineBreak(Join(sep, xs))
    decreases |xs|
  {
    if |xs| > 1 {
      JoinNoLineBreak(sep, DropLast(xs));
      NoLineBreakConcat(Join(sep, DropLast(xs)), sep);
      NoLineBreakConcat(Join(sep, DropLast(xs)) + sep, Last(xs));
    }
  }

  lemma VecStrOneLine(p: Point, fmt: NumberFormat)
    requires OneLineFormat(fmt)
    ensures NoLineBreak(VecStr(p, fmt))
  {
    assert NoLineBreak(fmt(p.x)) && NoLineBreak(fmt(p.y)) && NoLineBreak(fmt(p.z));
    assert NoLineBreak("cq.Vector(") && NoLineBreak(", ") && NoLineBreak(")");
    NoLineBreakConcat("cq.Vector(", fmt(p.x));
    NoLineBreakConcat("cq.Vector(" + fmt(p.x), ", ");
    NoLineBreakConcat("cq.Vector(" + fmt(p.x) + ", ", fmt(p.y));
    NoLineBreakConcat("cq.Vector(" + fmt(p.x) + ", " + fmt(p.y), ", ");
    NoLineBreakConcat("cq.Vector(" + fmt(p.x) + ", " + fmt(p.y) + ", ", fmt(p.z));
    NoLineBreakConcat("cq.Vector(" + fmt(p.x) + ", " + fmt(p.y) + ", " + fmt(p.z), ")");
  }

  /** With a one-line number format every line of a block is free of line
      breaks. */
  lemma CodeLinesOneLine(cmds: seq<Command>, fmt: NumberFormat)
    requires OneLineFormat(fmt)
    ensures forall i :: 0 <= i < |CodeLines(cmds, fmt)| ==> NoLineBreak(CodeLines(cmds, fmt)[i])
  {
    var lines := CodeLines(cmds, fmt);
    forall i | 0 <= i < |lines| ensures NoLineBreak(lines[i]) {
      LineOfBodyOneLine(cmds, fmt, lines, i);
    }
  }

  lemma LineOfBodyOneLine(cmds: seq<Command>, fmt: NumberFormat, lines: seq<string>, i: nat)
    requires OneLineFormat(fmt) && lines == CodeLines(cmds, fmt) && i < |lines|
    ensures NoLineBreak(lines[i])
  {
    if i == 0 || i == |lines| - 1 {
      HybridCodeFrame(cmds, fmt);
      assert NoLineBreak(Header) && NoLineBreak(Footer);
    } else {
      BodyOneLine(cmds, fmt);
      assert lines[i] == BodyLines(cmds, fmt)[i - 1];
    }
  }

  lemma {:induction false} BodyOneLine(cmds: seq<Command>, fmt: NumberFormat)
    requires OneLineFormat(fmt)
    ensures forall i :: 0 <= i < |BodyLines(cmds, fmt)| ==> NoLineBreak(BodyLines(cmds, fmt)[i])
    decreases |cmds|
  {
    if cmds != [] {
      BodyOneLine(DropLast(cmds), fmt);
      var c := Last(cmds);
      var mine := CommandLines(c, fmt);
      forall k | 0 <= k < |mine| ensures NoLineBreak(mine[k]) {
        CommandLineOneLine(c, fmt, k);
      }
    }
  }

  lemma CommandLineOneLine(c: Command, fmt: NumberFormat, k: nat)
    requires OneLineFormat(fmt) && k < |CommandLines(c, fmt)|
    ensures NoLineBreak(CommandLines(c, fmt)[k])
  {
    var pts := c.points;
    if c.kind == Polyline {
      PolylineLines(pts, fmt);
      var j := LongPairs(pts, |pts| - 1)[k];
      VecStrOneLine(pts[j], fmt);
      VecStrOneLine(pts[j + 1], fmt);
      LineTextOneLine(VecStr(pts[j], fmt), VecStr(pts[j + 1], fmt));
    } else {
      ListStrOneLine(pts, fmt);
      SplineTextOneLine(ListStr(pts, fmt));
    }
  }

  lemma LineTextOneLine(a: string, b: string)
    requires NoLineBreak(a) && NoLineBreak(b)
    ensures NoLineBreak("    cq.Edge.makeLine(" + a + ", " + b + "),")
  {
    assert NoLineBreak("    cq.Edge.makeLine(") && NoLineBreak(", ") && NoLineBreak("),");
    NoLineBreakConcat("    cq.Edge.makeLine(", a);
    NoLineBreakConcat("    cq.Edge.makeLine(" + a, ", ");
    NoLineBreakConcat("    cq.Edge.makeLine(" + a + ", ", b);
    NoLineBreakConcat("    cq.Edge.makeLine(" + a + ", " + b, "),");
  }

  lemma SplineTextOneLine(l: string)
    requires NoLineBreak(l)
    ensures NoLineBreak("    cq.Edge.makeSpline(" + l + "),")
  {
    assert NoLineBreak("    cq.Edge.makeSpline(") && NoLineBreak("),");
    NoLineBreakConcat("    cq.Edge.makeSpline(", l);
    NoLineBreakConcat("    cq.Edge.makeSpline(" + l, "),");
  }

  lemma ListStrOneLine(pts: seq<Point>, fmt: NumberFormat)
    requires OneLineFormat(fmt)
    ensures NoLineBreak(ListStr(pts, fmt))
  {
    var vs := seq(|pts|, i requires 0 <= i < |pts| => VecStr(pts[i], fmt));
    forall i | 0 <= i < |vs| ensures NoLineBreak(vs[i]) {
      VecStrOneLine(pts[i], fmt);
    }
    assert NoLineBreak(", ") && NoLineBreak("[") && NoLineBreak("]");
    JoinNoLineBreak(", ", vs);
    NoLineBreakConcat("[", Join(", ", vs));
    NoLineBreakConcat("[" + Join(", ", vs), "]");
  }

  /** Reading the generated text back line by line gives the code lines of
      every wire, in wire order, with one empty line between two wires: the
      output is one block per wire, each opening with the `assembleEdges`
      header and closing with `]))`. */
  lemma WireCodeLines(filename: string, wires: seq<Wire>, same: PointEq, fmt: NumberFormat)
    requires IsStepExtension(Extension(filename)) && wires != [] && OneLineFormat(fmt)
    ensures var blocks := seq(|wires|, i requires 0 <= i < |wires| => CodeLines(ChainCommands(wires[i].edges, same), fmt));
      && WireCode(filename, Success(wires), same, fmt).Success?
      && SplitLines(WireCode(filename, Success(wires), same, fmt).value) == Interleave(blocks)
      && (forall i :: 0 <= i < |blocks| ==> blocks[i][0] == Header && Last(blocks[i]) == Footer)
  {
    var blocks := seq(|wires|, i requires 0 <= i < |wires| => CodeLines(ChainCommands(wires[i].edges, same), fmt));
    forall i | 0 <= i < |blocks| ensures blocks[i][0] == Header && Last(blocks[i]) == Footer {
      HybridCodeFrame(ChainCommands(wires[i].edges, same), fmt);
    }
    assert WireBlocks(wires, same, fmt) == seq(|blocks|, i requires 0 <= i < |blocks| => Join("\n", blocks[i]));
    JoinBlocks(blocks);
    var all := Interleave(blocks);
    assert forall i :: 0 <= i < |all| ==> NoLineBreak(all[i]) by {
      InterleaveOneLine(blocks, wires, same, fmt);
    }
    InterleaveNonEmpty(blocks);
    assert Last(all) == Footer;
    SplitLinesJoin(all);
  }

  lemma {:induction false} InterleaveOneLine(blocks: seq<seq<string>>, wires: seq<Wire>, same: PointEq, fmt: NumberFormat)
    requires OneLineFormat(fmt) && |blocks| <= |wires|
    requires forall i :: 0 <= i < |blocks| ==> blocks[i] == CodeLines(ChainCommands(wires[i].edges, same), fmt)
    ensures forall i :: 0 <= i < |Interleave(blocks)| ==> NoLineBreak(Interleave(blocks)[i])
    decreases |blocks|
  {
    if blocks != [] {
      CodeLinesOneLine(ChainCommands(wires[|blocks| - 1].edges, same), fmt);
      if |blocks| > 1 {
        InterleaveOneLine(DropLast(blocks), wires, same, fmt);
        var a := Interleave(DropLast(blocks));
        var r := a + [""] + Last(blocks);
        forall i | 0 <= i < |r| ensures NoLineBreak(r[i]) {
          if i < |a| {
            assert r[i] == a[i];
          } else if i > |a| {
            assert r[i] == Last(blocks)[i - |a| - 1];
          }
        }
      }
    }
  }
}
