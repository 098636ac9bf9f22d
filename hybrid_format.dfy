/** The command formatter of `wire_walker.py` (`_format_hybrid_code`): the
    runs become one `assembleEdges` block of `makeLine` and `makeSpline`
    calls. */
module HybridFormat {
  import opened Common
  import opened Geometry
  import opened Text
  import opened ChainAnalysis

  const Header: string := "cq.Workplane(cq.Wire.assembleEdges(["
  const Footer: string := "]))"

  /** Polyline segments no longer than this are not emitted. */
  const MinSegmentLength: real := 0.00001

  /** `vec_str(v)`. */
  function VecStr(p: Point, fmt: NumberFormat): string
  {
    "cq.Vector(" + fmt(p.x) + ", " + fmt(p.y) + ", " + fmt(p.z) + ")"
  }

  /** `list_str(points)`. */
  function ListStr(pts: seq<Point>, fmt: NumberFormat): string
  {
    "[" + Join(", ", seq(|pts|, i requires 0 <= i < |pts| => VecStr(pts[i], fmt))) + "]"
  }

  function LineText(p1: Point, p2: Point, fmt: NumberFormat): string
  {
    "    cq.Edge.makeLine(" + VecStr(p1, fmt) + ", " + VecStr(p2, fmt) + "),"
  }

  function SplineText(pts: seq<Point>, fmt: NumberFormat): string
  {
    "    cq.Edge.makeSpline(" + ListStr(pts, fmt) + "),"
  }

  /** The `makeLine` lines of the first `n` neighbouring pairs of `pts`. */
  function SegmentLines(pts: seq<Point>, n: nat, fmt: NumberFormat): seq<string>
    requires n < |pts|
    decreases n
  {
    if n == 0 then []
    else
      SegmentLines(pts, n - 1, fmt)
      + (if LongerThan(pts[n - 1], pts[n], MinSegmentLength) then [LineText(pts[n - 1], pts[n], fmt)] else [])
  }

  /** The lines one command contributes. */
  function CommandLines(c: Command, fmt: NumberFormat): seq<string>
  {
    if |c.points| < 2 then []
    else match c.kind
      case Polyline => SegmentLines(c.points, |c.points| - 1, fmt)
      case Spline => [SplineText(c.points, fmt)]
  }

  function BodyLines(cmds: seq<Command>, fmt: NumberFormat): seq<string>
    decreases |cmds|
  {
    if cmds == [] then [] else BodyLines(DropLast(cmds), fmt) + CommandLines(Last(cmds), fmt)
  }

  /** `code_lines` when the formatter returns. */
  function CodeLines(cmds: seq<Command>, fmt: NumberFormat): seq<string>
  {
    [Header] + BodyLines(cmds, fmt) + [Footer]
  }

  /** What `_format_hybrid_code(commands)` returns. */
  function HybridCode(cmds: seq<Command>, fmt: NumberFormat): string
  {
    Join("\n", CodeLines(cmds, fmt))
  }

  /** `_format_hybrid_code(commands)`. */
  method FormatHybridCode(commands: seq<Command>, fmt: NumberFormat) returns (code: string)
    ensures code == HybridCode(commands, fmt)
  {
    var codeLines := [Header];
    for i := 0 to |commands|
      invariant codeLines == [Header] + BodyLines(commands[..i], fmt)
    {
      assert DropLast(commands[..i + 1]) == commands[..i] && Last(commands[..i + 1]) == commands[i];
      var points := commands[i].points;
      if |points| < 2 {
        assert codeLines == [Header] + BodyLines(commands[..i + 1], fmt);
        continue;
      }
      if commands[i].kind == Polyline {
        ghost var before := codeLines;
        for j := 0 to |points| - 1
          invariant codeLines == before + SegmentLines(points, j, fmt)
        {
          var p1 := points[j];
          var p2 := points[j + 1];
          if LongerThan(p1, p2, MinSegmentLength) {
            codeLines := codeLines + [LineText(p1, p2, fmt)];
          }
        }
        assert CommandLines(commands[i], fmt) == SegmentLines(points, |points| - 1, fmt);
      } else {
        codeLines := codeLines + [SplineText(points, fmt)];
        assert CommandLines(commands[i], fmt) == [SplineText(points, fmt)];
      }
      assert BodyLines(commands[..i + 1], fmt) == BodyLines(commands[..i], fmt) + CommandLines(commands[i], fmt);
    }
    assert commands[..|commands|] == commands;
    codeLines := codeLines + [Footer];
    code := Join("\n", codeLines);
  }

  // ---------------------------------------------------------------------

  /** The block opens with the `assembleEdges([` header and closes with
      `]))`, as lines and as text. */
  lemma HybridCodeFrame(cmds: seq<Command>, fmt: NumberFormat)
    ensures CodeLines(cmds, fmt)[0] == Header && Last(CodeLines(cmds, fmt)) == Footer
    ensures Header <= HybridCode(cmds, fmt)
    ensures |Footer| <= |HybridCode(cmds, fmt)|
    ensures HybridCode(cmds, fmt)[|HybridCode(cmds, fmt)| - |Footer|..] == Footer
  {
    JoinEnds("\n", CodeLines(cmds, fmt));
  }

  /** The indices of the neighbouring pairs among the first `n` that are
      longer than the minimum segment length, in increasing order. */
  ghost function LongPairs(pts: seq<Point>, n: nat): (js: seq<nat>)
    requires n < |pts|
    ensures |js| <= n
    ensures forall k :: 0 <= k < |js| ==> js[k] < n
    decreases n
  {
    if n == 0 then []
    else LongPairs(pts, n - 1) + (if LongerThan(pts[n - 1], pts[n], MinSegmentLength) then [n - 1] else [])
  }

  /** `LongPairs` lists the long pairs, each once and in increasing order. */
  lemma {:induction false} LongPairsExact(pts: seq<Point>, n: nat)
    requires n < |pts|
    ensures var js := LongPairs(pts, n);
      && (forall k, l :: 0 <= k < l < |js| ==> js[k] < js[l])
      && (forall j :: 0 <= j < n ==> (j in js <==> LongerThan(pts[j], pts[j + 1], MinSegmentLength)))
    decreases n
  {
    if n > 0 {
      LongPairsExact(pts, n - 1);
      var prev := LongPairs(pts, n - 1);
      if LongerThan(pts[n - 1], pts[n], MinSegmentLength) {
        assert LongPairs(pts, n) == prev + [n - 1];
      } else {
        assert LongPairs(pts, n) == prev;
      }
    }
  }

  lemma {:induction false} SegmentLinesAreLongPairs(pts: seq<Point>, n: nat, fmt: NumberFormat)
    requires n < |pts|
    ensures |SegmentLines(pts, n, fmt)| == |LongPairs(pts, n)|
    ensures forall k :: 0 <= k < |LongPairs(pts, n)| ==>
      SegmentLines(pts, n, fmt)[k] == LineText(pts[LongPairs(pts, n)[k]], pts[LongPairs(pts, n)[k] + 1], fmt)
    decreases n
  {
    if n > 0 {
      SegmentLinesAreLongPairs(pts, n - 1, fmt);
      var prev, pj := SegmentLines(pts, n - 1, fmt), LongPairs(pts, n - 1);
      if LongerThan(pts[n - 1], pts[n], MinSegmentLength) {
        assert SegmentLines(pts, n, fmt) == prev + [LineText(pts[n - 1], pts[n], fmt)];
        assert LongPairs(pts, n) == pj + [n - 1];
      } else {
        assert SegmentLines(pts, n, fmt) == prev;
        assert LongPairs(pts, n) == pj;
      }
    }
  }

  /** A polyline of k >= 2 points emits one `makeLine` per neighbouring pair
      longer than the minimum segment length, in order, so at most k - 1. */
  lemma PolylineLines(pts: seq<Point>, fmt: NumberFormat)
    requires |pts| >= 2
    ensures var lines, js := CommandLines(Command(Polyline, pts), fmt), LongPairs(pts, |pts| - 1);
      && |lines| == |js| <= |pts| - 1
      && (forall j :: 0 <= j < |pts| - 1 ==> (j in js <==> LongerThan(pts[j], pts[j + 1], MinSegmentLength)))
      && (forall k :: 0 <= k < |js| ==> lines[k] == LineText(pts[js[k]], pts[js[k] + 1], fmt))
  {
    assert CommandLines(Command(Polyline, pts), fmt) == SegmentLines(pts, |pts| - 1, fmt);
    SegmentLinesAreLongPairs(pts, |pts| - 1, fmt);
    LongPairsExact(pts, |pts| - 1);
  }

  /** When every segment is long enough, a k-point polyline emits exactly
      k - 1 lines, the j-th joining points j and j + 1. */
  lemma {:induction false} PolylineAllLong(pts: seq<Point>, n: nat, fmt: NumberFormat)
    requires n < |pts|
    requires forall j :: 0 <= j < n ==> LongerThan(pts[j], pts[j + 1], MinSegmentLength)
    ensures |SegmentLines(pts, n, fmt)| == n
    ensures forall j :: 0 <= j < n ==> SegmentLines(pts, n, fmt)[j] == LineText(pts[j], pts[j + 1], fmt)
    decreases n
  {
    if n > 0 {
      PolylineAllLong(pts, n - 1, fmt);
    }
  }

  lemma {:induction false} BodyLinesAppend(a: seq<Command>, b: seq<Command>, fmt: NumberFormat)
    ensures BodyLines(a + b, fmt) == BodyLines(a, fmt) + BodyLines(b, fmt)
    decreases |b|
  {
    if b == [] {
      assert a + b == a;
    } else {
      assert DropLast(a + b) == a + DropLast(b) && Last(a + b) == Last(b);
      BodyLinesAppend(a, DropLast(b), fmt);
    }
  }

  /** A command with fewer than two points emits nothing, wherever it stands. */
  lemma ShortCommandSilent(a: seq<Command>, c: Command, b: seq<Command>, fmt: NumberFormat)
    requires |c.points| < 2
    ensures BodyLines(a + [c] + b, fmt) == BodyLines(a + b, fmt)
  {
    BodyLinesAppend(a + [c], b, fmt);
    BodyLinesAppend(a, b, fmt);
    assert DropLast(a + [c]) == a && Last(a + [c]) == c;
  }

  predicate IsSplineRun(c: Command)
  {
    c.kind == Spline && |c.points| >= 2
  }

  /** Spline runs emit exactly one `makeSpline` line each, in order, carrying
      all of their points. */
  lemma {:induction false} SplineRunsOneLineEach(cmds: seq<Command>, fmt: NumberFormat)
    requires forall i :: 0 <= i < |cmds| ==> IsSplineRun(cmds[i])
    ensures |BodyLines(cmds, fmt)| == |cmds|
    ensures forall i :: 0 <= i < |cmds| ==> BodyLines(cmds, fmt)[i] == SplineText(cmds[i].points, fmt)
    decreases |cmds|
  {
    if cmds != [] {
      SplineRunsOneLineEach(DropLast(cmds), fmt);
    }
  }

  /** Encoding and formatting a chain split at a break gives the lines of the
      part before followed by the lines of the part after. */
  lemma FormattedAtBreak(a: seq<Edge>, b: seq<Edge>, same: PointEq, fmt: NumberFormat)
    requires a != [] && b != [] && Breaks(Last(a), b[0])
    ensures BodyLines(ChainCommands(a + b, same), fmt)
         == BodyLines(ChainCommands(a, same), fmt) + BodyLines(ChainCommands(b, same), fmt)
  {
    SplitAtBreak(a, b, same);
    BodyLinesAppend(ChainCommands(a, same), ChainCommands(b, same), fmt);
  }

  /** The block of a single command is that command's lines. */
  lemma SingleCommandLines(c: Command, fmt: NumberFormat)
    ensures CodeLines([c], fmt) == [Header] + CommandLines(c, fmt) + [Footer]
  {
    assert DropLast([c]) == [] && Last([c]) == c;
    assert BodyLines([c], fmt) == BodyLines([], fmt) + CommandLines(c, fmt);
  }

  /** A polyline whose segments are all long enough is one block holding
      one `makeLine` per neighbouring pair, in order. */
  lemma PolylineBlock(pts: seq<Point>, fmt: NumberFormat)
    requires |pts| >= 2
    requires forall j :: 0 <= j < |pts| - 1 ==> LongerThan(pts[j], pts[j + 1], MinSegmentLength)
    ensures CodeLines([Command(Polyline, pts)], fmt)
         == [Header] + seq(|pts| - 1, j requires 0 <= j < |pts| - 1 => LineText(pts[j], pts[j + 1], fmt)) + [Footer]
  {
    var c := Command(Polyline, pts);
    PolylineAllLong(pts, |pts| - 1, fmt);
    assert CommandLines(c, fmt) == seq(|pts| - 1, j requires 0 <= j < |pts| - 1 => LineText(pts[j], pts[j + 1], fmt));
    SingleCommandLines(c, fmt);
  }

  /** A connected chain of line edges with distinct neighbouring vertices
      and no segment below the minimum length becomes one block holding one
      `makeLine` per edge, in order, each joining that edge's vertices. */
  lemma LineChainFormatsAsLines(edges: seq<Edge>, same: PointEq, fmt: NumberFormat)
    requires ConnectedLines(edges) && NoRepeats(Vertices(edges), same)
    requires forall j :: 0 <= j < |edges| ==> LongerThan(Vertices(edges)[j], Vertices(edges)[j + 1], MinSegmentLength)
    ensures var vs := Vertices(edges);
      CodeLines(ChainCommands(edges, same), fmt)
      == [Header] + seq(|edges|, j requires 0 <= j < |edges| => LineText(vs[j], vs[j + 1], fmt)) + [Footer]
  {
    LineChainIsOnePolyline(edges, same);
    PolylineBlock(Vertices(edges), fmt);
  }

  /** A single line edge shorter than the minimum segment length emits no
      `makeLine`: the block is the empty `assembleEdges` call. */
  lemma DegenerateEdgeScenario(e: Edge, same: PointEq, fmt: NumberFormat)
    requires IsLine(e) && !LongerThan(e.start, e.end, MinSegmentLength)
    ensures HybridCode(ChainCommands([e], same), fmt) == Header + "\n" + Footer
  {
    assert ConnectedLines([e]);
    ConnectedLinesAccumulate([e], same);
    var cmds := ChainCommands([e], same);
    var clean := Dedup([e.start, e.end], same);
    assert cmds == if |clean| > 1 then [Command(Polyline, clean)] else [];
    assert BodyLines(cmds, fmt) == [] by {
      if cmds != [] {
        assert DropLast(cmds) == [];
        assert |clean| == 2 && clean[0] == e.start by {
          DedupKeepsFirst([e.start, e.end], same);
        }
        assert clean[1] == e.end by {
          assert DropLast([e.start, e.end]) == [e.start];
        }
      }
    }
    assert CodeLines(cmds, fmt) == [Header, Footer];
    assert DropLast([Header, Footer]) == [Header];
    assert Join("\n", [Header, Footer]) == Join("\n", [Header]) + "\n" + Footer;
  }
}
