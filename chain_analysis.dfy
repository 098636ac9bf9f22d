/** The run encoder of `wire_walker.py` (`_analyze_chain` with its inner
    `flush`): edges, in the order the wire yields them, become typed runs of
    points, "polyline" for LINE edges and "spline" for every other edge. */
module ChainAnalysis {
  import opened Common
  import opened Geometry

  /** One edge of a wire: its geometric type tag, its end points and what the
      curve discretiser produced for it (`None` when it did not finish). */
  datatype Edge = Edge(geomType: string, start: Point, end: Point, discretised: Option<seq<Point>>)

  datatype SegType = Polyline | Spline

  /** One emitted run: its segment type and its cleaned point list. */
  datatype Command = Command(kind: SegType, points: seq<Point>)

  /** Two runs of the same type join when the gap is below this length. */
  const JoinTolerance: real := 0.0001

  predicate IsLine(e: Edge)
  {
    e.geomType == "LINE"
  }

  function SegOf(e: Edge): SegType
  {
    if IsLine(e) then Polyline else Spline
  }

  /** The points an edge contributes: both end points of a line, the
      discretiser's points of a curve, none when discretisation failed. */
  function EdgePoints(e: Edge): seq<Point>
  {
    if IsLine(e) then [e.start, e.end]
    else match e.discretised
      case Some(pts) => pts
      case None => []
  }

  /** No two neighbouring points are equal. */
  predicate NoRepeats(pts: seq<Point>, same: PointEq)
  {
    forall i :: 0 < i < |pts| ==> !same(pts[i - 1], pts[i])
  }

  /** The `clean` list of `flush`: a point is kept unless it equals the last
      point kept so far. */
  function Dedup(pts: seq<Point>, same: PointEq): (clean: seq<Point>)
    ensures |clean| <= |pts|
    ensures clean == [] <==> pts == []
    ensures NoRepeats(clean, same)
    decreases |pts|
  {
    if pts == [] then []
    else
      var clean := Dedup(DropLast(pts), same);
      if clean != [] && same(Last(clean), Last(pts)) then clean else clean + [Last(pts)]
  }

  lemma {:induction false} DedupSubsequence(pts: seq<Point>, same: PointEq)
    ensures IsSubsequence(Dedup(pts, same), pts)
    decreases |pts|
  {
    if pts != [] {
      var clean := Dedup(DropLast(pts), same);
      DedupSubsequence(DropLast(pts), same);
      assert DropLast(pts + []) == DropLast(pts);
      if !(clean != [] && same(Last(clean), Last(pts))) {
        var r := clean + [Last(pts)];
        assert Last(r) == Last(pts) && DropLast(r) == clean;
      }
    }
  }

  /** Deduplication never drops the first point. */
  lemma {:induction false} DedupKeepsFirst(pts: seq<Point>, same: PointEq)
    requires pts != []
    ensures Dedup(pts, same)[0] == pts[0]
    decreases |pts|
  {
    if |pts| > 1 {
      DedupKeepsFirst(DropLast(pts), same);
    }
  }

  /** A list without neighbouring repeats is left as it is. */
  lemma {:induction false} DedupNoRepeats(pts: seq<Point>, same: PointEq)
    requires NoRepeats(pts, same)
    ensures Dedup(pts, same) == pts
    decreases |pts|
  {
    if pts != [] {
      var d := DropLast(pts);
      assert NoRepeats(d, same) by {
        forall i | 0 < i < |d| ensures !same(d[i - 1], d[i]) {
          assert d[i - 1] == pts[i - 1] && d[i] == pts[i];
        }
      }
      DedupNoRepeats(d, same);
      if d != [] {
        assert Last(d) == pts[|pts| - 2];
      }
      assert d + [Last(pts)] == pts;
    }
  }

  /** The encoder's accumulator: the current segment type (`None` before the
      first edge), the current points and the commands emitted so far. */
  datatype ChainState = ChainState(kind: Option<SegType>, points: seq<Point>, commands: seq<Command>)

  const Start: ChainState := ChainState(None, [], [])

  /** Points are only ever accumulated under a segment type. */
  predicate Coherent(st: ChainState)
  {
    st.kind.None? ==> st.points == []
  }

  /** `flush()`: emit the cleaned accumulator when it keeps at least two
      points, and empty it. */
  function Flush(st: ChainState, same: PointEq): (r: ChainState)
    requires Coherent(st)
    ensures r.kind == st.kind && r.points == []
  {
    if st.points == [] then st
    else
      var clean := Dedup(st.points, same);
      ChainState(st.kind, [],
                 if |clean| > 1 then st.commands + [Command(st.kind.value, clean)] else st.commands)
  }

  /** The body of the loop over edges. */
  function Step(st: ChainState, e: Edge, same: PointEq): (r: ChainState)
    requires Coherent(st)
    ensures Coherent(r) && r.kind == Some(SegOf(e))
  {
    var seg := SegOf(e);
    var pts := EdgePoints(e);
    if Some(seg) != st.kind then
      var f := Flush(st, same);
      ChainState(Some(seg), pts, f.commands)
    else if st.points != [] && pts != [] then
      if CloserThan(Last(st.points), pts[0], JoinTolerance) then
        ChainState(st.kind, st.points + pts[1..], st.commands)
      else
        var f := Flush(st, same);
        ChainState(Some(seg), f.points + pts, f.commands)
    else
      ChainState(st.kind, st.points + pts, st.commands)
  }

  /** The accumulator after the loop has seen `edges`, starting from `st`. */
  function RunFrom(st: ChainState, edges: seq<Edge>, same: PointEq): (r: ChainState)
    requires Coherent(st)
    ensures Coherent(r)
    ensures edges != [] ==> r.kind == Some(SegOf(Last(edges)))
    decreases |edges|
  {
    if edges == [] then st
    else Step(RunFrom(st, DropLast(edges), same), Last(edges), same)
  }

  /** What `_analyze_chain(edges)` returns. */
  function ChainCommands(edges: seq<Edge>, same: PointEq): seq<Command>
  {
    if edges == [] then [] else Flush(RunFrom(Start, edges, same), same).commands
  }

  /** A flush whose cleaned run keeps at least two points appends that run,
      under the current type, after the commands already emitted. */
  lemma FlushEmits(st: ChainState, same: PointEq)
    requires Coherent(st) && |Dedup(st.points, same)| > 1
    ensures st.kind.Some?
    ensures Flush(st, same).commands == st.commands + [Command(st.kind.value, Dedup(st.points, same))]
  {
  }

  /** A flush whose cleaned run keeps fewer than two points emits nothing. */
  lemma FlushDropsShortRun(st: ChainState, same: PointEq)
    requires Coherent(st) && |Dedup(st.points, same)| <= 1
    ensures Flush(st, same).commands == st.commands
  {
  }

  /** An edge of the current type that starts within the join tolerance of
      the run's last point extends the run by all its points but the first;
      nothing is emitted. */
  lemma StepJoins(st: ChainState, e: Edge, same: PointEq)
    requires Coherent(st) && st.kind == Some(SegOf(e))
    requires st.points != [] && EdgePoints(e) != []
    requires CloserThan(Last(st.points), EdgePoints(e)[0], JoinTolerance)
    ensures Step(st, e, same) == ChainState(st.kind, st.points + EdgePoints(e)[1..], st.commands)
  {
  }

  /** An edge of the current type meeting an empty run, or contributing no
      points, extends the run by all its points; nothing is emitted. */
  lemma StepExtends(st: ChainState, e: Edge, same: PointEq)
    requires Coherent(st) && st.kind == Some(SegOf(e))
    requires st.points == [] || EdgePoints(e) == []
    ensures Step(st, e, same) == ChainState(st.kind, st.points + EdgePoints(e), st.commands)
  {
  }

  /** `flush()` on the accumulator held in the three variables. */
  method FlushRun(kind: Option<SegType>, points: seq<Point>, commands: seq<Command>, same: PointEq)
    returns (points': seq<Point>, commands': seq<Command>)
    requires kind.None? ==> points == []
    ensures ChainState(kind, points', commands') == Flush(ChainState(kind, points, commands), same)
  {
    points', commands' := points, commands;
    if points != [] {
      var clean: seq<Point> := [];
      for j := 0 to |points|
        invariant clean == Dedup(points[..j], same)
      {
        assert DropLast(points[..j + 1]) == points[..j] && Last(points[..j + 1]) == points[j];
        if clean == [] || !same(Last(clean), points[j]) {
          clean := clean + [points[j]];
        }
      }
      assert points[..|points|] == points;
      if |clean| > 1 {
        commands' := commands + [Command(kind.value, clean)];
      }
      points' := [];
    }
  }

  /** `_analyze_chain(edges)`. */
  method AnalyzeChain(edges: seq<Edge>, same: PointEq) returns (commands: seq<Command>)
    ensures commands == ChainCommands(edges, same)
    ensures edges == [] ==> commands == []
  {
    commands := [];
    if edges == [] {
      return;
    }
    var currentType: Option<SegType> := None;
    var currentPoints: seq<Point> := [];
    var i := 0;
    while i < |edges|
      invariant 0 <= i <= |edges|
      invariant ChainState(currentType, currentPoints, commands) == RunFrom(Start, edges[..i], same)
    {
      assert DropLast(edges[..i + 1]) == edges[..i] && Last(edges[..i + 1]) == edges[i];
      var edge := edges[i];
      var segType := SegOf(edge);
      var pts := EdgePoints(edge);
      if Some(segType) != currentType {
        currentPoints, commands := FlushRun(currentType, currentPoints, commands, same);
        currentType := Some(segType);
        currentPoints := pts;
      } else if currentPoints != [] && pts != [] {
        if CloserThan(Last(currentPoints), pts[0], JoinTolerance) {
          currentPoints := currentPoints + pts[1..];
        } else {
          currentPoints, commands := FlushRun(currentType, currentPoints, commands, same);
          currentType := Some(segType);
          currentPoints := currentPoints + pts;
        }
      } else {
        currentPoints := currentPoints + pts;
      }
      i := i + 1;
    }
    assert edges[..|edges|] == edges;
    currentPoints, commands := FlushRun(currentType, currentPoints, commands, same);
  }

  // ---------------------------------------------------------------------
  // Every emitted command has at least two points and no repeated neighbours.

  predicate WellFormed(c: Command, same: PointEq)
  {
    |c.points| >= 2 && NoRepeats(c.points, same)
  }

  ghost predicate AllWellFormed(cmds: seq<Command>, same: PointEq)
  {
    forall c :: c in cmds ==> WellFormed(c, same)
  }

  lemma {:induction false} RunFromWellFormed(st: ChainState, edges: seq<Edge>, same: PointEq)
    requires Coherent(st) && AllWellFormed(st.commands, same)
    ensures AllWellFormed(RunFrom(st, edges, same).commands, same)
    decreases |edges|
  {
    if edges != [] {
      RunFromWellFormed(st, DropLast(edges), same);
    }
  }

  lemma ChainCommandsWellFormed(edges: seq<Edge>, same: PointEq)
    ensures forall c :: c in ChainCommands(edges, same) ==> |c.points| >= 2 && NoRepeats(c.points, same)
  {
    if edges != [] {
      RunFromWellFormed(Start, edges, same);
    }
  }

  // ---------------------------------------------------------------------
  // The commands carry the edges' points in edge order, some of them dropped.

  function Flatten(cmds: seq<Command>): seq<Point>
    decreases |cmds|
  {
    if cmds == [] then [] else Flatten(DropLast(cmds)) + Last(cmds).points
  }

  function AllPoints(edges: seq<Edge>): seq<Point>
    decreases |edges|
  {
    if edges == [] then [] else AllPoints(DropLast(edges)) + EdgePoints(Last(edges))
  }

  /** Every point the accumulator holds, emitted or pending. */
  function Carried(st: ChainState): seq<Point>
  {
    Flatten(st.commands) + st.points
  }

  lemma FlushCarried(st: ChainState, same: PointEq)
    requires Coherent(st)
    ensures IsSubsequence(Carried(Flush(st, same)), Carried(st))
  {
    var f := Flush(st, same);
    var flat := Flatten(st.commands);
    SubsequenceRefl(flat);
    if st.points == [] {
      SubsequenceRefl(Carried(st));
    } else {
      var clean := Dedup(st.points, same);
      assert Carried(f) == Flatten(f.commands) + [];
      if |clean| > 1 {
        var cmds := st.commands + [Command(st.kind.value, clean)];
        assert DropLast(cmds) == st.commands;
        assert Flatten(cmds) == flat + clean;
        assert f.commands == cmds;
        assert Carried(f) == flat + clean;
        DedupSubsequence(st.points, same);
        SubsequenceConcat(flat, flat, clean, st.points);
      } else {
        assert Carried(f) == flat;
        SubsequenceExtend(flat, flat, st.points);
      }
    }
  }

  /** A step carries the points of the flushed accumulator followed by the
      edge's points, or the accumulator's points followed by the edge's
      points, the first one dropped when the edge joins on. */
  lemma StepCarriedCases(st: ChainState, e: Edge, same: PointEq)
    requires Coherent(st)
    ensures var c, pts := Carried(Step(st, e, same)), EdgePoints(e);
      || c == Carried(Flush(st, same)) + pts
      || (pts != [] && c == Carried(st) + pts[1..])
      || c == Carried(st) + pts
  {
    var pts := EdgePoints(e);
    if Some(SegOf(e)) != st.kind
       || (st.points != [] && pts != [] && !CloserThan(Last(st.points), pts[0], JoinTolerance)) {
      assert Carried(Step(st, e, same)) == Carried(Flush(st, same)) + pts;
    }
  }

  lemma StepCarried(st: ChainState, e: Edge, same: PointEq)
    requires Coherent(st)
    ensures IsSubsequence(Carried(Step(st, e, same)), Carried(st) + EdgePoints(e))
  {
    var pts := EdgePoints(e);
    var c := Carried(st);
    var r := Carried(Step(st, e, same));
    StepCarriedCases(st, e, same);
    SubsequenceRefl(pts);
    if r == Carried(Flush(st, same)) + pts {
      FlushCarried(st, same);
      SubsequenceConcat(Carried(Flush(st, same)), c, pts, pts);
    } else if pts != [] && r == c + pts[1..] {
      SubsequenceRefl(c);
      SubsequenceTail(pts);
      SubsequenceConcat(c, c, pts[1..], pts);
    } else {
      SubsequenceRefl(r);
    }
  }

  lemma {:induction false} RunFromCarried(st: ChainState, edges: seq<Edge>, same: PointEq)
    requires Coherent(st)
    ensures IsSubsequence(Carried(RunFrom(st, edges, same)), Carried(st) + AllPoints(edges))
    decreases |edges|
  {
    if edges == [] {
      assert Carried(st) + AllPoints(edges) == Carried(st);
      SubsequenceRefl(Carried(st));
    } else {
      var d := DropLast(edges);
      var mid := RunFrom(st, d, same);
      RunFromCarried(st, d, same);
      StepCarried(mid, Last(edges), same);
      SubsequenceWiden(Carried(Step(mid, Last(edges), same)), Carried(mid), Carried(st) + AllPoints(d), EdgePoints(Last(edges)));
      assert Carried(st) + AllPoints(d) + EdgePoints(Last(edges)) == Carried(st) + AllPoints(edges);
    }
  }

  /** Every point of the output comes from the edges, and the output keeps
      the order in which the edges supplied them. */
  lemma ChainKeepsEdgeOrder(edges: seq<Edge>, same: PointEq)
    ensures IsSubsequence(Flatten(ChainCommands(edges, same)), AllPoints(edges))
  {
    if edges != [] {
      var r := RunFrom(Start, edges, same);
      var f := Flush(r, same);
      RunFromCarried(Start, edges, same);
      FlushCarried(r, same);
      assert Carried(Start) + AllPoints(edges) == AllPoints(edges);
      assert Carried(f) == Flatten(f.commands);
      SubsequenceTrans(Carried(f), Carried(r), AllPoints(edges));
    }
  }

  // ---------------------------------------------------------------------
  // Each command holds points of one segment type only.

  ghost predicate FromEdgeOfKind(edges: seq<Edge>, k: SegType, p: Point)
  {
    exists j :: 0 <= j < |edges| && SegOf(edges[j]) == k && p in EdgePoints(edges[j])
  }

  ghost predicate KindPure(st: ChainState, edges: seq<Edge>)
  {
    && (forall c, p :: c in st.commands && p in c.points ==> FromEdgeOfKind(edges, c.kind, p))
    && (st.kind.Some? ==> forall p :: p in st.points ==> FromEdgeOfKind(edges, st.kind.value, p))
  }

  lemma FromEdgeOfKindGrows(edges: seq<Edge>, e: Edge, k: SegType, p: Point)
    requires FromEdgeOfKind(edges, k, p)
    ensures FromEdgeOfKind(edges + [e], k, p)
  {
    var j :| 0 <= j < |edges| && SegOf(edges[j]) == k && p in EdgePoints(edges[j]);
    assert (edges + [e])[j] == edges[j];
  }

  lemma StepKindPure(st: ChainState, edges: seq<Edge>, e: Edge, same: PointEq)
    requires Coherent(st) && KindPure(st, edges)
    ensures KindPure(Step(st, e, same), edges + [e])
  {
    var es := edges + [e];
    var r := Step(st, e, same);
    var pts := EdgePoints(e);
    assert es[|edges|] == e;
    forall p | p in pts ensures FromEdgeOfKind(es, SegOf(e), p) {
      assert SegOf(es[|edges|]) == SegOf(e) && p in EdgePoints(es[|edges|]);
    }
    forall c, p | c in st.commands && p in c.points ensures FromEdgeOfKind(es, c.kind, p) {
      FromEdgeOfKindGrows(edges, e, c.kind, p);
    }
    if st.kind.Some? {
      forall p | p in st.points ensures FromEdgeOfKind(es, st.kind.value, p) {
        FromEdgeOfKindGrows(edges, e, st.kind.value, p);
      }
    }
    var f := Flush(st, same);
    forall c, p | c in f.commands && p in c.points ensures FromEdgeOfKind(es, c.kind, p) {
      if c !in st.commands {
        DedupSubsequence(st.points, same);
        SubsequenceMembers(Dedup(st.points, same), st.points, p);
      }
    }
    forall p | p in r.points ensures FromEdgeOfKind(es, r.kind.value, p) {
      if p !in pts {
        assert p in st.points;
      }
    }
  }

  lemma {:induction false} RunFromKindPure(edges: seq<Edge>, same: PointEq)
    ensures KindPure(RunFrom(Start, edges, same), edges)
    decreases |edges|
  {
    if edges != [] {
      RunFromKindPure(DropLast(edges), same);
      StepKindPure(RunFrom(Start, DropLast(edges), same), DropLast(edges), Last(edges), same);
      assert DropLast(edges) + [Last(edges)] == edges;
    }
  }

  /** A polyline holds only points of LINE edges, a spline only points
      produced by discretising curves. */
  lemma ChainCommandsKindPure(edges: seq<Edge>, same: PointEq)
    ensures forall c, p :: c in ChainCommands(edges, same) && p in c.points ==>
      exists j :: 0 <= j < |edges| && SegOf(edges[j]) == c.kind && p in EdgePoints(edges[j])
  {
    if edges != [] {
      var r := RunFrom(Start, edges, same);
      RunFromKindPure(edges, same);
      var f := Flush(r, same);
      forall c, p | c in f.commands && p in c.points ensures FromEdgeOfKind(edges, c.kind, p) {
        if c !in r.commands {
          DedupSubsequence(r.points, same);
          SubsequenceMembers(Dedup(r.points, same), r.points, p);
        }
      }
    }
  }

  // ---------------------------------------------------------------------
  // A type change, or a gap between same-type edges, cuts the output in two.

  lemma {:induction false} RunFromAppend(st: ChainState, a: seq<Edge>, b: seq<Edge>, same: PointEq)
    requires Coherent(st)
    ensures RunFrom(st, a + b, same) == RunFrom(RunFrom(st, a, same), b, same)
    decreases |b|
  {
    if b == [] {
      assert a + b == a;
    } else {
      assert DropLast(a + b) == a + DropLast(b) && Last(a + b) == Last(b);
      RunFromAppend(st, a, DropLast(b), same);
    }
  }

  function WithoutCommands(st: ChainState): ChainState
  {
    st.(commands := [])
  }

  lemma FlushCommandsIndependent(st: ChainState, same: PointEq)
    requires Coherent(st)
    ensures Flush(st, same).commands == st.commands + Flush(WithoutCommands(st), same).commands
    ensures WithoutCommands(Flush(st, same)) == Flush(WithoutCommands(st), same).(commands := [])
  {
    assert st.commands + [] == st.commands;
  }

  lemma StepCommandsIndependent(st: ChainState, e: Edge, same: PointEq)
    requires Coherent(st)
    ensures Step(st, e, same).commands == st.commands + Step(WithoutCommands(st), e, same).commands
    ensures WithoutCommands(Step(st, e, same)) == WithoutCommands(Step(WithoutCommands(st), e, same))
  {
    FlushCommandsIndependent(st, same);
    assert st.commands + [] == st.commands;
  }

  /** The commands emitted earlier never influence what happens next. */
  lemma {:induction false} RunFromCommandsIndependent(st: ChainState, edges: seq<Edge>, same: PointEq)
    requires Coherent(st)
    ensures RunFrom(st, edges, same).commands == st.commands + RunFrom(WithoutCommands(st), edges, same).commands
    ensures WithoutCommands(RunFrom(st, edges, same)) == WithoutCommands(RunFrom(WithoutCommands(st), edges, same))
    decreases |edges|
  {
    if edges == [] {
      assert st.commands + [] == st.commands;
    } else {
      var d := DropLast(edges);
      var m := RunFrom(st, d, same);
      var m0 := RunFrom(WithoutCommands(st), d, same);
      RunFromCommandsIndependent(st, d, same);
      StepCommandsIndependent(m, Last(edges), same);
      StepCommandsIndependent(m0, Last(edges), same);
      assert WithoutCommands(m) == WithoutCommands(m0);
    }
  }

  /** Processing `next` right after `prev` flushes the accumulator: their
      types differ, or both carry points and `next` starts too far from where
      `prev` (with at least two points) ended. */
  predicate Breaks(prev: Edge, next: Edge)
  {
    || SegOf(prev) != SegOf(next)
    || (&& |EdgePoints(prev)| >= 2
        && EdgePoints(next) != []
        && !CloserThan(Last(EdgePoints(prev)), EdgePoints(next)[0], JoinTolerance))
  }

  lemma StepEndsWithEdge(st: ChainState, e: Edge, same: PointEq)
    requires Coherent(st) && |EdgePoints(e)| >= 2
    ensures Step(st, e, same).points != [] && Last(Step(st, e, same).points) == Last(EdgePoints(e))
  {
  }

  lemma StepAtBreak(st: ChainState, prev: Edge, e: Edge, same: PointEq)
    requires Coherent(st) && st.kind == Some(SegOf(prev))
    requires |EdgePoints(prev)| >= 2 ==> st.points != [] && Last(st.points) == Last(EdgePoints(prev))
    requires Breaks(prev, e)
    ensures Step(st, e, same) == ChainState(Some(SegOf(e)), EdgePoints(e), Flush(st, same).commands)
  {
  }

  /** The chain `a + b` is the chain `a`, one step for `b[0]`, then the rest
      of `b`; so is `b` alone, from the start state. */
  lemma RunAcrossSplit(a: seq<Edge>, b: seq<Edge>, same: PointEq)
    requires b != []
    ensures RunFrom(Start, a + b, same) == RunFrom(Step(RunFrom(Start, a, same), b[0], same), b[1..], same)
    ensures RunFrom(Start, b, same) == RunFrom(Step(Start, b[0], same), b[1..], same)
  {
    var rest := b[1..];
    assert b == [b[0]] + rest;
    assert a + b == (a + [b[0]]) + rest;
    RunFromAppend(Start, a + [b[0]], rest, same);
    RunFromAppend(Start, [b[0]], rest, same);
    assert DropLast(a + [b[0]]) == a && Last(a + [b[0]]) == b[0];
    assert DropLast([b[0]]) == [];
  }

  /** After a break the rest of the chain is encoded as if it began there,
      following what the flush emitted. */
  lemma RestartAfterBreak(s: ChainState, e: Edge, rest: seq<Edge>, same: PointEq)
    requires Coherent(s) && Step(s, e, same) == ChainState(Some(SegOf(e)), EdgePoints(e), Flush(s, same).commands)
    ensures Flush(RunFrom(Step(s, e, same), rest, same), same).commands
         == Flush(s, same).commands + Flush(RunFrom(Step(Start, e, same), rest, same), same).commands
  {
    var t0 := Step(Start, e, same);
    var t1 := Step(s, e, same);
    assert t0 == ChainState(Some(SegOf(e)), EdgePoints(e), []);
    assert WithoutCommands(t1) == t0;
    RunFromCommandsIndependent(t1, rest, same);
    var r1 := RunFrom(t1, rest, same);
    var r0 := RunFrom(t0, rest, same);
    FlushCommandsIndependent(r1, same);
    FlushCommandsIndependent(r0, same);
    assert WithoutCommands(r1) == WithoutCommands(r0);
  }

  /** Where one edge breaks from the next, the commands of the whole chain
      are the commands of the part before followed by those of the part after;
      in particular two same-type edges with a gap give two separate runs. */
  lemma SplitAtBreak(a: seq<Edge>, b: seq<Edge>, same: PointEq)
    requires a != [] && b != [] && Breaks(Last(a), b[0])
    ensures ChainCommands(a + b, same) == ChainCommands(a, same) + ChainCommands(b, same)
  {
    var s := RunFrom(Start, a, same);
    RunAcrossSplit(a, b, same);
    if |EdgePoints(Last(a))| >= 2 {
      StepEndsWithEdge(RunFrom(Start, DropLast(a), same), Last(a), same);
    }
    StepAtBreak(s, Last(a), b[0], same);
    RestartAfterBreak(s, b[0], b[1..], same);
  }

  /** A curve that yields no points, met while a spline run is open, is
      skipped: the rest of the chain is encoded as if it were absent. */
  lemma FailedCurveSkipped(a: seq<Edge>, bad: Edge, b: seq<Edge>, same: PointEq)
    requires a != [] && SegOf(Last(a)) == Spline
    requires !IsLine(bad) && EdgePoints(bad) == []
    ensures ChainCommands(a + [bad] + b, same) == ChainCommands(a + b, same)
  {
    var s := RunFrom(Start, a, same);
    RunFromAppend(Start, a + [bad], b, same);
    RunFromAppend(Start, a, b, same);
    assert DropLast(a + [bad]) == a && Last(a + [bad]) == bad;
    assert s.points + [] == s.points;
    assert RunFrom(Start, a + [bad], same) == s;
  }

  // ---------------------------------------------------------------------
  // A connected chain of N line edges is one polyline with N + 1 points.

  /** The start of the first edge followed by the end of every edge. */
  function Vertices(edges: seq<Edge>): (vs: seq<Point>)
    requires edges != []
    ensures |vs| == |edges| + 1 && Last(vs) == Last(edges).end
    decreases |edges|
  {
    if |edges| == 1 then [edges[0].start, edges[0].end]
    else Vertices(DropLast(edges)) + [Last(edges).end]
  }

  /** Every edge is a line and starts within the join tolerance of the end
      of the edge before it. */
  predicate ConnectedLines(edges: seq<Edge>)
  {
    && edges != []
    && (forall i :: 0 <= i < |edges| ==> IsLine(edges[i]))
    && (forall i :: 0 < i < |edges| ==> CloserThan(edges[i - 1].end, edges[i].start, JoinTolerance))
  }

  lemma {:induction false} ConnectedLinesAccumulate(edges: seq<Edge>, same: PointEq)
    requires ConnectedLines(edges)
    ensures RunFrom(Start, edges, same) == ChainState(Some(Polyline), Vertices(edges), [])
    decreases |edges|
  {
    if |edges| > 1 {
      var d := DropLast(edges);
      assert ConnectedLines(d) by {
        forall i | 0 < i < |d| ensures CloserThan(d[i - 1].end, d[i].start, JoinTolerance) {
          assert d[i - 1] == edges[i - 1] && d[i] == edges[i];
        }
      }
      ConnectedLinesAccumulate(d, same);
      assert edges[|edges| - 2] == Last(d);
      assert EdgePoints(Last(edges))[1..] == [Last(edges).end];
    } else {
      assert DropLast(edges) == [];
    }
  }

  /** The round-trip property of the run encoder: N connected line edges
      without repeated neighbouring vertices give exactly one polyline run
      holding all N + 1 vertices. */
  lemma LineChainIsOnePolyline(edges: seq<Edge>, same: PointEq)
    requires ConnectedLines(edges) && NoRepeats(Vertices(edges), same)
    ensures ChainCommands(edges, same) == [Command(Polyline, Vertices(edges))]
    ensures |Vertices(edges)| == |edges| + 1
  {
    ConnectedLinesAccumulate(edges, same);
    DedupNoRepeats(Vertices(edges), same);
  }

  // ---------------------------------------------------------------------
  // Connected runs of either type.

  /** Edges of type `k`, each with at least two points, each starting within
      the join tolerance of the last point of the edge before it. */
  predicate ConnectedRun(edges: seq<Edge>, k: SegType)
  {
    && (forall i :: 0 <= i < |edges| ==> SegOf(edges[i]) == k && |EdgePoints(edges[i])| >= 2)
    && (forall i :: 0 < i < |edges| ==>
          CloserThan(Last(EdgePoints(edges[i - 1])), EdgePoints(edges[i])[0], JoinTolerance))
  }

  /** The points a connected run accumulates: all points of its first edge,
      then those of each later edge without its first. */
  function RunPoints(edges: seq<Edge>): seq<Point>
    requires edges != []
    decreases |edges|
  {
    if |edges| == 1 then EdgePoints(edges[0])
    else
      var pts := EdgePoints(Last(edges));
      RunPoints(DropLast(edges)) + (if pts == [] then [] else pts[1..])
  }

  /** Dropping the last edge of a connected run leaves a connected run,
      which the last edge continues. */
  lemma ConnectedRunDropLast(edges: seq<Edge>, k: SegType)
    requires |edges| > 1 && ConnectedRun(edges, k)
    ensures ConnectedRun(DropLast(edges), k)
    ensures SegOf(Last(edges)) == k && |EdgePoints(Last(edges))| >= 2
    ensures CloserThan(Last(EdgePoints(Last(DropLast(edges)))), EdgePoints(Last(edges))[0], JoinTolerance)
  {
    var d := DropLast(edges);
    forall i | 0 <= i < |d| ensures SegOf(d[i]) == k && |EdgePoints(d[i])| >= 2 {
      assert d[i] == edges[i];
    }
    forall i | 0 < i < |d|
      ensures CloserThan(Last(EdgePoints(d[i - 1])), EdgePoints(d[i])[0], JoinTolerance)
    {
      assert d[i - 1] == edges[i - 1] && d[i] == edges[i];
    }
    assert Last(d) == edges[|edges| - 2] && Last(edges) == edges[|edges| - 1];
  }

  /** A connected run of same-type edges, lines or curves, is accumulated as
      one run of type `k` holding `RunPoints`, with nothing emitted yet. */
  lemma {:induction false} ConnectedRunAccumulates(edges: seq<Edge>, k: SegType, same: PointEq)
    requires edges != [] && ConnectedRun(edges, k)
    ensures RunFrom(Start, edges, same) == ChainState(Some(k), RunPoints(edges), [])
    ensures |RunPoints(edges)| >= 2 && Last(RunPoints(edges)) == Last(EdgePoints(Last(edges)))
    decreases |edges|
  {
    if |edges| == 1 {
      assert DropLast(edges) == [];
    } else {
      var d, e := DropLast(edges), Last(edges);
      ConnectedRunDropLast(edges, k);
      ConnectedRunAccumulates(d, k, same);
      var st := RunFrom(Start, d, same);
      var pts := EdgePoints(e);
      assert RunFrom(Start, edges, same) == Step(st, e, same);
      StepJoins(st, e, same);
      assert RunPoints(edges) == RunPoints(d) + pts[1..];
      assert Last(RunPoints(edges)) == Last(pts);
    }
  }

  /** A connected run encodes as a single command of its type holding the
      cleaned run, or as nothing when cleaning leaves fewer than two points. */
  lemma ConnectedRunEncodes(edges: seq<Edge>, k: SegType, same: PointEq)
    requires edges != [] && ConnectedRun(edges, k)
    ensures var clean := Dedup(RunPoints(edges), same);
      ChainCommands(edges, same) == (if |clean| > 1 then [Command(k, clean)] else [])
  {
    ConnectedRunAccumulates(edges, k, same);
    var st := RunFrom(Start, edges, same);
    if |Dedup(RunPoints(edges), same)| > 1 {
      FlushEmits(st, same);
    } else {
      FlushDropsShortRun(st, same);
    }
  }

  /** A connected run without repeated neighbouring points gives exactly one
      command of its type holding every accumulated point. */
  lemma ConnectedRunIsOneCommand(edges: seq<Edge>, k: SegType, same: PointEq)
    requires edges != [] && ConnectedRun(edges, k) && NoRepeats(RunPoints(edges), same)
    ensures ChainCommands(edges, same) == [Command(k, RunPoints(edges))]
  {
    ConnectedRunEncodes(edges, k, same);
    ConnectedRunAccumulates(edges, k, same);
    DedupNoRepeats(RunPoints(edges), same);
  }

  /** A single curve whose discretiser produced two or more points without
      neighbouring repeats becomes exactly one spline run of those points. */
  lemma OneCurveIsOneSpline(e: Edge, pts: seq<Point>, same: PointEq)
    requires !IsLine(e) && e.discretised == Some(pts)
    requires |pts| >= 2 && NoRepeats(pts, same)
    ensures ChainCommands([e], same) == [Command(Spline, pts)]
  {
    assert ConnectedRun([e], Spline);
    ConnectedRunIsOneCommand([e], Spline, same);
  }
}
