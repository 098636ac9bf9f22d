/** The captured-points list of `pathfinder.py`: capturing vertices with a
    duplicate check against the last point, removing selected rows, clearing,
    the preview guard and the code inserted into the editor. */
module Pathfinder {
  import opened Common
  import opened Geometry
  import opened Text
  import opened Viewer

  /** A captured vertex closer than this to the last point is a duplicate. */
  const DuplicateTolerance: real := 0.00001

  /** The list-widget entry of a point, `f"({x:.2f}, {y:.2f}, {z:.2f})"`. */
  function PointLabel(p: Point, fmt: NumberFormat): string
  {
    "(" + fmt(p.x) + ", " + fmt(p.y) + ", " + fmt(p.z) + ")"
  }

  /** One selected interactive object: `NoShape` when it has no `Shape()`,
      otherwise its shape's type, the centres of its vertices and its own
      centre. */
  datatype Selected = NoShape | Picked(shapeType: string, vertexCenters: seq<Point>, center: Point)

  /** The centres `capture_point` considers for one object: those of its
      vertices, or its own centre when it has no vertices and is a vertex. */
  function CandidateVertices(obj: Selected): seq<Point>
  {
    match obj
    case NoShape => []
    case Picked(t, vs, c) => if vs == [] && t == "Vertex" then [c] else vs
  }

  // ---------------------------------------------------------------------
  // Capturing.

  /** One vertex: appended unless it lies within the tolerance of the point
      that is last at that moment. */
  function CaptureOne(points: seq<Point>, v: Point): seq<Point>
  {
    if points != [] && CloserThan(v, Last(points), DuplicateTolerance) then points else points + [v]
  }

  /** The vertices `vs`, one after the other. */
  function CaptureAll(points: seq<Point>, vs: seq<Point>): seq<Point>
    decreases |vs|
  {
    if vs == [] then points else CaptureOne(CaptureAll(points, DropLast(vs)), Last(vs))
  }

  /** The points after capturing from every selected object, in order. */
  function CapturedFrom(points: seq<Point>, objs: seq<Selected>): seq<Point>
    decreases |objs|
  {
    if objs == [] then points else CaptureAll(CapturedFrom(points, DropLast(objs)), CandidateVertices(Last(objs)))
  }

  /** Each of the points from index `from` on lies at least the tolerance
      away from the point before it. */
  predicate SpacedFrom(points: seq<Point>, from: nat)
  {
    forall i :: from <= i < |points| && 0 < i ==> !CloserThan(points[i], points[i - 1], DuplicateTolerance)
  }

  /** One vertex is either skipped or appended, and it is appended only
      when the list is empty or it is far enough from the last point. */
  lemma CaptureOneCases(points: seq<Point>, v: Point)
    ensures var r := CaptureOne(points, v);
      || r == points
      || (r == points + [v] && (points == [] || !CloserThan(v, Last(points), DuplicateTolerance)))
  {
  }

  /** Capturing keeps the earlier points as they were and appends some of
      the vertices, in their order. */
  lemma {:induction false} CaptureAllAppends(points: seq<Point>, vs: seq<Point>)
    ensures var r := CaptureAll(points, vs);
      points <= r && IsSubsequence(r[|points|..], vs)
    decreases |vs|
  {
    var r := CaptureAll(points, vs);
    if vs == [] {
      assert r[|points|..] == [];
    } else {
      var m := CaptureAll(points, DropLast(vs));
      CaptureAllAppends(points, DropLast(vs));
      CaptureOneCases(m, Last(vs));
      var tail := m[|points|..];
      assert DropLast(vs) + [Last(vs)] == vs;
      if r == m {
        SubsequenceExtend(tail, DropLast(vs), [Last(vs)]);
      } else {
        assert r[|points|..] == tail + [Last(vs)];
        SubsequenceRefl([Last(vs)]);
        SubsequenceConcat(tail, DropLast(vs), [Last(vs)], [Last(vs)]);
      }
    }
  }

  /** Each appended point lies at least the tolerance away from the point
      before it, the last point present when it was captured. */
  lemma {:induction false} CaptureAllSpaced(points: seq<Point>, vs: seq<Point>)
    ensures SpacedFrom(CaptureAll(points, vs), |points|)
    decreases |vs|
  {
    if vs != [] {
      var m := CaptureAll(points, DropLast(vs));
      CaptureAllSpaced(points, DropLast(vs));
      CaptureOneCases(m, Last(vs));
      var r := CaptureAll(points, vs);
      forall i | |points| <= i < |r| && 0 < i
        ensures !CloserThan(r[i], r[i - 1], DuplicateTolerance)
      {
        if i < |m| {
          assert r[i] == m[i] && r[i - 1] == m[i - 1];
        }
      }
    }
  }

  /** The same vertex twice in one capture is taken at most once: the last
      point is looked at again before every vertex. */
  lemma RepeatedVertexOnce(points: seq<Point>, v: Point)
    ensures CaptureAll(points, [v, v]) == CaptureAll(points, [v])
  {
    assert DropLast([v, v]) == [v] && DropLast([v]) == [];
    var once := CaptureOne(points, v);
    assert once != [] && CloserThan(v, Last(once), DuplicateTolerance);
  }

  /** Starting from an empty list, a capture that sees any vertex appends
      at least one point, so the warning is not shown. */
  lemma {:induction false} FirstCaptureAppends(objs: seq<Selected>)
    requires exists i :: 0 <= i < |objs| && CandidateVertices(objs[i]) != []
    ensures CapturedFrom([], objs) != []
    decreases |objs|
  {
    var d := DropLast(objs);
    var vs := CandidateVertices(Last(objs));
    CaptureAllAppends(CapturedFrom([], d), vs);
    if vs != [] {
      CaptureNonEmpty(CapturedFrom([], d), vs);
    } else {
      var i :| 0 <= i < |objs| && CandidateVertices(objs[i]) != [];
      assert d[i] == objs[i];
      FirstCaptureAppends(d);
    }
  }

  lemma {:induction false} CaptureNonEmpty(points: seq<Point>, vs: seq<Point>)
    requires vs != []
    ensures CaptureAll(points, vs) != []
    decreases |vs|
  {
    if |vs| > 1 {
      CaptureNonEmpty(points, DropLast(vs));
    }
  }

  lemma {:induction false} CapturedFromExtends(points: seq<Point>, objs: seq<Selected>)
    ensures points <= CapturedFrom(points, objs)
    decreases |objs|
  {
    if objs != [] {
      CapturedFromExtends(points, DropLast(objs));
      CaptureAllAppends(CapturedFrom(points, DropLast(objs)), CandidateVertices(Last(objs)));
    }
  }

  // ---------------------------------------------------------------------
  // Removing rows.

  predicate Distinct(rows: seq<nat>)
  {
    forall i, j :: 0 <= i < j < |rows| ==> rows[i] != rows[j]
  }

  predicate StrictlyDescending(rows: seq<nat>)
  {
    forall i, j :: 0 <= i < j < |rows| ==> rows[i] > rows[j]
  }

  function InsertDescending(x: nat, s: seq<nat>): (r: seq<nat>)
    requires StrictlyDescending(s) && x !in s
    ensures StrictlyDescending(r)
    ensures |r| == |s| + 1
    ensures forall y :: y in r <==> y == x || y in s
    decreases |s|
  {
    if s == [] || x > s[0] then [x] + s
    else
      var t := InsertDescending(x, s[1..]);
      var r := [s[0]] + t;
      assert StrictlyDescending(r) by {
        forall i, j | 0 <= i < j < |r| ensures r[i] > r[j] {
          assert r[j] == t[j - 1] && r[j] in t;
          if i > 0 {
            assert r[i] == t[i - 1];
          }
        }
      }
      r
  }

  /** `sorted(rows, reverse=True)` for distinct rows. */
  function SortDescending(rows: seq<nat>): (r: seq<nat>)
    requires Distinct(rows)
    ensures StrictlyDescending(r)
    ensures |r| == |rows|
    ensures forall y :: y in r <==> y in rows
    decreases |rows|
  {
    if rows == [] then []
    else
      assert rows[0] !in rows[1..];
      InsertDescending(rows[0], SortDescending(rows[1..]))
  }

  function Elements(s: seq<nat>): set<nat>
  {
    set x | x in s
  }

  /** Popping in descending order: the next row was not popped yet and
      lies below every row popped before it. */
  lemma DescendingPrefix(sorted: seq<nat>, k: nat)
    requires StrictlyDescending(sorted) && k < |sorted|
    ensures sorted[k] !in Elements(sorted[..k])
    ensures forall x :: x in Elements(sorted[..k]) ==> x > sorted[k]
    ensures Elements(sorted[..k + 1]) == Elements(sorted[..k]) + {sorted[k]}
  {
    assert sorted[..k + 1] == sorted[..k] + [sorted[k]];
  }

  /** `s` without the elements at the indices in `rows`, in order. */
  function Without<T>(s: seq<T>, rows: set<nat>): seq<T>
    decreases |s|
  {
    if s == [] then []
    else Without(DropLast(s), rows) + (if |s| - 1 in rows then [] else [Last(s)])
  }

  /** The indices below `n` that are not in `rows`, in increasing order. */
  function KeptIndices(n: nat, rows: set<nat>): seq<nat>
    decreases n
  {
    if n == 0 then [] else KeptIndices(n - 1, rows) + (if n - 1 in rows then [] else [n - 1])
  }

  /** `KeptIndices` lists every index below `n` outside `rows`, each once,
      in increasing order. */
  lemma {:induction false} KeptIndicesSpec(n: nat, rows: set<nat>)
    ensures var ks := KeptIndices(n, rows);
      && (forall j :: 0 <= j < |ks| ==> ks[j] < n && ks[j] !in rows)
      && (forall i :: 0 <= i < n && i !in rows ==> i in ks)
      && (forall j, l :: 0 <= j < l < |ks| ==> ks[j] < ks[l])
    decreases n
  {
    if n > 0 {
      KeptIndicesSpec(n - 1, rows);
    }
  }

  /** What remains are exactly the elements at the indices not removed, in
      their original order. */
  lemma {:induction false} WithoutKeeps<T>(s: seq<T>, rows: set<nat>)
    ensures var w, ks := Without(s, rows), KeptIndices(|s|, rows);
      |w| == |ks| && forall j :: 0 <= j < |ks| ==> ks[j] < |s| && w[j] == s[ks[j]]
    decreases |s|
  {
    if s != [] {
      var d := DropLast(s);
      WithoutKeeps(d, rows);
      var w, ks := Without(d, rows), KeptIndices(|d|, rows);
      var t, kt := if |s| - 1 in rows then [] else [s[|s| - 1]], if |s| - 1 in rows then [] else [|s| - 1];
      assert Without(s, rows) == w + t;
      assert KeptIndices(|s|, rows) == ks + kt;
      forall j | 0 <= j < |ks + kt| ensures (ks + kt)[j] < |s| && (w + t)[j] == s[(ks + kt)[j]] {
        if j < |ks| {
          assert (ks + kt)[j] == ks[j] && (w + t)[j] == w[j] == d[ks[j]];
        }
      }
    }
  }

  lemma {:induction false} WithoutNothing<T>(s: seq<T>, rows: set<nat>)
    requires forall x :: x in rows ==> x >= |s|
    ensures Without(s, rows) == s
    decreases |s|
  {
    if s != [] {
      WithoutNothing(DropLast(s), rows);
    }
  }

  /** Removing index `r` after only indices above it have been removed
      removes the element now at index `r`, which is still `s[r]`. */
  lemma {:induction false} RemoveBelowRemoved<T>(s: seq<T>, rows: set<nat>, r: nat)
    requires r < |s| && r !in rows
    requires forall x :: x in rows ==> x > r
    ensures var w := Without(s, rows);
      && r < |w| && w[r] == s[r]
      && Without(s, rows + {r}) == w[..r] + w[r + 1..]
    decreases |s|
  {
    var d := DropLast(s);
    if |s| == r + 1 {
      WithoutNothing(s, rows);
      WithoutNothing(d, rows + {r});
      assert s[..r] + s[r + 1..] == d;
    } else {
      RemoveBelowRemoved(d, rows, r);
      var w := Without(d, rows);
      var t := if |s| - 1 in rows then [] else [Last(s)];
      assert Without(s, rows) == w + t;
      assert Without(s, rows + {r}) == Without(d, rows + {r}) + t;
      assert (w + t)[..r] == w[..r];
      assert (w + t)[r + 1..] == w[r + 1..] + t;
    }
  }

  /** Every list entry is the label of the point at the same index. */
  ghost predicate Labelled(points: seq<Point>, items: seq<string>, fmt: NumberFormat)
  {
    |items| == |points| && forall i :: 0 <= i < |points| ==> items[i] == PointLabel(points[i], fmt)
  }

  /** Popping the same row from the points and from the list keeps every
      entry next to its point. */
  lemma RemoveKeepsLabels(points: seq<Point>, items: seq<string>, fmt: NumberFormat, row: nat)
    requires Labelled(points, items, fmt) && row < |points|
    ensures Labelled(points[..row] + points[row + 1..], items[..row] + items[row + 1..], fmt)
  {
    var p := points[..row] + points[row + 1..];
    var t := items[..row] + items[row + 1..];
    forall i | 0 <= i < |p| ensures t[i] == PointLabel(p[i], fmt) {
      if i < row {
        assert p[i] == points[i] && t[i] == items[i];
      } else {
        assert p[i] == points[i + 1] && t[i] == items[i + 1];
      }
    }
  }

  // ---------------------------------------------------------------------
  // The code inserted into the editor.

  function PointEntry(p: Point, fmt: NumberFormat): string
  {
    "    (" + fmt(p.x) + ", " + fmt(p.y) + ", " + fmt(p.z) + ")"
  }

  /** `pts_str`: the points as a bracketed list, one per line. */
  function PointsText(points: seq<Point>, fmt: NumberFormat): string
  {
    "[\n" + Join(",\n", seq(|points|, i requires 0 <= i < |points| => PointEntry(points[i], fmt))) + "\n]"
  }

  /** The text `insert_code` inserts, or `None` when there are no points;
      `mode` is the lower-cased name of the preview mode and `radius` the
      printed pipe radius. */
  function InsertedCode(points: seq<Point>, fmt: NumberFormat, mode: string, radius: string): (code: Option<string>)
    ensures code.None? <==> points == []
    ensures code.Some? ==> "\npath_points = [\n" <= code.value
  {
    if points == [] then None
    else
      var head := "\npath_points = " + PointsText(points, fmt);
      assert "\npath_points = [\n" <= head;
      Some(head
        + "\npath = cq.Workplane()." + mode + "(path_points)"
        + "\nprofile = cq.Wire.makeCircle(" + radius + ")"
        + "\npath_w = path.wire()"
        + "\np = path_w.positionAt(0)"
        + "\nxDir = path_w.tangentAt(0)"
        + "\nnormal = path_w.normalAt(0)"
        + "\nplane = cq.Plane(origin=p, xDir=xDir, normal=normal)"
        + "\nprofile = profile.move(plane.location)"
        + "\nsweep = cq.Workplane(profile).sweep(path)\n")
  }

  // ---------------------------------------------------------------------
  // The pane.

  /** The objects a preview puts on screen: the path wire, then the swept
      pipe when the pipe check box is ticked. Building them is foreign code,
      so they are given. */
  datatype Preview = Preview(wire: Displayed, pipe: Option<Displayed>)

  /** The preview objects in the order `update_preview` displays them. */
  function PreviewShapes(preview: Preview): (shapes: seq<Displayed>)
    ensures 1 <= |shapes| <= 2 && shapes[0] == preview.wire
    ensures |shapes| == 2 <==> preview.pipe.Some?
  {
    [preview.wire] + (match preview.pipe case Some(p) => [p] case None => [])
  }

  class PathfinderPane {
    /** `self.points`. */
    var points: seq<Point>
    /** The entries of the list widget. */
    var listItems: seq<string>
    /** `self.temp_shapes`: what the last preview put on screen. */
    var tempShapes: seq<Displayed>
    /** The `.2f` number format of the list entries. */
    const fmt: NumberFormat

    /** The list widget shows one entry per point, in the same order. */
    ghost predicate Valid()
      reads this
    {
      Labelled(points, listItems, fmt)
    }

    constructor (fmt: NumberFormat)
      ensures Valid() && this.fmt == fmt
      ensures points == [] && listItems == [] && tempShapes == []
    {
      this.fmt := fmt;
      points, listItems, tempShapes := [], [], [];
    }

    /** `update_preview()`. Without a context nothing happens. Otherwise
        each old preview object is removed with a redraw, and from two
        points on the wire, then the pipe if any, is displayed with a
        redraw and kept as the new preview. */
    method UpdatePreview(ctx: Context?, preview: Preview)
      modifies this, ctx
      ensures points == old(points) && listItems == old(listItems)
      ensures ctx == null ==> tempShapes == old(tempShapes)
      ensures ctx != null ==>
        && tempShapes == (if |points| < 2 then [] else PreviewShapes(preview))
        && ctx.removed == old(ctx.removed) + old(tempShapes)
        && ctx.displayed == old(ctx.displayed) + tempShapes
        && ctx.refreshes == old(ctx.refreshes) + |old(tempShapes)| + |tempShapes|
    {
      if ctx == null {
        return;
      }
      for i := 0 to |tempShapes|
        invariant tempShapes == old(tempShapes) && points == old(points) && listItems == old(listItems)
        invariant ctx.removed == old(ctx.removed) + tempShapes[..i]
        invariant ctx.displayed == old(ctx.displayed)
        invariant ctx.refreshes == old(ctx.refreshes) + i
      {
        ctx.Remove(tempShapes[i], true);
        assert tempShapes[..i + 1] == tempShapes[..i] + [tempShapes[i]];
      }
      assert tempShapes[..|tempShapes|] == tempShapes;
      tempShapes := [];
      if |points| < 2 {
        return;
      }
      ctx.Display(preview.wire, true);
      tempShapes := tempShapes + [preview.wire];
      if preview.pipe.Some? {
        ctx.Display(preview.pipe.value, true);
        tempShapes := tempShapes + [preview.pipe.value];
      }
    }

    /** The inner loop of `capture_point()`: each vertex is appended,
        together with its list entry, unless it is within the tolerance of
        the point that is last at that moment. */
    method AddVertices(vs: seq<Point>) returns (added: bool)
      requires Valid()
      modifies this
      ensures Valid()
      ensures points == CaptureAll(old(points), vs)
      ensures added <==> points != old(points)
      ensures tempShapes == old(tempShapes)
    {
      added := false;
      for j := 0 to |vs|
        invariant Valid()
        invariant points == CaptureAll(old(points), vs[..j])
        invariant old(points) <= points
        invariant added <==> |points| > |old(points)|
        invariant tempShapes == old(tempShapes)
      {
        assert DropLast(vs[..j + 1]) == vs[..j] && Last(vs[..j + 1]) == vs[j];
        var vec := vs[j];
        var isDuplicate := false;
        if points != [] {
          var last := points[|points| - 1];
          if CloserThan(vec, last, DuplicateTolerance) {
            isDuplicate := true;
          }
        }
        if !isDuplicate {
          points := points + [vec];
          listItems := listItems + [PointLabel(vec, fmt)];
          added := true;
        }
      }
      assert vs[..|vs|] == vs;
    }

    /** `capture_point()`: returns whether the warning is shown. A capture
        that appends nothing leaves the preview and the context as they
        were; one that appends rebuilds the preview. */
    method CapturePoint(ctx: Context?, selected: seq<Selected>, preview: Preview) returns (warned: bool)
      requires Valid()
      modifies this, ctx
      ensures Valid()
      ensures ctx == null ==> points == old(points) && tempShapes == old(tempShapes) && !warned
      ensures ctx != null ==> points == CapturedFrom(old(points), selected)
      ensures warned <==> ctx != null && points == old(points)
      ensures warned ==> tempShapes == old(tempShapes)
      ensures ctx != null && warned ==>
        && ctx.removed == old(ctx.removed) && ctx.displayed == old(ctx.displayed)
        && ctx.refreshes == old(ctx.refreshes)
      ensures ctx != null && !warned ==>
        && tempShapes == (if |points| < 2 then [] else PreviewShapes(preview))
        && ctx.removed == old(ctx.removed) + old(tempShapes)
        && ctx.displayed == old(ctx.displayed) + tempShapes
        && ctx.refreshes == old(ctx.refreshes) + |old(tempShapes)| + |tempShapes|
    {
      warned := false;
      if ctx == null {
        return;
      }
      var found := false;
      for i := 0 to |selected|
        invariant Valid()
        invariant points == CapturedFrom(old(points), selected[..i])
        invariant found <==> points != old(points)
        invariant tempShapes == old(tempShapes)
        invariant ctx.removed == old(ctx.removed) && ctx.displayed == old(ctx.displayed)
        invariant ctx.refreshes == old(ctx.refreshes)
      {
        assert DropLast(selected[..i + 1]) == selected[..i] && Last(selected[..i + 1]) == selected[i];
        CapturedFromExtends(old(points), selected[..i]);
        ghost var before := points;
        var added := AddVertices(CandidateVertices(selected[i]));
        CaptureAllAppends(before, CandidateVertices(selected[i]));
        found := found || added;
      }
      assert selected[..|selected|] == selected;
      if found {
        UpdatePreview(ctx, preview);
      } else {
        warned := true;
      }
    }

    /** `remove_point()`: `rows` are the selected rows of the list widget,
        distinct and in range. */
    method RemovePoint(rows: seq<nat>, ctx: Context?, preview: Preview)
      requires Valid()
      requires Distinct(rows) && forall i :: 0 <= i < |rows| ==> rows[i] < |points|
      modifies this, ctx
      ensures Valid()
      ensures points == Without(old(points), Elements(rows))
      ensures ctx == null ==> tempShapes == old(tempShapes)
      ensures ctx != null ==>
        && tempShapes == (if |points| < 2 then [] else PreviewShapes(preview))
        && ctx.removed == old(ctx.removed) + old(tempShapes)
        && ctx.displayed == old(ctx.displayed) + tempShapes
        && ctx.refreshes == old(ctx.refreshes) + |old(tempShapes)| + |tempShapes|
    {
      var sorted := SortDescending(rows);
      WithoutNothing(points, {});
      assert Elements(sorted[..0]) == {};
      for k := 0 to |sorted|
        invariant Valid()
        invariant points == Without(old(points), Elements(sorted[..k]))
        invariant tempShapes == old(tempShapes)
        invariant ctx != null ==> unchanged(ctx)
      {
        var row := sorted[k];
        assert row in rows;
        DescendingPrefix(sorted, k);
        RemoveBelowRemoved(old(points), Elements(sorted[..k]), row);
        RemoveKeepsLabels(points, listItems, fmt, row);
        points := points[..row] + points[row + 1..];
        listItems := listItems[..row] + listItems[row + 1..];
      }
      assert sorted[..|sorted|] == sorted;
      assert Elements(sorted) == Elements(rows);
      UpdatePreview(ctx, preview);
    }

    /** `clear_all()`: the preview objects are removed through the context
        when there is one, and the points, the list and the preview are
        emptied. */
    method ClearAll(ctx: Context?)
      modifies this, ctx
      ensures Valid()
      ensures points == [] && listItems == [] && tempShapes == []
      ensures ctx != null ==>
        && ctx.removed == old(ctx.removed) + old(tempShapes)
        && ctx.displayed == old(ctx.displayed)
        && ctx.refreshes == old(ctx.refreshes) + |old(tempShapes)|
    {
      for i := 0 to |tempShapes|
        invariant tempShapes == old(tempShapes)
        invariant ctx != null ==> ctx.removed == old(ctx.removed) + tempShapes[..i]
        invariant ctx != null ==> ctx.displayed == old(ctx.displayed)
        invariant ctx != null ==> ctx.refreshes == old(ctx.refreshes) + i
      {
        if ctx != null {
          ctx.Remove(tempShapes[i], true);
          assert tempShapes[..i + 1] == tempShapes[..i] + [tempShapes[i]];
        }
      }
      assert tempShapes[..|tempShapes|] == tempShapes;
      tempShapes := [];
      points := [];
      listItems := [];
    }
  }
}
