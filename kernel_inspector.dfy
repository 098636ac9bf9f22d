/** The selection rules of `kernel_inspector.py`: how a selected shape is
    unwrapped into the shapes to inspect, which shape a click on the tree
    highlights, and how the temporary highlight objects are cleared. */
module KernelInspector {
  import opened Common
  import opened Viewer

  /** A shape of the CAD kernel: an identity and its `ShapeType()`. */
  datatype Shape = Shape(id: nat, shapeType: string)

  /** What `Solids()`, `Faces()`, `Wires()`, `Edges()` and `Vertices()`
      return for a compound, in the kernel's order. */
  datatype SubShapes = SubShapes(solids: seq<Shape>, faces: seq<Shape>, wires: seq<Shape>,
                                 edges: seq<Shape>, vertices: seq<Shape>)

  /** The sub-shape lists in the order the rule consults them. */
  function Groups(sub: SubShapes): seq<seq<Shape>>
  {
    [sub.solids, sub.faces, sub.wires, sub.edges, sub.vertices]
  }

  /** The index of the first list holding exactly one shape, or `|gs|`. */
  function FirstSingleton(gs: seq<seq<Shape>>): (k: nat)
    ensures k <= |gs|
    ensures k < |gs| ==> |gs[k]| == 1
    ensures forall j :: 0 <= j < k ==> |gs[j]| != 1
    decreases |gs|
  {
    if gs == [] then 0
    else if |gs[0]| == 1 then 0
    else 1 + FirstSingleton(gs[1..])
  }

  /** The index of the first list holding more than one shape, or `|gs|`. */
  function FirstCrowded(gs: seq<seq<Shape>>): (k: nat)
    ensures k <= |gs|
    ensures k < |gs| ==> |gs[k]| > 1
    ensures forall j :: 0 <= j < k ==> |gs[j]| <= 1
    decreases |gs|
  {
    if gs == [] then 0
    else if |gs[0]| > 1 then 0
    else 1 + FirstCrowded(gs[1..])
  }

  /** What `_unwrap_and_append` adds to the selection: a shape other than a
      compound itself; for a compound, the single member of the first kind
      that has exactly one, else all members of the first kind that has
      several, else the compound itself. */
  function Unwrapped(shape: Shape, sub: SubShapes): seq<Shape>
  {
    if shape.shapeType != "Compound" then [shape]
    else
      var gs := Groups(sub);
      var s := FirstSingleton(gs);
      if s < |gs| then [gs[s][0]]
      else
        var m := FirstCrowded(gs);
        if m < |gs| then gs[m] else [shape]
  }

  /** `_unwrap_and_append(cq_shape, selection, ctx)`; `sub` is what the
      explorers return when the shape is a compound. */
  method UnwrapAndAppend(shape: Shape, sub: SubShapes, selection: seq<Shape>) returns (selection': seq<Shape>)
    ensures selection' == selection + Unwrapped(shape, sub)
    ensures |selection'| > |selection| && selection'[..|selection|] == selection
  {
    if shape.shapeType == "Compound" {
      var solids, faces, wires, edges, vertices := sub.solids, sub.faces, sub.wires, sub.edges, sub.vertices;
      if |solids| == 1 { SingletonWins(shape, sub, 0); selection' := selection + [solids[0]]; }
      else if |faces| == 1 { SingletonWins(shape, sub, 1); selection' := selection + [faces[0]]; }
      else if |wires| == 1 { SingletonWins(shape, sub, 2); selection' := selection + [wires[0]]; }
      else if |edges| == 1 { SingletonWins(shape, sub, 3); selection' := selection + [edges[0]]; }
      else if |vertices| == 1 { SingletonWins(shape, sub, 4); selection' := selection + [vertices[0]]; }
      else if |solids| > 1 { CrowdedKindAdded(shape, sub, 0); selection' := selection + solids; }
      else if |faces| > 1 { CrowdedKindAdded(shape, sub, 1); selection' := selection + faces; }
      else if |wires| > 1 { CrowdedKindAdded(shape, sub, 2); selection' := selection + wires; }
      else if |edges| > 1 { CrowdedKindAdded(shape, sub, 3); selection' := selection + edges; }
      else if |vertices| > 1 { CrowdedKindAdded(shape, sub, 4); selection' := selection + vertices; }
      else { EmptyCompoundKept(shape, sub); selection' := selection + [shape]; }
    } else {
      selection' := selection + [shape];
    }
  }

  /** A compound with a kind of exactly one member yields that member alone,
      however many members the kinds consulted before it have. */
  lemma SingletonWins(shape: Shape, sub: SubShapes, j: nat)
    requires shape.shapeType == "Compound"
    requires j < 5 && |Groups(sub)[j]| == 1
    requires forall i :: 0 <= i < j ==> |Groups(sub)[i]| != 1
    ensures Unwrapped(shape, sub) == [Groups(sub)[j][0]]
  {
    var k := FirstSingleton(Groups(sub));
    assert k == j;
  }

  /** Without a kind of exactly one member, the first kind of several members
      is added whole, in its order. */
  lemma CrowdedKindAdded(shape: Shape, sub: SubShapes, j: nat)
    requires shape.shapeType == "Compound"
    requires forall i :: 0 <= i < 5 ==> |Groups(sub)[i]| != 1
    requires j < 5 && |Groups(sub)[j]| > 1
    requires forall i :: 0 <= i < j ==> |Groups(sub)[i]| <= 1
    ensures Unwrapped(shape, sub) == Groups(sub)[j]
  {
    var gs := Groups(sub);
    var s := FirstSingleton(gs);
    assert s == 5;
    var k := FirstCrowded(gs);
    assert k == j;
  }

  /** A compound with no solids, faces, wires, edges or vertices is added
      itself, and so is every shape that is not a compound. */
  lemma EmptyCompoundKept(shape: Shape, sub: SubShapes)
    requires shape.shapeType != "Compound" || forall i :: 0 <= i < 5 ==> Groups(sub)[i] == []
    ensures Unwrapped(shape, sub) == [shape]
  {
    if shape.shapeType == "Compound" {
      var gs := Groups(sub);
      assert FirstSingleton(gs) == 5;
      assert FirstCrowded(gs) == 5;
    }
  }

  /** Every added shape is the shape itself or one of its sub-shapes. */
  lemma UnwrappedFromShape(shape: Shape, sub: SubShapes)
    ensures |Unwrapped(shape, sub)| >= 1
    ensures forall x :: x in Unwrapped(shape, sub) ==>
      x == shape || exists i :: 0 <= i < 5 && x in Groups(sub)[i]
  {
  }

  // ---------------------------------------------------------------------
  // `analyze`: the loop over the selected interactive objects.

  /** One selected interactive object: its shape with what the explorers
      return for it, or nothing when it has no (non-null) shape. */
  datatype SelectedObject = NoGeometry | WithGeometry(shape: Shape, sub: SubShapes)

  /** The selection `analyze` collects from the picked objects, in order. */
  function SelectionOf(picked: seq<SelectedObject>): seq<Shape>
    decreases |picked|
  {
    if picked == [] then []
    else
      var before := SelectionOf(DropLast(picked));
      match Last(picked)
      case NoGeometry => before
      case WithGeometry(s, sub) => before + Unwrapped(s, sub)
  }

  /** The selection loop of `analyze`. */
  method CollectSelection(picked: seq<SelectedObject>) returns (selection: seq<Shape>)
    ensures selection == SelectionOf(picked)
  {
    selection := [];
    for i := 0 to |picked|
      invariant selection == SelectionOf(picked[..i])
    {
      assert DropLast(picked[..i + 1]) == picked[..i] && Last(picked[..i + 1]) == picked[i];
      match picked[i] {
        case NoGeometry =>
        case WithGeometry(s, sub) =>
          selection := UnwrapAndAppend(s, sub, selection);
      }
    }
    assert picked[..|picked|] == picked;
  }

  function GeometryCount(picked: seq<SelectedObject>): nat
    decreases |picked|
  {
    if picked == [] then 0 else GeometryCount(DropLast(picked)) + (if Last(picked).WithGeometry? then 1 else 0)
  }

  /** Every object with geometry adds at least one shape, so the tree says
      "Nothing Selected" exactly when no picked object had geometry. */
  lemma {:induction false} SelectionCounts(picked: seq<SelectedObject>)
    ensures |SelectionOf(picked)| >= GeometryCount(picked)
    ensures SelectionOf(picked) == [] <==> forall i :: 0 <= i < |picked| ==> picked[i].NoGeometry?
    decreases |picked|
  {
    if picked != [] {
      var d := DropLast(picked);
      SelectionCounts(d);
      match Last(picked) {
        case NoGeometry =>
        case WithGeometry(s, sub) => UnwrappedFromShape(s, sub);
      }
      if forall i :: 0 <= i < |picked| ==> picked[i].NoGeometry? {
        assert forall i :: 0 <= i < |d| ==> d[i] == picked[i];
      }
      if SelectionOf(picked) == [] {
        assert Last(picked).NoGeometry?;
        forall i | 0 <= i < |picked| ensures picked[i].NoGeometry? {
          if i < |d| {
            assert d[i] == picked[i];
          }
        }
      }
    }
  }

  // ---------------------------------------------------------------------
  // Clicking the tree.

  /** A row of the tree as `on_tree_click` sees it: the shape stored under
      `Qt.UserRole`, and the parent's stored shape when the row has a
      parent. */
  datatype TreeItem = TreeItem(data: Option<Shape>, parent: Option<Option<Shape>>)

  /** The shape `on_tree_click` highlights: the row's own, else its
      parent's, else none. */
  function ClickTarget(item: TreeItem): Option<Shape>
  {
    if item.data.Some? then item.data
    else if item.parent.Some? && item.parent.value.Some? then item.parent.value
    else None
  }

  /** The top-level row `analyze` adds for a selected shape. */
  function ShapeRow(s: Shape): TreeItem
  {
    TreeItem(Some(s), None)
  }

  /** A property row `inspect_shape` adds under the row of a shape. */
  function PropertyRow(s: Shape): TreeItem
  {
    TreeItem(None, Some(Some(s)))
  }

  /** A top-level status row (`add_pair`). */
  const StatusRow: TreeItem := TreeItem(None, None)

  /** Clicking a shape's row or any of its property rows highlights that
      shape; clicking a status row highlights nothing. */
  lemma ClickHighlightsRowShape(s: Shape)
    ensures ClickTarget(ShapeRow(s)) == Some(s)
    ensures ClickTarget(PropertyRow(s)) == Some(s)
    ensures ClickTarget(StatusRow).None?
  {
  }

  // ---------------------------------------------------------------------
  // The inspector's temporary highlight objects.

  class Inspector {
    /** `self.temp_objects`: what the last highlight put on screen. */
    var tempObjects: seq<Displayed>

    constructor ()
      ensures tempObjects == []
    {
      tempObjects := [];
    }

    /** `clear_highlight(ctx)`: every temporary object is removed once, in
        order, without redrawing; the viewer is redrawn once afterwards
        only if there was something to remove; the list is emptied. */
    method ClearHighlight(ctx: Context)
      modifies this, ctx
      ensures tempObjects == []
      ensures ctx.removed == old(ctx.removed) + old(tempObjects)
      ensures ctx.displayed == old(ctx.displayed)
      ensures ctx.refreshes == old(ctx.refreshes) + (if old(tempObjects) != [] then 1 else 0)
    {
      for i := 0 to |tempObjects|
        invariant tempObjects == old(tempObjects)
        invariant ctx.removed == old(ctx.removed) + tempObjects[..i]
        invariant ctx.refreshes == old(ctx.refreshes)
        invariant ctx.displayed == old(ctx.displayed)
      {
        ctx.Remove(tempObjects[i], false);
        assert tempObjects[..i + 1] == tempObjects[..i] + [tempObjects[i]];
      }
      assert tempObjects[..|tempObjects|] == tempObjects;
      if tempObjects != [] {
        ctx.UpdateCurrentViewer();
      }
      tempObjects := [];
    }
  }
}
