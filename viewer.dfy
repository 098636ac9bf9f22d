/** The part of the OCP interactive context that the widgets drive: putting
    objects on screen, taking them off and refreshing the viewer. Rendering
    is not modelled; the context only records what it was asked to do. */
module Viewer {

  /** An object shown in the 3D view (an `AIS_Shape` or an `AIS_Point`). */
  datatype Displayed = Displayed(id: nat)

  class Context {
    /** Every object handed to `Display`, in call order. */
    var displayed: seq<Displayed>
    /** Every object handed to `Remove`, in call order. */
    var removed: seq<Displayed>
    /** How many redraws were requested: one per `Display` or `Remove` whose
        `update` flag is true, and one per `UpdateCurrentViewer`. */
    var refreshes: nat

    constructor ()
      ensures displayed == [] && removed == [] && refreshes == 0
    {
      displayed := [];
      removed := [];
      refreshes := 0;
    }

    /** `ctx.Display(obj, update)`: a true `update` redraws the viewer. */
    method Display(obj: Displayed, update: bool)
      modifies this
      ensures displayed == old(displayed) + [obj] && removed == old(removed)
      ensures refreshes == old(refreshes) + (if update then 1 else 0)
    {
      displayed := displayed + [obj];
      if update {
        refreshes := refreshes + 1;
      }
    }

    /** `ctx.Remove(obj, update)`: a true `update` redraws the viewer. */
    method Remove(obj: Displayed, update: bool)
      modifies this
      ensures removed == old(removed) + [obj] && displayed == old(displayed)
      ensures refreshes == old(refreshes) + (if update then 1 else 0)
    {
      removed := removed + [obj];
      if update {
        refreshes := refreshes + 1;
      }
    }

    /** `ctx.UpdateCurrentViewer()`. */
    method UpdateCurrentViewer()
      modifies this
      ensures displayed == old(displayed) && removed == old(removed)
      ensures refreshes == old(refreshes) + 1
    {
      refreshes := refreshes + 1;
    }
  }
}
