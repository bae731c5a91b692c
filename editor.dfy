/**
 * The interactive layer builder's edit engine: the label array, the
 * selection and its overlay mask, cut mode and the pointer, updated in place
 * by mouse and key handlers. Every method is proved to perform the matching
 * `EditSpec` action on the session the fields hold, and to keep the overlay
 * equal to the mask of the selected labels.
 */
module Editor {
  import opened Wrappers
  import opened LabelGrid
  import opened EditSpec

  class Engine {
    const h: nat
    const w: nat
    /** Whether colour data for clustering exists (`lab_image is not None`). */
    const hasColour: bool
    var labels: array<int>
    /** `sel_mask`: 255 where the pixel's label is selected, 0 elsewhere. */
    var selMask: array<int>
    var selected: set<int>
    var cutMode: bool
    var cutAnchor: Option<Point>
    /** `last_xy`: the last pointer position, clamped to the grid. */
    var cursor: Point

    /** The session the fields hold. */
    ghost function Model(): Session
      reads this, labels
    {
      Session(labels[..], selected, cutMode, cutAnchor, cursor)
    }

    /** Everything but the overlay's contents. */
    ghost predicate Framed()
      reads this, labels
    {
      && labels.Length == h * w && selMask.Length == h * w && labels != selMask
      && WellFormed(Model(), h, w)
    }

    ghost predicate Valid()
      reads this, labels, selMask
    {
      Framed() && selMask[..] == SelectionMask(labels[..], selected)
    }

    /** The session as the builder starts it: a copy of the grid, nothing selected. */
    constructor(h: nat, w: nat, hasColour: bool, initial: seq<int>)
      requires h > 0 && w > 0 && |initial| == h * w
      ensures Valid() && this.h == h && this.w == w && this.hasColour == hasColour
      ensures Model() == Session(initial, {}, false, None, (0, 0))
    {
      this.h := h;
      this.w := w;
      this.hasColour := hasColour;
      labels := new int[h * w](i requires 0 <= i < h * w => initial[i]);
      selMask := new int[h * w](i => 0);
      selected := {};
      cutMode := false;
      cutAnchor := None;
      cursor := (0, 0);
      new;
      assert labels[..] == initial;
    }

    /** A pointer event that is not an accepted left-button release. */
    method Hover(x: int, y: int)
      requires Valid()
      modifies this
      ensures Valid() && labels == old(labels) && selMask == old(selMask)
      ensures Model() == EditSpec.Hover(old(Model()), h, w, x, y)
    {
      cursor := (Clamp(x, w), Clamp(y, h));
    }

    /**
     * An accepted left-button release at (x, y). `comps` is the component
     * labelling of the anchor's region with the cut line removed; it is read
     * only when a cut is finished.
     */
    method Click(x: int, y: int, line: seq<bool>, comps: seq<nat>)
      requires Valid() && |line| == h * w && |comps| == h * w
      requires cutAnchor.Some? ==>
        ComponentLabelling(comps, CutRegion(labels[..], labels[Pixel(h, w, cutAnchor.value)], line))
      modifies this, labels, selMask
      ensures Valid() && labels == old(labels) && selMask == old(selMask)
      ensures Model() == EditSpec.Click(old(Model()), h, w, x, y, comps)
    {
      var p := (Clamp(x, w), Clamp(y, h));
      cursor := p;
      if !cutMode {
        ToggleAt(p);
      } else if cutAnchor.None? {
        cutAnchor := Some(p);
      } else {
        FinishCut(p, comps);
      }
    }

    /** Adds or removes the label at `p` and rewrites the overlay on its pixels. */
    method ToggleAt(p: Point)
      requires Valid() && InGrid(h, w, p)
      modifies this, selMask
      ensures Valid() && labels == old(labels) && selMask == old(selMask)
      ensures Model() == Toggle(old(Model()), h, w, p)
    {
      var l := labels[Pixel(h, w, p)];
      var v := if l in selected then 0 else 255;
      ToggleMask(labels[..], selected, l);
      selected := Toggled(selected, l);
      forall i | 0 <= i < selMask.Length && labels[i] == l {
        selMask[i] := v;
      }
      assert selMask[..] == Paint(old(selMask[..]), LabelMask(labels[..], l), v);
    }

    /** The second click of a cut, at `p2`. */
    method FinishCut(p2: Point, comps: seq<nat>)
      requires Valid() && cutAnchor.Some? && InGrid(h, w, p2) && |comps| == h * w
      modifies this, labels, selMask
      ensures Valid() && labels == old(labels) && selMask == old(selMask)
      ensures Model() == EditSpec.FinishCut(old(Model()), h, w, p2, comps)
    {
      var i1 := Pixel(h, w, cutAnchor.value);
      var i2 := Pixel(h, w, p2);
      if labels[i2] == labels[i1] {
        var num := MaxOf(comps);
        if num >= 2 {
          var compId := comps[i2];
          if compId == 0 {
            compId := 1;
          }
          var newId := MaxOf(labels[..]) + 1;
          MintLabel(ComponentMask(comps, compId), newId);
        }
      }
      cutAnchor := None;
      cutMode := false;
    }

    /**
     * `labels[pick] = newId` followed by the selection reset: the step that
     * ends every cut and split that changes the grid.
     */
    method MintLabel(pick: seq<bool>, newId: int)
      requires Valid() && |pick| == h * w
      modifies this, labels, selMask
      ensures Valid() && labels == old(labels) && selMask == old(selMask)
      ensures Model() == old(Model()).(labels := Paint(old(labels[..]), pick, newId), selected := {})
    {
      forall i | 0 <= i < labels.Length && pick[i] {
        labels[i] := newId;
      }
      assert labels[..] == Paint(old(labels[..]), pick, newId);
      ClearSelection();
    }

    /** Key `c`, and the reset every label change ends with. */
    method ClearSelection()
      requires Framed()
      modifies this, selMask
      ensures Valid() && labels == old(labels) && selMask == old(selMask)
      ensures Model() == Clear(old(Model()))
    {
      selected := {};
      forall i | 0 <= i < selMask.Length {
        selMask[i] := 0;
      }
      assert selMask[..] == SelectionMask(labels[..], {});
    }

    /** Key `b`. */
    method BeginCut()
      requires Valid()
      modifies this
      ensures Valid() && labels == old(labels) && selMask == old(selMask)
      ensures Model() == EditSpec.BeginCut(old(Model()), h, w)
    {
      cutMode := true;
      cutAnchor := None;
    }

    /**
     * Key `x`, at the pointer. `clusters` is the clustering of the region's
     * pixels in row-major order, or `None` when clustering failed.
     */
    method Split(clusters: Option<seq<int>>)
      requires Valid()
      requires clusters.Some? ==> |clusters.value| == Area(labels[..], labels[Pixel(h, w, cursor)])
      modifies this, labels, selMask
      ensures Valid() && labels == old(labels) && selMask == old(selMask)
      ensures Model() == EditSpec.Split(old(Model()), h, w, hasColour, clusters)
    {
      if !hasColour {
        return;
      }
      ghost var before := Model();
      var target := labels[Pixel(h, w, cursor)];
      var flat := labels[..];
      if Area(flat, target) < MinSplitArea || clusters.None? {
        return;
      }
      assert SplitApplies(before, h, w, hasColour, clusters);
      var newId := MaxOf(flat) + 1;
      MintLabel(ClusterMask(flat, target, clusters.value), newId);
    }

    /** Re-thresholding installs a new grid `g` and clears the selection. */
    method Replace(g: seq<int>)
      requires Valid() && |g| == h * w
      modifies this, selMask
      ensures Valid() && fresh(labels) && selMask == old(selMask)
      ensures Model() == EditSpec.Replace(old(Model()), h, w, g)
    {
      labels := new int[h * w](i requires 0 <= i < h * w => g[i]);
      assert labels[..] == g;
      ClearSelection();
    }
  }
}
