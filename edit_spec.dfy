/**
 * The interactive edit session as a value: the label grid, the set of
 * selected labels, cut mode with its first point, and the last pointer
 * position. Each user action is a function from session to session; the
 * `Editor.Engine` class performs the same actions in place on arrays.
 *
 * The selection mask is not part of the value: it is always the mask
 * `SelectionMask(labels, selected)`, which the engine keeps in its array.
 */
module EditSpec {
  import opened Wrappers
  import opened LabelGrid

  /** A pixel position (x, y). */
  type Point = (nat, nat)

  predicate InGrid(h: nat, w: nat, p: Point)
  {
    p.0 < w && p.1 < h
  }

  /** Flat index of pixel `p`: it lies inside the `h * w` cells. */
  function Pixel(h: nat, w: nat, p: Point): (i: nat)
    requires InGrid(h, w, p)
    ensures i < h * w
  {
    IndexInRange(h, w, p.0, p.1);
    Index(w, p.0, p.1)
  }

  /** `max(0, min(n - 1, v))`: a mouse coordinate pulled into 0..n-1. */
  function Clamp(v: int, n: nat): (c: nat)
    requires n > 0
    ensures c < n
    ensures 0 <= v < n ==> c == v
    ensures v < 0 ==> c == 0
    ensures v >= n ==> c == n - 1
  {
    if v < 0 then 0 else if v >= n then n - 1 else v
  }

  datatype Session = Session(
    labels: seq<int>,
    selected: set<int>,
    cutMode: bool,
    cutAnchor: Option<Point>,
    cursor: Point)

  /**
   * The shape every session keeps: a grid of `h * w` labels, a pointer inside
   * it, and a first cut point only while cut mode is on.
   */
  predicate WellFormed(s: Session, h: nat, w: nat)
  {
    && h > 0 && w > 0
    && |s.labels| == h * w
    && InGrid(h, w, s.cursor)
    && (s.cutAnchor.Some? ==> s.cutMode && InGrid(h, w, s.cutAnchor.value))
  }

  /**
   * The overlay `sel_mask`: 255 on every pixel whose label is selected, 0
   * elsewhere, so it always covers whole regions.
   */
  function SelectionMask(labels: seq<int>, selected: set<int>): (m: seq<int>)
    ensures |m| == |labels|
    ensures forall i :: 0 <= i < |labels| ==> (m[i] == 255 <==> labels[i] in selected) && (m[i] == 0 || m[i] == 255)
    ensures forall i, j :: 0 <= i < |labels| && 0 <= j < |labels| && labels[i] == labels[j] ==> m[i] == m[j]
  {
    seq(|labels|, i requires 0 <= i < |labels| => if labels[i] in selected then 255 else 0)
  }

  function Toggled(selected: set<int>, l: int): set<int>
  {
    if l in selected then selected - {l} else selected + {l}
  }

  /** Any pointer event: only the remembered position moves. */
  function Hover(s: Session, h: nat, w: nat, x: int, y: int): (r: Session)
    requires WellFormed(s, h, w)
    ensures WellFormed(r, h, w)
  {
    s.(cursor := (Clamp(x, w), Clamp(y, h)))
  }

  /** A click outside cut mode toggles the label under the pointer. */
  function Toggle(s: Session, h: nat, w: nat, p: Point): (r: Session)
    requires WellFormed(s, h, w) && InGrid(h, w, p)
    ensures WellFormed(r, h, w)
  {
    s.(selected := Toggled(s.selected, s.labels[Pixel(h, w, p)]))
  }

  /** The pixels of the label grid still in the target region once the line is removed. */
  function CutRegion(labels: seq<int>, target: int, line: seq<bool>): (region: seq<bool>)
    requires |line| == |labels|
    ensures |region| == |labels|
  {
    seq(|labels|, i requires 0 <= i < |labels| => labels[i] == target && !line[i])
  }

  /**
   * What a connected-component labelling of `region` provides: 0 exactly off
   * the region, and component ids that leave no gap below the largest.
   * Connectivity itself is not modelled.
   */
  predicate ComponentLabelling(comps: seq<nat>, region: seq<bool>)
  {
    && |comps| == |region|
    && (forall i :: 0 <= i < |comps| ==> (comps[i] == 0 <==> !region[i]))
    && (forall i, c :: 0 <= i < |comps| && 0 < c <= comps[i] ==> c in comps)
  }

  /** The component given the new label: that of the second point, or 1 when it lies on the line. */
  function ChosenComponent(comps: seq<nat>, i2: nat): (c: nat)
    requires i2 < |comps|
    ensures c > 0
    ensures comps[i2] != 0 ==> c == comps[i2]
  {
    if comps[i2] == 0 then 1 else comps[i2]
  }

  function ComponentMask(comps: seq<nat>, c: nat): (m: seq<bool>)
    ensures |m| == |comps|
  {
    seq(|comps|, i requires 0 <= i < |comps| => comps[i] == c)
  }

  /** Both points lie in one region and removing the line leaves at least two components. */
  predicate CutApplies(labels: seq<int>, comps: seq<nat>, i1: nat, i2: nat)
    requires i1 < |labels| && i2 < |labels| && |comps| > 0
    ensures CutApplies(labels, comps, i1, i2) <==>
      labels[i2] == labels[i1] && exists i :: 0 <= i < |comps| && comps[i] >= 2
  {
    labels[i2] == labels[i1] && MaxOf(comps) >= 2
  }

  /** The label grid after a cut from pixel `i1` to pixel `i2`. */
  function CutLabels(labels: seq<int>, comps: seq<nat>, i1: nat, i2: nat): (r: seq<int>)
    requires |comps| == |labels| && i1 < |labels| && i2 < |labels|
    ensures |r| == |labels|
    ensures !CutApplies(labels, comps, i1, i2) ==> r == labels
    ensures forall i :: 0 <= i < |labels| ==> r[i] == labels[i] || r[i] == MaxOf(labels) + 1
    ensures forall i :: 0 <= i < |labels| && r[i] != labels[i] ==> comps[i] == ChosenComponent(comps, i2)
  {
    if CutApplies(labels, comps, i1, i2) then
      Paint(labels, ComponentMask(comps, ChosenComponent(comps, i2)), MaxOf(labels) + 1)
    else labels
  }

  /**
   * The second click of a cut: the grid is cut when the cut applies, the
   * selection is cleared only then, and cut mode always ends.
   */
  function FinishCut(s: Session, h: nat, w: nat, p2: Point, comps: seq<nat>): (r: Session)
    requires WellFormed(s, h, w) && s.cutAnchor.Some? && InGrid(h, w, p2) && |comps| == h * w
    ensures WellFormed(r, h, w) && !r.cutMode && r.cutAnchor.None?
  {
    var i1, i2 := Pixel(h, w, s.cutAnchor.value), Pixel(h, w, p2);
    var applied := CutApplies(s.labels, comps, i1, i2);
    Session(CutLabels(s.labels, comps, i1, i2), if applied then {} else s.selected, false, None, s.cursor)
  }

  /** A left-button release: toggle, set the first cut point, or finish the cut. */
  function Click(s: Session, h: nat, w: nat, x: int, y: int, comps: seq<nat>): (r: Session)
    requires WellFormed(s, h, w) && |comps| == h * w
    ensures WellFormed(r, h, w)
    ensures r.cursor == (Clamp(x, w), Clamp(y, h))
  {
    var p := (Clamp(x, w), Clamp(y, h));
    var moved := s.(cursor := p);
    if !s.cutMode then Toggle(moved, h, w, p)
    else if s.cutAnchor.None? then moved.(cutAnchor := Some(p))
    else FinishCut(moved, h, w, p, comps)
  }

  /** Key `c`. */
  function Clear(s: Session): (r: Session)
    ensures r.labels == s.labels && r.selected == {}
  {
    s.(selected := {})
  }

  /** Key `b`: cut mode on, no first point yet. */
  function BeginCut(s: Session, h: nat, w: nat): (r: Session)
    requires WellFormed(s, h, w)
    ensures WellFormed(r, h, w) && r.cutMode && r.cutAnchor.None?
  {
    s.(cutMode := true, cutAnchor := None)
  }

  /** Regions smaller than this are not split. */
  const MinSplitArea: nat := 50

  /**
   * The pixels of label `target` whose cluster is 1; `clusters` holds one
   * cluster per pixel of the region, in row-major order.
   */
  function ClusterMask(labels: seq<int>, target: int, clusters: seq<int>): (m: seq<bool>)
    requires |clusters| == Area(labels, target)
    ensures |m| == |labels|
    ensures forall i :: 0 <= i < |labels| && m[i] ==> labels[i] == target
    ensures (forall k :: 0 <= k < |clusters| ==> clusters[k] != 1) ==> forall i :: 0 <= i < |labels| ==> !m[i]
  {
    seq(|labels|, i requires 0 <= i < |labels| =>
      labels[i] == target && clusters[Rank(labels, target, i)] == 1)
  }

  /** Key `x` acts: colour data exists, the region has at least 50 pixels and clustering succeeded. */
  predicate SplitApplies(s: Session, h: nat, w: nat, hasColour: bool, clusters: Option<seq<int>>)
    requires WellFormed(s, h, w)
    ensures SplitApplies(s, h, w, hasColour, clusters) ==> hasColour && clusters.Some? && MinSplitArea <= h * w
  {
    AreaAtMostLength(s.labels, s.labels[Pixel(h, w, s.cursor)]);
    hasColour && Area(s.labels, s.labels[Pixel(h, w, s.cursor)]) >= MinSplitArea && clusters.Some?
  }

  /** Key `x`: the cluster-1 pixels of the region under the pointer get a new label. */
  function Split(s: Session, h: nat, w: nat, hasColour: bool, clusters: Option<seq<int>>): (r: Session)
    requires WellFormed(s, h, w)
    requires clusters.Some? ==> |clusters.value| == Area(s.labels, s.labels[Pixel(h, w, s.cursor)])
    ensures WellFormed(r, h, w)
  {
    if !SplitApplies(s, h, w, hasColour, clusters) then s
    else
      var target := s.labels[Pixel(h, w, s.cursor)];
      s.(labels := Paint(s.labels, ClusterMask(s.labels, target, clusters.value), MaxOf(s.labels) + 1), selected := {})
  }

  /** Re-thresholding: a new grid from outside, selection cleared. */
  function Replace(s: Session, h: nat, w: nat, g: seq<int>): (r: Session)
    requires WellFormed(s, h, w) && |g| == h * w
    ensures WellFormed(r, h, w) && r.labels == g && r.selected == {}
  {
    s.(labels := g, selected := {})
  }

  /**
   * Toggling label `l` rewrites the mask exactly on the pixels of `l`: to 255
   * when `l` becomes selected, to 0 when it is deselected.
   */
  lemma ToggleMask(labels: seq<int>, selected: set<int>, l: int)
    ensures SelectionMask(labels, Toggled(selected, l)) ==
      Paint(SelectionMask(labels, selected), LabelMask(labels, l), if l in selected then 0 else 255)
  {
  }

  /** A click outside cut mode touches only the selection (and the pointer); twice restores it. */
  lemma ToggleOnlySelects(s: Session, h: nat, w: nat, x: int, y: int, comps: seq<nat>)
    requires WellFormed(s, h, w) && |comps| == h * w && !s.cutMode
    ensures var r := Click(s, h, w, x, y, comps);
      var l := s.labels[Pixel(h, w, (Clamp(x, w), Clamp(y, h)))];
      && r.labels == s.labels && !r.cutMode && r.cutAnchor == s.cutAnchor
      && (l in r.selected <==> l !in s.selected)
      && (forall m :: m != l ==> (m in r.selected <==> m in s.selected))
      && Click(r, h, w, x, y, comps) == s.(cursor := r.cursor)
  {
  }

  /**
   * The outcome of a finished cut: the new label `max + 1` is fresh; without
   * a cut the grid and selection stay; with one the selection is cleared and
   * a pixel changes iff it is in the chosen component, which lies inside the
   * anchor's region and off the line.
   */
  lemma FinishCutOutcome(s: Session, h: nat, w: nat, p2: Point, line: seq<bool>, comps: seq<nat>)
    requires WellFormed(s, h, w) && s.cutAnchor.Some? && InGrid(h, w, p2)
    requires |line| == h * w && |comps| == h * w
    requires ComponentLabelling(comps, CutRegion(s.labels, s.labels[Pixel(h, w, s.cutAnchor.value)], line))
    ensures var r := FinishCut(s, h, w, p2, comps);
      var i1, i2 := Pixel(h, w, s.cutAnchor.value), Pixel(h, w, p2);
      var applied := CutApplies(s.labels, comps, i1, i2);
      && MaxOf(s.labels) + 1 !in s.labels
      && (!applied ==> r.labels == s.labels && r.selected == s.selected)
      && (applied ==> r.selected == {})
      && forall i :: 0 <= i < h * w ==>
        && (r.labels[i] != s.labels[i] <==> applied && comps[i] == ChosenComponent(comps, i2))
        && (r.labels[i] != s.labels[i] ==>
              s.labels[i] == s.labels[i1] && !line[i] && r.labels[i] == MaxOf(s.labels) + 1)
  {
    var i1, i2 := Pixel(h, w, s.cutAnchor.value), Pixel(h, w, p2);
    var region := CutRegion(s.labels, s.labels[i1], line);
    MaxPlusOneIsFresh(s.labels);
    forall i | 0 <= i < h * w && comps[i] == ChosenComponent(comps, i2)
      ensures s.labels[i] == s.labels[i1] && !line[i]
    {
      assert region[i];
    }
  }

  /**
   * A cut that applies really splits the region: some pixel gets the new
   * label and some pixel of the region keeps the old one.
   */
  lemma CutSplitsRegion(s: Session, h: nat, w: nat, p2: Point, line: seq<bool>, comps: seq<nat>)
    requires WellFormed(s, h, w) && s.cutAnchor.Some? && InGrid(h, w, p2)
    requires |line| == h * w && |comps| == h * w
    requires ComponentLabelling(comps, CutRegion(s.labels, s.labels[Pixel(h, w, s.cutAnchor.value)], line))
    requires CutApplies(s.labels, comps, Pixel(h, w, s.cutAnchor.value), Pixel(h, w, p2))
    ensures var r := FinishCut(s, h, w, p2, comps);
      var target := s.labels[Pixel(h, w, s.cutAnchor.value)];
      && (exists i :: 0 <= i < h * w && r.labels[i] == MaxOf(s.labels) + 1)
      && (exists j :: 0 <= j < h * w && s.labels[j] == target && r.labels[j] == target)
  {
    var r := FinishCut(s, h, w, p2, comps);
    var i1, i2 := Pixel(h, w, s.cutAnchor.value), Pixel(h, w, p2);
    var region := CutRegion(s.labels, s.labels[i1], line);
    var top := MaxOf(comps);
    var iTop :| 0 <= iTop < |comps| && comps[iTop] == top;
    var chosen := ChosenComponent(comps, i2);
    assert chosen in comps by {
      if comps[i2] == 0 {
        assert 0 < 1 <= comps[iTop];
      }
    }
    var i :| 0 <= i < |comps| && comps[i] == chosen;
    assert r.labels[i] == MaxOf(s.labels) + 1;
    var other := if chosen == top then 1 else top;
    assert other in comps by {
      assert 0 < other <= comps[iTop];
    }
    var j :| 0 <= j < |comps| && comps[j] == other;
    assert region[j];
    assert r.labels[j] == s.labels[j];
  }

  /**
   * A line drawn through the second point leaves that pixel out of every
   * component, so the fallback component 1 is the one relabelled.
   */
  lemma EndpointOnLineChoosesFirstComponent(labels: seq<int>, target: int, line: seq<bool>, comps: seq<nat>, i2: nat)
    requires |line| == |labels| && i2 < |labels| && line[i2]
    requires ComponentLabelling(comps, CutRegion(labels, target, line))
    ensures ChosenComponent(comps, i2) == 1
  {
    assert !CutRegion(labels, target, line)[i2];
  }

  /**
   * The outcome of a split: nothing changes unless it applies; otherwise the
   * selection is cleared and a pixel changes iff it carries the target label
   * and its cluster is 1, and then it gets the fresh label `max + 1`.
   */
  lemma SplitOutcome(s: Session, h: nat, w: nat, hasColour: bool, clusters: Option<seq<int>>)
    requires WellFormed(s, h, w)
    requires clusters.Some? ==> |clusters.value| == Area(s.labels, s.labels[Pixel(h, w, s.cursor)])
    ensures var r := Split(s, h, w, hasColour, clusters);
      var target := s.labels[Pixel(h, w, s.cursor)];
      var applied := SplitApplies(s, h, w, hasColour, clusters);
      && (!applied ==> r == s)
      && (Area(s.labels, target) < MinSplitArea ==> r == s)
      && (applied ==> r.selected == {} && MaxOf(s.labels) + 1 !in s.labels)
      && forall i :: 0 <= i < h * w ==>
        && (r.labels[i] != s.labels[i] <==>
              applied && s.labels[i] == target && clusters.value[Rank(s.labels, target, i)] == 1)
        && (r.labels[i] != s.labels[i] ==> r.labels[i] == MaxOf(s.labels) + 1)
  {
    MaxPlusOneIsFresh(s.labels);
  }

  /** Every action that changes the label grid clears the selection. */
  lemma LabelChangeClearsSelection(s: Session, h: nat, w: nat, x: int, y: int, comps: seq<nat>,
                                   hasColour: bool, clusters: Option<seq<int>>)
    requires WellFormed(s, h, w) && |comps| == h * w
    requires clusters.Some? ==> |clusters.value| == Area(s.labels, s.labels[Pixel(h, w, s.cursor)])
    ensures Click(s, h, w, x, y, comps).labels != s.labels ==> Click(s, h, w, x, y, comps).selected == {}
    ensures Split(s, h, w, hasColour, clusters).labels != s.labels ==> Split(s, h, w, hasColour, clusters).selected == {}
  {
  }
}
