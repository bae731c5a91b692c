/**
 * Label grids: an image-sized grid of region ids, stored row-major in a flat
 * sequence (the layout of a C-ordered numpy array), and the whole-array
 * operations the program applies to it (`max()`, pixel counts, masked
 * assignment).
 */
module LabelGrid {

  /** `cells` is a rectangular grid `w` pixels wide. */
  predicate IsGrid<T>(cells: seq<T>, w: nat)
  {
    w > 0 && |cells| % w == 0
  }

  /** Flat index of pixel (x, y) in a grid `w` pixels wide. */
  function Index(w: nat, x: nat, y: nat): nat
  {
    y * w + x
  }

  lemma IndexInRange(h: nat, w: nat, x: nat, y: nat)
    requires x < w && y < h
    ensures Index(w, x, y) < h * w
  {
    calc {
      Index(w, x, y);
    <
      y * w + w;
    ==
      (y + 1) * w;
    <=  { MulMonotone(y + 1, h, w); }
      h * w;
    }
  }

  lemma MulMonotone(a: nat, b: nat, c: nat)
    requires a <= b
    ensures a * c <= b * c
  {
  }

  /** The largest value of a non-empty grid (numpy's `max()`). */
  function MaxOf(s: seq<int>): (m: int)
    requires |s| > 0
    ensures m in s
    ensures forall i :: 0 <= i < |s| ==> s[i] <= m
  {
    if |s| == 1 then s[0]
    else
      var m := MaxOf(s[..|s| - 1]);
      assert m in s by { assert s[..|s| - 1] <= s; }
      if s[|s| - 1] > m then s[|s| - 1] else m
  }

  /** Number of pixels carrying label `v` (`np.bincount`, `mask.sum()`). */
  function Area(s: seq<int>, v: int): nat
  {
    multiset(s)[v]
  }

  /**
   * Position of pixel `i` among the pixels labelled `t`, in row-major
   * order: the index `np.flatnonzero(labels == t)` gives it.
   */
  function Rank(s: seq<int>, t: int, i: nat): (k: nat)
    requires i <= |s|
    ensures i < |s| && s[i] == t ==> k < Area(s, t)
  {
    if i < |s| then
      assert s == s[..i] + [s[i]] + s[i + 1..];
      multiset(s[..i])[t]
    else
      multiset(s[..i])[t]
  }

  /** A value occurs at most as often as the sequence is long. */
  lemma {:induction false} AreaAtMostLength(s: seq<int>, v: int)
    ensures Area(s, v) <= |s|
  {
    if |s| > 0 {
      var front := s[..|s| - 1];
      assert s == front + [s[|s| - 1]];
      AreaAtMostLength(front, v);
    }
  }

  /**
   * Masked assignment `a[pick] = v`: unpicked cells keep their value, and
   * when `v` is a fresh value the cells holding it afterwards are exactly the
   * picked ones.
   */
  function Paint(s: seq<int>, pick: seq<bool>, v: int): (r: seq<int>)
    requires |pick| == |s|
    ensures |r| == |s|
    ensures forall i :: 0 <= i < |s| && !pick[i] ==> r[i] == s[i]
    ensures v !in s ==> forall i :: 0 <= i < |s| ==> (r[i] == v <==> pick[i])
  {
    seq(|s|, i requires 0 <= i < |s| => if pick[i] then v else s[i])
  }

  /** The boolean mask `labels == v`. */
  function LabelMask(s: seq<int>, v: int): seq<bool>
  {
    seq(|s|, i requires 0 <= i < |s| => s[i] == v)
  }

  /** The label `max() + 1` is carried by no pixel. */
  lemma MaxPlusOneIsFresh(s: seq<int>)
    requires |s| > 0
    ensures MaxOf(s) + 1 !in s
    ensures Area(s, MaxOf(s) + 1) == 0
  {
  }

  /** Pixels of one label are ranked in their row-major order. */
  lemma {:induction false} RankIncreasing(s: seq<int>, t: int, i: nat, j: nat)
    requires i < j < |s| && s[i] == t
    ensures Rank(s, t, i) < Rank(s, t, j)
  {
    assert s[..j] == s[..i] + [s[i]] + s[i + 1..j];
  }
}
