/**
 * The adjacency extractor: the set of unordered label pairs that meet across
 * a horizontal or vertical pixel edge. The grid is compared with itself
 * shifted by one column and by one row; every mismatch contributes the pair
 * (min, max).
 */
module Adjacency {
  import opened LabelGrid

  /** An unordered pair of labels, stored as (lo, hi). */
  type Pair = (nat, nat)

  function Ordered(a: nat, b: nat): Pair
  {
    if a < b then (a, b) else (b, a)
  }

  /** Pixel `i + 1` lies to the right of pixel `i` in the same row. */
  predicate RightOf(n: nat, w: nat, i: nat)
    requires w > 0
  {
    i + 1 < n && i % w != w - 1
  }

  /** Pixel `i + w` lies just below pixel `i`. */
  predicate Below(n: nat, w: nat, i: nat)
  {
    i + w < n
  }

  /** Pairs found by the column shift, from pixel `i` onwards. */
  function HorizontalPairs(g: seq<nat>, w: nat, i: nat): (r: set<Pair>)
    requires w > 0 && i <= |g|
    ensures forall p :: p in r ==> p.0 < p.1 && p.0 in g && p.1 in g
    decreases |g| - i
  {
    if i == |g| then {}
    else
      var rest := HorizontalPairs(g, w, i + 1);
      if RightOf(|g|, w, i) && g[i] != g[i + 1] then {Ordered(g[i], g[i + 1])} + rest else rest
  }

  /** Pairs found by the row shift, from pixel `i` onwards. */
  function VerticalPairs(g: seq<nat>, w: nat, i: nat): (r: set<Pair>)
    requires i <= |g|
    ensures forall p :: p in r ==> p.0 < p.1 && p.0 in g && p.1 in g
    decreases |g| - i
  {
    if i == |g| then {}
    else
      var rest := VerticalPairs(g, w, i + 1);
      if Below(|g|, w, i) && g[i] != g[i + w] then {Ordered(g[i], g[i + w])} + rest else rest
  }

  /** `_adjacency_pairs`: every pair is (lo, hi) with lo < hi, both labels of the grid. */
  function AdjacencyPairs(g: seq<nat>, w: nat): (r: set<Pair>)
    requires IsGrid(g, w)
    ensures forall p :: p in r ==> p.0 < p.1 && p.0 in g && p.1 in g
  {
    HorizontalPairs(g, w, 0) + VerticalPairs(g, w, 0)
  }

  /** Some pixel labelled `a` has a right or lower neighbour labelled `b`. */
  ghost predicate Touches(g: seq<nat>, w: nat, a: nat, b: nat)
    requires w > 0
  {
    exists i :: 0 <= i < |g| && g[i] == a &&
      ((RightOf(|g|, w, i) && g[i + 1] == b) || (Below(|g|, w, i) && g[i + w] == b))
  }

  /** Pixels `j` and `j + 1` are row neighbours carrying the two labels of `p`. */
  predicate RowMismatch(g: seq<nat>, w: nat, j: nat, p: Pair)
    requires w > 0
  {
    j < |g| && RightOf(|g|, w, j) && g[j] != g[j + 1] && p == Ordered(g[j], g[j + 1])
  }

  /** Pixels `j` and `j + w` are column neighbours carrying the two labels of `p`. */
  predicate ColumnMismatch(g: seq<nat>, w: nat, j: nat, p: Pair)
  {
    j < |g| && Below(|g|, w, j) && g[j] != g[j + w] && p == Ordered(g[j], g[j + w])
  }

  lemma {:induction false} HorizontalPairsSpec(g: seq<nat>, w: nat, i: nat, p: Pair)
    requires w > 0 && i <= |g|
    ensures p in HorizontalPairs(g, w, i) <==> exists j :: i <= j && RowMismatch(g, w, j, p)
    decreases |g| - i
  {
    if i < |g| {
      HorizontalPairsSpec(g, w, i + 1, p);
      if p in HorizontalPairs(g, w, i) && p !in HorizontalPairs(g, w, i + 1) {
        assert RowMismatch(g, w, i, p);
      }
      if exists j :: i <= j && RowMismatch(g, w, j, p) {
        var j :| i <= j && RowMismatch(g, w, j, p);
        if j == i {
          assert p in HorizontalPairs(g, w, i);
        } else {
          assert i + 1 <= j;
        }
      }
    }
  }

  lemma {:induction false} VerticalPairsSpec(g: seq<nat>, w: nat, i: nat, p: Pair)
    requires i <= |g|
    ensures p in VerticalPairs(g, w, i) <==> exists j :: i <= j && ColumnMismatch(g, w, j, p)
    decreases |g| - i
  {
    if i < |g| {
      VerticalPairsSpec(g, w, i + 1, p);
      if p in VerticalPairs(g, w, i) && p !in VerticalPairs(g, w, i + 1) {
        assert ColumnMismatch(g, w, i, p);
      }
      if exists j :: i <= j && ColumnMismatch(g, w, j, p) {
        var j :| i <= j && ColumnMismatch(g, w, j, p);
        if j == i {
          assert p in VerticalPairs(g, w, i);
        } else {
          assert i + 1 <= j;
        }
      }
    }
  }

  lemma PairHasWitness(g: seq<nat>, w: nat, p: Pair)
    requires IsGrid(g, w) && p in AdjacencyPairs(g, w)
    ensures Touches(g, w, p.0, p.1) || Touches(g, w, p.1, p.0)
  {
    if p in HorizontalPairs(g, w, 0) {
      HorizontalPairsSpec(g, w, 0, p);
      var j :| 0 <= j && RowMismatch(g, w, j, p);
      if g[j] < g[j + 1] { assert Touches(g, w, p.0, p.1); } else { assert Touches(g, w, p.1, p.0); }
    } else {
      VerticalPairsSpec(g, w, 0, p);
      var j :| 0 <= j && ColumnMismatch(g, w, j, p);
      if g[j] < g[j + w] { assert Touches(g, w, p.0, p.1); } else { assert Touches(g, w, p.1, p.0); }
    }
  }

  lemma WitnessGivesPair(g: seq<nat>, w: nat, a: nat, b: nat)
    requires IsGrid(g, w) && a != b && Touches(g, w, a, b)
    ensures Ordered(a, b) in AdjacencyPairs(g, w)
  {
    var p := Ordered(a, b);
    var i :| 0 <= i < |g| && g[i] == a &&
      ((RightOf(|g|, w, i) && g[i + 1] == b) || (Below(|g|, w, i) && g[i + w] == b));
    if RightOf(|g|, w, i) && g[i + 1] == b {
      assert RowMismatch(g, w, i, p);
      HorizontalPairsSpec(g, w, 0, p);
    } else {
      assert ColumnMismatch(g, w, i, p);
      VerticalPairsSpec(g, w, 0, p);
    }
  }

  /**
   * A pair is reported iff it is (lo, hi) with lo < hi and some pixel of one
   * of the two labels has a right or lower neighbour of the other.
   */
  lemma AdjacencyPairsSpec(g: seq<nat>, w: nat, lo: nat, hi: nat)
    requires IsGrid(g, w)
    ensures (lo, hi) in AdjacencyPairs(g, w) <==>
      lo < hi && (Touches(g, w, lo, hi) || Touches(g, w, hi, lo))
  {
    if (lo, hi) in AdjacencyPairs(g, w) {
      PairHasWitness(g, w, (lo, hi));
    } else if lo < hi && Touches(g, w, lo, hi) {
      WitnessGivesPair(g, w, lo, hi);
    } else if lo < hi && Touches(g, w, hi, lo) {
      WitnessGivesPair(g, w, hi, lo);
    }
  }

  /** A grid of one label (in particular a 1x1 grid, or an empty one) has no pairs. */
  lemma UniformGridHasNoPairs(g: seq<nat>, w: nat)
    requires IsGrid(g, w)
    requires forall i :: 0 <= i < |g| ==> g[i] == g[0]
    ensures AdjacencyPairs(g, w) == {}
  {
  }
}
