/**
 * The region consolidator, `merge_tiny_regions_fast`: relabel the grid
 * sequentially, attach every label whose area is below `minPixels` to the
 * root of its closest-coloured neighbour in a union-find forest, send every id
 * to its root and relabel sequentially again.
 *
 * Mean colours and their Euclidean distance are floating point; the model
 * takes the distance between two sequential ids as an abstract `dist` and
 * keeps only the ordering logic (strict `<`, starting from 1e12).
 */
module Consolidate {
  import opened Wrappers
  import opened LabelGrid
  import opened Adjacency
  import opened Relabel
  import opened UnionFind

  /** The starting value of `best_d`: no neighbour at this distance or beyond is chosen. */
  const NoDistance: real := 1000000000000.0

  /**
   * Where `best` ends when distances `d` are scanned left to right keeping a
   * candidate only when it is strictly closer: the first of the closest
   * neighbours, or none when every distance is at least `NoDistance`.
   */
  function FirstClosest(d: seq<real>): (k: Option<nat>)
    ensures k.None? ==> forall j :: 0 <= j < |d| ==> d[j] >= NoDistance
    ensures k.Some? ==> k.value < |d| && d[k.value] < NoDistance
    ensures k.Some? ==> forall j :: 0 <= j < |d| ==> d[k.value] <= d[j]
    ensures k.Some? ==> forall j :: 0 <= j < k.value ==> d[k.value] < d[j]
  {
    if |d| == 0 then None
    else
      var k := FirstClosest(d[..|d| - 1]);
      var bestD := if k.None? then NoDistance else d[k.value];
      if d[|d| - 1] < bestD then Some(|d| - 1) else k
  }

  /** Distances from label `s` to each of its neighbours, in list order. */
  function Distances(s: nat, nbrs: seq<nat>, dist: (nat, nat) -> real): (d: seq<real>)
    ensures |d| == |nbrs|
  {
    seq(|nbrs|, j requires 0 <= j < |nbrs| => dist(s, nbrs[j]))
  }

  /** The scan for `best` over the neighbours of `s`. */
  method ClosestNeighbour(s: nat, nbrs: seq<nat>, dist: (nat, nat) -> real) returns (best: Option<nat>)
    ensures best.None? <==> FirstClosest(Distances(s, nbrs, dist)).None?
    ensures best.Some? ==> best.value == nbrs[FirstClosest(Distances(s, nbrs, dist)).value]
  {
    best := None;
    var bestD := NoDistance;
    ghost var k: Option<nat> := None;
    for j := 0 to |nbrs|
      invariant k == FirstClosest(Distances(s, nbrs[..j], dist))
      invariant k.None? ==> best.None? && bestD == NoDistance
      invariant k.Some? ==> k.value < j && best == Some(nbrs[k.value]) && bestD == dist(s, nbrs[k.value])
    {
      assert Distances(s, nbrs[..j + 1], dist)[..j] == Distances(s, nbrs[..j], dist);
      var d := dist(s, nbrs[j]);
      if d < bestD {
        bestD := d;
        best := Some(nbrs[j]);
        k := Some(j);
      }
    }
    assert nbrs[..|nbrs|] == nbrs;
  }

  /** The neighbour list of `v` after appending both ends of each pair of `order`. */
  function Incident(order: seq<Pair>, v: nat): (r: seq<nat>)
    ensures forall j :: 0 <= j < |r| ==> (v, r[j]) in order || (r[j], v) in order
  {
    if |order| == 0 then []
    else
      var prefix := order[..|order| - 1];
      var p := order[|order| - 1];
      assert forall q :: q in prefix ==> q in order;
      Incident(prefix, v) + (if p.0 == v then [p.1] else []) + (if p.1 == v then [p.0] else [])
  }

  /** `x` is listed as a neighbour of `v` iff some pair of `order` joins them. */
  lemma {:induction false} IncidentSpec(order: seq<Pair>, v: nat, x: nat)
    ensures x in Incident(order, v) <==> (v, x) in order || (x, v) in order
  {
    if |order| > 0 {
      var prefix := order[..|order| - 1];
      IncidentSpec(prefix, v, x);
      assert order == prefix + [order[|order| - 1]];
    }
  }

  /** Every pair of `order` joins two ids below `n`. */
  predicate PairsBelow(order: seq<Pair>, n: nat)
  {
    forall k :: 0 <= k < |order| ==> order[k].0 < n && order[k].1 < n
  }

  /** A neighbour table over ids 0..n-1. */
  predicate NeighbourTable(n: nat, nbrs: seq<seq<nat>>)
  {
    |nbrs| == n && forall v, j :: 0 <= v < n && 0 <= j < |nbrs[v]| ==> nbrs[v][j] < n
  }

  lemma NeighboursAreIds(n: nat, order: seq<Pair>)
    requires PairsBelow(order, n)
    ensures forall v, j :: 0 <= j < |Incident(order, v)| ==> Incident(order, v)[j] < n
  {
    forall v, j | 0 <= j < |Incident(order, v)|
      ensures Incident(order, v)[j] < n
    {
      IncidentSpec(order, v, Incident(order, v)[j]);
    }
  }

  /** The table `neighbors` that lines 116-119 build from `order`. */
  function Neighbours(n: nat, order: seq<Pair>): (nbrs: seq<seq<nat>>)
    requires PairsBelow(order, n)
    ensures NeighbourTable(n, nbrs)
  {
    NeighboursAreIds(n, order);
    seq(n, v requires 0 <= v < n => Incident(order, v))
  }

  /** Builds the neighbour lists by appending both ends of every pair. */
  method BuildNeighbours(n: nat, order: seq<Pair>) returns (nbrs: seq<seq<nat>>)
    requires PairsBelow(order, n)
    ensures nbrs == Neighbours(n, order)
  {
    nbrs := seq(n, v => []);
    for k := 0 to |order|
      invariant |nbrs| == n
      invariant forall v :: 0 <= v < n ==> nbrs[v] == Incident(order[..k], v)
    {
      assert order[..k + 1][..k] == order[..k];
      var (a, b) := order[k];
      nbrs := nbrs[a := nbrs[a] + [b]];
      nbrs := nbrs[b := nbrs[b] + [a]];
    }
    assert order[..|order|] == order;
  }

  /** Pixel count of every id 0..n-1 (`np.bincount(out, minlength=n)`). */
  function Areas(out: seq<nat>, n: nat): (area: seq<nat>)
    ensures |area| == n
  {
    seq(n, v requires 0 <= v < n => Area(out, v))
  }

  predicate StrictlyIncreasing(s: seq<nat>)
  {
    forall k, l :: 0 <= k < l < |s| ==> s[k] < s[l]
  }

  /** `np.where(area < min_pixels)[0]`: the ids below the area bound, ascending. */
  function SmallIds(area: seq<nat>, minPixels: int): (small: seq<nat>)
    ensures forall k :: 0 <= k < |small| ==> small[k] < |area| && area[small[k]] < minPixels
    ensures forall v :: 0 <= v < |area| && area[v] < minPixels ==> v in small
    ensures StrictlyIncreasing(small)
  {
    if |area| == 0 then []
    else SmallIds(area[..|area| - 1], minPixels) + (if area[|area| - 1] < minPixels then [|area| - 1] else [])
  }

  function Identity(n: nat): seq<nat>
  {
    seq(n, i => i)
  }

  /**
   * Hanging root `s` below the root of `b`: every id rooted at `s` moves to
   * b's root, so a root `s` joins b's region.
   */
  function Attach(roots: seq<nat>, s: nat, b: nat): (r: seq<nat>)
    requires b < |roots|
    ensures |r| == |roots|
    ensures s < |roots| && roots[s] == s ==> r[s] == r[b]
  {
    seq(|roots|, i requires 0 <= i < |roots| => if roots[i] == s then roots[b] else roots[i])
  }

  /** Attaching only coarsens: ids that shared a root still share one. */
  lemma AttachKeepsRegions(roots: seq<nat>, s: nat, b: nat, i: nat, j: nat)
    requires b < |roots| && i < |roots| && j < |roots| && roots[i] == roots[j]
    ensures Attach(roots, s, b)[i] == Attach(roots, s, b)[j]
  {
  }

  /**
   * The root of every id once the labels of `small` have been processed in
   * order (lines 133-144): a label whose scan finds a closest neighbour is
   * attached to that neighbour's current root; any other is left alone.
   */
  function MergedRoots(n: nat, small: seq<nat>, nbrs: seq<seq<nat>>, dist: (nat, nat) -> real): (roots: seq<nat>)
    requires NeighbourTable(n, nbrs) && forall k :: 0 <= k < |small| ==> small[k] < n
    ensures |roots| == n && forall i :: 0 <= i < n ==> roots[i] < n
  {
    if |small| == 0 then Identity(n)
    else
      var roots := MergedRoots(n, small[..|small| - 1], nbrs, dist);
      var s := small[|small| - 1];
      match FirstClosest(Distances(s, nbrs[s], dist))
      case None => roots
      case Some(k) => Attach(roots, s, nbrs[s][k])
  }

  /** An id that is not processed as small keeps itself as its root. */
  lemma {:induction false} UnprocessedKeepsOwnRoot(n: nat, small: seq<nat>, nbrs: seq<seq<nat>>, dist: (nat, nat) -> real, v: nat)
    requires NeighbourTable(n, nbrs) && forall k :: 0 <= k < |small| ==> small[k] < n
    requires v < n && v !in small
    ensures MergedRoots(n, small, nbrs, dist)[v] == v
  {
    if |small| > 0 {
      UnprocessedKeepsOwnRoot(n, small[..|small| - 1], nbrs, dist, v);
    }
  }

  /**
   * A small id whose scan picks its `j`-th neighbour ends with the same root
   * as that neighbour: the two are in one merged region.
   */
  lemma {:induction false} AttachedJoinsBest(n: nat, small: seq<nat>, nbrs: seq<seq<nat>>, dist: (nat, nat) -> real, k: nat, j: nat)
    requires NeighbourTable(n, nbrs) && StrictlyIncreasing(small)
    requires forall l :: 0 <= l < |small| ==> small[l] < n
    requires k < |small| && FirstClosest(Distances(small[k], nbrs[small[k]], dist)) == Some(j)
    ensures MergedRoots(n, small, nbrs, dist)[small[k]] == MergedRoots(n, small, nbrs, dist)[nbrs[small[k]][j]]
  {
    var prefix := small[..|small| - 1];
    if k == |small| - 1 {
      assert small[k] !in prefix;
      UnprocessedKeepsOwnRoot(n, prefix, nbrs, dist, small[k]);
    } else {
      AttachedJoinsBest(n, prefix, nbrs, dist, k, j);
      var roots := MergedRoots(n, prefix, nbrs, dist);
      var s := small[|small| - 1];
      match FirstClosest(Distances(s, nbrs[s], dist))
      case None =>
      case Some(c) => AttachKeepsRegions(roots, s, nbrs[s][c], small[k], nbrs[small[k]][j]);
    }
  }

  /** Every entry of `roots` is an id that is its own root. */
  predicate Canonical(roots: seq<nat>)
  {
    forall i :: 0 <= i < |roots| ==> roots[i] < |roots| && roots[roots[i]] == roots[i]
  }

  /** Every id's root is a root: the roots name the merged regions. */
  lemma {:induction false} RootsAreRoots(n: nat, small: seq<nat>, nbrs: seq<seq<nat>>, dist: (nat, nat) -> real)
    requires NeighbourTable(n, nbrs) && forall k :: 0 <= k < |small| ==> small[k] < n
    ensures Canonical(MergedRoots(n, small, nbrs, dist))
  {
    if |small| > 0 {
      var prefix := small[..|small| - 1];
      var roots := MergedRoots(n, prefix, nbrs, dist);
      RootsAreRoots(n, prefix, nbrs, dist);
      var s := small[|small| - 1];
      match FirstClosest(Distances(s, nbrs[s], dist))
      case None =>
        assert MergedRoots(n, small, nbrs, dist) == roots;
      case Some(k) =>
        var b := nbrs[s][k];
        var next := Attach(roots, s, b);
        assert MergedRoots(n, small, nbrs, dist) == next;
        forall i | 0 <= i < n
          ensures next[next[i]] == next[i]
        {
          var t := roots[i];
          assert roots[t] == t;
          if t == s {
            assert roots[roots[b]] == roots[b];
          }
        }
    }
  }

  /** Neighbour lists are symmetric: `b` lists `a` iff `a` lists `b`. */
  predicate Symmetric(n: nat, nbrs: seq<seq<nat>>)
    requires NeighbourTable(n, nbrs)
  {
    forall a, j :: 0 <= a < n && 0 <= j < |nbrs[a]| ==> a in nbrs[nbrs[a][j]]
  }

  /**
   * A small label with an empty neighbour list is never merged: it is its own
   * root and the root of nothing else.
   */
  lemma {:induction false} IsolatedLabelStaysAlone(n: nat, small: seq<nat>, nbrs: seq<seq<nat>>, dist: (nat, nat) -> real, s: nat, i: nat)
    requires NeighbourTable(n, nbrs) && Symmetric(n, nbrs) && forall k :: 0 <= k < |small| ==> small[k] < n
    requires s < n && nbrs[s] == [] && i < n
    ensures MergedRoots(n, small, nbrs, dist)[i] == s <==> i == s
  {
    if |small| > 0 {
      var prefix := small[..|small| - 1];
      var roots := MergedRoots(n, prefix, nbrs, dist);
      IsolatedLabelStaysAlone(n, prefix, nbrs, dist, s, i);
      var t := small[|small| - 1];
      match FirstClosest(Distances(t, nbrs[t], dist))
      case None =>
      case Some(k) =>
        var b := nbrs[t][k];
        IsolatedLabelStaysAlone(n, prefix, nbrs, dist, s, b);
        assert t in nbrs[b];
        assert b != s;
        IsolatedLabelStaysAlone(n, prefix, nbrs, dist, s, s);
    }
  }

  /** `order` lists each pair of `pairs` once, in the set's iteration order. */
  predicate Enumerates(order: seq<Pair>, pairs: set<Pair>)
  {
    && (forall k :: 0 <= k < |order| ==> order[k] in pairs)
    && (forall p :: p in pairs ==> p in order)
    && (forall k, l :: 0 <= k < l < |order| ==> order[k] != order[l])
  }

  /** An enumeration is empty exactly when the set it lists is. */
  lemma EmptyEnumeration(order: seq<Pair>, pairs: set<Pair>)
    requires Enumerates(order, pairs)
    ensures order == [] <==> pairs == {}
  {
    if |order| > 0 {
      assert order[0] in pairs;
    }
  }

  /** `n` of the source: one more than the largest sequential id, 0 for an empty grid. */
  function IdCount(out: seq<nat>): (n: nat)
    ensures forall i :: 0 <= i < |out| ==> out[i] < n
  {
    if |out| == 0 then 0 else MaxOf(out) + 1
  }

  lemma PairsAreIds(labels: seq<nat>, w: nat, order: seq<Pair>)
    requires IsGrid(labels, w) && Enumerates(order, AdjacencyPairs(RelabelSequential(labels), w))
    ensures PairsBelow(order, IdCount(RelabelSequential(labels)))
  {
    var out := RelabelSequential(labels);
    forall k | 0 <= k < |order|
      ensures order[k].0 < IdCount(out) && order[k].1 < IdCount(out)
    {
      var p := order[k];
      var i :| 0 <= i < |out| && out[i] == p.0;
      var j :| 0 <= j < |out| && out[j] == p.1;
    }
  }

  /** `map_ids[out]`: every pixel's id replaced by the id `m` gives it. */
  function ApplyMap(m: seq<nat>, g: seq<nat>): (r: seq<nat>)
    requires forall i :: 0 <= i < |g| ==> g[i] < |m|
    ensures |r| == |g|
  {
    seq(|g|, i requires 0 <= i < |g| => m[g[i]])
  }

  /** Mapping a grid through the identity leaves it unchanged. */
  lemma IdentityMapsNothing(n: nat, g: seq<nat>)
    requires forall i :: 0 <= i < |g| ==> g[i] < n
    ensures ApplyMap(Identity(n), g) == g
  {
  }

  /**
   * The root of every sequential id at the end of the pass: the identity when
   * the source returns early (at most one id, or nothing small).
   */
  ghost function ConsolidationRoots(labels: seq<nat>, w: nat, minPixels: int, dist: (nat, nat) -> real, order: seq<Pair>): (roots: seq<nat>)
    requires IsGrid(labels, w) && Enumerates(order, AdjacencyPairs(RelabelSequential(labels), w))
    ensures |roots| == IdCount(RelabelSequential(labels))
    ensures forall i :: 0 <= i < |roots| ==> roots[i] < |roots|
  {
    var out := RelabelSequential(labels);
    var n := IdCount(out);
    var small := SmallIds(Areas(out, n), minPixels);
    if n <= 1 || |small| == 0 then Identity(n)
    else
      PairsAreIds(labels, w, order);
      MergedRoots(n, small, Neighbours(n, order), dist)
  }

  /** The consolidated grid the pass returns: one label per pixel. */
  ghost function Consolidated(labels: seq<nat>, w: nat, minPixels: int, dist: (nat, nat) -> real, order: seq<Pair>): (res: seq<nat>)
    requires IsGrid(labels, w) && Enumerates(order, AdjacencyPairs(RelabelSequential(labels), w))
    ensures |res| == |labels|
  {
    var out := RelabelSequential(labels);
    var n := IdCount(out);
    var small := SmallIds(Areas(out, n), minPixels);
    if n <= 1 || |small| == 0 then out
    else RelabelSequential(ApplyMap(ConsolidationRoots(labels, w, minPixels, dist, order), out))
  }

  /** The pass always ends with a sequential relabel: relabelling its output again changes nothing. */
  lemma ConsolidatedIsSequential(labels: seq<nat>, w: nat, minPixels: int, dist: (nat, nat) -> real, order: seq<Pair>)
    requires IsGrid(labels, w) && Enumerates(order, AdjacencyPairs(RelabelSequential(labels), w))
    ensures var res := Consolidated(labels, w, minPixels, dist, order);
      RelabelSequential(res) == res
  {
    var out := RelabelSequential(labels);
    var n := IdCount(out);
    var small := SmallIds(Areas(out, n), minPixels);
    if n <= 1 || |small| == 0 {
      RelabelIdempotent(labels);
    } else {
      RelabelIdempotent(ApplyMap(ConsolidationRoots(labels, w, minPixels, dist, order), out));
    }
  }

  /**
   * Union soundness: two pixels share an output label iff the sequential ids
   * of their input labels have the same root.
   */
  lemma ConsolidatedPartition(labels: seq<nat>, w: nat, minPixels: int, dist: (nat, nat) -> real, order: seq<Pair>, i: nat, j: nat)
    requires IsGrid(labels, w) && Enumerates(order, AdjacencyPairs(RelabelSequential(labels), w))
    requires i < |labels| && j < |labels|
    ensures var out := RelabelSequential(labels);
      var roots := ConsolidationRoots(labels, w, minPixels, dist, order);
      var res := Consolidated(labels, w, minPixels, dist, order);
      |res| == |labels| && (res[i] == res[j] <==> roots[out[i]] == roots[out[j]])
  {
    var out := RelabelSequential(labels);
    var n := IdCount(out);
    var small := SmallIds(Areas(out, n), minPixels);
    var roots := ConsolidationRoots(labels, w, minPixels, dist, order);
    if !(n <= 1 || |small| == 0) {
      RelabelPreservesOrder(ApplyMap(roots, out), i, j);
    }
  }

  /** The neighbour lists built from an enumeration of the pair set are symmetric. */
  lemma NeighboursSymmetric(n: nat, order: seq<Pair>)
    requires PairsBelow(order, n)
    ensures Symmetric(n, Neighbours(n, order))
  {
    var nbrs := Neighbours(n, order);
    forall a, j | 0 <= a < n && 0 <= j < |nbrs[a]|
      ensures a in nbrs[nbrs[a][j]]
    {
      var b := nbrs[a][j];
      IncidentSpec(order, a, b);
      IncidentSpec(order, b, a);
    }
  }

  /** An id that no pair of `order` mentions has an empty neighbour list. */
  lemma {:induction false} UntouchedIdHasNoNeighbours(order: seq<Pair>, v: nat)
    requires forall k :: 0 <= k < |order| ==> order[k].0 != v && order[k].1 != v
    ensures Incident(order, v) == []
  {
    if |order| > 0 {
      UntouchedIdHasNoNeighbours(order[..|order| - 1], v);
    }
  }

  /**
   * A small label that no other label touches keeps its pixels to itself: a
   * pixel is in its output region iff it carried that label.
   */
  lemma IsolatedRegionSurvives(labels: seq<nat>, w: nat, minPixels: int, dist: (nat, nat) -> real, order: seq<Pair>, i: nat, j: nat)
    requires IsGrid(labels, w) && Enumerates(order, AdjacencyPairs(RelabelSequential(labels), w))
    requires i < |labels| && j < |labels|
    requires forall p :: p in AdjacencyPairs(RelabelSequential(labels), w) ==> p.0 != RelabelSequential(labels)[i] && p.1 != RelabelSequential(labels)[i]
    ensures var res := Consolidated(labels, w, minPixels, dist, order);
      |res| == |labels| && (res[j] == res[i] <==> labels[j] == labels[i])
  {
    var out := RelabelSequential(labels);
    var n := IdCount(out);
    var small := SmallIds(Areas(out, n), minPixels);
    ConsolidatedPartition(labels, w, minPixels, dist, order, i, j);
    RelabelPreservesOrder(labels, i, j);
    if !(n <= 1 || |small| == 0) {
      PairsAreIds(labels, w, order);
      var nbrs := Neighbours(n, order);
      var s := out[i];
      UntouchedIdHasNoNeighbours(order, s);
      NeighboursSymmetric(n, order);
      IsolatedLabelStaysAlone(n, small, nbrs, dist, s, out[j]);
      IsolatedLabelStaysAlone(n, small, nbrs, dist, s, s);
    }
  }

  /**
   * An id below `n` that labels no pixel (id 0 when the input has no label
   * 0) has an empty neighbour list, so the union phase skips it.
   */
  lemma AbsentIdHasNoNeighbours(labels: seq<nat>, w: nat, order: seq<Pair>, v: nat)
    requires IsGrid(labels, w) && Enumerates(order, AdjacencyPairs(RelabelSequential(labels), w))
    requires v < IdCount(RelabelSequential(labels)) && v !in RelabelSequential(labels)
    ensures PairsBelow(order, IdCount(RelabelSequential(labels)))
    ensures Neighbours(IdCount(RelabelSequential(labels)), order)[v] == []
  {
    var out := RelabelSequential(labels);
    PairsAreIds(labels, w, order);
    forall k | 0 <= k < |order|
      ensures order[k].0 != v && order[k].1 != v
    {
      assert order[k] in AdjacencyPairs(out, w);
    }
    UntouchedIdHasNoNeighbours(order, v);
  }

  /** Small ids whose neighbour lists are empty leave every id its own root. */
  lemma {:induction false} SilentSmallIdsKeepIdentity(n: nat, small: seq<nat>, nbrs: seq<seq<nat>>, dist: (nat, nat) -> real)
    requires NeighbourTable(n, nbrs) && forall k :: 0 <= k < |small| ==> small[k] < n
    requires forall k :: 0 <= k < |small| ==> nbrs[small[k]] == []
    ensures MergedRoots(n, small, nbrs, dist) == Identity(n)
  {
    if |small| > 0 {
      var s := small[|small| - 1];
      SilentSmallIdsKeepIdentity(n, small[..|small| - 1], nbrs, dist);
      assert Distances(s, nbrs[s], dist) == [];
    }
  }

  /** When every input region has at least `minPixels` pixels, the ids below the bound label no pixel. */
  lemma SmallIdsAreAbsent(labels: seq<nat>, minPixels: int)
    requires forall i :: 0 <= i < |labels| ==> Area(labels, labels[i]) >= minPixels
    ensures var out := RelabelSequential(labels);
      forall s :: s in SmallIds(Areas(out, IdCount(out)), minPixels) ==> s !in out
  {
    var out := RelabelSequential(labels);
    var small := SmallIds(Areas(out, IdCount(out)), minPixels);
    forall s | s in small
      ensures s !in out
    {
      if s in out {
        var i :| 0 <= i < |out| && out[i] == s;
        RelabelKeepsArea(labels, i);
        assert false;
      }
    }
  }

  /**
   * When no small id has a neighbour, nothing merges and the pass returns the
   * sequential relabel of the input.
   */
  lemma SilentSmallIdsOnlyRelabel(labels: seq<nat>, w: nat, minPixels: int, dist: (nat, nat) -> real, order: seq<Pair>)
    requires IsGrid(labels, w) && Enumerates(order, AdjacencyPairs(RelabelSequential(labels), w))
    requires var out := RelabelSequential(labels);
      forall s :: s in SmallIds(Areas(out, IdCount(out)), minPixels) ==> Incident(order, s) == []
    ensures Consolidated(labels, w, minPixels, dist, order) == RelabelSequential(labels)
  {
    var out := RelabelSequential(labels);
    var n := IdCount(out);
    var small := SmallIds(Areas(out, n), minPixels);
    if !(n <= 1 || |small| == 0) {
      SilentSmallIdsKeepRoots(labels, w, minPixels, dist, order);
      IdentityMapsNothing(n, out);
      RelabelIdempotent(labels);
    }
  }

  /** When no small id has a neighbour, every id stays its own root. */
  lemma SilentSmallIdsKeepRoots(labels: seq<nat>, w: nat, minPixels: int, dist: (nat, nat) -> real, order: seq<Pair>)
    requires IsGrid(labels, w) && Enumerates(order, AdjacencyPairs(RelabelSequential(labels), w))
    requires var out := RelabelSequential(labels);
      forall s :: s in SmallIds(Areas(out, IdCount(out)), minPixels) ==> Incident(order, s) == []
    ensures ConsolidationRoots(labels, w, minPixels, dist, order) == Identity(IdCount(RelabelSequential(labels)))
  {
    var out := RelabelSequential(labels);
    var n := IdCount(out);
    var small := SmallIds(Areas(out, n), minPixels);
    if !(n <= 1 || |small| == 0) {
      PairsAreIds(labels, w, order);
      var nbrs := Neighbours(n, order);
      assert forall k :: 0 <= k < |small| ==> nbrs[small[k]] == [];
      SilentSmallIdsKeepIdentity(n, small, nbrs, dist);
    }
  }

  /**
   * When every input region already has at least `minPixels` pixels nothing
   * merges: the only ids below the bound are ids no pixel carries, and the
   * pass returns the sequential relabel of the input.
   */
  lemma LargeRegionsOnlyRelabel(labels: seq<nat>, w: nat, minPixels: int, dist: (nat, nat) -> real, order: seq<Pair>)
    requires IsGrid(labels, w) && Enumerates(order, AdjacencyPairs(RelabelSequential(labels), w))
    requires forall i :: 0 <= i < |labels| ==> Area(labels, labels[i]) >= minPixels
    ensures Consolidated(labels, w, minPixels, dist, order) == RelabelSequential(labels)
  {
    var out := RelabelSequential(labels);
    var n := IdCount(out);
    var small := SmallIds(Areas(out, n), minPixels);
    SmallIdsAreAbsent(labels, minPixels);
    forall s | s in small
      ensures Incident(order, s) == []
    {
      AbsentIdHasNoNeighbours(labels, w, order, s);
      assert Neighbours(n, order)[s] == Incident(order, s);
    }
    SilentSmallIdsOnlyRelabel(labels, w, minPixels, dist, order);
  }

  /**
   * A grid without adjacency pairs (one label, or a single pixel) comes back
   * as its sequential relabel, even when id 0 is small and the union phase
   * runs.
   */
  lemma NoPairsOnlyRelabel(labels: seq<nat>, w: nat, minPixels: int, dist: (nat, nat) -> real, order: seq<Pair>)
    requires IsGrid(labels, w) && Enumerates(order, AdjacencyPairs(RelabelSequential(labels), w))
    requires AdjacencyPairs(RelabelSequential(labels), w) == {}
    ensures Consolidated(labels, w, minPixels, dist, order) == RelabelSequential(labels)
  {
    EmptyEnumeration(order, AdjacencyPairs(RelabelSequential(labels), w));
    SilentSmallIdsOnlyRelabel(labels, w, minPixels, dist, order);
  }

  /** A listed neighbour of an id is another id of the relabelled grid. */
  lemma NeighbourIsOtherId(labels: seq<nat>, w: nat, order: seq<Pair>, s: nat, k: nat)
    requires IsGrid(labels, w) && Enumerates(order, AdjacencyPairs(RelabelSequential(labels), w))
    requires k < |Incident(order, s)|
    ensures var b := Incident(order, s)[k];
      s != b && s < IdCount(RelabelSequential(labels)) && b < IdCount(RelabelSequential(labels))
  {
    var out := RelabelSequential(labels);
    var b := Incident(order, s)[k];
    if (s, b) in order {
      assert (s, b) in AdjacencyPairs(out, w);
    } else {
      assert (b, s) in AdjacencyPairs(out, w);
    }
  }

  /**
   * A small region whose scan picks a neighbour ends in the same output
   * region as that neighbour: a pixel of the small region and a pixel of the
   * chosen neighbour share their output label.
   */
  lemma AttachedRegionJoinsBest(labels: seq<nat>, w: nat, minPixels: int, dist: (nat, nat) -> real, order: seq<Pair>,
                                i: nat, j: nat, k: nat)
    requires IsGrid(labels, w) && Enumerates(order, AdjacencyPairs(RelabelSequential(labels), w))
    requires i < |labels| && j < |labels|
    requires var out := RelabelSequential(labels);
      && Area(out, out[i]) < minPixels
      && FirstClosest(Distances(out[i], Incident(order, out[i]), dist)) == Some(k)
      && out[j] == Incident(order, out[i])[k]
    ensures Consolidated(labels, w, minPixels, dist, order)[i] == Consolidated(labels, w, minPixels, dist, order)[j]
  {
    var out := RelabelSequential(labels);
    var n := IdCount(out);
    var s, b := out[i], out[j];
    var small := SmallIds(Areas(out, n), minPixels);
    NeighbourIsOtherId(labels, w, order, s, k);
    PairsAreIds(labels, w, order);
    assert s in small;
    var kk :| 0 <= kk < |small| && small[kk] == s;
    var nbrs := Neighbours(n, order);
    AttachedJoinsBest(n, small, nbrs, dist, kk, k);
    ConsolidatedPartition(labels, w, minPixels, dist, order, i, j);
  }

  /** The root of every node of a forest. */
  ghost function RootsOf(p: seq<nat>, rank: seq<nat>): (roots: seq<nat>)
    requires IsForest(p, rank)
    ensures |roots| == |p|
  {
    seq(|p|, i requires 0 <= i < |p| => Root(p, rank, i))
  }

  /**
   * `parent[s] = find(best)` for a root `s`: afterwards every node rooted at
   * `s` is rooted at best's root, and no other root changes.
   */
  method AttachRoot(parent: array<nat>, s: nat, best: nat, ghost rank: seq<nat>) returns (ghost rank': seq<nat>)
    requires IsForest(parent[..], rank) && s < parent.Length && best < parent.Length && parent[s] == s
    modifies parent
    ensures IsForest(parent[..], rank')
    ensures RootsOf(parent[..], rank') == Attach(old(RootsOf(parent[..], rank)), s, best)
  {
    ghost var roots := RootsOf(parent[..], rank);
    var r := Find(parent, best, rank);
    RootRank(parent[..], rank, s);
    ghost var before := parent[..];
    rank' := rank;
    if r != s {
      Link(before, rank, s, r);
      rank' := LinkRank(rank, s, r);
    }
    parent[s] := r;
    assert parent[..] == before[s := r];
    forall i | 0 <= i < parent.Length
      ensures Root(parent[..], rank', i) == Attach(roots, s, best)[i]
    {
      assert Root(before, rank, i) == roots[i];
      assert r == roots[best];
      if r == s {
        assert parent[..] == before;
      }
    }
  }

  /** The union phase, lines 125-144, on the `parent` array. */
  method UnionSmallLabels(n: nat, small: seq<nat>, nbrs: seq<seq<nat>>, dist: (nat, nat) -> real)
    returns (parent: array<nat>, ghost rank: seq<nat>)
    requires NeighbourTable(n, nbrs) && StrictlyIncreasing(small)
    requires forall k :: 0 <= k < |small| ==> small[k] < n
    ensures fresh(parent) && parent.Length == n && IsForest(parent[..], rank)
    ensures RootsOf(parent[..], rank) == MergedRoots(n, small, nbrs, dist)
  {
    parent := new nat[n](i => i);
    rank := seq(n, i => 0);
    assert RootsOf(parent[..], rank) == Identity(n);
    for k := 0 to |small|
      invariant IsForest(parent[..], rank)
      invariant RootsOf(parent[..], rank) == MergedRoots(n, small[..k], nbrs, dist)
    {
      rank := UnionStep(parent, n, small, nbrs, dist, k, rank);
    }
    assert small[..|small|] == small;
  }

  /** One round of the union loop: `small[k]` joins its closest neighbour, if it has one. */
  method UnionStep(parent: array<nat>, n: nat, small: seq<nat>, nbrs: seq<seq<nat>>, dist: (nat, nat) -> real, k: nat,
                   ghost rank: seq<nat>) returns (ghost rank': seq<nat>)
    requires NeighbourTable(n, nbrs) && StrictlyIncreasing(small)
    requires forall l :: 0 <= l < |small| ==> small[l] < n
    requires k < |small| && parent.Length == n && IsForest(parent[..], rank)
    requires RootsOf(parent[..], rank) == MergedRoots(n, small[..k], nbrs, dist)
    modifies parent
    ensures IsForest(parent[..], rank')
    ensures RootsOf(parent[..], rank') == MergedRoots(n, small[..k + 1], nbrs, dist)
  {
    rank' := rank;
    var s := small[k];
    assert small[..k + 1][..k] == small[..k];
    var candidates := nbrs[s];
    if |candidates| == 0 {
      return;
    }
    var best := ClosestNeighbour(s, candidates, dist);
    if best.Some? {
      assert s !in small[..k];
      UnprocessedKeepsOwnRoot(n, small[..k], nbrs, dist, s);
      RootRank(parent[..], rank, s);
      rank' := AttachRoot(parent, s, best.value, rank);
    }
  }

  /** The compression loop, lines 146-153: every id mapped to its root. */
  method CompressPaths(parent: array<nat>, ghost rank: seq<nat>) returns (mapIds: seq<nat>)
    requires IsForest(parent[..], rank)
    modifies parent
    ensures mapIds == old(RootsOf(parent[..], rank))
  {
    ghost var roots := RootsOf(parent[..], rank);
    var ids := new nat[parent.Length](i => i);
    for i := 0 to parent.Length
      invariant IsForest(parent[..], rank)
      invariant RootsOf(parent[..], rank) == roots
      invariant forall j :: 0 <= j < i ==> ids[j] == roots[j]
    {
      var j := Find(parent, i, rank);
      assert RootsOf(parent[..], rank) == roots;
      ids[i] := j;
    }
    mapIds := ids[..];
  }

  /** `merge_tiny_regions_fast`. */
  method MergeTinyRegions(labels: seq<nat>, w: nat, minPixels: int, dist: (nat, nat) -> real, order: seq<Pair>)
    returns (res: seq<nat>)
    requires IsGrid(labels, w)
    requires Enumerates(order, AdjacencyPairs(RelabelSequential(labels), w))
    ensures res == Consolidated(labels, w, minPixels, dist, order)
  {
    var out := RelabelSequential(labels);
    var n := IdCount(out);
    if n <= 1 {
      return out;
    }
    var area := Areas(out, n);
    PairsAreIds(labels, w, order);
    var nbrs := BuildNeighbours(n, order);
    var small := SmallIds(area, minPixels);
    if |small| == 0 {
      return out;
    }
    var parent;
    ghost var rank;
    parent, rank := UnionSmallLabels(n, small, nbrs, dist);
    var mapIds := CompressPaths(parent, rank);
    assert mapIds == ConsolidationRoots(labels, w, minPixels, dist, order);
    res := RelabelSequential(ApplyMap(mapIds, out));
  }
}
