/**
 * The array-backed disjoint-set forest of the consolidation pass: `parent[i]`
 * is i's parent and roots are their own parent. `find` walks to the root with
 * path halving (each visited node is re-pointed at its grandparent).
 *
 * Acyclicity is witnessed by a ghost rank that strictly increases from a
 * non-root node to its parent; the rank exists only in the proof.
 */
module UnionFind {

  /** `p` is a forest over 0..|p|-1 whose parent links climb in rank. */
  ghost predicate IsForest(p: seq<nat>, rank: seq<nat>)
  {
    && |rank| == |p|
    && (forall i :: 0 <= i < |p| ==> p[i] < |p|)
    && (forall i :: 0 <= i < |p| && p[i] != i ==> rank[i] < rank[p[i]])
  }

  ghost function MaxRank(rank: seq<nat>): (m: nat)
    ensures forall i :: 0 <= i < |rank| ==> rank[i] <= m
  {
    if |rank| == 0 then 0
    else
      var m := MaxRank(rank[..|rank| - 1]);
      if rank[|rank| - 1] > m then rank[|rank| - 1] else m
  }

  /** The root reached from `x` by following parent links. */
  ghost function Root(p: seq<nat>, rank: seq<nat>, x: nat): (r: nat)
    requires IsForest(p, rank) && x < |p|
    ensures r < |p| && p[r] == r
    decreases MaxRank(rank) - rank[x]
  {
    if p[x] == x then x else Root(p, rank, p[x])
  }

  /** A node is its own root exactly when it is a root. */
  lemma {:induction false} RootRank(p: seq<nat>, rank: seq<nat>, x: nat)
    requires IsForest(p, rank) && x < |p|
    ensures rank[x] <= rank[Root(p, rank, x)]
    ensures Root(p, rank, x) == x <==> p[x] == x
    decreases MaxRank(rank) - rank[x]
  {
    if p[x] != x {
      RootRank(p, rank, p[x]);
    }
  }

  /** Path halving at a non-root `x` keeps the forest and every node's root. */
  lemma Halve(p: seq<nat>, rank: seq<nat>, x: nat)
    requires IsForest(p, rank) && x < |p| && p[x] != x
    ensures IsForest(p[x := p[p[x]]], rank)
    ensures forall y :: 0 <= y < |p| ==> Root(p[x := p[p[x]]], rank, y) == Root(p, rank, y)
  {
    var q := p[x := p[p[x]]];
    assert IsForest(q, rank);
    forall y | 0 <= y < |p|
      ensures Root(q, rank, y) == Root(p, rank, y)
    {
      HalveKeepsRoot(p, rank, x, y);
    }
  }

  lemma {:induction false} HalveKeepsRoot(p: seq<nat>, rank: seq<nat>, x: nat, y: nat)
    requires IsForest(p, rank) && x < |p| && p[x] != x && y < |p|
    requires IsForest(p[x := p[p[x]]], rank)
    ensures Root(p[x := p[p[x]]], rank, y) == Root(p, rank, y)
    decreases MaxRank(rank) - rank[y]
  {
    var q := p[x := p[p[x]]];
    if y == x {
      if p[p[x]] != p[x] {
        HalveKeepsRoot(p, rank, x, p[p[x]]);
      }
    } else if p[y] != y {
      HalveKeepsRoot(p, rank, x, p[y]);
    }
  }

  /** The rank after root `s` is hung below root `r`. */
  ghost function LinkRank(rank: seq<nat>, s: nat, r: nat): seq<nat>
    requires s < |rank| && r < |rank|
  {
    rank[r := if rank[r] > rank[s] then rank[r] else rank[s] + 1]
  }

  /**
   * Hanging root `s` below root `r` keeps a forest, sends every node of s's
   * tree to r and leaves every other node's root alone.
   */
  lemma Link(p: seq<nat>, rank: seq<nat>, s: nat, r: nat)
    requires IsForest(p, rank) && s < |p| && r < |p| && p[s] == s && p[r] == r && s != r
    ensures IsForest(p[s := r], LinkRank(rank, s, r))
    ensures forall y :: 0 <= y < |p| ==>
      Root(p[s := r], LinkRank(rank, s, r), y) == if Root(p, rank, y) == s then r else Root(p, rank, y)
  {
    var q, rank' := p[s := r], LinkRank(rank, s, r);
    assert IsForest(q, rank');
    forall y | 0 <= y < |p|
      ensures Root(q, rank', y) == if Root(p, rank, y) == s then r else Root(p, rank, y)
    {
      LinkRoot(p, rank, s, r, y);
    }
  }

  lemma {:induction false} LinkRoot(p: seq<nat>, rank: seq<nat>, s: nat, r: nat, y: nat)
    requires IsForest(p, rank) && s < |p| && r < |p| && p[s] == s && p[r] == r && s != r
    requires IsForest(p[s := r], LinkRank(rank, s, r)) && y < |p|
    ensures Root(p[s := r], LinkRank(rank, s, r), y) == if Root(p, rank, y) == s then r else Root(p, rank, y)
    decreases MaxRank(rank) - rank[y]
  {
    if y != s && p[y] != y {
      LinkRoot(p, rank, s, r, p[y]);
    }
  }

  /**
   * `find`: returns the root of `x`. Path halving rewrites parent links on
   * the way but keeps the forest and leaves every node's root where it was,
   * which is also why the loop ends.
   */
  method Find(parent: array<nat>, x: nat, ghost rank: seq<nat>) returns (r: nat)
    requires IsForest(parent[..], rank) && x < parent.Length
    modifies parent
    ensures IsForest(parent[..], rank)
    ensures r == Root(old(parent[..]), rank, x) && r < parent.Length && parent[r] == r
    ensures forall y :: 0 <= y < parent.Length ==> Root(parent[..], rank, y) == Root(old(parent[..]), rank, y)
  {
    r := x;
    while parent[r] != r
      invariant r < parent.Length && IsForest(parent[..], rank)
      invariant Root(parent[..], rank, r) == Root(old(parent[..]), rank, x)
      invariant forall y :: 0 <= y < parent.Length ==> Root(parent[..], rank, y) == Root(old(parent[..]), rank, y)
      decreases MaxRank(rank) - rank[r]
    {
      ghost var before := parent[..];
      parent[r] := parent[parent[r]];
      assert parent[..] == before[r := before[before[r]]];
      Halve(before, rank, r);
      r := parent[r];
    }
  }
}
