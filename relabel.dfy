/**
 * Sequential relabelling (`segmentation.relabel_sequential` with its default
 * offset 1): label 0 stays 0 and the other labels present are renumbered
 * 1..k in increasing order.
 */
module Relabel {

  /** The labels that occur in a grid. */
  function Present(g: seq<nat>): set<nat>
  {
    set v | v in g
  }

  /** The positive labels of `present` that are at most `v`. */
  function AtMost(present: set<nat>, v: nat): set<nat>
  {
    set u | u in present && 0 < u <= v
  }

  /** The new id of label `v`: 0 for 0, otherwise its position among the positive labels. */
  function SequentialId(present: set<nat>, v: nat): nat
  {
    if v == 0 then 0 else |AtMost(present, v)|
  }

  /** The relabelled grid: background stays exactly where it was. */
  function RelabelSequential(g: seq<nat>): (r: seq<nat>)
    ensures |r| == |g|
    ensures forall i :: 0 <= i < |g| ==> (r[i] == 0 <==> g[i] == 0)
  {
    var present := Present(g);
    assert forall i :: 0 <= i < |g| && g[i] > 0 ==> g[i] in AtMost(present, g[i]);
    seq(|g|, i requires 0 <= i < |g| => SequentialId(present, g[i]))
  }

  /** Renumbering is strictly increasing on the labels present. */
  lemma SequentialIdIncreasing(present: set<nat>, u: nat, v: nat)
    requires v in present && u < v
    ensures SequentialId(present, u) < SequentialId(present, v)
  {
    var small, large := AtMost(present, u), AtMost(present, v);
    assert small <= large;
    assert v in large - small;
    assert large == small + (large - small);
  }

  /** A positive label present gets an id in 1..k, k the number of positive labels. */
  lemma SequentialIdRange(present: set<nat>, v: nat)
    requires v in present && v > 0
    ensures 1 <= SequentialId(present, v) <= |present - {0}|
  {
    var mine, all := AtMost(present, v), present - {0};
    assert v in mine;
    assert mine <= all;
    assert all == mine + (all - mine);
  }

  /**
   * The relabelled grid orders pixels exactly as the input does: a pixel's
   * label is below another's iff its new id is below the other's, so the
   * partition into regions is unchanged and 0 stays exactly where it was.
   */
  lemma RelabelPreservesOrder(g: seq<nat>, i: nat, j: nat)
    requires i < |g| && j < |g|
    ensures g[i] < g[j] <==> RelabelSequential(g)[i] < RelabelSequential(g)[j]
    ensures g[i] == g[j] <==> RelabelSequential(g)[i] == RelabelSequential(g)[j]
    ensures g[i] == 0 <==> RelabelSequential(g)[i] == 0
    ensures g[i] > 0 ==> RelabelSequential(g)[i] <= |Present(g) - {0}|
  {
    var present := Present(g);
    assert g[i] in present && g[j] in present;
    if g[i] < g[j] {
      SequentialIdIncreasing(present, g[i], g[j]);
    } else if g[j] < g[i] {
      SequentialIdIncreasing(present, g[j], g[i]);
    }
    if g[i] > 0 {
      SequentialIdRange(present, g[i]);
    }
  }

  /** Every label of the relabelled grid is at most the number of positive input labels. */
  lemma RelabelBound(g: seq<nat>)
    ensures forall i :: 0 <= i < |g| ==> RelabelSequential(g)[i] <= |Present(g) - {0}|
  {
    forall i | 0 <= i < |g|
      ensures RelabelSequential(g)[i] <= |Present(g) - {0}|
    {
      RelabelPreservesOrder(g, i, i);
    }
  }
  /** The new ids of the labels in `p`. */
  function Ids(present: set<nat>, p: set<nat>): set<nat>
  {
    set v | v in p :: SequentialId(present, v)
  }

  /** Distinct positive labels get distinct ids, so `p` and its ids have the same size. */
  lemma {:induction false} IdsCard(present: set<nat>, p: set<nat>)
    requires p <= present - {0}
    ensures |Ids(present, p)| == |p|
    decreases p
  {
    if p != {} {
      var x :| x in p;
      var rest := p - {x};
      IdsCard(present, rest);
      assert Ids(present, p) == Ids(present, rest) + {SequentialId(present, x)};
      if SequentialId(present, x) in Ids(present, rest) {
        var y :| y in rest && SequentialId(present, y) == SequentialId(present, x);
        if y < x {
          SequentialIdIncreasing(present, y, x);
        } else {
          SequentialIdIncreasing(present, x, y);
        }
      }
    }
  }

  /** The ids 1..k. */
  function Span(k: nat): (s: set<nat>)
    ensures forall m :: m in s <==> 1 <= m <= k
  {
    if k == 0 then {} else Span(k - 1) + {k}
  }

  lemma {:induction false} SpanCard(k: nat)
    ensures |Span(k)| == k
  {
    if k > 0 {
      SpanCard(k - 1);
    }
  }

  /**
   * The renumbering is onto 1..k, k the number of positive labels present:
   * every id of that range labels some pixel of the relabelled grid.
   */
  lemma RelabelIsDense(g: seq<nat>, m: nat)
    requires 1 <= m <= |Present(g) - {0}|
    ensures m in RelabelSequential(g)
  {
    var present := Present(g);
    var positive := present - {0};
    var k := |positive|;
    var ids := Ids(present, positive);
    IdsCard(present, positive);
    SpanCard(k);
    assert ids <= Span(k) by {
      forall u | u in ids
        ensures u in Span(k)
      {
        var v :| v in positive && SequentialId(present, v) == u;
        SequentialIdRange(present, v);
      }
    }
    assert Span(k) == ids + (Span(k) - ids);
    assert m in Span(k);
    var v :| v in positive && SequentialId(present, v) == m;
    var i :| 0 <= i < |g| && g[i] == v;
    assert RelabelSequential(g)[i] == m;
  }
  /** Relabelling an already sequential grid changes nothing. */
  lemma RelabelIdempotent(g: seq<nat>)
    ensures RelabelSequential(RelabelSequential(g)) == RelabelSequential(g)
  {
    var r := RelabelSequential(g);
    var present := Present(r);
    forall i | 0 <= i < |r|
      ensures SequentialId(present, r[i]) == r[i]
    {
      var m := r[i];
      if m > 0 {
        RelabelPreservesOrder(g, i, i);
        assert AtMost(present, m) == Span(m) by {
          forall u | 1 <= u <= m
            ensures u in present
          {
            RelabelIsDense(g, u);
          }
        }
        SpanCard(m);
      }
    }
  }

  /**
   * Relabelling keeps region sizes: the pixels carrying a label's new id are
   * exactly those that carried the label.
   */
  lemma RelabelKeepsArea(g: seq<nat>, i: nat)
    requires i < |g|
    ensures multiset(RelabelSequential(g))[RelabelSequential(g)[i]] == multiset(g)[g[i]]
  {
    var r := RelabelSequential(g);
    forall j | 0 <= j < |g|
      ensures r[j] == r[i] <==> g[j] == g[i]
    {
      RelabelPreservesOrder(g, j, i);
    }
    SameCount(r, g, r[i], g[i]);
  }

  /** Two sequences marking the same positions hold their marks equally often. */
  lemma {:induction false} SameCount(a: seq<nat>, b: seq<nat>, x: nat, y: nat)
    requires |a| == |b| && forall j :: 0 <= j < |a| ==> (a[j] == x <==> b[j] == y)
    ensures multiset(a)[x] == multiset(b)[y]
  {
    if |a| > 0 {
      var n := |a| - 1;
      SameCount(a[..n], b[..n], x, y);
      assert a == a[..n] + [a[n]];
      assert b == b[..n] + [b[n]];
    }
  }
}
