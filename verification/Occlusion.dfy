// What the occlusion prune of construction/our_construction.cpp and
// construction/our_pruning.cpp computes, at T = 1 and alpha = 1.

module Occlusion {
  import opened Graphs
  import opened Closest
  import opened Ranking

  type Metric = (nat, nat) -> real

  /** No negative distances, and none from a node to itself. */
  ghost predicate IsMetric(d: Metric) {
    (forall u, v :: d(u, v) >= 0.0) && (forall v :: d(v, v) == 0.0)
  }

  /** Two ways to compute the same distances. */
  ghost predicate Agree(d: Metric, e: Metric) {
    forall u, v :: d(u, v) == e(u, v)
  }

  function From(d: Metric, p: nat): Dist {
    (v: nat) => d(p, v)
  }

  /** A kept node is at least as close to `v` as `p` is. */
  predicate Occluded(d: Metric, p: nat, kept: seq<nat>, v: nat) {
    exists i :: 0 <= i < |kept| && d(kept[i], v) <= d(p, v)
  }

  /** The occlusion pass over a sorted pool, up to `r` nodes. */
  function Kept(d: Metric, p: nat, s: seq<nat>, r: nat): (k: seq<nat>)
    ensures |k| <= r && |k| <= |s|
  {
    if s == [] then []
    else
      var k, v := Kept(d, p, s[..|s| - 1], r), s[|s| - 1];
      if |k| >= r || Occluded(d, p, k, v) then k else k + [v]
  }

  /** The fill pass: nodes not taken yet, in order, up to `r`. */
  function Filled(s: seq<nat>, start: seq<nat>, r: nat): (o: seq<nat>)
    ensures start <= o
  {
    if s == [] then start
    else
      var o, v := Filled(s[..|s| - 1], start, r), s[|s| - 1];
      if |o| >= r || v in o then o else o + [v]
  }

  /** The pruned list of a candidate set. */
  ghost function PruneSet(d: Metric, p: nat, ids: set<nat>, r: nat): seq<nat> {
    var s := Rank(From(d, p), ids);
    Filled(s, Kept(d, p, s, r), r)
  }

  // ---- what the pass keeps ----

  /** Kept nodes come from the pool, in its order. */
  lemma {:induction false} KeptInPool(d: Metric, p: nat, s: seq<nat>, r: nat)
    ensures ToSet(Kept(d, p, s, r)) <= ToSet(s)
  {
    if s != [] {
      var init, v := s[..|s| - 1], s[|s| - 1];
      KeptInPool(d, p, init, r);
      assert s == init + [v];
      ToSetAppend(init, v);
      ToSetAppend(Kept(d, p, init, r), v);
    }
  }

  lemma {:induction false} KeptRanked(d: Metric, p: nat, s: seq<nat>, r: nat, dp: Dist)
    requires Ranked(dp, s)
    ensures Ranked(dp, Kept(d, p, s, r))
  {
    if s != [] {
      var init, v := s[..|s| - 1], s[|s| - 1];
      KeptRanked(d, p, init, r, dp);
      KeptInPool(d, p, init, r);
      RankedBelow(dp, s, Kept(d, p, init, r));
    }
  }

  lemma RankedBelow(dp: Dist, s: seq<nat>, k: seq<nat>)
    requires s != [] && Ranked(dp, s) && ToSet(k) <= ToSet(s[..|s| - 1])
    ensures forall i :: 0 <= i < |k| ==> Before(dp, k[i], s[|s| - 1])
  {
    forall i | 0 <= i < |k| ensures Before(dp, k[i], s[|s| - 1]) {
      assert k[i] in ToSet(k);
      var j :| 0 <= j < |s| - 1 && s[..|s| - 1][j] == k[i];
      assert s[j] == k[i];
    }
  }

  /** Any kept node is farther from later kept ones than `p` is. */
  ghost predicate Separated(d: Metric, p: nat, k: seq<nat>) {
    forall i, j :: 0 <= i < j < |k| ==> d(k[i], k[j]) > d(p, k[j])
  }

  lemma SeparatedAppend(d: Metric, p: nat, k: seq<nat>, v: nat)
    requires Separated(d, p, k) && !Occluded(d, p, k, v)
    ensures Separated(d, p, k + [v])
  {
    var t := k + [v];
    forall i, j | 0 <= i < j < |t| ensures d(t[i], t[j]) > d(p, t[j]) {
      assert t[i] == k[i];
      assert j < |k| ==> t[j] == k[j];
    }
  }

  lemma {:induction false} KeptSeparated(d: Metric, p: nat, s: seq<nat>, r: nat)
    ensures Separated(d, p, Kept(d, p, s, r))
  {
    if s != [] {
      var k, v := Kept(d, p, s[..|s| - 1], r), s[|s| - 1];
      KeptSeparated(d, p, s[..|s| - 1], r);
      if !Occluded(d, p, k, v) {
        SeparatedAppend(d, p, k, v);
      }
    }
  }

  /** Below the degree limit every dropped candidate is occluded by a kept one
      that is no farther from `p`. */
  lemma {:induction false} DroppedIsOccluded(d: Metric, p: nat, s: seq<nat>, r: nat, v: nat)
    requires Ranked(From(d, p), s) && |Kept(d, p, s, r)| < r
    requires v in s && v !in Kept(d, p, s, r)
    ensures exists u :: u in Kept(d, p, s, r) && d(u, v) <= d(p, v) && d(p, u) <= d(p, v)
  {
    var init, x := s[..|s| - 1], s[|s| - 1];
    var k := Kept(d, p, init, r);
    assert s == init + [x];
    if v == x {
      var i :| 0 <= i < |k| && d(k[i], v) <= d(p, v);
      KeptInPool(d, p, init, r);
      assert k[i] in ToSet(k);
      var j :| 0 <= j < |init| && init[j] == k[i];
      assert s[j] == k[i] && Before(From(d, p), s[j], x);
      assert k[i] in Kept(d, p, s, r);
    } else {
      assert v in init;
      DroppedIsOccluded(d, p, init, r, v);
      assert k <= Kept(d, p, s, r);
    }
  }

  // ---- what the whole prune returns ----

  lemma {:induction false} FilledFacts(s: seq<nat>, start: seq<nat>, r: nat)
    requires Distinct(start) && |start| <= r && Distinct(s)
    ensures var o := Filled(s, start, r);
            && Distinct(o) && |o| <= r && ToSet(o) <= ToSet(start) + ToSet(s)
            && (|o| < r ==> ToSet(s) <= ToSet(o))
  {
    if s != [] {
      var init, v := s[..|s| - 1], s[|s| - 1];
      FilledFacts(init, start, r);
      assert s == init + [v];
      ToSetAppend(init, v);
      ToSetAppend(Filled(init, start, r), v);
    }
  }

  /** The pruned list: no repeats, only candidates, as many as the limit and the
      candidates allow, and it starts with the occlusion pass. */
  lemma PruneSetFacts(d: Metric, p: nat, ids: set<nat>, r: nat)
    ensures var o := PruneSet(d, p, ids, r);
            && Distinct(o) && ToSet(o) <= ids
            && |o| == (if |ids| < r then |ids| else r)
            && Kept(d, p, Rank(From(d, p), ids), r) <= o
  {
    var dp := From(d, p);
    var s := Rank(dp, ids);
    var k := Kept(d, p, s, r);
    KeptInPool(d, p, s, r);
    KeptRanked(d, p, s, r, dp);
    FilledFacts(s, k, r);
    FullOrAll(PruneSet(d, p, ids, r), ids, r);
  }

  lemma FullOrAll(o: seq<nat>, ids: set<nat>, r: nat)
    requires Distinct(o) && |o| <= r && ToSet(o) <= ids && (|o| < r ==> ids <= ToSet(o))
    ensures |o| == if |ids| < r then |ids| else r
  {
    SetOfDistinct(o);
    CardinalityMonotone(ToSet(o), ids);
    if |o| < r {
      assert ToSet(o) == ids;
    }
  }

  /** The occlusion pass over a candidate set: kept nodes are candidates and
      mutually separated, and below the degree limit every dropped candidate is
      occluded by a kept one no farther from `p`. */
  lemma OcclusionTheorem(d: Metric, p: nat, ids: set<nat>, r: nat)
    ensures var k := Kept(d, p, Rank(From(d, p), ids), r);
            && ToSet(k) <= ids && Distinct(k) && Separated(d, p, k)
            && (|k| < r ==> forall v :: v in ids && v !in k ==>
                  exists u :: u in k && d(u, v) <= d(p, v) && d(p, u) <= d(p, v))
  {
    var dp := From(d, p);
    var s := Rank(dp, ids);
    var k := Kept(d, p, s, r);
    KeptInPool(d, p, s, r);
    KeptRanked(d, p, s, r, dp);
    KeptSeparated(d, p, s, r);
    if |k| < r {
      forall v | v in ids && v !in k ensures exists u :: u in k && d(u, v) <= d(p, v) && d(p, u) <= d(p, v) {
        assert v in ToSet(s);
        DroppedIsOccluded(d, p, s, r, v);
      }
    }
  }

  // ---- repeats in the pool do not matter ----

  lemma {:induction false} KeptUnique(d: Metric, p: nat, s: seq<nat>, r: nat)
    requires IsMetric(d)
    ensures Kept(d, p, s, r) == Kept(d, p, Unique(s), r)
    ensures s != [] ==> |Kept(d, p, s, r)| >= r || Occluded(d, p, Kept(d, p, s, r), s[|s| - 1])
  {
    if s != [] {
      var init, v := s[..|s| - 1], s[|s| - 1];
      KeptUnique(d, p, init, r);
      var k, u := Kept(d, p, init, r), Unique(init);
      assert (u + [v])[..|u|] == u;
      if |k| < r && !Occluded(d, p, k, v) {
        assert (k + [v])[|k|] == v && d(v, v) <= d(p, v);
      }
    }
  }

  lemma {:induction false} FilledUnique(s: seq<nat>, start: seq<nat>, r: nat)
    ensures Filled(s, start, r) == Filled(Unique(s), start, r)
    ensures s != [] ==> |Filled(s, start, r)| >= r || s[|s| - 1] in Filled(s, start, r)
  {
    if s != [] {
      var init, v := s[..|s| - 1], s[|s| - 1];
      FilledUnique(init, start, r);
      var u := Unique(init);
      assert (u + [v])[..|u|] == u;
      var o := Filled(init, start, r);
      assert v in o + [v];
    }
  }

  /** The prune of a sorted pool depends on the set of its members only. */
  lemma PoolPrune(d: Metric, p: nat, pool: seq<nat>, r: nat)
    requires IsMetric(d) && Ordered(From(d, p), pool)
    ensures Filled(pool, Kept(d, p, pool, r), r) == PruneSet(d, p, ToSet(pool), r)
    ensures Kept(d, p, pool, r) == Kept(d, p, Rank(From(d, p), ToSet(pool)), r)
  {
    KeptUnique(d, p, pool, r);
    FilledUnique(pool, Kept(d, p, pool, r), r);
    UniqueIsRank(From(d, p), pool);
  }

  // ---- the prune depends on the distances only ----

  lemma {:induction false} KeptAgrees(d: Metric, e: Metric, p: nat, s: seq<nat>, r: nat)
    requires Agree(d, e)
    ensures Kept(d, p, s, r) == Kept(e, p, s, r)
  {
    if s != [] {
      KeptAgrees(d, e, p, s[..|s| - 1], r);
    }
  }

  lemma PruneSetAgrees(d: Metric, e: Metric, p: nat, ids: set<nat>, r: nat)
    requires Agree(d, e)
    ensures PruneSet(d, p, ids, r) == PruneSet(e, p, ids, r)
  {
    var a, b := Rank(From(d, p), ids), Rank(From(e, p), ids);
    assert Ranked(From(d, p), b);
    RankUnique(From(d, p), a, b);
    KeptAgrees(d, e, p, a, r);
  }
}
