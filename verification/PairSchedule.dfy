// construction/our_construction.cpp: the anchor loops, and the one-anchor-per-process
// driver of construction/run_sigma_pipeline.py.

module PairSchedule {
  import opened Wrappers
  import opened PairMask

  /** What a run did: the pairs in order, its counters, and for each anchor the
      partition its handle held. */
  datatype Report = Report(pairs: seq<Pair>, considered: nat, processed: nat, held: seq<nat>, peak: nat)

  ghost predicate DistinctPairs(s: seq<Pair>) {
    forall a, b :: 0 <= a < b < |s| ==> s[a] != s[b]
  }

  ghost function PairSet(s: seq<Pair>): set<Pair> {
    set k | 0 <= k < |s| :: s[k]
  }

  /** Pairs of anchors [begin, i), and of anchor i with targets from j on. */
  ghost predicate Scheduled(s: seq<Pair>, mask: Mask, p: nat, begin: nat, i: nat, j: nat) {
    && DistinctPairs(s)
    && forall x: nat, y: nat :: (x, y) in PairSet(s) <==>
         x < y < p && CrossPairSelected(mask, p, x, y) && (begin <= x < i || (x == i && begin <= i && y >= j))
  }

  lemma ScheduleOne(s: seq<Pair>, mask: Mask, p: nat, begin: nat, i: nat, j: nat)
    requires Scheduled(s, mask, p, begin, i, j + 1) && begin <= i < j < p
    ensures Scheduled(if CrossPairSelected(mask, p, i, j) then s + [(i, j)] else s, mask, p, begin, i, j)
  {
    if CrossPairSelected(mask, p, i, j) {
      var t := s + [(i, j)];
      assert (i, j) !in PairSet(s);
      assert forall k :: 0 <= k < |s| ==> t[k] == s[k] && s[k] in PairSet(s);
      assert t[|s|] == (i, j);
      assert PairSet(t) == PairSet(s) + {(i, j)};
    }
  }

  lemma NextAnchor(s: seq<Pair>, mask: Mask, p: nat, begin: nat, i: nat)
    requires Scheduled(s, mask, p, begin, i, i + 1) && begin <= i
    ensures Scheduled(s, mask, p, begin, i + 1, p)
  {
  }

  lemma {:induction false} PairSetSize(s: seq<Pair>)
    requires DistinctPairs(s)
    ensures |PairSet(s)| == |s|
  {
    if s != [] {
      var init, last := s[..|s| - 1], s[|s| - 1];
      PairSetSize(init);
      assert PairSet(s) == PairSet(init) + {last} by {
        assert forall k :: 0 <= k < |init| ==> init[k] == s[k];
      }
      assert last !in PairSet(init);
    } else {
      assert PairSet(s) == {};
    }
  }

  /** What one anchor of the schedule has done so far. */
  datatype AnchorState = AnchorState(pairs: seq<Pair>, considered: nat, processed: nat, cached: Option<nat>, peak: nat)

  /** The targets of anchor i, from the last partition down; the handle of i + 1 is
      kept for the next anchor. */
  method RunAnchor(mask: Mask, p: nat, i: nat, ghost begin: nat, s0: AnchorState) returns (s: AnchorState)
    requires begin <= i && i + 1 < p && s0.cached.None? && s0.peak <= 2
    requires Scheduled(s0.pairs, mask, p, begin, i, p) && s0.processed == |s0.pairs|
    ensures Scheduled(s.pairs, mask, p, begin, i + 1, p) && s.processed == |s.pairs| && s.considered == s0.considered + (p - 1 - i)
    ensures s.cached == (if CrossPairSelected(mask, p, i, i + 1) then Some(i + 1) else None)
    ensures s.peak <= 2
  {
    s := s0;
    var j := p - 1;
    while j > i
      invariant i <= j < p && Scheduled(s.pairs, mask, p, begin, i, j + 1) && s.processed == |s.pairs|
      invariant s.considered == s0.considered + (p - 1 - j) && s.peak <= 2
      invariant s.cached == if j == i && CrossPairSelected(mask, p, i, i + 1) then Some(i + 1) else None
    {
      s := s.(considered := s.considered + 1);
      ScheduleOne(s.pairs, mask, p, begin, i, j);
      if CrossPairSelected(mask, p, i, j) {
        // u_i and the freshly loaded u_j are resident, and nothing else.
        var resident := 1 + 1 + (if s.cached.Some? then 1 else 0);
        s := s.(processed := s.processed + 1, pairs := s.pairs + [(i, j)], peak := if resident > s.peak then resident else s.peak);
        if j == i + 1 {
          s := s.(cached := Some(j));
        }
      }
      j := j - 1;
    }
    NextAnchor(s.pairs, mask, p, begin, i);
  }

  /** The cross-pair stage over anchors [begin, end) without a single target. */
  method RunAnchors(mask: Mask, p: nat, begin: nat, end: nat) returns (r: Report)
    requires begin <= end && (begin < end ==> end < p)
    ensures DistinctPairs(r.pairs) && r.processed == |r.pairs| && r.peak <= 2
    ensures forall x: nat, y: nat :: (x, y) in PairSet(r.pairs) <==> begin <= x < end && x < y < p && CrossPairSelected(mask, p, x, y)
    ensures |r.held| == end - begin && forall k :: 0 <= k < |r.held| ==> r.held[k] == begin + k
  {
    var s := AnchorState([], 0, 0, None, 0);
    var held: seq<nat> := [];
    for i := begin to end
      invariant Scheduled(s.pairs, mask, p, begin, i, p) && s.processed == |s.pairs| && s.peak <= 2
      invariant s.cached.Some? ==> s.cached.value == i
      invariant |held| == i - begin && forall k :: 0 <= k < |held| ==> held[k] == begin + k
    {
      // The kept handle is reused when there is one; otherwise partition i is loaded.
      var handle := if s.cached.Some? then s.cached.value else i;
      held := held + [handle];
      s := s.(cached := None, peak := if s.peak < 1 then 1 else s.peak);
      s := RunAnchor(mask, p, i, begin, s);
    }
    r := Report(s.pairs, s.considered, s.processed, held, s.peak);
  }

  /** All anchors: every selected pair exactly once, and the processed count is the
      selected count. */
  method RunAll(mask: Mask, p: nat) returns (r: Report)
    requires MaskOk(mask, p)
    ensures DistinctPairs(r.pairs) && PairSet(r.pairs) == SelectedSet(mask, p)
    ensures r.processed == if mask.enabled then mask.selectedPairs else UnorderedPairCount(p)
    ensures r.peak <= 2 && forall k :: 0 <= k < |r.held| ==> r.held[k] == k
  {
    r := RunAnchors(mask, p, 0, if p > 1 then p - 1 else 0);
    FullSet(r.pairs, mask, p, if p > 1 then p - 1 else 0);
    PairSetSize(r.pairs);
    SelectedCount(mask, p);
  }

  lemma FullSet(s: seq<Pair>, mask: Mask, p: nat, end: nat)
    requires end == (if p > 1 then p - 1 else 0)
    requires forall x: nat, y: nat :: (x, y) in PairSet(s) <==> 0 <= x < end && x < y < p && CrossPairSelected(mask, p, x, y)
    ensures PairSet(s) == SelectedSet(mask, p)
  {
    forall q: Pair ensures q in PairSet(s) <==> q in SelectedSet(mask, p) {
      var (x, y) := q;
      assert (x, y) in PairSet(s) <==> q in PairSet(s);
    }
  }

  /** The driver starts one process per anchor; together they process the same
      pairs, each once. */
  method RunPerAnchor(mask: Mask, p: nat) returns (pairs: seq<Pair>)
    requires MaskOk(mask, p)
    ensures DistinctPairs(pairs) && PairSet(pairs) == SelectedSet(mask, p)
  {
    pairs := [];
    var anchors := if p > 1 then p - 1 else 0;
    for anchor := 0 to anchors
      invariant Scheduled(pairs, mask, p, 0, anchor, p)
    {
      var r := RunAnchors(mask, p, anchor, anchor + 1);
      JoinAnchor(pairs, r.pairs, mask, p, anchor);
      pairs := pairs + r.pairs;
    }
    FullSet(pairs, mask, p, anchors);
  }

  lemma JoinAnchor(s: seq<Pair>, more: seq<Pair>, mask: Mask, p: nat, anchor: nat)
    requires Scheduled(s, mask, p, 0, anchor, p) && DistinctPairs(more)
    requires forall x: nat, y: nat :: (x, y) in PairSet(more) <==>
               anchor <= x < anchor + 1 && x < y < p && CrossPairSelected(mask, p, x, y)
    ensures Scheduled(s + more, mask, p, 0, anchor + 1, p)
  {
    var t := s + more;
    forall a, b | 0 <= a < b < |t| ensures t[a] != t[b] {
      if a < |s| <= b {
        assert s[a] in PairSet(s) && more[b - |s|] in PairSet(more);
        assert (s[a].0, s[a].1) in PairSet(s) && (more[b - |s|].0, more[b - |s|].1) in PairSet(more);
      }
    }
    assert PairSet(t) == PairSet(s) + PairSet(more) by {
      assert forall k :: 0 <= k < |s| ==> t[k] == s[k];
      assert forall k :: 0 <= k < |more| ==> t[|s| + k] == more[k];
    }
  }
}
