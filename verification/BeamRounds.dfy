// The rounds of search/ours_search.cpp, cached_beam_search_explicit, as sequences of
// expanded nodes, independent of any queue.

module BeamRounds {
  import opened Graphs
  import opened Closest
  import opened Traversal

  /** What is visited after the pops `cur` of a round that began with `v0`: cached
      nodes are expanded on the spot, the others only after the round. */
  ghost function Seen(g: Graph, ids: set<nat>, v0: set<nat>, cur: seq<nat>): set<nat>
    requires InGraph(g, cur)
  {
    if cur == [] then v0
    else
      var last := cur[|cur| - 1];
      Seen(g, ids, v0, cur[..|cur| - 1]) + (if last in ids then ToSet(g[last]) else {})
  }

  /** Each pop takes the closest unexpanded node among the L closest seen so far. */
  ghost predicate Pops(g: Graph, d: Dist, l: nat, ids: set<nat>, v0: set<nat>, e0: set<nat>, cur: seq<nat>) {
    cur == [] ||
      var init, last := cur[..|cur| - 1], cur[|cur| - 1];
      Pops(g, d, l, ids, v0, e0, init) && last < |g| && PopAfter(g, d, l, ids, v0, e0, init, last)
  }

  ghost predicate PopAfter(g: Graph, d: Dist, l: nat, ids: set<nat>, v0: set<nat>, e0: set<nat>, cur: seq<nat>, n: nat) {
    InGraph(g, cur) && IsNext(d, l, Seen(g, ids, v0, cur), e0 + ToSet(cur), n)
  }

  lemma PopsAppend(g: Graph, d: Dist, l: nat, ids: set<nat>, v0: set<nat>, e0: set<nat>, cur: seq<nat>, n: nat)
    requires Pops(g, d, l, ids, v0, e0, cur) && PopAfter(g, d, l, ids, v0, e0, cur, n) && n < |g|
    ensures Pops(g, d, l, ids, v0, e0, cur + [n])
    ensures Seen(g, ids, v0, cur + [n]) == Seen(g, ids, v0, cur) + (if n in ids then ToSet(g[n]) else {})
  {
    assert (cur + [n])[..|cur|] == cur;
  }

  lemma {:induction false} PrefixPops(g: Graph, d: Dist, l: nat, ids: set<nat>, v0: set<nat>, e0: set<nat>, cur: seq<nat>, k: nat)
    requires Pops(g, d, l, ids, v0, e0, cur) && k <= |cur|
    ensures Pops(g, d, l, ids, v0, e0, cur[..k])
    decreases |cur|
  {
    if k == |cur| {
      assert cur[..k] == cur;
    } else {
      PrefixPops(g, d, l, ids, v0, e0, cur[..|cur| - 1], k);
      assert cur[..|cur| - 1][..k] == cur[..k];
    }
  }

  /** A round pops up to `w` nodes, fewer only when nothing is left. */
  ghost predicate BeamRound(g: Graph, d: Dist, l: nat, w: nat, ids: set<nat>, v0: set<nat>, e0: set<nat>, cur: seq<nat>) {
    && InGraph(g, cur) && Pops(g, d, l, ids, v0, e0, cur) && 0 < |cur| <= w
    && (|cur| < w ==> forall u :: InTop(d, l, Seen(g, ids, v0, cur), u) ==> u in e0 + ToSet(cur))
  }

  ghost function Flat(rounds: seq<seq<nat>>): seq<nat> {
    if rounds == [] then [] else Flat(rounds[..|rounds| - 1]) + rounds[|rounds| - 1]
  }

  ghost predicate RoundAt(g: Graph, d: Dist, l: nat, w: nat, ids: set<nat>, medoid: nat, rounds: seq<seq<nat>>, r: nat)
    requires r < |rounds|
  {
    var before := Flat(rounds[..r]);
    InGraph(g, before) && BeamRound(g, d, l, w, ids, Reached(g, {medoid}, before), ToSet(before), rounds[r])
  }

  /** The traversal with a cache of `ids`. */
  ghost predicate BeamRun(g: Graph, d: Dist, l: nat, w: nat, ids: set<nat>, medoid: nat, rounds: seq<seq<nat>>) {
    InGraph(g, Flat(rounds)) && forall r :: 0 <= r < |rounds| ==> RoundAt(g, d, l, w, ids, medoid, rounds, r)
  }

  lemma RunAppend(g: Graph, d: Dist, l: nat, w: nat, ids: set<nat>, medoid: nat, rounds: seq<seq<nat>>, cur: seq<nat>)
    requires BeamRun(g, d, l, w, ids, medoid, rounds)
    requires BeamRound(g, d, l, w, ids, Reached(g, {medoid}, Flat(rounds)), ToSet(Flat(rounds)), cur)
    ensures BeamRun(g, d, l, w, ids, medoid, rounds + [cur]) && Flat(rounds + [cur]) == Flat(rounds) + cur
  {
    var all := rounds + [cur];
    assert all[..|rounds|] == rounds;
    forall r | 0 <= r < |all| ensures RoundAt(g, d, l, w, ids, medoid, all, r) {
      if r < |rounds| {
        assert all[..r] == rounds[..r] && RoundAt(g, d, l, w, ids, medoid, rounds, r);
      }
    }
  }

  // ---- the cache and the inputs determine the run ----

  lemma {:induction false} SamePops(g: Graph, d: Dist, l: nat, ids: set<nat>, v0: set<nat>, e0: set<nat>, a: seq<nat>, b: seq<nat>)
    requires Pops(g, d, l, ids, v0, e0, a) && Pops(g, d, l, ids, v0, e0, b) && |a| == |b|
    ensures a == b
    decreases |a|
  {
    if a != [] {
      var n := |a| - 1;
      SamePops(g, d, l, ids, v0, e0, a[..n], b[..n]);
      SamePop(g, d, l, ids, v0, e0, a[..n], a[n], b[n]);
      assert a == a[..n] + [a[n]] && b == b[..n] + [b[n]];
    }
  }

  lemma SamePop(g: Graph, d: Dist, l: nat, ids: set<nat>, v0: set<nat>, e0: set<nat>, cur: seq<nat>, m: nat, n: nat)
    requires PopAfter(g, d, l, ids, v0, e0, cur, m) && PopAfter(g, d, l, ids, v0, e0, cur, n)
    ensures m == n
  {
    NextUnique(d, l, Seen(g, ids, v0, cur), e0 + ToSet(cur), m, n);
  }

  lemma SameRound(g: Graph, d: Dist, l: nat, w: nat, ids: set<nat>, v0: set<nat>, e0: set<nat>, a: seq<nat>, b: seq<nat>)
    requires BeamRound(g, d, l, w, ids, v0, e0, a) && BeamRound(g, d, l, w, ids, v0, e0, b)
    ensures a == b
  {
    if |a| <= |b| {
      NotLonger(g, d, l, w, ids, v0, e0, a, b);
    } else {
      NotLonger(g, d, l, w, ids, v0, e0, b, a);
    }
  }

  lemma NotLonger(g: Graph, d: Dist, l: nat, w: nat, ids: set<nat>, v0: set<nat>, e0: set<nat>, a: seq<nat>, b: seq<nat>)
    requires BeamRound(g, d, l, w, ids, v0, e0, a) && BeamRound(g, d, l, w, ids, v0, e0, b) && |a| <= |b|
    ensures a == b
  {
    var k: nat := |a|;
    PrefixPops(g, d, l, ids, v0, e0, b, k);
    SamePops(g, d, l, ids, v0, e0, a, b[..k]);
    if k < |b| {
      PopLeft(g, d, l, ids, v0, e0, b, k);
    } else {
      assert b[..k] == b;
    }
  }

  /** Where a round goes on, something was left to pop. */
  lemma PopLeft(g: Graph, d: Dist, l: nat, ids: set<nat>, v0: set<nat>, e0: set<nat>, b: seq<nat>, k: nat)
    requires Pops(g, d, l, ids, v0, e0, b) && k < |b|
    ensures PopAfter(g, d, l, ids, v0, e0, b[..k], b[k])
    ensures InTop(d, l, Seen(g, ids, v0, b[..k]), b[k]) && b[k] !in e0 + ToSet(b[..k])
  {
    PrefixPops(g, d, l, ids, v0, e0, b, k + 1);
    assert b[..k + 1][..k] == b[..k] && b[..k + 1][k] == b[k];
  }

  lemma {:induction false} SameRounds(g: Graph, d: Dist, l: nat, w: nat, ids: set<nat>, medoid: nat, a: seq<seq<nat>>, b: seq<seq<nat>>, k: nat)
    requires BeamRun(g, d, l, w, ids, medoid, a) && BeamRun(g, d, l, w, ids, medoid, b) && k <= |a| && k <= |b|
    ensures a[..k] == b[..k]
  {
    if k > 0 {
      SameRounds(g, d, l, w, ids, medoid, a, b, k - 1);
      assert RoundAt(g, d, l, w, ids, medoid, a, k - 1) && RoundAt(g, d, l, w, ids, medoid, b, k - 1);
      var before := Flat(a[..k - 1]);
      SameRound(g, d, l, w, ids, Reached(g, {medoid}, before), ToSet(before), a[k - 1], b[k - 1]);
      assert a[..k] == a[..k - 1] + [a[k - 1]] && b[..k] == b[..k - 1] + [b[k - 1]];
    }
  }

  /** At any beam width, two finished traversals with the same nodes cached are the
      same. */
  lemma BeamDetermined(g: Graph, d: Dist, l: nat, w: nat, ids: set<nat>, medoid: nat, a: seq<seq<nat>>, b: seq<seq<nat>>)
    requires BeamRun(g, d, l, w, ids, medoid, a) && FixedPoint(g, d, l, {medoid}, Flat(a))
    requires BeamRun(g, d, l, w, ids, medoid, b) && FixedPoint(g, d, l, {medoid}, Flat(b))
    ensures a == b
  {
    if |a| <= |b| {
      NoMoreRounds(g, d, l, w, ids, medoid, a, b);
    } else {
      NoMoreRounds(g, d, l, w, ids, medoid, b, a);
    }
  }

  lemma NoMoreRounds(g: Graph, d: Dist, l: nat, w: nat, ids: set<nat>, medoid: nat, a: seq<seq<nat>>, b: seq<seq<nat>>)
    requires BeamRun(g, d, l, w, ids, medoid, a) && FixedPoint(g, d, l, {medoid}, Flat(a))
    requires BeamRun(g, d, l, w, ids, medoid, b) && |a| <= |b|
    ensures a == b
  {
    SameRounds(g, d, l, w, ids, medoid, a, b, |a|);
    assert a[..|a|] == a && b[..|b|] == b;
    if |a| < |b| {
      assert RoundAt(g, d, l, w, ids, medoid, b, |a|);
      FirstPop(g, d, l, ids, Reached(g, {medoid}, Flat(a)), ToSet(Flat(a)), b[|a|]);
    }
  }

  lemma FirstPop(g: Graph, d: Dist, l: nat, ids: set<nat>, v0: set<nat>, e0: set<nat>, cur: seq<nat>)
    requires Pops(g, d, l, ids, v0, e0, cur) && cur != []
    ensures IsNext(d, l, v0, e0, cur[0])
  {
    PrefixPops(g, d, l, ids, v0, e0, cur, 1);
    assert cur[..1][..0] == [] && ToSet([]) == {} && e0 + {} == e0;
  }
}
