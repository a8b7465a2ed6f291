// search/ours_search.cpp, cached_beam_search_explicit: for which list sizes and beam
// widths the cache can show in what a search visits and returns.

module CacheEffect {
  import opened Graphs
  import opened Closest
  import opened Traversal
  import opened BeamRounds
  import GreedySearch

  ghost predicate Finished(g: Graph, d: Dist, l: nat, w: nat, ids: set<nat>, medoid: nat, rounds: seq<seq<nat>>) {
    Closed(g) && medoid < |g| && BeamRun(g, d, l, w, ids, medoid, rounds) && FixedPoint(g, d, l, {medoid}, Flat(rounds))
  }

  /** What a run has visited. */
  ghost function Visited(g: Graph, medoid: nat, rounds: seq<seq<nat>>): set<nat>
    requires InGraph(g, Flat(rounds))
  {
    Reached(g, {medoid}, Flat(rounds))
  }

  // ---- runs that are greedy ----

  /** Every pop of a round but the last was cached. */
  ghost predicate Prompt(ids: set<nat>, cur: seq<nat>) {
    forall k :: 0 <= k < |cur| - 1 ==> cur[k] in ids
  }

  lemma {:induction false} SeenReached(g: Graph, init: set<nat>, ids: set<nat>, before: seq<nat>, cur: seq<nat>)
    requires InGraph(g, before) && InGraph(g, cur) && forall k :: 0 <= k < |cur| ==> cur[k] in ids
    ensures Seen(g, ids, Reached(g, init, before), cur) == Reached(g, init, before + cur)
    decreases |cur|
  {
    if cur == [] {
      assert before + cur == before;
    } else {
      var n := |cur| - 1;
      SeenReached(g, init, ids, before, cur[..n]);
      ReachedAppend(g, init, before + cur[..n], cur[n]);
      assert before + cur == before + cur[..n] + [cur[n]];
    }
  }

  lemma {:induction false} RoundGreedy(g: Graph, d: Dist, l: nat, init: set<nat>, ids: set<nat>, before: seq<nat>, cur: seq<nat>)
    requires GreedyOrder(g, d, l, init, before) && InGraph(g, cur) && Prompt(ids, cur)
    requires Pops(g, d, l, ids, Reached(g, init, before), ToSet(before), cur)
    ensures GreedyOrder(g, d, l, init, before + cur)
    decreases |cur|
  {
    if cur == [] {
      assert before + cur == before;
    } else {
      var n := |cur| - 1;
      var first := cur[..n];
      assert Pops(g, d, l, ids, Reached(g, init, before), ToSet(before), first);
      assert PopAfter(g, d, l, ids, Reached(g, init, before), ToSet(before), first, cur[n]);
      RoundGreedy(g, d, l, init, ids, before, first);
      GreedyPop(g, d, l, init, ids, before, first, cur[n]);
      assert before + cur == before + first + [cur[n]];
    }
  }

  lemma GreedyPop(g: Graph, d: Dist, l: nat, init: set<nat>, ids: set<nat>, before: seq<nat>, cur: seq<nat>, n: nat)
    requires InGraph(g, before) && GreedyOrder(g, d, l, init, before + cur) && n < |g|
    requires forall k :: 0 <= k < |cur| ==> cur[k] in ids
    requires PopAfter(g, d, l, ids, Reached(g, init, before), ToSet(before), cur, n)
    ensures GreedyOrder(g, d, l, init, before + cur + [n])
  {
    SeenReached(g, init, ids, before, cur);
    ToSetJoin(before, cur);
    GreedySearch.OrderAppend(g, d, l, init, before + cur, n);
  }

  lemma {:induction false} PromptGreedy(g: Graph, d: Dist, l: nat, w: nat, ids: set<nat>, medoid: nat, rounds: seq<seq<nat>>, k: nat)
    requires BeamRun(g, d, l, w, ids, medoid, rounds) && k <= |rounds|
    requires forall r :: 0 <= r < |rounds| ==> Prompt(ids, rounds[r])
    ensures GreedyOrder(g, d, l, {medoid}, Flat(rounds[..k]))
  {
    if k > 0 {
      PromptGreedy(g, d, l, w, ids, medoid, rounds, k - 1);
      assert RoundAt(g, d, l, w, ids, medoid, rounds, k - 1);
      assert rounds[..k][..k - 1] == rounds[..k - 1];
      RoundGreedy(g, d, l, {medoid}, ids, Flat(rounds[..k - 1]), rounds[k - 1]);
    }
  }

  /** With room for one entry, a node waiting for its read is all the list holds, and
      the round is over. */
  lemma OneEntryPrompt(g: Graph, d: Dist, ids: set<nat>, v0: set<nat>, e0: set<nat>, cur: seq<nat>)
    requires Pops(g, d, 1, ids, v0, e0, cur)
    ensures Prompt(ids, cur)
  {
    forall k | 0 <= k < |cur| - 1 ensures cur[k] in ids {
      var now := cur[..k + 1];
      assert now[..k] == cur[..k] && now[k] == cur[k] && now[k] in ToSet(now);
      PopLeft(g, d, 1, ids, v0, e0, cur, k);
      PopLeft(g, d, 1, ids, v0, e0, cur, k + 1);
      OneInTop(d, Seen(g, ids, v0, cur[..k]), Seen(g, ids, v0, now), cur[k], cur[k + 1]);
    }
  }

  lemma OneInTop(d: Dist, seen: set<nat>, now: set<nat>, u: nat, v: nat)
    requires InTop(d, 1, seen, u) && InTop(d, 1, now, v)
    ensures seen == now ==> u == v
  {
    if seen == now {
      assert u !in Closer(d, seen, v) && v !in Closer(d, seen, u);
    }
  }

  /** At width one, with one list entry, or with every node cached, a run is a greedy
      run. */
  lemma GreedyWhen(g: Graph, d: Dist, l: nat, w: nat, ids: set<nat>, medoid: nat, rounds: seq<seq<nat>>)
    requires BeamRun(g, d, l, w, ids, medoid, rounds) && (w == 1 || l == 1 || Below(|g|) <= ids)
    ensures GreedyOrder(g, d, l, {medoid}, Flat(rounds))
  {
    forall r | 0 <= r < |rounds| ensures Prompt(ids, rounds[r]) {
      assert RoundAt(g, d, l, w, ids, medoid, rounds, r);
      if l == 1 {
        var before := Flat(rounds[..r]);
        OneEntryPrompt(g, d, ids, Reached(g, {medoid}, before), ToSet(before), rounds[r]);
      }
    }
    assert rounds[..|rounds|] == rounds;
    PromptGreedy(g, d, l, w, ids, medoid, rounds, |rounds|);
  }

  /** Then neither the cache nor, with one list entry, the width shows. */
  lemma SameOrder(g: Graph, d: Dist, l: nat, w1: nat, w2: nat, ids1: set<nat>, ids2: set<nat>, medoid: nat, a: seq<seq<nat>>, b: seq<seq<nat>>)
    requires Finished(g, d, l, w1, ids1, medoid, a) && Finished(g, d, l, w2, ids2, medoid, b)
    requires l == 1 || w1 == w2 == 1
    ensures Flat(a) == Flat(b)
  {
    GreedyWhen(g, d, l, w1, ids1, medoid, a);
    GreedyWhen(g, d, l, w2, ids2, medoid, b);
    GreedyOrderUnique(g, d, l, {medoid}, Flat(a), Flat(b));
  }

  // ---- every run can be finished ----

  /** Of the unexpanded nodes among the closest there is a closest. */
  lemma {:induction false} NearestLeft(d: Dist, l: nat, visited: set<nat>, e: set<nat>, v: nat) returns (n: nat)
    requires InTop(d, l, visited, v) && v !in e
    ensures IsNext(d, l, visited, e, n)
    decreases |Closer(d, visited, v)|
  {
    if IsNext(d, l, visited, e, v) {
      return v;
    }
    var m :| InTop(d, l, visited, m) && m !in e && v != m && !Before(d, v, m);
    assert m in Closer(d, visited, v) - Closer(d, visited, m);
    CardinalityMonotone(Closer(d, visited, m), Closer(d, visited, v) - {m});
    n := NearestLeft(d, l, visited, e, m);
  }

  lemma {:induction false} SeenInGraph(g: Graph, ids: set<nat>, v0: set<nat>, cur: seq<nat>)
    requires Closed(g) && InGraph(g, cur) && forall v :: v in v0 ==> v < |g|
    ensures forall v :: v in Seen(g, ids, v0, cur) ==> v < |g|
    decreases |cur|
  {
    if cur != [] {
      SeenInGraph(g, ids, v0, cur[..|cur| - 1]);
    }
  }

  lemma {:induction false} RoundOn(g: Graph, d: Dist, l: nat, w: nat, ids: set<nat>, v0: set<nat>, e0: set<nat>, cur: seq<nat>)
    returns (all: seq<nat>)
    requires Closed(g) && (forall v :: v in v0 ==> v < |g|) && InGraph(g, cur) && |cur| <= w
    requires Pops(g, d, l, ids, v0, e0, cur)
    requires cur == [] ==> 0 < w && exists u :: InTop(d, l, v0, u) && u !in e0
    ensures BeamRound(g, d, l, w, ids, v0, e0, all)
    decreases w - |cur|
  {
    var seen, e := Seen(g, ids, v0, cur), e0 + ToSet(cur);
    if |cur| == w || forall u :: InTop(d, l, seen, u) ==> u in e {
      return cur;
    }
    var u :| InTop(d, l, seen, u) && u !in e;
    var n := NearestLeft(d, l, seen, e, u);
    SeenInGraph(g, ids, v0, cur);
    PopsAppend(g, d, l, ids, v0, e0, cur, n);
    all := RoundOn(g, d, l, w, ids, v0, e0, cur + [n]);
  }

  /** Whatever has been done so far, the traversal goes on to an end. */
  lemma {:induction false} RunOn(g: Graph, d: Dist, l: nat, w: nat, ids: set<nat>, medoid: nat, rounds: seq<seq<nat>>)
    returns (all: seq<seq<nat>>)
    requires Closed(g) && medoid < |g| && 1 <= w && BeamRun(g, d, l, w, ids, medoid, rounds)
    ensures Finished(g, d, l, w, ids, medoid, all) && ToSet(Flat(rounds)) <= ToSet(Flat(all))
    decreases |Below(|g|) - ToSet(Flat(rounds))|
  {
    if FixedPoint(g, d, l, {medoid}, Flat(rounds)) {
      return rounds;
    }
    var v0, e0 := Visited(g, medoid, rounds), ToSet(Flat(rounds));
    ReachedInGraph(g, {medoid}, Flat(rounds));
    assert Seen(g, ids, v0, []) == v0 && Pops(g, d, l, ids, v0, e0, []);
    var cur := RoundOn(g, d, l, w, ids, v0, e0, []);
    RunAppend(g, d, l, w, ids, medoid, rounds, cur);
    FirstPop(g, d, l, ids, v0, e0, cur);
    ToSetJoin(Flat(rounds), cur);
    assert cur[0] in Below(|g|) - e0 && cur[0] in ToSet(cur);
    CardinalityMonotone(Below(|g|) - (e0 + ToSet(cur)), Below(|g|) - e0 - {cur[0]});
    all := RunOn(g, d, l, w, ids, medoid, rounds + [cur]);
  }

  // ---- a cached list that fills the list ----

  /** Node 0 leads to 1 and 2, 2 to 3, the closest of all, and 1 to enough leaves to
      keep 2 out of a list of size l. */
  function Fan(l: nat): Graph
    requires 1 <= l
  {
    [[1, 2], Leaves(l), [3], []] + seq(l - 1, _ => [])
  }

  function Leaves(l: nat): seq<nat>
    requires 1 <= l
  {
    seq(l - 1, i => i + 4)
  }

  const D: Dist := (v: nat) => if v == 0 then 10.0 else if v == 1 then 1.0 else if v == 2 then 5.0 else if v == 3 then 0.1 else 0.5

  lemma FanLists(l: nat)
    requires 1 <= l
    ensures var g := Fan(l); Closed(g) && |g| == l + 3 && ToSet(g[0]) == {1, 2} && g[1] == Leaves(l) && ToSet(g[2]) == {3}
    ensures forall u :: 3 <= u < |Fan(l)| ==> ToSet(Fan(l)[u]) == {}
    ensures forall v :: v in ToSet(Leaves(l)) ==> 4 <= v
    ensures |ToSet(Leaves(l))| == l - 1
  {
    ToSetAppend([], 1);
    ToSetAppend([1], 2);
    ToSetAppend([], 3);
    assert [] + [1] == [1] && [1] + [2] == [1, 2] && [] + [3] == [3] && ToSet([]) == {};
    SetOfDistinct(Leaves(l));
  }

  /** What a search with node 1 cached has seen and popped. */
  ghost predicate Knows(l: nat, seen: set<nat>, e: set<nat>)
    requires 1 <= l
  {
    (2 in seen ==> 1 in seen) && (1 in e ==> ToSet(Leaves(l)) <= seen)
  }

  /** Only node 0 leads to 2 and only node 2 to 3. */
  lemma FanEdge(l: nat, u: nat, v: nat)
    requires 1 <= l && u < |Fan(l)| && v in ToSet(Fan(l)[u])
    ensures (v == 2 ==> u == 0) && (v == 3 ==> u == 2)
  {
    FanLists(l);
  }

  lemma KnowsBefore(l: nat, before: seq<nat>)
    requires 1 <= l && InGraph(Fan(l), before)
    ensures Knows(l, Reached(Fan(l), {0}, before), ToSet(before))
    ensures 3 in Reached(Fan(l), {0}, before) ==> 2 in ToSet(before)
  {
    var g, seen := Fan(l), Reached(Fan(l), {0}, before);
    ReachedClosed(g, {0}, before);
    forall v | v in {2, 3} && v in seen ensures (v == 2 ==> 1 in seen) && (v == 3 ==> 2 in ToSet(before)) {
      var k :| 0 <= k < |before| && v in ToSet(g[before[k]]);
      FanEdge(l, before[k], v);
      if v == 2 {
        FanLists(l);
        assert ToSet(g[before[k]]) <= seen;
      }
    }
    if 1 in ToSet(before) {
      var k :| 0 <= k < |before| && before[k] == 1;
      FanLists(l);
      assert ToSet(g[before[k]]) <= seen;
    }
  }

  lemma {:induction false} KnowsSeen(l: nat, ids: set<nat>, v0: set<nat>, e0: set<nat>, cur: seq<nat>)
    requires 1 <= l && 1 in ids && InGraph(Fan(l), cur) && Knows(l, v0, e0)
    ensures Knows(l, Seen(Fan(l), ids, v0, cur), e0 + ToSet(cur))
    decreases |cur|
  {
    if cur != [] {
      var n := |cur| - 1;
      KnowsSeen(l, ids, v0, e0, cur[..n]);
      FanLists(l);
      ToSetAppend(cur[..n], cur[n]);
      assert cur == cur[..n] + [cur[n]];
    }
  }

  /** Node 1 is always closer than node 2, and once it is popped so are its leaves. */
  lemma NeverNext(l: nat, seen: set<nat>, e: set<nat>)
    requires 1 <= l && Knows(l, seen, e)
    ensures !IsNext(D, l, seen, e, 2)
  {
    if IsNext(D, l, seen, e, 2) {
      var closer := Closer(D, seen, 2);
      CardinalityMonotone(Closer(D, seen, 1), closer);
      assert InTop(D, l, seen, 1) && 1 in e;
      FanLists(l);
      assert 1 !in ToSet(Leaves(l));
      CardinalityMonotone(ToSet(Leaves(l)) + {1}, closer);
    }
  }

  lemma {:induction false} NeverPopped(l: nat, w: nat, ids: set<nat>, rounds: seq<seq<nat>>, k: nat)
    requires 1 <= l && 1 in ids && BeamRun(Fan(l), D, l, w, ids, 0, rounds) && k <= |rounds|
    ensures 2 !in ToSet(Flat(rounds[..k]))
  {
    if k > 0 {
      var before, cur := Flat(rounds[..k - 1]), rounds[k - 1];
      NeverPopped(l, w, ids, rounds, k - 1);
      assert RoundAt(Fan(l), D, l, w, ids, 0, rounds, k - 1);
      KnowsBefore(l, before);
      var v0, e0 := Reached(Fan(l), {0}, before), ToSet(before);
      forall j | 0 <= j < |cur| ensures cur[j] != 2 {
        PopLeft(Fan(l), D, l, ids, v0, e0, cur, j);
        KnowsSeen(l, ids, v0, e0, cur[..j]);
        NeverNext(l, Seen(Fan(l), ids, v0, cur[..j]), e0 + ToSet(cur[..j]));
      }
      assert rounds[..k][..k - 1] == rounds[..k - 1];
      ToSetJoin(before, cur);
    }
  }

  /** With node 1 cached no run finds the closest node. */
  lemma CachedMisses(l: nat, w: nat, ids: set<nat>, rounds: seq<seq<nat>>)
    requires 1 <= l && 1 in ids && BeamRun(Fan(l), D, l, w, ids, 0, rounds)
    ensures 3 !in Visited(Fan(l), 0, rounds)
  {
    assert rounds[..|rounds|] == rounds;
    NeverPopped(l, w, ids, rounds, |rounds|);
    KnowsBefore(l, Flat(rounds));
  }

  /** Without a cache, node 2 is popped beside node 1 and leads to it. */
  lemma UncachedFinds(l: nat, w: nat) returns (rounds: seq<seq<nat>>)
    requires 2 <= l && 2 <= w
    ensures Finished(Fan(l), D, l, w, {}, 0, rounds)
    ensures 3 in Visited(Fan(l), 0, rounds) && InTop(D, l, Visited(Fan(l), 0, rounds), 3)
  {
    FanLists(l);
    BothPopped(l, w);
    rounds := RunOn(Fan(l), D, l, w, {}, 0, [[0], [1, 2]]);
    ReachedClosed(Fan(l), {0}, Flat(rounds));
    var k :| 0 <= k < |Flat(rounds)| && Flat(rounds)[k] == 2;
    assert 3 in ToSet(Fan(l)[2]);
    assert Closer(D, Visited(Fan(l), 0, rounds), 3) == {};
  }

  lemma BothPopped(l: nat, w: nat)
    requires 2 <= l && 2 <= w
    ensures BeamRun(Fan(l), D, l, w, {}, 0, [[0], [1, 2]]) && 2 in ToSet(Flat([[0], [1, 2]]))
  {
    var g := Fan(l);
    FanLists(l);
    MedoidRound(l, w);
    SecondRound(l, w);
    RunAppend(g, D, l, w, {}, 0, [[0]], [1, 2]);
    assert [[0]] + [[1, 2]] == [[0], [1, 2]] && [0] + [1, 2] == [0, 1, 2];
    assert [0, 1, 2][2] == 2;
  }

  lemma MedoidRound(l: nat, w: nat)
    requires 2 <= l && 2 <= w
    ensures BeamRun(Fan(l), D, l, w, {}, 0, [[0]]) && Flat([[0]]) == [0]
    ensures Reached(Fan(l), {0}, [0]) == {0, 1, 2} && ToSet([0]) == {0}
  {
    var g := Fan(l);
    FanLists(l);
    assert Closer(D, {0}, 0) == {};
    OnePop(g, D, l, {0}, {}, 0);
    assert Flat([]) == [] && ToSet([]) == {} && [] + [[0]] == [[0]] && [] + [0] == [0];
    RunAppend(g, D, l, w, {}, 0, [], [0]);
    ReachedAppend(g, {0}, [], 0);
  }

  lemma OnePop(g: Graph, d: Dist, l: nat, v0: set<nat>, e0: set<nat>, x: nat)
    requires x < |g| && IsNext(d, l, v0, e0, x)
    ensures Pops(g, d, l, {}, v0, e0, [x]) && Seen(g, {}, v0, [x]) == v0 && ToSet([x]) == {x}
  {
    NothingPopped(g, v0, e0);
    assert PopAfter(g, d, l, {}, v0, e0, [], x);
    PopsAppend(g, d, l, {}, v0, e0, [], x);
    ToSetAppend([], x);
    assert [] + [x] == [x];
  }

  lemma NothingPopped(g: Graph, v0: set<nat>, e0: set<nat>)
    ensures e0 + ToSet([]) == e0 && ToSet([]) == {} && Seen(g, {}, v0, []) == v0
  {
  }

  lemma TwoClosest(l: nat)
    requires 2 <= l
    ensures IsNext(D, l, {0, 1, 2}, {0}, 1) && IsNext(D, l, {0, 1, 2}, {0, 1}, 2)
  {
    assert Closer(D, {0, 1, 2}, 1) == {} && Closer(D, {0, 1, 2}, 2) == {1};
  }

  /** Node 2 is still among the closest, and the last of them. */
  lemma SecondRound(l: nat, w: nat)
    requires 2 <= l && 2 <= w
    ensures BeamRound(Fan(l), D, l, w, {}, {0, 1, 2}, {0}, [1, 2])
  {
    var g, v := Fan(l), {0, 1, 2};
    FanLists(l);
    TwoClosest(l);
    OnePop(g, D, l, v, {0}, 1);
    assert {0} + {1} == {0, 1};
    PopsAppend(g, D, l, {}, v, {0}, [1], 2);
    ToSetAppend([1], 2);
    assert [1] + [2] == [1, 2] && forall u :: u in v ==> u in {0} + {1, 2};
  }

  // ---- the exact condition ----

  /** Any two finished searches that differ in their cache visit the same nodes. */
  ghost predicate SameVisited(l: nat, w: nat) {
    forall g, d, medoid, ids1, ids2, a, b ::
      Finished(g, d, l, w, ids1, medoid, a) && Finished(g, d, l, w, ids2, medoid, b) ==> Visited(g, medoid, a) == Visited(g, medoid, b)
  }

  /** They end with the same list. */
  ghost predicate SameList(l: nat, w: nat) {
    forall g, d, medoid, ids1, ids2, a, b, v ::
      Finished(g, d, l, w, ids1, medoid, a) && Finished(g, d, l, w, ids2, medoid, b) ==>
      (InTop(d, l, Visited(g, medoid, a), v) <==> InTop(d, l, Visited(g, medoid, b), v))
  }

  /** Two finished searches that differ in the one cached node 1. */
  lemma CacheShows(l: nat, w: nat) returns (a: seq<seq<nat>>, b: seq<seq<nat>>)
    requires 2 <= l && 2 <= w
    ensures Finished(Fan(l), D, l, w, {1}, 0, a) && 3 !in Visited(Fan(l), 0, a)
    ensures Finished(Fan(l), D, l, w, {}, 0, b) && 3 in Visited(Fan(l), 0, b) && InTop(D, l, Visited(Fan(l), 0, b), 3)
  {
    FanLists(l);
    a := RunOn(Fan(l), D, l, w, {1}, 0, []);
    CachedMisses(l, w, {1}, a);
    b := UncachedFinds(l, w);
  }

  /** The cache never shows, in the visited set or in the list returned, exactly when
      the beam has width one or the list one entry. */
  lemma CacheNeverShowsExactly(l: nat, w: nat)
    requires 1 <= l && 1 <= w
    ensures SameVisited(l, w) <==> w == 1 || l == 1
    ensures SameList(l, w) <==> w == 1 || l == 1
  {
    if w == 1 || l == 1 {
      forall g, d, medoid, ids1, ids2, a, b | Finished(g, d, l, w, ids1, medoid, a) && Finished(g, d, l, w, ids2, medoid, b)
        ensures Visited(g, medoid, a) == Visited(g, medoid, b)
      {
        SameOrder(g, d, l, w, w, ids1, ids2, medoid, a, b);
      }
    } else {
      var a, b := CacheShows(l, w);
      assert !InTop(D, l, Visited(Fan(l), 0, a), 3);
    }
  }
}
