// search/ours_search.cpp, the traversal loop of cached_beam_search_explicit:
// beam rounds over the queue, adjacency from the cache pool or from disk.

module BeamSearch {
  import opened Neighbors
  import opened Closest
  import opened Graphs
  import opened Traversal
  import opened NeighborPriorityQueues
  import opened BeamRounds
  import opened DiskGraph
  import opened CacheLoad
  import GreedySearch
  import CacheHash

  /** The traversal counters of QueryStats. */
  datatype Stats = Stats(cacheHits: nat, graphReads: nat, rounds: nat, ioRounds: nat, noIoRounds: nat, cmps: nat)

  /** Out-degrees of a set of nodes below n. */
  ghost function Degrees(g: Graph, s: set<nat>, n: nat): nat
    requires n <= |g|
  {
    if n == 0 then 0 else Degrees(g, s, n - 1) + (if n - 1 in s then |g[n - 1]| else 0)
  }

  lemma {:induction false} DegreesAdd(g: Graph, s: set<nat>, n: nat, v: nat)
    requires n <= |g| && v < |g| && v !in s
    ensures Degrees(g, s + {v}, n) == Degrees(g, s, n) + if v < n then |g[v]| else 0
  {
    if n > 0 {
      DegreesAdd(g, s, n - 1, v);
    }
  }

  lemma {:induction false} DegreesNone(g: Graph, n: nat)
    requires n <= |g|
    ensures Degrees(g, {}, n) == 0
  {
    if n > 0 {
      DegreesNone(g, n - 1);
    }
  }

  /** A node still waiting has not been expanded. */
  lemma WaitingIsNew(pops: seq<nat>, done: seq<nat>, waiting: seq<nat>)
    requires Distinct(pops) && |pops| == |done| + |waiting| && ToSet(pops) == ToSet(done) + ToSet(waiting) && waiting != []
    ensures waiting[0] !in ToSet(done)
  {
    if waiting[0] in ToSet(done) {
      var rest := waiting[1..];
      assert waiting == [waiting[0]] + rest;
      ToSetCons(waiting[0], rest);
      assert ToSet(pops) == ToSet(done) + ToSet(rest);
      DistinctUnion(pops, done, rest);
    }
  }

  lemma DistinctUnion(pops: seq<nat>, a: seq<nat>, b: seq<nat>)
    requires Distinct(pops) && ToSet(pops) == ToSet(a) + ToSet(b)
    ensures |pops| <= |a| + |b|
  {
    SetOfDistinct(pops);
    CacheHash.ToSetSize(a);
    CacheHash.ToSetSize(b);
  }

  /** `pops` were taken off the queue, `done` have had their list visited and
      `frontier` still waits for its disk read. */
  ghost predicate Beaming(g: Graph, d: Dist, l: nat, init: set<nat>, pops: seq<nat>, done: seq<nat>,
                          frontier: seq<nat>, visited: set<nat>, s: seq<Neighbor>)
  {
    && InGraph(g, pops) && InGraph(g, done) && InGraph(g, frontier)
    && Distinct(pops) && |pops| == |done| + |frontier|
    && ToSet(pops) == ToSet(done) + ToSet(frontier)
    && visited == Reached(g, init, done)
    && Represents(s, l, d, visited, ToSet(pops))
  }

  /** With beam width 1 the pops are a greedy run. */
  ghost predicate GreedySoFar(g: Graph, d: Dist, l: nat, init: set<nat>, w: nat, pops: seq<nat>, done: seq<nat>) {
    w == 1 ==> GreedyOrder(g, d, l, init, pops) && done <= pops
  }

  /** The traversal, for a cache that holds `ids`: exactly the beam run of that cache.
      What is cached decides the order of expansion; CacheEffect says when it also
      decides what is found. */
  method Traverse(disk: Disk, cache: NodeCache, d: Dist, l: nat, medoid: nat, w: nat, ioLimit: nat,
                  q: NeighborPriorityQueue, ghost ids: set<nat>, ghost g: Graph)
    returns (visited: set<nat>, st: Stats, ghost rounds: seq<seq<nat>>, ghost pops: seq<nat>)
    requires Closed(g) && Stores(disk, g) && cache.Caches(ids, g) && medoid < |g|
    requires 1 <= l && 1 <= w
    requires q.Valid() && q.Contents() == [] && q.capacity == l
    modifies q, q.data
    ensures q.Valid() && q.data == old(q.data)
    ensures BeamRun(g, d, l, w, ids, medoid, rounds) && pops == Flat(rounds) && |rounds| == st.rounds
    ensures Distinct(pops) && InGraph(g, pops)
    ensures visited == Reached(g, {medoid}, pops)
    ensures Represents(q.Contents(), l, d, visited, ToSet(pops))
    ensures st.graphReads < ioLimit ==> FixedPoint(g, d, l, {medoid}, pops)
    ensures w == 1 ==> GreedyOrder(g, d, l, {medoid}, pops)
    ensures |pops| == st.cacheHits + st.graphReads
    ensures st.rounds == st.ioRounds + st.noIoRounds
    ensures if ioLimit == 0 then st.graphReads == 0 else st.graphReads <= ioLimit + w - 1
    ensures st.cmps == Degrees(g, ToSet(pops), |g|)
  {
    visited := GreedySearch.Seed([medoid], d, q, l);
    ToSetAppend([], medoid);
    assert [] + [medoid] == [medoid] && visited == {medoid};
    st := Stats(0, 0, 0, 0, 0, 0);
    pops, rounds := [], [];
    ghost var done: seq<nat> := [];
    assert ToSet(done) == {};
    DegreesNone(g, |g|);
    while q.HasUnexpandedNode() && st.graphReads < ioLimit
      invariant q.Valid() && q.capacity == l && q.data == old(q.data)
      invariant Between(g, d, l, w, ids, medoid, rounds, pops, done, visited, st.cmps, q.Contents())
      invariant |rounds| == st.rounds == st.ioRounds + st.noIoRounds
      invariant |pops| == st.cacheHits + st.graphReads
      invariant if ioLimit == 0 then st.graphReads == 0 else st.graphReads <= ioLimit + w - 1
      decreases |g| - |pops|
    {
      var hits, fetched, cmps;
      hits, fetched, visited, cmps, rounds, pops, done :=
        OneRound(disk, cache, d, l, medoid, w, q, visited, st.cmps, ids, g, rounds, pops, done);
      st := Stats(st.cacheHits + hits, st.graphReads + fetched, st.rounds + 1,
                  st.ioRounds + (if fetched > 0 then 1 else 0), st.noIoRounds + (if fetched == 0 then 1 else 0), cmps);
    }
    ReachedBySet(g, {medoid}, done, pops);
    FirstUnexpandedIsNext(q.Contents(), l, d, visited, ToSet(pops));
  }

  /** Between rounds. */
  ghost predicate Between(g: Graph, d: Dist, l: nat, w: nat, ids: set<nat>, medoid: nat, rounds: seq<seq<nat>>, pops: seq<nat>,
                          done: seq<nat>, visited: set<nat>, cmps: nat, s: seq<Neighbor>)
  {
    && Beaming(g, d, l, {medoid}, pops, done, [], visited, s)
    && GreedySoFar(g, d, l, {medoid}, w, pops, done) && cmps == Degrees(g, ToSet(done), |g|)
    && BeamRun(g, d, l, w, ids, medoid, rounds) && pops == Flat(rounds)
  }

  /** One pass of the outer loop. */
  method OneRound(disk: Disk, cache: NodeCache, d: Dist, l: nat, ghost medoid: nat, w: nat, q: NeighborPriorityQueue,
                  visited0: set<nat>, cmps0: nat, ghost ids: set<nat>, ghost g: Graph,
                  ghost rounds0: seq<seq<nat>>, ghost pops0: seq<nat>, ghost done0: seq<nat>)
    returns (hits: nat, fetched: nat, visited: set<nat>, cmps: nat, ghost rounds: seq<seq<nat>>, ghost pops: seq<nat>, ghost done: seq<nat>)
    requires Closed(g) && Stores(disk, g) && cache.Caches(ids, g) && medoid < |g| && 1 <= w
    requires q.Valid() && q.capacity == l && q.HasUnexpandedNode()
    requires Between(g, d, l, w, ids, medoid, rounds0, pops0, done0, visited0, cmps0, q.Contents())
    modifies q, q.data
    ensures q.Valid() && q.capacity == l && q.data == old(q.data)
    ensures Between(g, d, l, w, ids, medoid, rounds, pops, done, visited, cmps, q.Contents())
    ensures |rounds| == |rounds0| + 1 && |pops0| < |pops| == |pops0| + hits + fetched <= |g| && fetched <= w
  {
    ReachedBySet(g, {medoid}, done0, pops0);
    var frontier;
    ghost var cur;
    frontier, hits, cmps, visited, cur, done := Collect(cache, d, l, w, q, visited0, cmps0, {medoid}, pops0, done0, ids, g);
    RunAppend(g, d, l, w, ids, medoid, rounds0, cur);
    pops, rounds := pops0 + cur, rounds0 + [cur];
    DistinctBound(pops, |g|);
    visited, cmps, done := ReadFrontier(disk, frontier, d, l, w, q, visited, cmps, {medoid}, pops, done, g);
    fetched := |frontier|;
  }

  /** One round's pops: cached nodes are expanded on the spot, the others form
      the frontier. */
  method Collect(cache: NodeCache, d: Dist, l: nat, w: nat, q: NeighborPriorityQueue, visited0: set<nat>, cmps0: nat,
                 ghost init: set<nat>, ghost pops0: seq<nat>, ghost done0: seq<nat>, ghost ids: set<nat>, ghost g: Graph)
    returns (frontier: seq<nat>, hits: nat, cmps: nat, visited: set<nat>, ghost cur: seq<nat>, ghost done: seq<nat>)
    requires Closed(g) && cache.Caches(ids, g) && 1 <= w && forall v :: v in init ==> v < |g|
    requires q.Valid() && q.capacity == l && q.HasUnexpandedNode()
    requires Beaming(g, d, l, init, pops0, done0, [], visited0, q.Contents())
    requires GreedySoFar(g, d, l, init, w, pops0, done0) && cmps0 == Degrees(g, ToSet(done0), |g|)
    modifies q, q.data
    ensures q.Valid() && q.capacity == l && q.data == old(q.data)
    ensures Beaming(g, d, l, init, pops0 + cur, done, frontier, visited, q.Contents())
    ensures GreedySoFar(g, d, l, init, w, pops0 + cur, done) && cmps == Degrees(g, ToSet(done), |g|)
    ensures BeamRound(g, d, l, w, ids, visited0, ToSet(pops0), cur)
    ensures |cur| == hits + |frontier| && |frontier| <= w
  {
    frontier, hits, cmps, visited, done, cur := [], 0, cmps0, visited0, done0, [];
    var numSeen := 0;
    assert pops0 + cur == pops0;
    while q.HasUnexpandedNode() && |frontier| < w && numSeen < w
      invariant q.Valid() && q.capacity == l && q.data == old(q.data)
      invariant Collecting(g, d, l, w, init, ids, visited0, pops0, cur, done, frontier, visited, cmps, q.Contents())
      invariant numSeen == |cur| == hits + |frontier| <= w
      invariant numSeen == 0 ==> q.HasUnexpandedNode()
      decreases w - numSeen
    {
      var hit;
      frontier, hit, visited, cmps, cur, done := CollectOne(cache, d, l, w, q, frontier, visited, cmps, init, visited0, pops0, cur, done, ids, g);
      numSeen := numSeen + 1;
      hits := if hit then hits + 1 else hits;
    }
    RoundEnds(g, d, l, w, ids, visited0, pops0, cur, visited, q.Contents());
  }

  /** Inside a round. */
  ghost predicate Collecting(g: Graph, d: Dist, l: nat, w: nat, init: set<nat>, ids: set<nat>, visited0: set<nat>, pops0: seq<nat>,
                             cur: seq<nat>, done: seq<nat>, frontier: seq<nat>, visited: set<nat>, cmps: nat, s: seq<Neighbor>)
  {
    && Beaming(g, d, l, init, pops0 + cur, done, frontier, visited, s)
    && GreedySoFar(g, d, l, init, w, pops0 + cur, done) && cmps == Degrees(g, ToSet(done), |g|)
    && InGraph(g, cur) && Pops(g, d, l, ids, visited0, ToSet(pops0), cur) && visited == Seen(g, ids, visited0, cur)
  }

  lemma RoundEnds(g: Graph, d: Dist, l: nat, w: nat, ids: set<nat>, visited0: set<nat>, pops0: seq<nat>, cur: seq<nat>,
                  visited: set<nat>, s: seq<Neighbor>)
    requires InGraph(g, cur) && Pops(g, d, l, ids, visited0, ToSet(pops0), cur) && visited == Seen(g, ids, visited0, cur)
    requires Represents(s, l, d, visited, ToSet(pops0 + cur))
    requires 0 < |cur| <= w && (FirstUnexpanded(s) < |s| ==> |cur| == w)
    ensures BeamRound(g, d, l, w, ids, visited0, ToSet(pops0), cur)
  {
    if |cur| < w {
      FirstUnexpandedIsNext(s, l, d, visited, ToSet(pops0 + cur));
      ToSetJoin(pops0, cur);
    }
  }

  method CollectOne(cache: NodeCache, d: Dist, l: nat, w: nat, q: NeighborPriorityQueue, frontier: seq<nat>, visited: set<nat>, cmps: nat,
                    ghost init: set<nat>, ghost visited0: set<nat>, ghost pops0: seq<nat>, ghost cur: seq<nat>, ghost done: seq<nat>,
                    ghost ids: set<nat>, ghost g: Graph)
    returns (frontier': seq<nat>, hit: bool, visited': set<nat>, cmps': nat, ghost cur': seq<nat>, ghost done': seq<nat>)
    requires Closed(g) && cache.Caches(ids, g) && forall v :: v in init ==> v < |g|
    requires q.Valid() && q.capacity == l && q.HasUnexpandedNode() && |frontier| < w
    requires Collecting(g, d, l, w, init, ids, visited0, pops0, cur, done, frontier, visited, cmps, q.Contents())
    modifies q, q.data
    ensures q.Valid() && q.capacity == l && q.data == old(q.data)
    ensures Collecting(g, d, l, w, init, ids, visited0, pops0, cur', done', frontier', visited', cmps', q.Contents())
    ensures |cur'| == |cur| + 1 && |frontier'| == |frontier| + (if hit then 0 else 1)
  {
    var n;
    frontier', hit, visited', cmps', n, done' := PopOne(cache, d, l, w, q, frontier, visited, cmps, init, pops0 + cur, done, ids, g);
    CurAppend(g, d, l, ids, visited0, pops0, cur, n, visited);
    cur' := cur + [n];
  }

  lemma CurAppend(g: Graph, d: Dist, l: nat, ids: set<nat>, v0: set<nat>, pops0: seq<nat>, cur: seq<nat>, n: nat, seen: set<nat>)
    requires InGraph(g, cur) && Pops(g, d, l, ids, v0, ToSet(pops0), cur) && seen == Seen(g, ids, v0, cur) && n < |g|
    requires IsNext(d, l, seen, ToSet(pops0 + cur), n)
    ensures Pops(g, d, l, ids, v0, ToSet(pops0), cur + [n])
    ensures Seen(g, ids, v0, cur + [n]) == seen + (if n in ids then ToSet(g[n]) else {})
    ensures pops0 + (cur + [n]) == pops0 + cur + [n]
  {
    ToSetJoin(pops0, cur);
    PopsAppend(g, d, l, ids, v0, ToSet(pops0), cur, n);
  }

  /** Takes one node off the queue; a cached one is expanded at once. */
  method PopOne(cache: NodeCache, d: Dist, l: nat, w: nat, q: NeighborPriorityQueue, frontier: seq<nat>, visited: set<nat>, cmps: nat,
                ghost init: set<nat>, ghost pops: seq<nat>, ghost done: seq<nat>, ghost ids: set<nat>, ghost g: Graph)
    returns (frontier': seq<nat>, hit: bool, visited': set<nat>, cmps': nat, n: nat, ghost done': seq<nat>)
    requires Closed(g) && cache.Caches(ids, g) && forall v :: v in init ==> v < |g|
    requires q.Valid() && q.capacity == l && q.HasUnexpandedNode() && |frontier| < w
    requires Beaming(g, d, l, init, pops, done, frontier, visited, q.Contents())
    requires GreedySoFar(g, d, l, init, w, pops, done) && cmps == Degrees(g, ToSet(done), |g|)
    modifies q, q.data
    ensures q.Valid() && q.capacity == l && q.data == old(q.data)
    ensures Beaming(g, d, l, init, pops + [n], done', frontier', visited', q.Contents())
    ensures GreedySoFar(g, d, l, init, w, pops + [n], done') && cmps' == Degrees(g, ToSet(done'), |g|)
    ensures n < |g| && IsNext(d, l, visited, ToSet(pops), n) && visited' == visited + (if n in ids then ToSet(g[n]) else {})
    ensures |frontier'| == |frontier| + (if hit then 0 else 1)
  {
    ghost var s0 := q.Contents();
    var nbr := GreedySearch.Pop(d, q, l, visited, ToSet(pops));
    n := nbr.id;
    PopFacts(g, d, l, init, w, pops, done, frontier, visited, n);
    frontier', visited', cmps', done' := frontier, visited, cmps, done;
    var neighbors;
    hit, neighbors := FromCache(cache, n, ids, g);
    if hit {
      visited' := VisitEach(neighbors, d, q, l, visited, ToSet(pops) + {n});
      cmps' := cmps + |neighbors|;
      done' := done + [n];
      PopCached(g, d, l, init, w, pops, done, frontier, visited, s0, n, q.Contents());
      CountExpanded(g, done, n);
    } else {
      frontier' := frontier + [n];
      PopWaiting(g, d, l, init, w, pops, done, frontier, visited, s0, n, q.Contents());
    }
  }

  lemma CountExpanded(g: Graph, done: seq<nat>, n: nat)
    requires n < |g| && n !in ToSet(done)
    ensures Degrees(g, ToSet(done + [n]), |g|) == Degrees(g, ToSet(done), |g|) + |g[n]|
  {
    ToSetAppend(done, n);
    DegreesAdd(g, ToSet(done), |g|, n);
  }

  lemma PopCached(g: Graph, d: Dist, l: nat, init: set<nat>, w: nat, pops: seq<nat>, done: seq<nat>,
                  frontier: seq<nat>, visited: set<nat>, s0: seq<Neighbor>, n: nat, s: seq<Neighbor>)
    requires Closed(g) && (forall v :: v in init ==> v < |g|) && n < |g|
    requires Beaming(g, d, l, init, pops, done, frontier, visited, s0) && |frontier| < w
    requires GreedySoFar(g, d, l, init, w, pops, done) && IsNext(d, l, visited, ToSet(pops), n)
    requires Represents(s, l, d, visited + ToSet(g[n]), ToSet(pops) + {n})
    ensures Beaming(g, d, l, init, pops + [n], done + [n], frontier, visited + ToSet(g[n]), s)
    ensures GreedySoFar(g, d, l, init, w, pops + [n], done + [n])
  {
    PopFacts(g, d, l, init, w, pops, done, frontier, visited, n);
    DoneAppend(g, init, done, n);
  }

  lemma PopWaiting(g: Graph, d: Dist, l: nat, init: set<nat>, w: nat, pops: seq<nat>, done: seq<nat>,
                   frontier: seq<nat>, visited: set<nat>, s0: seq<Neighbor>, n: nat, s: seq<Neighbor>)
    requires Closed(g) && (forall v :: v in init ==> v < |g|)
    requires Beaming(g, d, l, init, pops, done, frontier, visited, s0) && |frontier| < w
    requires GreedySoFar(g, d, l, init, w, pops, done) && IsNext(d, l, visited, ToSet(pops), n)
    requires Represents(s, l, d, visited, ToSet(pops) + {n})
    ensures Beaming(g, d, l, init, pops + [n], done, frontier + [n], visited, s)
    ensures GreedySoFar(g, d, l, init, w, pops + [n], done)
  {
    PopFacts(g, d, l, init, w, pops, done, frontier, visited, n);
    ToSetAppend(frontier, n);
  }

  /** A cached node's list, decoded from the flat pool. */
  method FromCache(cache: NodeCache, id: nat, ghost ids: set<nat>, ghost g: Graph) returns (found: bool, neighbors: seq<nat>)
    requires cache.Caches(ids, g)
    ensures found <==> id in ids
    ensures found ==> id < |g| && neighbors == g[id]
  {
    var offset;
    found, offset := cache.Lookup(id);
    neighbors := [];
    if found {
      var count := cache.pool[offset];
      neighbors := cache.pool[offset + 1..offset + 1 + count];
    }
  }

  /** What a pop adds. */
  lemma PopFacts(g: Graph, d: Dist, l: nat, init: set<nat>, w: nat, pops: seq<nat>, done: seq<nat>,
                 frontier: seq<nat>, visited: set<nat>, n: nat)
    requires Closed(g) && (forall v :: v in init ==> v < |g|)
    requires InGraph(g, pops) && InGraph(g, done) && Distinct(pops)
    requires |pops| == |done| + |frontier| && visited == Reached(g, init, done)
    requires IsNext(d, l, visited, ToSet(pops), n)
    requires GreedySoFar(g, d, l, init, w, pops, done)
    ensures n < |g| && Distinct(pops + [n]) && ToSet(pops + [n]) == ToSet(pops) + {n}
    ensures w == 1 && frontier == [] ==> GreedyOrder(g, d, l, init, pops + [n]) && done == pops
  {
    ReachedInGraph(g, init, done);
    ToSetAppend(pops, n);
    assert n !in ToSet(pops);
    if w == 1 && frontier == [] {
      assert done == pops;
      GreedySearch.OrderAppend(g, d, l, init, pops, n);
    }
  }

  lemma DoneAppend(g: Graph, init: set<nat>, done: seq<nat>, n: nat)
    requires InGraph(g, done) && n < |g|
    ensures InGraph(g, done + [n])
    ensures Reached(g, init, done + [n]) == Reached(g, init, done) + ToSet(g[n])
    ensures ToSet(done + [n]) == ToSet(done) + {n}
  {
    ReachedAppend(g, init, done, n);
    ToSetAppend(done, n);
  }

  /** The disk half of a round: every frontier node is read and expanded. */
  method ReadFrontier(disk: Disk, frontier: seq<nat>, d: Dist, l: nat, w: nat, q: NeighborPriorityQueue,
                      visited0: set<nat>, cmps0: nat, ghost init: set<nat>, ghost pops: seq<nat>, ghost done0: seq<nat>, ghost g: Graph)
    returns (visited: set<nat>, cmps: nat, ghost done: seq<nat>)
    requires Stores(disk, g)
    requires q.Valid() && q.capacity == l
    requires Beaming(g, d, l, init, pops, done0, frontier, visited0, q.Contents())
    requires GreedySoFar(g, d, l, init, w, pops, done0) && |frontier| <= w && cmps0 == Degrees(g, ToSet(done0), |g|)
    modifies q, q.data
    ensures q.Valid() && q.capacity == l && q.data == old(q.data)
    ensures Beaming(g, d, l, init, pops, done, [], visited, q.Contents())
    ensures GreedySoFar(g, d, l, init, w, pops, done) && cmps == Degrees(g, ToSet(done), |g|)
  {
    visited, cmps, done := visited0, cmps0, done0;
    ghost var waiting := frontier;
    for i := 0 to |frontier|
      invariant q.Valid() && q.capacity == l && q.data == old(q.data)
      invariant waiting == frontier[i..] && done == done0 + frontier[..i]
      invariant Beaming(g, d, l, init, pops, done, waiting, visited, q.Contents()) && cmps == Degrees(g, ToSet(done), |g|)
    {
      Advance(done0, frontier, i);
      visited, cmps := ReadOne(disk, frontier[i], d, l, q, visited, cmps, init, pops, done, waiting, g);
      done := done + [frontier[i]];
      waiting := waiting[1..];
    }
    assert frontier[|frontier|..] == [] && frontier[..|frontier|] == frontier;
    if w == 1 && frontier != [] {
      assert frontier == [frontier[0]];
      GreedyDone(g, pops, done0, done, frontier[0]);
    }
  }

  lemma Advance(done: seq<nat>, frontier: seq<nat>, i: nat)
    requires i < |frontier|
    ensures frontier[i..][0] == frontier[i] && frontier[i..][1..] == frontier[i + 1..]
    ensures done + frontier[..i] + [frontier[i]] == done + frontier[..i + 1]
  {
  }

  /** Reads and expands the first waiting node. */
  method ReadOne(disk: Disk, id: nat, d: Dist, l: nat, q: NeighborPriorityQueue, visited: set<nat>, cmps: nat,
                 ghost init: set<nat>, ghost pops: seq<nat>, ghost done: seq<nat>, ghost waiting: seq<nat>, ghost g: Graph)
    returns (visited': set<nat>, cmps': nat)
    requires Stores(disk, g) && cmps == Degrees(g, ToSet(done), |g|) && waiting != [] && waiting[0] == id
    requires q.Valid() && q.capacity == l
    requires Beaming(g, d, l, init, pops, done, waiting, visited, q.Contents())
    modifies q, q.data
    ensures q.Valid() && q.capacity == l && q.data == old(q.data)
    ensures Beaming(g, d, l, init, pops, done + [id], waiting[1..], visited', q.Contents())
    ensures cmps' == Degrees(g, ToSet(done + [id]), |g|)
  {
    WaitingIsNew(pops, done, waiting);
    CountExpanded(g, done, id);
    var nbrs := Fetch(disk, id, g);
    visited' := VisitEach(nbrs, d, q, l, visited, ToSet(pops));
    cmps' := cmps + |nbrs|;
    DoneAppend(g, init, done, id);
    assert waiting == [id] + waiting[1..];
    ToSetCons(id, waiting[1..]);
  }

  lemma ToSetCons(x: nat, s: seq<nat>)
    ensures ToSet([x] + s) == {x} + ToSet(s)
  {
    var t := [x] + s;
    assert t[0] == x && forall i :: 0 <= i < |s| ==> t[i + 1] == s[i];
  }

  /** With one frontier node, finishing it catches up with the pops. */
  lemma GreedyDone(g: Graph, pops: seq<nat>, done0: seq<nat>, done: seq<nat>, n: nat)
    requires Distinct(pops) && done0 <= pops && |pops| == |done0| + 1 && done == done0 + [n]
    requires ToSet(pops) == ToSet(done)
    ensures done == pops
  {
    var last := pops[|done0|];
    assert pops == done0 + [last];
    assert last in ToSet(pops);
    assert forall i :: 0 <= i < |done0| ==> pops[i] == done[i];
    var k :| 0 <= k < |done| && done[k] == last;
  }

  /** Visited grows by the list; each id new to it is offered to the queue. */
  method VisitEach(nbrs: seq<nat>, d: Dist, q: NeighborPriorityQueue, l: nat, visited0: set<nat>, ghost expanded: set<nat>)
    returns (visited: set<nat>)
    requires q.Valid() && q.capacity == l && Represents(q.Contents(), l, d, visited0, expanded)
    modifies q, q.data
    ensures q.Valid() && q.capacity == l && q.data == old(q.data)
    ensures visited == visited0 + ToSet(nbrs) && Represents(q.Contents(), l, d, visited, expanded)
  {
    visited := visited0;
    assert visited0 + ToSet(nbrs[..0]) == visited0;
    for i := 0 to |nbrs|
      invariant q.Valid() && q.capacity == l && q.data == old(q.data)
      invariant visited == visited0 + ToSet(nbrs[..i]) && Represents(q.Contents(), l, d, visited, expanded)
    {
      assert nbrs[..i + 1] == nbrs[..i] + [nbrs[i]];
      ToSetAppend(nbrs[..i], nbrs[i]);
      if nbrs[i] !in visited {
        InsertRepresents(q.Contents(), l, d, visited, expanded, nbrs[i]);
        visited := visited + {nbrs[i]};
        q.Insert(Neighbor(nbrs[i], d(nbrs[i]), false));
      }
    }
    assert nbrs[..|nbrs|] == nbrs;
  }

  /** The visited set depends on which nodes were expanded, not on their order. */
  lemma ReachedBySet(g: Graph, init: set<nat>, a: seq<nat>, b: seq<nat>)
    requires InGraph(g, a) && InGraph(g, b) && ToSet(a) == ToSet(b)
    ensures Reached(g, init, a) == Reached(g, init, b)
  {
    ReachedSubset(g, init, a, b);
    ReachedSubset(g, init, b, a);
  }

  lemma ReachedSubset(g: Graph, init: set<nat>, a: seq<nat>, b: seq<nat>)
    requires InGraph(g, a) && InGraph(g, b) && ToSet(a) <= ToSet(b)
    ensures Reached(g, init, a) <= Reached(g, init, b)
  {
    ReachedClosed(g, init, a);
    ReachedClosed(g, init, b);
    forall v | v in Reached(g, init, a) ensures v in Reached(g, init, b) {
      if v !in init {
        var k :| 0 <= k < |a| && v in ToSet(g[a[k]]);
        assert a[k] in ToSet(b);
        var j :| 0 <= j < |b| && b[j] == a[k];
        assert ToSet(g[b[j]]) <= Reached(g, init, b);
      }
    }
  }

  /** Beam width 1 without an I/O limit is the uncached greedy search: whatever
      two caches hold, both traversals expand the same nodes in the same order,
      so visited set and list agree. */
  lemma BeamOneIsGreedy(g: Graph, d: Dist, l: nat, medoid: nat, beam: seq<nat>, greedy: seq<nat>)
    requires GreedyOrder(g, d, l, {medoid}, beam) && FixedPoint(g, d, l, {medoid}, beam)
    requires GreedyOrder(g, d, l, {medoid}, greedy) && FixedPoint(g, d, l, {medoid}, greedy)
    ensures beam == greedy && Reached(g, {medoid}, beam) == Reached(g, {medoid}, greedy)
    ensures forall s, t | Represents(s, l, d, Reached(g, {medoid}, beam), ToSet(beam))
                          && Represents(t, l, d, Reached(g, {medoid}, greedy), ToSet(greedy)) :: s == t
  {
    GreedyOrderUnique(g, d, l, {medoid}, beam, greedy);
    var v, e := Reached(g, {medoid}, beam), ToSet(beam);
    forall s, t | Represents(s, l, d, v, e) && Represents(t, l, d, v, e) ensures s == t {
      RepresentsUnique(s, t, l, d, v, e);
    }
  }
}
