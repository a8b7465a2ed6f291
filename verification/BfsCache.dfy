// search/ours_search.cpp, cache_bfs_levels: choosing the nodes to cache by
// breadth-first levels from the medoids, reading adjacency in batches.

module BfsCache {
  import opened Graphs
  import opened DiskGraph
  import opened CacheHash

  ghost function Successors(g: Graph, s: set<nat>): set<nat> {
    set u, i | u in s && 0 <= u < |g| && 0 <= i < |g[u]| :: g[u][i]
  }

  /** Nodes at most `k` edges away from a root. */
  ghost function Within(g: Graph, roots: set<nat>, k: nat): set<nat> {
    if k == 0 then roots else Within(g, roots, k - 1) + Successors(g, Within(g, roots, k - 1))
  }

  /** Level sets as a function of the distance. */
  type LevelSets = nat -> set<nat>

  ghost function Levels(g: Graph, roots: set<nat>): LevelSets {
    k => Within(g, roots, k)
  }

  lemma {:induction false} WithinMonotone(g: Graph, roots: set<nat>, j: nat, k: nat)
    requires j <= k
    ensures Within(g, roots, j) <= Within(g, roots, k)
    decreases k
  {
    if j < k {
      WithinMonotone(g, roots, j, k - 1);
    }
  }

  /** Once a level adds nothing, no later one does. */
  lemma {:induction false} WithinStable(g: Graph, roots: set<nat>, r: nat, k: nat)
    requires Successors(g, Within(g, roots, r)) <= Within(g, roots, r)
    ensures Within(g, roots, k) <= Within(g, roots, r)
  {
    if k <= r {
      WithinMonotone(g, roots, k, r);
    } else {
      WithinStable(g, roots, r, k - 1);
      SuccessorsMonotone(g, Within(g, roots, k - 1), Within(g, roots, r));
    }
  }

  lemma {:induction false} WithinInGraph(g: Graph, roots: set<nat>, k: nat)
    requires Closed(g) && forall v :: v in roots ==> v < |g|
    ensures forall v :: v in Within(g, roots, k) ==> v < |g|
  {
    if k > 0 {
      WithinInGraph(g, roots, k - 1);
    }
  }

  /** The first cuts[k] entries are exactly the nodes within distance k. */
  ghost predicate CutsAt(w: LevelSets, list: seq<nat>, cuts: seq<nat>) {
    forall k {:trigger cuts[k]} :: 0 <= k < |cuts| ==> cuts[k] <= |list| && ToSet(list[..cuts[k]]) == w(k)
  }

  /** The caching promise: no repeats; whole levels in order, then part of the
      next one; and a short list is everything reachable. */
  ghost predicate BfsPrefix(w: LevelSets, numNodes: nat, list: seq<nat>, cuts: seq<nat>) {
    && |ToSet(list)| == |list|
    && CutsAt(w, list, cuts)
    && (cuts == [] ==> list == [])
    && (cuts != [] ==> ToSet(list[cuts[|cuts| - 1]..]) <= w(|cuts|) - w(|cuts| - 1))
    && (|list| < numNodes ==> forall k: nat :: w(k) <= ToSet(list))
  }

  /** The same entry by entry: no repeats, only reachable nodes, a node never
      precedes a strictly closer one, everything strictly closer than a listed node
      is listed, and a short list is everything reachable. */
  ghost predicate IsBfsList(g: Graph, roots: set<nat>, numNodes: nat, list: seq<nat>) {
    && Distinct(list)
    && (forall i :: 0 <= i < |list| ==> Reachable(g, roots, list[i]))
    && (forall i, j, k :: 0 <= i < j < |list| && 0 <= k && list[j] in Within(g, roots, k) ==> list[i] in Within(g, roots, k))
    && (forall j, k, v :: 0 <= j < |list| && 0 <= k && list[j] !in Within(g, roots, k) && v in Within(g, roots, k) ==> v in ToSet(list))
    && (|list| < numNodes ==> forall v :: Reachable(g, roots, v) ==> v in ToSet(list))
  }

  ghost predicate Reachable(g: Graph, roots: set<nat>, v: nat) {
    exists k: nat :: v in Within(g, roots, k)
  }

  /** cache_bfs_levels, from an empty list. */
  method CacheBfsLevels(disk: Disk, medoids: seq<nat>, numNodes: nat, batchSize: nat, ghost g: Graph)
    returns (list: seq<nat>)
    requires Closed(g) && Stores(disk, g) && 1 <= batchSize
    requires forall i :: 0 <= i < |medoids| ==> medoids[i] < |g|
    ensures IsBfsList(g, ToSet(medoids), numNodes, list)
    ensures |list| <= numNodes || ToSet(list) == ToSet(medoids)
  {
    list := [];
    ghost var cuts := [];
    ghost var roots := ToSet(medoids);
    if numNodes == 0 {
      BfsOrder(g, roots, numNodes, list, cuts);
      return;
    }
    var visited;
    list, visited := Roots(medoids);
    cuts := [|list|];
    StartProgress(g, roots, list, numNodes);
    var frontier := list;
    while |list| < numNodes && frontier != []
      invariant visited == ToSet(list)
      invariant Progress(Levels(g, roots), |g|, list, cuts, frontier, numNodes)
      invariant |list| <= numNodes || ToSet(list) == roots
      decreases |g| - |list|, |frontier|
    {
      list, frontier, visited, cuts := Round(disk, list, visited, frontier, numNodes, batchSize, roots, cuts, g);
    }
    Finished(g, roots, list, cuts, frontier, numNodes);
    BfsOrder(g, roots, numNodes, list, cuts);
  }

  /** One pass of the outer loop: expand the frontier, swap it for the next level. */
  method Round(disk: Disk, list0: seq<nat>, visited0: set<nat>, frontier: seq<nat>, numNodes: nat, batchSize: nat,
               ghost roots: set<nat>, ghost cuts0: seq<nat>, ghost g: Graph)
    returns (list: seq<nat>, next: seq<nat>, visited: set<nat>, ghost cuts: seq<nat>)
    requires Closed(g) && Stores(disk, g) && 1 <= batchSize && (forall v :: v in roots ==> v < |g|)
    requires visited0 == ToSet(list0) && Complete(Levels(g, roots), list0, cuts0, frontier) && |list0| < numNodes
    ensures visited == ToSet(list) && |list| == |list0| + |next| <= numNodes
    ensures Progress(Levels(g, roots), |g|, list, cuts, next, numNodes)
  {
    LevelReady(g, roots, list0, cuts0, frontier);
    list, next, visited :=
      Level(disk, list0, visited0, frontier, numNodes, batchSize, Levels(g, roots)(|cuts0|), g);
    LevelDone(g, roots, list0, cuts0, frontier, next, visited, numNodes);
    cuts := if |list| < numNodes then cuts0 + [|list|] else cuts0;
  }

  /** All levels up to the last cut are listed; `frontier` is the last level. */
  ghost predicate Complete(w: LevelSets, list: seq<nat>, cuts: seq<nat>, frontier: seq<nat>) {
    && |ToSet(list)| == |list|
    && CutsAt(w, list, cuts)
    && cuts != [] && cuts[|cuts| - 1] == |list|
    && FrontierOf(w, |cuts| - 1, frontier)
  }

  ghost predicate FrontierOf(w: LevelSets, r: nat, frontier: seq<nat>) {
    ToSet(frontier) == (if r == 0 then w(0) else w(r) - w(r - 1))
  }

  /** Between rounds: a complete level, or a list that is long enough. */
  ghost predicate Progress(w: LevelSets, n: nat, list: seq<nat>, cuts: seq<nat>, frontier: seq<nat>, numNodes: nat) {
    && |list| <= n
    && (|list| < numNodes ==> Complete(w, list, cuts, frontier))
    && (|list| >= numNodes ==> BfsPrefix(w, numNodes, list, cuts))
  }

  /** The medoids, each once. */
  method Roots(medoids: seq<nat>) returns (list: seq<nat>, visited: set<nat>)
    ensures ToSet(list) == ToSet(medoids) == visited && |ToSet(list)| == |list|
  {
    list, visited := [], {};
    for i := 0 to |medoids|
      invariant visited == ToSet(list) == ToSet(medoids[..i]) && |visited| == |list|
    {
      var m := medoids[i];
      assert medoids[..i + 1] == medoids[..i] + [m];
      ToSetAppend(medoids[..i], m);
      if m !in visited {
        ToSetAppend(list, m);
        visited := visited + {m};
        list := list + [m];
      }
    }
    assert medoids[..|medoids|] == medoids;
  }

  /** `next` was appended to a list of `base`: unseen nodes of `upto`, each once. */
  ghost predicate Grown(list0: seq<nat>, base: set<nat>, list: seq<nat>, next: seq<nat>, visited: set<nat>, upto: set<nat>) {
    && list == list0 + next
    && |ToSet(next)| == |next|
    && visited == base + ToSet(next)
    && ToSet(next) <= upto - base
  }

  lemma GrowOne(list0: seq<nat>, base: set<nat>, list: seq<nat>, next: seq<nat>, visited: set<nat>, upto: set<nat>, v: nat)
    requires Grown(list0, base, list, next, visited, upto) && v !in visited && v in upto
    ensures Grown(list0, base, list + [v], next + [v], visited + {v}, upto)
  {
    ToSetAppend(next, v);
    assert list0 + next + [v] == list0 + (next + [v]);
  }

  /** A grown list has no repeats either. */
  lemma GrownList(list0: seq<nat>, next: seq<nat>, visited: set<nat>, upto: set<nat>)
    requires Grown(list0, ToSet(list0), list0 + next, next, visited, upto) && |ToSet(list0)| == |list0|
    ensures ToSet(list0 + next) == visited && |visited| == |list0 + next|
  {
    ToSetConcat(list0, next);
  }

  lemma ToSetConcat(a: seq<nat>, b: seq<nat>)
    ensures ToSet(a + b) == ToSet(a) + ToSet(b)
  {
    var t := a + b;
    assert forall i :: 0 <= i < |a| ==> t[i] == a[i];
    assert forall i :: 0 <= i < |b| ==> t[|a| + i] == b[i];
  }

  /** One level, in batches; stops as soon as the list is long enough. */
  method Level(disk: Disk, list0: seq<nat>, visited0: set<nat>, frontier: seq<nat>, numNodes: nat, batchSize: nat,
               ghost upto: set<nat>, ghost g: Graph)
    returns (list: seq<nat>, next: seq<nat>, visited: set<nat>)
    requires Stores(disk, g) && 1 <= batchSize && InUpto(g, frontier, upto) && |list0| < numNodes
    ensures Grown(list0, visited0, list, next, visited, upto) && |list| <= numNodes
    ensures |list| < numNodes ==> Expanded(g, frontier, 0, |frontier|, visited)
  {
    ghost var base := visited0;
    list, next, visited := list0, [], visited0;
    var i := 0;
    while i < |frontier| && |list| < numNodes
      invariant 0 <= i <= |frontier| && |list| <= numNodes
      invariant Grown(list0, base, list, next, visited, upto)
      invariant |list| < numNodes ==> Expanded(g, frontier, 0, i, visited)
      decreases |frontier| - i
    {
      var count := if batchSize < |frontier| - i then batchSize else |frontier| - i;
      list, next, visited := Batch(disk, frontier, i, i + count, list0, base, list, next, visited, numNodes, upto, g);
      i := i + count;
    }
  }

  ghost predicate InUpto(g: Graph, frontier: seq<nat>, upto: set<nat>) {
    forall j :: 0 <= j < |frontier| ==> frontier[j] < |g| && ToSet(g[frontier[j]]) <= upto
  }

  /** Every out-neighbour of frontier[from..end] is visited. */
  ghost predicate Expanded(g: Graph, frontier: seq<nat>, from: nat, end: nat, visited: set<nat>)
    requires end <= |frontier|
  {
    forall j :: from <= j < end ==> frontier[j] < |g| && ToSet(g[frontier[j]]) <= visited
  }

  /** The nodes of one batch of reads. */
  method Batch(disk: Disk, frontier: seq<nat>, from: nat, end: nat, ghost list0: seq<nat>, ghost base: set<nat>, list1: seq<nat>, next1: seq<nat>,
               visited1: set<nat>, numNodes: nat, ghost upto: set<nat>, ghost g: Graph)
    returns (list: seq<nat>, next: seq<nat>, visited: set<nat>)
    requires Stores(disk, g) && from <= end <= |frontier| && InUpto(g, frontier, upto)
    requires Grown(list0, base, list1, next1, visited1, upto) && |list1| < numNodes
    ensures Grown(list0, base, list, next, visited, upto) && visited1 <= visited && |list| <= numNodes
    ensures |list| < numNodes ==> Expanded(g, frontier, from, end, visited)
  {
    list, next, visited := list1, next1, visited1;
    var k := from;
    while k < end && |list| < numNodes
      invariant from <= k <= end && |list| <= numNodes
      invariant Grown(list0, base, list, next, visited, upto) && visited1 <= visited
      invariant |list| < numNodes ==> Expanded(g, frontier, from, k, visited)
      decreases end - k
    {
      var nbrs := Fetch(disk, frontier[k], g);
      list, next, visited := ExpandNode(nbrs, list0, base, list, next, visited, numNodes, upto);
      k := k + 1;
    }
  }

  /** The innermost loop: unseen neighbours join the list and the next level. */
  method ExpandNode(nbrs: seq<nat>, ghost list0: seq<nat>, ghost base: set<nat>, list1: seq<nat>, next1: seq<nat>, visited1: set<nat>,
                    numNodes: nat, ghost upto: set<nat>)
    returns (list: seq<nat>, next: seq<nat>, visited: set<nat>)
    requires Grown(list0, base, list1, next1, visited1, upto) && |list1| < numNodes && ToSet(nbrs) <= upto
    ensures Grown(list0, base, list, next, visited, upto) && visited1 <= visited && |list| <= numNodes
    ensures |list| < numNodes ==> ToSet(nbrs) <= visited
  {
    list, next, visited := list1, next1, visited1;
    for idx := 0 to |nbrs|
      invariant |list| < numNodes
      invariant Grown(list0, base, list, next, visited, upto) && visited1 <= visited
      invariant forall i :: 0 <= i < idx ==> nbrs[i] in visited
    {
      var v := nbrs[idx];
      if v !in visited {
        assert v in ToSet(nbrs);
        GrowOne(list0, base, list, next, visited, upto, v);
        visited := visited + {v};
        list, next := list + [v], next + [v];
        if |list| >= numNodes {
          return;
        }
      }
    }
  }

  // ---- levels ----

  lemma SubsetBound(s: set<nat>, n: nat)
    requires forall v :: v in s ==> v < n
    ensures |s| <= n
  {
    assert s <= Below(n);
    assert Below(n) == s + (Below(n) - s);
  }

  lemma StartProgress(g: Graph, roots: set<nat>, list: seq<nat>, numNodes: nat)
    requires ToSet(list) == roots && |roots| == |list| && forall v :: v in roots ==> v < |g|
    ensures Progress(Levels(g, roots), |g|, list, [|list|], list, numNodes)
  {
    assert list[..|list|] == list && list[|list|..] == [];
    assert Levels(g, roots)(0) == Within(g, roots, 0) == roots;
    SubsetBound(roots, |g|);
  }

  /** Nodes of the last level lead into the next one at most. */
  lemma LevelReady(g: Graph, roots: set<nat>, list: seq<nat>, cuts: seq<nat>, frontier: seq<nat>)
    requires Closed(g) && (forall v :: v in roots ==> v < |g|)
    requires Complete(Levels(g, roots), list, cuts, frontier)
    ensures InUpto(g, frontier, Levels(g, roots)(|cuts|))
  {
    var r := |cuts| - 1;
    WithinInGraph(g, roots, r);
    forall j | 0 <= j < |frontier| ensures frontier[j] < |g| && ToSet(g[frontier[j]]) <= Within(g, roots, r + 1) {
      assert frontier[j] in ToSet(frontier);
      SuccessorsOf(g, Within(g, roots, r), frontier[j]);
    }
  }

  lemma SuccessorsOf(g: Graph, s: set<nat>, u: nat)
    requires u in s && u < |g|
    ensures ToSet(g[u]) <= Successors(g, s)
  {
    forall v | v in ToSet(g[u]) ensures v in Successors(g, s) {
      var i :| 0 <= i < |g[u]| && g[u][i] == v;
    }
  }

  /** After a round: either the next level is complete or the list is long enough. */
  lemma LevelDone(g: Graph, roots: set<nat>, list0: seq<nat>, cuts: seq<nat>, frontier: seq<nat>, next: seq<nat>,
                  visited: set<nat>, numNodes: nat)
    requires Closed(g) && (forall v :: v in roots ==> v < |g|)
    requires Complete(Levels(g, roots), list0, cuts, frontier)
    requires Grown(list0, ToSet(list0), list0 + next, next, visited, Levels(g, roots)(|cuts|))
    requires |list0 + next| < numNodes ==> Expanded(g, frontier, 0, |frontier|, visited)
    ensures visited == ToSet(list0 + next)
    ensures var list := list0 + next;
            Progress(Levels(g, roots), |g|, list, if |list| < numNodes then cuts + [|list|] else cuts, next, numNodes)
  {
    var w, list, r := Levels(g, roots), list0 + next, |cuts| - 1;
    LastCut(w, list0, cuts);
    UptoBound(g, roots, r, visited);
    if |list| < numNodes {
      NextComplete(g, roots, r, frontier, visited);
      LevelComplete(w, list0, cuts, frontier, next, visited);
    } else {
      LevelTruncated(w, list0, cuts, frontier, next, visited, numNodes);
    }
    GrownList(list0, next, visited, w(r + 1));
  }

  lemma LastCut(w: LevelSets, list: seq<nat>, cuts: seq<nat>)
    requires CutsAt(w, list, cuts) && cuts != [] && cuts[|cuts| - 1] == |list|
    ensures ToSet(list) == w(|cuts| - 1)
  {
    assert list[..|list|] == list;
  }

  lemma LevelComplete(w: LevelSets, list0: seq<nat>, cuts: seq<nat>, frontier: seq<nat>, next: seq<nat>, visited: set<nat>)
    requires Complete(w, list0, cuts, frontier)
    requires Grown(list0, ToSet(list0), list0 + next, next, visited, w(|cuts|)) && visited == w(|cuts|)
    ensures Complete(w, list0 + next, cuts + [|list0 + next|], next)
  {
    var list := list0 + next;
    GrownList(list0, next, visited, w(|cuts|));
    CutsKept(w, list0, next, cuts);
    CutsAppend(w, list, cuts);
    assert list0[..|list0|] == list0;
    Remainder(visited, ToSet(list0), ToSet(next));
  }

  lemma LevelTruncated(w: LevelSets, list0: seq<nat>, cuts: seq<nat>, frontier: seq<nat>, next: seq<nat>, visited: set<nat>,
                       numNodes: nat)
    requires Complete(w, list0, cuts, frontier) && |list0 + next| >= numNodes
    requires Grown(list0, ToSet(list0), list0 + next, next, visited, w(|cuts|))
    ensures BfsPrefix(w, numNodes, list0 + next, cuts)
  {
    GrownList(list0, next, visited, w(|cuts|));
    CutsKept(w, list0, next, cuts);
    assert list0[..|list0|] == list0 && (list0 + next)[|list0|..] == next;
  }

  lemma Remainder(all: set<nat>, part: set<nat>, rest: set<nat>)
    requires all == part + rest && part !! rest
    ensures rest == all - part
  {
  }

  lemma CutsAppend(w: LevelSets, list: seq<nat>, cuts: seq<nat>)
    requires CutsAt(w, list, cuts) && ToSet(list) == w(|cuts|)
    ensures CutsAt(w, list, cuts + [|list|])
  {
    assert list[..|list|] == list;
  }

  lemma CutsKept(w: LevelSets, list: seq<nat>, next: seq<nat>, cuts: seq<nat>)
    requires CutsAt(w, list, cuts)
    ensures CutsAt(w, list + next, cuts)
  {
    forall k {:trigger cuts[k]} | 0 <= k < |cuts| ensures ToSet((list + next)[..cuts[k]]) == w(k) {
      assert (list + next)[..cuts[k]] == list[..cuts[k]];
    }
  }

  lemma UptoBound(g: Graph, roots: set<nat>, r: nat, visited: set<nat>)
    requires Closed(g) && (forall v :: v in roots ==> v < |g|)
    requires visited <= Within(g, roots, r) + Within(g, roots, r + 1)
    ensures visited <= Within(g, roots, r + 1) && |visited| <= |g|
  {
    WithinInGraph(g, roots, r + 1);
    SubsetBound(visited, |g|);
  }

  /** With every level-r node expanded, level r + 1 is complete. */
  lemma NextComplete(g: Graph, roots: set<nat>, r: nat, frontier: seq<nat>, visited: set<nat>)
    requires FrontierOf(Levels(g, roots), r, frontier)
    requires Expanded(g, frontier, 0, |frontier|, visited)
    requires Within(g, roots, r) <= visited <= Within(g, roots, r + 1)
    ensures visited == Within(g, roots, r + 1)
  {
    forall v | v in Successors(g, Within(g, roots, r)) ensures v in visited {
      var u, i :| u in Within(g, roots, r) && 0 <= u < |g| && 0 <= i < |g[u]| && g[u][i] == v;
      if u in ToSet(frontier) {
        var j :| 0 <= j < |frontier| && frontier[j] == u;
        assert v in ToSet(g[frontier[j]]);
      } else {
        SuccessorsOf(g, Within(g, roots, r - 1), u);
        assert v in ToSet(g[u]);
      }
    }
  }

  lemma Finished(g: Graph, roots: set<nat>, list: seq<nat>, cuts: seq<nat>, frontier: seq<nat>, numNodes: nat)
    requires Progress(Levels(g, roots), |g|, list, cuts, frontier, numNodes)
    requires |list| >= numNodes || frontier == []
    ensures BfsPrefix(Levels(g, roots), numNodes, list, cuts)
  {
    if |list| < numNodes {
      var r := |cuts| - 1;
      assert list[..cuts[r]] == list && list[cuts[r]..] == [];
      NoNewLevel(g, roots, r, frontier);
      forall k: nat ensures Levels(g, roots)(k) <= ToSet(list) {
        WithinStable(g, roots, r, k);
      }
    }
  }

  /** An empty level ends the search: nothing new is one edge further. */
  lemma NoNewLevel(g: Graph, roots: set<nat>, r: nat, frontier: seq<nat>)
    requires FrontierOf(Levels(g, roots), r, frontier) && frontier == []
    ensures Successors(g, Within(g, roots, r)) <= Within(g, roots, r)
  {
    assert ToSet(frontier) == {};
    if r == 0 {
      assert Within(g, roots, 0) == {};
    } else {
      EmptyDifference(Within(g, roots, r), Within(g, roots, r - 1));
      SuccessorsMonotone(g, Within(g, roots, r), Within(g, roots, r - 1));
    }
  }

  lemma EmptyDifference(a: set<nat>, b: set<nat>)
    requires a - b == {}
    ensures a <= b
  {
    forall v | v in a ensures v in b {
      assert v !in a - b;
    }
  }

  lemma SuccessorsMonotone(g: Graph, a: set<nat>, b: set<nat>)
    requires a <= b
    ensures Successors(g, a) <= Successors(g, b)
  {
  }

  /** Whole levels in order are a BFS list. */
  lemma BfsOrder(g: Graph, roots: set<nat>, numNodes: nat, list: seq<nat>, cuts: seq<nat>)
    requires BfsPrefix(Levels(g, roots), numNodes, list, cuts)
    ensures IsBfsList(g, roots, numNodes, list)
  {
    DistinctBySize(list);
    var w := Levels(g, roots);
    forall j: nat, k: nat | j <= k ensures w(j) <= w(k) {
      WithinMonotone(g, roots, j, k);
    }
    forall i, j, k | 0 <= i < j < |list| && 0 <= k && list[j] in Within(g, roots, k) ensures list[i] in Within(g, roots, k) {
      EarlierIsCloser(w, numNodes, list, cuts, i, j, k);
    }
    forall j, k, v | 0 <= j < |list| && 0 <= k && list[j] !in Within(g, roots, k) && v in Within(g, roots, k)
      ensures v in ToSet(list)
    {
      CloserIsListed(w, numNodes, list, cuts, j, k);
    }
    forall i | 0 <= i < |list| ensures Reachable(g, roots, list[i]) {
      InTopLevel(w, numNodes, list, cuts, i);
      assert list[i] in Within(g, roots, |cuts|);
    }
    if |list| < numNodes {
      forall v | Reachable(g, roots, v) ensures v in ToSet(list) {
        var k: nat :| v in Within(g, roots, k);
        assert w(k) <= ToSet(list);
      }
    }
  }

  lemma EarlierIsCloser(w: LevelSets, numNodes: nat, list: seq<nat>, cuts: seq<nat>, i: nat, j: nat, k: nat)
    requires BfsPrefix(w, numNodes, list, cuts) && Distinct(list)
    requires forall j: nat, k: nat | j <= k :: w(j) <= w(k)
    requires i < j < |list| && list[j] in w(k)
    ensures list[i] in w(k)
  {
    if k < |cuts| {
      var p :| 0 <= p < cuts[k] && list[..cuts[k]][p] == list[j];
      assert p == j && list[..cuts[k]][i] == list[i];
    } else {
      InTopLevel(w, numNodes, list, cuts, i);
    }
  }

  /** Every entry is within one level of the last cut. */
  lemma InTopLevel(w: LevelSets, numNodes: nat, list: seq<nat>, cuts: seq<nat>, i: nat)
    requires BfsPrefix(w, numNodes, list, cuts) && i < |list|
    requires forall j: nat, k: nat | j <= k :: w(j) <= w(k)
    ensures list[i] in w(|cuts|)
  {
    var r := |cuts| - 1;
    var c := cuts[r];
    if i < c {
      assert list[..c][i] in ToSet(list[..c]);
    } else {
      assert list[c..][i - c] in ToSet(list[c..]);
    }
  }

  lemma CloserIsListed(w: LevelSets, numNodes: nat, list: seq<nat>, cuts: seq<nat>, j: nat, k: nat)
    requires BfsPrefix(w, numNodes, list, cuts)
    requires forall j: nat, k: nat | j <= k :: w(j) <= w(k)
    requires j < |list| && list[j] !in w(k)
    ensures w(k) <= ToSet(list)
  {
    if k < |cuts| {
      ToSetConcat(list[..cuts[k]], list[cuts[k]..]);
      assert list == list[..cuts[k]] + list[cuts[k]..];
    } else {
      InTopLevel(w, numNodes, list, cuts, j);
    }
  }

  /** A list without repeats, entry by entry. */
  lemma {:induction false} DistinctBySize(s: seq<nat>)
    requires |ToSet(s)| == |s|
    ensures Distinct(s)
  {
    if s != [] {
      var init, last := s[..|s| - 1], s[|s| - 1];
      assert s == init + [last];
      ToSetAppend(init, last);
      ToSetSize(init);
      DistinctBySize(init);
      assert forall i :: 0 <= i < |init| ==> init[i] in ToSet(init);
    }
  }
}
