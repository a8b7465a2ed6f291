// src/index.cpp, iterate_to_fixed_point_emit: greedy search over an in-memory
// proximity graph, driven by the bounded queue.

module GreedySearch {
  import opened Neighbors
  import opened Closest
  import opened Graphs
  import opened Traversal
  import opened NeighborPriorityQueues

  /** iterate_to_fixed_point_emit: the expanded nodes in order with their
      distances, and the hop and comparison counts. */
  method IterateToFixedPoint(g: Graph, d: Dist, l: nat, initIds: seq<nat>, q: NeighborPriorityQueue)
    returns (outIds: seq<nat>, outDists: seq<real>, visited: set<nat>, hops: nat, cmps: nat)
    requires Closed(g) && InGraph(g, initIds) && 1 <= l
    requires q.Valid()
    modifies q, q.data
    ensures GreedyOrder(g, d, l, ToSet(initIds), outIds) && FixedPoint(g, d, l, ToSet(initIds), outIds)
    ensures visited == Reached(g, ToSet(initIds), outIds)
    ensures q.Valid() && Represents(q.Contents(), l, d, visited, ToSet(outIds))
    ensures hops == |outIds| == |outDists| && forall i :: 0 <= i < hops ==> outDists[i] == d(outIds[i])
    ensures cmps == Comparisons(g, ToSet(initIds), outIds)
  {
    visited := Begin(g, d, l, initIds, q);
    outIds, outDists, hops, cmps := [], [], 0, 0;
    while q.HasUnexpandedNode()
      invariant q.Valid() && q.capacity == l && (q.data == old(q.data) || fresh(q.data))
      invariant Searching(g, d, l, ToSet(initIds), outIds, visited, q.Contents())
      invariant hops == |outIds| == |outDists| && forall i :: 0 <= i < hops ==> outDists[i] == d(outIds[i])
      invariant cmps == Comparisons(g, ToSet(initIds), outIds)
      decreases |g| - |outIds|
    {
      var cur, added;
      cur, visited, added := Hop(g, d, l, q, visited, ToSet(initIds), outIds);
      ComparisonsAppend(g, ToSet(initIds), outIds, cur.id);
      hops := hops + 1;
      outIds, outDists := outIds + [cur.id], outDists + [cur.distance];
      cmps := cmps + added;
    }
    FirstUnexpandedIsNext(q.Contents(), l, d, visited, ToSet(outIds));
  }

  /** Empties the queue, gives it room for `l` entries and offers the start nodes. */
  method Begin(g: Graph, d: Dist, l: nat, initIds: seq<nat>, q: NeighborPriorityQueue) returns (visited: set<nat>)
    requires 1 <= l && q.Valid()
    modifies q, q.data
    ensures q.Valid() && q.capacity == l && (q.data == old(q.data) || fresh(q.data))
    ensures Searching(g, d, l, ToSet(initIds), [], visited, q.Contents())
  {
    q.Clear();
    q.Reserve(l);
    visited := Seed(initIds, d, q, l);
  }

  /** The entries of a list not visited yet, repeats included. */
  function Unseen(nbrs: seq<nat>, visited: set<nat>): seq<nat> {
    if nbrs == [] then []
    else
      var init, v := Unseen(nbrs[..|nbrs| - 1], visited), nbrs[|nbrs| - 1];
      if v in visited then init else init + [v]
  }

  /** Distances computed along a run. */
  ghost function Comparisons(g: Graph, init: set<nat>, order: seq<nat>): nat
    requires InGraph(g, order)
  {
    if order == [] then 0
    else
      var before := order[..|order| - 1];
      Comparisons(g, init, before) + |Unseen(g[order[|order| - 1]], Reached(g, init, before))|
  }

  lemma ComparisonsAppend(g: Graph, init: set<nat>, order: seq<nat>, n: nat)
    requires InGraph(g, order) && n < |g|
    ensures Comparisons(g, init, order + [n]) == Comparisons(g, init, order) + |Unseen(g[n], Reached(g, init, order))|
  {
    assert (order + [n])[..|order|] == order;
  }

  /** The loop invariant of the search. */
  ghost predicate Searching(g: Graph, d: Dist, l: nat, init: set<nat>, outIds: seq<nat>, visited: set<nat>,
                            s: seq<Neighbor>)
  {
    && GreedyOrder(g, d, l, init, outIds)
    && visited == Reached(g, init, outIds)
    && Represents(s, l, d, visited, ToSet(outIds))
  }

  /** One hop: expand the closest unexpanded node. */
  method Hop(g: Graph, d: Dist, l: nat, q: NeighborPriorityQueue, visited: set<nat>,
             ghost init: set<nat>, ghost outIds: seq<nat>)
    returns (cur: Neighbor, visited': set<nat>, added: nat)
    requires Closed(g) && forall v :: v in init ==> v < |g|
    requires q.Valid() && q.capacity == l && q.HasUnexpandedNode()
    requires Searching(g, d, l, init, outIds, visited, q.Contents())
    modifies q, q.data
    ensures q.Valid() && q.capacity == l && q.data == old(q.data)
    ensures Searching(g, d, l, init, outIds + [cur.id], visited', q.Contents())
    ensures cur.distance == d(cur.id) && cur.id < |g| && |outIds| < |g| && added == |Unseen(g[cur.id], visited)|
  {
    cur := Pop(d, q, l, visited, ToSet(outIds));
    ReachedInGraph(g, init, outIds);
    ExpandedBound(g, d, l, init, outIds, cur.id);
    OrderAppend(g, d, l, init, outIds, cur.id);
    visited', added := Visit(g[cur.id], d, q, l, visited, ToSet(outIds) + {cur.id});
  }

  /** Offers the start nodes, each once. */
  method Seed(initIds: seq<nat>, d: Dist, q: NeighborPriorityQueue, l: nat) returns (visited: set<nat>)
    requires q.Valid() && q.capacity == l && 1 <= l && q.Contents() == []
    modifies q, q.data
    ensures q.Valid() && q.capacity == l && q.data == old(q.data)
    ensures visited == ToSet(initIds) && Represents(q.Contents(), l, d, visited, {})
  {
    visited := {};
    for i := 0 to |initIds|
      invariant q.Valid() && q.capacity == l && q.data == old(q.data)
      invariant visited == ToSet(initIds[..i])
      invariant Represents(q.Contents(), l, d, visited, {})
    {
      var id := initIds[i];
      assert initIds[..i + 1] == initIds[..i] + [id];
      ToSetAppend(initIds[..i], id);
      if id !in visited {
        InsertRepresents(q.Contents(), l, d, visited, {}, id);
        visited := visited + {id};
        q.Insert(Neighbor(id, d(id), false));
      }
    }
    assert initIds[..|initIds|] == initIds;
  }

  /** Takes the closest unexpanded entry off the cursor. */
  method Pop(d: Dist, q: NeighborPriorityQueue, l: nat, ghost visited: set<nat>, ghost expanded: set<nat>)
    returns (cur: Neighbor)
    requires q.Valid() && q.capacity == l && Represents(q.Contents(), l, d, visited, expanded)
    requires q.HasUnexpandedNode()
    modifies q, q.data
    ensures q.Valid() && q.capacity == l && q.data == old(q.data)
    ensures IsNext(d, l, visited, expanded, cur.id) && cur.distance == d(cur.id)
    ensures Represents(q.Contents(), l, d, visited, expanded + {cur.id})
  {
    ghost var s := q.Contents();
    FirstUnexpandedIsNext(s, l, d, visited, expanded);
    ExpandRepresents(s, l, d, visited, expanded, FirstUnexpanded(s));
    cur := q.ClosestUnexpanded();
  }

  /** One node's neighbours: the unvisited ones are marked, then offered. */
  method Visit(nbrs: seq<nat>, d: Dist, q: NeighborPriorityQueue, l: nat, visited: set<nat>, ghost expanded: set<nat>)
    returns (visited': set<nat>, added: nat)
    requires q.Valid() && q.capacity == l && Represents(q.Contents(), l, d, visited, expanded)
    modifies q, q.data
    ensures q.Valid() && q.capacity == l && q.data == old(q.data)
    ensures visited' == visited + ToSet(nbrs) && Represents(q.Contents(), l, d, visited', expanded)
    ensures added == |Unseen(nbrs, visited)|
  {
    var idScratch := Unvisited(nbrs, visited);
    visited' := visited + set i | 0 <= i < |idScratch| :: idScratch[i];
    assert visited' == visited + ToSet(nbrs);
    InsertAll(idScratch, d, q, l, visited, expanded);
    added := |idScratch|;
  }

  /** The neighbours of one node not visited yet; repeats within the list stay. */
  method Unvisited(nbrs: seq<nat>, visited: set<nat>) returns (ids: seq<nat>)
    ensures ids == Unseen(nbrs, visited) && ToSet(ids) == ToSet(nbrs) - visited
  {
    ids := [];
    for i := 0 to |nbrs|
      invariant ids == Unseen(nbrs[..i], visited) && ToSet(ids) == ToSet(nbrs[..i]) - visited
    {
      assert nbrs[..i + 1] == nbrs[..i] + [nbrs[i]] && nbrs[..i + 1][..i] == nbrs[..i];
      ToSetAppend(nbrs[..i], nbrs[i]);
      if nbrs[i] !in visited {
        ToSetAppend(ids, nbrs[i]);
        ids := ids + [nbrs[i]];
      }
    }
    assert nbrs[..|nbrs|] == nbrs;
  }

  /** Offers every id of a batch to the queue. */
  method InsertAll(ids: seq<nat>, d: Dist, q: NeighborPriorityQueue, l: nat,
                   ghost visited: set<nat>, ghost expanded: set<nat>)
    requires q.Valid() && q.capacity == l && Represents(q.Contents(), l, d, visited, expanded)
    modifies q, q.data
    ensures q.Valid() && q.capacity == l && q.data == old(q.data)
    ensures Represents(q.Contents(), l, d, visited + ToSet(ids), expanded)
  {
    ghost var seen := visited;
    for i := 0 to |ids|
      invariant q.Valid() && q.capacity == l && q.data == old(q.data)
      invariant seen == visited + ToSet(ids[..i]) && Represents(q.Contents(), l, d, seen, expanded)
    {
      InsertRepresents(q.Contents(), l, d, seen, expanded, ids[i]);
      PrefixSeen(visited, ids, i);
      seen := seen + {ids[i]};
      q.Insert(Neighbor(ids[i], d(ids[i]), false));
    }
    assert ids[..|ids|] == ids;
  }

  lemma PrefixSeen(visited: set<nat>, ids: seq<nat>, i: nat)
    requires i < |ids|
    ensures visited + ToSet(ids[..i + 1]) == visited + ToSet(ids[..i]) + {ids[i]}
  {
    assert ids[..i + 1] == ids[..i] + [ids[i]];
    ToSetAppend(ids[..i], ids[i]);
  }

  lemma OrderAppend(g: Graph, d: Dist, l: nat, init: set<nat>, order: seq<nat>, n: nat)
    requires GreedyOrder(g, d, l, init, order) && n < |g|
    requires IsNext(d, l, Reached(g, init, order), ToSet(order), n)
    ensures GreedyOrder(g, d, l, init, order + [n])
    ensures Reached(g, init, order + [n]) == Reached(g, init, order) + ToSet(g[n])
    ensures ToSet(order + [n]) == ToSet(order) + {n}
  {
    var o := order + [n];
    forall k | 0 <= k < |o| ensures IsNext(d, l, Reached(g, init, o[..k]), ToSet(o[..k]), o[k]) {
      assert o[..k] == if k < |order| then order[..k] else order;
    }
    ReachedAppend(g, init, order, n);
    ToSetAppend(order, n);
  }

  /** At most one expansion per node, so the search ends. */
  lemma ExpandedBound(g: Graph, d: Dist, l: nat, init: set<nat>, order: seq<nat>, n: nat)
    requires GreedyOrder(g, d, l, init, order) && n < |g| && n !in ToSet(order)
    ensures |order| < |g|
  {
    GreedyOrderDistinct(g, d, l, init, order);
    DistinctBound(order + [n], |g|);
  }

  /** The fixed-point theorem: the run ends with every one of the L closest
      visited nodes expanded, none twice, and the visited set is exactly the
      start set with all out-neighbours of all expanded nodes. */
  lemma FixedPointTheorem(g: Graph, d: Dist, l: nat, init: set<nat>, order: seq<nat>)
    requires GreedyOrder(g, d, l, init, order) && FixedPoint(g, d, l, init, order)
    ensures Distinct(order)
    ensures var v := Reached(g, init, order);
            && (forall k :: 0 <= k < |order| ==> ToSet(g[order[k]]) <= v)
            && (forall u :: InTop(d, l, v, u) ==> u in ToSet(order))
            && (forall u :: u in v ==> u in init || exists k :: 0 <= k < |order| && u in ToSet(g[order[k]]))
    ensures forall other :: GreedyOrder(g, d, l, init, other) && FixedPoint(g, d, l, init, other) ==> other == order
  {
    GreedyOrderDistinct(g, d, l, init, order);
    ReachedClosed(g, init, order);
    forall other | GreedyOrder(g, d, l, init, other) && FixedPoint(g, d, l, init, other)
      ensures other == order
    {
      GreedyOrderUnique(g, d, l, init, order, other);
    }
  }
}
