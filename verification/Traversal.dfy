// Search runs as sequences of expanded nodes, independent of any queue.

module Traversal {
  import opened Graphs
  import opened Closest

  /** The visited set after expanding `order` from `init`. */
  ghost function Reached(g: Graph, init: set<nat>, order: seq<nat>): set<nat>
    requires forall i :: 0 <= i < |order| ==> order[i] < |g|
  {
    if order == [] then init
    else
      Reached(g, init, order[..|order| - 1]) + ToSet(g[order[|order| - 1]])
  }

  ghost predicate InGraph(g: Graph, order: seq<nat>) {
    forall i :: 0 <= i < |order| ==> order[i] < |g|
  }

  /** Each expansion takes the closest unexpanded node among the L closest of
      what has been visited so far. */
  ghost predicate GreedyOrder(g: Graph, d: Dist, l: nat, init: set<nat>, order: seq<nat>) {
    && InGraph(g, order)
    && forall k :: 0 <= k < |order| ==>
         IsNext(d, l, Reached(g, init, order[..k]), ToSet(order[..k]), order[k])
  }

  /** Nothing left to expand among the L closest. */
  ghost predicate FixedPoint(g: Graph, d: Dist, l: nat, init: set<nat>, order: seq<nat>)
    requires InGraph(g, order)
  {
    forall v :: InTop(d, l, Reached(g, init, order), v) ==> v in ToSet(order)
  }

  lemma ReachedAppend(g: Graph, init: set<nat>, order: seq<nat>, n: nat)
    requires InGraph(g, order) && n < |g|
    ensures Reached(g, init, order + [n]) == Reached(g, init, order) + ToSet(g[n])
  {
    assert (order + [n])[..|order|] == order;
  }

  /** Visited holds the start set and every out-neighbour of every expanded node. */
  lemma {:induction false} ReachedClosed(g: Graph, init: set<nat>, order: seq<nat>)
    requires InGraph(g, order)
    ensures init <= Reached(g, init, order)
    ensures forall k :: 0 <= k < |order| ==> ToSet(g[order[k]]) <= Reached(g, init, order)
    ensures forall v :: v in Reached(g, init, order) ==>
              v in init || exists k :: 0 <= k < |order| && v in ToSet(g[order[k]])
  {
    if order != [] {
      var n := |order| - 1;
      ReachedClosed(g, init, order[..n]);
      forall v | v in Reached(g, init, order)
        ensures v in init || exists k :: 0 <= k < |order| && v in ToSet(g[order[k]])
      {
        if v in Reached(g, init, order[..n]) && v !in init {
          var k :| 0 <= k < n && v in ToSet(g[order[..n][k]]);
          assert v in ToSet(g[order[k]]);
        } else if v !in init {
          assert v in ToSet(g[order[n]]);
        }
      }
    }
  }

  lemma ReachedInGraph(g: Graph, init: set<nat>, order: seq<nat>)
    requires Closed(g) && InGraph(g, order) && forall v :: v in init ==> v < |g|
    ensures forall v :: v in Reached(g, init, order) ==> v < |g|
  {
    ReachedClosed(g, init, order);
  }

  /** No node is expanded twice. */
  lemma GreedyOrderDistinct(g: Graph, d: Dist, l: nat, init: set<nat>, order: seq<nat>)
    requires GreedyOrder(g, d, l, init, order)
    ensures Distinct(order)
  {
    forall i, j | 0 <= i < j < |order| ensures order[i] != order[j] {
      assert order[..j][i] == order[i];
      assert order[i] in ToSet(order[..j]);
    }
  }

  /** The run is determined by the graph, the distances, L and the start set. */
  lemma {:induction false} GreedyOrderUnique(g: Graph, d: Dist, l: nat, init: set<nat>, a: seq<nat>, b: seq<nat>)
    requires GreedyOrder(g, d, l, init, a) && FixedPoint(g, d, l, init, a)
    requires GreedyOrder(g, d, l, init, b) && FixedPoint(g, d, l, init, b)
    ensures a == b
  {
    CommonPrefix(g, d, l, init, a, b, if |a| < |b| then |a| else |b|);
    CommonPrefix(g, d, l, init, b, a, if |a| < |b| then |a| else |b|);
    assert a == a[..|a|] && b == b[..|b|];
  }

  lemma {:induction false} CommonPrefix(g: Graph, d: Dist, l: nat, init: set<nat>, a: seq<nat>, b: seq<nat>, k: nat)
    requires GreedyOrder(g, d, l, init, a) && GreedyOrder(g, d, l, init, b)
    requires k <= |a| && k <= |b|
    ensures a[..k] == b[..k]
  {
    if k > 0 {
      CommonPrefix(g, d, l, init, a, b, k - 1);
      var v, e := Reached(g, init, a[..k - 1]), ToSet(a[..k - 1]);
      assert IsNext(d, l, v, e, a[k - 1]) && IsNext(d, l, v, e, b[k - 1]);
      assert a[..k] == a[..k - 1] + [a[k - 1]] && b[..k] == b[..k - 1] + [b[k - 1]];
    }
  }
}
