// Adjacency lists, sets of ids and sequences without repeats.

module Graphs {
  /** Adjacency lists; a list may repeat an id. */
  type Graph = seq<seq<nat>>

  ghost predicate Closed(g: Graph) {
    forall u, i :: 0 <= u < |g| && 0 <= i < |g[u]| ==> g[u][i] < |g|
  }

  ghost function ToSet(s: seq<nat>): set<nat> {
    set i | 0 <= i < |s| :: s[i]
  }

  lemma ToSetAppend(s: seq<nat>, x: nat)
    ensures ToSet(s + [x]) == ToSet(s) + {x}
  {
    var t := s + [x];
    assert t[|s|] == x;
    assert forall i :: 0 <= i < |s| ==> t[i] == s[i];
  }

  lemma ToSetJoin(a: seq<nat>, b: seq<nat>)
    ensures ToSet(a + b) == ToSet(a) + ToSet(b)
  {
    var t := a + b;
    assert forall i :: 0 <= i < |a| ==> t[i] == a[i];
    assert forall i :: 0 <= i < |b| ==> t[|a| + i] == b[i];
  }

  lemma ToSetEmpty(s: seq<nat>)
    ensures ToSet(s) == {} <==> s == []
  {
    if s != [] {
      assert s[0] in ToSet(s);
    }
  }

  ghost predicate Distinct(s: seq<nat>) {
    forall i, j :: 0 <= i < j < |s| ==> s[i] != s[j]
  }

  lemma {:induction false} DistinctBound(s: seq<nat>, n: nat)
    requires Distinct(s) && forall i :: 0 <= i < |s| ==> s[i] < n
    ensures |s| == |ToSet(s)| <= n
  {
    SetOfDistinct(s);
    var all := Below(n);
    assert ToSet(s) <= all;
    assert all == ToSet(s) + (all - ToSet(s));
  }

  /** {0, ..., n - 1} */
  ghost function Below(n: nat): (r: set<nat>)
    ensures forall v: nat :: v in r <==> v < n
    ensures |r| == n
  {
    if n == 0 then {} else Below(n - 1) + {n - 1}
  }

  lemma {:induction false} SetOfDistinct(s: seq<nat>)
    requires Distinct(s)
    ensures |ToSet(s)| == |s|
  {
    if s != [] {
      var init := s[..|s| - 1];
      SetOfDistinct(init);
      assert s == init + [s[|s| - 1]];
      ToSetAppend(init, s[|s| - 1]);
    }
  }
}
