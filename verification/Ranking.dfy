// Sets of ids in order of distance, ties by id.

module Ranking {
  import opened Graphs
  import opened Closest

  /** Strictly sorted, so without repeats. */
  ghost predicate Ranked(dp: Dist, s: seq<nat>) {
    forall i, j :: 0 <= i < j < |s| ==> Before(dp, s[i], s[j])
  }

  /** Sorted, repeats allowed. */
  ghost predicate Ordered(dp: Dist, s: seq<nat>) {
    forall i, j :: 0 <= i < j < |s| ==> s[i] == s[j] || Before(dp, s[i], s[j])
  }

  /** The farthest member of a set. */
  ghost predicate IsLast(dp: Dist, ids: set<nat>, v: nat) {
    v in ids && forall u :: u in ids ==> u == v || Before(dp, u, v)
  }

  lemma {:induction false} LastExists(dp: Dist, ids: set<nat>) returns (v: nat)
    requires ids != {}
    ensures IsLast(dp, ids, v)
    decreases |ids|
  {
    var w :| w in ids;
    if ids - {w} == {} {
      v := w;
      assert forall u :: u in ids && u != w ==> u in ids - {w};
    } else {
      var x := LastExists(dp, ids - {w});
      v := if Before(dp, x, w) then w else x;
      forall u | u in ids ensures u == v || Before(dp, u, v) {
        assert u == w || u in ids - {w};
      }
    }
  }

  /** The members of a set from nearest to farthest. */
  ghost function Rank(dp: Dist, ids: set<nat>): (s: seq<nat>)
    ensures Ranked(dp, s) && ToSet(s) == ids && |s| == |ids|
    decreases |ids|
  {
    if ids == {} then []
    else
      assert exists v :: IsLast(dp, ids, v) by { var v := LastExists(dp, ids); }
      var v :| IsLast(dp, ids, v);
      var init := Rank(dp, ids - {v});
      RankAppend(dp, ids, init, v);
      init + [v]
  }

  lemma RankAppend(dp: Dist, ids: set<nat>, init: seq<nat>, v: nat)
    requires IsLast(dp, ids, v) && Ranked(dp, init) && ToSet(init) == ids - {v} && |init| == |ids - {v}|
    ensures Ranked(dp, init + [v]) && ToSet(init + [v]) == ids && |init + [v]| == |ids|
  {
    ToSetAppend(init, v);
    forall i | 0 <= i < |init| ensures Before(dp, init[i], v) {
      assert init[i] in ToSet(init);
    }
  }

  /** The order is determined by the set. */
  lemma {:induction false} RankUnique(dp: Dist, a: seq<nat>, b: seq<nat>)
    requires Ranked(dp, a) && Ranked(dp, b) && ToSet(a) == ToSet(b)
    ensures a == b
    decreases |a|
  {
    SetOfDistinct(a);
    SetOfDistinct(b);
    if a != [] {
      assert a[0] in ToSet(a);
      SameLast(dp, a, b);
      WithoutLast(dp, a);
      WithoutLast(dp, b);
      RankUnique(dp, a[..|a| - 1], b[..|b| - 1]);
      assert a == a[..|a| - 1] + [a[|a| - 1]] && b == b[..|b| - 1] + [b[|b| - 1]];
    }
  }

  lemma WithoutLast(dp: Dist, a: seq<nat>)
    requires Ranked(dp, a) && a != []
    ensures Ranked(dp, a[..|a| - 1]) && ToSet(a[..|a| - 1]) == ToSet(a) - {a[|a| - 1]}
  {
    var n := |a| - 1;
    assert a == a[..n] + [a[n]];
    ToSetAppend(a[..n], a[n]);
  }

  lemma SameLast(dp: Dist, a: seq<nat>, b: seq<nat>)
    requires Ranked(dp, a) && Ranked(dp, b) && ToSet(a) == ToSet(b) && a != [] && b != []
    ensures a[|a| - 1] == b[|b| - 1]
  {
    var x, y := a[|a| - 1], b[|b| - 1];
    assert x in ToSet(a) && y in ToSet(b);
    var i :| 0 <= i < |b| && b[i] == x;
    var j :| 0 <= j < |a| && a[j] == y;
  }

  /** std::sort by distance, ties by id. */
  function SortBy(dp: Dist, s: seq<nat>): (r: seq<nat>)
    ensures Ordered(dp, r) && ToSet(r) == ToSet(s) && |r| == |s|
  {
    if s == [] then []
    else
      var init, x := s[..|s| - 1], s[|s| - 1];
      assert s == init + [x];
      ToSetAppend(init, x);
      InsertBy(dp, SortBy(dp, init), x)
  }

  function InsertBy(dp: Dist, s: seq<nat>, x: nat): (r: seq<nat>)
    requires Ordered(dp, s)
    ensures Ordered(dp, r) && ToSet(r) == ToSet(s) + {x} && |r| == |s| + 1
  {
    if s == [] || !Before(dp, x, s[|s| - 1]) then
      ToSetAppend(s, x);
      AppendOrdered(dp, s, x);
      s + [x]
    else
      var init, last := s[..|s| - 1], s[|s| - 1];
      assert s == init + [last];
      var t := InsertBy(dp, init, x);
      ToSetAppend(init, last);
      ToSetAppend(t, last);
      InsertedOrdered(dp, s, x, t);
      t + [last]
  }

  lemma AppendOrdered(dp: Dist, s: seq<nat>, x: nat)
    requires Ordered(dp, s) && (s == [] || !Before(dp, x, s[|s| - 1]))
    ensures Ordered(dp, s + [x])
  {
    forall i | 0 <= i < |s| ensures s[i] == x || Before(dp, s[i], x) {
      assert i == |s| - 1 || s[i] == s[|s| - 1] || Before(dp, s[i], s[|s| - 1]);
    }
  }

  lemma InsertedOrdered(dp: Dist, s: seq<nat>, x: nat, t: seq<nat>)
    requires Ordered(dp, s) && s != [] && Before(dp, x, s[|s| - 1])
    requires Ordered(dp, t) && ToSet(t) == ToSet(s[..|s| - 1]) + {x}
    ensures Ordered(dp, t + [s[|s| - 1]])
  {
    var last := s[|s| - 1];
    forall i | 0 <= i < |t| ensures t[i] == last || Before(dp, t[i], last) {
      assert t[i] in ToSet(t);
      if t[i] != x {
        var j :| 0 <= j < |s| - 1 && s[..|s| - 1][j] == t[i];
        assert s[j] == t[i];
      }
    }
  }

  /** The sorted list without its repeats, which are adjacent. */
  ghost function Unique(s: seq<nat>): (r: seq<nat>)
    ensures ToSet(r) == ToSet(s) && (s != [] ==> r != [] && r[|r| - 1] == s[|s| - 1])
  {
    if s == [] then []
    else
      var init, x := s[..|s| - 1], s[|s| - 1];
      assert s == init + [x];
      ToSetAppend(init, x);
      var u := Unique(init);
      ToSetAppend(u, x);
      if init != [] && init[|init| - 1] == x then
        assert x in ToSet(init) by { assert init[|init| - 1] in ToSet(init); }
        u
      else u + [x]
  }

  lemma {:induction false} UniqueRanked(dp: Dist, s: seq<nat>)
    requires Ordered(dp, s)
    ensures Ranked(dp, Unique(s))
  {
    if s != [] {
      var init, x := s[..|s| - 1], s[|s| - 1];
      UniqueRanked(dp, init);
      var u := Unique(init);
      if init != [] && init[|init| - 1] != x {
        forall i | 0 <= i < |u| ensures Before(dp, u[i], x) {
          assert u[i] in ToSet(init);
          var j :| 0 <= j < |init| && init[j] == u[i];
          assert s[j] == u[i] && s[|init| - 1] == init[|init| - 1];
          assert j == |init| - 1 || s[j] == s[|init| - 1] || Before(dp, s[j], s[|init| - 1]);
          assert s[|init| - 1] == x || Before(dp, s[|init| - 1], x);
        }
      }
    }
  }

  /** A sorted list without its repeats is the ranking of its set. */
  lemma UniqueIsRank(dp: Dist, s: seq<nat>)
    requires Ordered(dp, s)
    ensures Unique(s) == Rank(dp, ToSet(s))
  {
    UniqueRanked(dp, s);
    RankUnique(dp, Unique(s), Rank(dp, ToSet(s)));
  }
}
