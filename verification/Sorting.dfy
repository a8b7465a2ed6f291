// std::sort on ids.

module Sorting {
  ghost predicate Ascending(s: seq<nat>) {
    forall i, j :: 0 <= i < j < |s| ==> s[i] <= s[j]
  }

  /** std::sort on ids. */
  function Sort(s: seq<nat>): (r: seq<nat>)
    ensures Ascending(r) && multiset(r) == multiset(s) && |r| == |s|
  {
    if s == [] then []
    else
      assert s == s[..|s| - 1] + [s[|s| - 1]];
      InsertSorted(Sort(s[..|s| - 1]), s[|s| - 1])
  }

  function InsertSorted(s: seq<nat>, x: nat): (r: seq<nat>)
    requires Ascending(s)
    ensures Ascending(r) && multiset(r) == multiset(s) + multiset{x} && |r| == |s| + 1
  {
    if s == [] then [x]
    else if s[|s| - 1] <= x then s + [x]
    else
      var init, last := s[..|s| - 1], s[|s| - 1];
      assert s == init + [last];
      var t := InsertSorted(init, x);
      InsertBounded(init, x, t, last);
      t + [last]
  }

  lemma InsertBounded(s: seq<nat>, x: nat, t: seq<nat>, bound: nat)
    requires multiset(t) == multiset(s) + multiset{x}
    requires x <= bound && forall i :: 0 <= i < |s| ==> s[i] <= bound
    ensures forall i :: 0 <= i < |t| ==> t[i] <= bound
  {
    forall i | 0 <= i < |t| ensures t[i] <= bound {
      assert t[i] in multiset(s) + multiset{x};
    }
  }
}
