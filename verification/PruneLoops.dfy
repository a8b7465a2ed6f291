// The prune loops: occlude_list_ptr of construction/our_construction.cpp and the
// batched prune with fill of construction/our_pruning.cpp.

module PruneLoops {
  import opened Graphs
  import opened Closest
  import opened Ranking
  import opened Occlusion

  /** Candidates that count: in range and not the node itself. */
  ghost function ValidSet(cand: seq<nat>, n: nat, p: nat): set<nat> {
    set i | 0 <= i < |cand| && cand[i] < n && cand[i] != p :: cand[i]
  }

  /** One node of the batched prune: pool, sort, occlusion pass, fill pass. */
  method PruneNode(d: Metric, p: nat, cand: seq<nat>, n: nat, r: nat) returns (out: seq<nat>)
    requires IsMetric(d)
    ensures out == PruneSet(d, p, ValidSet(cand, n, p), r)
  {
    var raw := ValidPool(cand, n, p);
    var pool := SortBy(From(d, p), raw);
    PoolPrune(d, p, pool, r);
    out := OcclusionPass(d, p, pool, r);
    if |out| < r {
      out := FillPass(pool, out, r);
    } else {
      FullStays(pool, out, r);
    }
  }

  /** The loop that drops out-of-range ids and the node itself. */
  method ValidPool(cand: seq<nat>, n: nat, p: nat) returns (raw: seq<nat>)
    ensures ToSet(raw) == ValidSet(cand, n, p)
  {
    raw := [];
    for k := 0 to |cand|
      invariant ToSet(raw) == ValidSet(cand[..k], n, p)
    {
      var v := cand[k];
      ValidStep(cand, k, n, p);
      if !(v >= n || v == p) {
        ToSetAppend(raw, v);
        raw := raw + [v];
      }
    }
    assert cand[..|cand|] == cand;
  }

  lemma ValidStep(cand: seq<nat>, k: nat, n: nat, p: nat)
    requires k < |cand|
    ensures ValidSet(cand[..k + 1], n, p)
         == ValidSet(cand[..k], n, p) + (if cand[k] < n && cand[k] != p then {cand[k]} else {})
  {
    var a, b := cand[..k + 1], cand[..k];
    assert a[k] == cand[k] && forall i :: 0 <= i < k ==> a[i] == b[i];
  }

  lemma {:induction false} FullStays(s: seq<nat>, start: seq<nat>, r: nat)
    requires |start| >= r
    ensures Filled(s, start, r) == start
  {
    if s != [] {
      FullStays(s[..|s| - 1], start, r);
    }
  }

  lemma {:induction false} FullKept(d: Metric, p: nat, s: seq<nat>, i: nat, r: nat)
    requires i <= |s| && |Kept(d, p, s[..i], r)| >= r
    ensures Kept(d, p, s, r) == Kept(d, p, s[..i], r)
    decreases |s| - i
  {
    if i == |s| {
      assert s[..i] == s;
    } else {
      assert s[..i + 1][..i] == s[..i];
      FullKept(d, p, s, i + 1, r);
    }
  }

  /** The T-occlusion loop with T = 1. */
  method OcclusionPass(d: Metric, p: nat, pool: seq<nat>, r: nat) returns (out: seq<nat>)
    ensures out == Kept(d, p, pool, r)
  {
    out := [];
    var pi := 0;
    while pi < |pool| && |out| < r
      invariant pi <= |pool| && out == Kept(d, p, pool[..pi], r)
    {
      var v, dv := pool[pi], d(p, pool[pi]);
      var ocBy := 0;
      var k := 0;
      while k < |out|
        invariant k <= |out| && 0 <= ocBy <= 1
        invariant ocBy == 0 ==> forall i :: 0 <= i < k ==> d(out[i], v) > dv
        invariant ocBy == 1 ==> Occluded(d, p, out, v)
      {
        if d(out[k], v) <= dv {
          ocBy := 1;
          break;
        }
        k := k + 1;
      }
      assert pool[..pi + 1][..pi] == pool[..pi];
      if ocBy < 1 {
        out := out + [v];
      }
      pi := pi + 1;
    }
    if pi < |pool| {
      FullKept(d, p, pool, pi, r);
    }
    assert pool[..|pool|] == pool;
  }

  /** The loop that fills up with candidates not taken yet. */
  method FillPass(pool: seq<nat>, start: seq<nat>, r: nat) returns (out: seq<nat>)
    ensures out == Filled(pool, start, r)
  {
    out := start;
    var pi := 0;
    while pi < |pool| && |out| < r
      invariant pi <= |pool| && out == Filled(pool[..pi], start, r)
    {
      assert pool[..pi + 1][..pi] == pool[..pi];
      var v := pool[pi];
      var dup := false;
      for k := 0 to |out|
        invariant dup == false && v !in out[..k]
      {
        if out[k] == v {
          dup := true;
          break;
        }
      }
      assert dup <==> v in out;
      if !dup {
        out := out + [v];
      }
      pi := pi + 1;
    }
    if pi < |pool| {
      FullFilled(pool, start, pi, r);
    }
    assert pool[..|pool|] == pool;
  }

  lemma {:induction false} FullFilled(s: seq<nat>, start: seq<nat>, i: nat, r: nat)
    requires i <= |s| && |Filled(s[..i], start, r)| >= r
    ensures Filled(s, start, r) == Filled(s[..i], start, r)
    decreases |s| - i
  {
    if i == |s| {
      assert s[..i] == s;
    } else {
      assert s[..i + 1][..i] == s[..i];
      FullFilled(s, start, i + 1, r);
    }
  }

  /** Stands for numeric_limits<float>::max() in the occlusion factors. */
  const BLOCKED: real := 340282346638528859811704183484516925440.0

  /** occlude_list_ptr at alpha = 1: a sorted pool, an occlusion factor per entry,
      nodes without a vector skipped.  `known` tells whether the accessor has one. */
  method OccludeList(d: Metric, location: nat, ids: seq<nat>, degree: nat, known: nat -> bool) returns (out: seq<nat>)
    requires IsMetric(d)
    ensures out == Kept(d, location, Rank(From(d, location), Usable(ids, location, known)), degree)
  {
    var pool := SortBy(From(d, location), ids);
    out := [];
    var ocf := seq(|pool|, _ => 0.0);
    var curAlpha := 1.0;
    while curAlpha <= 1.0 && |out| < degree
      invariant curAlpha == 1.0 || curAlpha == 2.0
      invariant curAlpha == 1.0 ==> out == [] && |ocf| == |pool| && forall i :: 0 <= i < |ocf| ==> ocf[i] == 0.0
      invariant curAlpha == 2.0 ==> out == Kept(d, location, Selected(pool, location, known), degree)
      decreases 2.0 - curAlpha
    {
      out, ocf := AlphaPass(d, location, pool, degree, known, ocf);
      curAlpha := curAlpha + 1.0;
    }
    if degree == 0 {
      NothingKept(d, location, Selected(pool, location, known));
    }
    SelectedSet(ids, pool, location, known);
    SelectedOrdered(From(d, location), pool, location, known);
    PoolPrune(d, location, Selected(pool, location, known), degree);
  }

  lemma NothingKept(d: Metric, p: nat, s: seq<nat>)
    ensures Kept(d, p, s, 0) == []
  {
  }

  ghost function Usable(ids: seq<nat>, location: nat, known: nat -> bool): set<nat> {
    set i | 0 <= i < |ids| && ids[i] != location && known(ids[i]) :: ids[i]
  }

  /** The pool entries the pass looks at. */
  function Selected(pool: seq<nat>, location: nat, known: nat -> bool): seq<nat> {
    if pool == [] then []
    else
      var v := pool[|pool| - 1];
      Selected(pool[..|pool| - 1], location, known) + (if v != location && known(v) then [v] else [])
  }

  lemma {:induction false} SelectedIs(pool: seq<nat>, location: nat, known: nat -> bool)
    ensures ToSet(Selected(pool, location, known)) == Usable(pool, location, known)
  {
    if pool != [] {
      var init, v := pool[..|pool| - 1], pool[|pool| - 1];
      SelectedIs(init, location, known);
      assert pool == init + [v];
      ToSetAppend(Selected(init, location, known), v);
      assert Selected(init, location, known) + [] == Selected(init, location, known);
      assert forall i :: 0 <= i < |init| ==> pool[i] == init[i];
      assert Usable(pool, location, known) == Usable(init, location, known) + (if v != location && known(v) then {v} else {});
    }
  }

  lemma SelectedSet(ids: seq<nat>, pool: seq<nat>, location: nat, known: nat -> bool)
    requires ToSet(ids) == ToSet(pool)
    ensures ToSet(Selected(pool, location, known)) == Usable(ids, location, known)
  {
    SelectedIs(pool, location, known);
    UsableBySet(ids, location, known);
    UsableBySet(pool, location, known);
  }

  lemma UsableBySet(ids: seq<nat>, location: nat, known: nat -> bool)
    ensures Usable(ids, location, known) == set v | v in ToSet(ids) && v != location && known(v)
  {
    forall v | v in ToSet(ids) && v != location && known(v) ensures v in Usable(ids, location, known) {
      var i :| 0 <= i < |ids| && ids[i] == v;
    }
  }

  lemma {:induction false} SelectedOrdered(dp: Dist, pool: seq<nat>, location: nat, known: nat -> bool)
    requires Ordered(dp, pool)
    ensures Ordered(dp, Selected(pool, location, known))
  {
    if pool != [] {
      var init, v := pool[..|pool| - 1], pool[|pool| - 1];
      SelectedOrdered(dp, init, location, known);
      var s := Selected(init, location, known);
      SelectedIs(init, location, known);
      forall i | 0 <= i < |s| ensures s[i] == v || Before(dp, s[i], v) {
        assert s[i] in ToSet(s);
        var j :| 0 <= j < |init| && init[j] == s[i];
        assert pool[j] == s[i];
      }
    }
  }

  /** The single pass at alpha = 1. */
  method AlphaPass(d: Metric, location: nat, pool: seq<nat>, degree: nat, known: nat -> bool, ocf0: seq<real>)
    returns (out: seq<nat>, ocf: seq<real>)
    requires IsMetric(d) && |ocf0| == |pool| && forall i :: 0 <= i < |ocf0| ==> ocf0[i] == 0.0
    ensures out == Kept(d, location, Selected(pool, location, known), degree)
  {
    out, ocf := [], ocf0;
    var t := 0;
    while |out| < degree && t < |pool|
      invariant t <= |pool| == |ocf| && out == Kept(d, location, Selected(pool[..t], location, known), degree)
      invariant forall i :: t <= i < |pool| ==> ocf[i] == 0.0
    {
      PassStep(d, location, pool, t, degree, known);
      var vid := pool[t];
      if ocf[t] > 1.0 {
        t := t + 1;
        continue;
      }
      if vid == location || !known(vid) {
        ocf := ocf[t := BLOCKED];
        t := t + 1;
        continue;
      }
      var blocked, factor := Blocked(d, location, out, vid);
      ocf := ocf[t := if blocked then BLOCKED else factor];
      if !blocked {
        out := out + [vid];
      }
      t := t + 1;
    }
    if t < |pool| {
      FullSelected(d, location, pool, t, degree, known);
    }
    assert pool[..|pool|] == pool;
  }

  /** What entry t adds to the pass. */
  lemma PassStep(d: Metric, p: nat, pool: seq<nat>, t: nat, r: nat, known: nat -> bool)
    requires t < |pool|
    ensures var k, k' := Kept(d, p, Selected(pool[..t], p, known), r), Kept(d, p, Selected(pool[..t + 1], p, known), r);
            k' == if pool[t] == p || !known(pool[t]) || |k| >= r || Occluded(d, p, k, pool[t]) then k else k + [pool[t]]
  {
    var sel := Selected(pool[..t], p, known);
    assert pool[..t + 1][..t] == pool[..t];
    if pool[t] == p || !known(pool[t]) {
      assert sel + [] == sel;
    } else {
      assert (sel + [pool[t]])[..|sel|] == sel;
    }
  }

  lemma {:induction false} FullSelected(d: Metric, p: nat, pool: seq<nat>, t: nat, r: nat, known: nat -> bool)
    requires t <= |pool| && |Kept(d, p, Selected(pool[..t], p, known), r)| >= r
    ensures Kept(d, p, Selected(pool, p, known), r) == Kept(d, p, Selected(pool[..t], p, known), r)
    decreases |pool| - t
  {
    if t == |pool| {
      assert pool[..t] == pool;
    } else {
      assert pool[..t + 1][..t] == pool[..t];
      var s, v := Selected(pool[..t], p, known), pool[t];
      assert (s + [v])[..|s|] == s && s + [] == s;
      FullSelected(d, p, pool, t + 1, r, known);
    }
  }

  /** Whether a kept node blocks `v`; the ratio test never adds anything at
      alpha = 1, and the occlusion factor stays below 1. */
  method Blocked(d: Metric, p: nat, out: seq<nat>, v: nat) returns (blocked: bool, factor: real)
    requires IsMetric(d)
    ensures blocked <==> Occluded(d, p, out, v)
    ensures 0.0 <= factor <= 1.0
  {
    blocked, factor := false, 0.0;
    for k := 0 to |out|
      invariant !blocked && 0.0 <= factor <= 1.0
      invariant forall i :: 0 <= i < k ==> d(out[i], v) > d(p, v)
    {
      var duv := d(out[k], v);
      if duv <= 1.0 * d(p, v) {
        return true, factor;
      }
      var denom := if duv <= 0.0 then 0.000000000000000000000000000001 else duv;
      RatioBelowOne(d(p, v), denom);
      var ratio := d(p, v) / denom;
      factor := if factor < ratio then ratio else factor;
      if factor > 1.0 {
        return true, factor;
      }
    }
  }

  lemma RatioBelowOne(x: real, y: real)
    requires 0.0 <= x < y
    ensures 0.0 <= x / y < 1.0
  {
  }
}
