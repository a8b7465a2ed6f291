// construction/reverse_edge_logic.cpp: avail_for_U and pick_hi.

module StripeBudget {
  import opened Extremes
  import opened Segments

  /** Bytes: the budget, its safety share, and the --max-mib cap (0 for none). */
  datatype Plan = Plan(n: nat, budget: nat, safety: nat, maxMib: nat)

  const SMALL_SLACK: nat := 4 * 1024 * 1024

  function DynOverhead(plan: Plan, u: nat): nat {
    4 * plan.n + 8 * (plan.n + 1) + 8 * u + SMALL_SLACK
  }

  /** Bytes left for the ids of a stripe of `u` nodes. */
  function AvailForU(plan: Plan, u: nat): nat {
    if u == 0 then 0
    else
      var avail := if plan.budget > plan.safety then plan.budget - plan.safety else 0;
      if avail <= DynOverhead(plan, u) then 0
      else
        var filled := (avail - DynOverhead(plan, u)) * 3 / 4;
        if plan.maxMib > 0 && filled > 0 then
          var cap := plan.maxMib * 1024 * 1024;
          if filled <= cap then filled else cap
        else filled
  }

  function IdsBytes(off: seq<nat>, lo: nat, hi: nat): nat
    requires lo < |off| && hi < |off|
  {
    if off[lo] <= off[hi] then (off[hi] - off[lo]) * 4 else 0
  }

  /** A stripe [lo, hi) fits. */
  function Fits(plan: Plan, off: seq<nat>, lo: nat): nat -> bool {
    (hi: nat) => lo < hi < |off| && AvailForU(plan, hi - lo) > 0 && IdsBytes(off, lo, hi) <= AvailForU(plan, hi - lo)
  }

  lemma AvailFalls(plan: Plan, u: nat, w: nat)
    requires 0 < u <= w
    ensures AvailForU(plan, w) <= AvailForU(plan, u)
  {
  }

  lemma FitsFalls(plan: Plan, off: seq<nat>, cnt: seq<nat>, lo: nat)
    requires IsPrefixSum(off, cnt) && lo < |cnt|
    ensures Falling(Fits(plan, off, lo), lo + 1, |cnt|)
  {
    forall i, j | lo + 1 <= i <= j <= |cnt| && Fits(plan, off, lo)(j) ensures Fits(plan, off, lo)(i) {
      AvailFalls(plan, i - lo, j - lo);
      BaseMonotone(off, cnt, lo, i);
      BaseMonotone(off, cnt, i, j);
    }
  }

  /** The end of the stripe from `lo`: the largest that fits, or one node. */
  function StripeEnd(plan: Plan, off: seq<nat>, lo: nat): (hi: nat)
    requires lo + 1 < |off|
    ensures lo < hi < |off|
  {
    Largest(Fits(plan, off, lo), lo + 1, |off| - 1)
  }

  /** A chosen stripe is within budget exactly when its first node alone is: the
      search never refuses, it falls back to one node. */
  lemma StripeWithinBudget(plan: Plan, off: seq<nat>, cnt: seq<nat>, lo: nat)
    requires IsPrefixSum(off, cnt) && lo < |cnt|
    ensures Fits(plan, off, lo)(StripeEnd(plan, off, lo)) <==> Fits(plan, off, lo)(lo + 1)
  {
    FitsFalls(plan, off, cnt, lo);
    var hi := StripeEnd(plan, off, lo);
    assert lo + 1 <= lo + 1 <= hi <= |cnt|;
  }

  /** pick_hi */
  method PickHi(plan: Plan, off: seq<nat>, cnt: seq<nat>, lo: nat) returns (best: nat)
    requires IsPrefixSum(off, cnt) && plan.n == |cnt| && lo < plan.n
    ensures best == StripeEnd(plan, off, lo)
  {
    FitsFalls(plan, off, cnt, lo);
    best := SearchLargest(Fits(plan, off, lo), lo + 1, plan.n);
  }
}
