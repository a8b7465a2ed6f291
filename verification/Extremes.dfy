// What a binary search for an extreme feasible value has to return.

module Extremes {

  /** The largest feasible value of [lo, hi], or `lo` when there is none. */
  function Largest(fits: nat -> bool, lo: nat, hi: nat): (b: nat)
    requires lo <= hi
    ensures lo <= b <= hi && (b == lo || fits(b))
    ensures forall k :: b < k <= hi ==> !fits(k)
  {
    if lo == hi || fits(hi) then hi else Largest(fits, lo, hi - 1)
  }

  /** Feasibility is lost once and for all. */
  ghost predicate Falling(fits: nat -> bool, lo: nat, hi: nat) {
    forall i, j :: lo <= i <= j <= hi && fits(j) ==> fits(i)
  }

  /** The loop shape of both C++ searches. */
  method SearchLargest(fits: nat -> bool, first: nat, last: nat) returns (best: nat)
    requires 1 <= first <= last && Falling(fits, first, last)
    ensures best == Largest(fits, first, last)
  {
    var lo, hi: int := first, last;
    best := first;
    while lo <= hi
      invariant first <= lo <= hi + 1 <= last + 1
      invariant best == if lo == first then first else lo - 1
      invariant lo > first ==> fits(lo - 1)
      invariant forall k :: hi < k <= last ==> !fits(k)
      decreases hi - lo
    {
      var mid := (lo + hi) / 2;
      if fits(mid) {
        best := mid;
        lo := mid + 1;
      } else {
        hi := mid - 1;
      }
    }
  }
}
