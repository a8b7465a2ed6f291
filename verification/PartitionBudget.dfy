// construction/run_sigma_pipeline.py, required_uniform_partitions, and the
// partition offsets and memory check of construction/our_construction.cpp.

module PartitionBudget {
  import opened Arithmetic
  import opened Wrappers

  /** Memory estimate of one in-memory index, as the driver computes it. */
  const SLACK: real := 1.3
  /** The C++ side holds the same factor as a 32-bit float, a little below 1.3. */
  const FLOAT_SLACK: real := 10905190.0 / 8388608.0
  const OVERHEAD: real := 1.1

  function PerPoint(dim: nat, degree: nat, slack: real): real {
    OVERHEAD * (((dim + 7) / 8 * 8 * 4) as real + (degree * 4) as real * slack + 40.0 + 8.0)
  }

  function Scaled(n: nat, c: real): real {
    n as real * c
  }

  function Estimate(points: nat, dim: nat, degree: nat, slack: real): real {
    Scaled(points, PerPoint(dim, degree, slack))
  }

  /** Size of the largest of `p` uniform partitions. */
  function MaxPart(npts: nat, p: nat): nat
    requires p > 0
  {
    (npts + p - 1) / p
  }

  function PairUsage(npts: nat, dim: nat, degree: nat, p: nat): real
    requires p > 0
  {
    2.0 * Estimate(MaxPart(npts, p), dim, degree, SLACK)
  }

  lemma PerPointPositive(dim: nat, degree: nat)
    ensures 0.0 < PerPoint(dim, degree, FLOAT_SLACK) <= PerPoint(dim, degree, SLACK)
  {
    var x := (degree * 4) as real;
    assert 0.0 <= x * FLOAT_SLACK <= x * SLACK;
  }

  lemma ScaledMonotone(a: nat, b: nat, c: real, e: real)
    requires a <= b && 0.0 <= c <= e
    ensures Scaled(a, c) <= Scaled(b, e)
  {
    assert a as real * c <= b as real * c <= b as real * e;
  }

  lemma MaxPartFalls(npts: nat, p: nat, q: nat)
    requires 0 < p <= q
    ensures MaxPart(npts, q) <= MaxPart(npts, p)
  {
    var a, b := MaxPart(npts, p), MaxPart(npts, q);
    Covers(npts, p);
    Covers(npts, q);
    if a < b {
      MulMonotone(a, b - 1, q);
      MulMonotone(p, q, a);
    }
  }

  /** MaxPart is the ceiling of npts / p. */
  lemma Covers(npts: nat, p: nat)
    requires p > 0
    ensures p * MaxPart(npts, p) >= npts
    ensures MaxPart(npts, p) > 0 ==> p * (MaxPart(npts, p) - 1) < npts
  {
    var x := npts + p - 1;
    assert x == p * (x / p) + x % p;
  }

  lemma UsageFalls(npts: nat, dim: nat, degree: nat, p: nat, q: nat)
    requires 0 < p <= q
    ensures PairUsage(npts, dim, degree, q) <= PairUsage(npts, dim, degree, p)
  {
    MaxPartFalls(npts, p, q);
    PerPointPositive(dim, degree);
    var c := PerPoint(dim, degree, SLACK);
    ScaledMonotone(MaxPart(npts, q), MaxPart(npts, p), c, c);
  }

  /** One point per partition is the least any count needs. */
  lemma UsageLeast(npts: nat, dim: nat, degree: nat, p: nat, q: nat)
    requires p > 0 && q > 0 && p >= npts
    ensures PairUsage(npts, dim, degree, p) <= PairUsage(npts, dim, degree, q)
  {
    if q >= p {
      Covers(npts, p);
      Covers(npts, q);
      AtMostOne(npts, p);
      PerPointPositive(dim, degree);
      var c := PerPoint(dim, degree, SLACK);
      ScaledMonotone(MaxPart(npts, p), MaxPart(npts, q), c, c);
    } else {
      UsageFalls(npts, dim, degree, q, p);
    }
  }

  lemma AtMostOne(npts: nat, p: nat)
    requires p > 0 && p >= npts
    ensures MaxPart(npts, p) == if npts == 0 then 0 else 1
  {
    DivModUnique(npts + p - 1, if npts == 0 then 0 else 1, if npts == 0 then p - 1 else npts - 1, p);
  }

  ghost predicate IsSmallest(npts: nat, dim: nat, degree: nat, budget: nat, p: nat) {
    && p > 0 && PairUsage(npts, dim, degree, p) <= budget as real
    && forall q :: 0 < q < p ==> PairUsage(npts, dim, degree, q) > budget as real
  }

  /** required_uniform_partitions: doubling, then binary search.  It fails exactly
      when no partition count fits. */
  method RequiredUniformPartitions(npts: nat, dim: nat, degree: nat, budget: nat, startP: nat) returns (r: Option<nat>)
    ensures r.Some? ==> IsSmallest(npts, dim, degree, budget, r.value)
    ensures r.None? ==> forall q :: q > 0 ==> PairUsage(npts, dim, degree, q) > budget as real
  {
    var hi: nat := Double(npts, dim, degree, budget, if startP > 1 then startP else 1);
    if PairUsage(npts, dim, degree, hi) > budget as real {
      forall q: nat | q > 0 ensures PairUsage(npts, dim, degree, q) > budget as real {
        UsageLeast(npts, dim, degree, hi, q);
      }
      return None;
    }
    var lo, best := 1, hi;
    while lo <= hi
      invariant 1 <= lo && lo <= best && (best == hi || best == hi + 1)
      invariant best > 0 && PairUsage(npts, dim, degree, best) <= budget as real
      invariant forall q :: 0 < q < lo ==> PairUsage(npts, dim, degree, q) > budget as real
      decreases hi + 1 - lo
    {
      var mid := (lo + hi) / 2;
      if PairUsage(npts, dim, degree, mid) <= budget as real {
        best := mid;
        hi := mid - 1;
      } else {
        forall q: nat | 0 < q <= mid ensures PairUsage(npts, dim, degree, q) > budget as real {
          UsageFalls(npts, dim, degree, q, mid);
        }
        lo := mid + 1;
      }
    }
    return Some(best);
  }

  /** The doubling loop: stops at a count that fits, or at one per point. */
  method Double(npts: nat, dim: nat, degree: nat, budget: nat, start: nat) returns (hi: nat)
    requires start > 0
    ensures hi > 0 && (PairUsage(npts, dim, degree, hi) <= budget as real || hi >= npts)
  {
    hi := start;
    while PairUsage(npts, dim, degree, hi) > budget as real && hi < npts
      invariant hi > 0
      decreases npts - hi
    {
      hi := if npts <= hi * 2 then npts else hi * 2;
    }
  }

  // ---- the construction's own check ----

  function PartSize(n: nat, p: nat, i: nat): nat
    requires p > 0
  {
    n / p + (if i < n % p then 1 else 0)
  }

  function Start(n: nat, p: nat, i: nat): nat
    requires p > 0
  {
    if i == 0 then 0 else Start(n, p, i - 1) + PartSize(n, p, i - 1)
  }

  /** make_offsets */
  method MakeOffsets(n: nat, p: nat) returns (off: seq<nat>)
    requires p > 0
    ensures |off| == p && forall i :: 0 <= i < p ==> off[i] == Start(n, p, i)
  {
    off := [];
    var base, rem, s := n / p, n % p, 0;
    ghost var start := (i: nat) => Start(n, p, i);
    for i := 0 to p
      invariant |off| == i && s == start(i) && Lists(off, start)
    {
      var size := base + (if i < rem then 1 else 0);
      ListsAppend(off, start, s);
      off := off + [s];
      s := s + size;
    }
  }

  ghost predicate Lists(off: seq<nat>, start: nat -> nat) {
    forall k :: 0 <= k < |off| ==> off[k] == start(k)
  }

  lemma ListsAppend(off: seq<nat>, start: nat -> nat, s: nat)
    requires Lists(off, start) && s == start(|off|)
    ensures Lists(off + [s], start)
  {
  }

  lemma {:induction false} StartClosed(n: nat, p: nat, i: nat)
    requires p > 0 && i <= p
    ensures Start(n, p, i) == i * (n / p) + (if i < n % p then i else n % p)
  {
    if i > 0 {
      StartClosed(n, p, i - 1);
      assert i * (n / p) == (i - 1) * (n / p) + n / p;
    }
  }

  /** The partitions tile [0, n). */
  lemma OffsetsTile(n: nat, p: nat)
    requires p > 0
    ensures Start(n, p, 0) == 0 && Start(n, p, p) == n
  {
    StartClosed(n, p, p);
    assert n == p * (n / p) + n % p;
  }

  /** The loop that measures the largest partition. */
  method LargestPart(n: nat, p: nat, off: seq<nat>) returns (largest: nat)
    requires p > 0 && |off| == p && forall i :: 0 <= i < p ==> off[i] == Start(n, p, i)
    ensures largest == MaxPart(n, p)
  {
    OffsetsTile(n, p);
    largest := 0;
    for t := 0 to p
      invariant largest == if t == 0 then 0 else PartSize(n, p, 0)
    {
      var te := if t + 1 < p then off[t + 1] else n;
      assert te == Start(n, p, t + 1);
      var size := te - off[t];
      if size > largest {
        largest := size;
      }
    }
    FirstIsCeiling(n, p);
  }

  lemma FirstIsCeiling(n: nat, p: nat)
    requires p > 0
    ensures PartSize(n, p, 0) == MaxPart(n, p)
  {
    var q, r := n / p, n % p;
    assert n == p * q + r;
    if r > 0 {
      DivModUnique(n + p - 1, q + 1, r - 1, p);
    } else {
      DivModUnique(n + p - 1, q, p - 1, p);
    }
  }

  /** The memory check of the construction stage; false means it dies. */
  method BudgetCheck(n: nat, p: nat, dim: nat, degree: nat, budget: nat) returns (ok: bool)
    requires p > 0
    ensures ok <==> budget == 0 || 2.0 * Estimate(MaxPart(n, p), dim, degree, FLOAT_SLACK) <= budget as real
  {
    ok := true;
    if budget > 0 {
      var off := MakeOffsets(n, p);
      var largest := LargestPart(n, p, off);
      ok := 2.0 * Estimate(largest, dim, degree, FLOAT_SLACK) <= budget as real;
    }
  }

  /** The driver's partition count always passes the construction's check. */
  lemma DriverPasses(npts: nat, dim: nat, degree: nat, budget: nat, p: nat)
    requires IsSmallest(npts, dim, degree, budget, p)
    ensures 2.0 * Estimate(MaxPart(npts, p), dim, degree, FLOAT_SLACK) <= budget as real
  {
    PerPointPositive(dim, degree);
    var m := MaxPart(npts, p);
    ScaledMonotone(m, m, PerPoint(dim, degree, FLOAT_SLACK), PerPoint(dim, degree, SLACK));
  }
}
