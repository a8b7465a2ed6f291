// construction/our_construction.cpp: bucket arithmetic.

module Buckets {
  import opened Arithmetic

  function BucketSize(n: nat, b: nat): nat
    requires b > 0
  {
    (n + b - 1) / b
  }

  function Min(x: nat, y: nat): nat {
    if x <= y then x else y
  }

  function BucketOf(gid: nat, n: nat, b: nat): (k: nat)
    requires b > 0 && gid < n
    ensures k < b
  {
    SizePositive(n, b);
    Min(gid / BucketSize(n, b), b - 1)
  }

  function Base(k: nat, n: nat, b: nat): (r: nat)
    requires b > 0
    ensures r <= n
  {
    Min(Mul(k, BucketSize(n, b)), n)
  }

  function Limit(k: nat, n: nat, b: nat): (r: nat)
    requires b > 0
    ensures r <= n
  {
    Min(Mul(k + 1, BucketSize(n, b)), n)
  }

  lemma SizePositive(n: nat, b: nat)
    requires b > 0 && n > 0
    ensures BucketSize(n, b) > 0
  {
  }

  lemma SizeCovers(n: nat, b: nat)
    requires b > 0
    ensures n <= Mul(b, BucketSize(n, b))
  {
    var x := n + b - 1;
    assert x == b * (x / b) + x % b;
  }

  /** A bucket holds exactly the ids sent to it. */
  lemma BucketHolds(gid: nat, n: nat, b: nat, k: nat)
    requires b > 0 && gid < n && k < b
    ensures BucketOf(gid, n, b) == k <==> Base(k, n, b) <= gid < Limit(k, n, b)
  {
    var size := BucketSize(n, b);
    SizePositive(n, b);
    SizeCovers(n, b);
    var q := gid / size;
    assert gid == size * q + gid % size;
    assert Mul(q, size) <= gid < Mul(q + 1, size) by { assert (q + 1) * size == q * size + size; }
    if q >= b {
      MulMonotone(b, q, size);
    }
    if q < k {
      MulMonotone(q + 1, k, size);
    } else if k < q {
      MulMonotone(k + 1, q, size);
    }
  }

  /** Buckets are consecutive and cover [0, n). */
  lemma BucketsCover(n: nat, b: nat, k: nat)
    requires b > 0 && k < b
    ensures Base(0, n, b) == 0 && Limit(b - 1, n, b) == n
    ensures Base(k, n, b) <= Limit(k, n, b) == Base(k + 1, n, b)
  {
    SizeCovers(n, b);
    MulMonotone(k, k + 1, BucketSize(n, b));
    assert Mul(0, BucketSize(n, b)) == 0;
  }
}
