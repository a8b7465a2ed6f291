// construction/our_pruning.cpp, PQSymL2: symmetric distances between quantised
// points from per-chunk lookup tables, over exact arithmetic.

module PqDistance {
  import opened Arithmetic
  import opened Occlusion

  const CENTROIDS: nat := 256

  /** Pivots row-major [256 * D], chunk offsets [QD + 1], codes [N * QD]. */
  datatype Pq = Pq(pivots: seq<real>, chunkOff: seq<nat>, codes: seq<nat>, n: nat, d: nat, qd: nat) {

    /** The chunks cut [0, D) into consecutive ranges. */
    predicate Valid() {
      && |pivots| == CENTROIDS * d && |chunkOff| == qd + 1 && |codes| == n * qd
      && chunkOff[0] == 0 && chunkOff[qd] == d
      && (forall m :: 0 <= m < qd ==> chunkOff[m] <= chunkOff[m + 1])
      && (forall i :: 0 <= i < |codes| ==> codes[i] < CENTROIDS)
    }

    function Pivot(a: nat, k: nat): real
      requires |pivots| == CENTROIDS * d && a < CENTROIDS && k < d
    {
      MulFits(a, CENTROIDS, d);
      pivots[a * d + k]
    }

    function Code(u: nat, m: nat): (c: nat)
      requires Valid() && u < n && m < qd
      ensures c < CENTROIDS
    {
      MulFits(u, n, qd);
      codes[u * qd + m]
    }
  }

  lemma {:induction false} OffsetsRise(pq: Pq, i: nat, j: nat)
    requires pq.Valid() && i <= j <= pq.qd
    ensures pq.chunkOff[i] <= pq.chunkOff[j]
    decreases j
  {
    if i < j {
      OffsetsRise(pq, i, j - 1);
    }
  }

  lemma OffsetsOrdered(pq: Pq, i: nat, j: nat)
    requires pq.Valid() && i <= j <= pq.qd
    ensures pq.chunkOff[i] <= pq.chunkOff[j] <= pq.d
  {
    OffsetsRise(pq, i, j);
    OffsetsRise(pq, j, pq.qd);
  }

  function Square(x: real): (y: real)
    ensures y >= 0.0
    ensures x == 0.0 ==> y == 0.0
  {
    x * x
  }

  function SumOf(f: nat -> real, lo: nat, hi: nat): real
    requires lo <= hi
  {
    if lo == hi then 0.0 else SumOf(f, lo, hi - 1) + f(hi - 1)
  }

  lemma {:induction false} SumSplit(f: nat -> real, lo: nat, mid: nat, hi: nat)
    requires lo <= mid <= hi
    ensures SumOf(f, lo, hi) == SumOf(f, lo, mid) + SumOf(f, mid, hi)
    decreases hi
  {
    if mid < hi {
      SumSplit(f, lo, mid, hi - 1);
    }
  }

  lemma {:induction false} SumSame(f: nat -> real, g: nat -> real, lo: nat, hi: nat)
    requires lo <= hi && forall k :: lo <= k < hi ==> f(k) == g(k)
    ensures SumOf(f, lo, hi) == SumOf(g, lo, hi)
    decreases hi
  {
    if lo < hi {
      SumSame(f, g, lo, hi - 1);
    }
  }

  lemma {:induction false} SumBasics(f: nat -> real, lo: nat, hi: nat)
    requires lo <= hi && forall k :: lo <= k < hi ==> f(k) >= 0.0
    ensures SumOf(f, lo, hi) >= 0.0
    ensures (forall k :: lo <= k < hi ==> f(k) == 0.0) ==> SumOf(f, lo, hi) == 0.0
    decreases hi
  {
    if lo < hi {
      SumBasics(f, lo, hi - 1);
    }
  }

  /** Squared difference of two pivots in one dimension. */
  function PivotTerm(pq: Pq, a: nat, b: nat): nat -> real
    requires |pq.pivots| == CENTROIDS * pq.d && a < CENTROIDS && b < CENTROIDS
  {
    (k: nat) => if k < pq.d && |pq.pivots| == CENTROIDS * pq.d then Square(pq.Pivot(a, k) - pq.Pivot(b, k)) else 0.0
  }

  /** Squared distance of two pivots on dimensions [lo, hi). */
  function PivotSq(pq: Pq, a: nat, b: nat, lo: nat, hi: nat): real
    requires |pq.pivots| == CENTROIDS * pq.d && a < CENTROIDS && b < CENTROIDS && lo <= hi <= pq.d
  {
    SumOf(PivotTerm(pq, a, b), lo, hi)
  }

  // ---- the lookup tables ----

  /** Table m holds the chunk's pivot distances at [a * 256 + b]. */
  ghost predicate IsLut(pq: Pq, m: nat, lut: seq<real>)
    requires pq.Valid() && m < pq.qd
  {
    OffsetsOrdered(pq, m, m + 1);
    |lut| == CENTROIDS * CENTROIDS
    && forall x :: 0 <= x < |lut| ==> lut[x] == PivotSq(pq, x / CENTROIDS, x % CENTROIDS, pq.chunkOff[m], pq.chunkOff[m + 1])
  }

  /** One table of build_cc_luts. */
  method BuildLut(pq: Pq, m: nat) returns (lut: array<real>)
    requires pq.Valid() && m < pq.qd
    ensures fresh(lut) && IsLut(pq, m, lut[..])
  {
    OffsetsOrdered(pq, m, m + 1);
    lut := new real[CENTROIDS * CENTROIDS](_ => 0.0);
    var off, end := pq.chunkOff[m], pq.chunkOff[m + 1];
    for a := 0 to CENTROIDS
      invariant forall x :: 0 <= x < a * CENTROIDS ==> lut[x] == PivotSq(pq, x / CENTROIDS, x % CENTROIDS, off, end)
    {
      for b := 0 to CENTROIDS
        invariant forall x :: 0 <= x < a * CENTROIDS + b ==> lut[x] == PivotSq(pq, x / CENTROIDS, x % CENTROIDS, off, end)
      {
        var acc := 0.0;
        for k := 0 to end - off
          invariant acc == PivotSq(pq, a, b, off, off + k)
        {
          var t := pq.Pivot(a, off + k) - pq.Pivot(b, off + k);
          acc := acc + Square(t);
        }
        lut[a * CENTROIDS + b] := acc;
      }
    }
  }

  /** build_cc_luts */
  method BuildLuts(pq: Pq) returns (cc: seq<seq<real>>)
    requires pq.Valid()
    ensures AreLuts(pq, cc)
  {
    cc := [];
    for m := 0 to pq.qd
      invariant |cc| == m && forall i :: 0 <= i < m ==> IsLut(pq, i, cc[i])
    {
      var lut := BuildLut(pq, m);
      cc := cc + [lut[..]];
    }
  }

  ghost predicate AreLuts(pq: Pq, cc: seq<seq<real>>)
    requires pq.Valid()
  {
    |cc| == pq.qd && forall i :: 0 <= i < pq.qd ==> IsLut(pq, i, cc[i])
  }

  // ---- the meaning of dist ----

  /** The chunk a dimension belongs to. */
  ghost function ChunkOf(pq: Pq, k: nat, m: nat): (c: nat)
    requires pq.Valid() && m <= pq.qd && k < pq.chunkOff[m]
    ensures c < m && pq.chunkOff[c] <= k < pq.chunkOff[c + 1]
  {
    if k >= pq.chunkOff[m - 1] then m - 1 else ChunkOf(pq, k, m - 1)
  }

  /** Coordinate k of the decoded point. */
  ghost function Decoded(pq: Pq, u: nat, k: nat): real
    requires pq.Valid() && u < pq.n && k < pq.d
  {
    pq.Pivot(pq.Code(u, ChunkOf(pq, k, pq.qd)), k)
  }

  /** Squared difference of two decoded points in one dimension. */
  ghost function DecodedTerm(pq: Pq, u: nat, v: nat): nat -> real
    requires pq.Valid() && u < pq.n && v < pq.n
  {
    (k: nat) => if k < pq.d && pq.Valid() then Square(Decoded(pq, u, k) - Decoded(pq, v, k)) else 0.0
  }

  /** Squared L2 distance of the decoded points. */
  ghost function DecodedSq(pq: Pq, u: nat, v: nat): real
    requires pq.Valid() && u < pq.n && v < pq.n
  {
    SumOf(DecodedTerm(pq, u, v), 0, pq.d)
  }

  /** A dimension has one chunk. */
  lemma ChunkUnique(pq: Pq, k: nat, m: nat)
    requires pq.Valid() && m < pq.qd && pq.chunkOff[m] <= k < pq.chunkOff[m + 1]
    ensures k < pq.d && ChunkOf(pq, k, pq.qd) == m
  {
    OffsetsOrdered(pq, m + 1, pq.qd);
    var c := ChunkOf(pq, k, pq.qd);
    if c < m {
      OffsetsOrdered(pq, c + 1, m);
    } else if m < c {
      OffsetsOrdered(pq, m + 1, c);
    }
  }

  /** One chunk's table entry is the decoded distance on its dimensions. */
  lemma ChunkSum(pq: Pq, u: nat, v: nat, m: nat)
    requires pq.Valid() && u < pq.n && v < pq.n && m < pq.qd
    ensures pq.chunkOff[m] <= pq.chunkOff[m + 1] <= pq.d
    ensures SumOf(DecodedTerm(pq, u, v), pq.chunkOff[m], pq.chunkOff[m + 1])
         == PivotSq(pq, pq.Code(u, m), pq.Code(v, m), pq.chunkOff[m], pq.chunkOff[m + 1])
  {
    OffsetsOrdered(pq, m, m + 1);
    var f, g := DecodedTerm(pq, u, v), PivotTerm(pq, pq.Code(u, m), pq.Code(v, m));
    forall k | pq.chunkOff[m] <= k < pq.chunkOff[m + 1] ensures f(k) == g(k) {
      ChunkUnique(pq, k, m);
    }
    SumSame(f, g, pq.chunkOff[m], pq.chunkOff[m + 1]);
  }

  predicate Sized(pq: Pq, cc: seq<seq<real>>) {
    |cc| == pq.qd && forall i :: 0 <= i < pq.qd ==> |cc[i]| == CENTROIDS * CENTROIDS
  }

  /** The look-ups of the first m chunks. */
  function TableSum(pq: Pq, cc: seq<seq<real>>, u: nat, v: nat, m: nat): real
    requires pq.Valid() && Sized(pq, cc) && u < pq.n && v < pq.n && m <= pq.qd
  {
    if m == 0 then 0.0
    else
      var cu, cv := pq.Code(u, m - 1), pq.Code(v, m - 1);
      EntryAt(cu, cv);
      TableSum(pq, cc, u, v, m - 1) + cc[m - 1][cu * CENTROIDS + cv]
  }

  /** A chunk's look-up is the decoded distance on its dimensions. */
  ghost predicate EntryOk(pq: Pq, cc: seq<seq<real>>, u: nat, v: nat, m: nat)
    requires pq.Valid() && Sized(pq, cc) && u < pq.n && v < pq.n && m < pq.qd
  {
    EntryAt(pq.Code(u, m), pq.Code(v, m));
    && pq.chunkOff[m] <= pq.chunkOff[m + 1]
    && cc[m][pq.Code(u, m) * CENTROIDS + pq.Code(v, m)] == SumOf(DecodedTerm(pq, u, v), pq.chunkOff[m], pq.chunkOff[m + 1])
  }

  lemma {:induction false} EntriesAddUp(pq: Pq, cc: seq<seq<real>>, u: nat, v: nat, m: nat)
    requires pq.Valid() && Sized(pq, cc) && u < pq.n && v < pq.n && m <= pq.qd
    requires forall i :: 0 <= i < pq.qd ==> EntryOk(pq, cc, u, v, i)
    ensures TableSum(pq, cc, u, v, m) == SumOf(DecodedTerm(pq, u, v), 0, pq.chunkOff[m])
  {
    if m > 0 {
      EntriesAddUp(pq, cc, u, v, m - 1);
      assert EntryOk(pq, cc, u, v, m - 1);
      SumSplit(DecodedTerm(pq, u, v), 0, pq.chunkOff[m - 1], pq.chunkOff[m]);
    }
  }

  /** They add up to the squared distance of the decoded points. */
  lemma TablesDecode(pq: Pq, cc: seq<seq<real>>, u: nat, v: nat)
    requires pq.Valid() && AreLuts(pq, cc) && u < pq.n && v < pq.n
    ensures Sized(pq, cc) && TableSum(pq, cc, u, v, pq.qd) == DecodedSq(pq, u, v)
  {
    AreSized(pq, cc);
    forall i | 0 <= i < pq.qd ensures EntryOk(pq, cc, u, v, i) {
      assert IsLut(pq, i, cc[i]);
      EntryDecodes(pq, cc[i], u, v, i);
    }
    EntriesAddUp(pq, cc, u, v, pq.qd);
  }

  lemma EntryDecodes(pq: Pq, lut: seq<real>, u: nat, v: nat, m: nat)
    requires pq.Valid() && u < pq.n && v < pq.n && m < pq.qd && IsLut(pq, m, lut)
    ensures var x := pq.Code(u, m) * CENTROIDS + pq.Code(v, m);
            && x < |lut| && pq.chunkOff[m] <= pq.chunkOff[m + 1] <= pq.d
            && lut[x] == SumOf(DecodedTerm(pq, u, v), pq.chunkOff[m], pq.chunkOff[m + 1])
  {
    EntryAt(pq.Code(u, m), pq.Code(v, m));
    ChunkSum(pq, u, v, m);
  }

  lemma AreSized(pq: Pq, cc: seq<seq<real>>)
    requires pq.Valid() && AreLuts(pq, cc)
    ensures Sized(pq, cc)
  {
    forall i | 0 <= i < pq.qd ensures |cc[i]| == CENTROIDS * CENTROIDS {
      assert IsLut(pq, i, cc[i]);
    }
  }

  /** dist */
  method Dist(pq: Pq, cc: seq<seq<real>>, u: nat, v: nat) returns (acc: real)
    requires pq.Valid() && AreLuts(pq, cc) && u < pq.n && v < pq.n
    ensures acc == DecodedSq(pq, u, v)
    ensures acc == TableMetric(pq, cc)(u, v)
  {
    AreSized(pq, cc);
    acc := 0.0;
    for m := 0 to pq.qd
      invariant acc == TableSum(pq, cc, u, v, m)
    {
      var cu, cv := pq.Code(u, m), pq.Code(v, m);
      EntryAt(cu, cv);
      acc := acc + cc[m][cu * CENTROIDS + cv];
    }
    TablesDecode(pq, cc, u, v);
  }

  lemma EntryAt(a: nat, b: nat)
    requires a < CENTROIDS && b < CENTROIDS
    ensures var x := a * CENTROIDS + b; x < CENTROIDS * CENTROIDS && x / CENTROIDS == a && x % CENTROIDS == b
  {
  }

  /** The distance the prune looks up: zero outside the quantised points. */
  function TableMetric(pq: Pq, cc: seq<seq<real>>): Metric {
    (u: nat, v: nat) => if pq.Valid() && Sized(pq, cc) && u < pq.n && v < pq.n then TableSum(pq, cc, u, v, pq.qd) else 0.0
  }

  /** It is the distance of the decoded points everywhere. */
  lemma TableIsDecoded(pq: Pq, cc: seq<seq<real>>)
    requires pq.Valid() && AreLuts(pq, cc)
    ensures Agree(TableMetric(pq, cc), PqMetric(pq)) && IsMetric(TableMetric(pq, cc))
  {
    PqIsMetric(pq);
    forall u: nat, v: nat ensures TableMetric(pq, cc)(u, v) == PqMetric(pq)(u, v) {
      if u < pq.n && v < pq.n {
        TablesDecode(pq, cc, u, v);
      }
    }
  }

  /** The distance of the decoded points: zero outside the quantised ones. */
  ghost function PqMetric(pq: Pq): Metric
    requires pq.Valid()
  {
    (u: nat, v: nat) => if u < pq.n && v < pq.n then DecodedSq(pq, u, v) else 0.0
  }

  lemma DecodedSqBasics(pq: Pq, u: nat, v: nat)
    requires pq.Valid() && u < pq.n && v < pq.n
    ensures DecodedSq(pq, u, v) >= 0.0 && DecodedSq(pq, u, u) == 0.0
  {
    SumBasics(DecodedTerm(pq, u, v), 0, pq.d);
    SumBasics(DecodedTerm(pq, u, u), 0, pq.d);
  }

  /** It meets what the occlusion prune needs, so the prune's guarantees carry
      over to quantised points. */
  lemma PqIsMetric(pq: Pq)
    requires pq.Valid()
    ensures IsMetric(PqMetric(pq))
  {
    forall u: nat, v: nat ensures PqMetric(pq)(u, v) >= 0.0 && PqMetric(pq)(v, v) == 0.0 {
      if u < pq.n && v < pq.n {
        DecodedSqBasics(pq, u, v);
      }
      if v < pq.n {
        DecodedSqBasics(pq, v, v);
      }
    }
  }
}
