// construction/our_pruning.cpp: pick_batch_k_local.

module BatchBudget {
  import opened Extremes
  import opened CandidateFiles

  /** First id and end of the ids of `k` consecutive rows. */
  function SpanStart(rows: seq<Row>, at: nat, k: nat): nat
    requires 1 <= k && at + k <= |rows|
  {
    if k == 1 then rows[at].off
    else
      var m := SpanStart(rows, at, k - 1);
      if rows[at + k - 1].off < m then rows[at + k - 1].off else m
  }

  function SpanEnd(rows: seq<Row>, at: nat, k: nat): nat
    requires 1 <= k && at + k <= |rows|
  {
    var e := rows[at + k - 1].off + rows[at + k - 1].cnt;
    if k == 1 then e
    else
      var m := SpanEnd(rows, at, k - 1);
      if e > m then e else m
  }

  /** The span contains every row's ids. */
  lemma {:induction false} SpanHolds(rows: seq<Row>, at: nat, k: nat, i: nat)
    requires 1 <= k && at + k <= |rows| && i < k
    ensures SpanStart(rows, at, k) <= rows[at + i].off && rows[at + i].off + rows[at + i].cnt <= SpanEnd(rows, at, k)
  {
    if i < k - 1 {
      SpanHolds(rows, at, k - 1, i);
    }
  }

  /** Bytes a batch of `k` rows needs. */
  function Need(rows: seq<Row>, at: nat, k: nat, r: nat): nat
    requires 1 <= k && at + k <= |rows|
  {
    SpanHolds(rows, at, k, 0);
    (SpanEnd(rows, at, k) - SpanStart(rows, at, k)) * 4 + PerNode(k, r)
  }

  function PerNode(k: nat, r: nat): nat {
    2 * k * (r * 4 + 4)
  }

  lemma {:induction false} NeedGrows(rows: seq<Row>, at: nat, i: nat, j: nat, r: nat)
    requires 1 <= i <= j && at + j <= |rows|
    ensures SpanStart(rows, at, j) <= SpanStart(rows, at, i) && SpanEnd(rows, at, i) <= SpanEnd(rows, at, j)
    ensures Need(rows, at, i, r) <= Need(rows, at, j, r)
    decreases j
  {
    if i < j {
      NeedGrows(rows, at, i, j - 1, r);
      assert 2 * j * (r * 4 + 4) == 2 * (j - 1) * (r * 4 + 4) + 2 * (r * 4 + 4);
    }
  }

  function Fits(rows: seq<Row>, at: nat, r: nat, budget: nat): nat -> bool {
    (k: nat) => 1 <= k && at + k <= |rows| && Need(rows, at, k, r) <= budget
  }

  /** The largest batch within budget, and 1 when none is. */
  function BatchSize(rows: seq<Row>, at: nat, n: nat, r: nat, budget: nat): (k: nat)
    requires 1 <= n && at + n <= |rows|
    ensures 1 <= k <= n
  {
    Largest(Fits(rows, at, r, budget), 1, n)
  }

  /** A chosen batch is within budget exactly when its first node alone is. */
  lemma BatchWithinBudget(rows: seq<Row>, at: nat, n: nat, r: nat, budget: nat)
    requires 1 <= n && at + n <= |rows|
    ensures Need(rows, at, BatchSize(rows, at, n, r, budget), r) <= budget <==> Need(rows, at, 1, r) <= budget
  {
    var fits, k := Fits(rows, at, r, budget), BatchSize(rows, at, n, r, budget);
    NeedGrows(rows, at, 1, k, r);
    assert fits(1) <==> Need(rows, at, 1, r) <= budget;
    assert k == 1 || fits(k);
  }

  /** Two nodes with one candidate each, and a chunk limit of one byte. */
  lemma FirstNodeTooLarge()
    ensures var rows := [Row(0, 1), Row(1, 1)]; BatchSize(rows, 0, 2, 1, 1) == 1 && Need(rows, 0, 1, 1) == 20 > 1
  {
    var rows := [Row(0, 1), Row(1, 1)];
    BatchWithinBudget(rows, 0, 2, 1, 1);
    NeedGrows(rows, 0, 1, 2, 1);
    assert !Fits(rows, 0, 1, 1)(2);
  }

  /** pick_batch_k_local */
  method PickBatchK(rows: seq<Row>, at: nat, n: nat, r: nat, budget: nat) returns (best: nat)
    requires 1 <= n && at + n <= |rows|
    ensures best == BatchSize(rows, at, n, r, budget)
  {
    var fits := Fits(rows, at, r, budget);
    forall i, j | 1 <= i <= j <= n && fits(j) ensures fits(i) {
      NeedGrows(rows, at, i, j, r);
    }
    best := SearchLargest(fits, 1, n);
  }
}
