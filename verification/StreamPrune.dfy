// construction/our_pruning.cpp: the streamed prune, metadata batch by metadata
// batch and budget-sized batch by batch, into the graph file.

module StreamPrune {
  import opened Bytes
  import opened Graphs
  import opened CandidateFiles
  import opened BatchBudget
  import opened Arithmetic
  import opened Occlusion
  import opened PruneLoops
  import opened GraphFile

  /** A node's pruned list as a function of the node and its candidates. */
  type Pruner = (nat, seq<nat>) -> seq<nat>

  ghost predicate Prunes(prune: Pruner, d: Metric, n: nat, r: nat) {
    forall u: nat, cand: seq<nat> {:trigger PruneSet(d, u, ValidSet(cand, n, u), r)} ::
      prune(u, cand) == PruneSet(d, u, ValidSet(cand, n, u), r)
  }

  ghost function PrunerOf(d: Metric, n: nat, r: nat): Pruner {
    (u: nat, cand: seq<nat>) => PruneSet(d, u, ValidSet(cand, n, u), r)
  }

  /** The in-memory definition: every node's candidates, pruned. */
  ghost function PrunedLists(d: Metric, lists: seq<seq<nat>>, r: nat): seq<seq<nat>> {
    seq(|lists|, u requires 0 <= u < |lists| => PruneSet(d, u, ValidSet(lists[u], |lists|, u), r))
  }

  lemma PrunedFacts(d: Metric, lists: seq<seq<nat>>, r: nat, u: nat)
    requires u < |lists| <= U32_LIMIT && r < U32_LIMIT
    ensures var list, valid := PrunedLists(d, lists, r)[u], ValidSet(lists[u], |lists|, u);
            && Distinct(list) && u !in list && ToSet(list) <= valid
            && |list| == (if |valid| < r then |valid| else r)
            && Storable(list)
  {
    var list, valid := PrunedLists(d, lists, r)[u], ValidSet(lists[u], |lists|, u);
    PruneSetFacts(d, u, valid, r);
    forall i | 0 <= i < |list| ensures list[i] != u && list[i] < |lists| {
      assert list[i] in ToSet(list);
    }
  }

  lemma PrunedStorable(d: Metric, lists: seq<seq<nat>>, r: nat)
    requires |lists| <= U32_LIMIT && r < U32_LIMIT
    ensures AllStorable(PrunedLists(d, lists, r))
  {
    forall u | 0 <= u < |lists| ensures Storable(PrunedLists(d, lists, r)[u]) {
      PrunedFacts(d, lists, r, u);
    }
  }

  /** The span of the ids of `k` rows. */
  method Span(rows: seq<Row>, at: nat, k: nat) returns (offMin: nat, offMax: nat)
    requires 1 <= k && at + k <= |rows|
    ensures offMin == SpanStart(rows, at, k) && offMax == SpanEnd(rows, at, k)
  {
    offMin, offMax := rows[at].off, rows[at].off + rows[at].cnt;
    for i := 1 to k
      invariant offMin == SpanStart(rows, at, i) && offMax == SpanEnd(rows, at, i)
    {
      var off, end := rows[at + i].off, rows[at + i].off + rows[at + i].cnt;
      if off < offMin { offMin := off; }
      if end > offMax { offMax := end; }
    }
  }

  /** Slot i of the strided output buffer holds `list`. */
  ghost predicate SlotHolds(adj: seq<nat>, deg: seq<nat>, r: nat, i: nat, list: seq<nat>) {
    i < |deg| && deg[i] == |list| <= r && Mul(i, r) + r <= |adj| && adj[Mul(i, r)..Mul(i, r) + |list|] == list
  }

  /** The nodes in `done` have their lists in place. */
  ghost predicate Done(adj: seq<nat>, deg: seq<nat>, r: nat, pruned: seq<seq<nat>>, done: set<nat>) {
    forall i :: i in done ==> i < |pruned| && SlotHolds(adj, deg, r, i, pruned[i])
  }

  method WriteSlot(adj: array<nat>, deg: array<nat>, r: nat, i: nat, out: seq<nat>, ghost pruned: seq<seq<nat>>, ghost done: set<nat>)
    requires adj != deg && i < deg.Length && |out| <= r && adj.Length == Mul(deg.Length, r)
    requires i < |pruned| && out == pruned[i] && Done(adj[..], deg[..], r, pruned, done)
    modifies adj, deg
    ensures Done(adj[..], deg[..], r, pruned, done + {i})
  {
    ghost var a0, d0 := adj[..], deg[..];
    MulFits(i, deg.Length, r);
    var at := Mul(i, r);
    forall k | 0 <= k < |out| {
      adj[at + k] := out[k];
    }
    deg[i] := |out|;
    ghost var a1, d1 := adj[..], deg[..];
    assert a1[at..at + |out|] == out;
    forall j | j in done + {i} ensures SlotHolds(a1, d1, r, j, pruned[j]) {
      if j != i {
        SlotKept(a0, d0, a1, d1, r, i, j, pruned[j]);
      }
    }
  }

  /** Writing slot i leaves the others. */
  lemma SlotKept(a0: seq<nat>, d0: seq<nat>, a: seq<nat>, d: seq<nat>, r: nat, i: nat, j: nat, list: seq<nat>)
    requires i != j && SlotHolds(a0, d0, r, j, list) && |a| == |a0| && |d| == |d0| && d[j] == d0[j]
    requires forall k :: 0 <= k < |a| && !(Mul(i, r) <= k < Mul(i, r) + r) ==> a[k] == a0[k]
    ensures SlotHolds(a, d, r, j, list)
  {
    SlotsApart(i, j, r);
    var at := Mul(j, r);
    assert a[at..at + |list|] == a0[at..at + |list|];
  }

  lemma SlotsApart(i: nat, j: nat, r: nat)
    requires i != j
    ensures Mul(i, r) + r <= Mul(j, r) || Mul(j, r) + r <= Mul(i, r)
  {
    if i < j {
      MulFits(i, j, r);
    } else {
      MulFits(j, i, r);
    }
  }

  /** Candidates and pruned lists of consecutive nodes from `first` on. */
  ghost predicate BatchSpec(prune: Pruner, cands: seq<seq<nat>>, pruned: seq<seq<nat>>, first: nat) {
    |cands| == |pruned| && forall i :: 0 <= i < |cands| ==> pruned[i] == prune(first + i, cands[i])
  }

  ghost predicate BatchRows(rows: seq<Row>, chunk: seq<nat>, offMin: nat, cands: seq<seq<nat>>) {
    |rows| == |cands| && forall i :: 0 <= i < |rows| ==> ChunkHolds(rows[i], chunk, offMin, cands[i])
  }

  /** One batch: the nodes may be pruned in any order, by any thread. */
  method PruneBatch(d: Metric, rows: seq<Row>, chunk: seq<nat>, offMin: nat, first: nat, n: nat, r: nat,
                    schedule: seq<nat>, ghost prune: Pruner, ghost cands: seq<seq<nat>>, ghost pruned: seq<seq<nat>>)
    returns (deg: array<nat>, adj: array<nat>)
    requires IsMetric(d) && Prunes(prune, d, n, r)
    requires BatchRows(rows, chunk, offMin, cands) && BatchSpec(prune, cands, pruned, first)
    requires Covers(schedule, |rows|)
    ensures fresh(deg) && fresh(adj) && deg.Length == |rows|
    ensures forall i :: 0 <= i < |rows| ==> SlotHolds(adj[..], deg[..], r, i, pruned[i])
  {
    var k := |rows|;
    deg := new nat[k](_ => 0);
    adj := new nat[Mul(k, r)](_ => 0);
    ghost var done: set<nat> := {};
    for t := 0 to |schedule|
      invariant Done(adj[..], deg[..], r, pruned, done) && forall j :: 0 <= j < t ==> schedule[j] in done
    {
      var i := schedule[t];
      BatchAt(prune, rows, chunk, offMin, cands, pruned, first, i);
      var out := PruneOne(d, rows[i], chunk, offMin, first + i, n, r, prune, cands[i]);
      WriteSlot(adj, deg, r, i, out, pruned, done);
      done := done + {i};
    }
    AllReached(schedule, k, done);
  }

  lemma AllReached(schedule: seq<nat>, k: nat, done: set<nat>)
    requires Covers(schedule, k) && forall j :: 0 <= j < |schedule| ==> schedule[j] in done
    ensures forall i :: 0 <= i < k ==> i in done
  {
    forall i | 0 <= i < k ensures i in done {
      assert i in schedule;
      var j :| 0 <= j < |schedule| && schedule[j] == i;
    }
  }

  lemma BatchAt(prune: Pruner, rows: seq<Row>, chunk: seq<nat>, offMin: nat, cands: seq<seq<nat>>, pruned: seq<seq<nat>>,
                first: nat, i: nat)
    requires BatchRows(rows, chunk, offMin, cands) && BatchSpec(prune, cands, pruned, first) && i < |rows|
    ensures ChunkHolds(rows[i], chunk, offMin, cands[i]) && pruned[i] == prune(first + i, cands[i])
  {
  }

  /** One iteration of the parallel loop. */
  method PruneOne(d: Metric, row: Row, chunk: seq<nat>, offMin: nat, u: nat, n: nat, r: nat,
                  ghost prune: Pruner, ghost cand: seq<nat>)
    returns (out: seq<nat>)
    requires IsMetric(d) && Prunes(prune, d, n, r) && ChunkHolds(row, chunk, offMin, cand)
    ensures out == prune(u, cand) && |out| <= r
  {
    var rel := row.off - offMin;
    var own := chunk[rel..rel + row.cnt];
    assert own == cand;
    out := PruneNode(d, u, own, n, r);
    PruneSetFacts(d, u, ValidSet(own, n, u), r);
  }

  /** An order of the loop that reaches every node. */
  ghost predicate Covers(schedule: seq<nat>, k: nat) {
    (forall t :: 0 <= t < |schedule| ==> schedule[t] < k) && (forall i :: 0 <= i < k ==> i in schedule)
  }

  /** The row's ids are in the chunk, at their place relative to `offMin`. */
  ghost predicate ChunkHolds(row: Row, chunk: seq<nat>, offMin: nat, list: seq<nat>) {
    && offMin <= row.off && row.off - offMin + row.cnt <= |chunk|
    && chunk[row.off - offMin..row.off - offMin + row.cnt] == list
  }

  method SlotBytes(adj: array<nat>, deg: array<nat>, i: nat, r: nat, ghost list: seq<nat>) returns (bytes: seq<byte>)
    requires SlotHolds(adj[..], deg[..], r, i, list) && Storable(list)
    ensures bytes == NodeBytes(list)
  {
    var at := Mul(i, r);
    var own := adj[at..at + deg[i]];
    assert own == adj[..][at..at + |list|];
    bytes := NodeBytes(own);
  }

  /** The serialisation loop of a batch. */
  method Serialize(deg: array<nat>, adj: array<nat>, k: nat, r: nat, maxObs0: nat, ghost lists: seq<seq<nat>>)
    returns (bytes: seq<byte>, maxObs: nat)
    requires deg.Length == k == |lists| && AllStorable(lists)
    requires forall i :: 0 <= i < k ==> SlotHolds(adj[..], deg[..], r, i, lists[i])
    ensures bytes == Body(lists)
    ensures maxObs == if MaxDegree(lists) > maxObs0 then MaxDegree(lists) else maxObs0
  {
    bytes, maxObs := [], maxObs0;
    for i := 0 to k
      invariant AllStorable(lists[..i]) && bytes == Body(lists[..i])
      invariant maxObs == if MaxDegree(lists[..i]) > maxObs0 then MaxDegree(lists[..i]) else maxObs0
    {
      assert SlotHolds(adj[..], deg[..], r, i, lists[i]);
      assert lists[..i + 1] == lists[..i] + [lists[i]];
      BodyAppend(lists[..i], lists[i]);
      var node := SlotBytes(adj, deg, i, r, lists[i]);
      bytes := bytes + node;
      if deg[i] > maxObs {
        maxObs := deg[i];
      }
    }
    assert lists[..k] == lists;
  }

  /** Any order of the parallel loops, batch size by batch size. */
  ghost predicate IsSchedule(schedule: nat -> seq<nat>) {
    forall k :: Covers(schedule(k), k)
  }

  ghost function BodyUpTo(pruned: seq<seq<nat>>, u: nat): seq<byte>
    requires AllStorable(pruned) && u <= |pruned|
  {
    Body(pruned[..u])
  }

  /** Bytes and maximum degree of the first `u` nodes, for every `u`. */
  ghost predicate Layout(body: nat -> seq<byte>, top: nat -> nat, pruned: seq<seq<nat>>) {
    AllStorable(pruned) && forall u {:trigger BodyUpTo(pruned, u)} :: 0 <= u <= |pruned| ==>
      body(u) == BodyUpTo(pruned, u) && top(u) == MaxDegree(pruned[..u])
  }

  /** What the writer has produced when the first `u` nodes are done. */
  ghost predicate Written(file: seq<byte>, maxObs: nat, head: seq<byte>, body: nat -> seq<byte>, top: nat -> nat, u: nat) {
    file == head + body(u) && maxObs == top(u)
  }

  lemma WrittenGrows(file: seq<byte>, maxObs: nat, head: seq<byte>, body: nat -> seq<byte>, top: nat -> nat,
                     pruned: seq<seq<nat>>, u: nat, k: nat, bytes: seq<byte>, more: nat)
    requires Layout(body, top, pruned) && Written(file, maxObs, head, body, top, u) && u + k <= |pruned|
    requires AllStorable(pruned[u..u + k]) && bytes == Body(pruned[u..u + k]) && more == MaxDegree(pruned[u..u + k])
    ensures Written(file + bytes, if more > maxObs then more else maxObs, head, body, top, u + k)
  {
    var a, b := pruned[..u], pruned[u..u + k];
    assert pruned[..u + k] == a + b;
    BodyConcat(a, b);
    MaxConcat(a, b);
    Associate(head, Body(a), Body(b));
    assert BodyUpTo(pruned, u) == Body(a) && BodyUpTo(pruned, u + k) == Body(a + b);
  }

  lemma {:induction false} MaxConcat(a: seq<seq<nat>>, b: seq<seq<nat>>)
    ensures MaxDegree(a + b) == if MaxDegree(b) > MaxDegree(a) then MaxDegree(b) else MaxDegree(a)
  {
    if b == [] {
      assert a + b == a;
    } else {
      MaxConcat(a, b[..|b| - 1]);
      assert (a + b)[..|a + b| - 1] == a + b[..|b| - 1];
    }
  }

  /** The input and what it has to become. */
  ghost predicate Task(prune: Pruner, f: CandFile, lists: seq<seq<nat>>, pruned: seq<seq<nat>>) {
    Holds(f, lists) && BatchSpec(prune, lists, pruned, 0) && AllStorable(pruned)
  }

  /** The same for nodes [u, u + k). */
  lemma BatchOf(prune: Pruner, f: CandFile, lists: seq<seq<nat>>, pruned: seq<seq<nat>>, u: nat, k: nat)
    requires Task(prune, f, lists, pruned) && u + k <= |lists|
    ensures BatchSpec(prune, lists[u..u + k], pruned[u..u + k], u) && AllStorable(pruned[u..u + k])
    ensures RowsHold(f.rows[u..u + k], f.ids, lists[u..u + k])
  {
    var a, b, rows := lists[u..u + k], pruned[u..u + k], f.rows[u..u + k];
    forall i | 0 <= i < k ensures b[i] == prune(u + i, a[i]) {
      assert pruned[u + i] == prune(0 + (u + i), lists[u + i]);
    }
    forall i | 0 <= i < k ensures RowHolds(rows[i], f.ids, a[i]) {
      assert RowHolds(f.rows[u + i], f.ids, lists[u + i]);
    }
  }

  ghost predicate RowsHold(rows: seq<Row>, ids: seq<nat>, cands: seq<seq<nat>>) {
    |rows| == |cands| && forall i :: 0 <= i < |rows| ==> RowHolds(rows[i], ids, cands[i])
  }

  /** One budget-sized batch: span, chunk read, prune, serialise. */
  method NextBatch(d: Metric, f: CandFile, rows: seq<Row>, at: nat, k: nat, first: nat, n: nat, r: nat, order: seq<nat>,
                   maxObs0: nat, ghost prune: Pruner, ghost cands: seq<seq<nat>>, ghost pruned: seq<seq<nat>>)
    returns (bytes: seq<byte>, maxObs: nat)
    requires IsMetric(d) && Prunes(prune, d, n, r) && 1 <= k && at + k <= |rows| && k == |cands| && Covers(order, k)
    requires BatchSpec(prune, cands, pruned, first) && AllStorable(pruned)
    requires RowsHold(rows[at..at + k], f.ids, cands)
    ensures bytes == Body(pruned)
    ensures maxObs == if MaxDegree(pruned) > maxObs0 then MaxDegree(pruned) else maxObs0
  {
    var offMin, offMax := Span(rows, at, k);
    SpanInIds(f.ids, rows, at, k, cands);
    var chunk := f.ids[offMin..offMax];
    var batch := rows[at..at + k];
    forall i | 0 <= i < k ensures ChunkHolds(batch[i], chunk, offMin, cands[i]) {
      SpanHolds(rows, at, k, i);
      RowInChunk(f.ids, batch[i], offMin, offMax, cands[i]);
    }
    var deg, adj := PruneBatch(d, batch, chunk, offMin, first, n, r, order, prune, cands, pruned);
    bytes, maxObs := Serialize(deg, adj, k, r, maxObs0, pruned);
  }

  lemma {:induction false} SpanInIds(ids: seq<nat>, rows: seq<Row>, at: nat, k: nat, cands: seq<seq<nat>>)
    requires 1 <= k && at + k <= |rows| && RowsHold(rows[at..at + k], ids, cands)
    ensures SpanStart(rows, at, k) <= SpanEnd(rows, at, k) <= |ids|
  {
    SpanHolds(rows, at, k, 0);
    assert RowHolds(rows[at..at + k][k - 1], ids, cands[k - 1]);
    if k > 1 {
      assert rows[at..at + (k - 1)] == rows[at..at + k][..k - 1];
      SpanInIds(ids, rows, at, k - 1, cands[..k - 1]);
    }
  }

  lemma RowInChunk(ids: seq<nat>, row: Row, lo: nat, hi: nat, list: seq<nat>)
    requires lo <= hi <= |ids| && lo <= row.off && row.off + row.cnt <= hi && RowHolds(row, ids, list)
    ensures ChunkHolds(row, ids[lo..hi], lo, list)
  {
    SliceOfSlice(ids, lo, hi - lo, row.off - lo, row.cnt);
  }

  /** One round of the inner loop. */
  method BatchStep(d: Metric, f: CandFile, rows: seq<Row>, u: nat, local: nat, k: nat, r: nat, order: seq<nat>,
                   file0: seq<byte>, maxObs0: nat, ghost prune: Pruner, ghost lists: seq<seq<nat>>, ghost pruned: seq<seq<nat>>,
                   ghost head: seq<byte>, ghost body: nat -> seq<byte>, ghost top: nat -> nat)
    returns (file: seq<byte>, maxObs: nat)
    requires IsMetric(d) && Prunes(prune, d, |f.rows|, r) && Task(prune, f, lists, pruned) && Layout(body, top, pruned)
    requires 1 <= k && local + k <= |rows| && u + k <= |lists| && Covers(order, k)
    requires rows[local..local + k] == f.rows[u..u + k]
    requires Written(file0, maxObs0, head, body, top, u)
    ensures Written(file, maxObs, head, body, top, u + k)
  {
    BatchOf(prune, f, lists, pruned, u, k);
    var bytes;
    bytes, maxObs := NextBatch(d, f, rows, local, k, u, |f.rows|, r, order, maxObs0, prune, lists[u..u + k], pruned[u..u + k]);
    WrittenGrows(file0, maxObs0, head, body, top, pruned, u, k, bytes, MaxDegree(pruned[u..u + k]));
    file := file0 + bytes;
  }

  /** One metadata batch. */
  method MetaBatch(d: Metric, f: CandFile, base: nat, count: nat, r: nat, budget: nat, schedule: nat -> seq<nat>,
                   file0: seq<byte>, maxObs0: nat, ghost prune: Pruner, ghost lists: seq<seq<nat>>, ghost pruned: seq<seq<nat>>,
                   ghost head: seq<byte>, ghost body: nat -> seq<byte>, ghost top: nat -> nat)
    returns (file: seq<byte>, maxObs: nat)
    requires IsMetric(d) && Prunes(prune, d, |f.rows|, r) && Task(prune, f, lists, pruned) && Layout(body, top, pruned)
    requires IsSchedule(schedule) && base + count <= |lists|
    requires Written(file0, maxObs0, head, body, top, base)
    ensures Written(file, maxObs, head, body, top, base + count)
  {
    var rows := f.rows[base..base + count];
    file, maxObs := file0, maxObs0;
    var local := 0;
    while local < count
      invariant local <= count && Written(file, maxObs, head, body, top, base + local)
    {
      var k := PickBatchK(rows, local, count - local, r, budget);
      SliceOfSlice(f.rows, base, count, local, k);
      assert Covers(schedule(k), k);
      file, maxObs := BatchStep(d, f, rows, base + local, local, k, r, schedule(k), file, maxObs, prune, lists, pruned, head, body, top);
      local := local + k;
    }
  }

  /** The whole stage.  Whatever the memory budget, the metadata batch and the
      order of the parallel loops, it writes the same file. */
  method PruneToFile(d: Metric, f: CandFile, r: nat, metaRows: nat, budget: nat, schedule: nat -> seq<nat>,
                     ghost lists: seq<seq<nat>>) returns (file: seq<byte>)
    requires IsMetric(d) && IsSchedule(schedule) && Holds(f, lists) && |lists| <= U32_LIMIT && r < U32_LIMIT && 1 <= metaRows
    requires GraphFile.Fits(PrunedLists(d, lists, r), 0, 0)
    ensures file == FileOf(PrunedLists(d, lists, r), 0, 0)
  {
    ghost var pruned := PrunedLists(d, lists, r);
    ghost var prune := PrunerOf(d, |lists|, r);
    ghost var head := HeaderBytes(0, r, 0, 0);
    PrunedTask(d, f, r, lists);
    ghost var body, top := Sizes(pruned);
    var maxObs;
    file, maxObs := AllBatches(d, f, r, metaRows, budget, schedule, HeaderBytes(0, r, 0, 0), prune, lists, pruned, head, body, top);
    AllWritten(file, maxObs, head, body, top, pruned);
    file := HeaderBytes(|file|, maxObs, 0, 0) + file[HEADER..];
  }

  /** The outer loop over metadata batches. */
  method AllBatches(d: Metric, f: CandFile, r: nat, metaRows: nat, budget: nat, schedule: nat -> seq<nat>, file0: seq<byte>,
                    ghost prune: Pruner, ghost lists: seq<seq<nat>>, ghost pruned: seq<seq<nat>>,
                    ghost head: seq<byte>, ghost body: nat -> seq<byte>, ghost top: nat -> nat)
    returns (file: seq<byte>, maxObs: nat)
    requires IsMetric(d) && Prunes(prune, d, |f.rows|, r) && Task(prune, f, lists, pruned) && Layout(body, top, pruned)
    requires IsSchedule(schedule) && 1 <= metaRows && Written(file0, 0, head, body, top, 0)
    ensures Written(file, maxObs, head, body, top, |pruned|)
  {
    file, maxObs := file0, 0;
    var u := 0;
    while u < |f.rows|
      invariant u <= |f.rows| && Written(file, maxObs, head, body, top, u)
    {
      var count := if |f.rows| - u < metaRows then |f.rows| - u else metaRows;
      file, maxObs := MetaBatch(d, f, u, count, r, budget, schedule, file, maxObs, prune, lists, pruned, head, body, top);
      u := u + count;
    }
  }

  lemma Sizes(pruned: seq<seq<nat>>) returns (body: nat -> seq<byte>, top: nat -> nat)
    requires AllStorable(pruned)
    ensures Layout(body, top, pruned) && body(0) == [] && top(0) == 0
  {
    body := (u: nat) => if AllStorable(pruned) && u <= |pruned| then BodyUpTo(pruned, u) else [];
    top := (u: nat) => if u <= |pruned| then MaxDegree(pruned[..u]) else 0;
  }

  lemma PrunedTask(d: Metric, f: CandFile, r: nat, lists: seq<seq<nat>>)
    requires IsMetric(d) && Holds(f, lists) && |lists| <= U32_LIMIT && r < U32_LIMIT
    ensures Task(PrunerOf(d, |lists|, r), f, lists, PrunedLists(d, lists, r))
    ensures Prunes(PrunerOf(d, |lists|, r), d, |lists|, r)
  {
    PrunedStorable(d, lists, r);
  }

  lemma AllWritten(file: seq<byte>, maxObs: nat, head: seq<byte>, body: nat -> seq<byte>, top: nat -> nat, pruned: seq<seq<nat>>)
    requires Layout(body, top, pruned) && Written(file, maxObs, head, body, top, |pruned|)
    requires GraphFile.Fits(pruned, 0, 0) && |head| == HEADER
    ensures |file| < U64_LIMIT && maxObs < U32_LIMIT
    ensures HeaderBytes(|file|, maxObs, 0, 0) + file[HEADER..] == FileOf(pruned, 0, 0)
  {
    assert pruned[..|pruned|] == pruned && BodyUpTo(pruned, |pruned|) == Body(pruned);
    DegreeStorable(pruned);
    assert file[HEADER..] == Body(pruned);
  }

  /** Two candidate files whose nodes have the same candidates up to order and
      repetition prune to the same lists. */
  lemma PruneIgnoresOrder(d: Metric, a: seq<seq<nat>>, b: seq<seq<nat>>, r: nat)
    requires |a| == |b| && forall u :: 0 <= u < |a| ==> ToSet(a[u]) == ToSet(b[u])
    ensures PrunedLists(d, a, r) == PrunedLists(d, b, r)
  {
    forall u | 0 <= u < |a| ensures PrunedLists(d, a, r)[u] == PrunedLists(d, b, r)[u] {
      ValidBySet(a[u], |a|, u);
      ValidBySet(b[u], |b|, u);
    }
  }

  lemma ValidBySet(cand: seq<nat>, n: nat, p: nat)
    ensures ValidSet(cand, n, p) == set v | v in ToSet(cand) && v < n && v != p
  {
    forall v | v in ToSet(cand) && v < n && v != p ensures v in ValidSet(cand, n, p) {
      var i :| 0 <= i < |cand| && cand[i] == v;
    }
  }
}
