// construction/our_construction.cpp, the compaction phase: each bucket log becomes
// the candidate rows and ids of its nodes, in two in-memory passes.

module LogCompaction {
  import opened Bytes
  import opened RecordLog
  import opened Segments
  import opened CandidateFiles
  import opened Buckets
  import opened LogRuns

  /** A node's candidates: the ids of its records, in log order. */
  function CandidatesOf(rs: seq<Rec>, gid: nat): seq<nat> {
    if rs == [] then []
    else
      CandidatesOf(rs[..|rs| - 1], gid) + (if rs[|rs| - 1].gid == gid then rs[|rs| - 1].ids else [])
  }

  lemma CandidatesStep(rs: seq<Rec>, k: nat, gid: nat)
    requires k < |rs|
    ensures CandidatesOf(rs[..k + 1], gid) == CandidatesOf(rs[..k], gid) + (if rs[k].gid == gid then rs[k].ids else [])
  {
    assert rs[..k + 1][..k] == rs[..k];
  }

  lemma {:induction false} CandidatesGrow(rs: seq<Rec>, k: nat, gid: nat)
    requires k <= |rs|
    ensures |CandidatesOf(rs[..k], gid)| <= |CandidatesOf(rs, gid)|
    decreases |rs| - k
  {
    if k == |rs| {
      assert rs[..k] == rs;
    } else {
      CandidatesStep(rs, k, gid);
      CandidatesGrow(rs, k + 1, gid);
    }
  }

  ghost function Lists(rs: seq<Rec>, base: nat, count: nat): seq<seq<nat>> {
    seq(count, u requires 0 <= u < count => CandidatesOf(rs, base + u))
  }

  ghost predicate Counted(rs: seq<Rec>, base: nat, counts: seq<nat>) {
    forall u :: 0 <= u < |counts| ==> counts[u] == |CandidatesOf(rs, base + u)|
  }

  lemma {:induction false} SumUpdate(s: seq<nat>, i: nat, x: nat)
    requires i < |s|
    ensures Sum(s[i := x]) == Sum(s) - s[i] + x
  {
    var n := |s| - 1;
    if i < n {
      SumUpdate(s[..n], i, x);
      assert s[i := x][..n] == s[..n][i := x];
    } else {
      assert s[i := x][..n] == s[..n];
    }
  }

  lemma {:induction false} SumZeros(s: seq<nat>)
    requires forall i :: 0 <= i < |s| ==> s[i] == 0
    ensures Sum(s) == 0
  {
    if s != [] {
      SumZeros(s[..|s| - 1]);
    }
  }

  /** What the scan knows at a record boundary. */
  lemma AtBoundary(rs: seq<Rec>, k: nat)
    requires AllWritable(rs) && k <= |rs|
    ensures k < |rs| ==>
              var blob, at, r := EncodeAll(rs), Start(rs, k), rs[k];
              && at + HDR <= |blob| && Start(rs, k + 1) == at + RecordSize(|r.ids|) <= |blob|
              && ReadHeader(blob, at) == Header(r.gid, |r.ids|, RecordSize(|r.ids|))
              && at + HDR + 4 * |r.ids| <= |blob| && ReadIds(blob, at, |r.ids|) == r.ids
    ensures k == |rs| ==> Start(rs, k) == |EncodeAll(rs)|
  {
    LogEnd(rs);
    if k < |rs| {
      RecordAt(rs, k);
    }
  }

  /** Pass 1: counts per node of [base, lim), and their sum. */
  method CountRecords(blob: seq<byte>, base: nat, lim: nat, ghost rs: seq<Rec>) returns (counts: array<nat>, sum: nat)
    requires AllWritable(rs) && blob == EncodeAll(rs) && base <= lim
    ensures fresh(counts) && counts.Length == lim - base && Counted(rs, base, counts[..]) && sum == Sum(counts[..])
  {
    counts := new nat[lim - base](_ => 0);
    sum := 0;
    SumZeros(counts[..]);
    var off := 0;
    ghost var k := 0;
    LogEnd(rs);
    while off + HDR <= |blob|
      invariant k <= |rs| && off == Start(rs, k)
      invariant Counted(rs[..k], base, counts[..]) && sum == Sum(counts[..])
      decreases |rs| - k
    {
      AtBoundary(rs, k);
      var rh := ReadHeader(blob, off);
      if rh.size < 16 {
        break;
      }
      if off + rh.size > |blob| {
        break;
      }
      sum := CountOne(rs, k, base, lim, rh, counts, sum);
      off := off + rh.size;
      k := k + 1;
    }
    AtBoundary(rs, k);
    assert rs[..|rs|] == rs;
  }

  method CountOne(ghost rs: seq<Rec>, ghost k: nat, base: nat, lim: nat, rh: Header, counts: array<nat>, sum: nat)
    returns (sum': nat)
    requires k < |rs| && rh.gid == rs[k].gid && rh.len == |rs[k].ids| && base <= lim && counts.Length == lim - base
    requires Counted(rs[..k], base, counts[..]) && sum == Sum(counts[..])
    modifies counts
    ensures Counted(rs[..k + 1], base, counts[..]) && sum' == Sum(counts[..])
  {
    ghost var before := counts[..];
    CountedStep(rs, k, base, before);
    sum' := sum;
    if base <= rh.gid < lim {
      var u := rh.gid - base;
      SumWith(rs[k], base, before);
      counts[u] := counts[u] + rh.len;
      sum' := sum + rh.len;
    }
    assert counts[..] == CountedWith(rs[k], base, before);
  }

  /** The counts once record k is counted. */
  ghost function CountedWith(r: Rec, base: nat, counts: seq<nat>): seq<nat> {
    if base <= r.gid < base + |counts| then counts[r.gid - base := counts[r.gid - base] + |r.ids|] else counts
  }

  lemma SumWith(r: Rec, base: nat, counts: seq<nat>)
    requires base <= r.gid < base + |counts|
    ensures Sum(CountedWith(r, base, counts)) == Sum(counts) + |r.ids|
  {
    var u := r.gid - base;
    var x := counts[u] + |r.ids|;
    assert CountedWith(r, base, counts) == counts[u := x];
    SumUpdate(counts, u, x);
  }

  lemma CountedStep(rs: seq<Rec>, k: nat, base: nat, counts: seq<nat>)
    requires k < |rs| && Counted(rs[..k], base, counts)
    ensures Counted(rs[..k + 1], base, CountedWith(rs[k], base, counts))
  {
    forall u | 0 <= u < |counts|
      ensures CountedWith(rs[k], base, counts)[u] == |CandidatesOf(rs[..k + 1], base + u)|
    {
      CandidatesStep(rs, k, base + u);
    }
  }

  /** Pass 2: the ids of every record behind its node's cursor. */
  method FillRecords(blob: seq<byte>, base: nat, lim: nat, prefix: seq<nat>, counts: seq<nat>, ghost rs: seq<Rec>)
    returns (outIds: array<nat>)
    requires AllWritable(rs) && blob == EncodeAll(rs) && base <= lim
    requires |counts| == lim - base && Counted(rs, base, counts) && IsPrefixSum(prefix, counts)
    ensures fresh(outIds) && outIds[..] == Flatten(Lists(rs, base, lim - base))
  {
    var count := lim - base;
    outIds := new nat[prefix[count]](_ => 0);
    var cursor := new nat[count + 1](i requires 0 <= i <= count && |prefix| == count + 1 => prefix[i]);
    NothingFilled(outIds[..], cursor[..], prefix, counts);
    NoLists(rs, base, count);
    var off := 0;
    ghost var k := 0;
    LogEnd(rs);
    while off + HDR <= |blob|
      invariant k <= |rs| && off == Start(rs, k)
      invariant Filled(outIds[..], cursor[..], prefix, counts, Lists(rs[..k], base, count))
      decreases |rs| - k
    {
      AtBoundary(rs, k);
      var rh := ReadHeader(blob, off);
      if rh.size < 16 {
        break;
      }
      if off + rh.size > |blob| {
        break;
      }
      FillOne(rs, k, base, lim, rh.gid, ReadIds(blob, off, rh.len), outIds, cursor, prefix, counts);
      off := off + rh.size;
      k := k + 1;
    }
    AtBoundary(rs, k);
    assert rs[..|rs|] == rs;
    FullBuffer(outIds[..], cursor[..], prefix, counts, Lists(rs, base, count));
  }

  lemma ListsSkip(rs: seq<Rec>, k: nat, base: nat, count: nat)
    requires k < |rs| && (rs[k].ids == [] || !(base <= rs[k].gid < base + count))
    ensures Lists(rs[..k + 1], base, count) == Lists(rs[..k], base, count)
  {
    var a, b := Lists(rs[..k + 1], base, count), Lists(rs[..k], base, count);
    forall u | 0 <= u < count ensures a[u] == b[u] {
      CandidatesStep(rs, k, base + u);
    }
  }

  lemma ListsStep(rs: seq<Rec>, k: nat, base: nat, count: nat)
    requires k < |rs| && base <= rs[k].gid < base + count
    ensures var p, u := Lists(rs[..k], base, count), rs[k].gid - base;
            Lists(rs[..k + 1], base, count) == p[u := p[u] + rs[k].ids]
  {
    var a, b := Lists(rs[..k + 1], base, count), Lists(rs[..k], base, count);
    var b' := b[rs[k].gid - base := b[rs[k].gid - base] + rs[k].ids];
    forall u | 0 <= u < count ensures a[u] == b'[u] {
      CandidatesStep(rs, k, base + u);
    }
  }

  method FillOne(ghost rs: seq<Rec>, ghost k: nat, base: nat, lim: nat, gid: nat, ids: seq<nat>, outIds: array<nat>, cursor: array<nat>,
                 ghost prefix: seq<nat>, ghost counts: seq<nat>)
    requires k < |rs| && ids == rs[k].ids && gid == rs[k].gid && base <= lim && outIds != cursor
    requires |counts| == lim - base && Counted(rs, base, counts)
    requires Filled(outIds[..], cursor[..], prefix, counts, Lists(rs[..k], base, lim - base))
    modifies outIds, cursor
    ensures Filled(outIds[..], cursor[..], prefix, counts, Lists(rs[..k + 1], base, lim - base))
  {
    if |ids| > 0 && base <= gid < lim {
      ListsStep(rs, k, base, lim - base);
      CandidatesStep(rs, k, gid);
      CandidatesGrow(rs, k + 1, gid);
      assert counts[gid - base] == |CandidatesOf(rs, base + (gid - base))|;
      Append(outIds, cursor, gid - base, ids, prefix, counts, Lists(rs[..k], base, lim - base));
    } else {
      ListsSkip(rs, k, base, lim - base);
    }
  }

  lemma NoLists(rs: seq<Rec>, base: nat, count: nat)
    ensures Lists(rs[..0], base, count) == Empties(count)
  {
    var a := Lists(rs[..0], base, count);
    forall u | 0 <= u < count ensures a[u] == [] {
      assert CandidatesOf(rs[..0], base + u) == [];
    }
  }

  /** Row u of a bucket, whose ids start at `acc` in the stream. */
  ghost predicate BucketRow(row: Row, acc: nat, ids: seq<nat>, list: seq<nat>) {
    row.off >= acc && RowHolds(Row(row.off - acc, row.cnt), ids, list)
  }

  /** One bucket log: its rows and its stretch of the id stream. */
  method CompactBucket(blob: seq<byte>, base: nat, lim: nat, acc: nat, ghost rs: seq<Rec>)
    returns (rows: seq<Row>, ids: seq<nat>)
    requires AllWritable(rs) && blob == EncodeAll(rs) && base <= lim
    ensures |rows| == lim - base && ids == Flatten(Lists(rs, base, lim - base))
    ensures forall u :: 0 <= u < |rows| ==> BucketRow(rows[u], acc, ids, Lists(rs, base, lim - base)[u])
  {
    var cnt, sum := CountRecords(blob, base, lim, rs);
    var counts := cnt[..];
    var prefix := PrefixSums(counts);
    rows := seq(|counts|, u requires 0 <= u < |counts| && |prefix| == |counts| + 1 => Row(acc + prefix[u], counts[u]));
    ids := [];
    ghost var lists := Lists(rs, base, lim - base);
    FlattenSize(lists, counts);
    if sum > 0 {
      var outIds := FillRecords(blob, base, lim, prefix, counts, rs);
      ids := outIds[..];
    }
    forall u | 0 <= u < |rows| ensures BucketRow(rows[u], acc, ids, lists[u]) {
      RowOfSegment(lists, prefix, counts, acc, u);
    }
  }

  lemma RowOfSegment(lists: seq<seq<nat>>, prefix: seq<nat>, counts: seq<nat>, acc: nat, u: nat)
    requires |lists| == |counts| && (forall i :: 0 <= i < |lists| ==> |lists[i]| == counts[i])
    requires IsPrefixSum(prefix, counts) && u < |lists|
    ensures BucketRow(Row(acc + prefix[u], counts[u]), acc, Flatten(lists), lists[u])
  {
    SegmentOf(lists, prefix, counts, u);
  }

  /** The candidates of every node, each from the log of its own bucket. */
  ghost function AllLists(cfg: Config, logRecs: seq<seq<Rec>>): seq<seq<nat>>
    requires cfg.buckets > 0 && |logRecs| == cfg.buckets
  {
    seq(cfg.n, gid requires 0 <= gid < cfg.n => CandidatesOf(logRecs[BucketOf(gid, cfg.n, cfg.buckets)], gid))
  }

  lemma BucketLists(cfg: Config, logRecs: seq<seq<Rec>>, k: nat)
    requires cfg.buckets > 0 && |logRecs| == cfg.buckets && k < cfg.buckets
    ensures var base, lim := Base(k, cfg.n, cfg.buckets), Limit(k, cfg.n, cfg.buckets);
            base <= lim && Lists(logRecs[k], base, lim - base) == AllLists(cfg, logRecs)[base..lim]
  {
    var base, lim := Base(k, cfg.n, cfg.buckets), Limit(k, cfg.n, cfg.buckets);
    BucketsCover(cfg.n, cfg.buckets, k);
    var a, b := Lists(logRecs[k], base, lim - base), AllLists(cfg, logRecs)[base..lim];
    forall u | 0 <= u < lim - base ensures a[u] == b[u] {
      BucketHolds(base + u, cfg.n, cfg.buckets, k);
    }
  }

  /** Rows and ids of the nodes below `upto` are in place. */
  ghost predicate Compacted(rows: seq<Row>, ids: seq<nat>, lists: seq<seq<nat>>, upto: nat) {
    && upto <= |lists| == |rows| && ids == Flatten(lists[..upto])
    && forall u :: 0 <= u < upto ==> RowHolds(rows[u], ids, lists[u])
  }

  lemma CompactedGrows(rows: seq<Row>, ids: seq<nat>, lists: seq<seq<nat>>, upto: nat, next: nat,
                       rows': seq<Row>, more: seq<nat>, bucket: seq<Row>)
    requires Compacted(rows, ids, lists, upto) && upto <= next <= |lists| && |bucket| == next - upto
    requires rows' == rows[..upto] + bucket + rows[next..]
    requires more == Flatten(lists[upto..next])
    requires forall u :: 0 <= u < |bucket| ==> BucketRow(bucket[u], |ids|, more, lists[upto..next][u])
    ensures Compacted(rows', ids + more, lists, next)
  {
    FlattenConcat(lists[..upto], lists[upto..next]);
    assert lists[..next] == lists[..upto] + lists[upto..next];
    forall u | 0 <= u < next ensures RowHolds(rows'[u], ids + more, lists[u]) {
      if u < upto {
        assert rows'[u] == rows[u];
        RowStays(rows[u], ids, more, lists[u]);
      } else {
        assert rows'[u] == bucket[u - upto] && lists[upto..next][u - upto] == lists[u];
        RowArrives(bucket[u - upto], ids, more, lists[u]);
      }
    }
  }

  lemma RowStays(r: Row, ids: seq<nat>, more: seq<nat>, list: seq<nat>)
    requires RowHolds(r, ids, list)
    ensures RowHolds(r, ids + more, list)
  {
    assert (ids + more)[r.off..r.off + r.cnt] == ids[r.off..r.off + r.cnt];
  }

  lemma RowArrives(r: Row, ids: seq<nat>, more: seq<nat>, list: seq<nat>)
    requires BucketRow(r, |ids|, more, list)
    ensures RowHolds(r, ids + more, list)
  {
    assert (ids + more)[r.off..r.off + r.cnt] == more[r.off - |ids|..r.off - |ids| + r.cnt];
  }

  /** The whole phase, bucket after bucket: every node's row leads to the ids of
      its records. */
  method CompactAll(cfg: Config, logs: seq<seq<byte>>, ghost logRecs: seq<seq<Rec>>) returns (f: CandFile)
    requires cfg.buckets > 0 && |logs| == cfg.buckets && LogsOk(cfg, logs, logRecs)
    ensures Holds(f, AllLists(cfg, logRecs)) && f.ids == Flatten(AllLists(cfg, logRecs))
  {
    ghost var lists := AllLists(cfg, logRecs);
    var rows, ids := seq(cfg.n, _ => Row(0, 0)), [];
    assert lists[..0] == [];
    BucketsCover(cfg.n, cfg.buckets, 0);
    for k := 0 to cfg.buckets
      invariant Compacted(rows, ids, lists, Base(k, cfg.n, cfg.buckets))
    {
      rows, ids := NextBucket(cfg, logs, k, rows, ids, logRecs, lists);
    }
    assert lists[..cfg.n] == lists;
    BucketsCover(cfg.n, cfg.buckets, cfg.buckets - 1);
    f := CandFile(rows, ids);
  }

  method NextBucket(cfg: Config, logs: seq<seq<byte>>, k: nat, rows: seq<Row>, ids: seq<nat>,
                    ghost logRecs: seq<seq<Rec>>, ghost lists: seq<seq<nat>>)
    returns (rows': seq<Row>, ids': seq<nat>)
    requires cfg.buckets > 0 && |logs| == cfg.buckets && LogsOk(cfg, logs, logRecs) && k < cfg.buckets
    requires lists == AllLists(cfg, logRecs) && Compacted(rows, ids, lists, Base(k, cfg.n, cfg.buckets))
    ensures Compacted(rows', ids', lists, Base(k + 1, cfg.n, cfg.buckets))
  {
    var base, lim := Base(k, cfg.n, cfg.buckets), Limit(k, cfg.n, cfg.buckets);
    BucketsCover(cfg.n, cfg.buckets, k);
    rows', ids' := rows, ids;
    if base >= lim {
      return;
    }
    assert LogOk(cfg, logs[k], logRecs[k], k);
    BucketLists(cfg, logRecs, k);
    var bucketRows, out := CompactBucket(logs[k], base, lim, |ids|, logRecs[k]);
    rows' := rows[..base] + bucketRows + rows[lim..];
    ids' := ids + out;
    CompactedGrows(rows, ids, lists, base, lim, rows', out, bucketRows);
  }

  // ---- the candidates depend on the records, not on their order ----

  lemma {:induction false} CandidatesConcat(a: seq<Rec>, b: seq<Rec>, gid: nat)
    ensures CandidatesOf(a + b, gid) == CandidatesOf(a, gid) + CandidatesOf(b, gid)
  {
    if b == [] {
      assert a + b == a;
    } else {
      CandidatesConcat(a, b[..|b| - 1], gid);
      assert (a + b)[..|a + b| - 1] == a + b[..|b| - 1];
    }
  }

  lemma {:induction false} CandidatesPermute(a: seq<Rec>, b: seq<Rec>, gid: nat)
    requires multiset(a) == multiset(b)
    ensures multiset(CandidatesOf(a, gid)) == multiset(CandidatesOf(b, gid))
    decreases |a|
  {
    if a == [] {
      assert |multiset(b)| == 0 && b == [];
    } else {
      var init, x := a[..|a| - 1], a[|a| - 1];
      assert a == init + [x] && x in multiset(b);
      var i :| 0 <= i < |b| && b[i] == x;
      RemoveOne(init, x, b, i);
      CandidatesPermute(init, b[..i] + b[i + 1..], gid);
      CandidatesRemove(b, i, gid);
    }
  }

  lemma RemoveOne(init: seq<Rec>, x: Rec, b: seq<Rec>, i: nat)
    requires i < |b| && b[i] == x && multiset(init + [x]) == multiset(b)
    ensures multiset(init) == multiset(b[..i] + b[i + 1..])
  {
    var rest := b[..i] + b[i + 1..];
    assert b == b[..i] + [x] + b[i + 1..];
    assert multiset(init) + multiset{x} == multiset(rest) + multiset{x};
    Cancel(multiset(init), multiset(rest), multiset{x});
  }

  lemma CandidatesRemove(b: seq<Rec>, i: nat, gid: nat)
    requires i < |b|
    ensures multiset(CandidatesOf(b, gid))
         == multiset(CandidatesOf(b[..i] + b[i + 1..], gid)) + multiset(if b[i].gid == gid then b[i].ids else [])
  {
    var b1, x, b2 := b[..i], b[i], b[i + 1..];
    assert b == b1 + ([x] + b2);
    CandidatesConcat(b1, [x] + b2, gid);
    CandidatesConcat([x], b2, gid);
    CandidatesConcat(b1, b2, gid);
    assert [x][..0] == [];
  }

  /** All records of all logs. */
  ghost function Joined(ss: seq<seq<Rec>>): seq<Rec> {
    if ss == [] then [] else Joined(ss[..|ss| - 1]) + ss[|ss| - 1]
  }

  lemma {:induction false} JoinedBag(ss: seq<seq<Rec>>)
    ensures multiset(Joined(ss)) == Bag(ss)
  {
    if ss != [] {
      JoinedBag(ss[..|ss| - 1]);
    }
  }

  lemma {:induction false} NotInBucket(recs: seq<Rec>, gid: nat)
    requires Lacks(recs, gid)
    ensures CandidatesOf(recs, gid) == []
  {
    if recs != [] {
      NotInBucket(recs[..|recs| - 1], gid);
    }
  }

  ghost predicate Lacks(recs: seq<Rec>, gid: nat) {
    forall i :: 0 <= i < |recs| ==> recs[i].gid != gid
  }

  /** If only one log has records of a node, that log has all its candidates. */
  lemma {:induction false} OwnLogOnly(logRecs: seq<seq<Rec>>, gid: nat, own: nat, m: nat)
    requires m <= |logRecs| && own < |logRecs|
    requires forall k :: 0 <= k < |logRecs| && k != own ==> Lacks(logRecs[k], gid)
    ensures CandidatesOf(Joined(logRecs[..m]), gid) == if own < m then CandidatesOf(logRecs[own], gid) else []
  {
    if m > 0 {
      OwnLogOnly(logRecs, gid, own, m - 1);
      assert logRecs[..m][..m - 1] == logRecs[..m - 1];
      CandidatesConcat(Joined(logRecs[..m - 1]), logRecs[m - 1], gid);
      if own != m - 1 {
        NotInBucket(logRecs[m - 1], gid);
      }
    }
  }

  /** Two runs that appended the same records, whatever their threads, buffers,
      buckets and interleavings, give every node a permutation of the same
      candidates. */
  lemma RunsAgree(cfg1: Config, run1: seq<Action>, cfg2: Config, run2: seq<Action>, gid: nat)
    requires cfg1.buckets > 0 && cfg2.buckets > 0 && cfg1.n == cfg2.n && gid < cfg1.n
    requires Drained(cfg1, Run(cfg1, run1)) && Drained(cfg2, Run(cfg2, run2))
    requires Run(cfg1, run1).put == Run(cfg2, run2).put
    ensures multiset(AllLists(cfg1, Run(cfg1, run1).logRecs)[gid]) == multiset(AllLists(cfg2, Run(cfg2, run2).logRecs)[gid])
  {
    var s1, s2 := Run(cfg1, run1), Run(cfg2, run2);
    LogsHoldWholeRecords(cfg1, run1);
    LogsHoldWholeRecords(cfg2, run2);
    SameCandidates(cfg1, s1.logs, s1.logRecs, cfg2, s2.logs, s2.logRecs, gid);
  }

  lemma SameCandidates(cfg1: Config, logs1: seq<seq<byte>>, recs1: seq<seq<Rec>>,
                       cfg2: Config, logs2: seq<seq<byte>>, recs2: seq<seq<Rec>>, gid: nat)
    requires cfg1.buckets > 0 && |logs1| == cfg1.buckets && LogsOk(cfg1, logs1, recs1)
    requires cfg2.buckets > 0 && |logs2| == cfg2.buckets && LogsOk(cfg2, logs2, recs2)
    requires cfg1.n == cfg2.n && gid < cfg1.n && Bag(recs1) == Bag(recs2)
    ensures multiset(AllLists(cfg1, recs1)[gid]) == multiset(AllLists(cfg2, recs2)[gid])
  {
    JoinedBag(recs1);
    JoinedBag(recs2);
    CandidatesPermute(Joined(recs1), Joined(recs2), gid);
    ListFromAllLogs(cfg1, logs1, recs1, gid);
    ListFromAllLogs(cfg2, logs2, recs2, gid);
  }

  lemma ListFromAllLogs(cfg: Config, logs: seq<seq<byte>>, recs: seq<seq<Rec>>, gid: nat)
    requires cfg.buckets > 0 && |logs| == cfg.buckets && LogsOk(cfg, logs, recs) && gid < cfg.n
    ensures AllLists(cfg, recs)[gid] == CandidatesOf(Joined(recs), gid)
  {
    var own := BucketOf(gid, cfg.n, cfg.buckets);
    forall k | 0 <= k < |recs| && k != own ensures Lacks(recs[k], gid) {
      OtherBucket(cfg, logs[k], recs[k], k, gid);
    }
    OwnLogOnly(recs, gid, own, |recs|);
    assert recs[..|recs|] == recs;
  }

  lemma OtherBucket(cfg: Config, log: seq<byte>, recs: seq<Rec>, k: nat, gid: nat)
    requires cfg.buckets > 0 && gid < cfg.n && LogOk(cfg, log, recs, k) && k != BucketOf(gid, cfg.n, cfg.buckets)
    ensures Lacks(recs, gid)
  {
    forall i | 0 <= i < |recs| ensures recs[i].gid != gid {
      assert InBucket(cfg, recs[i], k);
    }
  }
}
