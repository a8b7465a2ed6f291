// construction/our_construction.cpp: any number of threads appending to and
// flushing their staging buffers, in any order.

module LogRuns {
  import opened Bytes
  import opened RecordLog
  import opened Buckets
  import opened Staging

  datatype Config = Config(n: nat, buckets: nat, threads: nat, cap: nat)

  /** What a thread is in the middle of: nothing, a switched bucket with its record
      still to place, or a placed record whose closing flush check is due. */
  datatype Pc = Idle | Switched(rec: Rec) | Closing(size: nat)

  /** `logRecs`, `stageRecs` and `put` record what the bytes stand for; no step
      looks at them. */
  datatype State = State(logs: seq<seq<byte>>, stages: seq<Stage>, pcs: seq<Pc>,
                         logRecs: seq<seq<Rec>>, stageRecs: seq<seq<Rec>>, put: multiset<Rec>)

  datatype Action = Switch(t: nat, rec: Rec) | Place(t: nat) | Close(t: nat) | Flush(t: nat)

  ghost predicate Valid(cfg: Config, r: Rec) {
    cfg.buckets > 0 && r.gid < cfg.n && Writable(r)
  }

  function Init(cfg: Config): State {
    State(seq(cfg.buckets, _ => []), seq(cfg.threads, _ => Stage(-1, [], cfg.cap)), seq(cfg.threads, _ => Idle),
          seq(cfg.buckets, _ => []), seq(cfg.threads, _ => []), multiset{})
  }

  /** One write of thread t's whole buffer. */
  function Flushing(s: State, t: nat, next: Stage): State
    requires t < |s.stages| == |s.stageRecs| && s.stages[t].bucket < |s.logs| == |s.logRecs|
  {
    var b := s.stages[t].bucket;
    if b < 0 then s.(stages := s.stages[t := next.(bytes := [])], stageRecs := s.stageRecs[t := []])
    else
      s.(logs := s.logs[b := FlushTo(s.logs[b], s.stages[t])], stages := s.stages[t := next.(bytes := [])],
         logRecs := s.logRecs[b := s.logRecs[b] + s.stageRecs[t]], stageRecs := s.stageRecs[t := []])
  }

  ghost predicate Shape(cfg: Config, s: State) {
    && |s.logs| == |s.logRecs| == cfg.buckets
    && |s.stages| == |s.stageRecs| == |s.pcs| == cfg.threads
    && forall t :: 0 <= t < cfg.threads ==> -1 <= s.stages[t].bucket < cfg.buckets
  }

  ghost function Next(cfg: Config, s: State, a: Action): State
    requires Shape(cfg, s)
  {
    if a.t >= cfg.threads then s
    else
      var st := s.stages[a.t];
      match a
      case Switch(t, r) =>
        if !s.pcs[t].Idle? || !Valid(cfg, r) then s
        else
          var b := BucketOf(r.gid, cfg.n, cfg.buckets);
          var s1 := s.(pcs := s.pcs[t := Switched(r)]);
          if st.bucket == b then s1 else Flushing(s1, t, st.(bucket := b))
      case Place(t) =>
        if !s.pcs[t].Switched? || !Valid(cfg, s.pcs[t].rec) then s
        else
          var r := s.pcs[t].rec;
          s.(stages := s.stages[t := Placed(st, r)], pcs := s.pcs[t := Closing(RecordSize(|r.ids|))],
             stageRecs := s.stageRecs[t := s.stageRecs[t] + [r]], put := s.put + multiset{r})
      case Close(t) =>
        if !s.pcs[t].Closing? then s
        else
          var s1 := s.(pcs := s.pcs[t := Idle]);
          if |st.bytes| + s.pcs[t].size > st.cap then Flushing(s1, t, st) else s1
      case Flush(t) => if s.pcs[t].Idle? then Flushing(s, t, st) else s
  }

  /** The log of a bucket is a sequence of whole records of that bucket. */
  ghost predicate LogOk(cfg: Config, log: seq<byte>, recs: seq<Rec>, b: int) {
    && AllWritable(recs) && log == EncodeAll(recs)
    && forall i :: 0 <= i < |recs| ==> InBucket(cfg, recs[i], b)
  }

  ghost predicate InBucket(cfg: Config, r: Rec, b: int) {
    cfg.buckets > 0 && r.gid < cfg.n && BucketOf(r.gid, cfg.n, cfg.buckets) == b
  }

  ghost predicate StageOk(cfg: Config, st: Stage, pc: Pc, recs: seq<Rec>) {
    && (st.bucket == -1 ==> recs == [] && pc.Idle?)
    && (if st.bucket == -1 then st.bytes == [] else LogOk(cfg, st.bytes, recs, st.bucket))
    && (pc.Switched? ==> Valid(cfg, pc.rec) && InBucket(cfg, pc.rec, st.bucket))
  }

  ghost function Bag(ss: seq<seq<Rec>>): multiset<Rec> {
    if ss == [] then multiset{} else Bag(ss[..|ss| - 1]) + multiset(ss[|ss| - 1])
  }

  ghost predicate LogsOk(cfg: Config, logs: seq<seq<byte>>, recs: seq<seq<Rec>>) {
    |logs| == |recs| && forall b :: 0 <= b < |logs| ==> LogOk(cfg, logs[b], recs[b], b)
  }

  ghost predicate StagesOk(cfg: Config, stages: seq<Stage>, pcs: seq<Pc>, recs: seq<seq<Rec>>) {
    |stages| == |pcs| == |recs| && forall t :: 0 <= t < |stages| ==> StageOk(cfg, stages[t], pcs[t], recs[t])
  }

  lemma LogsUpdate(cfg: Config, logs: seq<seq<byte>>, recs: seq<seq<Rec>>, b: nat, log: seq<byte>, rs: seq<Rec>)
    requires LogsOk(cfg, logs, recs) && b < |logs| && LogOk(cfg, log, rs, b)
    ensures LogsOk(cfg, logs[b := log], recs[b := rs])
  {
  }

  lemma StagesUpdate(cfg: Config, stages: seq<Stage>, pcs: seq<Pc>, recs: seq<seq<Rec>>, t: nat, st: Stage, pc: Pc, rs: seq<Rec>)
    requires StagesOk(cfg, stages, pcs, recs) && t < |stages| && StageOk(cfg, st, pc, rs)
    ensures StagesOk(cfg, stages[t := st], pcs[t := pc], recs[t := rs])
  {
  }

  ghost predicate Inv(cfg: Config, s: State) {
    && Shape(cfg, s)
    && LogsOk(cfg, s.logs, s.logRecs)
    && StagesOk(cfg, s.stages, s.pcs, s.stageRecs)
    && s.put == Bag(s.logRecs) + Bag(s.stageRecs)
  }

  lemma {:induction false} BagUpdate(ss: seq<seq<Rec>>, i: nat, x: seq<Rec>)
    requires i < |ss|
    ensures Bag(ss[i := x]) + multiset(ss[i]) == Bag(ss) + multiset(x)
  {
    var n := |ss| - 1;
    if i < n {
      var init := ss[..n];
      BagUpdate(init, i, x);
      assert ss[i := x][..n] == init[i := x] && ss[i := x][n] == ss[n];
      Exchange(Bag(init[i := x]), multiset(ss[i]), Bag(init), multiset(x), multiset(ss[n]));
    } else {
      assert ss[i := x][..n] == ss[..n];
    }
  }

  lemma Exchange(a: multiset<Rec>, b: multiset<Rec>, c: multiset<Rec>, d: multiset<Rec>, e: multiset<Rec>)
    requires a + b == c + d
    ensures (a + e) + b == (c + e) + d
  {
    assert (a + e) + b == (a + b) + e && (c + e) + d == (c + d) + e;
  }

  lemma {:induction false} BagEmpty(ss: seq<seq<Rec>>)
    requires forall i :: 0 <= i < |ss| ==> ss[i] == []
    ensures Bag(ss) == multiset{}
  {
    if ss != [] {
      BagEmpty(ss[..|ss| - 1]);
    }
  }

  lemma InitInv(cfg: Config)
    ensures Inv(cfg, Init(cfg))
  {
    BagEmpty(Init(cfg).logRecs);
    BagEmpty(Init(cfg).stageRecs);
  }

  lemma LogOkConcat(cfg: Config, log: seq<byte>, recs: seq<Rec>, bytes: seq<byte>, more: seq<Rec>, b: int)
    requires LogOk(cfg, log, recs, b) && LogOk(cfg, bytes, more, b)
    ensures LogOk(cfg, log + bytes, recs + more, b)
  {
    EncodeAllConcat(recs, more);
  }

  lemma FlushKeeps(cfg: Config, s: State, t: nat, next: Stage, pc: Pc)
    requires Inv(cfg, s) && t < cfg.threads
    requires -1 <= next.bucket < cfg.buckets && (next.bucket == -1 ==> pc.Idle? && s.stages[t].bucket == -1)
    requires pc.Switched? ==> Valid(cfg, pc.rec) && InBucket(cfg, pc.rec, next.bucket)
    ensures Inv(cfg, Flushing(s.(pcs := s.pcs[t := pc]), t, next))
  {
    var b, recs, st := s.stages[t].bucket, s.stageRecs[t], s.stages[t];
    assert StageOk(cfg, st, s.pcs[t], recs);
    EmptyStage(cfg, next, pc);
    StagesUpdate(cfg, s.stages, s.pcs, s.stageRecs, t, next.(bytes := []), pc, []);
    var s' := Flushing(s.(pcs := s.pcs[t := pc]), t, next);
    assert s'.stages == s.stages[t := next.(bytes := [])] && s'.pcs == s.pcs[t := pc] && s'.stageRecs == s.stageRecs[t := []];
    if b >= 0 {
      FlushedLogs(cfg, s.logs, s.logRecs, b, st.bytes, recs);
      BagMove(s.logRecs, s.stageRecs, b, t);
    } else {
      assert s.stageRecs[t := []] == s.stageRecs;
    }
    Assemble(cfg, s');
  }

  lemma FlushedLogs(cfg: Config, logs: seq<seq<byte>>, recs: seq<seq<Rec>>, b: nat, bytes: seq<byte>, more: seq<Rec>)
    requires LogsOk(cfg, logs, recs) && b < |logs| && LogOk(cfg, bytes, more, b)
    ensures LogsOk(cfg, logs[b := logs[b] + bytes], recs[b := recs[b] + more])
  {
    LogOkConcat(cfg, logs[b], recs[b], bytes, more, b);
    LogsUpdate(cfg, logs, recs, b, logs[b] + bytes, recs[b] + more);
  }

  lemma Assemble(cfg: Config, s: State)
    requires Shape(cfg, s) && LogsOk(cfg, s.logs, s.logRecs) && StagesOk(cfg, s.stages, s.pcs, s.stageRecs)
    requires s.put == Bag(s.logRecs) + Bag(s.stageRecs)
    ensures Inv(cfg, s)
  {
  }

  /** Records that move from a buffer to a log are conserved. */
  lemma BagMove(logRecs: seq<seq<Rec>>, stageRecs: seq<seq<Rec>>, b: nat, t: nat)
    requires b < |logRecs| && t < |stageRecs|
    ensures Bag(logRecs[b := logRecs[b] + stageRecs[t]]) + Bag(stageRecs[t := []]) == Bag(logRecs) + Bag(stageRecs)
  {
    BagUpdate(stageRecs, t, []);
    BagUpdate(logRecs, b, logRecs[b] + stageRecs[t]);
    Moved(Bag(logRecs), Bag(logRecs[b := logRecs[b] + stageRecs[t]]), Bag(stageRecs), Bag(stageRecs[t := []]),
          multiset(logRecs[b]), multiset(stageRecs[t]));
  }

  lemma Moved(l: multiset<Rec>, l': multiset<Rec>, s: multiset<Rec>, s': multiset<Rec>, a: multiset<Rec>, r: multiset<Rec>)
    requires l' + a == l + (a + r) && s' + r == s
    ensures l' + s' == l + s
  {
    assert l' + a == (l + r) + a;
    Cancel(l', l + r, a);
  }

  lemma Cancel(x: multiset<Rec>, y: multiset<Rec>, a: multiset<Rec>)
    requires x + a == y + a
    ensures x == y
  {
    forall e ensures x[e] == y[e] {
      assert (x + a)[e] == (y + a)[e];
    }
  }

  /** A placed record joins its buffer. */
  lemma BagPlace(stageRecs: seq<seq<Rec>>, t: nat, r: Rec)
    requires t < |stageRecs|
    ensures Bag(stageRecs[t := stageRecs[t] + [r]]) == Bag(stageRecs) + multiset{r}
  {
    BagUpdate(stageRecs, t, stageRecs[t] + [r]);
    var x, m := Bag(stageRecs[t := stageRecs[t] + [r]]), multiset(stageRecs[t]);
    assert x + m == (Bag(stageRecs) + multiset{r}) + m;
    Cancel(x, Bag(stageRecs) + multiset{r}, m);
  }

  lemma EmptyStage(cfg: Config, next: Stage, pc: Pc)
    requires next.bucket == -1 ==> pc.Idle?
    requires pc.Switched? ==> Valid(cfg, pc.rec) && InBucket(cfg, pc.rec, next.bucket)
    ensures StageOk(cfg, next.(bytes := []), pc, [])
  {
  }

  lemma PlaceKeeps(cfg: Config, s: State, t: nat)
    requires Inv(cfg, s) && t < cfg.threads
    ensures Inv(cfg, Next(cfg, s, Place(t)))
  {
    if s.pcs[t].Switched? {
      var st, recs, r := s.stages[t], s.stageRecs[t], s.pcs[t].rec;
      assert StageOk(cfg, st, s.pcs[t], recs);
      PlacedStage(cfg, st, recs, r);
      StagesUpdate(cfg, s.stages, s.pcs, s.stageRecs, t, Placed(st, r), Closing(RecordSize(|r.ids|)), recs + [r]);
      BagPlace(s.stageRecs, t, r);
      Assemble(cfg, Next(cfg, s, Place(t)));
    }
  }

  lemma PlacedStage(cfg: Config, st: Stage, recs: seq<Rec>, r: Rec)
    requires StageOk(cfg, st, Switched(r), recs)
    ensures StageOk(cfg, Placed(st, r), Closing(RecordSize(|r.ids|)), recs + [r])
  {
    EncodeAllAppend(recs, r);
  }

  /** A step that only advances the thread. */
  lemma AdvanceKeeps(cfg: Config, s: State, t: nat, pc: Pc)
    requires Inv(cfg, s) && t < cfg.threads && StageOk(cfg, s.stages[t], pc, s.stageRecs[t])
    ensures Inv(cfg, s.(pcs := s.pcs[t := pc]))
  {
    var s' := s.(pcs := s.pcs[t := pc]);
    StagesUpdate(cfg, s.stages, s.pcs, s.stageRecs, t, s.stages[t], pc, s.stageRecs[t]);
    assert s.stages[t := s.stages[t]] == s.stages && s.stageRecs[t := s.stageRecs[t]] == s.stageRecs;
    Assemble(cfg, s');
  }

  lemma SwitchKeeps(cfg: Config, s: State, t: nat, r: Rec)
    requires Inv(cfg, s) && t < cfg.threads
    ensures Inv(cfg, Next(cfg, s, Switch(t, r)))
  {
    if s.pcs[t].Idle? && Valid(cfg, r) {
      var st, b := s.stages[t], BucketOf(r.gid, cfg.n, cfg.buckets);
      assert StageOk(cfg, st, s.pcs[t], s.stageRecs[t]);
      if st.bucket == b {
        AdvanceKeeps(cfg, s, t, Switched(r));
      } else {
        FlushKeeps(cfg, s, t, st.(bucket := b), Switched(r));
      }
    }
  }

  lemma CloseKeeps(cfg: Config, s: State, t: nat)
    requires Inv(cfg, s) && t < cfg.threads
    ensures Inv(cfg, Next(cfg, s, Close(t)))
  {
    CloseIs(cfg, s, t);
    if s.pcs[t].Closing? {
      var st := s.stages[t];
      if |st.bytes| + s.pcs[t].size > st.cap {
        FlushKeeps(cfg, s, t, st, Idle);
      } else {
        IdleOk(cfg, s, t);
        AdvanceKeeps(cfg, s, t, Idle);
      }
    }
  }

  /** The step, case by case. */
  lemma CloseIs(cfg: Config, s: State, t: nat)
    requires Shape(cfg, s) && t < cfg.threads
    ensures var st, s1, s' := s.stages[t], s.(pcs := s.pcs[t := Idle]), Next(cfg, s, Close(t));
            && (!s.pcs[t].Closing? ==> s' == s)
            && (s.pcs[t].Closing? && |st.bytes| + s.pcs[t].size > st.cap ==> s' == Flushing(s1, t, st))
            && (s.pcs[t].Closing? && |st.bytes| + s.pcs[t].size <= st.cap ==> s' == s1)
  {
  }

  lemma IdleOk(cfg: Config, s: State, t: nat)
    requires Inv(cfg, s) && t < cfg.threads
    ensures StageOk(cfg, s.stages[t], Idle, s.stageRecs[t])
  {
    assert StageOk(cfg, s.stages[t], s.pcs[t], s.stageRecs[t]);
  }

  lemma FlushActionKeeps(cfg: Config, s: State, t: nat)
    requires Inv(cfg, s) && t < cfg.threads
    ensures Inv(cfg, Next(cfg, s, Flush(t)))
  {
    FlushIs(cfg, s, t);
    if s.pcs[t].Idle? {
      FlushKeeps(cfg, s, t, s.stages[t], Idle);
    }
  }

  lemma FlushIs(cfg: Config, s: State, t: nat)
    requires Shape(cfg, s) && t < cfg.threads
    ensures !s.pcs[t].Idle? ==> Next(cfg, s, Flush(t)) == s
    ensures s.pcs[t].Idle? ==> Next(cfg, s, Flush(t)) == Flushing(s.(pcs := s.pcs[t := Idle]), t, s.stages[t])
  {
    if s.pcs[t].Idle? {
      assert s.pcs[t := Idle] == s.pcs;
    }
  }

  lemma StepKeeps(cfg: Config, s: State, a: Action)
    requires Inv(cfg, s)
    ensures Inv(cfg, Next(cfg, s, a))
  {
    if a.t < cfg.threads {
      match a
      case Switch(t, r) => SwitchKeeps(cfg, s, t, r);
      case Place(t) => PlaceKeeps(cfg, s, t);
      case Close(t) => CloseKeeps(cfg, s, t);
      case Flush(t) => FlushActionKeeps(cfg, s, t);
    }
  }

  ghost function Run(cfg: Config, actions: seq<Action>): (s: State)
    ensures Inv(cfg, s)
  {
    if actions == [] then InitInv(cfg); Init(cfg)
    else
      var before := Run(cfg, actions[..|actions| - 1]);
      StepKeeps(cfg, before, actions[|actions| - 1]);
      Next(cfg, before, actions[|actions| - 1])
  }

  /** Every thread has flushed, as flush_bucket_logs does before compaction. */
  ghost predicate Drained(cfg: Config, s: State)
    requires Shape(cfg, s)
  {
    forall t :: 0 <= t < cfg.threads ==> s.stages[t].bytes == []
  }

  /** After any interleaving, every log is a sequence of whole records of its own
      bucket, and once all threads have flushed the logs together hold exactly the
      records that were appended. */
  lemma LogsHoldWholeRecords(cfg: Config, actions: seq<Action>)
    ensures var s := Run(cfg, actions);
            && (forall b :: 0 <= b < cfg.buckets ==> LogOk(cfg, s.logs[b], s.logRecs[b], b))
            && (Drained(cfg, s) ==> Bag(s.logRecs) == s.put)
  {
    var s := Run(cfg, actions);
    if Drained(cfg, s) {
      forall t | 0 <= t < cfg.threads ensures s.stageRecs[t] == [] {
        assert StageOk(cfg, s.stages[t], s.pcs[t], s.stageRecs[t]);
        RecordsHaveBytes(s.stageRecs[t]);
      }
      BagEmpty(s.stageRecs);
    }
  }

  lemma RecordsHaveBytes(recs: seq<Rec>)
    requires AllWritable(recs)
    ensures recs != [] ==> EncodeAll(recs) != []
  {
  }

  /** The steps of a thread are the three stretches of the staging class's append. */
  lemma SwitchMatches(cfg: Config, s: State, t: nat, r: Rec)
    requires Shape(cfg, s) && t < cfg.threads && s.pcs[t].Idle? && Valid(cfg, r)
    requires s.stages[t].bucket == -1 ==> s.stages[t].bytes == []
    ensures var s' := Next(cfg, s, Switch(t, r));
            && (s'.logs, s'.stages[t]) == SwitchTo(s.logs, s.stages[t], BucketOf(r.gid, cfg.n, cfg.buckets))
            && s'.pcs[t] == Switched(r)
  {
    if s.stages[t].bucket >= 0 {
      FlushMatches(s, t);
    }
  }

  lemma CloseMatches(cfg: Config, s: State, t: nat)
    requires Shape(cfg, s) && t < cfg.threads && s.pcs[t].Closing? && s.stages[t].bucket >= 0
    ensures var s' := Next(cfg, s, Close(t));
            && (s'.logs, s'.stages[t]) == EndAppend(s.logs, s.stages[t], s.pcs[t].size)
            && s'.pcs[t] == Idle
  {
    FlushMatches(s, t);
  }

  /** Writing an empty buffer changes nothing. */
  lemma FlushMatches(s: State, t: nat)
    requires t < |s.stages| && 0 <= s.stages[t].bucket < |s.logs|
    ensures var st := s.stages[t];
            s.logs[st.bucket := FlushTo(s.logs[st.bucket], st)] == Flushed(s.logs, st, st).0
  {
    var st := s.stages[t];
    if st.bytes == [] {
      assert s.logs[st.bucket] + [] == s.logs[st.bucket];
    }
  }
}
