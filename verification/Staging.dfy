// construction/our_construction.cpp, TLStaging: the per-thread staging buffers of
// the bucket logs.

module Staging {
  import opened Bytes
  import opened RecordLog

  /** A thread's buffer: the bucket it is for (none yet: -1), its bytes and size. */
  datatype Stage = Stage(bucket: int, bytes: seq<byte>, cap: nat)

  /** flush: one atomic O_APPEND write. */
  function FlushTo(log: seq<byte>, st: Stage): seq<byte> {
    log + st.bytes
  }

  function RoundPage(x: nat): (r: nat)
    ensures x <= r
  {
    (x + 4095) / 4096 * 4096
  }

  /** The capacity after `ensure(need)`. */
  function Grown(cap: nat, used: nat, need: nat): (r: nat)
    ensures used + need <= cap ==> r == cap
    ensures used + need <= r
  {
    if used + need <= cap then cap else RoundPage(Doubled(if cap > 0 then cap * 2 else 65536, used + need))
  }

  function Doubled(cap: nat, need: nat): (r: nat)
    requires cap > 0
    ensures need <= r
    decreases need - cap
  {
    if cap < need then Doubled(cap * 2, need) else cap
  }

  class Logs {
    var logs: seq<seq<byte>>

    constructor (buckets: nat)
      ensures logs == seq(buckets, _ => [])
    {
      logs := seq(buckets, _ => []);
    }

    /** write(2) on a descriptor opened with O_APPEND. */
    method Write(b: nat, bytes: seq<byte>)
      requires b < |logs|
      modifies this
      ensures logs == old(logs)[b := old(logs)[b] + bytes]
    {
      logs := logs[b := logs[b] + bytes];
    }
  }

  class TLStaging {
    var curB: int
    var cap: nat
    var used: nat
    var buf: array<byte>

    ghost predicate Valid()
      reads this
    {
      used <= cap == buf.Length && -1 <= curB && (curB == -1 ==> used == 0)
    }

    ghost function Abs(): Stage
      requires used <= buf.Length
      reads this, buf
    {
      Stage(curB, buf[..used], cap)
    }

    /** init */
    constructor (bytes: nat)
      ensures Valid() && fresh(buf) && curB == -1 && used == 0
      ensures cap == RoundPage(if bytes < 4096 then 4096 else bytes)
    {
      var size := RoundPage(if bytes < 4096 then 4096 else bytes);
      buf := new byte[size](_ => 0);
      cap, used, curB := size, 0, -1;
    }

    method Flush(logs: Logs)
      requires Valid() && curB < |logs.logs|
      modifies this, logs
      ensures Valid() && used == 0 && curB == old(curB) && cap == old(cap) && buf == old(buf)
      ensures logs.logs == if old(used) == 0 then old(logs.logs)
                           else old(logs.logs)[curB := FlushTo(old(logs.logs)[curB], old(Abs()))]
    {
      if used == 0 {
        return;
      }
      logs.Write(curB, buf[..used]);
      used := 0;
    }

    method Ensure(need: nat)
      requires Valid()
      modifies this
      ensures Valid() && used + need <= cap && cap == Grown(old(cap), used, need)
      ensures used == old(used) && curB == old(curB) && buf[..used] == old(buf[..used])
      ensures buf == old(buf) || fresh(buf)
    {
      if used + need <= cap {
        return;
      }
      var ncap := if cap > 0 then cap * 2 else 65536;
      while ncap < used + need
        invariant 0 < ncap
        invariant Doubled(ncap, used + need) == Doubled(if cap > 0 then cap * 2 else 65536, used + need)
        decreases used + need - ncap
      {
        ncap := ncap * 2;
      }
      var grown := new byte[RoundPage(ncap)](_ => 0);
      forall i | 0 <= i < used {
        grown[i] := buf[i];
      }
      ghost var before := buf[..used];
      buf := grown;
      cap := RoundPage(ncap);
      assert buf[..used] == before;
    }

    method PutBytes(src: seq<byte>)
      requires Valid() && used + |src| <= cap && curB >= 0
      modifies this, buf
      ensures Valid() && curB == old(curB) && cap == old(cap) && buf == old(buf)
      ensures used == old(used) + |src| && buf[..used] == old(buf[..used]) + src
    {
      forall i | 0 <= i < |src| {
        buf[used + i] := src[i];
      }
      used := used + |src|;
    }

    /** append_record, in the three stretches between which other threads may
        write: switch the bucket, place the record, flush when nearly full. */
    method AppendRecord(logs: Logs, b: nat, r: Rec)
      requires Valid() && b < |logs.logs| && curB < |logs.logs|
      requires r.gid < U32_LIMIT && |r.ids| < U16_LIMIT && AllU32(r.ids)
      modifies this, buf, logs
      ensures Valid() && (buf == old(buf) || fresh(buf))
      ensures |r.ids| == 0 ==> Abs() == old(Abs()) && logs.logs == old(logs.logs)
      ensures |r.ids| > 0 ==>
                var (logs1, st1) := SwitchTo(old(logs.logs), old(Abs()), b);
                (logs.logs, Abs()) == EndAppend(logs1, Placed(st1, r), RecordSize(|r.ids|))
    {
      if |r.ids| == 0 {
        return;
      }
      var sz := RecordSize(|r.ids|);
      ghost var logs0, st0 := logs.logs, Abs();
      if curB != b {
        if curB >= 0 {
          Flush(logs);
        }
        curB := b;
      }
      ghost var st1 := Abs();
      assert (logs.logs, st1) == SwitchTo(logs0, st0, b);
      Ensure(sz);
      PutBytes(Encode(r));
      assert Abs() == Placed(st1, r);
      if used + sz > cap {
        Flush(logs);
      }
    }
  }

  /** The first stretch of append_record. */
  function SwitchTo(logs: seq<seq<byte>>, st: Stage, b: nat): (seq<seq<byte>>, Stage)
    requires b < |logs| && st.bucket < |logs|
  {
    if st.bucket == b then (logs, st)
    else if st.bucket >= 0 then Flushed(logs, st.(bucket := b), st)
    else (logs, st.(bucket := b))
  }

  function Flushed(logs: seq<seq<byte>>, next: Stage, st: Stage): (seq<seq<byte>>, Stage)
    requires 0 <= st.bucket < |logs|
  {
    (if st.bytes == [] then logs else logs[st.bucket := FlushTo(logs[st.bucket], st)], next.(bytes := []))
  }

  /** The second: the record goes into the buffer, which grows as needed. */
  function Placed(st: Stage, r: Rec): Stage
    requires r.gid < U32_LIMIT && 0 < |r.ids| < U16_LIMIT && AllU32(r.ids)
  {
    Stage(st.bucket, st.bytes + Encode(r), Grown(st.cap, |st.bytes|, RecordSize(|r.ids|)))
  }

  /** The third. */
  function EndAppend(logs: seq<seq<byte>>, st: Stage, sz: nat): (seq<seq<byte>>, Stage)
    requires 0 <= st.bucket < |logs|
  {
    if |st.bytes| + sz > st.cap then Flushed(logs, st, st) else (logs, st)
  }
}
