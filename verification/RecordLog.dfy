// construction/our_construction.cpp: the framed records of a bucket log.

module RecordLog {
  import opened Bytes

  /** One candidate record: a node and some of its candidates. */
  datatype Rec = Rec(gid: nat, ids: seq<nat>)

  const HDR: nat := 12

  ghost predicate Writable(r: Rec) {
    r.gid < U32_LIMIT && 0 < |r.ids| < U16_LIMIT && AllU32(r.ids)
  }

  ghost predicate AllWritable(rs: seq<Rec>) {
    forall i :: 0 <= i < |rs| ==> Writable(rs[i])
  }

  /** round_up(sizeof(RecHdr) + 4 * len + 4, 16). */
  function RecordSize(len: nat): (sz: nat)
    ensures sz % 16 == 0 && 16 + 4 * len <= sz < 32 + 4 * len
  {
    (12 + 4 * len + 4 + 15) / 16 * 16
  }

  /** Header {gid, len, flags, size}, ids, the size again, zero padding. */
  function Encode(r: Rec): (b: seq<byte>)
    requires r.gid < U32_LIMIT && 0 < |r.ids| < U16_LIMIT && AllU32(r.ids)
    ensures |b| == RecordSize(|r.ids|)
  {
    var sz := RecordSize(|r.ids|);
    U32(r.gid) + U16(|r.ids|) + U16(0) + U32(sz) + Words(r.ids) + U32(sz) + Zeros(sz - 16 - 4 * |r.ids|)
  }

  function EncodeAll(rs: seq<Rec>): seq<byte>
    requires AllWritable(rs)
  {
    if rs == [] then [] else EncodeAll(rs[..|rs| - 1]) + Encode(rs[|rs| - 1])
  }

  lemma EncodeAllAppend(rs: seq<Rec>, r: Rec)
    requires AllWritable(rs) && Writable(r)
    ensures AllWritable(rs + [r]) && EncodeAll(rs + [r]) == EncodeAll(rs) + Encode(r)
  {
    assert (rs + [r])[..|rs|] == rs;
  }

  lemma {:induction false} EncodeAllConcat(a: seq<Rec>, b: seq<Rec>)
    requires AllWritable(a) && AllWritable(b)
    ensures AllWritable(a + b) && EncodeAll(a + b) == EncodeAll(a) + EncodeAll(b)
  {
    if b == [] {
      assert a + b == a;
    } else {
      var init, last := b[..|b| - 1], b[|b| - 1];
      EncodeAllConcat(a, init);
      Peel(a, b);
      EncodeAllAppend(a + init, last);
      EncodeAllAppend(init, last);
      Associate(EncodeAll(a), EncodeAll(init), Encode(last));
    }
  }

  lemma Peel(a: seq<Rec>, b: seq<Rec>)
    requires b != []
    ensures b == b[..|b| - 1] + [b[|b| - 1]] && a + b == (a + b[..|b| - 1]) + [b[|b| - 1]]
  {
  }

  /** Where record k starts in the log. */
  ghost function Start(rs: seq<Rec>, k: nat): nat
    requires AllWritable(rs) && k <= |rs|
  {
    |EncodeAll(rs[..k])|
  }

  /** The header fields as the scan reads them. */
  datatype Header = Header(gid: nat, len: nat, size: nat)

  function ReadHeader(blob: seq<byte>, at: nat): Header
    requires at + HDR <= |blob|
  {
    Header(FromU32(blob[at..at + 4]), FromU16(blob[at + 4..at + 6]), FromU32(blob[at + 8..at + 12]))
  }

  function ReadIds(blob: seq<byte>, at: nat, len: nat): seq<nat>
    requires at + HDR + 4 * len <= |blob|
  {
    FromWords(blob[at + HDR..], len)
  }

  lemma EncodeDecodes(r: Rec, rest: seq<byte>)
    requires Writable(r)
    ensures ReadHeader(Encode(r) + rest, 0) == Header(r.gid, |r.ids|, RecordSize(|r.ids|))
    ensures ReadIds(Encode(r) + rest, 0, |r.ids|) == r.ids
  {
    var sz := RecordSize(|r.ids|);
    var b := Encode(r) + rest;
    var head := U32(r.gid) + U16(|r.ids|) + U16(0) + U32(sz);
    var tail := U32(sz) + Zeros(sz - 16 - 4 * |r.ids|) + rest;
    assert b == head + (Words(r.ids) + tail);
    assert b[0..4] == head[0..4] == U32(r.gid);
    assert b[4..6] == head[4..6] == U16(|r.ids|);
    assert b[8..12] == head[8..12] == U32(sz);
    U32RoundTrip(r.gid);
    U16RoundTrip(|r.ids|);
    U32RoundTrip(sz);
    assert b[12..] == Words(r.ids) + tail;
    WordsRoundTrip(r.ids, tail);
  }

  /** A log holds whole records only, so the scan meets record after record and
      ends exactly at the end of the log. */
  lemma RecordAt(rs: seq<Rec>, k: nat)
    requires AllWritable(rs) && k < |rs|
    ensures var blob, at, r := EncodeAll(rs), Start(rs, k), rs[k];
            && Start(rs, k + 1) == at + RecordSize(|r.ids|) <= |blob|
            && ReadHeader(blob, at) == Header(r.gid, |r.ids|, RecordSize(|r.ids|))
            && ReadIds(blob, at, |r.ids|) == r.ids
  {
    var front, r := EncodeAll(rs[..k]), rs[k];
    SplitAt(rs, k);
    EncodeDecodes(r, EncodeAll(rs[k + 1..]));
    Shifted(front, Encode(r) + EncodeAll(rs[k + 1..]), |r.ids|);
  }

  lemma CutAt(rs: seq<Rec>, k: nat)
    requires k < |rs|
    ensures rs[..k + 1] == rs[..k] + [rs[k]] && rs == (rs[..k] + [rs[k]]) + rs[k + 1..]
  {
  }

  lemma SplitAt(rs: seq<Rec>, k: nat)
    requires AllWritable(rs) && k < |rs|
    ensures EncodeAll(rs) == EncodeAll(rs[..k]) + (Encode(rs[k]) + EncodeAll(rs[k + 1..]))
    ensures Start(rs, k + 1) == Start(rs, k) + RecordSize(|rs[k].ids|)
  {
    var front, r, rest := rs[..k], rs[k], rs[k + 1..];
    CutAt(rs, k);
    EncodeAllAppend(front, r);
    EncodeAllConcat(front + [r], rest);
    Associate(EncodeAll(front), Encode(r), EncodeAll(rest));
  }

  lemma Shifted(front: seq<byte>, b: seq<byte>, len: nat)
    requires HDR + 4 * len <= |b|
    ensures ReadHeader(front + b, |front|) == ReadHeader(b, 0)
    ensures ReadIds(front + b, |front|, len) == ReadIds(b, 0, len)
  {
    var f := |front|;
    var fb := front + b;
    assert fb[f..f + 4] == b[0..4] && fb[f + 4..f + 6] == b[4..6] && fb[f + 8..f + 12] == b[8..12];
    assert fb[f + HDR..] == b[0 + HDR..];
  }

  lemma LogEnd(rs: seq<Rec>)
    requires AllWritable(rs)
    ensures Start(rs, |rs|) == |EncodeAll(rs)| && Start(rs, 0) == 0
  {
    assert rs[..|rs|] == rs;
  }
}
