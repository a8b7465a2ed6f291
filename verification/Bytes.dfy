// Little-endian integers as the C++ code stores them with memcpy.

module Bytes {
  type byte = b: int | 0 <= b < 256

  const U16_LIMIT: int := 0x1_0000
  const U32_LIMIT: int := 0x1_0000_0000

  function U16(x: nat): (b: seq<byte>)
    requires x < U16_LIMIT
    ensures |b| == 2
  {
    [x % 256, x / 256]
  }

  function U32(x: nat): (b: seq<byte>)
    requires x < U32_LIMIT
    ensures |b| == 4
  {
    [x % 256, x / 256 % 256, x / 65536 % 256, x / 16777216]
  }

  function FromU16(b: seq<byte>): nat
    requires |b| == 2
  {
    (b[0] as int) + 256 * (b[1] as int)
  }

  function FromU32(b: seq<byte>): (x: nat)
    requires |b| == 4
    ensures x < U32_LIMIT
  {
    (b[0] as int) + 256 * (b[1] as int) + 65536 * (b[2] as int) + 16777216 * (b[3] as int)
  }

  const U64_LIMIT: int := 0x1_0000_0000_0000_0000

  function U64(x: nat): (b: seq<byte>)
    requires x < U64_LIMIT
    ensures |b| == 8
  {
    U32(x % U32_LIMIT) + U32(x / U32_LIMIT)
  }

  function FromU64(b: seq<byte>): nat
    requires |b| == 8
  {
    FromU32(b[..4]) + U32_LIMIT * FromU32(b[4..])
  }

  function Zeros(n: nat): (b: seq<byte>)
    ensures |b| == n
  {
    seq(n, _ => 0)
  }

  lemma U16RoundTrip(x: nat)
    requires x < U16_LIMIT
    ensures FromU16(U16(x)) == x
  {
  }

  lemma U32RoundTrip(x: nat)
    requires x < U32_LIMIT
    ensures FromU32(U32(x)) == x
  {
    assert x / 256 / 256 == x / 65536 && x / 65536 / 256 == x / 16777216;
  }

  lemma U64RoundTrip(x: nat)
    requires x < U64_LIMIT
    ensures FromU64(U64(x)) == x
  {
    U32RoundTrip(x % U32_LIMIT);
    U32RoundTrip(x / U32_LIMIT);
    assert U64(x)[..4] == U32(x % U32_LIMIT) && U64(x)[4..] == U32(x / U32_LIMIT);
  }

  ghost predicate AllU32(ids: seq<nat>) {
    forall i :: 0 <= i < |ids| ==> ids[i] < U32_LIMIT
  }

  /** An array of uint32_t. */
  function Words(ids: seq<nat>): (b: seq<byte>)
    requires AllU32(ids)
    ensures |b| == 4 * |ids|
  {
    if ids == [] then [] else U32(ids[0]) + Words(ids[1..])
  }

  /** `count` words read back from the front of `b`. */
  function FromWords(b: seq<byte>, count: nat): (ids: seq<nat>)
    requires 4 * count <= |b|
    ensures |ids| == count && AllU32(ids)
  {
    if count == 0 then [] else [FromU32(b[..4])] + FromWords(b[4..], count - 1)
  }

  lemma {:induction false} WordsRoundTrip(ids: seq<nat>, rest: seq<byte>)
    requires AllU32(ids)
    ensures FromWords(Words(ids) + rest, |ids|) == ids
  {
    if ids != [] {
      var b := Words(ids) + rest;
      assert b[..4] == U32(ids[0]);
      U32RoundTrip(ids[0]);
      assert b[4..] == Words(ids[1..]) + rest;
      WordsRoundTrip(ids[1..], rest);
    }
  }

  lemma {:induction false} FromWordsAt(b: seq<byte>, count: nat, i: nat)
    requires 4 * count <= |b| && i < count
    ensures FromWords(b, count)[i] == FromU32(b[4 * i..4 * i + 4])
  {
    if i > 0 {
      FromWordsAt(b[4..], count - 1, i - 1);
      assert b[4..][4 * (i - 1)..4 * (i - 1) + 4] == b[4 * i..4 * i + 4];
    }
  }

  ghost predicate AllU64(xs: seq<nat>) {
    forall i :: 0 <= i < |xs| ==> xs[i] < U64_LIMIT
  }

  /** An array of uint64_t. */
  function Longs(xs: seq<nat>): (b: seq<byte>)
    requires AllU64(xs)
    ensures |b| == 8 * |xs|
  {
    if xs == [] then [] else U64(xs[0]) + Longs(xs[1..])
  }

  lemma {:induction false} LongAt(xs: seq<nat>, rest: seq<byte>, i: nat)
    requires AllU64(xs) && i < |xs|
    ensures FromU64((Longs(xs) + rest)[8 * i..8 * i + 8]) == xs[i]
  {
    var b := Longs(xs) + rest;
    if i == 0 {
      assert b[0..8] == U64(xs[0]);
      U64RoundTrip(xs[0]);
    } else {
      var tail := Longs(xs[1..]) + rest;
      LongAt(xs[1..], rest, i - 1);
      Associate(U64(xs[0]), Longs(xs[1..]), rest);
      Behind(U64(xs[0]), tail, 8 * (i - 1), 8);
    }
  }

  lemma Behind(front: seq<byte>, tail: seq<byte>, at: nat, n: nat)
    requires at + n <= |tail|
    ensures (front + tail)[|front| + at..|front| + at + n] == tail[at..at + n]
  {
  }

  lemma SliceOfSlice<T>(s: seq<T>, from: nat, len: nat, at: nat, n: nat)
    requires from + len <= |s| && at + n <= len
    ensures s[from..from + len][at..at + n] == s[from + at..from + at + n]
  {
    var x, y := s[from..from + len][at..at + n], s[from + at..from + at + n];
    forall i | 0 <= i < n ensures x[i] == y[i] {
      assert x[i] == s[from..from + len][at + i];
    }
  }

  lemma Associate(x: seq<byte>, y: seq<byte>, z: seq<byte>)
    ensures (x + y) + z == x + (y + z)
  {
  }

  lemma {:induction false} WordsConcat(a: seq<nat>, c: seq<nat>)
    requires AllU32(a) && AllU32(c)
    ensures AllU32(a + c) && Words(a + c) == Words(a) + Words(c)
  {
    var ac := a + c;
    if a == [] {
      assert ac == c;
    } else {
      WordsConcat(a[1..], c);
      assert ac[0] == a[0] && ac[1..] == a[1..] + c;
      Associate(U32(a[0]), Words(a[1..]), Words(c));
    }
  }
}
