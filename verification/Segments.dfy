// The two-pass counting layout of construction/our_construction.cpp and
// construction/reverse_edge_logic.cpp: counts become prefix offsets, and one
// cursor per segment fills a flat buffer.

module Segments {

  function Sum(sizes: seq<nat>): nat {
    if sizes == [] then 0 else Sum(sizes[..|sizes| - 1]) + sizes[|sizes| - 1]
  }

  function Flatten(parts: seq<seq<nat>>): seq<nat> {
    if parts == [] then [] else Flatten(parts[..|parts| - 1]) + parts[|parts| - 1]
  }

  /** `base` holds the prefix sums of `sizes`. */
  ghost predicate IsPrefixSum(base: seq<nat>, sizes: seq<nat>) {
    |base| == |sizes| + 1 && base[0] == 0 && forall k :: 0 <= k < |sizes| ==> base[k + 1] == base[k] + sizes[k]
  }

  /** The offset loop. */
  method PrefixSums(sizes: seq<nat>) returns (base: seq<nat>)
    ensures IsPrefixSum(base, sizes) && base[|sizes|] == Sum(sizes)
  {
    base := [0];
    for i := 0 to |sizes|
      invariant |base| == i + 1 && base[0] == 0 && base[i] == Sum(sizes[..i])
      invariant forall k :: 0 <= k < i ==> base[k + 1] == base[k] + sizes[k]
    {
      assert sizes[..i + 1][..i] == sizes[..i];
      base := base + [base[i] + sizes[i]];
    }
    assert sizes[..|sizes|] == sizes;
  }

  lemma {:induction false} BaseMonotone(base: seq<nat>, sizes: seq<nat>, i: nat, j: nat)
    requires IsPrefixSum(base, sizes) && i <= j <= |sizes|
    ensures base[i] <= base[j]
    decreases j
  {
    if i < j {
      BaseMonotone(base, sizes, i, j - 1);
    }
  }

  /** Segment k of the buffer starts with parts[k], and its cursor is behind it. */
  ghost predicate Filled(data: seq<nat>, cursor: seq<nat>, base: seq<nat>, sizes: seq<nat>, parts: seq<seq<nat>>) {
    && |parts| == |sizes| <= |cursor| && IsPrefixSum(base, sizes) && base[|sizes|] == |data|
    && forall k :: 0 <= k < |parts| ==> HoldsPart(data, cursor, base, sizes, parts[k], k)
  }

  ghost predicate HoldsPart(data: seq<nat>, cursor: seq<nat>, base: seq<nat>, sizes: seq<nat>, part: seq<nat>, k: nat) {
    && k < |cursor| && k < |base| && k < |sizes|
    && cursor[k] == base[k] + |part| && |part| <= sizes[k] && base[k] + sizes[k] <= |data|
    && data[base[k]..base[k] + |part|] == part
  }

  ghost function Empties(n: nat): seq<seq<nat>> {
    seq(n, _ => [])
  }

  lemma NothingFilled(data: seq<nat>, cursor: seq<nat>, base: seq<nat>, sizes: seq<nat>)
    requires IsPrefixSum(base, sizes) && base[|sizes|] == |data| && |sizes| <= |cursor|
    requires forall k :: 0 <= k < |sizes| ==> cursor[k] == base[k]
    ensures Filled(data, cursor, base, sizes, Empties(|sizes|))
  {
    forall k | 0 <= k < |sizes| ensures base[k] + sizes[k] <= |data| {
      BaseMonotone(base, sizes, k + 1, |sizes|);
    }
  }

  /** memcpy to a cursor, and the cursor moved on. */
  method Append(data: array<nat>, cursor: array<nat>, k: nat, xs: seq<nat>,
                ghost base: seq<nat>, ghost sizes: seq<nat>, ghost parts: seq<seq<nat>>)
    requires data != cursor && Filled(data[..], cursor[..], base, sizes, parts)
    requires k < |parts| && |parts[k]| + |xs| <= sizes[k]
    modifies data, cursor
    ensures Filled(data[..], cursor[..], base, sizes, parts[k := parts[k] + xs])
  {
    ghost var d0, c0 := data[..], cursor[..];
    assert HoldsPart(d0, c0, base, sizes, parts[k], k);
    var at := cursor[k];
    forall i | 0 <= i < |xs| {
      data[at + i] := xs[i];
    }
    cursor[k] := at + |xs|;
    AppendFills(d0, c0, data[..], cursor[..], k, xs, base, sizes, parts);
  }

  lemma AppendFills(d0: seq<nat>, c0: seq<nat>, d: seq<nat>, c: seq<nat>, k: nat, xs: seq<nat>,
                    base: seq<nat>, sizes: seq<nat>, parts: seq<seq<nat>>)
    requires Filled(d0, c0, base, sizes, parts)
    requires k < |parts| && |parts[k]| + |xs| <= sizes[k]
    requires |d| == |d0| && c == c0[k := c0[k] + |xs|]
    requires forall i :: 0 <= i < |d| && !(c0[k] <= i < c0[k] + |xs|) ==> d[i] == d0[i]
    requires forall i :: 0 <= i < |xs| && c0[k] + i < |d| ==> d[c0[k] + i] == xs[i]
    ensures Filled(d, c, base, sizes, parts[k := parts[k] + xs])
  {
    var parts' := parts[k := parts[k] + xs];
    assert HoldsPart(d0, c0, base, sizes, parts[k], k);
    forall j | 0 <= j < |parts| ensures HoldsPart(d, c, base, sizes, parts'[j], j) {
      assert HoldsPart(d0, c0, base, sizes, parts[j], j);
      if j == k {
        AppendedPart(d0, d, base[k], parts[k], xs);
      } else {
        SegmentsApart(base, sizes, j, k);
        assert d[base[j]..base[j] + |parts[j]|] == d0[base[j]..base[j] + |parts[j]|];
      }
    }
  }

  lemma AppendedPart(d0: seq<nat>, d: seq<nat>, at: nat, part: seq<nat>, xs: seq<nat>)
    requires |d| == |d0| && at + |part| + |xs| <= |d| && d0[at..at + |part|] == part
    requires forall i :: 0 <= i < |d| && !(at + |part| <= i < at + |part| + |xs|) ==> d[i] == d0[i]
    requires forall i :: 0 <= i < |xs| ==> d[at + |part| + i] == xs[i]
    ensures d[at..at + |part + xs|] == part + xs
  {
    forall i | 0 <= i < |part + xs| ensures d[at + i] == (part + xs)[i] {
      if i < |part| {
        assert d0[at..at + |part|][i] == d0[at + i];
      } else {
        assert d[at + |part| + (i - |part|)] == xs[i - |part|];
      }
    }
  }

  lemma SegmentsApart(base: seq<nat>, sizes: seq<nat>, j: nat, k: nat)
    requires IsPrefixSum(base, sizes) && j < |sizes| && k < |sizes| && j != k
    ensures base[j] + sizes[j] <= base[k] || base[k] + sizes[k] <= base[j]
  {
    if j < k {
      BaseMonotone(base, sizes, j + 1, k);
    } else {
      BaseMonotone(base, sizes, k + 1, j);
    }
  }

  /** With every segment full the buffer is the concatenation of the parts. */
  lemma FullBuffer(data: seq<nat>, cursor: seq<nat>, base: seq<nat>, sizes: seq<nat>, parts: seq<seq<nat>>)
    requires Filled(data, cursor, base, sizes, parts)
    requires forall k :: 0 <= k < |parts| ==> |parts[k]| == sizes[k]
    ensures data == Flatten(parts)
    ensures forall k :: 0 <= k < |parts| ==> cursor[k] == base[k + 1]
  {
    FullPrefix(data, cursor, base, sizes, parts, |parts|);
    assert parts[..|parts|] == parts && data[..|data|] == data;
    forall k | 0 <= k < |parts| ensures cursor[k] == base[k + 1] {
      assert HoldsPart(data, cursor, base, sizes, parts[k], k);
    }
  }

  lemma {:induction false} FullPrefix(data: seq<nat>, cursor: seq<nat>, base: seq<nat>, sizes: seq<nat>,
                                      parts: seq<seq<nat>>, n: nat)
    requires Filled(data, cursor, base, sizes, parts) && n <= |parts|
    requires forall k :: 0 <= k < |parts| ==> |parts[k]| == sizes[k]
    ensures base[n] <= |data| && data[..base[n]] == Flatten(parts[..n])
  {
    BaseMonotone(base, sizes, n, |sizes|);
    if n > 0 {
      FullPrefix(data, cursor, base, sizes, parts, n - 1);
      assert HoldsPart(data, cursor, base, sizes, parts[n - 1], n - 1);
      assert parts[..n][..n - 1] == parts[..n - 1];
      assert data[..base[n]] == data[..base[n - 1]] + data[base[n - 1]..base[n]];
    }
  }

  lemma {:induction false} FlattenConcat(a: seq<seq<nat>>, b: seq<seq<nat>>)
    ensures Flatten(a + b) == Flatten(a) + Flatten(b)
  {
    if b == [] {
      assert a + b == a;
    } else {
      var init := b[..|b| - 1];
      FlattenConcat(a, init);
      assert (a + b)[..|a + b| - 1] == a + init;
    }
  }

  lemma {:induction false} FlattenSize(parts: seq<seq<nat>>, sizes: seq<nat>)
    requires |parts| == |sizes| && forall k :: 0 <= k < |parts| ==> |parts[k]| == sizes[k]
    ensures |Flatten(parts)| == Sum(sizes)
  {
    if parts != [] {
      FlattenSize(parts[..|parts| - 1], sizes[..|sizes| - 1]);
    }
  }

  /** Segment k read back from the concatenation. */
  lemma {:induction false} SegmentOf(parts: seq<seq<nat>>, base: seq<nat>, sizes: seq<nat>, k: nat)
    requires |parts| == |sizes| && (forall i :: 0 <= i < |parts| ==> |parts[i]| == sizes[i])
    requires IsPrefixSum(base, sizes) && k < |parts|
    ensures base[k + 1] <= |Flatten(parts)| && base[|parts|] == |Flatten(parts)|
    ensures Flatten(parts)[base[k]..base[k + 1]] == parts[k]
  {
    PrefixSize(parts, base, sizes, k);
    PrefixSize(parts, base, sizes, |parts|);
    assert parts[..|parts|] == parts;
    FlattenSplit(parts, k);
    Middle(Flatten(parts[..k]), parts[k], Flatten(parts[k + 1..]));
  }

  lemma FlattenSplit(parts: seq<seq<nat>>, k: nat)
    requires k < |parts|
    ensures Flatten(parts) == Flatten(parts[..k]) + parts[k] + Flatten(parts[k + 1..])
  {
    assert parts == parts[..k + 1] + parts[k + 1..] && parts[..k + 1][..k] == parts[..k];
    FlattenConcat(parts[..k + 1], parts[k + 1..]);
  }

  lemma Middle(a: seq<nat>, b: seq<nat>, c: seq<nat>)
    ensures (a + b + c)[|a|..|a| + |b|] == b
  {
  }

  lemma {:induction false} PrefixSize(parts: seq<seq<nat>>, base: seq<nat>, sizes: seq<nat>, k: nat)
    requires |parts| == |sizes| && (forall i :: 0 <= i < |parts| ==> |parts[i]| == sizes[i])
    requires IsPrefixSum(base, sizes) && k <= |parts|
    ensures |Flatten(parts[..k])| == base[k]
  {
    if k > 0 {
      PrefixSize(parts, base, sizes, k - 1);
      assert parts[..k][..k - 1] == parts[..k - 1];
    }
  }
}
