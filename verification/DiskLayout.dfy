// src/disk_utils.cpp, create_disk_layout, and its independently written readers
// in search/ours_data_interfaces.cpp and search/ours_search.cpp.

module DiskLayout {
  import opened Bytes
  import opened Arithmetic

  const SECTOR_LEN: nat := 4096

  datatype Node = Node(coords: seq<byte>, nbrs: seq<nat>)

  /** Every node has `b` coordinate bytes and 32-bit neighbours. */
  ghost predicate WellFormed(nodes: seq<Node>, b: nat) {
    forall i :: 0 <= i < |nodes| ==> |nodes[i].coords| == b && AllU32(nodes[i].nbrs)
  }

  function MaxNodeLen(b: nat, width: nat): nat {
    (width + 1) * 4 + b
  }

  function DivRoundUp(x: nat, y: nat): nat
    requires y > 0
  {
    x / y + (if x % y != 0 then 1 else 0)
  }

  function RoundUp(x: nat, y: nat): nat
    requires y > 0
  {
    Mul(DivRoundUp(x, y), y)
  }

  /** Sectors after the metadata sector. */
  function NumSectors(n: nat, len: nat): nat
    requires len > 0
  {
    var per := SECTOR_LEN / len;
    if per > 0 then Quot(RoundUp(n, per), per) else Mul(n, DivRoundUp(len, SECTOR_LEN))
  }

  /** Absolute offset of a node, as every reader computes it. */
  function NodeOffset(id: nat, len: nat): nat
    requires len > 0
  {
    var per := if len <= 4096 then 4096 / len else 0;
    if per > 0 then (id / per + 1) * 4096 + id % per * len
    else 4096 + id * ((len + 4095) / 4096 * 4096)
  }

  /** The on-disk record: coordinates, clipped degree, clipped list, zero padding. */
  function Record(node: Node, width: nat): (r: seq<byte>)
    requires AllU32(node.nbrs) && width < U32_LIMIT
    ensures |r| == MaxNodeLen(|node.coords|, width)
  {
    var k := Clip(|node.nbrs|, width);
    node.coords + U32(k) + Words(node.nbrs[..k]) + Zeros(4 * (width - k))
  }

  function Clip(nnbrs: nat, width: nat): (k: nat)
    ensures k <= nnbrs && k <= width
  {
    if nnbrs <= width then nnbrs else width
  }

  // ---- arithmetic of the two layouts ----

  /** Packed: a node lies inside one sector.  Large: it starts its own sectors. */
  lemma OffsetInSectors(id: nat, len: nat)
    requires len > 0
    ensures len <= 4096 ==> var s := id / (4096 / len);
              && 4096 / len > 0
              && (s + 1) * 4096 <= NodeOffset(id, len)
              && NodeOffset(id, len) + len <= (s + 2) * 4096
    ensures len > 4096 ==> NodeOffset(id, len) % 4096 == 0
    ensures len > 4096 ==> NodeOffset(id, len) == 4096 + id * RoundUp(len, SECTOR_LEN)
  {
    if len <= 4096 {
      var per := 4096 / len;
      MulFits(id % per, per, len);
      assert per * len <= 4096;
    } else {
      var sectors := (len + 4095) / 4096;
      assert sectors == DivRoundUp(len, SECTOR_LEN);
      assert id * (sectors * 4096) == id * sectors * 4096;
      assert (4096 + id * sectors * 4096) % 4096 == 0;
    }
  }

  /** Records never overlap. */
  lemma NodesDisjoint(a: nat, b: nat, len: nat)
    requires len > 0 && a < b
    ensures NodeOffset(a, len) + len <= NodeOffset(b, len)
  {
    OffsetInSectors(a, len);
    OffsetInSectors(b, len);
    if len <= 4096 {
      var per := 4096 / len;
      assert a / per <= b / per by { DivMonotone(a, b, per); }
      if a / per == b / per {
        assert a == a / per * per + a % per && b == b / per * per + b % per;
        MulFits(a % per, b % per, len);
      } else {
        assert (a / per + 2) * 4096 <= (b / per + 1) * 4096;
      }
    } else {
      MulFits(a, b, RoundUp(len, SECTOR_LEN));
    }
  }

  /** The last record ends inside the file. */
  lemma NodeInsideFile(id: nat, n: nat, len: nat)
    requires len > 0 && id < n
    ensures NodeOffset(id, len) + len <= (NumSectors(n, len) + 1) * SECTOR_LEN
  {
    OffsetInSectors(id, len);
    if len <= 4096 {
      var per := 4096 / len;
      SectorCount(n, per);
      SectorBefore(id, n, per);
    } else {
      MulFits(id, n, RoundUp(len, SECTOR_LEN));
      assert n * RoundUp(len, SECTOR_LEN) == n * DivRoundUp(len, SECTOR_LEN) * SECTOR_LEN;
    }
  }

  lemma SectorCount(n: nat, per: nat)
    requires per > 0
    ensures RoundUp(n, per) / per == DivRoundUp(n, per)
  {
    DivModUnique(RoundUp(n, per), DivRoundUp(n, per), 0, per);
  }

  lemma SectorBefore(id: nat, n: nat, per: nat)
    requires per > 0 && id < n
    ensures id / per < DivRoundUp(n, per)
  {
    DivMonotone(id, n, per);
    assert n == n / per * per + n % per && id >= id / per * per;
  }

  // ---- the writer ----

  ghost predicate HoldsAt(buf: seq<byte>, at: nat, rec: seq<byte>) {
    at + |rec| <= |buf| && buf[at..at + |rec|] == rec
  }

  /** Nodes 0..hi are at their offsets. */
  ghost predicate Placed(file: seq<byte>, nodes: seq<Node>, b: nat, width: nat, hi: nat)
    requires WellFormed(nodes, b) && hi <= |nodes| && width < U32_LIMIT
  {
    forall id :: 0 <= id < hi ==> HoldsAt(file, NodeOffset(id, MaxNodeLen(b, width)), Record(nodes[id], width))
  }

  lemma HoldsAtGrows(file: seq<byte>, more: seq<byte>, at: nat, rec: seq<byte>)
    requires HoldsAt(file, at, rec)
    ensures HoldsAt(file + more, at, rec)
  {
    assert (file + more)[at..at + |rec|] == file[at..at + |rec|];
  }

  lemma PlacedGrows(file: seq<byte>, more: seq<byte>, nodes: seq<Node>, b: nat, width: nat, hi: nat)
    requires WellFormed(nodes, b) && hi <= |nodes| && width < U32_LIMIT
    requires Placed(file, nodes, b, width, hi)
    ensures Placed(file + more, nodes, b, width, hi)
  {
    var len := MaxNodeLen(b, width);
    forall id | 0 <= id < hi ensures HoldsAt(file + more, NodeOffset(id, len), Record(nodes[id], width)) {
      HoldsAtGrows(file, more, NodeOffset(id, len), Record(nodes[id], width));
    }
  }

  /** create_disk_layout without reorder data; `meta` is the metadata sector. */
  method CreateDiskLayout(nodes: seq<Node>, b: nat, width: nat, meta: seq<byte>) returns (file: seq<byte>)
    requires WellFormed(nodes, b) && width < U32_LIMIT && |meta| == SECTOR_LEN
    ensures |file| == (NumSectors(|nodes|, MaxNodeLen(b, width)) + 1) * SECTOR_LEN
    ensures HoldsAt(file, 0, meta)
    ensures Placed(file, nodes, b, width, |nodes|)
  {
    var len := MaxNodeLen(b, width);
    var per := SECTOR_LEN / len;
    if per > 0 {
      file := WritePacked(nodes, b, width, meta);
    } else {
      file := WriteLarge(nodes, b, width, meta);
    }
  }

  /** Several nodes per sector, a running node id across sectors. */
  method WritePacked(nodes: seq<Node>, b: nat, width: nat, meta: seq<byte>) returns (file: seq<byte>)
    requires WellFormed(nodes, b) && width < U32_LIMIT && |meta| == SECTOR_LEN
    requires MaxNodeLen(b, width) <= SECTOR_LEN
    ensures |file| == (NumSectors(|nodes|, MaxNodeLen(b, width)) + 1) * SECTOR_LEN
    ensures HoldsAt(file, 0, meta)
    ensures Placed(file, nodes, b, width, |nodes|)
  {
    var len := MaxNodeLen(b, width);
    var per := SECTOR_LEN / len;
    var nSectors := RoundUp(|nodes|, per) / per;
    SectorCount(|nodes|, per);
    file := meta;
    var cur := 0;
    for sector := 0 to nSectors
      invariant |file| == (sector + 1) * SECTOR_LEN && HoldsAt(file, 0, meta)
      invariant cur == Clip(Mul(sector, per), |nodes|)
      invariant Placed(file, nodes, b, width, cur)
    {
      var buf, next := FillSector(nodes, b, width, sector, cur);
      HoldsAtGrows(file, buf, 0, meta);
      PlacedGrows(file, buf, nodes, b, width, cur);
      SectorPlaced(file, buf, nodes, b, width, sector, cur, next);
      file := file + buf;
      cur := next;
    }
    CoversAll(|nodes|, per);
  }

  lemma CoversAll(n: nat, per: nat)
    requires per > 0
    ensures DivRoundUp(n, per) * per >= n
  {
    assert n == n / per * per + n % per;
    if n % per != 0 {
      assert (n / per + 1) * per == n / per * per + per;
    }
  }

  /** One packed sector, filled in place from node `first` on. */
  method FillSector(nodes: seq<Node>, b: nat, width: nat, ghost sector: nat, first: nat)
    returns (out: seq<byte>, next: nat)
    requires WellFormed(nodes, b) && width < U32_LIMIT && MaxNodeLen(b, width) <= SECTOR_LEN
    requires first == Clip(Mul(sector, SECTOR_LEN / MaxNodeLen(b, width)), |nodes|)
    ensures |out| == SECTOR_LEN
    ensures next == Clip(Mul(sector + 1, SECTOR_LEN / MaxNodeLen(b, width)), |nodes|)
    ensures InSector(out, nodes, b, width, first, next - first)
  {
    var len := MaxNodeLen(b, width);
    var per := SECTOR_LEN / len;
    assert Mul(sector + 1, per) == Mul(sector, per) + per;
    var sectorBuf := new byte[SECTOR_LEN](_ => 0);
    next := first;
    var slot := 0;
    while slot < per && next < |nodes|
      invariant slot <= per && next == first + slot <= |nodes|
      invariant InSector(sectorBuf[..], nodes, b, width, first, slot)
    {
      SlotFits(slot, len);
      PutSlot(sectorBuf, nodes, b, width, first, slot);
      slot, next := slot + 1, next + 1;
    }
    out := sectorBuf[..];
  }

  lemma SlotFits(slot: nat, len: nat)
    requires len > 0 && slot < SECTOR_LEN / len
    ensures Mul(slot, len) + len <= SECTOR_LEN
  {
    DivBelow(SECTOR_LEN, len);
    MulFits(slot, SECTOR_LEN / len, len);
  }

  /** memcpy of one node record into its slot of the sector buffer. */
  method PutSlot(sectorBuf: array<byte>, nodes: seq<Node>, b: nat, width: nat, first: nat, slot: nat)
    requires WellFormed(nodes, b) && width < U32_LIMIT && MaxNodeLen(b, width) <= SECTOR_LEN
    requires sectorBuf.Length == SECTOR_LEN && first + slot < |nodes|
    requires Mul(slot, MaxNodeLen(b, width)) + MaxNodeLen(b, width) <= SECTOR_LEN
    requires InSector(sectorBuf[..], nodes, b, width, first, slot)
    modifies sectorBuf
    ensures InSector(sectorBuf[..], nodes, b, width, first, slot + 1)
  {
    var len := MaxNodeLen(b, width);
    ghost var before := sectorBuf[..];
    CopyInto(sectorBuf, Mul(slot, len), Record(nodes[first + slot], width));
    SlotAdded(before, sectorBuf[..], nodes, b, width, first, slot);
  }

  /** Slots 0..count of the sector hold nodes first..first + count. */
  ghost predicate InSector(buf: seq<byte>, nodes: seq<Node>, b: nat, width: nat, first: nat, count: int)
    requires WellFormed(nodes, b) && width < U32_LIMIT && first + count <= |nodes|
  {
    var len := MaxNodeLen(b, width);
    forall k :: 0 <= k < count ==> HoldsAt(buf, Mul(k, len), Record(nodes[first + k], width))
  }

  lemma SlotAdded(before: seq<byte>, after: seq<byte>, nodes: seq<Node>, b: nat, width: nat, first: nat, slot: nat)
    requires WellFormed(nodes, b) && width < U32_LIMIT && first + slot < |nodes|
    requires InSector(before, nodes, b, width, first, slot)
    requires var len, at := MaxNodeLen(b, width), Mul(slot, MaxNodeLen(b, width));
             && at + len <= |before|
             && after == before[..at] + Record(nodes[first + slot], width) + before[at + len..]
    ensures InSector(after, nodes, b, width, first, slot + 1)
  {
    var len := MaxNodeLen(b, width);
    forall k | 0 <= k < slot + 1
      ensures HoldsAt(after, Mul(k, len), Record(nodes[first + k], width))
    {
      if k < slot {
        MulFits(k, slot, len);
        KeptBelow(before, after, Mul(slot, len), Mul(k, len), Record(nodes[first + k], width));
      } else {
        assert HoldsAt(after, Mul(slot, len), Record(nodes[first + slot], width));
      }
    }
  }

  lemma KeptBelow(before: seq<byte>, after: seq<byte>, limit: nat, at: nat, rec: seq<byte>)
    requires limit <= |before| && before[..limit] <= after
    requires at + |rec| <= limit && HoldsAt(before, at, rec)
    ensures HoldsAt(after, at, rec)
  {
    assert after[..limit] == before[..limit];
    assert after[at..at + |rec|] == after[..limit][at..at + |rec|] == before[at..at + |rec|];
  }

  method CopyInto(buf: array<byte>, at: nat, src: seq<byte>)
    requires at + |src| <= buf.Length
    modifies buf
    ensures buf[..] == old(buf[..at]) + src + old(buf[at + |src|..])
  {
    for i := 0 to |src|
      invariant buf[..at] == old(buf[..at]) && buf[at + |src|..] == old(buf[at + |src|..])
      invariant buf[at..at + i] == src[..i]
    {
      buf[at + i] := src[i];
    }
    assert buf[..] == buf[..at] + buf[at..at + |src|] + buf[at + |src|..];
  }

  lemma SectorPlaced(file: seq<byte>, buf: seq<byte>, nodes: seq<Node>, b: nat, width: nat, sector: nat, cur: nat, next: nat)
    requires WellFormed(nodes, b) && width < U32_LIMIT && MaxNodeLen(b, width) <= SECTOR_LEN
    requires |file| == (sector + 1) * SECTOR_LEN && |buf| == SECTOR_LEN
    requires var per := SECTOR_LEN / MaxNodeLen(b, width);
             cur == Clip(Mul(sector, per), |nodes|) && next == Clip(Mul(sector + 1, per), |nodes|)
    requires cur <= next && InSector(buf, nodes, b, width, cur, next - cur)
    requires Placed(file + buf, nodes, b, width, cur)
    ensures Placed(file + buf, nodes, b, width, next)
  {
    var len := MaxNodeLen(b, width);
    var per := SECTOR_LEN / len;
    assert Mul(sector + 1, per) == Mul(sector, per) + per;
    forall id | cur <= id < next
      ensures HoldsAt(file + buf, NodeOffset(id, len), Record(nodes[id], width))
    {
      DivModUnique(id, sector, id - cur, per);
      ShiftedHolds(file, buf, Mul(id - cur, len), Record(nodes[id], width));
    }
  }

  lemma ShiftedHolds(file: seq<byte>, buf: seq<byte>, at: nat, rec: seq<byte>)
    requires HoldsAt(buf, at, rec)
    ensures HoldsAt(file + buf, |file| + at, rec)
  {
    assert (file + buf)[|file| + at..|file| + at + |rec|] == buf[at..at + |rec|];
  }

  /** Nodes longer than a sector, each in its own run of sectors. */
  method WriteLarge(nodes: seq<Node>, b: nat, width: nat, meta: seq<byte>) returns (file: seq<byte>)
    requires WellFormed(nodes, b) && width < U32_LIMIT && |meta| == SECTOR_LEN
    requires MaxNodeLen(b, width) > SECTOR_LEN
    ensures |file| == (NumSectors(|nodes|, MaxNodeLen(b, width)) + 1) * SECTOR_LEN
    ensures HoldsAt(file, 0, meta)
    ensures Placed(file, nodes, b, width, |nodes|)
  {
    var len := MaxNodeLen(b, width);
    var stride := RoundUp(len, SECTOR_LEN);
    file := meta;
    for i := 0 to |nodes|
      invariant |file| == SECTOR_LEN + Mul(i, stride) && HoldsAt(file, 0, meta)
      invariant Placed(file, nodes, b, width, i)
    {
      var buf := Record(nodes[i], width) + Zeros(stride - len);
      LargePlaced(file, buf, nodes, b, width, i);
      HoldsAtGrows(file, buf, 0, meta);
      assert Mul(i + 1, stride) == Mul(i, stride) + stride;
      file := file + buf;
    }
    LargeFileSize(|nodes|, len);
  }

  lemma LargeFileSize(n: nat, len: nat)
    requires len > SECTOR_LEN
    ensures SECTOR_LEN + Mul(n, RoundUp(len, SECTOR_LEN)) == (NumSectors(n, len) + 1) * SECTOR_LEN
  {
    var sectors := DivRoundUp(len, SECTOR_LEN);
    assert n * (sectors * SECTOR_LEN) == n * sectors * SECTOR_LEN;
  }

  lemma LargePlaced(file: seq<byte>, buf: seq<byte>, nodes: seq<Node>, b: nat, width: nat, i: nat)
    requires WellFormed(nodes, b) && width < U32_LIMIT && i < |nodes| && MaxNodeLen(b, width) > SECTOR_LEN
    requires |file| == SECTOR_LEN + Mul(i, RoundUp(MaxNodeLen(b, width), SECTOR_LEN))
    requires Placed(file, nodes, b, width, i) && Record(nodes[i], width) <= buf
    ensures Placed(file + buf, nodes, b, width, i + 1)
  {
    PlacedGrows(file, buf, nodes, b, width, i);
    OffsetInSectors(i, MaxNodeLen(b, width));
    ShiftedHolds(file, buf, 0, Record(nodes[i], width));
  }

  // ---- the readers ----

  /** An aligned read request. */
  datatype AlignedRead = AlignedRead(offset: nat, len: nat)

  /** prepare_node_read, prepare_batch_read and the inlined request of the beam
      search compute the same request. */
  function Request(id: nat, len: nat): AlignedRead
    requires len > 0
  {
    RequestAt(NodeOffset(id, len), len)
  }

  function RequestAt(at: nat, len: nat): AlignedRead {
    var start := at / SECTOR_LEN * SECTOR_LEN;
    var end := (at + len + SECTOR_LEN - 1) / SECTOR_LEN * SECTOR_LEN;
    AlignedRead(start, end - start)
  }

  function ReadBufferSize(len: nat): nat {
    RoundUp(len + SECTOR_LEN, SECTOR_LEN)
  }

  /** Offset of the node in its read buffer: parse_neighbors and get_vector_ptr. */
  function BufferOffset(id: nat, len: nat): nat
    requires len > 0
  {
    NodeOffset(id, len) - NodeOffset(id, len) / SECTOR_LEN * SECTOR_LEN
  }

  /** The same offset as get_neighbors_ptr computes it. */
  function PointerOffset(id: nat, len: nat): nat
    requires len > 0
  {
    var per := if len <= 4096 then 4096 / len else 0;
    if per > 0 then id % per * len else 0
  }

  /** max_degree as the search loader recovers it from the metadata. */
  function RecoveredDegree(len: nat, b: nat): nat
    requires len >= b + 4
  {
    (len - b - 4) / 4
  }

  lemma DegreeRecovered(b: nat, width: nat)
    ensures RecoveredDegree(MaxNodeLen(b, width), b) == width
  {
  }

  /** A request is sector-aligned, fits the per-node buffer, covers the record
      and stays inside the file. */
  lemma RequestCovers(id: nat, n: nat, len: nat)
    requires len > 0 && id < n
    ensures var r := Request(id, len);
            && r.offset % SECTOR_LEN == 0 && r.len % SECTOR_LEN == 0
            && r.len <= ReadBufferSize(len)
            && r.offset + r.len <= (NumSectors(n, len) + 1) * SECTOR_LEN
            && r.offset + BufferOffset(id, len) == NodeOffset(id, len)
            && BufferOffset(id, len) + len <= r.len
  {
    NodeInsideFile(id, n, len);
    var s := FirstSector(id, len);
    Aligned(NodeOffset(id, len), len, s, NumSectors(n, len) + 1);
  }

  /** The sector a record starts in. */
  lemma FirstSector(id: nat, len: nat) returns (s: nat)
    requires len > 0
    ensures var at := NodeOffset(id, len); s * 4096 <= at && (at + len <= (s + 1) * 4096 || at == s * 4096)
  {
    OffsetInSectors(id, len);
    s := if len <= 4096 then id / (4096 / len) + 1 else NodeOffset(id, len) / 4096;
  }

  /** get_neighbors_ptr and parse_neighbors look at the same byte. */
  lemma PointersAgree(id: nat, len: nat)
    requires len > 0
    ensures PointerOffset(id, len) == BufferOffset(id, len)
  {
    OffsetInSectors(id, len);
  }

  /** Rounding a byte range out to sectors. */
  lemma Aligned(at: nat, len: nat, s: nat, total: nat)
    requires len > 0 && at + len <= total * 4096
    requires s * 4096 <= at && (at + len <= (s + 1) * 4096 || at == s * 4096)
    ensures var r := RequestAt(at, len);
            && r.offset % SECTOR_LEN == 0 && r.len % SECTOR_LEN == 0
            && r.len <= ReadBufferSize(len)
            && r.offset + r.len <= total * SECTOR_LEN
            && r.offset == at / SECTOR_LEN * SECTOR_LEN
            && at + len <= r.offset + r.len
  {
    assert at / 4096 == s;
  }

  /** parse_neighbors: copies the clipped list out of a read buffer. */
  method ParseNeighbors(id: nat, buf: seq<byte>, len: nat, b: nat, maxDegree: nat) returns (nbrs: seq<nat>)
    requires len == MaxNodeLen(b, maxDegree) && BufferOffset(id, len) + len <= |buf|
    ensures nbrs == DecodeNeighbors(buf[BufferOffset(id, len)..BufferOffset(id, len) + len], b, maxDegree)
  {
    var at := BufferOffset(id, len);
    nbrs := ParseRecord(buf[at..at + len], b, maxDegree);
  }

  /** The push_back loop over the words behind the count. */
  method ParseRecord(rec: seq<byte>, b: nat, maxDegree: nat) returns (nbrs: seq<nat>)
    requires |rec| == MaxNodeLen(b, maxDegree)
    ensures nbrs == DecodeNeighbors(rec, b, maxDegree)
  {
    var k := FromU32(rec[b..b + 4]);
    var ptr := b + 4;
    if k > maxDegree {
      k := maxDegree;
    }
    nbrs := [];
    ghost var tail := rec[b + 4..];
    for i := 0 to k
      invariant nbrs == FromWords(tail, k)[..i]
    {
      FromWordsAt(tail, k, i);
      assert rec[ptr + 4 * i..ptr + 4 * i + 4] == tail[4 * i..4 * i + 4];
      nbrs := nbrs + [FromU32(rec[ptr + 4 * i..ptr + 4 * i + 4])];
    }
  }

  /** The list a record stores. */
  function DecodeNeighbors(rec: seq<byte>, b: nat, maxDegree: nat): seq<nat>
    requires |rec| == MaxNodeLen(b, maxDegree)
  {
    var k := FromU32(rec[b..b + 4]);
    FromWords(rec[b + 4..], if k > maxDegree then maxDegree else k)
  }

  lemma RecordDecodes(node: Node, width: nat)
    requires AllU32(node.nbrs) && width < U32_LIMIT
    ensures var rec, b := Record(node, width), |node.coords|;
            && rec[..b] == node.coords
            && DecodeNeighbors(rec, b, width) == node.nbrs[..Clip(|node.nbrs|, width)]
  {
    var rec, b, k := Record(node, width), |node.coords|, Clip(|node.nbrs|, width);
    assert rec[b..b + 4] == U32(k);
    U32RoundTrip(k);
    var head, tail := node.coords + U32(k), Words(node.nbrs[..k]) + Zeros(4 * (width - k));
    assert rec == head + tail && rec[b + 4..] == tail;
    WordsRoundTrip(node.nbrs[..k], Zeros(4 * (width - k)));
  }

  /** What a reader gets for a node: the requested bytes of the file. */
  function ReadNode(file: seq<byte>, id: nat, len: nat): seq<byte>
    requires len > 0 && Request(id, len).offset + Request(id, len).len <= |file|
  {
    var r := Request(id, len);
    file[r.offset..r.offset + r.len]
  }

  /** The bytes at the pointer offset of a node's read are its record. */
  lemma ReadsRecord(file: seq<byte>, n: nat, len: nat, id: nat, rec: seq<byte>)
    requires len > 0 && id < n && |rec| == len
    requires |file| == (NumSectors(n, len) + 1) * SECTOR_LEN
    requires HoldsAt(file, NodeOffset(id, len), rec)
    ensures Request(id, len).offset + Request(id, len).len <= |file|
    ensures Request(id, len).len <= ReadBufferSize(len)
    ensures HoldsAt(ReadNode(file, id, len), PointerOffset(id, len), rec)
    ensures PointerOffset(id, len) == BufferOffset(id, len)
  {
    RequestCovers(id, n, len);
    PointersAgree(id, len);
    SliceOfSlice(file, Request(id, len).offset, Request(id, len).len, PointerOffset(id, len), len);
  }

  /** Round trip: any node of any laid-out graph reads back its coordinates and
      its neighbour list, through either pointer computation. */
  lemma LayoutRoundTrip(file: seq<byte>, nodes: seq<Node>, b: nat, width: nat, id: nat)
    requires WellFormed(nodes, b) && width < U32_LIMIT && id < |nodes|
    requires |file| == (NumSectors(|nodes|, MaxNodeLen(b, width)) + 1) * SECTOR_LEN
    requires Placed(file, nodes, b, width, |nodes|)
    ensures var len := MaxNodeLen(b, width);
            && RecoveredDegree(len, b) == width
            && Request(id, len).offset + Request(id, len).len <= |file|
            && Request(id, len).len <= ReadBufferSize(len)
            && PointerOffset(id, len) == BufferOffset(id, len)
            && exists rec ::
                 && HoldsAt(ReadNode(file, id, len), PointerOffset(id, len), rec)
                 && |rec| == len && rec[..b] == nodes[id].coords
                 && DecodeNeighbors(rec, b, width) == nodes[id].nbrs[..Clip(|nodes[id].nbrs|, width)]
  {
    var len := MaxNodeLen(b, width);
    DegreeRecovered(b, width);
    RecordDecodes(nodes[id], width);
    ReadsRecord(file, |nodes|, len, id, Record(nodes[id], width));
  }
}
