// The disk index as one file: src/disk_utils.cpp, create_disk_layout with its
// metadata sector, and load_disk_index_metadata of search/ours_data_interfaces.cpp.

module DiskIndex {
  import opened Wrappers
  import opened Arithmetic
  import opened Bytes
  import opened DiskLayout
  import DiskGraph

  /** What create_disk_layout is told besides the nodes: coordinates per node, bytes
      per coordinate, degree bound, entry point and number of frozen points. */
  datatype Shape = Shape(dims: nat, bytes: nat, width: nat, medoid: nat, frozen: nat) {
    function B(): nat { Mul(dims, bytes) }
    function Len(): nat { MaxNodeLen(B(), width) }
  }

  function FileSize(n: nat, s: Shape): nat {
    Mul(NumSectors(n, s.Len()) + 1, SECTOR_LEN)
  }

  /** The fields of output_file_meta, in order. */
  function Fields(n: nat, s: Shape): seq<nat> {
    [n, s.dims, s.medoid, s.Len(), Quot(SECTOR_LEN, s.Len()), s.frozen, if s.frozen == 1 then s.medoid else 0, 0, FileSize(n, s)]
  }

  /** Sizes that fit the fields. */
  ghost predicate Fits(nodes: seq<Node>, s: Shape) {
    WellFormed(nodes, s.B()) && s.width < U32_LIMIT && AllU64(Fields(|nodes|, s))
  }

  /** save_bin: count, one column, the fields. */
  function MetaBytes(n: nat, s: Shape): (b: seq<byte>)
    requires AllU64(Fields(n, s))
    ensures |b| == 80
  {
    U32(9) + U32(1) + Longs(Fields(n, s))
  }

  /** The file: laid out behind a blank sector, whose front is then overwritten. */
  method WriteDiskIndex(nodes: seq<Node>, s: Shape) returns (file: seq<byte>)
    requires Fits(nodes, s)
    ensures IsIndex(file, nodes, s)
  {
    var blank := CreateDiskLayout(nodes, s.B(), s.width, Zeros(SECTOR_LEN));
    var meta := MetaBytes(|nodes|, s);
    assert |blank| >= SECTOR_LEN by { BehindMetadata(|nodes|, s); }
    file := meta + blank[80..];
    forall id | 0 <= id < |nodes| ensures HoldsAt(file, NodeOffset(id, s.Len()), Record(nodes[id], s.width)) {
      OffsetBehind(id, s.Len());
      KeptBehind(blank, file, NodeOffset(id, s.Len()), Record(nodes[id], s.width));
    }
  }

  ghost predicate IsIndex(file: seq<byte>, nodes: seq<Node>, s: Shape) {
    && Fits(nodes, s) && |file| == FileSize(|nodes|, s)
    && HoldsAt(file, 0, MetaBytes(|nodes|, s))
    && Placed(file, nodes, s.B(), s.width, |nodes|)
  }

  lemma BehindMetadata(n: nat, s: Shape)
    ensures FileSize(n, s) >= SECTOR_LEN
  {
    var sectors := NumSectors(n, s.Len());
    assert (sectors + 1) * SECTOR_LEN == sectors * SECTOR_LEN + SECTOR_LEN;
  }

  lemma OffsetBehind(id: nat, len: nat)
    requires len > 0
    ensures NodeOffset(id, len) >= SECTOR_LEN
  {
    OffsetInSectors(id, len);
  }

  lemma KeptBehind(blank: seq<byte>, file: seq<byte>, at: nat, rec: seq<byte>)
    requires HoldsAt(blank, at, rec) && at >= 80 && |file| == |blank| && file[80..] == blank[80..]
    ensures HoldsAt(file, at, rec)
  {
    TailSlice(file, 80, at, |rec|);
    TailSlice(blank, 80, at, |rec|);
  }

  lemma TailSlice(s: seq<byte>, k: nat, at: nat, n: nat)
    requires k <= at && at + n <= |s|
    ensures s[at..at + n] == s[k..][at - k..at - k + n]
  {
    var x, y := s[at..at + n], s[k..][at - k..at - k + n];
    forall i | 0 <= i < n ensures x[i] == y[i] {
      assert y[i] == s[k..][at - k + i];
    }
  }

  datatype Metadata = Metadata(numPoints: nat, dataDim: nat, medoid: nat, maxNodeLen: nat, perSector: nat,
                               frozenNum: nat, frozenLoc: nat, reorder: nat)

  /** Field i, or 0 when the file has fewer. */
  function Field(file: seq<byte>, count: nat, i: nat): nat
    requires 8 + 8 * count <= |file|
  {
    if i < count then FromU64(file[8..][8 * i..8 * i + 8]) else 0
  }

  /** load_disk_index_metadata; None is its failure. */
  function LoadMetadata(file: seq<byte>): Option<Metadata> {
    if |file| < 8 then None
    else
      var count, columns := FromU32(file[0..4]), FromU32(file[4..8]);
      if columns != 1 || count < 4 || 8 + 8 * count > |file| then None
      else
        var m := Metadata(Field(file, count, 0), Field(file, count, 1), Field(file, count, 2), Field(file, count, 3),
                          Field(file, count, 4), Field(file, count, 5), Field(file, count, 6), Field(file, count, 7));
        if m.numPoints == 0 || m.dataDim == 0 || m.maxNodeLen == 0 || m.medoid >= m.numPoints then None else Some(m)
  }

  /** What the search works from: everything but the coordinate type is in the file. */
  function Opened(file: seq<byte>, m: Metadata, bytes: nat): DiskGraph.Disk
    requires m.maxNodeLen >= Mul(m.dataDim, bytes) + 4
  {
    var b := Mul(m.dataDim, bytes);
    DiskGraph.Disk(file, m.numPoints, b, RecoveredDegree(m.maxNodeLen, b))
  }

  lemma FieldsRead(file: seq<byte>, n: nat, s: Shape, i: nat)
    requires AllU64(Fields(n, s)) && HoldsAt(file, 0, MetaBytes(n, s)) && i < 9
    ensures FromU32(file[0..4]) == 9 && FromU32(file[4..8]) == 1 && Field(file, 9, i) == Fields(n, s)[i]
  {
    var meta, rest := MetaBytes(n, s), file[80..];
    assert file == meta + rest;
    assert file[0..4] == U32(9) && file[4..8] == U32(1) && file[8..] == Longs(Fields(n, s)) + rest;
    LongAt(Fields(n, s), rest, i);
  }

  /** From the file alone: it opens exactly when there are nodes, coordinates and an
      entry point among the nodes, and then every field is what was written. */
  lemma MetadataRoundTrip(file: seq<byte>, nodes: seq<Node>, s: Shape)
    requires IsIndex(file, nodes, s)
    ensures LoadMetadata(file)
         == if nodes == [] || s.dims == 0 || s.medoid >= |nodes| then None
            else Some(Metadata(|nodes|, s.dims, s.medoid, s.Len(), Quot(SECTOR_LEN, s.Len()), s.frozen,
                               if s.frozen == 1 then s.medoid else 0, 0))
  {
    forall i | 0 <= i < 9 ensures Field(file, 9, i) == Fields(|nodes|, s)[i] {
      FieldsRead(file, |nodes|, s, i);
    }
    FieldsRead(file, |nodes|, s, 0);
  }

  /** Round trip from the file alone: what the search opens stores exactly the nodes'
      lists, clipped to the degree bound, beside their coordinates. */
  lemma IndexRoundTrip(file: seq<byte>, nodes: seq<Node>, s: Shape)
    requires IsIndex(file, nodes, s) && LoadMetadata(file).Some?
    ensures LoadMetadata(file).value.maxNodeLen >= Mul(LoadMetadata(file).value.dataDim, s.bytes) + 4
    ensures var disk := Opened(file, LoadMetadata(file).value, s.bytes);
            && disk == DiskGraph.Disk(file, |nodes|, s.B(), s.width)
            && DiskGraph.Stores(disk, seq(|nodes|, i requires 0 <= i < |nodes| => nodes[i].nbrs[..Clip(|nodes[i].nbrs|, s.width)]))
            && forall id :: 0 <= id < |nodes| ==> HoldsAt(file, NodeOffset(id, disk.Len()), nodes[id].coords)
  {
    MetadataRoundTrip(file, nodes, s);
    DegreeRecovered(s.B(), s.width);
    DiskGraph.LayoutStores(file, nodes, s.B(), s.width);
    forall id | 0 <= id < |nodes| ensures HoldsAt(file, NodeOffset(id, s.Len()), nodes[id].coords) {
      CoordsFirst(file, NodeOffset(id, s.Len()), nodes[id], s.width);
    }
  }

  lemma CoordsFirst(file: seq<byte>, at: nat, node: Node, width: nat)
    requires AllU32(node.nbrs) && width < U32_LIMIT && HoldsAt(file, at, Record(node, width))
    ensures HoldsAt(file, at, node.coords)
  {
    RecordDecodes(node, width);
    var rec, b := Record(node, width), |node.coords|;
    assert file[at..at + b] == file[at..at + |rec|][..b];
  }
}
