// A disk index seen as a graph, through the readers of
// search/ours_data_interfaces.cpp.

module DiskGraph {
  import opened Bytes
  import opened DiskLayout
  import opened Graphs

  /** The layout parameters every reader works from. */
  datatype Disk = Disk(file: seq<byte>, n: nat, b: nat, width: nat) {
    function Len(): nat { MaxNodeLen(b, width) }
  }

  /** The file stores `g`: each node can be read and decodes to its list. */
  ghost predicate Stores(disk: Disk, g: Graph) {
    && |g| == disk.n && disk.width < U32_LIMIT
    && forall id {:trigger StoresNode(disk, id, g[id])} :: 0 <= id < disk.n ==> StoresNode(disk, id, g[id])
  }

  ghost predicate StoresNode(disk: Disk, id: nat, nbrs: seq<nat>) {
    var len := disk.Len();
    && Request(id, len).offset + Request(id, len).len <= |disk.file|
    && PointerOffset(id, len) + len <= Request(id, len).len
    && DecodeNeighbors(ReadNode(disk.file, id, len)[PointerOffset(id, len)..PointerOffset(id, len) + len],
                       disk.b, disk.width) == nbrs
  }

  /** One node's list, read from its sectors through get_neighbors_ptr. */
  method Fetch(disk: Disk, id: nat, ghost g: Graph) returns (nbrs: seq<nat>)
    requires Stores(disk, g) && id < disk.n
    ensures nbrs == g[id] && |nbrs| <= disk.width
  {
    assert StoresNode(disk, id, g[id]);
    var len := disk.Len();
    var buf := ReadNode(disk.file, id, len);
    var at := PointerOffset(id, len);
    nbrs := ParseRecord(buf[at..at + len], disk.b, disk.width);
  }

  /** The writer's file stores the (clipped) input graph. */
  lemma LayoutStores(file: seq<byte>, nodes: seq<Node>, b: nat, width: nat)
    requires WellFormed(nodes, b) && width < U32_LIMIT
    requires |file| == (NumSectors(|nodes|, MaxNodeLen(b, width)) + 1) * SECTOR_LEN
    requires Placed(file, nodes, b, width, |nodes|)
    ensures Stores(Disk(file, |nodes|, b, width), seq(|nodes|, i requires 0 <= i < |nodes| => nodes[i].nbrs[..Clip(|nodes[i].nbrs|, width)]))
  {
    var g := seq(|nodes|, i requires 0 <= i < |nodes| => nodes[i].nbrs[..Clip(|nodes[i].nbrs|, width)]);
    var disk := Disk(file, |nodes|, b, width);
    forall id | 0 <= id < |nodes| ensures StoresNode(disk, id, g[id]) {
      RecordStored(disk, nodes[id], id);
    }
  }

  /** A record at its offset is what the readers find. */
  lemma RecordStored(disk: Disk, node: Node, id: nat)
    requires AllU32(node.nbrs) && |node.coords| == disk.b && disk.width < U32_LIMIT && id < disk.n
    requires |disk.file| == (NumSectors(disk.n, disk.Len()) + 1) * SECTOR_LEN
    requires HoldsAt(disk.file, NodeOffset(id, disk.Len()), Record(node, disk.width))
    ensures StoresNode(disk, id, node.nbrs[..Clip(|node.nbrs|, disk.width)])
  {
    RecordDecodes(node, disk.width);
    ReadsRecord(disk.file, disk.n, disk.Len(), id, Record(node, disk.width));
  }
}
