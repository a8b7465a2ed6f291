// search/ours_search.cpp, load_cache_list: fills the cache pool and one of the
// two lookup structures from the disk index.

module CacheLoad {
  import opened Arithmetic
  import opened CacheHash
  import opened DiskGraph
  import opened Graphs
  import opened Sorting

  datatype LookupMode = Auto | ForceOffset | ForceHash

  datatype LoadStatus = Loaded | PoolTooLarge | LookupFailed

  /** The pool entry [count, n1, n2, ...] at `offset`. */
  ghost predicate PoolHolds(pool: seq<nat>, offset: nat, nbrs: seq<nat>) {
    offset + 1 + |nbrs| <= |pool| && pool[offset] == |nbrs| && pool[offset + 1..offset + 1 + |nbrs|] == nbrs
  }

  ghost predicate TableHolds(table: map<nat, nat>, pool: seq<nat>, ids: set<nat>, g: Graph) {
    && table.Keys == ids
    && forall id :: id in ids ==> id < |g| && table[id] < CACHE_EMPTY && PoolHolds(pool, table[id], g[id])
  }

  lemma TableGrows(table: map<nat, nat>, pool: seq<nat>, ids: set<nat>, g: Graph, id: nat)
    requires TableHolds(table, pool, ids, g) && id < |g| && |pool| < CACHE_EMPTY
    ensures TableHolds(table[id := |pool|], pool + [|g[id]|] + g[id], ids + {id}, g)
  {
    var pool' := pool + [|g[id]|] + g[id];
    assert PoolHolds(pool', |pool|, g[id]);
    forall k | k in ids ensures PoolHolds(pool', table[k], g[k]) {
      assert pool' == pool + ([|g[id]|] + g[id]);
      PoolGrows(pool, [|g[id]|] + g[id], table[k], g[k]);
    }
  }

  class NodeCache {
    var pool: seq<nat>
    var dense: seq<nat>
    var useOffset: bool
    var hash: CompactHash

    ghost predicate Shape()
      reads this, hash, hash.keys, hash.offsets
    {
      hash.Valid()
    }

    /** The id-to-offset map the active lookup structure stands for. */
    ghost function Table(): map<nat, nat>
      reads this, hash
    {
      if useOffset then map id | 0 <= id < |dense| && dense[id] != CACHE_EMPTY :: dense[id] else hash.table
    }

    /** Exactly `ids` are cached, each with its list in `g`. */
    ghost predicate Caches(ids: set<nat>, g: Graph)
      reads this, hash, hash.keys, hash.offsets
    {
      Shape() && TableHolds(Table(), pool, ids, g)
    }

    constructor ()
      ensures Caches({}, []) && fresh(hash) && fresh(hash.keys) && fresh(hash.offsets)
    {
      pool, dense, useOffset := [], [], false;
      hash := new CompactHash(CompactCacheHash);
    }

    /** The lookup of the beam search, in either mode. */
    method Lookup(id: nat) returns (found: bool, offset: nat)
      requires Shape()
      ensures found <==> id in Table() && Table()[id] != CACHE_EMPTY
      ensures found ==> offset == Table()[id]
    {
      found, offset := false, 0;
      if useOffset {
        if id < |dense| {
          offset := dense[id];
          found := offset != CACHE_EMPTY;
        }
      } else {
        assert Table() == hash.table;
        found, offset := hash.Find(id);
      }
    }

    /** Points the active lookup structure at a pool offset. */
    method Index(id: nat, offset: nat, ghost ids: set<nat>) returns (ok: bool)
      requires Shape() && Table().Keys == ids && id < CACHE_EMPTY && offset < CACHE_EMPTY
      requires useOffset ==> id < |dense|
      requires !useOffset ==> hash.keys.Length > |ids|
      modifies this, hash, hash.keys, hash.offsets
      ensures ok && Shape() && Table() == old(Table())[id := offset]
      ensures pool == old(pool) && useOffset == old(useOffset) && |dense| == old(|dense|)
      ensures hash == old(hash) && hash.keys == old(hash.keys) && hash.offsets == old(hash.offsets)
    {
      ghost var before := Table();
      ok := true;
      if useOffset {
        dense := dense[id := offset];
      } else {
        assert before == hash.table && |hash.table| == |hash.table.Keys|;
        var r := hash.Insert(id, offset);
        ok := r.Stored?;
      }
      assert Table() == before[id := offset];
    }

    /** Appends one node's list to the pool and indexes it. */
    method StoreNode(id: nat, nbrs: seq<nat>, ghost ids: set<nat>, ghost g: Graph) returns (ok: bool)
      requires Caches(ids, g) && id < |g| <= CACHE_EMPTY && nbrs == g[id]
      requires |pool| < CACHE_EMPTY
      requires useOffset ==> id < |dense|
      requires !useOffset ==> hash.keys.Length > |ids|
      modifies this, hash, hash.keys, hash.offsets
      ensures ok && Caches(ids + {id}, g)
      ensures |pool| == old(|pool|) + 1 + |nbrs| && useOffset == old(useOffset) && |dense| == old(|dense|)
      ensures hash == old(hash) && hash.keys == old(hash.keys) && hash.offsets == old(hash.offsets)
    {
      TableGrows(Table(), pool, ids, g, id);
      var offset := |pool|;
      pool := pool + [|nbrs|];
      pool := pool + nbrs;
      ok := Index(id, offset, ids);
    }

    /** load_cache_list.  The only failure is the up-front size check; neither the
        later offset check nor the lookup insertion can fail. */
    method LoadCacheList(nodeList: seq<nat>, disk: Disk, mode: LookupMode, batchSize: nat, ghost g: Graph)
      returns (r: LoadStatus)
      requires Shape() && Stores(disk, g) && disk.n <= CACHE_EMPTY && 1 <= batchSize
      requires forall i :: 0 <= i < |nodeList| ==> nodeList[i] < disk.n
      modifies this
      ensures fresh(hash) && fresh(hash.keys) && fresh(hash.offsets)
      ensures r == if nodeList != [] && Mul(|nodeList|, PerNode(disk.width)) >= CACHE_EMPTY then PoolTooLarge else Loaded
      ensures r.Loaded? ==> Caches(ToSet(nodeList), g)
    {
      pool, dense, useOffset := [], [], false;
      hash := new CompactHash(CompactCacheHash);
      if nodeList == [] {
        return Loaded;
      }
      if Mul(|nodeList|, PerNode(disk.width)) >= CACHE_EMPTY {
        return PoolTooLarge;
      }
      Prepare(|nodeList|, disk.n, mode);
      var sorted := Sort(nodeList);
      SameElements(sorted, nodeList);
      r := LoadSorted(sorted, disk, batchSize, g);
    }

    /** Chooses and clears the lookup structure. */
    method Prepare(count: nat, n: nat, mode: LookupMode)
      requires Shape() && hash.keys.Length == 0 && count > 0 && pool == []
      modifies this, hash
      ensures Shape() && Table() == map[] && pool == [] && hash == old(hash)
      ensures hash.keys == old(hash.keys) || fresh(hash.keys)
      ensures hash.offsets == old(hash.offsets) || fresh(hash.offsets)
      ensures if useOffset then |dense| == n else hash.keys.Length == TableCapacity(count)
    {
      useOffset := match mode
        case ForceOffset => true
        case ForceHash => false
        case Auto => count == n || n * 4 <= TableCapacity(count) * 2 * 4;
      if useOffset {
        dense := seq(n, _ => CACHE_EMPTY);
      } else {
        hash.Init(count);
      }
      assert Table() == map[];
    }

    /** The batched read-and-store loop. */
    method LoadSorted(sorted: seq<nat>, disk: Disk, batchSize: nat, ghost g: Graph) returns (r: LoadStatus)
      requires Stores(disk, g) && disk.n <= CACHE_EMPTY && 1 <= batchSize
      requires forall i :: 0 <= i < |sorted| ==> sorted[i] < disk.n
      requires Mul(|sorted|, PerNode(disk.width)) < CACHE_EMPTY
      requires Loading(sorted, 0, disk, g)
      modifies this, hash, hash.keys, hash.offsets
      ensures hash == old(hash) && hash.keys == old(hash.keys) && hash.offsets == old(hash.offsets)
      ensures r.Loaded? && Caches(ToSet(sorted), g)
    {
      var i := 0;
      while i < |sorted|
        invariant 0 <= i <= |sorted| && Loading(sorted, i, disk, g)
        invariant hash == old(hash) && hash.keys == old(hash.keys) && hash.offsets == old(hash.offsets)
        decreases |sorted| - i
      {
        var count := if batchSize < |sorted| - i then batchSize else |sorted| - i;
        var ok := LoadBatch(sorted, i, count, disk, g);
        if !ok {
          return LookupFailed;
        }
        i := i + count;
      }
      assert sorted[..|sorted|] == sorted;
      return Loaded;
    }

    /** One batch of reads, stored in order. */
    method LoadBatch(sorted: seq<nat>, i: nat, count: nat, disk: Disk, ghost g: Graph) returns (ok: bool)
      requires Stores(disk, g) && disk.n <= CACHE_EMPTY && i + count <= |sorted|
      requires forall j :: 0 <= j < |sorted| ==> sorted[j] < disk.n
      requires Mul(|sorted|, PerNode(disk.width)) < CACHE_EMPTY
      requires Loading(sorted, i, disk, g)
      modifies this, hash, hash.keys, hash.offsets
      ensures hash == old(hash) && hash.keys == old(hash.keys) && hash.offsets == old(hash.offsets)
      ensures ok && Loading(sorted, i + count, disk, g)
    {
      ok := true;
      for m := i to i + count
        invariant ok && Loading(sorted, m, disk, g)
        invariant hash == old(hash) && hash.keys == old(hash.keys) && hash.offsets == old(hash.offsets)
      {
        ok := LoadOne(sorted, m, disk, g);
        if !ok {
          return false;
        }
      }
    }

    method LoadOne(sorted: seq<nat>, m: nat, disk: Disk, ghost g: Graph) returns (ok: bool)
      requires Stores(disk, g) && disk.n <= CACHE_EMPTY
      requires m < |sorted| && sorted[m] < disk.n
      requires Mul(|sorted|, PerNode(disk.width)) < CACHE_EMPTY
      requires Loading(sorted, m, disk, g)
      modifies this, hash, hash.keys, hash.offsets
      ensures hash == old(hash) && hash.keys == old(hash.keys) && hash.offsets == old(hash.offsets)
      ensures ok && Loading(sorted, m + 1, disk, g)
    {
      var nbrs := Fetch(disk, sorted[m], g);
      LoadStep(sorted, m, PerNode(disk.width));
      ok := StoreNode(sorted[m], nbrs, ToSet(sorted[..m]), g);
    }

    /** The first `m` nodes of the sorted list are cached. */
    ghost predicate Loading(sorted: seq<nat>, m: nat, disk: Disk, g: Graph)
      reads this, hash, hash.keys, hash.offsets
    {
      && m <= |sorted|
      && Caches(ToSet(sorted[..m]), g)
      && |pool| <= Mul(m, PerNode(disk.width))
      && (if useOffset then |dense| == disk.n else hash.keys.Length == TableCapacity(|sorted|))
    }
  }

  /** Pool entries reserved per node. */
  function PerNode(maxDegree: nat): (k: nat)
    ensures maxDegree + 1 <= k
  {
    if maxDegree > 0 then maxDegree + 1 else 32
  }

  lemma PoolGrows(pool: seq<nat>, more: seq<nat>, offset: nat, nbrs: seq<nat>)
    requires PoolHolds(pool, offset, nbrs)
    ensures PoolHolds(pool + more, offset, nbrs)
  {
    assert (pool + more)[offset + 1..offset + 1 + |nbrs|] == pool[offset + 1..offset + 1 + |nbrs|];
  }

  lemma LoadStep(sorted: seq<nat>, m: nat, perNode: nat)
    requires m < |sorted|
    ensures ToSet(sorted[..m + 1]) == ToSet(sorted[..m]) + {sorted[m]}
    ensures |ToSet(sorted[..m])| <= m
    ensures Mul(m, perNode) + perNode == Mul(m + 1, perNode) <= Mul(|sorted|, perNode)
  {
    MulFits(m, |sorted|, perNode);
    assert sorted[..m + 1] == sorted[..m] + [sorted[m]];
    ToSetAppend(sorted[..m], sorted[m]);
    ToSetSize(sorted[..m]);
  }

  lemma SameElements(a: seq<nat>, b: seq<nat>)
    requires multiset(a) == multiset(b)
    ensures ToSet(a) == ToSet(b)
    ensures forall i :: 0 <= i < |a| ==> a[i] in b
  {
    forall v ensures v in ToSet(a) <==> v in ToSet(b) {
      assert v in ToSet(a) <==> v in multiset(a);
      assert v in ToSet(b) <==> v in multiset(b);
    }
    forall i | 0 <= i < |a| ensures a[i] in b {
      assert a[i] in multiset(b);
    }
  }
}
