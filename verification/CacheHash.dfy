// search/ours_search.cpp: the compact open-addressing table that maps a cached
// node id to its offset in the cache pool.

module CacheHash {
  import opened Graphs

  const CACHE_EMPTY: nat := 0xFFFF_FFFF

  /** compact_cache_hash on uint64_t arithmetic. */
  function CompactCacheHash(id: nat): nat {
    var x := (id % 0x1_0000_0000) as bv64;
    var y := (x ^ (x >> 16)) * 0x9E3779B97F4A7C15;
    (y ^ (y >> 32)) as nat
  }

  /** Capacity for `n` entries: load factor at most 3/4, and never full. */
  function TableCapacity(n: nat): (cap: nat)
    ensures n < cap && 4 * n <= 3 * cap
  {
    (n * 4 + 2) / 3 + 1
  }

  // ---- probe sequences, with wrap-around ----

  function At(start: nat, j: nat, cap: nat): (p: nat)
    requires start < cap && j < cap
    ensures p < cap
  {
    if start + j < cap then start + j else start + j - cap
  }

  function Distance(start: nat, p: nat, cap: nat): (j: nat)
    requires start < cap && p < cap
    ensures j < cap && At(start, j, cap) == p
  {
    if p >= start then p - start else p + cap - start
  }

  function Home(h: nat -> nat, id: nat, cap: nat): (s: nat)
    requires cap > 0
    ensures s < cap
  {
    h(id) % cap
  }

  /** Probe step `j` for `id` sees neither a hole nor `id`. */
  ghost predicate Passes(keys: seq<nat>, h: nat -> nat, id: nat, j: nat)
    requires j < |keys|
  {
    var k := keys[At(Home(h, id, |keys|), j, |keys|)];
    k != CACHE_EMPTY && k != id
  }

  /** Every stored key is the first thing its own probe sequence stops at. */
  ghost predicate Chained(keys: seq<nat>, h: nat -> nat) {
    forall p, j :: 0 <= p < |keys| && keys[p] != CACHE_EMPTY
                   && 0 <= j < Distance(Home(h, keys[p], |keys|), p, |keys|)
                   ==> Passes(keys, h, keys[p], j)
  }

  /** The arrays hold exactly the map. */
  ghost predicate Holds(keys: seq<nat>, offsets: seq<nat>, table: map<nat, nat>) {
    && |keys| == |offsets|
    && (forall p :: 0 <= p < |keys| && keys[p] != CACHE_EMPTY ==> keys[p] in table && table[keys[p]] == offsets[p])
    && (forall id :: id in table ==> id != CACHE_EMPTY && id in keys)
  }

  /** A probe that stops at a hole, or after a full round, has shown absence. */
  lemma AbsentAfterProbe(keys: seq<nat>, h: nat -> nat, id: nat, steps: nat)
    requires Chained(keys, h) && 0 < |keys| && steps <= |keys| && id != CACHE_EMPTY
    requires forall j :: 0 <= j < steps ==> Passes(keys, h, id, j)
    requires steps < |keys| ==> keys[At(Home(h, id, |keys|), steps, |keys|)] == CACHE_EMPTY
    ensures id !in keys
  {
    forall p | 0 <= p < |keys| ensures keys[p] != id {
      var j := Distance(Home(h, id, |keys|), p, |keys|);
      if j < steps {
        assert Passes(keys, h, id, j);
      } else if steps < j {
        assert keys[p] == id ==> Passes(keys, h, keys[p], steps);
      }
    }
  }

  lemma KeysDistinct(keys: seq<nat>, h: nat -> nat, p: nat, q: nat)
    requires Chained(keys, h) && p < q < |keys| && keys[p] != CACHE_EMPTY
    ensures keys[p] != keys[q]
  {
    if keys[q] != CACHE_EMPTY {
      var home := Home(h, keys[q], |keys|);
      var jp, jq := Distance(home, p, |keys|), Distance(home, q, |keys|);
      if jp < jq {
        assert Passes(keys, h, keys[q], jp);
      } else {
        assert keys[p] == keys[q] ==> Passes(keys, h, keys[p], jq);
      }
    }
  }

  /** A table without holes holds as many ids as it has slots. */
  lemma FullTable(keys: seq<nat>, offsets: seq<nat>, h: nat -> nat, table: map<nat, nat>)
    requires Chained(keys, h) && Holds(keys, offsets, table)
    requires CACHE_EMPTY !in keys
    ensures |table| >= |keys|
  {
    forall i, j | 0 <= i < j < |keys| ensures keys[i] != keys[j] {
      KeysDistinct(keys, h, i, j);
    }
    SetOfDistinct(keys);
    assert ToSet(keys) <= table.Keys;
    assert table.Keys == ToSet(keys) + (table.Keys - ToSet(keys));
  }

  /** A table with a hole holds fewer ids than it has slots. */
  lemma TableWithHole(keys: seq<nat>, offsets: seq<nat>, table: map<nat, nat>)
    requires Holds(keys, offsets, table) && CACHE_EMPTY in keys
    ensures |table| < |keys|
  {
    assert table.Keys <= ToSet(keys) - {CACHE_EMPTY};
    ToSetSize(keys);
    var rest := ToSet(keys) - {CACHE_EMPTY} - table.Keys;
    assert ToSet(keys) == table.Keys + rest + {CACHE_EMPTY};
  }

  lemma {:induction false} ToSetSize(s: seq<nat>)
    ensures |ToSet(s)| <= |s|
  {
    if s != [] {
      var init := s[..|s| - 1];
      ToSetSize(init);
      assert s == init + [s[|s| - 1]];
      ToSetAppend(init, s[|s| - 1]);
    }
  }

  /** Storing `id` where its probe stopped keeps every other probe sequence. */
  lemma StoreKeepsChains(keys: seq<nat>, h: nat -> nat, id: nat, steps: nat)
    requires Chained(keys, h) && steps < |keys| && id != CACHE_EMPTY
    requires forall j :: 0 <= j < steps ==> Passes(keys, h, id, j)
    requires var k := keys[At(Home(h, id, |keys|), steps, |keys|)]; k == CACHE_EMPTY || k == id
    ensures Chained(keys[At(Home(h, id, |keys|), steps, |keys|) := id], h)
  {
    var cap := |keys|;
    var pos := At(Home(h, id, cap), steps, cap);
    var after := keys[pos := id];
    if keys[pos] == CACHE_EMPTY {
      AbsentAfterProbe(keys, h, id, steps);
    }
    forall p, j | 0 <= p < cap && after[p] != CACHE_EMPTY && 0 <= j < Distance(Home(h, after[p], cap), p, cap)
      ensures Passes(after, h, after[p], j)
    {
      var q := At(Home(h, after[p], cap), j, cap);
      if p == pos {
        assert Distance(Home(h, id, cap), pos, cap) == steps;
        assert Passes(keys, h, id, j);
      } else {
        assert Passes(keys, h, keys[p], j);
        if q == pos {
          assert keys[pos] == id;
        }
      }
    }
  }

  datatype InsertStatus = Stored | NotInitialized | SentinelId | TableFull

  class CompactHash {
    const h: nat -> nat
    var keys: array<nat>
    var offsets: array<nat>
    ghost var table: map<nat, nat>

    ghost predicate Valid()
      reads this, keys, offsets
    {
      && keys != offsets
      && Holds(keys[..], offsets[..], table)
      && Chained(keys[..], h)
    }

    /** The cleared table: nothing can be found before `Init`. */
    constructor (h: nat -> nat)
      ensures Valid() && table == map[] && this.h == h && keys.Length == 0 && fresh(keys) && fresh(offsets)
    {
      this.h := h;
      keys, offsets := new nat[0], new nat[0];
      table := map[];
    }

    /** init_compact_cache_hash: a cleared table, but for zero entries it returns
        before touching the old one. */
    method Init(n: nat)
      requires Valid()
      modifies this
      ensures Valid()
      ensures n > 0 ==> table == map[] && keys.Length == TableCapacity(n) && fresh(keys) && fresh(offsets)
      ensures n == 0 ==> unchanged(this)
    {
      if n == 0 {
        return;
      }
      table := map[];
      var capacity := TableCapacity(n);
      keys := new nat[capacity](_ => CACHE_EMPTY);
      offsets := new nat[capacity](_ => CACHE_EMPTY);
    }

    /** insert_cache_lookup.  The table is reported full exactly when a new id
        meets a table with as many ids as slots. */
    method Insert(id: nat, poolOffset: nat) returns (r: InsertStatus)
      requires Valid()
      modifies this, keys, offsets
      ensures Valid() && keys == old(keys) && offsets == old(offsets)
      ensures r.NotInitialized? <==> keys.Length == 0
      ensures r.SentinelId? <==> keys.Length > 0 && id == CACHE_EMPTY
      ensures r.TableFull? <==> keys.Length > 0 && id != CACHE_EMPTY && id !in old(table) && |old(table)| >= keys.Length
      ensures table == if r.Stored? then old(table)[id := poolOffset] else old(table)
    {
      if keys.Length == 0 {
        return NotInitialized;
      }
      if id == CACHE_EMPTY {
        return SentinelId;
      }
      var cap := keys.Length;
      var pos := Home(h, id, cap);
      ghost var ks, os := keys[..], offsets[..];
      var probes := 0;
      while probes < cap
        invariant 0 <= probes <= cap && pos == if probes < cap then At(Home(h, id, cap), probes, cap) else Home(h, id, cap)
        invariant forall j :: 0 <= j < probes ==> Passes(ks, h, id, j)
        invariant keys[..] == ks && offsets[..] == os && Valid() && table == old(table)
      {
        var key := keys[pos];
        assert ks[pos] == key;
        if key == CACHE_EMPTY || key == id {
          if key == CACHE_EMPTY {
            assert ks[pos] in ks;
            TableWithHole(ks, os, table);
          }
          StoreKeepsChains(ks, h, id, probes);
          StoreHolds(ks, os, h, table, id, poolOffset, probes);
          keys[pos] := id;
          offsets[pos] := poolOffset;
          table := table[id := poolOffset];
          assert keys[..] == ks[pos := id] && offsets[..] == os[pos := poolOffset];
          return Stored;
        }
        assert Passes(ks, h, id, probes);
        pos := pos + 1;
        if pos == cap {
          pos := 0;
        }
        probes := probes + 1;
      }
      AbsentAfterProbe(ks, h, id, cap);
      NoHoles(ks, h, id);
      FullTable(ks, os, h, table);
      return TableFull;
    }

    /** find_cache_lookup: the map, without ids stored at the sentinel offset. */
    method Find(id: nat) returns (found: bool, poolOffset: nat)
      requires Valid()
      ensures found <==> id in table && table[id] != CACHE_EMPTY
      ensures found ==> poolOffset == table[id]
    {
      poolOffset := 0;
      if keys.Length == 0 {
        return false, 0;
      }
      var cap := keys.Length;
      var pos := Home(h, id, cap);
      ghost var ks := keys[..];
      var probes := 0;
      while probes < cap
        invariant 0 <= probes <= cap && pos == if probes < cap then At(Home(h, id, cap), probes, cap) else Home(h, id, cap)
        invariant forall j :: 0 <= j < probes ==> Passes(ks, h, id, j)
      {
        var key := keys[pos];
        assert ks[pos] == key;
        if key == CACHE_EMPTY {
          if id != CACHE_EMPTY {
            AbsentAfterProbe(ks, h, id, probes);
          }
          return false, 0;
        }
        if key == id {
          poolOffset := offsets[pos];
          assert offsets[..][pos] == poolOffset;
          return poolOffset != CACHE_EMPTY, poolOffset;
        }
        assert Passes(ks, h, id, probes);
        pos := pos + 1;
        if pos == cap {
          pos := 0;
        }
        probes := probes + 1;
      }
      if id != CACHE_EMPTY {
        AbsentAfterProbe(ks, h, id, cap);
      }
      return false, 0;
    }
  }

  /** A probe sequence that passes a full round has passed every slot. */
  lemma NoHoles(keys: seq<nat>, h: nat -> nat, id: nat)
    requires 0 < |keys|
    requires forall j :: 0 <= j < |keys| ==> Passes(keys, h, id, j)
    ensures CACHE_EMPTY !in keys
  {
    forall p | 0 <= p < |keys| ensures keys[p] != CACHE_EMPTY {
      assert Passes(keys, h, id, Distance(Home(h, id, |keys|), p, |keys|));
    }
  }

  lemma StoreHolds(keys: seq<nat>, offsets: seq<nat>, h: nat -> nat, table: map<nat, nat>,
                   id: nat, offset: nat, steps: nat)
    requires Chained(keys, h) && Holds(keys, offsets, table) && steps < |keys| && id != CACHE_EMPTY
    requires forall j :: 0 <= j < steps ==> Passes(keys, h, id, j)
    requires var k := keys[At(Home(h, id, |keys|), steps, |keys|)]; k == CACHE_EMPTY || k == id
    ensures var pos := At(Home(h, id, |keys|), steps, |keys|);
            Holds(keys[pos := id], offsets[pos := offset], table[id := offset])
  {
    var pos := At(Home(h, id, |keys|), steps, |keys|);
    var after := keys[pos := id];
    forall p | 0 <= p < |keys| && p != pos && keys[p] != CACHE_EMPTY ensures keys[p] != id {
      if keys[pos] == CACHE_EMPTY {
        AbsentAfterProbe(keys, h, id, steps);
      } else if p < pos {
        KeysDistinct(keys, h, p, pos);
      } else {
        KeysDistinct(keys, h, pos, p);
      }
    }
    forall k | k in table[id := offset] ensures k in after {
      if k == id {
        assert after[pos] == k;
      } else {
        var p :| 0 <= p < |keys| && keys[p] == k;
        assert after[p] == k;
      }
    }
  }
}
