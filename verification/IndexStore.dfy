// src/index.cpp: compact_data, reposition_points, compact_frozen_point and
// reposition_frozen_point_to_end, with the vector moves of
// src/in_mem_data_store.cpp.

module IndexStore {
  import opened Graphs
  import opened SlotMachine
  import opened NaturalNumberSets
  import opened Reposition

  /** UINT32_MAX: the new location of a slot without a tag. */
  const GONE: nat := 0xFFFF_FFFF

  /** Number of tagged slots below `l`: the new location of slot `l`. */
  ghost function Rank(tags: map<nat, nat>, l: nat): (r: nat)
    ensures r <= l
  {
    if l == 0 then 0 else Rank(tags, l - 1) + (if l - 1 in tags then 1 else 0)
  }

  lemma {:induction false} RankMonotone(tags: map<nat, nat>, a: nat, b: nat)
    requires a < b && a in tags
    ensures Rank(tags, a) + 1 == Rank(tags, a + 1) <= Rank(tags, b)
    decreases b
  {
    if a + 1 < b {
      RankMonotone(tags, a, b - 1);
    }
  }

  lemma RankCount(tags: map<nat, nat>, max: nat)
    requires forall l :: l in tags ==> l < max
    ensures Rank(tags, max) == |tags|
  {
    RankIsSize(tags, max, tags.Keys);
    assert |tags| == |tags.Keys|;
  }

  lemma {:induction false} RankIsSize(tags: map<nat, nat>, l: nat, keys: set<nat>)
    requires forall k :: k in keys <==> k in tags && k < l
    ensures Rank(tags, l) == |keys|
  {
    if l == 0 {
      assert keys == {};
    } else {
      RankIsSize(tags, l - 1, keys - {l - 1});
    }
  }

  /** Where compact_data sends each location. */
  ghost function NewLocation(tags: map<nat, nat>, max: nat, l: nat): nat {
    if l >= max then l else if l in tags then Rank(tags, l) else GONE
  }

  /** The relocation is one to one on tagged and frozen locations, and covers
      exactly [0, |tags|) and the frozen range. */
  lemma RelocationInjective(tags: map<nat, nat>, max: nat, a: nat, b: nat)
    requires a < b && (forall l :: l in tags ==> l < max)
    requires (a in tags || a >= max) && (b in tags || b >= max)
    ensures NewLocation(tags, max, a) < NewLocation(tags, max, b)
    ensures a < max ==> NewLocation(tags, max, a) < |tags| <= max
  {
    RankCount(tags, max);
    if a < max {
      RankMonotone(tags, a, max);
      if b < max {
        RankMonotone(tags, a, b);
      }
    }
  }

  ghost predicate ListBelow(list: seq<nat>, n: nat) {
    forall i :: 0 <= i < |list| ==> list[i] < n
  }

  ghost predicate InRange(g: seq<seq<nat>>, n: nat) {
    forall u :: 0 <= u < |g| ==> ListBelow(g[u], n)
  }

  /** A list renamed; references to untagged slots are dropped. */
  ghost function Renamed(list: seq<nat>, to: seq<nat>): seq<nat>
    requires ListBelow(list, |to|)
  {
    if list == [] then []
    else
      var init, last := list[..|list| - 1], list[|list| - 1];
      assert ListBelow(init, |to|);
      if to[last] == GONE then Renamed(init, to) else Renamed(init, to) + [to[last]]
  }

  /** Without dangling references, renaming is entry by entry. */
  lemma {:induction false} RenamedEach(list: seq<nat>, to: seq<nat>)
    requires ListBelow(list, |to|) && forall i :: 0 <= i < |list| ==> to[list[i]] != GONE
    ensures |Renamed(list, to)| == |list|
    ensures forall i :: 0 <= i < |list| ==> Renamed(list, to)[i] == to[list[i]]
  {
    if list != [] {
      var init := list[..|list| - 1];
      RenamedEach(init, to);
      assert forall i :: 0 <= i < |init| ==> init[i] == list[i];
    }
  }

  ghost predicate NewLocations(to: seq<nat>, tags: map<nat, nat>, max: nat) {
    max <= |to| && forall l {:trigger NewLocation(tags, max, l)} :: 0 <= l < |to| ==> to[l] == NewLocation(tags, max, l)
  }

  /** Locations that survive: tagged or frozen. */
  ghost predicate Kept(tags: map<nat, nat>, max: nat, l: nat) {
    l in tags || l >= max
  }

  /** What the in-place loop needs to know of the relocation: it moves down, is
      strictly increasing and fixes the frozen points. */
  ghost predicate Relocation(to: seq<nat>, tags: map<nat, nat>, max: nat) {
    && |tags| <= max <= |to| <= GONE
    && (forall l :: 0 <= l < |to| ==> if l >= max then to[l] == l else if l in tags then to[l] <= l && to[l] < |tags| else to[l] == GONE)
    && (forall a, b :: 0 <= a < b < |to| && Kept(tags, max, a) && Kept(tags, max, b) ==> to[a] < to[b])
  }

  lemma NewLocationsRelocate(to: seq<nat>, tags: map<nat, nat>, max: nat)
    requires max <= |to| <= GONE && (forall l :: l in tags ==> l < max)
    requires NewLocations(to, tags, max)
    ensures Relocation(to, tags, max)
  {
    RankCount(tags, max);
    forall l | 0 <= l < |to|
      ensures if l >= max then to[l] == l else if l in tags then to[l] <= l && to[l] < |tags| else to[l] == GONE
    {
      assert to[l] == NewLocation(tags, max, l);
      if l in tags {
        RankMonotone(tags, l, max);
      }
    }
    forall a, b | 0 <= a < b < |to| && Kept(tags, max, a) && Kept(tags, max, b) ensures to[a] < to[b] {
      assert to[a] == NewLocation(tags, max, a) && to[b] == NewLocation(tags, max, b);
      RelocationInjective(tags, max, a, b);
    }
  }

  /** Locations below `upto` have been moved, the others are untouched. */
  ghost predicate MovedUpTo<T>(was: seq<T>, now: seq<T>, moved: seq<T>, to: seq<nat>, tags: map<nat, nat>, max: nat, upto: nat)
    requires |was| == |now| == |moved| == |to| && upto <= |to|
  {
    && (forall l :: 0 <= l < upto && Kept(tags, max, l) ==> to[l] < |now| && now[to[l]] == moved[l])
    && (forall l :: upto <= l < |to| ==> now[l] == was[l])
  }

  /** One step of the loop: slot `l` goes to its new place, and what was there
      (already moved away) is overwritten or swapped up. */
  lemma MoveStep<T>(was: seq<T>, now: seq<T>, moved: seq<T>, to: seq<nat>, tags: map<nat, nat>, max: nat, l: nat, now': seq<T>)
    requires Relocation(to, tags, max) && |was| == |now| == |moved| == |to| == |now'| && l < |to|
    requires MovedUpTo(was, now, moved, to, tags, max, l)
    requires Kept(tags, max, l) ==> to[l] < |to| && now'[to[l]] == moved[l]
    requires forall p :: 0 <= p < |to| && p != l && !(Kept(tags, max, l) && p == to[l]) ==> now'[p] == now[p]
    ensures MovedUpTo(was, now', moved, to, tags, max, l + 1)
  {
    forall k | 0 <= k < l + 1 && Kept(tags, max, k) ensures to[k] < |now'| && now'[to[k]] == moved[k] {
      if k < l {
        assert to[k] <= k < l;
      }
    }
  }

  ghost function Interval(lo: nat, hi: nat): seq<nat>
    requires lo <= hi
  {
    seq(hi - lo, i => lo + i)
  }

  /** No surviving list mentions a slot without a tag. */
  ghost predicate NoDanglingIn(g: seq<seq<nat>>, tags: map<nat, nat>, max: nat) {
    forall l :: 0 <= l < |g| && Kept(tags, max, l) ==> AllKept(g[l], tags, max)
  }

  ghost predicate AllKept(list: seq<nat>, tags: map<nat, nat>, max: nat) {
    forall i :: 0 <= i < |list| ==> Kept(tags, max, list[i])
  }

  lemma NoneGone(list: seq<nat>, tags: map<nat, nat>, max: nat, to: seq<nat>)
    requires Relocation(to, tags, max) && ListBelow(list, |to|) && AllKept(list, tags, max)
    ensures |Renamed(list, to)| == |list| && forall i :: 0 <= i < |list| ==> Renamed(list, to)[i] == to[list[i]]
  {
    forall i | 0 <= i < |list| ensures to[list[i]] != GONE {
      assert Kept(tags, max, list[i]);
    }
    RenamedEach(list, to);
  }

  /** The renamed list and the vector of `l` are at its new location. */
  ghost predicate MovedTo<V>(g0: seq<seq<nat>>, v0: seq<V>, g: seq<seq<nat>>, v: seq<V>, to: seq<nat>, l: nat)
    requires l < |to| == |g0| == |g| == |v0| == |v|
  {
    to[l] < |to| && ListBelow(g0[l], |to|) && g[to[l]] == Renamed(g0[l], to) && v[to[l]] == v0[l]
  }

  /** Every survivor's list and vector are at its new location. */
  ghost predicate Relocated<V>(g0: seq<seq<nat>>, v0: seq<V>, tags: map<nat, nat>, g: seq<seq<nat>>, v: seq<V>, to: seq<nat>, max: nat) {
    && |to| == |g0| == |g| == |v0| == |v|
    && InRange(g0, |to|)
    && forall l {:trigger MovedTo(g0, v0, g, v, to, l)} :: 0 <= l < |to| && Kept(tags, max, l) ==> MovedTo(g0, v0, g, v, to, l)
  }

  lemma ClearedRelocated<V>(g0: seq<seq<nat>>, v0: seq<V>, tags: map<nat, nat>, g: seq<seq<nat>>, v: seq<V>, to: seq<nat>,
                            max: nat, g': seq<seq<nat>>)
    requires Relocation(to, tags, max) && Relocated(g0, v0, tags, g, v, to, max) && InRange(g, |to|) && |g'| == |g|
    requires forall p :: |tags| <= p < max ==> g'[p] == []
    requires forall p :: 0 <= p < |g| && !(|tags| <= p < max) ==> g'[p] == g[p]
    ensures Relocated(g0, v0, tags, g', v, to, max) && InRange(g', |to|)
  {
    forall l | 0 <= l < |to| && Kept(tags, max, l) ensures MovedTo(g0, v0, g', v, to, l) {
      assert MovedTo(g0, v0, g, v, to, l);
    }
  }

  /** The compaction as a graph isomorphism: every surviving location l of the old
      store is found at to[l], with its renamed list, its vector and its tag; the
      tagged slots are now exactly [0, nd) and the rest of [0, max) is bare. */
  ghost predicate IsCompaction<V>(g0: seq<seq<nat>>, v0: seq<V>, tags0: map<nat, nat>, locs0: map<nat, nat>,
                                  g: seq<seq<nat>>, v: seq<V>, tags: map<nat, nat>, locs: map<nat, nat>,
                                  to: seq<nat>, max: nat, nd: nat)
  {
    && NewLocations(to, tags0, max)
    && Relocated(g0, v0, tags0, g, v, to, max)
    && (forall p :: nd <= p < max ==> g[p] == [])
    && tags.Keys == Below(nd) && locs.Keys == locs0.Keys
    && (forall t :: t in locs ==> locs0[t] < |to| && locs[t] == to[locs0[t]])
  }

  /** What a compaction means for the graph: on surviving locations it is one to
      one, keeps every edge with its position in the list, and adds none. */
  lemma CompactionIsIsomorphism<V>(g0: seq<seq<nat>>, v0: seq<V>, tags0: map<nat, nat>, locs0: map<nat, nat>,
                                   g: seq<seq<nat>>, v: seq<V>, tags: map<nat, nat>, locs: map<nat, nat>,
                                   to: seq<nat>, max: nat, nd: nat, a: nat, b: nat)
    requires IsCompaction(g0, v0, tags0, locs0, g, v, tags, locs, to, max, nd) && NoDanglingIn(g0, tags0, max)
    requires |to| <= GONE && (forall l :: l in tags0 ==> l < max)
    requires a < |to| && b < |to| && Kept(tags0, max, a) && Kept(tags0, max, b)
    ensures to[a] < |to| && to[b] < |to| && (a != b ==> to[a] != to[b])
    ensures v[to[a]] == v0[a]
    ensures |g[to[a]]| == |g0[a]|
    ensures forall i :: 0 <= i < |g0[a]| ==> (g[to[a]][i] == to[b] <==> g0[a][i] == b)
  {
    NewLocationsRelocate(to, tags0, max);
    assert MovedTo(g0, v0, g, v, to, a) && MovedTo(g0, v0, g, v, to, b);
    NoneGone(g0[a], tags0, max, to);
    forall i | 0 <= i < |g0[a]| ensures g[to[a]][i] == to[b] <==> g0[a][i] == b {
      assert Kept(tags0, max, g0[a][i]) && g[to[a]][i] == to[g0[a][i]];
    }
  }

  /** Every location of [0, nd) is where some tagged slot went. */
  lemma CompactionCovers(tags0: map<nat, nat>, locs0: map<nat, nat>, tags: map<nat, nat>, locs: map<nat, nat>,
                         to: seq<nat>, nd: nat, p: nat) returns (l: nat)
    requires Inverse(tags0, locs0) && Inverse(tags, locs) && tags.Keys == Below(nd) && locs.Keys == locs0.Keys
    requires forall t :: t in locs ==> locs0[t] < |to| && locs[t] == to[locs0[t]]
    requires p < nd
    ensures l in tags0 && l < |to| && to[l] == p
  {
    var t := tags[p];
    l := locs0[t];
  }

  /** A location outside [nd, max) holds the renamed list of the survivor that
      went there. */
  lemma CompactedEntry<V>(g0: seq<seq<nat>>, v0: seq<V>, tags0: map<nat, nat>, locs0: map<nat, nat>,
                          g: seq<seq<nat>>, v: seq<V>, tags: map<nat, nat>, locs: map<nat, nat>,
                          to: seq<nat>, max: nat, nd: nat, p: nat) returns (l: nat)
    requires IsCompaction(g0, v0, tags0, locs0, g, v, tags, locs, to, max, nd)
    requires Inverse(tags0, locs0) && Inverse(tags, locs)
    requires |to| <= GONE && (forall l :: l in tags0 ==> l < max) && |tags0| == nd && p < |g| && !(nd <= p < max)
    ensures l < |to| == |g0| && Kept(tags0, max, l) && to[l] == p
    ensures ListBelow(g0[l], |to|) && g[p] == Renamed(g0[l], to)
  {
    l := p;
    NewLocationsRelocate(to, tags0, max);
    if p < nd {
      l := CompactionCovers(tags0, locs0, tags, locs, to, nd, p);
    }
    assert Kept(tags0, max, l) && MovedTo(g0, v0, g, v, to, l);
  }

  ghost predicate PackedList(list: seq<nat>, nd: nat, max: nat) {
    forall i :: 0 <= i < |list| ==> list[i] < nd || list[i] >= max
  }

  /** After a compaction every list refers to [0, nd) and the frozen points only. */
  lemma CompactionPacks<V>(g0: seq<seq<nat>>, v0: seq<V>, tags0: map<nat, nat>, locs0: map<nat, nat>,
                           g: seq<seq<nat>>, v: seq<V>, tags: map<nat, nat>, locs: map<nat, nat>,
                           to: seq<nat>, max: nat, nd: nat, p: nat)
    requires IsCompaction(g0, v0, tags0, locs0, g, v, tags, locs, to, max, nd)
    requires Inverse(tags0, locs0) && Inverse(tags, locs)
    requires |to| <= GONE && (forall l :: l in tags0 ==> l < max) && |tags0| == nd && p < |g|
    ensures PackedList(g[p], nd, max) && ListBelow(g[p], |g|)
  {
    if nd <= p < max {
      assert g[p] == [];
    } else {
      NewLocationsRelocate(to, tags0, max);
      var l := CompactedEntry(g0, v0, tags0, locs0, g, v, tags, locs, to, max, nd, p);
      RenamedPacks(g0[l], tags0, max, to);
    }
  }

  lemma {:induction false} RenamedPacks(list: seq<nat>, tags: map<nat, nat>, max: nat, to: seq<nat>)
    requires Relocation(to, tags, max) && ListBelow(list, |to|)
    ensures PackedList(Renamed(list, to), |tags|, max) && ListBelow(Renamed(list, to), |to|)
  {
    if list != [] {
      RenamedPacks(list[..|list| - 1], tags, max, to);
    }
  }

  lemma TagCount(tags: map<nat, nat>, n: nat)
    requires tags.Keys == Below(n)
    ensures |tags| == n && forall l :: l in tags ==> l < n
  {
    assert |tags| == |tags.Keys|;
  }

  /** Both tag maps along the relocation. */
  method RebuildTags(tags: map<nat, nat>, locs: map<nat, nat>, to: seq<nat>, max: nat)
    returns (tags': map<nat, nat>, locs': map<nat, nat>)
    requires Inverse(tags, locs) && NewLocations(to, tags, max) && forall l :: l in tags ==> l < max
    ensures Inverse(tags', locs') && locs'.Keys == locs.Keys && tags'.Keys == Below(|tags|)
    ensures forall t :: t in locs' ==> locs[t] < |to| && locs'[t] == to[locs[t]]
  {
    tags', locs' := map[], map[];
    ghost var n := 0;
    for l := 0 to max
      invariant n == Rank(tags, l)
      invariant Retagged(tags, locs, to, l, n, tags', locs')
    {
      assert to[l] == NewLocation(tags, max, l);
      tags', locs' := RetagOne(tags, locs, to, l, n, tags', locs');
      n := if l in tags then n + 1 else n;
    }
    RetagDone(tags, locs, to, max, n, tags', locs');
  }

  lemma RetagDone(tags: map<nat, nat>, locs: map<nat, nat>, to: seq<nat>, max: nat, n: nat, tags': map<nat, nat>, locs': map<nat, nat>)
    requires Inverse(tags, locs) && (forall l :: l in tags ==> l < max)
    requires Retagged(tags, locs, to, max, n, tags', locs') && n == Rank(tags, max)
    ensures Inverse(tags', locs') && locs'.Keys == locs.Keys && tags'.Keys == Below(|tags|)
    ensures forall t :: t in locs' ==> locs[t] < |to| && locs'[t] == to[locs[t]]
  {
    RankCount(tags, max);
    assert locs'.Keys == locs.Keys;
  }

  method RetagOne(tags: map<nat, nat>, locs: map<nat, nat>, to: seq<nat>, l: nat, ghost n: nat, tags': map<nat, nat>, locs': map<nat, nat>)
    returns (tags2: map<nat, nat>, locs2: map<nat, nat>)
    requires Inverse(tags, locs) && Retagged(tags, locs, to, l, n, tags', locs')
    requires l in tags ==> l < |to| && to[l] == n
    ensures Retagged(tags, locs, to, l + 1, if l in tags then n + 1 else n, tags2, locs2)
  {
    tags2, locs2 := tags', locs';
    if l in tags {
      RetagStep(tags, locs, to, l, n, tags', locs');
      locs2 := locs2[tags[l] := to[l]];
      tags2 := tags2[to[l] := tags[l]];
    } else {
      RetagSkip(tags, locs, to, l, n, tags', locs');
    }
  }

  /** The maps hold what was tagged below `l`. */
  ghost predicate Retagged(tags: map<nat, nat>, locs: map<nat, nat>, to: seq<nat>, l: nat, n: nat,
                           tags': map<nat, nat>, locs': map<nat, nat>)
  {
    && Inverse(tags', locs')
    && (forall t :: t in locs' <==> t in locs && locs[t] < l)
    && (forall t :: t in locs' ==> locs[t] < |to| && locs'[t] == to[locs[t]])
    && tags'.Keys == Below(n)
  }

  lemma RetagStep(tags: map<nat, nat>, locs: map<nat, nat>, to: seq<nat>, l: nat, n: nat, tags': map<nat, nat>, locs': map<nat, nat>)
    requires Inverse(tags, locs) && Retagged(tags, locs, to, l, n, tags', locs')
    requires l in tags && l < |to| && to[l] == n
    ensures Retagged(tags, locs, to, l + 1, n + 1, tags'[to[l] := tags[l]], locs'[tags[l] := to[l]])
  {
    var t := tags[l];
    assert t !in locs';
    InverseAdd(tags', locs', n, t);
    RetagLocs(tags, locs, to, l, locs');
    NextKey(tags', n, t);
  }

  lemma NextKey(tags: map<nat, nat>, n: nat, t: nat)
    requires tags.Keys == Below(n)
    ensures tags[n := t].Keys == Below(n + 1)
  {
  }

  lemma RetagLocs(tags: map<nat, nat>, locs: map<nat, nat>, to: seq<nat>, l: nat, locs': map<nat, nat>)
    requires Inverse(tags, locs) && l in tags && l < |to|
    requires forall t :: t in locs' <==> t in locs && locs[t] < l
    requires forall t :: t in locs' ==> locs[t] < |to| && locs'[t] == to[locs[t]]
    ensures var locs2 := locs'[tags[l] := to[l]];
            && (forall t :: t in locs2 <==> t in locs && locs[t] < l + 1)
            && (forall t :: t in locs2 ==> locs[t] < |to| && locs2[t] == to[locs[t]])
  {
    assert forall u :: u in locs && locs[u] == l ==> u == tags[l];
  }

  lemma RetagSkip(tags: map<nat, nat>, locs: map<nat, nat>, to: seq<nat>, l: nat, n: nat, tags': map<nat, nat>, locs': map<nat, nat>)
    requires Inverse(tags, locs) && Retagged(tags, locs, to, l, n, tags', locs') && l !in tags
    ensures Retagged(tags, locs, to, l + 1, n, tags', locs')
  {
  }

  ghost predicate TagsValid(tags: map<nat, nat>, locs: map<nat, nat>, max: nat) {
    Inverse(tags, locs) && forall l :: l in tags ==> l < max
  }

  datatype CompactStatus = Compacted | NothingToDo | DeletesPending | StartDeleted

  class Store<V(0)> {
    const max: nat
    const frozen: nat
    const graph: array<seq<nat>>
    const vectors: array<V>
    const emptySlots: NaturalNumberSet
    const zero: V
    var nd: nat
    var start: nat
    var locToTag: map<nat, nat>
    var tagToLoc: map<nat, nat>
    var deleteSet: set<nat>
    var compacted: bool

    /** Shapes, tag maps and counts agree; `start` is the first frozen point. */
    ghost predicate Valid()
      reads this, graph
    {
      && graph.Length == vectors.Length == max + frozen <= GONE && graph as object != vectors
      && InRange(graph[..], max + frozen)
      && TagsValid(locToTag, tagToLoc, max)
      && |locToTag| + |deleteSet| == nd <= max
    }

    constructor (max: nat, frozen: nat, zero: V)
      requires max + frozen <= GONE
      ensures Valid() && nd == 0 && compacted && start == max && this.max == max && this.frozen == frozen
      ensures fresh(graph) && fresh(vectors) && fresh(emptySlots)
    {
      this.max, this.frozen, this.zero := max, frozen, zero;
      graph := new seq<nat>[max + frozen](_ => []);
      vectors := new V[max + frozen](_ => zero);
      emptySlots := new NaturalNumberSet();
      nd, start, compacted := 0, max, true;
      locToTag, tagToLoc, deleteSet := map[], map[], {};
    }

    /** The first loop of compact_data. */
    method AssignLocations() returns (to: seq<nat>)
      requires Valid()
      ensures |to| == max + frozen && NewLocations(to, locToTag, max)
    {
      to := [];
      var counter := 0;
      for l := 0 to max
        invariant |to| == l && counter == Rank(locToTag, l)
        invariant forall k :: 0 <= k < l ==> to[k] == NewLocation(locToTag, max, k)
      {
        if l in locToTag {
          to := to + [counter];
          counter := counter + 1;
        } else {
          to := to + [GONE];
        }
      }
      for l := max to max + frozen
        invariant |to| == l
        invariant forall k :: 0 <= k < l ==> to[k] == NewLocation(locToTag, max, k)
      {
        to := to + [l];
      }
    }

    /** The body of the relocation loop for one location. */
    method MoveOne(l: nat, to: seq<nat>) returns (dangling: nat)
      requires graph.Length == vectors.Length == |to| && graph as object != vectors && l < |to| && Relocation(to, locToTag, max)
      requires ListBelow(graph[l], |to|)
      modifies graph, vectors
      ensures Kept(locToTag, max, l) ==> graph[to[l]] == Renamed(old(graph[l]), to) && vectors[to[l]] == old(vectors[l])
      ensures forall p :: 0 <= p < |to| && p != l && !(Kept(locToTag, max, l) && p == to[l])
                ==> graph[p] == old(graph[p]) && vectors[p] == old(vectors[p])
      ensures Kept(locToTag, max, l) ==> dangling + |Renamed(old(graph[l]), to)| == |old(graph[l])|
      ensures old(InRange(graph[..], |to|)) ==> InRange(graph[..], |to|)
    {
      dangling := 0;
      if to[l] < max || l >= max {
        var list;
        list, dangling := Rename(graph[l], to);
        graph[l] := list;
        if to[l] != l {
          graph[to[l]], graph[l] := graph[l], graph[to[l]];
          vectors[to[l]] := vectors[l];
        }
      } else {
        graph[l] := [];
      }
    }

    /** The relocation loop: in place, in ascending order. */
    method Relocate(to: seq<nat>) returns (dangling: nat)
      requires graph.Length == vectors.Length == |to| == max + frozen && graph as object != vectors
      requires InRange(graph[..], |to|) && Relocation(to, locToTag, max)
      modifies graph, vectors
      ensures InRange(graph[..], |to|)
      ensures Relocated(old(graph[..]), old(vectors[..]), locToTag, graph[..], vectors[..], to, max)
      ensures NoDanglingIn(old(graph[..]), locToTag, max) ==> dangling == 0
    {
      ghost var g0, v0 := graph[..], vectors[..];
      ghost var moved := seq(|to|, l requires 0 <= l < |to| => assert ListBelow(g0[l], |to|); Renamed(g0[l], to));
      dangling := 0;
      for l := 0 to |to|
        invariant InRange(graph[..], |to|)
        invariant MovedUpTo(g0, graph[..], moved, to, locToTag, max, l)
        invariant MovedUpTo(v0, vectors[..], v0, to, locToTag, max, l)
        invariant NoDanglingIn(g0, locToTag, max) ==> dangling == 0
      {
        ghost var g1, v1 := graph[..], vectors[..];
        assert g1[l] == g0[l] && v1[l] == v0[l] && ListBelow(g1[l], |to|);
        var d := MoveOne(l, to);
        if to[l] < max || l >= max {
          dangling := dangling + d;
        }
        MoveStep(g0, g1, moved, to, locToTag, max, l, graph[..]);
        MoveStep(v0, v1, v0, to, locToTag, max, l, vectors[..]);
        if NoDanglingIn(g0, locToTag, max) && Kept(locToTag, max, l) {
          NoneGone(g0[l], locToTag, max, to);
        }
      }
    }

    /** Slots [nd, max) are queued as empty, in ascending order. */
    method QueueEmpty()
      requires nd <= max
      modifies emptySlots
      ensures EmptyTail()
    {
      emptySlots.Clear();
      for i := nd to max
        invariant emptySlots.Valid() && emptySlots.values == Interval(nd, i)
        invariant |emptySlots.bits| == if nd < i then i else 0
      {
        assert i !in emptySlots.values;
        emptySlots.Insert(i);
        assert Interval(nd, i) + [i] == Interval(nd, i + 1);
      }
    }

    /** compact_data.  It does nothing while the data counts as compacted, and
        refuses pending deletes or an untagged start point. */
    method CompactData() returns (status: CompactStatus, dangling: nat, ghost to: seq<nat>)
      requires Valid()
      modifies `locToTag, `tagToLoc, `compacted, graph, vectors, emptySlots
      ensures Valid()
      ensures status == if old(compacted) then NothingToDo else if deleteSet != {} then DeletesPending
                        else if start < max && start !in old(locToTag) then StartDeleted else Compacted
      ensures status != Compacted ==> unchanged(this) && unchanged(graph) && unchanged(vectors)
      ensures status == Compacted ==>
                IsCompaction(old(graph[..]), old(vectors[..]), old(locToTag), old(tagToLoc),
                             graph[..], vectors[..], locToTag, tagToLoc, to, max, nd)
      ensures status == Compacted ==> compacted && EmptyTail() && Packed()
      ensures status == Compacted && NoDanglingIn(old(graph[..]), old(locToTag), max) ==> dangling == 0
    {
      to, dangling := [], 0;
      if compacted {
        return NothingToDo, dangling, to;
      }
      if deleteSet != {} {
        return DeletesPending, dangling, to;
      }
      var locs := AssignLocations();
      if start < max && start !in locToTag {
        return StartDeleted, dangling, to;
      }
      to := locs;
      status := Compacted;
      dangling := Compact(locs);
      QueueEmpty();
      compacted := true;
    }

    /** The free list is [nd, max) in ascending order.  Its bitset reaches up to
        `max` only if some slot is free. */
    ghost predicate EmptyTail()
      reads this, emptySlots
    {
      nd <= max && emptySlots.Valid() && emptySlots.values == Interval(nd, max) && |emptySlots.bits| == if nd < max then max else 0
    }

    /** After a compaction the free list has a membership bit for every slot
        exactly when some slot is free (or there are none). */
    lemma EverySlotTestable()
      requires EmptyTail()
      ensures (forall loc: nat :: loc < max ==> Testable(loc)) <==> nd < max || max == 0
    {
      if nd == max > 0 {
        assert !Testable(0);
      }
    }

    /** is_in_set has a bit for the slot. */
    ghost predicate Testable(loc: nat)
      reads this, emptySlots
    {
      loc < |emptySlots.bits|
    }

    /** The moves of compact_data, graph first, then the tag maps. */
    method Compact(to: seq<nat>) returns (dangling: nat)
      requires Valid() && deleteSet == {} && |to| == max + frozen && NewLocations(to, locToTag, max)
      modifies `locToTag, `tagToLoc, graph, vectors
      ensures Valid()
      ensures IsCompaction(old(graph[..]), old(vectors[..]), old(locToTag), old(tagToLoc),
                           graph[..], vectors[..], locToTag, tagToLoc, to, max, nd)
      ensures Packed()
      ensures NoDanglingIn(old(graph[..]), old(locToTag), max) ==> dangling == 0
    {
      ghost var g0, v0, tags0, locs0 := graph[..], vectors[..], locToTag, tagToLoc;
      dangling := MoveAll(to);
      ghost var g1, v1 := graph[..], vectors[..];
      var tags, locs := RebuildTags(locToTag, tagToLoc, to, max);
      TagCount(tags, nd);
      assert IsCompaction(g0, v0, tags0, locs0, g1, v1, tags, locs, to, max, nd);
      assert TagsValid(tags, locs, max);
      forall p | 0 <= p < max + frozen ensures Avoids(g1[p], max, nd, frozen) {
        CompactionPacks(g0, v0, tags0, locs0, g1, v1, tags, locs, to, max, nd, p);
      }
      locToTag, tagToLoc := tags, locs;
      assert graph[..] == g1 && vectors[..] == v1;
    }

    /** The relocation, then the clearing of what lies behind it. */
    method MoveAll(to: seq<nat>) returns (dangling: nat)
      requires graph.Length == vectors.Length == |to| == max + frozen <= GONE && graph as object != vectors
      requires InRange(graph[..], |to|) && NewLocations(to, locToTag, max) && nd == |locToTag|
      requires forall l :: l in locToTag ==> l < max
      modifies graph, vectors
      ensures InRange(graph[..], |to|)
      ensures Relocated(old(graph[..]), old(vectors[..]), locToTag, graph[..], vectors[..], to, max)
      ensures forall p :: nd <= p < max ==> graph[p] == []
      ensures NoDanglingIn(old(graph[..]), locToTag, max) ==> dangling == 0
    {
      ghost var g0, v0 := graph[..], vectors[..];
      NewLocationsRelocate(to, locToTag, max);
      dangling := Relocate(to);
      ghost var g1, v1 := graph[..], vectors[..];
      ClearTail();
      assert vectors[..] == v1;
      ClearedRelocated(g0, v0, locToTag, g1, v1, to, max, graph[..]);
    }

    /** Lists of slots [nd, max) are cleared. */
    method ClearTail()
      requires nd <= max <= graph.Length && graph as object != vectors
      modifies graph
      ensures forall p :: nd <= p < max ==> graph[p] == []
      ensures forall p :: 0 <= p < graph.Length && !(nd <= p < max) ==> graph[p] == old(graph[p])
    {
      for p := nd to max
        invariant forall k :: nd <= k < p ==> graph[k] == []
        invariant forall k :: 0 <= k < graph.Length && !(nd <= k < p) ==> graph[k] == old(graph[k])
      {
        graph[p] := [];
      }
    }

    /** The swaps of reposition_points: upwards when the block moves down and
        downwards when it moves up. */
    method SwapBlock(from: nat, dest: nat, n: nat)
      requires from + n <= graph.Length && dest + n <= graph.Length
      modifies graph
      ensures graph[..] == BlockSwapped(old(graph[..]), from, dest, n)
    {
      ghost var g0 := graph[..];
      if dest < from {
        for k := 0 to n
          invariant graph[..] == SwapsUp(g0, from, dest, k)
        {
          SwapPlaces(from + k, dest + k);
        }
      } else {
        for k := n downto 0
          invariant graph[..] == SwapsDown(g0, from, dest, k, n)
        {
          SwapPlaces(from + k, dest + k);
        }
      }
    }

    /** swap_neighbours */
    method SwapPlaces(x: nat, y: nat)
      requires x < graph.Length && y < graph.Length
      modifies graph
      ensures graph[..] == Swapped(old(graph[..]), x, y)
    {
      graph[y], graph[x] := graph[x], graph[y];
    }

    /** The renaming loop of reposition_points. */
    method ShiftAll(from: nat, dest: nat, n: nat)
      modifies graph
      ensures graph[..] == ShiftedGraph(old(graph[..]), from, dest, n)
    {
      ghost var g0 := graph[..];
      for i := 0 to graph.Length
        invariant forall p :: 0 <= p < i ==> graph[p] == ShiftedList(g0[p], from, dest, n)
        invariant forall p :: i <= p < graph.Length ==> graph[p] == g0[p]
      {
        graph[i] := ShiftedList(graph[i], from, dest, n);
      }
    }

    /** move_vectors: one memmove, then the part of the old block that the new one
        does not cover is zeroed. */
    method MoveVectors(from: nat, dest: nat, n: nat)
      requires from + n <= vectors.Length && dest + n <= vectors.Length && from != dest
      modifies vectors
      ensures vectors[..] == Moved(old(vectors[..]), from, dest, n, zero)
    {
      var clearStart, clearEnd := from, from + n;
      if dest < from {
        if clearStart < dest + n {
          clearStart := dest + n;
        }
      } else if clearEnd > dest {
        clearEnd := dest;
      }
      ghost var v0 := vectors[..];
      forall p | dest <= p < dest + n {
        vectors[p] := vectors[from + (p - dest)];
      }
      ghost var v1 := vectors[..];
      forall p | clearStart <= p < clearEnd {
        vectors[p] := zero;
      }
      MovedInTwo(v0, v1, vectors[..], from, dest, n, clearStart, clearEnd, zero);
    }

    /** reposition_points, whatever the target block holds. */
    method RepositionPoints(from: nat, dest: nat, n: nat)
      requires graph.Length == vectors.Length <= GONE && graph as object != vectors
      requires from + n <= graph.Length && dest + n <= graph.Length
      modifies graph, vectors
      ensures n == 0 || from == dest ==> graph[..] == old(graph[..]) && vectors[..] == old(vectors[..])
      ensures n > 0 && from != dest ==> graph[..] == Repositioned(old(graph[..]), from, dest, n)
      ensures n > 0 && from != dest ==> vectors[..] == Moved(old(vectors[..]), from, dest, n, zero)
    {
      if n == 0 || from == dest {
        return;
      }
      ShiftAll(from, dest, n);
      SwapBlock(from, dest, n);
      ghost var g1 := graph[..];
      MoveVectors(from, dest, n);
      assert graph[..] == g1;
    }

    ghost predicate Shape()
      reads this
    {
      graph.Length == vectors.Length == max + frozen <= GONE && graph as object != vectors && nd <= max
    }

    /** Live slots are [0, nd): lists of the others are bare, and no list refers to
        them. */
    ghost predicate Packed()
      reads this, graph
    {
      && Shape()
      && (forall p :: nd <= p < max ==> graph[p] == [])
      && (forall p :: 0 <= p < graph.Length ==> Avoids(graph[p], max, nd, frozen))
    }

    /** Frozen points are moved for saving. */
    predicate Moves()
      reads this
    {
      nd < max && frozen > 0
    }

    /** compact_frozen_point, before saving. */
    method CompactFrozenPoint()
      requires Shape()
      modifies `start, graph, vectors
      ensures Moves() ==> graph[..] == Repositioned(old(graph[..]), max, nd, frozen)
                          && vectors[..] == Moved(old(vectors[..]), max, nd, frozen, zero) && start == nd
      ensures !Moves() ==> graph[..] == old(graph[..]) && vectors[..] == old(vectors[..]) && start == old(start)
    {
      if nd < max && frozen > 0 {
        RepositionPoints(max, nd, frozen);
        start := nd;
      }
    }

    /** reposition_frozen_point_to_end, after saving or loading. */
    method RepositionFrozenPointToEnd()
      requires Shape()
      modifies `start, graph, vectors
      ensures Moves() ==> graph[..] == Repositioned(old(graph[..]), nd, max, frozen)
                          && vectors[..] == Moved(old(vectors[..]), nd, max, frozen, zero) && start == max
      ensures !Moves() ==> graph[..] == old(graph[..]) && vectors[..] == old(vectors[..]) && start == old(start)
    {
      if frozen == 0 || nd == max {
        return;
      }
      RepositionPoints(nd, max, frozen);
      start := max;
    }

    /** The moves of `save` around its writes: the frozen points next to the first nd
        slots, and back.  It writes those slots and the frozen points, and exactly the
        borrowed slots lose their vectors and the references to them. */
    method SaveAround() returns (lists: seq<seq<nat>>, rows: seq<V>)
      requires Shape() && (Moves() ==> start == max)
      modifies `start, graph, vectors
      ensures start == old(start)
      ensures AfterSave(old(graph[..]), old(vectors[..]), graph[..], vectors[..], nd, max, frozen, zero)
      ensures rows == old(vectors[..nd] + vectors[max..])
      ensures lists == if Moves() then ShiftedGraph(old(graph[..nd] + graph[max..]), max, nd, frozen) else old(graph[..nd] + graph[max..])
    {
      ghost var g0, v0 := graph[..], vectors[..];
      CompactFrozenPoint();
      lists, rows := graph[..nd + frozen], vectors[..nd + frozen];
      SavedRows(g0, v0, nd, max, frozen, zero);
      RepositionFrozenPointToEnd();
      if Moves() {
        forall p | 0 <= p < max + frozen
          ensures graph[p] == g0[p] <==> Avoids(g0[p], max, nd, frozen)
          ensures vectors[p] == if Borrowed(p, nd, max, frozen) then zero else v0[p]
        {
          MovedBack(v0, max, nd, frozen, zero, p);
          RepositionedBack(g0, max, nd, frozen, p);
          assert graph[p] == graph[..][p] && vectors[p] == vectors[..][p];
        }
      }
    }

    /** `save` of a dynamic index.  With `compactFirst` the data is compacted unless
        it counts as compacted already; `g1` and `v1` are lists and vectors then. */
    method Save(compactFirst: bool)
      returns (status: SaveStatus, lists: seq<seq<nat>>, rows: seq<V>, ghost g1: seq<seq<nat>>, ghost v1: seq<V>, ghost to: seq<nat>)
      requires Valid() && start == max
      modifies `locToTag, `tagToLoc, `compacted, `start, graph, vectors, emptySlots
      ensures status == if compactFirst && !old(compacted) && deleteSet != {} then Refused
                        else if !compactFirst && !old(compacted) then NotCompacted else Saved
      ensures status != Saved ==> unchanged(this) && unchanged(graph) && unchanged(vectors)
      ensures status == Saved && old(compacted) ==>
                g1 == old(graph[..]) && v1 == old(vectors[..]) && locToTag == old(locToTag) && tagToLoc == old(tagToLoc)
      ensures status == Saved && !old(compacted) ==>
                IsCompaction(old(graph[..]), old(vectors[..]), old(locToTag), old(tagToLoc), g1, v1, locToTag, tagToLoc, to, max, nd)
      ensures status == Saved && compactFirst ==> |g1| == |v1| == max + frozen && rows == v1[..nd] + v1[max..]
      ensures status == Saved && compactFirst ==>
                lists == if Moves() then ShiftedGraph(g1[..nd] + g1[max..], max, nd, frozen) else g1[..nd] + g1[max..]
      ensures status == Saved ==> start == max
      ensures status == Saved && !old(compacted) ==> Restored(g1, v1, graph[..], vectors[..], locToTag, max)
      ensures status == Saved && compactFirst && NoDanglingIn(g1, locToTag, max) && LiveNonZero(v1, locToTag, zero) ==>
                (Restored(g1, v1, graph[..], vectors[..], locToTag, max) <==> !LiveBorrowed(locToTag, nd, max, frozen))
      ensures status == Saved && !compactFirst ==> rows == v1[..nd + frozen] && lists == g1[..nd + frozen]
      ensures status == Saved && !compactFirst ==> graph[..] == if Moves() then Repositioned(g1, nd, max, frozen) else g1
      ensures status == Saved && !compactFirst ==> vectors[..] == if Moves() then Moved(v1, nd, max, frozen, zero) else v1
      ensures status == Saved && !compactFirst && LiveNonZero(v1, locToTag, zero) ==>
                (Restored(g1, v1, graph[..], vectors[..], locToTag, max)
                 <==> (Moves() ==> SurvivesAsIs(g1, v1, locToTag, nd, max, frozen)))
    {
      lists, rows, g1, v1, to := [], [], graph[..], vectors[..], [];
      if !compactFirst {
        if !compacted {
          return NotCompacted, lists, rows, g1, v1, to;
        }
        lists, rows := SaveAsIs();
        return Saved, lists, rows, g1, v1, to;
      }
      status, lists, rows, g1, v1, to := SaveCompacted();
    }

    /** `save` with the compaction it asks for. */
    method SaveCompacted()
      returns (status: SaveStatus, lists: seq<seq<nat>>, rows: seq<V>, ghost g1: seq<seq<nat>>, ghost v1: seq<V>, ghost to: seq<nat>)
      requires Valid() && start == max
      modifies `locToTag, `tagToLoc, `compacted, `start, graph, vectors, emptySlots
      ensures status == if !old(compacted) && deleteSet != {} then Refused else Saved
      ensures status == Refused ==> unchanged(this) && unchanged(graph) && unchanged(vectors)
      ensures status == Saved && old(compacted) ==>
                g1 == old(graph[..]) && v1 == old(vectors[..]) && locToTag == old(locToTag) && tagToLoc == old(tagToLoc)
      ensures status == Saved && !old(compacted) ==>
                IsCompaction(old(graph[..]), old(vectors[..]), old(locToTag), old(tagToLoc), g1, v1, locToTag, tagToLoc, to, max, nd)
      ensures status == Saved ==> |g1| == |v1| == max + frozen && rows == v1[..nd] + v1[max..] && start == max
      ensures status == Saved ==>
                lists == if Moves() then ShiftedGraph(g1[..nd] + g1[max..], max, nd, frozen) else g1[..nd] + g1[max..]
      ensures status == Saved && !old(compacted) ==> Restored(g1, v1, graph[..], vectors[..], locToTag, max)
      ensures status == Saved && NoDanglingIn(g1, locToTag, max) && LiveNonZero(v1, locToTag, zero) ==>
                (Restored(g1, v1, graph[..], vectors[..], locToTag, max) <==> !LiveBorrowed(locToTag, nd, max, frozen))
    {
      lists, rows, g1, v1 := [], [], graph[..], vectors[..];
      var compact, dangling;
      compact, dangling, to := CompactData();
      if compact == DeletesPending {
        return Refused, lists, rows, g1, v1, to;
      }
      g1, v1 := graph[..], vectors[..];
      lists, rows := SaveChecked(compact == Compacted);
      status := Saved;
    }

    /** SaveAround, with what it means for live and frozen locations. */
    method SaveChecked(ghost packed: bool) returns (lists: seq<seq<nat>>, rows: seq<V>)
      requires Shape() && start == max && TagsValid(locToTag, tagToLoc, max)
      requires packed ==> locToTag.Keys == Below(nd) && Packed()
      modifies `start, graph, vectors
      ensures start == max && rows == old(vectors[..nd] + vectors[max..])
      ensures lists == if Moves() then ShiftedGraph(old(graph[..nd] + graph[max..]), max, nd, frozen) else old(graph[..nd] + graph[max..])
      ensures packed ==> Restored(old(graph[..]), old(vectors[..]), graph[..], vectors[..], locToTag, max)
      ensures NoDanglingIn(old(graph[..]), locToTag, max) && LiveNonZero(old(vectors[..]), locToTag, zero) ==>
                (Restored(old(graph[..]), old(vectors[..]), graph[..], vectors[..], locToTag, max) <==> !LiveBorrowed(locToTag, nd, max, frozen))
    {
      ghost var g1, v1 := graph[..], vectors[..];
      lists, rows := SaveAround();
      RestoredExactly(g1, v1, graph[..], vectors[..], locToTag, nd, max, frozen, zero, packed);
    }

    /** `save` without compaction: the rows as they lie, and then the frozen points are
        moved from where they are not. */
    method SaveAsIs() returns (lists: seq<seq<nat>>, rows: seq<V>)
      requires Shape() && start == max
      modifies `start, graph, vectors
      ensures start == max && rows == old(vectors[..nd + frozen]) && lists == old(graph[..nd + frozen])
      ensures graph[..] == if Moves() then Repositioned(old(graph[..]), nd, max, frozen) else old(graph[..])
      ensures vectors[..] == if Moves() then Moved(old(vectors[..]), nd, max, frozen, zero) else old(vectors[..])
      ensures vectors[max..] == old(vectors[max..]) <==> (Moves() ==> old(vectors[nd..nd + frozen] == vectors[max..]))
      ensures graph[max..] == old(graph[max..]) <==>
                (Moves() ==> ShiftedGraph(old(graph[nd..nd + frozen]), nd, max, frozen) == old(graph[max..]))
      ensures old(Packed()) && Moves() ==> (graph[max] == old(graph[max]) <==> old(graph[max]) == [])
      ensures TagsValid(locToTag, tagToLoc, max) && LiveNonZero(old(vectors[..]), locToTag, zero) ==>
                (Restored(old(graph[..]), old(vectors[..]), graph[..], vectors[..], locToTag, max)
                 <==> (Moves() ==> SurvivesAsIs(old(graph[..]), old(vectors[..]), locToTag, nd, max, frozen)))
    {
      lists, rows := graph[..nd + frozen], vectors[..nd + frozen];
      ghost var g0, v0 := graph[..], vectors[..];
      RepositionFrozenPointToEnd();
      if Moves() {
        FrozenFrom(g0, v0, nd, max, frozen, zero);
        assert vectors[max..] == vectors[..][max..] && graph[max..] == graph[..][max..] && graph[max] == graph[..][max];
        if forall l :: l in locToTag ==> l < max {
          AsIsExactly(g0, v0, locToTag, nd, max, frozen, zero);
        }
      }
    }
  }

  /** Copy, then clear what the copy does not cover. */
  lemma MovedInTwo<V>(v0: seq<V>, v1: seq<V>, v2: seq<V>, from: nat, dest: nat, n: nat, clearStart: nat, clearEnd: nat, zero: V)
    requires |v0| == |v1| == |v2| && from + n <= |v0| && dest + n <= |v0| && from != dest
    requires clearStart == if dest < from < dest + n then dest + n else from
    requires clearEnd == if from < dest < from + n then dest else from + n
    requires forall p :: 0 <= p < |v0| ==> v1[p] == if dest <= p < dest + n then v0[from + (p - dest)] else v0[p]
    requires forall p :: 0 <= p < |v0| ==> v2[p] == if clearStart <= p < clearEnd then zero else v1[p]
    ensures v2 == Moved(v0, from, dest, n, zero)
  {
    var want := Moved(v0, from, dest, n, zero);
    forall p | 0 <= p < |v0| ensures v2[p] == want[p] {
      assert v1[p] == if dest <= p < dest + n then v0[from + (p - dest)] else v0[p];
      assert want[p] == if InBlock(p, dest, n) then v0[from + (p - dest)] else if InBlock(p, from, n) then zero else v0[p];
    }
  }

  /** A block moved to the end is what the end holds afterwards. */
  lemma FrozenFrom<V>(g: seq<seq<nat>>, v: seq<V>, nd: nat, max: nat, frozen: nat, zero: V)
    requires nd < max && 0 < frozen && |g| == |v| == max + frozen <= GONE
    ensures Moved(v, nd, max, frozen, zero)[max..] == v[nd..nd + frozen]
    ensures Repositioned(g, nd, max, frozen)[max..] == ShiftedGraph(g[nd..nd + frozen], nd, max, frozen)
    ensures Repositioned(g, nd, max, frozen)[max] == ShiftedList(g[nd], nd, max, frozen)
  {
    var now := Repositioned(g, nd, max, frozen);
    forall p | max <= p < max + frozen ensures now[p] == ShiftedList(g[nd + (p - max)], nd, max, frozen) {
      RepositionedUp(g, nd, max, frozen, p);
    }
  }

  /** The slots the frozen points are moved from hold what the frozen points had,
      no live point lies there, and none refers to them. */
  ghost predicate SurvivesAsIs<V>(g: seq<seq<nat>>, v: seq<V>, tags: map<nat, nat>, nd: nat, max: nat, frozen: nat)
    requires nd <= max && |g| == |v| == max + frozen
  {
    && ShiftedGraph(g[nd..nd + frozen], nd, max, frozen) == g[max..] && v[nd..nd + frozen] == v[max..]
    && !LiveBorrowed(tags, nd, max, frozen)
    && forall l :: l in tags && l < max ==> Clear(g[l], nd, frozen)
  }

  lemma AsIsExactly<V>(g: seq<seq<nat>>, v: seq<V>, tags: map<nat, nat>, nd: nat, max: nat, frozen: nat, zero: V)
    requires nd < max && 0 < frozen && |g| == |v| == max + frozen <= GONE && forall l :: l in tags ==> l < max
    ensures LiveNonZero(v, tags, zero) ==>
              (Restored(g, v, Repositioned(g, nd, max, frozen), Moved(v, nd, max, frozen, zero), tags, max)
               <==> SurvivesAsIs(g, v, tags, nd, max, frozen))
  {
    var g', v' := Repositioned(g, nd, max, frozen), Moved(v, nd, max, frozen, zero);
    FrozenFrom(g, v, nd, max, frozen, zero);
    assert g'[max..] == g[max..] <==> forall p :: max <= p < |g| ==> g'[p] == g[p];
    assert v'[max..] == v[max..] <==> forall p :: max <= p < |v| ==> v'[p] == v[p];
    if LiveBorrowed(tags, nd, max, frozen) {
      var l :| l in tags && Borrowed(l, nd, max, frozen);
      assert v'[l] == zero && Kept(tags, max, l);
    } else {
      forall l | l in tags ensures (g'[l] == g[l] <==> Clear(g[l], nd, frozen)) && v'[l] == v[l] {
        assert !Borrowed(l, nd, max, frozen);
        RepositionedUp(g, nd, max, frozen, l);
      }
    }
  }

  datatype SaveStatus = Saved | Refused | NotCompacted

  /** The slots the frozen points take while an index is saved. */
  ghost predicate Borrowed(p: nat, nd: nat, max: nat, frozen: nat) {
    nd <= p < max && p < nd + frozen
  }

  ghost predicate LiveBorrowed(tags: map<nat, nat>, nd: nat, max: nat, frozen: nat) {
    exists l :: l in tags && Borrowed(l, nd, max, frozen)
  }

  ghost predicate LiveNonZero<V>(v: seq<V>, tags: map<nat, nat>, zero: V) {
    forall l :: l in tags && l < |v| ==> v[l] != zero
  }

  /** Live and frozen locations have their lists and vectors. */
  ghost predicate Restored<V>(g1: seq<seq<nat>>, v1: seq<V>, g: seq<seq<nat>>, v: seq<V>, tags: map<nat, nat>, max: nat) {
    |g1| == |g| == |v1| == |v| && forall p :: 0 <= p < |g| && Kept(tags, max, p) ==> g[p] == g1[p] && v[p] == v1[p]
  }

  /** What the two moves of `save` leave: exactly the borrowed slots lose their vectors
      and the references to them. */
  ghost predicate AfterSave<V>(g1: seq<seq<nat>>, v1: seq<V>, g: seq<seq<nat>>, v: seq<V>, nd: nat, max: nat, frozen: nat, zero: V)
    requires |g1| == |g| == |v1| == |v|
  {
    && (forall p :: 0 <= p < |g| ==> (g[p] == g1[p] <==> (nd < max && frozen > 0 ==> Avoids(g1[p], max, nd, frozen))))
    && (forall p :: 0 <= p < |g| ==> v[p] == if Borrowed(p, nd, max, frozen) then zero else v1[p])
  }

  /** What is written between the two moves. */
  lemma SavedRows<V>(g0: seq<seq<nat>>, v0: seq<V>, nd: nat, max: nat, frozen: nat, zero: V)
    requires |g0| == |v0| == max + frozen && nd <= max
    ensures nd < max && frozen > 0 ==>
              && Repositioned(g0, max, nd, frozen)[..nd + frozen] == ShiftedGraph(g0[..nd] + g0[max..], max, nd, frozen)
              && Moved(v0, max, nd, frozen, zero)[..nd + frozen] == v0[..nd] + v0[max..]
    ensures !(nd < max && frozen > 0) ==> g0[..nd + frozen] == g0[..nd] + g0[max..] && v0[..nd + frozen] == v0[..nd] + v0[max..]
  {
    if nd < max && frozen > 0 {
      var there := ShiftedGraph(g0, max, nd, frozen);
      forall p | 0 <= p < nd + frozen
        ensures Repositioned(g0, max, nd, frozen)[p] == ShiftedGraph(g0[..nd] + g0[max..], max, nd, frozen)[p]
      {
        ArrivesInOrder(there, max, nd, frozen, p);
      }
    }
  }

  lemma RestoredExactly<V>(g1: seq<seq<nat>>, v1: seq<V>, g: seq<seq<nat>>, v: seq<V>, tags: map<nat, nat>,
                           nd: nat, max: nat, frozen: nat, zero: V, packed: bool)
    requires |g1| == |g| == |v1| == |v| == max + frozen && nd <= max && forall l :: l in tags ==> l < max
    requires AfterSave(g1, v1, g, v, nd, max, frozen, zero)
    requires packed ==> tags.Keys == Below(nd) && forall p :: 0 <= p < |g| ==> Avoids(g1[p], max, nd, frozen)
    ensures packed ==> Restored(g1, v1, g, v, tags, max)
    ensures NoDanglingIn(g1, tags, max) && LiveNonZero(v1, tags, zero) ==>
              (Restored(g1, v1, g, v, tags, max) <==> !LiveBorrowed(tags, nd, max, frozen))
  {
    if LiveBorrowed(tags, nd, max, frozen) {
      var l :| l in tags && Borrowed(l, nd, max, frozen);
      assert v[l] == zero && Kept(tags, max, l);
    } else if NoDanglingIn(g1, tags, max) {
      forall p | 0 <= p < |g| && Kept(tags, max, p) ensures Avoids(g1[p], max, nd, frozen) {
        assert AllKept(g1[p], tags, max);
        forall i | 0 <= i < |g1[p]| ensures !(InBlock(g1[p][i], nd, frozen) && !InBlock(g1[p][i], max, frozen)) {
          assert Kept(tags, max, g1[p][i]);
          assert g1[p][i] in tags ==> !Borrowed(g1[p][i], nd, max, frozen);
        }
      }
    }
  }

  /** One list renamed; the number of references dropped. */
  method Rename(list: seq<nat>, to: seq<nat>) returns (out: seq<nat>, dangling: nat)
    requires ListBelow(list, |to|)
    ensures out == Renamed(list, to) && dangling + |out| == |list|
    ensures forall i :: 0 <= i < |out| ==> out[i] in to && out[i] != GONE
  {
    out, dangling := [], 0;
    for i := 0 to |list|
      invariant out == Renamed(list[..i], to) && dangling + |out| == i
      invariant forall j :: 0 <= j < |out| ==> out[j] in to && out[j] != GONE
    {
      assert list[..i + 1][..i] == list[..i];
      if to[list[i]] == GONE {
        dangling := dangling + 1;
      } else {
        out := out + [to[list[i]]];
      }
    }
    assert list[..|list|] == list;
  }
}
