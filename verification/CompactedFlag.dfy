// src/index.cpp: what _data_compacted says about the live slots.  Slots are handed
// out from the back of the free list, so the flag stays true while they spread.

module CompactedFlag {
  import opened Wrappers
  import opened Graphs
  import opened SlotMachine
  import opened IndexMachine
  import opened FirstInsert
  import opened Reposition
  import IndexStore

  ghost predicate Consecutive(e: seq<nat>) {
    forall i :: 0 <= i < |e| ==> e[i] == e[0] + i
  }

  /** The free list with the slot of the insert that is under way. */
  ghost function FreeStack(s: Slots): seq<nat> {
    s.empty + if s.pending.Some? then [s.pending.value.loc] else []
  }

  /** While the data counts as compacted nothing is deleted and the free slots are
      one stretch. */
  ghost predicate FlagInv(s: Slots) {
    s.compacted ==> s.deleteSet == {} && s.taken == {} && Consecutive(FreeStack(s))
  }

  lemma FlagReserve(s: Slots, task: nat, tag: nat)
    requires SlotInv(s) && FlagInv(s) && s.pending.None?
    ensures FlagInv(SlotMachine.Reserve(s, task, tag))
  {
    ReserveKeeps(s, task, tag);
    if s.nd < s.max {
      assert FreeStack(SlotMachine.Reserve(s, task, tag)) == s.empty == FreeStack(s);
    }
  }

  lemma FlagCommit(s: Slots)
    requires SlotInv(s) && FlagInv(s) && s.pending.Some?
    ensures FlagInv(CommitTag(s))
  {
    var loc := s.pending.value.loc;
    assert s.empty == FreeStack(s)[..|s.empty|];
    assert Classes(loc, s) == Bit(loc < s.max);
    if s.pending.value.tag in s.tagToLoc {
      ReleaseKeeps(s, loc);
      assert FreeStack(CommitTag(s)) == FreeStack(s);
    } else {
      assert FreeStack(CommitTag(s)) == s.empty;
    }
  }

  lemma FlagRelease(s: Slots, order: seq<nat>)
    requires SlotInv(s) && FlagInv(s) && Distinct(order) && ToSet(order) == s.taken
    ensures FlagInv(ReleaseAll(s, order))
  {
    ReleaseAllKeeps(s, order);
    if s.compacted {
      ToSetEmpty(order);
    }
  }

  lemma FlagKept(cfg: Config, s: State, a: Action)
    requires SlotsOk(cfg, s) && FlagInv(s.slots) && Next(cfg, s, a).Some?
    ensures FlagInv(Next(cfg, s, a).value.slots)
  {
    match a
    case Reserve(t, tag) => FlagReserve(s.slots, t, tag);
    case Commit => FlagCommit(s.slots);
    case FinishConsolidate(order) => FlagRelease(s.slots, order);
    case Compact(c) => CompactKeeps(cfg, s.slots, s.graph, c);
    case _ =>
  }

  lemma {:induction false} FlagAlways(cfg: Config, actions: seq<Action>)
    requires Run(cfg, actions).Some?
    ensures FlagInv(Run(cfg, actions).value.slots)
  {
    if actions != [] {
      var init := actions[..|actions| - 1];
      FlagAlways(cfg, init);
      SlotsAlwaysPartitioned(cfg, init);
      FlagKept(cfg, Run(cfg, init).value, actions[|actions| - 1]);
    }
  }

  /** Then the free list is one stretch, and all other slots are live. */
  lemma OneStretch(cfg: Config, actions: seq<Action>)
    requires Run(cfg, actions).Some?
    requires var s := Run(cfg, actions).value.slots; s.compacted && s.pending.None?
    ensures var s := Run(cfg, actions).value.slots;
            && Consecutive(s.empty) && s.nd == |s.locToTag| && |s.empty| + |s.locToTag| == cfg.max
            && (forall l :: l in s.locToTag ==> l < cfg.max) && (forall i :: 0 <= i < |s.empty| ==> s.empty[i] < cfg.max)
            && (forall v: nat :: v < cfg.max ==> (v in s.locToTag <==> v !in ToSet(s.empty)))
  {
    var s := Run(cfg, actions).value.slots;
    FlagAlways(cfg, actions);
    SlotsAlwaysPartitioned(cfg, actions);
    Quiescent(s);
    assert FreeStack(s) == s.empty;
    forall v: nat ensures v < cfg.max ==> (v in s.locToTag <==> v !in ToSet(s.empty)) {
      assert Classes(v, s) == Bit(v < s.max);
    }
    forall i | 0 <= i < |s.empty| ensures s.empty[i] < cfg.max {
      assert s.empty[i] in ToSet(s.empty) && Classes(s.empty[i], s) == Bit(s.empty[i] < s.max);
    }
  }

  /** Over every run: while the data counts as compacted and no insert is reserving,
      the live slots are [0, nd) exactly when the free list is used up or its last
      entry, the next slot to be handed out, is the last slot. */
  lemma PackedExactly(cfg: Config, actions: seq<Action>)
    requires Run(cfg, actions).Some?
    requires var s := Run(cfg, actions).value.slots; s.compacted && s.pending.None?
    ensures var s := Run(cfg, actions).value.slots;
            && s.nd == |s.locToTag|
            && (s.locToTag.Keys == Below(|s.locToTag|) <==> s.empty == [] || s.empty[|s.empty| - 1] == cfg.max - 1)
  {
    var s := Run(cfg, actions).value.slots;
    OneStretch(cfg, actions);
    LiveAround(s.locToTag, s.empty, cfg.max);
  }

  lemma LiveAround(tags: map<nat, nat>, empty: seq<nat>, max: nat)
    requires Consecutive(empty) && |empty| + |tags| == max
    requires forall l :: l in tags ==> l < max
    requires forall i :: 0 <= i < |empty| ==> empty[i] < max
    requires forall v: nat :: v < max ==> (v in tags <==> v !in ToSet(empty))
    ensures tags.Keys == Below(|tags|) <==> empty == [] || empty[|empty| - 1] == max - 1
  {
    var n := |tags|;
    if empty == [] {
      assert ToSet(empty) == {};
      assert tags.Keys == Below(n);
    } else {
      var lo, k := empty[0], |empty|;
      forall v: nat ensures v in ToSet(empty) <==> lo <= v < lo + k {
        if lo <= v < lo + k {
          assert empty[v - lo] == v;
        }
      }
      assert n == max - k;
      if lo + k == max {
        forall v: nat ensures v in tags <==> v < n {
          assert v < max ==> (v in tags <==> v !in ToSet(empty));
        }
      } else {
        assert empty[k - 1] == lo + (k - 1) < max;
        var top: nat := max - 1;
        assert top !in ToSet(empty);
        assert top in tags && top !in Below(n);
      }
    }
  }

  lemma InsertedUnpacked(cfg: Config)
    requires cfg.max >= 2 && cfg.frozen > 0
    ensures var s := Inserted1(cfg);
            && s.tasks == map[] && s.slots.compacted && s.slots.pending.None? && s.slots.nd == 1
            && s.slots.locToTag.Keys == {cfg.max - 1} != Below(1)
            && (IndexStore.LiveBorrowed(s.slots.locToTag, 1, cfg.max, cfg.frozen) <==> cfg.max <= cfg.frozen + 1)
  {
    assert 0 in Below(1);
    assert cfg.max - 1 in OneLive(cfg.max).locToTag;
    assert IndexStore.Borrowed(cfg.max - 1, 1, cfg.max, cfg.frozen) <==> cfg.max <= cfg.frozen + 1;
  }

  /** One insert into a fresh index of two slots or more: the data counts as
      compacted, and the only live slot is the last one.  Saving now lends that slot
      to a frozen point exactly when there are enough of them to reach it. */
  lemma FirstInsertUnpacked(cfg: Config) returns (actions: seq<Action>, s: State)
    requires cfg.max >= 2 && cfg.frozen > 0
    ensures Run(cfg, actions) == Some(s)
    ensures s.tasks == map[] && s.slots.compacted && s.slots.pending.None? && s.slots.nd == 1
    ensures s.slots.locToTag.Keys == {cfg.max - 1} != Below(1)
    ensures IndexStore.LiveBorrowed(s.slots.locToTag, 1, cfg.max, cfg.frozen) <==> cfg.max <= cfg.frozen + 1
  {
    InsertedUnpacked(cfg);
    s := Inserted1(cfg);
    actions := InsertRun(cfg);
  }

  // ---- saving, over every run ----

  /** While the data counts as compacted and no insert is reserving, saving borrows a
      live slot exactly when the free list ends before the last borrowed slot. */
  lemma BorrowedExactly(cfg: Config, actions: seq<Action>)
    requires Run(cfg, actions).Some?
    requires var s := Run(cfg, actions).value.slots; s.compacted && s.pending.None?
    ensures var s := Run(cfg, actions).value.slots;
            && 0 <= s.nd <= cfg.max
            && (IndexStore.LiveBorrowed(s.locToTag, s.nd, cfg.max, cfg.frozen) <==> FreeEndsEarly(s.empty, s.nd, cfg.max, cfg.frozen))
  {
    var s := Run(cfg, actions).value.slots;
    OneStretch(cfg, actions);
    LiveBehindFree(s.locToTag, s.empty, s.nd, cfg.max, cfg.frozen);
  }

  /** The next slot to be handed out lies before the last slot that is borrowed. */
  predicate FreeEndsEarly(empty: seq<nat>, nd: nat, max: nat, frozen: nat) {
    frozen > 0 && empty != [] && empty[|empty| - 1] + 1 < max && empty[|empty| - 1] + 1 < nd + frozen
  }

  lemma LiveBehindFree(tags: map<nat, nat>, empty: seq<nat>, nd: nat, max: nat, frozen: nat)
    requires Consecutive(empty) && |empty| + nd == max
    requires forall i :: 0 <= i < |empty| ==> empty[i] < max
    requires forall v: nat :: v < max ==> (v in tags <==> v !in ToSet(empty))
    ensures IndexStore.LiveBorrowed(tags, nd, max, frozen) <==> FreeEndsEarly(empty, nd, max, frozen)
  {
    if empty != [] {
      var lo, k := empty[0], |empty|;
      assert empty[k - 1] == lo + (k - 1) < max;
      forall v: nat ensures v in ToSet(empty) <==> lo <= v < lo + k {
        if lo <= v < lo + k {
          assert empty[v - lo] == v;
        }
      }
      var behind := if nd <= lo + k then lo + k else nd;
      if FreeEndsEarly(empty, nd, max, frozen) {
        assert behind in tags && IndexStore.Borrowed(behind, nd, max, frozen);
      }
    }
  }

  /** In exclusive runs, between inserts and while the data counts as compacted: what
      `save` leaves, `g` and `v`, has all live lists and vectors again exactly unless
      the free list ends early. */
  lemma RestoredOverRuns<V>(cfg: Config, actions: seq<Action>, v1: seq<V>, g: Graph, v: seq<V>, zero: V)
    requires !cfg.conc && Run(cfg, actions).Some?
    requires var s := Run(cfg, actions).value; !s.running && s.tasks == map[] && s.slots.compacted && s.slots.pending.None?
    requires var s := Run(cfg, actions).value;
             && 0 <= s.slots.nd <= cfg.max && |g| == |v1| == |v| == |s.graph| && IndexStore.LiveNonZero(v1, s.slots.locToTag, zero)
             && IndexStore.AfterSave(s.graph, v1, g, v, s.slots.nd, cfg.max, cfg.frozen, zero)
    ensures var s := Run(cfg, actions).value;
            (IndexStore.Restored(s.graph, v1, g, v, s.slots.locToTag, cfg.max)
             <==> !FreeEndsEarly(s.slots.empty, s.slots.nd, cfg.max, cfg.frozen))
  {
    var s := Run(cfg, actions).value;
    FlagAlways(cfg, actions);
    EdgesAlwaysWired(cfg, actions);
    SlotsAlwaysPartitioned(cfg, actions);
    Quiescent(s.slots);
    assert NonEmpty(s.slots) == s.slots.locToTag.Keys;
    QuiescentNeverDangles(cfg, s.slots.locToTag, s.graph, s.linked);
    BorrowedExactly(cfg, actions);
    IndexStore.RestoredExactly(s.graph, v1, g, v, s.slots.locToTag, s.slots.nd, cfg.max, cfg.frozen, zero, false);
  }

  // ---- saving without compaction loses the entry point ----

  ghost function Touched(max: nat): Slots
    requires max > 0
  {
    OneLive(max).(compacted := false)
  }

  ghost function PackedGraph(cfg: Config): Graph
    requires cfg.max > 0 && cfg.frozen > 0
  {
    Bare(cfg)[0 := OwnList(cfg)][cfg.max := [0]]
  }

  ghost function To(cfg: Config): seq<nat>
    requires cfg.max > 0
  {
    seq(cfg.max + cfg.frozen, l => if l >= cfg.max then l else if l == cfg.max - 1 then 0 else IndexStore.GONE)
  }

  /** The only point goes from the last slot to the first. */
  ghost function Down(cfg: Config): Compaction
    requires cfg.max > 0 && cfg.frozen > 0
  {
    Compaction(PackedGraph(cfg), map[0 := 1], map[1 := 0], To(cfg))
  }

  lemma DownLocations(cfg: Config)
    requires cfg.max > 0
    ensures IndexStore.NewLocations(To(cfg), map[cfg.max - 1 := 1], cfg.max)
  {
    var tags := map[cfg.max - 1 := 1];
    IndexStore.RankIsSize(tags, cfg.max - 1, {});
  }

  lemma RenamedShort(list: seq<nat>, to: seq<nat>)
    requires |list| <= 1 && IndexStore.ListBelow(list, |to|) && forall i :: 0 <= i < |list| ==> to[list[i]] != IndexStore.GONE
    ensures IndexStore.Renamed(list, to) == if list == [] then [] else [to[list[0]]]
  {
    if list != [] {
      assert list[..0] == [] && [] + [to[list[0]]] == [to[list[0]]];
    }
  }

  lemma DownMoved(cfg: Config, g0: Graph, g: Graph, to: seq<nat>, l: nat)
    requires cfg.max >= 2 && cfg.frozen > 0 && cfg.max + cfg.frozen <= IndexStore.GONE
    requires g0 == Inserted1(cfg).graph && g == PackedGraph(cfg) && to == To(cfg) && cfg.max - 1 <= l < |to|
    ensures |g0| == |g| == |to| && |g0[l]| <= 1
    ensures IndexStore.ListBelow(g0[l], |to|) && to[l] < |to| && g[to[l]] == IndexStore.Renamed(g0[l], to)
  {
    RenamedShort(g0[l], to);
  }

  lemma DownRelocated(cfg: Config)
    requires cfg.max >= 2 && cfg.frozen > 0 && cfg.max + cfg.frozen <= IndexStore.GONE
    ensures var n := cfg.max + cfg.frozen;
            IndexStore.Relocated(Inserted1(cfg).graph, NoVectors(n), map[cfg.max - 1 := 1], PackedGraph(cfg), NoVectors(n), To(cfg), cfg.max)
  {
    var n, g0, g, to := cfg.max + cfg.frozen, Inserted1(cfg).graph, PackedGraph(cfg), To(cfg);
    DownMoved(cfg, g0, g, to, cfg.max);
    assert IndexStore.InRange(g0, n);
    forall l | 0 <= l < n && IndexStore.Kept(map[cfg.max - 1 := 1], cfg.max, l)
      ensures IndexStore.MovedTo(g0, NoVectors(n), g, NoVectors(n), to, l)
    {
      DownMoved(cfg, g0, g, to, l);
    }
  }

  lemma DownTags(max: nat, to: seq<nat>)
    requires 0 < max <= |to| && to[max - 1] == 0
    ensures var locs0, locs := map[1 := max - 1], map[1 := 0];
            locs.Keys == locs0.Keys && forall t :: t in locs ==> locs0[t] < |to| && locs[t] == to[locs0[t]]
  {
  }

  lemma OneTag()
    ensures Inverse(map[0 := 1], map[1 := 0]) && map[0 := 1].Keys == Below(1)
  {
    assert Below(1) == {0};
  }

  lemma DownIsCompaction(cfg: Config, locs0: map<nat, nat>)
    requires cfg.max >= 2 && cfg.frozen > 0 && cfg.max + cfg.frozen <= IndexStore.GONE && locs0 == map[1 := cfg.max - 1]
    ensures var n, c := cfg.max + cfg.frozen, Down(cfg);
            IndexStore.IsCompaction(Inserted1(cfg).graph, NoVectors(n), map[cfg.max - 1 := 1], locs0,
                                    c.graph, NoVectors(n), c.tags, c.locs, c.to, cfg.max, 1)
  {
    DownLocations(cfg);
    DownRelocated(cfg);
    DownTags(cfg.max, To(cfg));
    OneTag();
    BareTail(cfg);
  }

  lemma DownCompacts(cfg: Config, s: Slots, c: Compaction)
    requires cfg.max >= 2 && cfg.frozen > 0 && cfg.max + cfg.frozen <= IndexStore.GONE
    requires s.nd == 1 && s.locToTag == map[cfg.max - 1 := 1] && s.tagToLoc == map[1 := cfg.max - 1] && c == Down(cfg)
    ensures Compacts(cfg, s, Inserted1(cfg).graph, c)
  {
    assert c.tags == map[0 := 1] && c.locs == map[1 := 0] && |c.to| == cfg.max + cfg.frozen;
    OneTag();
    DownIsCompaction(cfg, s.tagToLoc);
  }

  lemma BareTail(cfg: Config)
    requires cfg.max > 0 && cfg.frozen > 0
    ensures forall p :: 1 <= p < cfg.max ==> PackedGraph(cfg)[p] == []
  {
  }

  /** One live point, in slot 0. */
  ghost function PackedState(cfg: Config): State
    requires cfg.max > 0 && cfg.frozen > 0
  {
    State(CompactedSlots(Touched(cfg.max), Down(cfg)), PackedGraph(cfg), map[], false, {}, {0})
  }

  lemma GoTouch(cfg: Config, reach: State -> bool)
    requires ClosedUnder(cfg, reach) && cfg.max > 0 && cfg.frozen > 0 && reach(Inserted1(cfg))
    ensures reach(Inserted1(cfg).(slots := Touched(cfg.max)))
  {
    Go(cfg, reach, Inserted1(cfg), LazyDelete(9), Inserted1(cfg).(slots := Touched(cfg.max)));
  }

  lemma GoCompact(cfg: Config, reach: State -> bool, s: State, c: Compaction)
    requires ClosedUnder(cfg, reach) && reach(s) && !s.running && s.tasks == map[] && MayCompact(s.slots) && Compacts(cfg, s.slots, s.graph, c)
    ensures reach(s.(slots := CompactedSlots(s.slots, c), graph := c.graph, linked := c.tags.Keys))
  {
    Go(cfg, reach, s, Compact(c), s.(slots := CompactedSlots(s.slots, c), graph := c.graph, linked := c.tags.Keys));
  }

  lemma GoDown(cfg: Config, reach: State -> bool)
    requires ClosedUnder(cfg, reach) && cfg.max >= 2 && cfg.frozen > 0 && cfg.max + cfg.frozen <= IndexStore.GONE
    requires reach(Inserted1(cfg))
    ensures reach(PackedState(cfg))
  {
    var touched := Inserted1(cfg).(slots := Touched(cfg.max));
    GoTouch(cfg, reach);
    DownCompacts(cfg, touched.slots, Down(cfg));
    GoCompact(cfg, reach, touched, Down(cfg));
    assert map[0 := 1].Keys == {0};
  }

  /** Insert a point, delete an absent tag, compact: the point is in slot 0 and the
      entry point leads to it.  Saving this as it lies leaves the entry point with the
      bare list of slot 1 and with the vector of slot 1, whatever that is: releasing
      a slot and compacting do not blank it. */
  lemma FrozenOverwritten<V>(cfg: Config, v: seq<V>, zero: V) returns (actions: seq<Action>, s: State)
    requires cfg.max >= 2 && cfg.frozen > 0 && |v| == cfg.max + cfg.frozen <= IndexStore.GONE
    ensures Run(cfg, actions) == Some(s) && !s.running && s.tasks == map[]
    ensures s.slots.compacted && s.slots.pending.None? && s.slots.nd == 1 && s.slots.locToTag.Keys == {0}
    ensures |s.graph| == |v| && s.graph[cfg.max] == [0]
    ensures Repositioned(s.graph, 1, cfg.max, cfg.frozen)[cfg.max] == []
    ensures Moved(v, 1, cfg.max, cfg.frozen, zero)[cfg.max] == v[1]
  {
    ReachableClosed(cfg);
    Whole(cfg, Reachable(cfg));
    GoDown(cfg, Reachable(cfg));
    s := PackedState(cfg);
    actions := RunTo(cfg, s);
    RepositionedUp(s.graph, 1, cfg.max, cfg.frozen, cfg.max);
    assert s.graph[1] == [];
  }
}
