// src/index.cpp and src/natural_number_set.cpp: compact_data clears the free list's
// bitset, and is_in_set tests it without a bound check.

module FreeListBits {
  import opened Graphs
  import opened SlotMachine
  import opened IndexMachine
  import opened FirstInsert
  import ConcurrentRace
  import IndexStore

  /** The steps that ask whether a slot is in the free list: a failed insert gives
      its slot back, the consolidation loop skips empty slots, and released slots are
      checked first. */
  ghost predicate Asks(cfg: Config, s: State, a: Action) {
    match a
    case Commit => s.slots.pending.Some? && s.slots.pending.value.tag in s.slots.tagToLoc
    case ProcessDelete(loc, _) => loc < cfg.max && loc !in s.slots.taken
    case FinishConsolidate(order) => order != []
    case _ => false
  }

  /** A compaction of a full index was made. */
  ghost predicate EverFull(cfg: Config, actions: seq<Action>)
    requires Run(cfg, actions).Some?
  {
    actions != [] &&
      var init, a := actions[..|actions| - 1], actions[|actions| - 1];
      EverFull(cfg, init) || (a.Compact? && Run(cfg, init).value.slots.nd == cfg.max > 0)
  }

  /** A membership question was asked after a compaction of a full index. */
  ghost predicate AskedWhenFull(cfg: Config, actions: seq<Action>)
    requires Run(cfg, actions).Some?
  {
    actions != [] &&
      var init, a := actions[..|actions| - 1], actions[|actions| - 1];
      AskedWhenFull(cfg, init) || (EverFull(cfg, init) && Asks(cfg, Run(cfg, init).value, a))
  }

  /** The bitset covers all slots until a full compaction; from then on it is empty
      and stays so until somebody asks. */
  ghost predicate BitsAre(cfg: Config, s: Slots, full: bool, asked: bool) {
    && s.strayed == asked
    && (!full ==> s.bits == cfg.max)
    && (full && !asked ==> s.bits == 0 && s.nd == cfg.max > 0 && s.pending.None?)
  }

  lemma ReleaseBits(s: Slots, loc: nat)
    requires loc < s.max && loc !in s.empty
    ensures Release(s, loc).strayed == (s.strayed || loc >= s.bits)
    ensures s.bits == s.max ==> Release(s, loc).bits == s.max
  {
  }

  lemma {:induction false} ReleaseAllBits(s: Slots, order: seq<nat>)
    requires SlotInv(s) && Distinct(order) && ToSet(order) == s.taken
    ensures s.bits == s.max ==> ReleaseAll(s, order).bits == s.max && ReleaseAll(s, order).strayed == s.strayed
    ensures s.bits == 0 && order != [] ==> ReleaseAll(s, order).strayed
    ensures s.strayed ==> ReleaseAll(s, order).strayed
    decreases |order|
  {
    if order != [] {
      var loc := order[0];
      assert loc in s.taken && Classes(loc, s) == Bit(loc < s.max);
      ReleaseTaken(s, loc);
      TailSet(order);
      assert loc !in s.empty by { assert forall i :: 0 <= i < |s.empty| ==> s.empty[i] in ToSet(s.empty); }
      ReleaseBits(s, loc);
      ReleaseAllBits(Release(s, loc).(taken := s.taken - {loc}), order[1..]);
    }
  }

  lemma CommitBits(s: Slots)
    requires SlotInv(s) && s.pending.Some?
    ensures s.pending.value.tag in s.tagToLoc ==> CommitTag(s).strayed == (s.strayed || s.pending.value.loc >= s.bits)
    ensures s.pending.value.tag !in s.tagToLoc ==> CommitTag(s).strayed == s.strayed && CommitTag(s).bits == s.bits
    ensures s.bits == s.max ==> CommitTag(s).bits == s.max && CommitTag(s).strayed == s.strayed
  {
    var loc := s.pending.value.loc;
    assert Classes(loc, s) == Bit(loc < s.max);
    assert loc !in s.empty by { assert forall i :: 0 <= i < |s.empty| ==> s.empty[i] in ToSet(s.empty); }
  }

  lemma BitsStep(cfg: Config, s: State, a: Action, full: bool, asked: bool)
    requires SlotsOk(cfg, s) && Next(cfg, s, a).Some? && BitsAre(cfg, s.slots, full, asked) && (asked ==> full)
    ensures BitsAre(cfg, Next(cfg, s, a).value.slots, full || (a.Compact? && s.slots.nd == cfg.max > 0),
                    asked || (full && Asks(cfg, s, a)))
  {
    match a
    case Reserve(t, tag) => ReserveKeeps(s.slots, t, tag);
    case Commit => CommitBits(s.slots);
    case FinishConsolidate(order) =>
      ReleaseAllKeeps(s.slots, order);
      ReleaseAllBits(s.slots, order);
    case Compact(c) => CompactKeeps(cfg, s.slots, s.graph, c);
    case _ =>
  }

  /** Over every run: a membership test falls behind the end of the bitset exactly
      when one is made after a compaction of a full index. */
  lemma {:induction false} StraysExactly(cfg: Config, actions: seq<Action>)
    requires Run(cfg, actions).Some?
    ensures Run(cfg, actions).value.slots.strayed <==> AskedWhenFull(cfg, actions)
    ensures BitsAre(cfg, Run(cfg, actions).value.slots, EverFull(cfg, actions), AskedWhenFull(cfg, actions))
    ensures AskedWhenFull(cfg, actions) ==> EverFull(cfg, actions)
  {
    if actions != [] {
      var init, a := actions[..|actions| - 1], actions[|actions| - 1];
      StraysExactly(cfg, init);
      SlotsAlwaysPartitioned(cfg, init);
      BitsStep(cfg, Run(cfg, init).value, a, EverFull(cfg, init), AskedWhenFull(cfg, init));
    }
  }

  // ---- a run that strays ----

  /** One slot and one frozen point: the index is full after one insert. */
  ghost predicate OneSlot(cfg: Config) {
    cfg.max == 1 && cfg.frozen == 1
  }

  ghost function Same(cfg: Config): Compaction
    requires OneSlot(cfg)
  {
    Compaction(Inserted1(cfg).graph, map[0 := 1], map[1 := 0], [0, 1])
  }

  lemma KeepsName(list: seq<nat>)
    requires |list| <= 1 && IndexStore.ListBelow(list, 2)
    ensures IndexStore.Renamed(list, [0, 1]) == list
  {
    if list != [] {
      assert list[..0] == [] && [] + [list[0]] == list;
    }
  }

  /** A full index is compacted to what it is. */
  lemma SameCompacts(cfg: Config, s: Slots)
    requires OneSlot(cfg) && s == OneLive(1).(compacted := false)
    ensures Compacts(cfg, s, Inserted1(cfg).graph, Same(cfg))
  {
    var g := Inserted1(cfg).graph;
    assert g[0] == OwnList(cfg) && g[1] == [0];
    SameLocations();
    SameRelocated(g);
    assert Below(1) == {0} == map[0 := 1].Keys;
  }

  lemma SameLocations()
    ensures IndexStore.NewLocations([0, 1], map[0 := 1], 1)
  {
    assert IndexStore.NewLocation(map[0 := 1], 1, 0) == 0;
  }

  lemma SameRelocated(g: Graph)
    requires |g| == 2 && |g[0]| <= 1 && |g[1]| <= 1 && IndexStore.InRange(g, 2)
    ensures IndexStore.Relocated(g, NoVectors(2), map[0 := 1], g, NoVectors(2), [0, 1], 1)
  {
    forall l | 0 <= l < 2 ensures IndexStore.MovedTo(g, NoVectors(2), g, NoVectors(2), [0, 1], l) {
      assert IndexStore.ListBelow(g[l], 2);
      KeepsName(g[l]);
    }
  }

  ghost function FullSlots(): Slots {
    OneLive(1).(empty := [], bits := 0)
  }

  lemma GoFull(cfg: Config, reach: State -> bool)
    requires ClosedUnder(cfg, reach) && OneSlot(cfg) && reach(Inserted1(cfg))
    ensures reach(Inserted1(cfg).(slots := FullSlots()))
  {
    var s, touched := Inserted1(cfg), OneLive(1).(compacted := false);
    Go(cfg, reach, s, LazyDelete(9), s.(slots := touched));
    SameCompacts(cfg, touched);
    assert CompactedSlots(touched, Same(cfg)) == FullSlots();
    assert map[0 := 1].Keys == {0};
    Go(cfg, reach, s.(slots := touched), Compact(Same(cfg)), s.(slots := FullSlots()));
  }

  lemma GoStray(cfg: Config, reach: State -> bool) returns (s: State)
    requires ClosedUnder(cfg, reach) && OneSlot(cfg) && reach(Inserted1(cfg).(slots := FullSlots()))
    ensures reach(s) && s.slots.strayed
  {
    var full := Inserted1(cfg).(slots := FullSlots());
    ConcurrentRace.GoStart(cfg, reach, full);
    var running := full.(running := true, todo := Below(2));
    s := running.(slots := FullSlots().(strayed := true), todo := Below(2) - {0});
    Go(cfg, reach, running, ProcessDelete(0, []), s);
  }

  /** Insert into the only slot, delete an absent tag, compact, consolidate: the
      first question falls behind the end of the bitset. */
  lemma StrayRun(cfg: Config) returns (actions: seq<Action>)
    requires OneSlot(cfg)
    ensures Run(cfg, actions).Some? && Run(cfg, actions).value.slots.strayed
  {
    ReachableClosed(cfg);
    Whole(cfg, Reachable(cfg));
    GoFull(cfg, Reachable(cfg));
    var s := GoStray(cfg, Reachable(cfg));
    actions := RunTo(cfg, s);
  }
}
