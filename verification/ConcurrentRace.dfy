// src/index.cpp: with _conc_consolidate, an insert still links its slot after the
// slot was deleted, consolidated and released.

module ConcurrentRace {
  import opened Graphs
  import opened SlotMachine
  import opened IndexMachine
  import opened FirstInsert
  import IndexStore

  // ---- with a slot and a frozen point, a concurrent run dangles ----

  /** The only slot in use was deleted and taken over by a consolidation. */
  ghost function OneTaken(max: nat): Slots
    requires max > 0
  {
    Fresh(max).(empty := seq(max - 1, i => i), nd := 1, taken := {max - 1}, compacted := false)
  }

  ghost function Taken(cfg: Config, todo: set<nat>): State
    requires cfg.max > 0
  {
    State(OneTaken(cfg.max), Bare(cfg), map[0 := Linking(cfg.max - 1, [cfg.max])], true, todo, {cfg.max - 1})
  }

  /** While inter_insert has not linked the new node yet, its tag is deleted and a
      consolidation takes the slot. */
  lemma TakenWhileLinking(cfg: Config, reach: State -> bool)
    requires ClosedUnder(cfg, reach) && reach(Init(cfg)) && cfg.conc && cfg.max > 0 && cfg.frozen > 0
    ensures reach(Taken(cfg, Below(cfg.max + cfg.frozen)))
  {
    UpToLink(cfg, reach);
    GoDelete(cfg, reach);
    var deleted := Linking1(cfg).(slots := OneDeleted(cfg.max));
    assert deleted.graph == Bare(cfg);
    GoStart(cfg, reach, deleted);
  }

  ghost function OneDeleted(max: nat): Slots
    requires max > 0
  {
    OneTaken(max).(deleteSet := {max - 1}, taken := {})
  }

  lemma GoDelete(cfg: Config, reach: State -> bool)
    requires ClosedUnder(cfg, reach) && cfg.conc && cfg.max > 0 && reach(Linking1(cfg))
    ensures reach(Linking1(cfg).(slots := OneDeleted(cfg.max)))
  {
    DeleteOne(cfg.max);
    Go(cfg, reach, Linking1(cfg), LazyDelete(1), Linking1(cfg).(slots := OneDeleted(cfg.max)));
  }

  lemma DeleteOne(max: nat)
    requires max > 0
    ensures SlotMachine.LazyDelete(OneLive(max), 1) == OneDeleted(max)
  {
    var loc := max - 1;
    assert {} + {loc} == {loc} && map[loc := 1] - {loc} == map[] && map[1 := loc] - {1} == map[];
  }

  lemma GoStart(cfg: Config, reach: State -> bool, s: State)
    requires ClosedUnder(cfg, reach) && reach(s) && !s.running && s.slots.pending.None? && (!cfg.conc ==> s.tasks == map[])
    ensures reach(s.(slots := TakeDeleteSet(s.slots), running := true, todo := Below(|s.graph|)))
  {
    Go(cfg, reach, s, StartConsolidate, s.(slots := TakeDeleteSet(s.slots), running := true, todo := Below(|s.graph|)));
  }

  /** The nodes the loop has not come to. */
  ghost function Rest(cfg: Config, k: nat): set<nat> {
    Below(cfg.max + cfg.frozen) - Below(k)
  }

  lemma RestStep(cfg: Config, k: nat)
    requires k < cfg.max + cfg.frozen
    ensures k in Rest(cfg, k) && Rest(cfg, k) - {k} == Rest(cfg, k + 1)
  {
  }

  lemma RestEnds(cfg: Config)
    ensures Rest(cfg, 0) == Below(cfg.max + cfg.frozen) && Rest(cfg, cfg.max + cfg.frozen) == {}
  {
    assert Below(0) == {};
  }

  /** The loop has come to node k. */
  ghost predicate AtNode(cfg: Config, reach: State -> bool, k: nat) {
    cfg.max > 0 && reach(Taken(cfg, Rest(cfg, k)))
  }

  /** Bare lists have nothing to repair: every call of the loop is skipped. */
  lemma {:induction false} AllSkipped(cfg: Config, reach: State -> bool, k: nat)
    requires ClosedUnder(cfg, reach) && AtNode(cfg, reach, 0) && k <= cfg.max + cfg.frozen
    ensures AtNode(cfg, reach, k)
  {
    if k > 0 {
      var u: nat := k - 1;
      AllSkipped(cfg, reach, u);
      GoSkipAt(cfg, reach, u, k);
    }
  }

  lemma GoSkipAt(cfg: Config, reach: State -> bool, u: nat, k: nat)
    requires ClosedUnder(cfg, reach) && AtNode(cfg, reach, u) && u < cfg.max + cfg.frozen && k == u + 1
    ensures AtNode(cfg, reach, k)
  {
    RestStep(cfg, u);
    GoSkip(cfg, reach, Taken(cfg, Rest(cfg, u)), u);
  }

  lemma GoSkip(cfg: Config, reach: State -> bool, s: State, u: nat)
    requires ClosedUnder(cfg, reach) && reach(s)
    requires s.running && u in s.todo && u < |s.graph| && s.graph[u] == [] && s.slots.bits == cfg.max && !s.slots.strayed
    ensures reach(s.(todo := s.todo - {u}))
  {
    assert ToSet(s.graph[u]) == {};
    assert u < cfg.max ==> Tested(s.slots, u) == s.slots;
    Go(cfg, reach, s, ProcessDelete(u, []), s.(todo := s.todo - {u}));
  }

  lemma ReleasedAgain(max: nat)
    requires max > 0
    ensures ReleaseAll(OneTaken(max), [max - 1]) == Fresh(max).(compacted := false)
  {
    var e := seq(max - 1, i => i);
    assert e + [max - 1] == seq(max, i => i) && max - 1 !in e;
    assert [max - 1][1..] == [] && {max - 1} - {max - 1} == {};
    var s := Fresh(max).(compacted := false);
    assert ReleaseAll(s, []) == s;
  }

  lemma GoRelease(cfg: Config, reach: State -> bool)
    requires ClosedUnder(cfg, reach) && cfg.max > 0 && reach(Taken(cfg, {}))
    ensures reach(Taken(cfg, {}).(slots := Fresh(cfg.max).(compacted := false), running := false, linked := {}))
  {
    var loc := cfg.max - 1;
    OneElement(loc);
    ReleasedAgain(cfg.max);
    assert {loc} - {loc} == {};
    Go(cfg, reach, Taken(cfg, {}), FinishConsolidate([loc]),
       Taken(cfg, {}).(slots := Fresh(cfg.max).(compacted := false), running := false, linked := {}));
  }

  /** The insert goes on: the frozen point is linked to a slot that is empty. */
  lemma LinksReleasedSlot(cfg: Config, reach: State -> bool) returns (s: State)
    requires ClosedUnder(cfg, reach) && reach(Init(cfg)) && cfg.conc && cfg.max > 0 && cfg.frozen > 0
    ensures reach(s) && !NoDangling(cfg, s)
  {
    TakenWhileLinking(cfg, reach);
    RestEnds(cfg);
    AllSkipped(cfg, reach, cfg.max + cfg.frozen);
    GoRelease(cfg, reach);
    var freed := Taken(cfg, {}).(slots := Fresh(cfg.max).(compacted := false), running := false, linked := {});
    LinkBack(cfg, reach, freed);
    s := freed.(graph := freed.graph[cfg.max := [cfg.max - 1]], tasks := map[0 := Linking(cfg.max - 1, [])]);
    FirstFrozen(cfg);
    assert InUse(cfg, s, cfg.max) && s.graph[cfg.max][0] in ToSet(s.graph[cfg.max]);
    assert NonEmpty(s.slots) == {};
  }

  lemma DanglingRun(cfg: Config) returns (actions: seq<Action>)
    requires cfg.conc && cfg.max > 0 && cfg.frozen > 0
    ensures Run(cfg, actions).Some? && !NoDangling(cfg, Run(cfg, actions).value)
  {
    ReachableClosed(cfg);
    var s := LinksReleasedSlot(cfg, Reachable(cfg));
    actions := RunTo(cfg, s);
  }

  /** A consolidation that starts now reports inconsistent counts. */
  lemma CountErrorReached(cfg: Config) returns (actions: seq<Action>)
    requires cfg.conc && cfg.max > 0 && cfg.frozen > 0
    ensures Run(cfg, actions).Some?
    ensures var s := Run(cfg, actions).value.slots; |s.locToTag| + |s.deleteSet| != s.nd
  {
    ReachableClosed(cfg);
    TakenWhileLinking(cfg, Reachable(cfg));
    actions := RunTo(cfg, Taken(cfg, Below(cfg.max + cfg.frozen)));
  }

  // ---- without one of them, nothing is ever linked ----

  ghost predicate NoLinks(task: Task) {
    match task
    case Searching(_, seen) => seen == {}
    case Pruned(_, links) => links == []
    case Linking(_, back) => back == []
    case Copied(_, _, _, _) => false
  }

  ghost predicate Unlinked(s: State) {
    && (forall u :: 0 <= u < |s.graph| ==> s.graph[u] == [])
    && (forall t :: t in s.tasks ==> NoLinks(s.tasks[t]))
  }

  lemma CompactUnlinked(cfg: Config, s: State, c: Compaction)
    requires SlotsOk(cfg, s) && Unlinked(s) && !s.running && MayCompact(s.slots) && Compacts(cfg, s.slots, s.graph, c)
    ensures forall p :: 0 <= p < |c.graph| ==> c.graph[p] == []
  {
    CompactKeeps(cfg, s.slots, s.graph, c);
    Quiescent(s.slots);
    forall p | 0 <= p < |c.graph| ensures c.graph[p] == [] {
      if !(s.slots.nd <= p < cfg.max) {
        var l := IndexStore.CompactedEntry(s.graph, NoVectors(|c.to|), s.slots.locToTag, s.slots.tagToLoc,
                                           c.graph, NoVectors(|c.to|), c.tags, c.locs, c.to, cfg.max, s.slots.nd, p);
      }
    }
  }

  lemma UnlinkedKept(cfg: Config, s: State, a: Action)
    requires cfg.max == 0 || cfg.frozen == 0
    requires SlotsOk(cfg, s) && Unlinked(s) && Next(cfg, s, a).Some?
    ensures Unlinked(Next(cfg, s, a).value)
  {
    match a
    case Commit => UnlinkedCommit(cfg, s);
    case Prune(t, links) => ToSetEmpty(links);
    case ProcessDelete(loc, result) => ToSetEmpty(s.graph[loc]);
    case Compact(c) => CompactUnlinked(cfg, s, c);
    case _ => UnlinkedElse(cfg, s, a);
  }

  lemma UnlinkedCommit(cfg: Config, s: State)
    requires cfg.max == 0 || cfg.frozen == 0
    requires SlotsOk(cfg, s) && Unlinked(s) && Next(cfg, s, Commit).Some?
    ensures Unlinked(Next(cfg, s, Commit).value)
  {
    var loc := s.slots.pending.value.loc;
    assert Classes(loc, s.slots) == Bit(loc < cfg.max);
    assert FrozenSet(cfg) == {};
  }

  lemma UnlinkedElse(cfg: Config, s: State, a: Action)
    requires Unlinked(s) && Next(cfg, s, a).Some?
    requires !(a.Commit? || a.Prune? || a.ProcessDelete? || a.Compact?)
    ensures Unlinked(Next(cfg, s, a).value)
  {
  }

  lemma {:induction false} AlwaysUnlinked(cfg: Config, actions: seq<Action>)
    requires (cfg.max == 0 || cfg.frozen == 0) && Run(cfg, actions).Some?
    ensures Unlinked(Run(cfg, actions).value)
  {
    if actions != [] {
      var init := actions[..|actions| - 1];
      AlwaysUnlinked(cfg, init);
      SlotsAlwaysPartitioned(cfg, init);
      UnlinkedKept(cfg, Run(cfg, init).value, actions[|actions| - 1]);
    }
  }

  /** The configurations whose runs never have a dangling edge: consolidation takes
      the update lock exclusively, or there is nothing to link. */
  lemma NeverDanglesExactly(cfg: Config)
    ensures (forall actions :: Run(cfg, actions).Some? ==> NoDangling(cfg, Run(cfg, actions).value))
       <==> !cfg.conc || cfg.max == 0 || cfg.frozen == 0
  {
    if !cfg.conc {
      forall actions | Run(cfg, actions).Some? ensures NoDangling(cfg, Run(cfg, actions).value) {
        ExclusiveNeverDangles(cfg, actions);
      }
    } else if cfg.max == 0 || cfg.frozen == 0 {
      forall actions | Run(cfg, actions).Some? ensures NoDangling(cfg, Run(cfg, actions).value) {
        AlwaysUnlinked(cfg, actions);
      }
    } else {
      var actions := DanglingRun(cfg);
    }
  }
}
