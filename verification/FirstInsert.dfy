// src/index.cpp: one insert_point on a fresh index, step by step, for every
// configuration with a slot and a frozen point.

module FirstInsert {
  import opened Wrappers
  import opened Graphs
  import opened SlotMachine
  import opened IndexMachine

  /** The last slot is reserved, and live under tag 1 after the commit. */
  ghost function Reserved(max: nat): Slots
    requires max > 0
  {
    Fresh(max).(empty := seq(max - 1, i => i), nd := 1, pending := Some(Pending(0, max - 1, 1)))
  }

  ghost function OneLive(max: nat): Slots
    requires max > 0
  {
    Fresh(max).(empty := seq(max - 1, i => i), nd := 1, locToTag := map[max - 1 := 1], tagToLoc := map[1 := max - 1])
  }

  ghost function Bare(cfg: Config): Graph {
    seq(cfg.max + cfg.frozen, _ => [])
  }

  /** The list of the new node: its pruned candidates, if they have tags where that
      is asked for. */
  ghost function OwnList(cfg: Config): seq<nat> {
    if cfg.conc then [] else [cfg.max]
  }

  ghost function Searching1(cfg: Config): State
    requires cfg.max > 0
  {
    Init(cfg).(slots := OneLive(cfg.max), tasks := map[0 := Searching(cfg.max - 1, FrozenSet(cfg))])
  }

  /** The pruned list is set; the first frozen point has to be linked back. */
  ghost function Linking1(cfg: Config): State
    requires cfg.max > 0
  {
    State(OneLive(cfg.max), Bare(cfg)[cfg.max - 1 := OwnList(cfg)], map[0 := Linking(cfg.max - 1, [cfg.max])], false, {}, {cfg.max - 1})
  }

  /** New node and first frozen point are linked. */
  ghost function Inserted1(cfg: Config): State
    requires cfg.max > 0 && cfg.frozen > 0
  {
    State(OneLive(cfg.max), Bare(cfg)[cfg.max - 1 := OwnList(cfg)][cfg.max := [cfg.max - 1]], map[], false, {}, {cfg.max - 1})
  }

  lemma FirstFrozen(cfg: Config)
    requires cfg.frozen > 0
    ensures cfg.max in FrozenSet(cfg)
  {
  }

  lemma OneElement(x: nat)
    ensures ToSet([x]) == {x}
  {
    ToSetAppend([], x);
    assert [] + [x] == [x] && ToSet([]) == {};
  }

  lemma GoReserve(cfg: Config, reach: State -> bool)
    requires ClosedUnder(cfg, reach) && reach(Init(cfg)) && cfg.max > 0
    ensures reach(Init(cfg).(slots := Reserved(cfg.max)))
  {
    var m := cfg.max;
    var e := seq(m, i => i);
    assert e[..m - 1] == seq(m - 1, i => i) && e[m - 1] == m - 1 && {} - {m - 1} == {};
    Go(cfg, reach, Init(cfg), Reserve(0, 1), Init(cfg).(slots := Reserved(m)));
  }

  lemma GoCommit(cfg: Config, reach: State -> bool)
    requires ClosedUnder(cfg, reach) && cfg.max > 0 && reach(Init(cfg).(slots := Reserved(cfg.max)))
    ensures reach(Searching1(cfg))
  {
    Go(cfg, reach, Init(cfg).(slots := Reserved(cfg.max)), Commit, Searching1(cfg));
  }

  lemma GoPrune(cfg: Config, reach: State -> bool)
    requires ClosedUnder(cfg, reach) && cfg.max > 0 && cfg.frozen > 0 && reach(Searching1(cfg))
    ensures reach(Searching1(cfg).(tasks := map[0 := Pruned(cfg.max - 1, [cfg.max])]))
  {
    FirstFrozen(cfg);
    OneElement(cfg.max);
    var s := Searching1(cfg);
    assert s.tasks[0 := Pruned(cfg.max - 1, [cfg.max])] == map[0 := Pruned(cfg.max - 1, [cfg.max])];
    Go(cfg, reach, s, Prune(0, [cfg.max]), s.(tasks := map[0 := Pruned(cfg.max - 1, [cfg.max])]));
  }

  lemma GoLink(cfg: Config, reach: State -> bool)
    requires ClosedUnder(cfg, reach) && cfg.max > 0 && cfg.frozen > 0
    requires reach(Searching1(cfg).(tasks := map[0 := Pruned(cfg.max - 1, [cfg.max])]))
    ensures reach(Linking1(cfg))
  {
    var m, s := cfg.max, Searching1(cfg).(tasks := map[0 := Pruned(cfg.max - 1, [cfg.max])]);
    assert Tagged([m], OneLive(m).locToTag) == [] by { assert [m][..0] == []; }
    assert {} + {m - 1} == {m - 1};
    assert s.tasks[0 := Linking(m - 1, [m])] == map[0 := Linking(m - 1, [m])];
    Go(cfg, reach, s, Link(0), Linking1(cfg));
  }

  lemma UpToLink(cfg: Config, reach: State -> bool)
    requires ClosedUnder(cfg, reach) && reach(Init(cfg)) && cfg.max > 0 && cfg.frozen > 0
    ensures reach(Linking1(cfg))
  {
    GoReserve(cfg, reach);
    GoCommit(cfg, reach);
    GoPrune(cfg, reach);
    GoLink(cfg, reach);
  }

  /** inter_insert at a bare list: appended, or copied, pruned and written back. */
  lemma LinkBack(cfg: Config, reach: State -> bool, s: State)
    requires ClosedUnder(cfg, reach) && reach(s) && cfg.max > 0 && cfg.max < |s.graph| && s.graph[cfg.max] == []
    requires s.tasks == map[0 := Linking(cfg.max - 1, [cfg.max])]
    ensures reach(s.(graph := s.graph[cfg.max := [cfg.max - 1]], tasks := map[0 := Linking(cfg.max - 1, [])]))
  {
    var m, loc := cfg.max, cfg.max - 1;
    var s' := s.(graph := s.graph[m := [loc]], tasks := map[0 := Linking(loc, [])]);
    assert [m][1..] == [] && [] + [loc] == [loc];
    if cfg.slack > 0 {
      assert s.tasks[0 := Linking(loc, [])] == map[0 := Linking(loc, [])];
      Go(cfg, reach, s, AddBack(0), s');
    } else {
      var copied := s.(tasks := map[0 := Copied(loc, m, [loc], [])]);
      assert s.tasks[0 := Copied(loc, m, [loc], [])] == copied.tasks;
      Go(cfg, reach, s, AddBack(0), copied);
      OneElement(loc);
      assert copied.tasks[0 := Linking(loc, [])] == map[0 := Linking(loc, [])];
      Go(cfg, reach, copied, SetBack(0, [loc]), s');
    }
  }

  lemma Whole(cfg: Config, reach: State -> bool)
    requires ClosedUnder(cfg, reach) && reach(Init(cfg)) && cfg.max > 0 && cfg.frozen > 0
    ensures reach(Inserted1(cfg))
  {
    UpToLink(cfg, reach);
    LinkBack(cfg, reach, Linking1(cfg));
    var s := Inserted1(cfg).(tasks := map[0 := Linking(cfg.max - 1, [])]);
    assert s.tasks - {0} == map[];
    Go(cfg, reach, s, Finish(0), Inserted1(cfg));
  }

  lemma InsertRun(cfg: Config) returns (actions: seq<Action>)
    requires cfg.max > 0 && cfg.frozen > 0
    ensures Run(cfg, actions) == Some(Inserted1(cfg))
  {
    ReachableClosed(cfg);
    Whole(cfg, Reachable(cfg));
    actions := RunTo(cfg, Inserted1(cfg));
  }
}
