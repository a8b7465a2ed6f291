// src/index.cpp: release_locations leaves the lists of released slots as they are,
// so a reused slot carries its former owner's list until its insert links it.

module FirstLink {
  import opened Wrappers
  import opened Graphs
  import opened SlotMachine
  import opened IndexMachine
  import opened FirstInsert
  import ConcurrentRace
  import IndexStore

  // ---- until its first link, a slot is out of reach ----

  predicate Waits(task: Task) {
    task.Searching? || task.Pruned?
  }

  /** Waiting inserts have slots of their own, and none of them is linked yet. */
  ghost predicate Waiting(tasks: map<nat, Task>, linked: set<nat>) {
    && (forall t :: t in tasks && Waits(tasks[t]) ==> tasks[t].loc !in linked)
    && (forall t, u :: t in tasks && u in tasks && t != u && Waits(tasks[t]) && Waits(tasks[u]) ==> tasks[t].loc != tasks[u].loc)
  }

  /** A task moves on without giving up or taking a slot. */
  lemma WaitingMoves(tasks: map<nat, Task>, linked: set<nat>, t: nat, task: Task)
    requires Waiting(tasks, linked) && t in tasks
    requires Waits(task) ==> Waits(tasks[t]) && task.loc == tasks[t].loc
    ensures Waiting(tasks[t := task], linked)
  {
  }

  lemma WaitingLinks(tasks: map<nat, Task>, linked: set<nat>, t: nat, task: Task)
    requires Waiting(tasks, linked) && t in tasks && Waits(tasks[t]) && !Waits(task)
    ensures Waiting(tasks[t := task], linked + {tasks[t].loc})
  {
  }

  lemma WaitingStarts(tasks: map<nat, Task>, linked: set<nat>, t: nat, task: Task)
    requires Waiting(tasks, linked) && task.loc !in linked
    requires forall u :: u in tasks ==> tasks[u].loc != task.loc
    ensures Waiting(tasks[t := task], linked)
  {
  }

  lemma WaitingCommits(cfg: Config, s: State)
    requires SlotsOk(cfg, s) && EdgeInv(cfg, s) && Waiting(s.tasks, s.linked) && s.slots.pending.Some?
    ensures var p := s.slots.pending.value;
            Waiting(s.tasks[p.task := Searching(p.loc, FrozenSet(cfg))], s.linked)
  {
    var p := s.slots.pending.value;
    PendingApart(s.slots);
    forall t | t in s.tasks ensures s.tasks[t].loc != p.loc {
      assert TaskOk(s.tasks[t], NonEmpty(s.slots), s.linked + FrozenSet(cfg));
    }
    WaitingStarts(s.tasks, s.linked, p.task, Searching(p.loc, FrozenSet(cfg)));
  }

  lemma PendingApart(s: Slots)
    requires SlotInv(s) && s.pending.Some?
    ensures s.pending.value.loc !in NonEmpty(s)
  {
    assert Classes(s.pending.value.loc, s) == Bit(s.pending.value.loc < s.max);
  }

  lemma WaitingKept(cfg: Config, s: State, a: Action)
    requires !cfg.conc && SlotsOk(cfg, s) && EdgeInv(cfg, s) && Waiting(s.tasks, s.linked) && Next(cfg, s, a).Some?
    ensures var s' := Next(cfg, s, a).value; Waiting(s'.tasks, s'.linked)
  {
    if a.Commit? {
      WaitingCommits(cfg, s);
    } else if a.Search? || a.Prune? || a.Link? || a.AddBack? || a.SetBack? || a.Finish? {
      WaitingTask(cfg, s, a);
    } else {
      NoTaskMoves(cfg, s, a);
    }
  }

  lemma WaitingTask(cfg: Config, s: State, a: Action)
    requires !cfg.conc && Waiting(s.tasks, s.linked) && Next(cfg, s, a).Some?
    requires a.Search? || a.Prune? || a.Link? || a.AddBack? || a.SetBack? || a.Finish?
    ensures var s' := Next(cfg, s, a).value; Waiting(s'.tasks, s'.linked)
  {
    if !a.Finish? {
      var task := Next(cfg, s, a).value.tasks[a.task];
      if a.Link? {
        WaitingLinks(s.tasks, s.linked, a.task, task);
      } else {
        WaitingMoves(s.tasks, s.linked, a.task, task);
      }
    }
  }

  lemma NoTaskMoves(cfg: Config, s: State, a: Action)
    requires Waiting(s.tasks, s.linked) && Next(cfg, s, a).Some?
    requires a.Reserve? || a.LazyDelete? || a.StartConsolidate? || a.ProcessDelete? || a.FinishConsolidate? || a.Compact?
    ensures var s' := Next(cfg, s, a).value; Waiting(s'.tasks, s'.linked)
  {
  }

  lemma {:induction false} AlwaysWaiting(cfg: Config, actions: seq<Action>)
    requires !cfg.conc && Run(cfg, actions).Some?
    ensures Waiting(Run(cfg, actions).value.tasks, Run(cfg, actions).value.linked)
  {
    if actions != [] {
      var init := actions[..|actions| - 1];
      AlwaysWaiting(cfg, init);
      SlotsAlwaysPartitioned(cfg, init);
      EdgesAlwaysWired(cfg, init);
      WaitingKept(cfg, Run(cfg, init).value, actions[|actions| - 1]);
    }
  }

  /** In an exclusive run a reused slot has no incoming edge until its insert has
      linked it, so no search ever follows the list it inherited. */
  lemma WaitingSlotIsUnreferenced(cfg: Config, actions: seq<Action>, u: nat, v: nat)
    requires !cfg.conc && Run(cfg, actions).Some?
    requires var s := Run(cfg, actions).value; InUse(cfg, s, u) && u < |s.graph| && v < cfg.max && AwaitsLink(s.tasks, v)
    ensures v !in Run(cfg, actions).value.graph[u]
  {
    var s := Run(cfg, actions).value;
    EdgesAlwaysWired(cfg, actions);
    AlwaysWaiting(cfg, actions);
    assert u in Targets(cfg, s) && v !in Targets(cfg, s);
    Listed(s.graph[u], v);
  }

  lemma Listed(list: seq<nat>, v: nat)
    ensures v in list <==> v in ToSet(list)
  {
  }

  // ---- but the inherited list itself may dangle ----

  /** A slot in use names an empty one. */
  ghost predicate InUseDangles(cfg: Config, s: State, u: nat) {
    u in NonEmpty(s.slots) && u < |s.graph| && !(ToSet(s.graph[u]) <= FrozenSet(cfg) + NonEmpty(s.slots))
  }

  ghost function TwoLive(max: nat): Slots
    requires max >= 2
  {
    Fresh(max).(empty := seq(max - 2, i => i), nd := 2,
                locToTag := map[max - 1 := 1, max - 2 := 2], tagToLoc := map[1 := max - 1, 2 := max - 2])
  }

  ghost function TwoTaken(max: nat): Slots
    requires max >= 2
  {
    Fresh(max).(empty := seq(max - 2, i => i), nd := 2, taken := {max - 1, max - 2}, compacted := false)
  }

  /** Slot max - 2 refers to slot max - 1, the first frozen point too. */
  ghost function Linked(cfg: Config, x: seq<nat>): Graph
    requires cfg.max >= 2 && cfg.frozen > 0
  {
    Bare(cfg)[cfg.max - 2 := [cfg.max - 1]][cfg.max - 1 := x][cfg.max := [cfg.max - 1]]
  }

  /** The second insert past its commit, with its task. */
  ghost function Second(cfg: Config, g: Graph, task: Task, linked: set<nat>): State
    requires cfg.max >= 2
  {
    State(TwoLive(cfg.max), g, map[0 := task], false, {}, linked)
  }

  lemma GoSecond(cfg: Config, reach: State -> bool)
    requires ClosedUnder(cfg, reach) && cfg.max >= 2 && cfg.frozen > 0 && reach(Inserted1(cfg))
    ensures reach(Second(cfg, Inserted1(cfg).graph, Searching(cfg.max - 2, FrozenSet(cfg)), {cfg.max - 1}))
  {
    var m, loc, s := cfg.max, cfg.max - 2, Inserted1(cfg);
    var e := seq(m - 1, i => i);
    assert e[..m - 2] == seq(m - 2, i => i) && e[m - 2] == loc && {} - {loc} == {};
    var reserved := s.(slots := s.slots.(empty := seq(m - 2, i => i), nd := 2, pending := Some(Pending(0, loc, 2))));
    Go(cfg, reach, s, Reserve(0, 2), reserved);
    Go(cfg, reach, reserved, Commit, Second(cfg, s.graph, Searching(loc, FrozenSet(cfg)), {m - 1}));
  }

  /** Its search sees the first one's node. */
  lemma GoSearch(cfg: Config, reach: State -> bool, g: Graph)
    requires ClosedUnder(cfg, reach) && cfg.max >= 2 && cfg.frozen > 0 && cfg.max < |g| && g[cfg.max] == [cfg.max - 1]
    requires reach(Second(cfg, g, Searching(cfg.max - 2, FrozenSet(cfg)), {cfg.max - 1}))
    ensures reach(Second(cfg, g, Searching(cfg.max - 2, FrozenSet(cfg) + {cfg.max - 1}), {cfg.max - 1}))
  {
    var s := Second(cfg, g, Searching(cfg.max - 2, FrozenSet(cfg)), {cfg.max - 1});
    var task := Searching(cfg.max - 2, FrozenSet(cfg) + {cfg.max - 1});
    FirstFrozen(cfg);
    OneElement(cfg.max - 1);
    assert s.tasks[0 := task] == map[0 := task];
    Go(cfg, reach, s, Search(0, cfg.max), Second(cfg, g, task, {cfg.max - 1}));
  }

  lemma GoPrune2(cfg: Config, reach: State -> bool, g: Graph)
    requires ClosedUnder(cfg, reach) && cfg.max >= 2
    requires reach(Second(cfg, g, Searching(cfg.max - 2, FrozenSet(cfg) + {cfg.max - 1}), {cfg.max - 1}))
    ensures reach(Second(cfg, g, Pruned(cfg.max - 2, [cfg.max - 1]), {cfg.max - 1}))
  {
    var s := Second(cfg, g, Searching(cfg.max - 2, FrozenSet(cfg) + {cfg.max - 1}), {cfg.max - 1});
    var task := Pruned(cfg.max - 2, [cfg.max - 1]);
    OneElement(cfg.max - 1);
    assert s.tasks[0 := task] == map[0 := task];
    Go(cfg, reach, s, Prune(0, [cfg.max - 1]), Second(cfg, g, task, {cfg.max - 1}));
  }

  lemma GoLink2(cfg: Config, reach: State -> bool, g: Graph)
    requires ClosedUnder(cfg, reach) && !cfg.conc && cfg.max >= 2 && cfg.max < |g|
    requires reach(Second(cfg, g, Pruned(cfg.max - 2, [cfg.max - 1]), {cfg.max - 1}))
    ensures reach(Second(cfg, g[cfg.max - 2 := [cfg.max - 1]], Linking(cfg.max - 2, [cfg.max - 1]), {cfg.max - 1, cfg.max - 2}))
  {
    var s := Second(cfg, g, Pruned(cfg.max - 2, [cfg.max - 1]), {cfg.max - 1});
    var task := Linking(cfg.max - 2, [cfg.max - 1]);
    assert s.tasks[0 := task] == map[0 := task] && {cfg.max - 1} + {cfg.max - 2} == {cfg.max - 1, cfg.max - 2};
    Go(cfg, reach, s, Link(0), Second(cfg, g[cfg.max - 2 := [cfg.max - 1]], task, {cfg.max - 1, cfg.max - 2}));
  }

  /** The way back: slot max - 1 is appended to, or copied and pruned to nothing. */
  lemma GoBack2(cfg: Config, reach: State -> bool, g: Graph, linked: set<nat>) returns (x: seq<nat>)
    requires ClosedUnder(cfg, reach) && cfg.max >= 2 && cfg.max < |g| && g[cfg.max - 1] == [cfg.max]
    requires reach(Second(cfg, g, Linking(cfg.max - 2, [cfg.max - 1]), linked))
    ensures ToSet(x) <= {cfg.max, cfg.max - 2}
    ensures reach(Second(cfg, g[cfg.max - 1 := x], Linking(cfg.max - 2, []), linked))
  {
    var m, loc := cfg.max, cfg.max - 2;
    var s := Second(cfg, g, Linking(loc, [m - 1]), linked);
    assert [m] + [loc] == [m, loc] && [m - 1][1..] == [];
    OneElement(m);
    ToSetAppend([m], loc);
    if cfg.slack > 1 {
      x := [m, loc];
      assert s.tasks[0 := Linking(loc, [])] == map[0 := Linking(loc, [])];
      Go(cfg, reach, s, AddBack(0), Second(cfg, g[m - 1 := x], Linking(loc, []), linked));
    } else {
      x := [];
      ToSetEmpty(x);
      var copied := Second(cfg, g, Copied(loc, m - 1, [m, loc], []), linked);
      assert s.tasks[0 := Copied(loc, m - 1, [m, loc], [])] == copied.tasks;
      Go(cfg, reach, s, AddBack(0), copied);
      assert copied.tasks[0 := Linking(loc, [])] == map[0 := Linking(loc, [])];
      Go(cfg, reach, copied, SetBack(0, []), Second(cfg, g[m - 1 := x], Linking(loc, []), linked));
    }
  }

  ghost function Both(cfg: Config, slots: Slots, x: seq<nat>): State
    requires cfg.max >= 2 && cfg.frozen > 0
  {
    State(slots, Linked(cfg, x), map[], false, {}, {cfg.max - 1, cfg.max - 2})
  }

  lemma SecondInsert(cfg: Config, reach: State -> bool) returns (x: seq<nat>)
    requires ClosedUnder(cfg, reach) && reach(Init(cfg)) && !cfg.conc && cfg.max >= 2 && cfg.frozen > 0
    ensures ToSet(x) <= {cfg.max, cfg.max - 2} && reach(Both(cfg, TwoLive(cfg.max), x))
  {
    var g, linked := Inserted1(cfg).graph, {cfg.max - 1, cfg.max - 2};
    Whole(cfg, reach);
    GoSecond(cfg, reach);
    GoSearch(cfg, reach, g);
    GoPrune2(cfg, reach, g);
    GoLink2(cfg, reach, g);
    var g1 := g[cfg.max - 2 := [cfg.max - 1]];
    x := GoBack2(cfg, reach, g1, linked);
    assert g1[cfg.max - 1 := x] == Linked(cfg, x);
    GoFinish2(cfg, reach, x);
  }

  lemma GoFinish2(cfg: Config, reach: State -> bool, x: seq<nat>)
    requires ClosedUnder(cfg, reach) && cfg.max >= 2 && cfg.frozen > 0
    requires reach(Second(cfg, Linked(cfg, x), Linking(cfg.max - 2, []), {cfg.max - 1, cfg.max - 2}))
    ensures reach(Both(cfg, TwoLive(cfg.max), x))
  {
    var s := Second(cfg, Linked(cfg, x), Linking(cfg.max - 2, []), {cfg.max - 1, cfg.max - 2});
    assert s.tasks - {0} == map[];
    Go(cfg, reach, s, Finish(0), Both(cfg, TwoLive(cfg.max), x));
  }

  ghost function Consolidating(cfg: Config, g: Graph, todo: set<nat>): State
    requires cfg.max >= 2
  {
    State(TwoTaken(cfg.max), g, map[], true, todo, {cfg.max - 1, cfg.max - 2})
  }

  /** Both are deleted, and a consolidation takes them. */
  lemma BothTaken(cfg: Config, reach: State -> bool, x: seq<nat>)
    requires ClosedUnder(cfg, reach) && !cfg.conc && cfg.max >= 2 && cfg.frozen > 0 && reach(Both(cfg, TwoLive(cfg.max), x))
    ensures reach(Consolidating(cfg, Linked(cfg, x), Below(cfg.max + cfg.frozen)))
  {
    var m := cfg.max;
    var one := TwoLive(m).(deleteSet := {m - 1}, locToTag := map[m - 2 := 2], tagToLoc := map[2 := m - 2], compacted := false);
    var two := TwoTaken(m).(deleteSet := {m - 1, m - 2}, taken := {});
    GoDeleteOne(cfg, reach, x, one);
    GoDeleteTwo(cfg, reach, x, one, two);
    ConcurrentRace.GoStart(cfg, reach, Both(cfg, two, x));
  }

  lemma GoDeleteOne(cfg: Config, reach: State -> bool, x: seq<nat>, one: Slots)
    requires ClosedUnder(cfg, reach) && !cfg.conc && cfg.max >= 2 && cfg.frozen > 0 && reach(Both(cfg, TwoLive(cfg.max), x))
    requires one == TwoLive(cfg.max).(deleteSet := {cfg.max - 1}, locToTag := map[cfg.max - 2 := 2], tagToLoc := map[2 := cfg.max - 2], compacted := false)
    ensures reach(Both(cfg, one, x))
  {
    var m := cfg.max;
    var tags, locs := map[m - 1 := 1, m - 2 := 2], map[1 := m - 1, 2 := m - 2];
    assert {} + {m - 1} == {m - 1} && tags - {m - 1} == map[m - 2 := 2] && locs - {1} == map[2 := m - 2];
    Go(cfg, reach, Both(cfg, TwoLive(m), x), LazyDelete(1), Both(cfg, one, x));
  }

  lemma GoDeleteTwo(cfg: Config, reach: State -> bool, x: seq<nat>, one: Slots, two: Slots)
    requires ClosedUnder(cfg, reach) && !cfg.conc && cfg.max >= 2 && cfg.frozen > 0 && reach(Both(cfg, one, x))
    requires one == TwoLive(cfg.max).(deleteSet := {cfg.max - 1}, locToTag := map[cfg.max - 2 := 2], tagToLoc := map[2 := cfg.max - 2], compacted := false)
    requires two == TwoTaken(cfg.max).(deleteSet := {cfg.max - 1, cfg.max - 2}, taken := {})
    ensures reach(Both(cfg, two, x))
  {
    var m := cfg.max;
    assert {m - 1} + {m - 2} == {m - 1, m - 2} && map[m - 2 := 2] - {m - 2} == map[] && map[2 := m - 2] - {2} == map[];
    Go(cfg, reach, Both(cfg, one, x), LazyDelete(2), Both(cfg, two, x));
  }

  /** The lists while the loop is at node k: the frozen point has lost its edge once
      the loop has passed it. */
  ghost function ListsAt(cfg: Config, x: seq<nat>, k: nat): Graph
    requires cfg.max >= 2 && cfg.frozen > 0
  {
    if k > cfg.max then Linked(cfg, x)[cfg.max := []] else Linked(cfg, x)
  }

  /** The loop has come to node k. */
  ghost predicate AtNode(cfg: Config, reach: State -> bool, x: seq<nat>, k: nat) {
    cfg.max >= 2 && cfg.frozen > 0 && reach(Consolidating(cfg, ListsAt(cfg, x, k), ConcurrentRace.Rest(cfg, k)))
  }

  lemma GoProcess(cfg: Config, reach: State -> bool, x: seq<nat>, u: nat, k: nat)
    requires ClosedUnder(cfg, reach) && ToSet(x) <= {cfg.max, cfg.max - 2} && u < cfg.max + cfg.frozen && k == u + 1
    requires AtNode(cfg, reach, x, u)
    ensures AtNode(cfg, reach, x, k)
  {
    ConcurrentRace.RestStep(cfg, u);
    if u == cfg.max {
      GoRepair(cfg, reach, x, ConcurrentRace.Rest(cfg, u));
    } else {
      BareElsewhere(cfg, x, u);
      GoPass(cfg, reach, ListsAt(cfg, x, u), ConcurrentRace.Rest(cfg, u), u);
    }
  }

  lemma BareElsewhere(cfg: Config, x: seq<nat>, k: nat)
    requires cfg.max >= 2 && cfg.frozen > 0 && k < cfg.max + cfg.frozen && k != cfg.max
    ensures |ListsAt(cfg, x, k)| == cfg.max + cfg.frozen && ListsAt(cfg, x, k + 1) == ListsAt(cfg, x, k)
    ensures k == cfg.max - 1 || k == cfg.max - 2 || ListsAt(cfg, x, k)[k] == []
  {
  }

  /** A deleted node, or one with a bare list. */
  lemma GoPass(cfg: Config, reach: State -> bool, g: Graph, todo: set<nat>, u: nat)
    requires ClosedUnder(cfg, reach) && cfg.max >= 2 && u in todo && u < |g| && reach(Consolidating(cfg, g, todo))
    requires u == cfg.max - 1 || u == cfg.max - 2 || g[u] == []
    ensures reach(Consolidating(cfg, g, todo - {u}))
  {
    var s := Consolidating(cfg, g, todo);
    ToSetEmpty(g[u]);
    assert u < cfg.max ==> Tested(s.slots, u) == s.slots;
    Go(cfg, reach, s, ProcessDelete(u, []), Consolidating(cfg, g, todo - {u}));
  }

  /** The frozen point loses its only edge. */
  lemma GoRepair(cfg: Config, reach: State -> bool, x: seq<nat>, todo: set<nat>)
    requires ClosedUnder(cfg, reach) && cfg.max >= 2 && cfg.frozen > 0 && ToSet(x) <= {cfg.max, cfg.max - 2}
    requires cfg.max in todo && reach(Consolidating(cfg, Linked(cfg, x), todo))
    ensures reach(Consolidating(cfg, Linked(cfg, x)[cfg.max := []], todo - {cfg.max}))
  {
    var s, u := Consolidating(cfg, Linked(cfg, x), todo), cfg.max;
    ToSetEmpty([]);
    OneElement(cfg.max - 1);
    assert s.graph[u] == [cfg.max - 1] && s.graph[cfg.max - 1] == x && cfg.max - 1 in ToSet(s.graph[u]);
    NothingExpanded(s.graph, s.slots.taken, u, cfg.max - 1);
    Go(cfg, reach, s, ProcessDelete(u, []), Consolidating(cfg, Linked(cfg, x)[cfg.max := []], todo - {u}));
  }

  /** The only neighbour is deleted and names deleted nodes and `u` alone. */
  lemma NothingExpanded(g: Graph, taken: set<nat>, u: nat, v: nat)
    requires u < |g| && v < |g| && ToSet(g[u]) == {v} && v in taken && ToSet(g[v]) <= taken + {u}
    ensures Expanded(g, taken, u) == {}
  {
  }

  lemma {:induction false} AllProcessed(cfg: Config, reach: State -> bool, x: seq<nat>, k: nat)
    requires ClosedUnder(cfg, reach) && ToSet(x) <= {cfg.max, cfg.max - 2} && AtNode(cfg, reach, x, 0) && k <= cfg.max + cfg.frozen
    ensures AtNode(cfg, reach, x, k)
  {
    if k > 0 {
      var u: nat := k - 1;
      AllProcessed(cfg, reach, x, u);
      GoProcess(cfg, reach, x, u, k);
    }
  }

  lemma LoopStarts(cfg: Config, reach: State -> bool, x: seq<nat>)
    requires cfg.max >= 2 && cfg.frozen > 0 && reach(Consolidating(cfg, Linked(cfg, x), Below(cfg.max + cfg.frozen)))
    ensures AtNode(cfg, reach, x, 0)
  {
    ConcurrentRace.RestEnds(cfg);
  }

  lemma LoopEnds(cfg: Config, reach: State -> bool, x: seq<nat>)
    requires AtNode(cfg, reach, x, cfg.max + cfg.frozen)
    ensures reach(Consolidating(cfg, Linked(cfg, x)[cfg.max := []], {}))
  {
    ConcurrentRace.RestEnds(cfg);
  }

  ghost function Freed(max: nat): Slots
    requires max >= 2
  {
    Fresh(max).(empty := seq(max - 2, i => i) + [max - 1] + [max - 2], compacted := false)
  }

  lemma BothReleased(max: nat)
    requires max >= 2
    ensures ReleaseAll(TwoTaken(max), [max - 1, max - 2]) == Freed(max)
  {
    var e, order := seq(max - 2, i => i), [max - 1, max - 2];
    assert order[1..] == [max - 2] && [max - 2][1..] == [];
    var one := TwoTaken(max).(empty := e + [max - 1], nd := 1, taken := {max - 2});
    assert {max - 1, max - 2} - {max - 1} == {max - 2} && {max - 2} - {max - 2} == {};
    assert max - 2 !in e + [max - 1];
    assert ReleaseAll(Freed(max), []) == Freed(max);
    assert ReleaseAll(one, [max - 2]) == Freed(max);
  }

  lemma TwoElements(x: nat, y: nat)
    requires x != y
    ensures Distinct([x, y]) && ToSet([x, y]) == {x, y}
  {
    OneElement(x);
    ToSetAppend([x], y);
    assert [x] + [y] == [x, y];
  }

  lemma GoRelease2(cfg: Config, reach: State -> bool, g: Graph)
    requires ClosedUnder(cfg, reach) && cfg.max >= 2 && reach(Consolidating(cfg, g, {}))
    ensures reach(State(Freed(cfg.max), g, map[], false, {}, {}))
  {
    var m := cfg.max;
    BothReleased(m);
    TwoElements(m - 1, m - 2);
    assert {m - 1, m - 2} - {m - 1, m - 2} == {};
    Go(cfg, reach, Consolidating(cfg, g, {}), FinishConsolidate([m - 1, m - 2]), State(Freed(m), g, map[], false, {}, {}));
  }

  lemma GoReuse(cfg: Config, reach: State -> bool, g: Graph) returns (s: State)
    requires ClosedUnder(cfg, reach) && !cfg.conc && cfg.max >= 2 && reach(State(Freed(cfg.max), g, map[], false, {}, {}))
    ensures reach(s) && s.graph == g && NonEmpty(s.slots) == {cfg.max - 2}
  {
    var m := cfg.max;
    var e, start := seq(m - 2, i => i) + [m - 1], State(Freed(m), g, map[], false, {}, {});
    assert Freed(m).empty[..m - 1] == e && {} - {m - 2} == {};
    var reserved := start.(slots := Freed(m).(empty := e, nd := 1, pending := Some(Pending(0, m - 2, 3))));
    Go(cfg, reach, start, Reserve(0, 3), reserved);
    var slots := reserved.slots.(pending := None, locToTag := map[m - 2 := 3], tagToLoc := map[3 := m - 2]);
    s := reserved.(slots := slots, tasks := map[0 := Searching(m - 2, FrozenSet(cfg))]);
    Go(cfg, reach, reserved, Commit, s);
  }

  /** Slot max - 2 is used again while slot max - 1, which it names, is empty. */
  lemma ReusedWithStaleList(cfg: Config, reach: State -> bool) returns (s: State)
    requires ClosedUnder(cfg, reach) && reach(Init(cfg)) && !cfg.conc && cfg.max >= 2 && cfg.frozen > 0
    ensures reach(s) && InUseDangles(cfg, s, cfg.max - 2)
  {
    var x := SecondInsert(cfg, reach);
    BothTaken(cfg, reach, x);
    LoopStarts(cfg, reach, x);
    AllProcessed(cfg, reach, x, cfg.max + cfg.frozen);
    LoopEnds(cfg, reach, x);
    s := ReleasedAndReused(cfg, reach, x);
  }

  lemma ReleasedAndReused(cfg: Config, reach: State -> bool, x: seq<nat>) returns (s: State)
    requires ClosedUnder(cfg, reach) && !cfg.conc && cfg.max >= 2 && cfg.frozen > 0
    requires reach(Consolidating(cfg, Linked(cfg, x)[cfg.max := []], {}))
    ensures reach(s) && InUseDangles(cfg, s, cfg.max - 2)
  {
    var g := Linked(cfg, x)[cfg.max := []];
    GoRelease2(cfg, reach, g);
    s := GoReuse(cfg, reach, g);
    assert g[cfg.max - 2] == [cfg.max - 1] && g[cfg.max - 2][0] in ToSet(g[cfg.max - 2]);
  }

  lemma StaleRun(cfg: Config) returns (actions: seq<Action>)
    requires !cfg.conc && cfg.max >= 2 && cfg.frozen > 0
    ensures Run(cfg, actions).Some? && InUseDangles(cfg, Run(cfg, actions).value, cfg.max - 2)
  {
    ReachableClosed(cfg);
    var s := ReusedWithStaleList(cfg, Reachable(cfg));
    actions := RunTo(cfg, s);
  }

  // ---- with a single slot there is nothing stale to name ----

  lemma RangeKept(cfg: Config, s: State, a: Action)
    requires !cfg.conc && SlotsOk(cfg, s) && EdgeInv(cfg, s) && Next(cfg, s, a).Some?
    requires IndexStore.InRange(s.graph, cfg.max + cfg.frozen)
    ensures IndexStore.InRange(Next(cfg, s, a).value.graph, cfg.max + cfg.frozen)
  {
    if a.Link? || a.AddBack? || a.SetBack? {
      TaskBelow(cfg, s, a.task);
      RangeTask(cfg, s, a);
    } else if a.ProcessDelete? {
      RangeProcess(cfg, s, a);
    } else if a.Compact? {
      RangeCompact(cfg, s, a);
    } else {
      SameGraph(cfg, s, a);
    }
  }

  lemma SameGraph(cfg: Config, s: State, a: Action)
    requires Next(cfg, s, a).Some? && !(a.Link? || a.AddBack? || a.SetBack? || a.ProcessDelete? || a.Compact?)
    ensures Next(cfg, s, a).value.graph == s.graph
  {
  }

  lemma RangeProcess(cfg: Config, s: State, a: Action)
    requires Next(cfg, s, a).Some? && a.ProcessDelete? && IndexStore.InRange(s.graph, cfg.max + cfg.frozen)
    ensures IndexStore.InRange(Next(cfg, s, a).value.graph, cfg.max + cfg.frozen)
  {
    ProcessedInRange(s.graph, s.slots.taken, a.loc, a.result, cfg.max + cfg.frozen);
  }

  lemma RangeTask(cfg: Config, s: State, a: Action)
    requires !cfg.conc && Next(cfg, s, a).Some? && (a.Link? || a.AddBack? || a.SetBack?)
    requires var n, task := cfg.max + cfg.frozen, s.tasks[a.task];
             && task.loc < n && (task.Pruned? ==> ToSet(task.links) <= Below(n)) && (task.Copied? ==> ToSet(task.copy) <= Below(n))
    requires IndexStore.InRange(s.graph, cfg.max + cfg.frozen)
    ensures IndexStore.InRange(Next(cfg, s, a).value.graph, cfg.max + cfg.frozen)
  {
    var n, task := cfg.max + cfg.frozen, s.tasks[a.task];
    if a.Link? {
      InRangeUpdate(s.graph, n, task.loc, task.links);
    } else if a.SetBack? {
      InRangeUpdate(s.graph, n, task.des, a.kept);
    } else {
      AppendBelow(s.graph, n, task.back[0], task.loc);
    }
  }

  /** What an insert holds is in range. */
  lemma TaskBelow(cfg: Config, s: State, t: nat)
    requires EdgeInv(cfg, s) && t in s.tasks
    ensures s.tasks[t].loc < cfg.max + cfg.frozen
    ensures s.tasks[t].Pruned? ==> ToSet(s.tasks[t].links) <= Below(cfg.max + cfg.frozen)
    ensures s.tasks[t].Copied? ==> ToSet(s.tasks[t].copy) <= Below(cfg.max + cfg.frozen)
  {
    assert TaskOk(s.tasks[t], NonEmpty(s.slots), s.linked + FrozenSet(cfg));
  }

  lemma InRangeUpdate(g: Graph, n: nat, u: nat, list: seq<nat>)
    requires IndexStore.InRange(g, n) && u < |g| && ToSet(list) <= Below(n)
    ensures IndexStore.InRange(g[u := list], n)
  {
    InRangeList(list, n);
  }

  lemma AppendBelow(g: Graph, n: nat, u: nat, v: nat)
    requires IndexStore.InRange(g, n) && u < |g| && v < n
    ensures IndexStore.InRange(g[u := g[u] + [v]], n)
  {
    assert IndexStore.ListBelow(g[u], n);
  }

  lemma RangeCompact(cfg: Config, s: State, a: Action)
    requires SlotsOk(cfg, s) && a.Compact? && Next(cfg, s, a).Some?
    ensures IndexStore.InRange(Next(cfg, s, a).value.graph, cfg.max + cfg.frozen)
  {
    var c := a.packed;
    Quiescent(s.slots);
    forall p | 0 <= p < |c.graph| ensures IndexStore.ListBelow(c.graph[p], cfg.max + cfg.frozen) {
      IndexStore.CompactionPacks(s.graph, NoVectors(|c.to|), s.slots.locToTag, s.slots.tagToLoc,
                                 c.graph, NoVectors(|c.to|), c.tags, c.locs, c.to, cfg.max, s.slots.nd, p);
    }
  }

  lemma InRangeList(list: seq<nat>, n: nat)
    requires ToSet(list) <= Below(n)
    ensures IndexStore.ListBelow(list, n)
  {
    forall i | 0 <= i < |list| ensures list[i] < n {
      assert list[i] in ToSet(list);
    }
  }

  lemma ProcessedInRange(g: Graph, taken: set<nat>, loc: nat, result: seq<nat>, n: nat)
    requires IndexStore.InRange(g, n) && loc < |g|
    ensures ToSet(result) <= Expanded(g, taken, loc) ==> IndexStore.ListBelow(result, n)
  {
    if ToSet(result) <= Expanded(g, taken, loc) {
      forall v | v in Expanded(g, taken, loc) ensures v < n {
        assert forall u :: 0 <= u < |g| ==> IndexStore.ListBelow(g[u], n);
      }
      InRangeList(result, n);
    }
  }

  lemma {:induction false} AlwaysInRange(cfg: Config, actions: seq<Action>)
    requires !cfg.conc && Run(cfg, actions).Some?
    ensures IndexStore.InRange(Run(cfg, actions).value.graph, cfg.max + cfg.frozen)
  {
    if actions != [] {
      var init := actions[..|actions| - 1];
      AlwaysInRange(cfg, init);
      SlotsAlwaysPartitioned(cfg, init);
      EdgesAlwaysWired(cfg, init);
      RangeKept(cfg, Run(cfg, init).value, actions[|actions| - 1]);
    }
  }

  lemma NothingStale(cfg: Config, actions: seq<Action>, u: nat)
    requires !cfg.conc && (cfg.max <= 1 || cfg.frozen == 0) && Run(cfg, actions).Some?
    ensures !InUseDangles(cfg, Run(cfg, actions).value, u)
  {
    var s := Run(cfg, actions).value;
    if cfg.max == 0 || cfg.frozen == 0 {
      ConcurrentRace.AlwaysUnlinked(cfg, actions);
    } else {
      SlotsAlwaysPartitioned(cfg, actions);
      AlwaysInRange(cfg, actions);
      OneSlotFine(cfg, s, u);
    }
  }

  lemma OneSlotFine(cfg: Config, s: State, u: nat)
    requires cfg.max == 1 && SlotsOk(cfg, s) && IndexStore.InRange(s.graph, cfg.max + cfg.frozen)
    ensures !InUseDangles(cfg, s, u)
  {
    if u in NonEmpty(s.slots) && u < |s.graph| {
      assert Classes(u, s.slots) == Bit(u < s.slots.max);
      assert IndexStore.ListBelow(s.graph[u], cfg.max + cfg.frozen);
    }
  }

  /** With exclusive consolidation, a slot in use can have a dangling edge exactly in
      configurations with two slots and a frozen point, and then only a slot whose
      insert has not linked it yet. */
  lemma StaleExactly(cfg: Config)
    requires !cfg.conc
    ensures (exists actions, u: nat :: Run(cfg, actions).Some? && InUseDangles(cfg, Run(cfg, actions).value, u))
       <==> cfg.max >= 2 && cfg.frozen > 0
    ensures forall actions, u: nat :: Run(cfg, actions).Some? && InUseDangles(cfg, Run(cfg, actions).value, u)
                                      ==> AwaitsLink(Run(cfg, actions).value.tasks, u)
  {
    if cfg.max >= 2 && cfg.frozen > 0 {
      var actions := StaleRun(cfg);
    } else {
      forall actions, u: nat | Run(cfg, actions).Some? ensures !InUseDangles(cfg, Run(cfg, actions).value, u) {
        NothingStale(cfg, actions, u);
      }
    }
    forall actions, u: nat | Run(cfg, actions).Some? && InUseDangles(cfg, Run(cfg, actions).value, u)
      ensures AwaitsLink(Run(cfg, actions).value.tasks, u)
    {
      ExclusiveNeverDangles(cfg, actions);
    }
  }
}
