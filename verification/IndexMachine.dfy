// src/index.cpp: insert_point, inter_insert, lazy_delete, process_delete and
// consolidate_deletes of a dynamic index, as interleaved atomic steps.

module IndexMachine {
  import opened Wrappers
  import opened Graphs
  import opened SlotMachine
  import IndexStore

  /** `conc` is _conc_consolidate; `slack` is the list length at which
      inter_insert prunes instead of appending; `range` the degree bound. */
  datatype Config = Config(max: nat, frozen: nat, conc: bool, slack: nat, range: nat)

  /** An insert past its locked region. */
  datatype Task =
    | Searching(loc: nat, seen: set<nat>)
    | Pruned(loc: nat, links: seq<nat>)
    | Linking(loc: nat, back: seq<nat>)
    | Copied(loc: nat, des: nat, copy: seq<nat>, back: seq<nat>)

  /** `linked` records which slots have had their first list set since they were
      reserved; no step looks at it. */
  datatype State = State(slots: Slots, graph: Graph, tasks: map<nat, Task>, running: bool, todo: set<nat>, linked: set<nat>)

  /** What compact_data leaves: lists, both tag maps and the relocation. */
  datatype Compaction = Compaction(graph: Graph, tags: map<nat, nat>, locs: map<nat, nat>, to: seq<nat>)

  datatype Action =
    | Reserve(task: nat, tag: nat)
    | Commit
    | Search(task: nat, node: nat)
    | Prune(task: nat, links: seq<nat>)
    | Link(task: nat)
    | AddBack(task: nat)
    | SetBack(task: nat, kept: seq<nat>)
    | Finish(task: nat)
    | LazyDelete(tag: nat)
    | StartConsolidate
    | ProcessDelete(loc: nat, result: seq<nat>)
    | FinishConsolidate(order: seq<nat>)
    | Compact(packed: Compaction)

  function Init(cfg: Config): State {
    State(Fresh(cfg.max), seq(cfg.max + cfg.frozen, _ => []), map[], false, {}, {})
  }

  ghost function FrozenSet(cfg: Config): set<nat> {
    Below(cfg.max + cfg.frozen) - Below(cfg.max)
  }

  /** The surviving neighbours of `loc` and of its deleted neighbours. */
  ghost function Expanded(g: Graph, taken: set<nat>, loc: nat): set<nat>
    requires loc < |g|
  {
    (ToSet(g[loc]) - taken)
    + (set n, j | n in ToSet(g[loc]) * taken && 0 <= n < |g| && j in ToSet(g[n]) && j != loc && j !in taken :: j)
  }

  ghost function Tagged(links: seq<nat>, tags: map<nat, nat>): (r: seq<nat>)
    ensures ToSet(r) <= ToSet(links)
  {
    if links == [] then []
    else
      var init, last := links[..|links| - 1], links[|links| - 1];
      assert links == init + [last];
      ToSetAppend(init, last);
      ToSetAppend(Tagged(init, tags), last);
      if last in tags then Tagged(init, tags) + [last] else Tagged(init, tags)
  }

  /** Shared update lock: an exclusive consolidation keeps everyone else out. */
  predicate Open(cfg: Config, s: State) {
    cfg.conc || !s.running
  }

  /** One atomic step, or None where a lock or the program order forbids it. */
  ghost function Next(cfg: Config, s: State, a: Action): Option<State> {
    match a
    case Reserve(t, tag) =>
      if t in s.tasks || s.slots.pending.Some? || tag == 0 || !Open(cfg, s) then None
      else Some(s.(slots := SlotMachine.Reserve(s.slots, t, tag)))
    case Commit =>
      if s.slots.pending.None? then None
      else
        var p, slots := s.slots.pending.value, CommitTag(s.slots);
        if p.tag in s.slots.tagToLoc then Some(s.(slots := slots))
        else Some(s.(slots := slots, tasks := s.tasks[p.task := Searching(p.loc, FrozenSet(cfg))]))
    case Search(t, u) =>
      if t !in s.tasks || !s.tasks[t].Searching? || u !in s.tasks[t].seen || u >= |s.graph| then None
      else Some(s.(tasks := s.tasks[t := Searching(s.tasks[t].loc, s.tasks[t].seen + ToSet(s.graph[u]))]))
    case Prune(t, links) =>
      if t !in s.tasks || !s.tasks[t].Searching? || !(ToSet(links) <= s.tasks[t].seen - {s.tasks[t].loc}) then None
      else Some(s.(tasks := s.tasks[t := Pruned(s.tasks[t].loc, links)]))
    case Link(t) =>
      if t !in s.tasks || !s.tasks[t].Pruned? || s.tasks[t].loc >= |s.graph| || (cfg.conc && s.slots.pending.Some?) then None
      else
        var loc, links := s.tasks[t].loc, s.tasks[t].links;
        var list := if cfg.conc then Tagged(links, s.slots.locToTag) else links;
        Some(s.(graph := s.graph[loc := list], tasks := s.tasks[t := Linking(loc, links)], linked := s.linked + {loc}))
    case AddBack(t) =>
      if t !in s.tasks || !s.tasks[t].Linking? || s.tasks[t].back == [] || s.tasks[t].back[0] >= |s.graph| then None
      else
        var (g, task) := AddBackStep(cfg, s.graph, s.tasks[t]);
        Some(s.(graph := g, tasks := s.tasks[t := task]))
    case SetBack(t, kept) =>
      if t !in s.tasks || !s.tasks[t].Copied? || s.tasks[t].des >= |s.graph|
         || !(ToSet(kept) <= ToSet(s.tasks[t].copy) - {s.tasks[t].des}) then None
      else Some(s.(graph := s.graph[s.tasks[t].des := kept], tasks := s.tasks[t := Linking(s.tasks[t].loc, s.tasks[t].back)]))
    case Finish(t) =>
      if t !in s.tasks || !s.tasks[t].Linking? || s.tasks[t].back != [] then None
      else Some(s.(tasks := s.tasks - {t}))
    case LazyDelete(tag) =>
      if s.slots.pending.Some? || !Open(cfg, s) then None
      else Some(s.(slots := SlotMachine.LazyDelete(s.slots, tag)))
    case StartConsolidate =>
      if s.running || (!cfg.conc && (s.tasks != map[] || s.slots.pending.Some?)) then None
      else Some(s.(slots := TakeDeleteSet(s.slots), running := true, todo := Below(|s.graph|)))
    case ProcessDelete(loc, result) =>
      if !s.running || loc !in s.todo || loc >= |s.graph| then None
      else
        var slots := if loc < cfg.max && loc !in s.slots.taken then Tested(s.slots, loc) else s.slots;
        if loc in s.slots.taken || loc in ToSet(s.slots.empty) || ToSet(s.graph[loc]) !! s.slots.taken then
          Some(s.(slots := slots, todo := s.todo - {loc}))
        else if !MayReplace(cfg, Expanded(s.graph, s.slots.taken, loc), ToSet(result)) then None
        else Some(s.(slots := slots, graph := s.graph[loc := result], todo := s.todo - {loc}))
    case FinishConsolidate(order) =>
      if !s.running || s.todo != {} || s.slots.pending.Some? || !Distinct(order) || ToSet(order) != s.slots.taken then None
      else Some(s.(slots := ReleaseAll(s.slots, order), running := false, linked := s.linked - s.slots.taken))
    case Compact(c) =>
      if s.running || s.tasks != map[] || !MayCompact(s.slots) || !Compacts(cfg, s.slots, s.graph, c) then None
      else Some(s.(slots := CompactedSlots(s.slots, c), graph := c.graph, linked := c.tags.Keys))
  }

  /** What one round of inter_insert's loop does to the list of the next target. */
  function AddBackStep(cfg: Config, g: Graph, task: Task): (Graph, Task)
    requires task.Linking? && task.back != [] && task.back[0] < |g|
  {
    var des, rest := task.back[0], task.back[1..];
    if task.loc in g[des] then (g, Linking(task.loc, rest))
    else if |g[des]| < cfg.slack then (g[des := g[des] + [task.loc]], Linking(task.loc, rest))
    else (g, Copied(task.loc, des, g[des] + [task.loc], rest))
  }

  /** process_delete keeps all of a short candidate set and prunes a long one. */
  predicate MayReplace(cfg: Config, expanded: set<nat>, result: set<nat>) {
    result <= expanded && (|expanded| <= cfg.range ==> result == expanded)
  }

  /** compact_data runs only when needed and refuses pending deletes. */
  predicate MayCompact(s: Slots) {
    s.pending.None? && !s.compacted && s.deleteSet == {}
  }

  /** A result of the in-place compaction of these lists and tags. */
  ghost predicate Compacts(cfg: Config, s: Slots, g: Graph, c: Compaction) {
    && 0 <= s.nd && |c.to| == cfg.max + cfg.frozen <= IndexStore.GONE
    && Inverse(c.tags, c.locs)
    && IndexStore.IsCompaction(g, NoVectors(|c.to|), s.locToTag, s.tagToLoc,
                               c.graph, NoVectors(|c.to|), c.tags, c.locs, c.to, cfg.max, s.nd)
  }

  /** Vectors play no part in the runs. */
  ghost function NoVectors(n: nat): seq<()> {
    seq(n, _ => ())
  }

  function CompactedSlots(s: Slots, c: Compaction): Slots {
    s.(empty := if 0 <= s.nd <= s.max then seq(s.max - s.nd, i => s.nd + i) else [],
       locToTag := c.tags, tagToLoc := c.locs, compacted := true, bits := if s.nd < s.max then s.max else 0)
  }

  // ---- slots: in both modes, over every run ----

  ghost predicate SlotsOk(cfg: Config, s: State) {
    && SlotInv(s.slots) && s.slots.max == cfg.max
    && (!s.running ==> s.slots.taken == {})
  }

  lemma SlotsKept(cfg: Config, s: State, a: Action)
    requires SlotsOk(cfg, s) && Next(cfg, s, a).Some?
    ensures SlotsOk(cfg, Next(cfg, s, a).value)
  {
    match a
    case Reserve(t, tag) => ReserveKeeps(s.slots, t, tag);
    case Commit => CommitKeeps(s.slots);
    case LazyDelete(tag) => LazyDeleteKeeps(s.slots, tag);
    case StartConsolidate => TakeKeeps(s.slots);
    case FinishConsolidate(order) => ReleaseAllKeeps(s.slots, order);
    case Compact(c) => CompactKeeps(cfg, s.slots, s.graph, c);
    case ProcessDelete(loc, _) => TestedKeeps(s.slots, loc);
    case _ =>
  }

  /** The slots of a quiescent index without deletes: empty or live. */
  lemma Quiescent(s: Slots)
    requires SlotInv(s) && s.deleteSet == s.taken == {} && s.pending.None?
    ensures s.nd == |s.locToTag| <= s.max && forall l :: l in s.locToTag ==> l < s.max
  {
    ConsolidateChecks(s);
    forall l | l in s.locToTag ensures l < s.max {
      assert Classes(l, s) == Bit(l < s.max);
    }
  }

  lemma CompactKeeps(cfg: Config, s: Slots, g: Graph, c: Compaction)
    requires SlotInv(s) && s.max == cfg.max && s.taken == {} && MayCompact(s) && Compacts(cfg, s, g, c)
    ensures SlotInv(CompactedSlots(s, c))
    ensures s.nd == |s.locToTag| <= cfg.max && c.tags.Keys == Below(s.nd)
  {
    Quiescent(s);
    var r := CompactedSlots(s, c);
    TailSlots(s.nd, s.max);
    forall v: nat ensures Classes(v, r) == Bit(v < s.max) {
      assert v in r.locToTag <==> v < s.nd;
    }
  }

  lemma TailSlots(nd: nat, max: nat)
    requires nd <= max
    ensures var e := seq(max - nd, i => nd + i); Distinct(e) && forall v: nat :: v in ToSet(e) <==> nd <= v < max
  {
    var e := seq(max - nd, i => nd + i);
    forall v: nat ensures v in ToSet(e) <==> nd <= v < max {
      if nd <= v < max { assert e[v - nd] == v; }
    }
  }

  ghost function Run(cfg: Config, actions: seq<Action>): Option<State> {
    if actions == [] then Some(Init(cfg))
    else
      match Run(cfg, actions[..|actions| - 1])
      case None => None
      case Some(s) => Next(cfg, s, actions[|actions| - 1])
  }

  /** Every step leads on; runs are built from this, one step at a time. */
  ghost predicate ClosedUnder(cfg: Config, reach: State -> bool) {
    forall s, a {:trigger Next(cfg, s, a)} :: reach(s) && Next(cfg, s, a).Some? ==> reach(Next(cfg, s, a).value)
  }

  lemma Go(cfg: Config, reach: State -> bool, s: State, a: Action, s': State)
    requires ClosedUnder(cfg, reach) && reach(s) && Next(cfg, s, a) == Some(s')
    ensures reach(s')
  {
  }

  ghost function Reachable(cfg: Config): State -> bool {
    s => exists actions :: Run(cfg, actions) == Some(s)
  }

  lemma RunTo(cfg: Config, s: State) returns (actions: seq<Action>)
    requires Reachable(cfg)(s)
    ensures Run(cfg, actions) == Some(s)
  {
    actions :| Run(cfg, actions) == Some(s);
  }

  lemma ReachableClosed(cfg: Config)
    ensures ClosedUnder(cfg, Reachable(cfg)) && Reachable(cfg)(Init(cfg))
  {
    assert Run(cfg, []) == Some(Init(cfg));
    forall s, a | Reachable(cfg)(s) && Next(cfg, s, a).Some? ensures Reachable(cfg)(Next(cfg, s, a).value) {
      var actions :| Run(cfg, actions) == Some(s);
      assert (actions + [a])[..|actions|] == actions;
      assert Run(cfg, actions + [a]) == Next(cfg, s, a);
    }
  }

  /** Whatever the interleaving of inserts (failed ones included), lazy deletes
      and a consolidation, exclusive or concurrent: the slot classes partition
      [0, max), the two tag maps are inverse, and no exception is reachable. */
  lemma {:induction false} SlotsAlwaysPartitioned(cfg: Config, actions: seq<Action>)
    requires Run(cfg, actions).Some?
    ensures SlotsOk(cfg, Run(cfg, actions).value)
  {
    if actions == [] {
      FreshInv(cfg.max);
    } else {
      SlotsAlwaysPartitioned(cfg, actions[..|actions| - 1]);
      SlotsKept(cfg, Run(cfg, actions[..|actions| - 1]).value, actions[|actions| - 1]);
    }
  }

  // ---- edges: with exclusive consolidation ----

  ghost function NonEmpty(s: Slots): set<nat> {
    s.locToTag.Keys + s.deleteSet + s.taken
  }

  /** Nodes an edge may point to. */
  ghost function Targets(cfg: Config, s: State): set<nat> {
    s.linked + FrozenSet(cfg)
  }

  ghost predicate TaskOk(task: Task, nonEmpty: set<nat>, targets: set<nat>) {
    match task
    case Searching(loc, seen) => loc in nonEmpty && seen <= targets
    case Pruned(loc, links) => loc in nonEmpty && ToSet(links) <= targets
    case Linking(loc, back) => loc in nonEmpty * targets && ToSet(back) <= targets
    case Copied(loc, des, copy, back) => loc in nonEmpty * targets && des in targets && ToSet(copy) <= targets && ToSet(back) <= targets
  }

  ghost predicate TasksOk(tasks: map<nat, Task>, nonEmpty: set<nat>, targets: set<nat>) {
    forall t :: t in tasks ==> TaskOk(tasks[t], nonEmpty, targets)
  }

  ghost predicate EdgesIn(g: Graph, targets: set<nat>) {
    forall u :: u in targets ==> u < |g| && ToSet(g[u]) <= targets
  }

  /** Still before its first link. */
  predicate AwaitsLink(tasks: map<nat, Task>, v: nat) {
    exists t :: t in tasks && (tasks[t].Searching? || tasks[t].Pruned?) && tasks[t].loc == v
  }

  ghost predicate Covered(tasks: map<nat, Task>, nonEmpty: set<nat>, linked: set<nat>) {
    forall v :: v in nonEmpty && v !in linked ==> AwaitsLink(tasks, v)
  }

  /** Lists, tasks and link marks fit together. */
  ghost predicate Wired(cfg: Config, nonEmpty: set<nat>, g: Graph, tasks: map<nat, Task>, linked: set<nat>) {
    && |g| == cfg.max + cfg.frozen
    && linked <= nonEmpty <= Below(cfg.max)
    && EdgesIn(g, linked + FrozenSet(cfg))
    && TasksOk(tasks, nonEmpty, linked + FrozenSet(cfg))
    && Covered(tasks, nonEmpty, linked)
  }

  /** While a consolidation runs: nodes already processed are clean. */
  ghost predicate Clean(g: Graph, targets: set<nat>, todo: set<nat>, taken: set<nat>) {
    forall u :: u in targets && u !in todo && u !in taken ==> u < |g| && ToSet(g[u]) !! taken
  }

  ghost predicate Cleaning(cfg: Config, s: State) {
    && s.tasks == map[] && s.slots.pending.None?
    && Clean(s.graph, Targets(cfg, s), s.todo, s.slots.taken)
  }

  ghost predicate EdgeInv(cfg: Config, s: State) {
    && Wired(cfg, NonEmpty(s.slots), s.graph, s.tasks, s.linked)
    && (s.running ==> Cleaning(cfg, s))
    && (s.slots.pending.Some? ==> s.slots.pending.value.task !in s.tasks)
  }

  lemma InitEdges(cfg: Config)
    ensures EdgeInv(cfg, Init(cfg))
  {
  }

  /** Steps that move slots between the non-empty classes. */
  lemma SlotStepEdges(cfg: Config, s: State, s': State)
    requires EdgeInv(cfg, s)
    requires s'.graph == s.graph && s'.tasks == s.tasks && s'.linked == s.linked
    requires NonEmpty(s'.slots) == NonEmpty(s.slots)
    requires s'.running ==> Cleaning(cfg, s')
    requires s'.slots.pending.Some? ==> s'.slots.pending.value.task !in s.tasks
    ensures EdgeInv(cfg, s')
  {
  }

  lemma ReserveNonEmpty(s: Slots, t: nat, tag: nat)
    requires SlotInv(s) && s.pending.None?
    ensures NonEmpty(SlotMachine.Reserve(s, t, tag)) == NonEmpty(s)
  {
    if s.nd < s.max {
      ReserveKeeps(s, t, tag);
      var loc := s.empty[|s.empty| - 1];
      assert loc in ToSet(s.empty);
      assert Classes(loc, s) == 1;
      assert s.deleteSet - {loc} == s.deleteSet;
    }
  }

  lemma LazyDeleteNonEmpty(s: Slots, tag: nat)
    requires Inverse(s.locToTag, s.tagToLoc)
    ensures NonEmpty(SlotMachine.LazyDelete(s, tag)) == NonEmpty(s)
  {
    var r := SlotMachine.LazyDelete(s, tag);
    if tag in s.tagToLoc {
      var loc := s.tagToLoc[tag];
      assert r.locToTag.Keys == s.locToTag.Keys - {loc} && loc in s.locToTag;
    }
  }

  lemma CommitNonEmpty(s: Slots)
    requires SlotInv(s) && s.pending.Some?
    ensures var p := s.pending.value;
            NonEmpty(CommitTag(s)) == if p.tag in s.tagToLoc then NonEmpty(s) else NonEmpty(s) + {p.loc}
  {
    var p := s.pending.value;
    assert p.loc in PendingSet(s) && Classes(p.loc, s) == 1;
    if p.tag in s.tagToLoc {
      ReleaseKeeps(s, p.loc);
    } else {
      assert s.locToTag[p.loc := p.tag].Keys == s.locToTag.Keys + {p.loc};
    }
  }

  lemma ReserveEdges(cfg: Config, s: State, t: nat, tag: nat)
    requires SlotInv(s.slots) && EdgeInv(cfg, s) && !s.running && s.slots.pending.None? && t !in s.tasks
    ensures EdgeInv(cfg, s.(slots := SlotMachine.Reserve(s.slots, t, tag)))
  {
    ReserveNonEmpty(s.slots, t, tag);
    ReserveKeeps(s.slots, t, tag);
    SlotStepEdges(cfg, s, s.(slots := SlotMachine.Reserve(s.slots, t, tag)));
  }

  lemma LazyDeleteEdges(cfg: Config, s: State, tag: nat)
    requires Inverse(s.slots.locToTag, s.slots.tagToLoc) && EdgeInv(cfg, s) && !s.running && s.slots.pending.None?
    ensures EdgeInv(cfg, s.(slots := SlotMachine.LazyDelete(s.slots, tag)))
  {
    LazyDeleteNonEmpty(s.slots, tag);
    SlotStepEdges(cfg, s, s.(slots := SlotMachine.LazyDelete(s.slots, tag)));
  }

  lemma StartEdges(cfg: Config, s: State)
    requires s.slots.taken == {} && EdgeInv(cfg, s) && s.tasks == map[] && s.slots.pending.None?
    ensures EdgeInv(cfg, s.(slots := TakeDeleteSet(s.slots), running := true, todo := Below(|s.graph|)))
  {
    var s' := s.(slots := TakeDeleteSet(s.slots), running := true, todo := Below(|s.graph|));
    TakeNonEmpty(s.slots);
    AllToDo(s.graph, Targets(cfg, s), s.slots.deleteSet);
    SlotStepEdges(cfg, s, s');
  }

  lemma TakeNonEmpty(s: Slots)
    requires s.taken == {}
    ensures NonEmpty(TakeDeleteSet(s)) == NonEmpty(s)
  {
  }

  lemma AllToDo(g: Graph, targets: set<nat>, taken: set<nat>)
    requires EdgesIn(g, targets)
    ensures Clean(g, targets, Below(|g|), taken)
  {
  }

  lemma CommitEdges(cfg: Config, s: State)
    requires SlotsOk(cfg, s) && EdgeInv(cfg, s) && s.slots.pending.Some?
    ensures var p, slots := s.slots.pending.value, CommitTag(s.slots);
            && (p.tag in s.slots.tagToLoc ==> EdgeInv(cfg, s.(slots := slots)))
            && (p.tag !in s.slots.tagToLoc ==>
                  EdgeInv(cfg, s.(slots := slots, tasks := s.tasks[p.task := Searching(p.loc, FrozenSet(cfg))])))
  {
    CommitKeeps(s.slots);
    CommitNonEmpty(s.slots);
    var p, slots := s.slots.pending.value, CommitTag(s.slots);
    assert p.loc < cfg.max by {
      assert p.loc in PendingSet(s.slots);
      assert Classes(p.loc, s.slots) == Bit(p.loc < s.slots.max);
    }
    if p.tag in s.slots.tagToLoc {
      SlotStepEdges(cfg, s, s.(slots := slots));
    } else {
      CommitWired(cfg, NonEmpty(s.slots), s.graph, s.tasks, s.linked, p.task, p.loc);
    }
  }

  lemma CommitWired(cfg: Config, n: set<nat>, g: Graph, tasks: map<nat, Task>, linked: set<nat>, t: nat, loc: nat)
    requires Wired(cfg, n, g, tasks, linked) && t !in tasks && loc < cfg.max
    ensures Wired(cfg, n + {loc}, g, tasks[t := Searching(loc, FrozenSet(cfg))], linked)
  {
    var tasks' := tasks[t := Searching(loc, FrozenSet(cfg))];
    assert tasks' - {t} == tasks - {t};
    CoveredStill(tasks, tasks', n, n + {loc}, linked, linked, t);
    TasksStill(tasks, tasks', n, n + {loc}, linked + FrozenSet(cfg), linked + FrozenSet(cfg), t);
  }

  /** Adding or advancing one task keeps every other slot covered. */
  lemma CoveredStill(tasks: map<nat, Task>, tasks': map<nat, Task>, nonEmpty: set<nat>, nonEmpty': set<nat>,
                     linked: set<nat>, linked': set<nat>, t: nat)
    requires Covered(tasks, nonEmpty, linked)
    requires t in tasks' && tasks - {t} == tasks' - {t}
    requires linked <= linked' && nonEmpty' <= nonEmpty + {tasks'[t].loc}
    requires tasks'[t].Searching? || tasks'[t].Pruned? || tasks'[t].loc in linked'
    requires t in tasks ==> tasks[t].loc == tasks'[t].loc
    ensures Covered(tasks', nonEmpty', linked')
  {
    forall v | v in nonEmpty' && v !in linked' ensures AwaitsLink(tasks', v) {
      if v != tasks'[t].loc {
        var u :| u in tasks && (tasks[u].Searching? || tasks[u].Pruned?) && tasks[u].loc == v;
        OtherTask(tasks, tasks', t, u);
      }
    }
  }

  lemma OtherTask(tasks: map<nat, Task>, tasks': map<nat, Task>, t: nat, u: nat)
    requires tasks - {t} == tasks' - {t} && u != t
    ensures u in tasks <==> u in tasks'
    ensures u in tasks ==> tasks[u] == tasks'[u]
  {
    assert u in tasks <==> u in tasks - {t};
    assert u in tasks' <==> u in tasks' - {t};
    if u in tasks {
      assert (tasks - {t})[u] == (tasks' - {t})[u];
    }
  }

  lemma TasksStill(tasks: map<nat, Task>, tasks': map<nat, Task>, nonEmpty: set<nat>, nonEmpty': set<nat>,
                   targets: set<nat>, targets': set<nat>, t: nat)
    requires TasksOk(tasks, nonEmpty, targets)
    requires tasks - {t} == tasks' - {t} && nonEmpty <= nonEmpty' && targets <= targets'
    requires t in tasks' ==> TaskOk(tasks'[t], nonEmpty', targets')
    ensures TasksOk(tasks', nonEmpty', targets')
  {
    forall u | u in tasks' ensures TaskOk(tasks'[u], nonEmpty', targets') {
      if u != t {
        OtherTask(tasks, tasks', t, u);
        assert TaskOk(tasks[u], nonEmpty, targets);
      }
    }
  }

  /** A step of one insert: only its own task, some list and the link mark change. */
  lemma TaskWired(cfg: Config, n: set<nat>, g: Graph, tasks: map<nat, Task>, linked: set<nat>,
                  g': Graph, task: Task, linked': set<nat>, t: nat)
    requires Wired(cfg, n, g, tasks, linked) && t in tasks
    requires linked <= linked' <= n && |g'| == |g|
    requires EdgesIn(g', linked' + FrozenSet(cfg))
    requires TaskOk(task, n, linked' + FrozenSet(cfg)) && task.loc == tasks[t].loc
    requires task.Searching? || task.Pruned? || task.loc in linked'
    ensures Wired(cfg, n, g', tasks[t := task], linked')
  {
    assert tasks[t := task] - {t} == tasks - {t};
    CoveredStill(tasks, tasks[t := task], n, n, linked, linked', t);
    TasksStill(tasks, tasks[t := task], n, n, linked + FrozenSet(cfg), linked' + FrozenSet(cfg), t);
  }

  lemma EdgesAfterSet(g: Graph, targets: set<nat>, targets': set<nat>, u: nat, list: seq<nat>)
    requires EdgesIn(g, targets) && targets <= targets' <= targets + {u}
    requires u < |g| && ToSet(list) <= targets'
    ensures EdgesIn(g[u := list], targets')
  {
  }

  lemma SearchWired(cfg: Config, n: set<nat>, g: Graph, tasks: map<nat, Task>, linked: set<nat>, t: nat, u: nat)
    requires Wired(cfg, n, g, tasks, linked)
    requires t in tasks && tasks[t].Searching? && u in tasks[t].seen && u < |g|
    ensures Wired(cfg, n, g, tasks[t := Searching(tasks[t].loc, tasks[t].seen + ToSet(g[u]))], linked)
  {
    assert TaskOk(tasks[t], n, linked + FrozenSet(cfg));
    TaskWired(cfg, n, g, tasks, linked, g, Searching(tasks[t].loc, tasks[t].seen + ToSet(g[u])), linked, t);
  }

  lemma PruneWired(cfg: Config, n: set<nat>, g: Graph, tasks: map<nat, Task>, linked: set<nat>, t: nat, links: seq<nat>)
    requires Wired(cfg, n, g, tasks, linked)
    requires t in tasks && tasks[t].Searching? && ToSet(links) <= tasks[t].seen
    ensures Wired(cfg, n, g, tasks[t := Pruned(tasks[t].loc, links)], linked)
  {
    assert TaskOk(tasks[t], n, linked + FrozenSet(cfg));
    TaskWired(cfg, n, g, tasks, linked, g, Pruned(tasks[t].loc, links), linked, t);
  }

  lemma LinkWired(cfg: Config, n: set<nat>, g: Graph, tasks: map<nat, Task>, linked: set<nat>, t: nat)
    requires Wired(cfg, n, g, tasks, linked)
    requires t in tasks && tasks[t].Pruned? && tasks[t].loc < |g|
    ensures var loc, links := tasks[t].loc, tasks[t].links;
            Wired(cfg, n, g[loc := links], tasks[t := Linking(loc, links)], linked + {loc})
  {
    var loc, links, frozen := tasks[t].loc, tasks[t].links, FrozenSet(cfg);
    assert TaskOk(tasks[t], n, linked + frozen);
    EdgesAfterSet(g, linked + frozen, linked + {loc} + frozen, loc, links);
    TaskWired(cfg, n, g, tasks, linked, g[loc := links], Linking(loc, links), linked + {loc}, t);
  }

  /** A task past its link has its slot marked. */
  lemma PastLink(cfg: Config, n: set<nat>, g: Graph, tasks: map<nat, Task>, linked: set<nat>, t: nat)
    requires Wired(cfg, n, g, tasks, linked)
    requires t in tasks && (tasks[t].Linking? || tasks[t].Copied?)
    ensures tasks[t].loc in linked && TaskOk(tasks[t], n, linked + FrozenSet(cfg))
  {
    assert TaskOk(tasks[t], n, linked + FrozenSet(cfg));
  }

  /** Advancing the back-link loop, with `des` given a new list within reach. */
  lemma BackWired(cfg: Config, n: set<nat>, g: Graph, tasks: map<nat, Task>, linked: set<nat>, t: nat,
                  des: nat, list: seq<nat>, back: seq<nat>)
    requires Wired(cfg, n, g, tasks, linked)
    requires t in tasks && (tasks[t].Linking? || tasks[t].Copied?) && des < |g|
    requires ToSet(list) <= linked + FrozenSet(cfg) && ToSet(back) <= linked + FrozenSet(cfg)
    ensures Wired(cfg, n, g[des := list], tasks[t := Linking(tasks[t].loc, back)], linked)
  {
    PastLink(cfg, n, g, tasks, linked, t);
    EdgesAfterSet(g, linked + FrozenSet(cfg), linked + FrozenSet(cfg), des, list);
    TaskWired(cfg, n, g, tasks, linked, g[des := list], Linking(tasks[t].loc, back), linked, t);
  }

  lemma AddBackWired(cfg: Config, n: set<nat>, g: Graph, tasks: map<nat, Task>, linked: set<nat>, t: nat)
    requires Wired(cfg, n, g, tasks, linked)
    requires t in tasks && tasks[t].Linking? && tasks[t].back != [] && tasks[t].back[0] < |g|
    ensures var (g', task) := AddBackStep(cfg, g, tasks[t]); Wired(cfg, n, g', tasks[t := task], linked)
  {
    var loc, back := tasks[t].loc, tasks[t].back;
    var des, rest, longer := back[0], back[1..], g[back[0]] + [loc];
    PastLink(cfg, n, g, tasks, linked, t);
    assert des in ToSet(back) && ToSet(rest) <= ToSet(back) by {
      assert forall i :: 0 <= i < |rest| ==> rest[i] == back[i + 1];
    }
    ToSetAppend(g[des], loc);
    if loc in g[des] {
      assert g[des := g[des]] == g;
      BackWired(cfg, n, g, tasks, linked, t, des, g[des], rest);
    } else if |g[des]| < cfg.slack {
      BackWired(cfg, n, g, tasks, linked, t, des, longer, rest);
    } else {
      TaskWired(cfg, n, g, tasks, linked, g, Copied(loc, des, longer, rest), linked, t);
    }
  }

  lemma FinishWired(cfg: Config, n: set<nat>, g: Graph, tasks: map<nat, Task>, linked: set<nat>, t: nat)
    requires Wired(cfg, n, g, tasks, linked) && t in tasks && tasks[t].Linking?
    ensures Wired(cfg, n, g, tasks - {t}, linked)
  {
    var frozen := FrozenSet(cfg);
    assert (tasks - {t}) - {t} == tasks - {t};
    TasksStill(tasks, tasks - {t}, n, n, linked + frozen, linked + frozen, t);
    forall v | v in n && v !in linked ensures AwaitsLink(tasks - {t}, v) {
      var u :| u in tasks && (tasks[u].Searching? || tasks[u].Pruned?) && tasks[u].loc == v;
      OtherTask(tasks, tasks - {t}, t, u);
    }
  }

  lemma InsertEdges(cfg: Config, s: State, a: Action)
    requires !cfg.conc && EdgeInv(cfg, s) && Next(cfg, s, a).Some?
    requires a.Search? || a.Prune? || a.Link? || a.AddBack? || a.SetBack? || a.Finish?
    ensures EdgeInv(cfg, Next(cfg, s, a).value)
  {
    var n, t := NonEmpty(s.slots), a.task;
    match a
    case Search(_, u) => SearchWired(cfg, n, s.graph, s.tasks, s.linked, t, u);
    case Prune(_, links) => PruneWired(cfg, n, s.graph, s.tasks, s.linked, t, links);
    case Link(_) => LinkWired(cfg, n, s.graph, s.tasks, s.linked, t);
    case AddBack(_) => AddBackWired(cfg, n, s.graph, s.tasks, s.linked, t);
    case SetBack(_, kept) =>
      PastLink(cfg, n, s.graph, s.tasks, s.linked, t);
      BackWired(cfg, n, s.graph, s.tasks, s.linked, t, s.tasks[t].des, kept, s.tasks[t].back);
    case Finish(_) => FinishWired(cfg, n, s.graph, s.tasks, s.linked, t);
  }

  // ---- consolidation ----

  /** process_delete of one node: it stays within reach and loses every edge into
      the consolidated set. */
  lemma ProcessDeleteEdges(cfg: Config, s: State, loc: nat, result: seq<nat>)
    requires EdgeInv(cfg, s) && s.running && loc < |s.graph|
    requires ToSet(result) <= Expanded(s.graph, s.slots.taken, loc)
    ensures EdgeInv(cfg, s.(graph := s.graph[loc := result], todo := s.todo - {loc}))
  {
    var targets, taken := Targets(cfg, s), s.slots.taken;
    if loc in targets {
      ExpandedWithin(s.graph, targets, taken, loc);
    }
    ProcessedWired(cfg, NonEmpty(s.slots), s.graph, s.linked, loc, result);
    CleanAfter(s.graph, targets, s.todo, taken, loc, result);
  }

  lemma ProcessedWired(cfg: Config, n: set<nat>, g: Graph, linked: set<nat>, loc: nat, result: seq<nat>)
    requires Wired(cfg, n, g, map[], linked) && loc < |g|
    requires loc in linked + FrozenSet(cfg) ==> ToSet(result) <= linked + FrozenSet(cfg)
    ensures Wired(cfg, n, g[loc := result], map[], linked)
  {
  }

  lemma CleanAfter(g: Graph, targets: set<nat>, todo: set<nat>, taken: set<nat>, loc: nat, result: seq<nat>)
    requires Clean(g, targets, todo, taken) && loc < |g| && ToSet(result) !! taken
    ensures Clean(g[loc := result], targets, todo - {loc}, taken)
  {
  }

  /** A node that is skipped is deleted, empty, or clean already. */
  lemma SkipEdges(cfg: Config, s: State, loc: nat)
    requires EdgeInv(cfg, s) && s.running && loc < |s.graph|
    requires s.linked !! ToSet(s.slots.empty) && FrozenSet(cfg) !! ToSet(s.slots.empty)
    requires loc in s.slots.taken || loc in ToSet(s.slots.empty) || ToSet(s.graph[loc]) !! s.slots.taken
    ensures EdgeInv(cfg, s.(todo := s.todo - {loc}))
  {
    assert Clean(s.graph, Targets(cfg, s), s.todo - {loc}, s.slots.taken);
  }

  lemma ExpandedWithin(g: Graph, targets: set<nat>, taken: set<nat>, loc: nat)
    requires EdgesIn(g, targets) && loc in targets
    ensures Expanded(g, taken, loc) <= targets
  {
  }

  /** Releasing the consolidated slots: no kept node points at them. */
  lemma FinishConsolidateEdges(cfg: Config, s: State, order: seq<nat>)
    requires SlotInv(s.slots) && EdgeInv(cfg, s) && s.running && s.todo == {}
    requires Distinct(order) && ToSet(order) == s.slots.taken
    ensures EdgeInv(cfg, s.(slots := ReleaseAll(s.slots, order), running := false, linked := s.linked - s.slots.taken))
  {
    ReleaseAllKeeps(s.slots, order);
    ReleasedNonEmpty(s.slots, order);
    ReleaseWired(cfg, NonEmpty(s.slots), s.graph, s.linked, s.slots.taken);
  }

  lemma ReleasedNonEmpty(s: Slots, order: seq<nat>)
    requires SlotInv(s) && Distinct(order) && ToSet(order) == s.taken
    ensures NonEmpty(ReleaseAll(s, order)) == NonEmpty(s) - s.taken
  {
    ReleaseAllKeeps(s, order);
    forall v | v in s.taken ensures v !in s.locToTag && v !in s.deleteSet && v < s.max {
      assert Classes(v, s) == Bit(v < s.max);
    }
  }

  lemma ReleaseWired(cfg: Config, n: set<nat>, g: Graph, linked: set<nat>, taken: set<nat>)
    requires Wired(cfg, n, g, map[], linked) && taken <= n
    requires Clean(g, linked + FrozenSet(cfg), {}, taken)
    ensures Wired(cfg, n - taken, g, map[], linked - taken)
  {
    var kept := linked - taken + FrozenSet(cfg);
    forall u | u in kept ensures u < |g| && ToSet(g[u]) <= kept {
      assert u in linked + FrozenSet(cfg) && u !in taken;
    }
    forall v | v in n - taken && v !in linked - taken ensures AwaitsLink(map[], v) {
      assert v in n && v !in linked;
    }
  }

  /** The graph after process_delete(loc) when it has to rewrite the list. */
  ghost function Processed(g: Graph, taken: set<nat>, loc: nat, result: seq<nat>): Graph
    requires loc < |g|
  {
    if loc in taken || ToSet(g[loc]) !! taken then g else g[loc := result]
  }

  /** process_delete reads only its own list and lists of deleted nodes, and writes
      only its own, never that of a deleted node: any two calls commute and choose
      from the same candidates, so the order of the parallel loop never shows. */
  lemma ProcessDeleteCommutes(g: Graph, taken: set<nat>, a: nat, b: nat, ra: seq<nat>, rb: seq<nat>)
    requires a != b && a < |g| && b < |g|
    ensures Processed(Processed(g, taken, a, ra), taken, b, rb) == Processed(Processed(g, taken, b, rb), taken, a, ra)
    ensures Expanded(Processed(g, taken, a, ra), taken, b) == Expanded(g, taken, b)
  {
    var ga := Processed(g, taken, a, ra);
    assert g[a := ra][b := rb] == g[b := rb][a := ra];
    assert ga[b] == g[b];
    assert forall n :: n in taken && n < |g| ==> ga[n] == g[n];
    assert Expanded(ga, taken, b) == Expanded(g, taken, b);
  }

  // ---- whole runs ----

  lemma EdgesKept(cfg: Config, s: State, a: Action)
    requires !cfg.conc && SlotsOk(cfg, s) && EdgeInv(cfg, s) && Next(cfg, s, a).Some?
    ensures EdgeInv(cfg, Next(cfg, s, a).value)
  {
    if a.Search? || a.Prune? || a.Link? || a.AddBack? || a.SetBack? || a.Finish? {
      InsertEdges(cfg, s, a);
    } else if a.Reserve? || a.Commit? || a.LazyDelete? {
      TagEdges(cfg, s, a);
    } else {
      ExclusiveEdges(cfg, s, a);
    }
  }

  lemma TagEdges(cfg: Config, s: State, a: Action)
    requires !cfg.conc && SlotsOk(cfg, s) && EdgeInv(cfg, s) && Next(cfg, s, a).Some?
    requires a.Reserve? || a.Commit? || a.LazyDelete?
    ensures EdgeInv(cfg, Next(cfg, s, a).value)
  {
    match a
    case Reserve(t, tag) => ReserveEdges(cfg, s, t, tag);
    case Commit => CommitEdges(cfg, s);
    case LazyDelete(tag) => LazyDeleteEdges(cfg, s, tag);
  }

  lemma ExclusiveEdges(cfg: Config, s: State, a: Action)
    requires !cfg.conc && SlotsOk(cfg, s) && EdgeInv(cfg, s) && Next(cfg, s, a).Some?
    requires a.StartConsolidate? || a.ProcessDelete? || a.FinishConsolidate? || a.Compact?
    ensures EdgeInv(cfg, Next(cfg, s, a).value)
  {
    match a
    case StartConsolidate => StartEdges(cfg, s);
    case ProcessDelete(loc, result) => ProcessEdges(cfg, s, loc, result);
    case FinishConsolidate(order) => FinishConsolidateEdges(cfg, s, order);
    case Compact(c) => CompactEdges(cfg, s, c);
  }

  // ---- compaction ----

  /** In a quiescent index no list that counts refers to an untagged slot, so the
      compaction drops nothing. */
  lemma QuiescentNeverDangles(cfg: Config, tags: map<nat, nat>, g: Graph, linked: set<nat>)
    requires Wired(cfg, tags.Keys, g, map[], linked)
    ensures IndexStore.NoDanglingIn(g, tags, cfg.max)
  {
    forall l | 0 <= l < |g| && IndexStore.Kept(tags, cfg.max, l) ensures IndexStore.AllKept(g[l], tags, cfg.max) {
      assert !AwaitsLink(map[], l);
      assert l in linked + FrozenSet(cfg);
      forall i | 0 <= i < |g[l]| ensures IndexStore.Kept(tags, cfg.max, g[l][i]) {
        assert g[l][i] in ToSet(g[l]);
      }
    }
  }

  lemma CompactEdges(cfg: Config, s: State, c: Compaction)
    requires SlotsOk(cfg, s) && EdgeInv(cfg, s) && !s.running && s.tasks == map[]
    requires MayCompact(s.slots) && Compacts(cfg, s.slots, s.graph, c)
    ensures EdgeInv(cfg, s.(slots := CompactedSlots(s.slots, c), graph := c.graph, linked := c.tags.Keys))
  {
    LiveOnly(s.slots, c);
    RewiredByCompaction(cfg, s.slots, s.graph, s.linked, c);
  }

  lemma LiveOnly(s: Slots, c: Compaction)
    requires s.deleteSet == s.taken == {}
    ensures NonEmpty(s) == s.locToTag.Keys && NonEmpty(CompactedSlots(s, c)) == c.tags.Keys
  {
  }

  lemma RewiredByCompaction(cfg: Config, s: Slots, g: Graph, linked: set<nat>, c: Compaction)
    requires SlotInv(s) && s.max == cfg.max && s.taken == {} && MayCompact(s) && Compacts(cfg, s, g, c)
    requires Wired(cfg, s.locToTag.Keys, g, map[], linked)
    ensures Wired(cfg, c.tags.Keys, c.graph, map[], c.tags.Keys)
  {
    QuiescentNeverDangles(cfg, s.locToTag, g, linked);
    PackedWired(cfg, s, g, c);
  }

  lemma PackedWired(cfg: Config, s: Slots, g: Graph, c: Compaction)
    requires SlotInv(s) && s.max == cfg.max && s.taken == {} && MayCompact(s) && Compacts(cfg, s, g, c)
    requires IndexStore.NoDanglingIn(g, s.locToTag, cfg.max)
    ensures Wired(cfg, c.tags.Keys, c.graph, map[], c.tags.Keys)
  {
    CompactKeeps(cfg, s, g, c);
    forall u | u in c.tags.Keys + FrozenSet(cfg) ensures u < |c.graph| && ToSet(c.graph[u]) <= c.tags.Keys + FrozenSet(cfg) {
      PackedTargets(cfg, s, g, c, u);
    }
  }

  lemma PackedTargets(cfg: Config, s: Slots, g: Graph, c: Compaction, u: nat)
    requires SlotInv(s) && s.max == cfg.max && s.taken == {} && MayCompact(s) && Compacts(cfg, s, g, c)
    requires IndexStore.NoDanglingIn(g, s.locToTag, cfg.max) && u < cfg.max + cfg.frozen
    ensures |c.graph| == cfg.max + cfg.frozen && ToSet(c.graph[u]) <= c.tags.Keys + FrozenSet(cfg)
  {
    CompactKeeps(cfg, s, g, c);
    Quiescent(s);
    IndexStore.CompactionPacks(g, NoVectors(|c.to|), s.locToTag, s.tagToLoc,
                               c.graph, NoVectors(|c.to|), c.tags, c.locs, c.to, cfg.max, s.nd, u);
    PackedInTargets(cfg, c.graph[u], s.nd, c.tags);
  }

  lemma PackedInTargets(cfg: Config, list: seq<nat>, nd: nat, tags: map<nat, nat>)
    requires IndexStore.PackedList(list, nd, cfg.max) && IndexStore.ListBelow(list, cfg.max + cfg.frozen)
    requires tags.Keys == Below(nd)
    ensures ToSet(list) <= tags.Keys + FrozenSet(cfg)
  {
  }

  lemma ProcessEdges(cfg: Config, s: State, loc: nat, result: seq<nat>)
    requires SlotsOk(cfg, s) && EdgeInv(cfg, s) && s.running && loc < |s.graph|
    ensures loc in s.slots.taken || loc in ToSet(s.slots.empty) || ToSet(s.graph[loc]) !! s.slots.taken
            ==> EdgeInv(cfg, s.(todo := s.todo - {loc}))
    ensures ToSet(result) <= Expanded(s.graph, s.slots.taken, loc)
            ==> EdgeInv(cfg, s.(graph := s.graph[loc := result], todo := s.todo - {loc}))
  {
    if loc in s.slots.taken || loc in ToSet(s.slots.empty) || ToSet(s.graph[loc]) !! s.slots.taken {
      EmptyApart(cfg, s);
      SkipEdges(cfg, s, loc);
    }
    if ToSet(result) <= Expanded(s.graph, s.slots.taken, loc) {
      ProcessDeleteEdges(cfg, s, loc, result);
    }
  }

  lemma EmptyApart(cfg: Config, s: State)
    requires SlotsOk(cfg, s) && s.linked <= NonEmpty(s.slots)
    ensures s.linked !! ToSet(s.slots.empty) && FrozenSet(cfg) !! ToSet(s.slots.empty)
  {
    forall v | v in ToSet(s.slots.empty) ensures v !in s.linked && v !in FrozenSet(cfg) {
      assert Classes(v, s.slots) == Bit(v < s.slots.max);
    }
  }

  lemma {:induction false} EdgesAlwaysWired(cfg: Config, actions: seq<Action>)
    requires !cfg.conc && Run(cfg, actions).Some?
    ensures EdgeInv(cfg, Run(cfg, actions).value)
  {
    if actions == [] {
      InitEdges(cfg);
    } else {
      var init := actions[..|actions| - 1];
      EdgesAlwaysWired(cfg, init);
      SlotsAlwaysPartitioned(cfg, init);
      EdgesKept(cfg, Run(cfg, init).value, actions[|actions| - 1]);
    }
  }

  lemma CompactableNeverDangles(cfg: Config, s: State)
    requires SlotsOk(cfg, s) && EdgeInv(cfg, s) && !s.running && s.tasks == map[] && MayCompact(s.slots)
    ensures IndexStore.NoDanglingIn(s.graph, s.slots.locToTag, cfg.max)
  {
    assert NonEmpty(s.slots) == s.slots.locToTag.Keys;
    QuiescentNeverDangles(cfg, s.slots.locToTag, s.graph, s.linked);
  }

  /** In an exclusive run compact_data never meets a reference to an untagged slot. */
  lemma CompactionDropsNothing(cfg: Config, actions: seq<Action>)
    requires !cfg.conc && Run(cfg, actions).Some?
    ensures var s := Run(cfg, actions).value;
            !s.running && s.tasks == map[] && MayCompact(s.slots) ==> IndexStore.NoDanglingIn(s.graph, s.slots.locToTag, cfg.max)
  {
    EdgesAlwaysWired(cfg, actions);
    SlotsAlwaysPartitioned(cfg, actions);
    var s := Run(cfg, actions).value;
    if !s.running && s.tasks == map[] && MayCompact(s.slots) {
      CompactableNeverDangles(cfg, s);
    }
  }

  /** A node whose list counts: frozen, or in use and past its first link. */
  ghost predicate InUse(cfg: Config, s: State, u: nat) {
    u in FrozenSet(cfg) || (u in NonEmpty(s.slots) && !AwaitsLink(s.tasks, u))
  }

  /** Every edge of a node in use ends at a frozen point or a non-empty slot. */
  ghost predicate NoDangling(cfg: Config, s: State) {
    forall u: nat :: InUse(cfg, s, u) && u < |s.graph| ==> ToSet(s.graph[u]) <= FrozenSet(cfg) + NonEmpty(s.slots)
  }

  lemma WiredNeverDangles(cfg: Config, s: State)
    requires EdgeInv(cfg, s)
    ensures NoDangling(cfg, s)
  {
    forall u: nat | InUse(cfg, s, u) && u < |s.graph| ensures ToSet(s.graph[u]) <= FrozenSet(cfg) + NonEmpty(s.slots) {
      assert u in Targets(cfg, s);
    }
  }

  /** With exclusive consolidation no reachable state has a dangling edge. */
  lemma ExclusiveNeverDangles(cfg: Config, actions: seq<Action>)
    requires !cfg.conc && Run(cfg, actions).Some?
    ensures NoDangling(cfg, Run(cfg, actions).value)
  {
    EdgesAlwaysWired(cfg, actions);
    WiredNeverDangles(cfg, Run(cfg, actions).value);
  }

  /** So a slot that is about to be reused has no incoming edge. */
  lemma ReusedSlotIsUnreferenced(cfg: Config, actions: seq<Action>)
    requires !cfg.conc && Run(cfg, actions).Some?
    ensures var s := Run(cfg, actions).value;
            forall u: nat, loc :: InUse(cfg, s, u) && u < |s.graph| && loc in s.slots.empty ==> loc !in ToSet(s.graph[u])
  {
    ExclusiveNeverDangles(cfg, actions);
    SlotsAlwaysPartitioned(cfg, actions);
    EmptyUnreferenced(cfg, Run(cfg, actions).value);
  }

  lemma EmptyUnreferenced(cfg: Config, s: State)
    requires SlotsOk(cfg, s) && NoDangling(cfg, s)
    ensures forall u: nat, loc :: InUse(cfg, s, u) && u < |s.graph| && loc in s.slots.empty ==> loc !in ToSet(s.graph[u])
  {
    forall u: nat, loc | InUse(cfg, s, u) && u < |s.graph| && loc in s.slots.empty ensures loc !in ToSet(s.graph[u]) {
      assert loc in ToSet(s.slots.empty);
      assert Classes(loc, s.slots) == Bit(loc < s.slots.max);
    }
  }
}
