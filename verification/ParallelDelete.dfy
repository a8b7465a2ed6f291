// src/index.cpp, consolidate_deletes: the parallel loop of process_delete calls, down
// to its single reads and writes of lists, with the update lock held.

module ParallelDelete {
  import opened Graphs
  import IndexMachine

  /** Where a call stands: before its first read, looking at entry `next` of its own
      list with the candidates found so far, or done. */
  datatype Call = Waiting | Looking(list: seq<nat>, next: nat, found: set<nat>) | Done

  /** occlude_list, or all candidates when they are few: a node's new list. */
  type Choice = (nat, set<nat>) -> seq<nat>

  datatype State = State(graph: Graph, calls: map<nat, Call>)

  /** One access of one call to the lists. */
  datatype Access = Start(loc: nat) | Look(loc: nat) | Write(loc: nat)

  /** What a look at entry `ngh` adds. */
  ghost function Candidates(g: Graph, taken: set<nat>, loc: nat, ngh: nat): set<nat> {
    if ngh !in taken then {ngh}
    else if ngh < |g| then set j | j in ToSet(g[ngh]) && j != loc && j !in taken
    else {}
  }

  ghost function Next(taken: set<nat>, pick: Choice, s: State, a: Access): State {
    if a.loc !in s.calls || a.loc >= |s.graph| then s
    else
      var call := s.calls[a.loc];
      match a
      case Start(loc) => if call.Waiting? then s.(calls := s.calls[loc := Looking(s.graph[loc], 0, {})]) else s
      case Look(loc) =>
        if call.Looking? && call.next < |call.list| then
          var found := call.found + Candidates(s.graph, taken, loc, call.list[call.next]);
          s.(calls := s.calls[loc := Looking(call.list, call.next + 1, found)])
        else s
      case Write(loc) =>
        if call.Looking? && call.next == |call.list| then
          var graph := if ToSet(call.list) !! taken then s.graph else s.graph[loc := pick(loc, call.found)];
          State(graph, s.calls[loc := Done])
        else s
  }

  ghost function Run(g: Graph, work: set<nat>, taken: set<nat>, pick: Choice, accesses: seq<Access>): State {
    if accesses == [] then State(g, map loc | loc in work :: Waiting)
    else Next(taken, pick, Run(g, work, taken, pick, accesses[..|accesses| - 1]), accesses[|accesses| - 1])
  }

  /** What the first k entries of a list contribute, in the graph before the loop. */
  ghost function FoundIn(g: Graph, taken: set<nat>, loc: nat, list: seq<nat>, k: nat): set<nat>
    requires k <= |list|
  {
    if k == 0 then {} else FoundIn(g, taken, loc, list, k - 1) + Candidates(g, taken, loc, list[k - 1])
  }

  /** All entries together are the candidates of an undisturbed call. */
  lemma FoundAll(g: Graph, taken: set<nat>, loc: nat)
    requires loc < |g|
    ensures FoundIn(g, taken, loc, g[loc], |g[loc]|) == IndexMachine.Expanded(g, taken, loc)
  {
    FoundMembers(g, taken, loc, g[loc], |g[loc]|);
    forall v ensures v in FoundIn(g, taken, loc, g[loc], |g[loc]|) <==> v in IndexMachine.Expanded(g, taken, loc) {
    }
  }

  lemma {:induction false} FoundMembers(g: Graph, taken: set<nat>, loc: nat, list: seq<nat>, k: nat)
    requires k <= |list|
    ensures forall v :: v in FoundIn(g, taken, loc, list, k) <==> exists i :: 0 <= i < k && v in Candidates(g, taken, loc, list[i])
  {
    if k > 0 {
      FoundMembers(g, taken, loc, list, k - 1);
    }
  }

  /** The loop's result: each node that had an edge into the deleted set gets the
      choice among its undisturbed candidates. */
  ghost function Repaired(g: Graph, taken: set<nat>, pick: Choice, u: nat): seq<nat>
    requires u < |g|
  {
    if ToSet(g[u]) !! taken then g[u] else pick(u, IndexMachine.Expanded(g, taken, u))
  }

  /** A node's list and its call: before the write the list is the old one, and the
      call has found what it would find alone. */
  ghost predicate CallOk(g: Graph, taken: set<nat>, pick: Choice, u: nat, now: seq<nat>, call: Call)
    requires u < |g|
  {
    match call
    case Waiting => now == g[u]
    case Looking(list, next, found) => now == list == g[u] && next <= |g[u]| && found == FoundIn(g, taken, u, g[u], next)
    case Done => now == Repaired(g, taken, pick, u)
  }

  ghost predicate Undisturbed(g: Graph, work: set<nat>, taken: set<nat>, pick: Choice, s: State) {
    && |s.graph| == |g| && s.calls.Keys == work
    && (forall u :: 0 <= u < |g| && u !in work ==> s.graph[u] == g[u])
    && (forall u :: 0 <= u < |g| && u in work ==> CallOk(g, taken, pick, u, s.graph[u], s.calls[u]))
  }

  lemma LookOk(g: Graph, work: set<nat>, taken: set<nat>, pick: Choice, s: State, loc: nat)
    requires work !! taken && Undisturbed(g, work, taken, pick, s) && loc in work && loc < |g|
    requires s.calls[loc].Looking? && s.calls[loc].next < |s.calls[loc].list|
    ensures var c := s.calls[loc];
            CallOk(g, taken, pick, loc, s.graph[loc],
                   Looking(c.list, c.next + 1, c.found + Candidates(s.graph, taken, loc, c.list[c.next])))
  {
    assert CallOk(g, taken, pick, loc, s.graph[loc], s.calls[loc]);
    var ngh := g[loc][s.calls[loc].next];
    assert ngh in taken && ngh < |g| ==> s.graph[ngh] == g[ngh];
    assert Candidates(s.graph, taken, loc, ngh) == Candidates(g, taken, loc, ngh);
  }

  lemma WriteOk(g: Graph, work: set<nat>, taken: set<nat>, pick: Choice, s: State, loc: nat)
    requires Undisturbed(g, work, taken, pick, s) && loc in work && loc < |g|
    requires s.calls[loc].Looking? && s.calls[loc].next == |s.calls[loc].list|
    ensures CallOk(g, taken, pick, loc, if ToSet(s.calls[loc].list) !! taken then s.graph[loc] else pick(loc, s.calls[loc].found), Done)
  {
    assert CallOk(g, taken, pick, loc, s.graph[loc], s.calls[loc]);
    FoundAll(g, taken, loc);
  }

  lemma StepUndisturbed(g: Graph, work: set<nat>, taken: set<nat>, pick: Choice, s: State, a: Access)
    requires work !! taken && Undisturbed(g, work, taken, pick, s)
    ensures Undisturbed(g, work, taken, pick, Next(taken, pick, s, a))
  {
    var loc := a.loc;
    if loc in work && loc < |g| {
      assert CallOk(g, taken, pick, loc, s.graph[loc], s.calls[loc]);
      if a.Look? && s.calls[loc].Looking? && s.calls[loc].next < |s.calls[loc].list| {
        LookOk(g, work, taken, pick, s, loc);
      } else if a.Write? && s.calls[loc].Looking? && s.calls[loc].next == |s.calls[loc].list| {
        WriteOk(g, work, taken, pick, s, loc);
      }
    }
  }

  lemma {:induction false} AlwaysUndisturbed(g: Graph, work: set<nat>, taken: set<nat>, pick: Choice, accesses: seq<Access>)
    requires work !! taken
    ensures Undisturbed(g, work, taken, pick, Run(g, work, taken, pick, accesses))
  {
    if accesses != [] {
      var init := accesses[..|accesses| - 1];
      AlwaysUndisturbed(g, work, taken, pick, init);
      StepUndisturbed(g, work, taken, pick, Run(g, work, taken, pick, init), accesses[|accesses| - 1]);
    }
  }

  ghost predicate AllDone(work: set<nat>, s: State) {
    forall u :: u in work ==> u in s.calls && s.calls[u].Done?
  }

  /** Whatever the interleaving of the reads and writes of all calls: once all are
      done, the lists are the same. */
  lemma LoopDetermined(g: Graph, work: set<nat>, taken: set<nat>, pick: Choice, accesses: seq<Access>)
    requires work !! taken && AllDone(work, Run(g, work, taken, pick, accesses))
    ensures Run(g, work, taken, pick, accesses).graph
         == seq(|g|, u requires 0 <= u < |g| => if u in work then Repaired(g, taken, pick, u) else g[u])
  {
    AlwaysUndisturbed(g, work, taken, pick, accesses);
    var s := Run(g, work, taken, pick, accesses);
    forall u | 0 <= u < |g| ensures s.graph[u] == if u in work then Repaired(g, taken, pick, u) else g[u] {
      assert u in work ==> CallOk(g, taken, pick, u, s.graph[u], s.calls[u]);
    }
  }
}
