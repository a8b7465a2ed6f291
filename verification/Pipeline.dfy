// The stages of construction/run_sigma_pipeline.py joined: bucket logs to
// candidates to pruned graph, reverse edges and a second prune, then the disk
// layout the search reads.

module Pipeline {
  import opened Arithmetic
  import opened Bytes
  import opened Graphs
  import opened Occlusion
  import RecordLog
  import opened LogRuns
  import opened LogCompaction
  import opened StreamPrune
  import opened GraphFile
  import opened ReverseEdges
  import opened CandidateFiles
  import opened PqDistance
  import PruneLoops
  import CacheLoad
  import DiskLayout
  import DiskIndex
  import DiskGraph
  import StripeBudget

  /** The graph that a set of appended records stands for. */
  ghost function PrunedGraph(cfg: Config, logRecs: seq<seq<RecordLog.Rec>>, d: Metric, r: nat): seq<seq<nat>>
    requires cfg.buckets > 0 && |logRecs| == cfg.buckets
  {
    PrunedLists(d, AllLists(cfg, logRecs), r)
  }

  /** Compaction and first prune. */
  method LogsToGraphFile(cfg: Config, logs: seq<seq<byte>>, d: Metric, r: nat, metaRows: nat, budget: nat,
                         schedule: nat -> seq<nat>, ghost logRecs: seq<seq<RecordLog.Rec>>) returns (file: seq<byte>)
    requires cfg.buckets > 0 && |logs| == cfg.buckets && LogsOk(cfg, logs, logRecs)
    requires IsMetric(d) && IsSchedule(schedule) && cfg.n <= U32_LIMIT && r < U32_LIMIT && 1 <= metaRows
    requires GraphFile.Fits(PrunedGraph(cfg, logRecs, d, r), 0, 0)
    ensures file == FileOf(PrunedGraph(cfg, logRecs, d, r), 0, 0)
  {
    var f := CompactAll(cfg, logs, logRecs);
    file := PruneToFile(d, f, r, metaRows, budget, schedule, AllLists(cfg, logRecs));
  }

  /** Two complete runs over the same records, with any threads, buffer sizes,
      bucket counts and interleavings, end in the same graph. */
  lemma InterleavingsAgree(cfg1: Config, run1: seq<Action>, cfg2: Config, run2: seq<Action>, d: Metric, r: nat)
    requires cfg1.buckets > 0 && cfg2.buckets > 0 && cfg1.n == cfg2.n
    requires Drained(cfg1, Run(cfg1, run1)) && Drained(cfg2, Run(cfg2, run2))
    requires Run(cfg1, run1).put == Run(cfg2, run2).put
    ensures PrunedGraph(cfg1, Run(cfg1, run1).logRecs, d, r) == PrunedGraph(cfg2, Run(cfg2, run2).logRecs, d, r)
  {
    var a, b := AllLists(cfg1, Run(cfg1, run1).logRecs), AllLists(cfg2, Run(cfg2, run2).logRecs);
    forall gid | 0 <= gid < cfg1.n ensures ToSet(a[gid]) == ToSet(b[gid]) {
      RunsAgree(cfg1, run1, cfg2, run2, gid);
      CacheLoad.SameElements(a[gid], b[gid]);
    }
    PruneIgnoresOrder(d, a, b, r);
  }

  /** The streamed prune over the lookup tables: the file is that of the prune by the
      distances of the decoded points. */
  method PruneByTables(pq: Pq, f: CandFile, r: nat, metaRows: nat, budget: nat, schedule: nat -> seq<nat>,
                       ghost lists: seq<seq<nat>>) returns (file: seq<byte>)
    requires pq.Valid() && IsSchedule(schedule) && Holds(f, lists) && |lists| <= U32_LIMIT && r < U32_LIMIT && 1 <= metaRows
    requires GraphFile.Fits(PrunedLists(PqMetric(pq), lists, r), 0, 0)
    ensures file == FileOf(PrunedLists(PqMetric(pq), lists, r), 0, 0)
  {
    var cc := BuildLuts(pq);
    TableIsDecoded(pq, cc);
    ListsAgree(TableMetric(pq, cc), PqMetric(pq), lists, r);
    file := PruneToFile(TableMetric(pq, cc), f, r, metaRows, budget, schedule, lists);
  }

  lemma ListsAgree(d: Metric, e: Metric, lists: seq<seq<nat>>, r: nat)
    requires Agree(d, e)
    ensures PrunedLists(d, lists, r) == PrunedLists(e, lists, r)
  {
    var a, b := PrunedLists(d, lists, r), PrunedLists(e, lists, r);
    forall u | 0 <= u < |lists| ensures a[u] == b[u] {
      PruneSetAgrees(d, e, u, PruneLoops.ValidSet(lists[u], |lists|, u), r);
    }
  }

  /** A pruned graph only refers to its own nodes. */
  lemma PrunedClosed(d: Metric, lists: seq<seq<nat>>, r: nat)
    requires |lists| <= U32_LIMIT && r < U32_LIMIT
    ensures Closed(PrunedLists(d, lists, r))
  {
    var g := PrunedLists(d, lists, r);
    forall u, i | 0 <= u < |g| && 0 <= i < |g[u]| ensures g[u][i] < |g| {
      PrunedFacts(d, lists, r, u);
      assert g[u][i] in ToSet(g[u]);
    }
  }

  /** The reverse-edge stage and the second prune.  Every memory plan that gets
      past the check of the first node, and every budget, give the same file. */
  method SymmetrizeAndPrune(file: seq<byte>, d: Metric, r: nat, plan: StripeBudget.Plan, metaRows: nat, budget: nat,
                            schedule: nat -> seq<nat>, ghost lists: seq<seq<nat>>)
    returns (ok: bool, out: seq<byte>)
    requires IsMetric(d) && IsSchedule(schedule) && |lists| <= U32_LIMIT && r < U32_LIMIT && 1 <= metaRows && plan.n == |lists|
    requires GraphFile.Fits(PrunedLists(d, lists, r), 0, 0) && file == FileOf(PrunedLists(d, lists, r), 0, 0)
    requires var g := PrunedLists(d, lists, r); GraphFile.Fits(PrunedLists(d, Slices(g, 0, |g|), r), 0, 0)
    ensures ok <==> FirstFits(plan, PrunedLists(d, lists, r))
    ensures var g := PrunedLists(d, lists, r); ok ==> out == FileOf(PrunedLists(d, Slices(g, 0, |g|), r), 0, 0)
  {
    var n := CountNodes(file, PrunedLists(d, lists, r), 0, 0);
    var g := ScanGraph(file, n, PrunedLists(d, lists, r), 0, 0);
    PrunedClosed(d, lists, r);
    var outcome, f := BuildReverseCandidates(g, plan);
    ok, out := outcome.Written?, [];
    if ok {
      out := PruneToFile(d, f, r, metaRows, budget, schedule, Slices(g, 0, |g|));
    }
  }

  /** Laid out with the degree from its header and opened again from the file alone,
      a graph is read back whole: no list is clipped, so what the search fetches is
      what the prune wrote. */
  lemma GraphSurvivesLayout(file: seq<byte>, nodes: seq<DiskLayout.Node>, s: DiskIndex.Shape, lists: seq<seq<nat>>)
    requires DiskIndex.IsIndex(file, nodes, s) && s.width == MaxDegree(lists) && |nodes| == |lists|
    requires forall u :: 0 <= u < |lists| ==> nodes[u].nbrs == lists[u]
    requires DiskIndex.LoadMetadata(file).Some?
    ensures var m := DiskIndex.LoadMetadata(file).value;
            m.maxNodeLen >= Mul(m.dataDim, s.bytes) + 4 && DiskGraph.Stores(DiskIndex.Opened(file, m, s.bytes), lists)
  {
    DiskIndex.IndexRoundTrip(file, nodes, s);
    NoneClipped(nodes, lists);
  }

  lemma NoneClipped(nodes: seq<DiskLayout.Node>, lists: seq<seq<nat>>)
    requires |nodes| == |lists| && forall u :: 0 <= u < |lists| ==> nodes[u].nbrs == lists[u]
    ensures seq(|nodes|, i requires 0 <= i < |nodes| => nodes[i].nbrs[..DiskLayout.Clip(|nodes[i].nbrs|, MaxDegree(lists))]) == lists
  {
    forall u | 0 <= u < |lists| ensures nodes[u].nbrs[..DiskLayout.Clip(|nodes[u].nbrs|, MaxDegree(lists))] == lists[u] {
      NotClipped(lists, u);
    }
  }

  lemma NotClipped(lists: seq<seq<nat>>, u: nat)
    requires u < |lists|
    ensures lists[u][..DiskLayout.Clip(|lists[u]|, MaxDegree(lists))] == lists[u]
  {
    MaxDegreeIs(lists);
  }
}
