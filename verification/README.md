# HiDANN in Dafny

HiDANN builds a proximity graph out of core under a memory budget, lays it out
on disk, and searches it through a cache.  This project models its four
connected parts and proves what they promise each other.

* **Search core.**  The bounded priority queue, the greedy search to a fixed
  point, the cached beam search, the cache (open addressing or a dense table)
  and the breadth-first choice of what to cache.
* **Out-of-core construction.**  Per-thread staging buffers, bucket logs, the
  two-pass compaction into candidate files, the streamed prune, the striped
  reverse-edge pass, the pair schedule and the memory-budget searches.
* **Dynamic index.**  Slots reserved, lazily deleted, consolidated, compacted
  and repositioned, as a state machine over every interleaving, and the in-place
  operations as methods of a class.
* **Disk layout.**  The sector writer and its readers, the graph file, and the
  cached sequential streams.

The main theorems are `GreedySearch.FixedPointTheorem`,
`BeamSearch.Traverse` with `CacheEffect.CacheNeverShowsExactly`,
`CacheLoad.NodeCache.LoadCacheList`,
`BfsCache.CacheBfsLevels`, `Pipeline.InterleavingsAgree`,
`StreamPrune.PruneToFile`, `ReverseEdges.StripedFill`,
`Occlusion.OcclusionTheorem`, `IndexMachine.SlotsAlwaysPartitioned`,
`ConcurrentRace.NeverDanglesExactly`, `IndexStore.Store.CompactData` with
`IndexStore.CompactionIsIsomorphism`, `CompactedFlag.PackedExactly` with
`IndexStore.Store.Save` and `DiskIndex.IndexRoundTrip`.

`dafny verify dfyconfig.toml` checks everything.

## Files

One module a file.

| modules | subject |
|---|---|
| `Wrappers`, `Arithmetic`, `Graphs`, `Sorting` | helpers |
| `Neighbors`, `Closest`, `NeighborPriorityQueues`, `QueueHistory` | the priority queue and its histories |
| `Traversal`, `GreedySearch`, `BeamRounds`, `CacheEffect`, `BeamSearch` | the two searches |
| `CacheHash`, `CacheLoad`, `BfsCache` | the node cache |
| `Bytes`, `DiskLayout`, `DiskGraph`, `DiskIndex`, `GraphFile`, `CachedIo` | formats and streams |
| `NaturalNumberSets`, `SlotMachine`, `IndexMachine` | the dynamic index as a state machine |
| `FirstInsert`, `ConcurrentRace`, `FirstLink`, `FreeListBits`, `CompactedFlag`, `ParallelDelete` | what its runs can and cannot reach |
| `IndexStore`, `Reposition` | compaction, repositioning and saving in place |
| `Buckets`, `RecordLog`, `Staging`, `LogRuns`, `LogCompaction` | bucket logs |
| `Ranking`, `Occlusion`, `PruneLoops`, `PqDistance`, `StreamPrune` | pruning |
| `Segments`, `CandidateFiles`, `ReverseEdges` | counting fills and reverse edges |
| `Extremes`, `StripeBudget`, `BatchBudget`, `PartitionBudget` | budget searches |
| `PairMask`, `PairSchedule`, `Pipeline` | pair order, the stages joined |

## Assumptions

* Distances are a function of the ids into the reals: exact, totally ordered, no
  NaN.  Pruning asks for d >= 0 and d(v, v) = 0.
* The queue has room for at least one entry.  Out-degrees in log records fit 16
  bits, ids 32 bits, file sizes 64 bits; counters do not overflow.
* One `write` on a descriptor opened with O_APPEND is atomic; the program aborts
  on a short one.
* Pruning runs with T = 1 and exact occlusion with alpha = 1, as every pipeline
  call does.
* The dynamic index is unfiltered, with tags, and starts from its constructor.
* A pruned list is a function of the candidate set.  `process_delete` iterates a hash
  set whose order can depend on how its reused scratch has grown, so there the order of
  a short list is not fixed.
* A parallel loop is any order of its iterations (a `schedule` argument); the
  locks of the dynamic index decide which of its steps are atomic.

## What the code does not quite promise

* **Queue, repeated ids.**  The header comment says an id already in the list is
  dropped (`include/neighbor.h:50-54`).  An id that comes back with another
  distance can be listed twice: `QueueHistory.RepeatedIdListedTwice`.
  `QueueHistory.RepeatedIdDropped` gives the exact condition, and
  `QueueHistory.SameDistanceDropped` the case every caller is in.
* **Cache content.**  A cached node's list is known one round earlier, which can show
  in the result.  `CacheEffect.CacheNeverShowsExactly`: all finished searches that
  differ in their caches alone visit the same nodes, and return the same list, exactly
  when the beam has width one or the list one entry.  `CacheEffect.CacheShows` gives,
  for every other width and list size, two searches that differ in one cached node; one
  of them misses the closest node.  A search with every node cached is greedy at any
  width (`CacheEffect.GreedyWhen`), and with the same nodes cached the run is determined
  (`BeamRounds.BeamDetermined`).  A search that its I/O limit ends is not finished.
* **Concurrent consolidation.**  `inter_insert` links back to the new node without
  looking whether it is still there.  If its tag is deleted and a consolidation
  releases the slot in between, a list ends up with an empty slot:
  `ConcurrentRace.DanglingRun`.  `ConcurrentRace.NeverDanglesExactly` says which
  configurations exclude dangling edges: exclusive consolidation, or no slot, or no
  frozen point.
* **Inherited lists.**  Releasing a slot does not clear its list, so a reused slot
  still has its former owner's edges until its insert links it, and those may name
  empty slots also with exclusive consolidation (`FirstLink.StaleRun`).
  `FirstLink.StaleExactly`: possible exactly with two slots and a frozen point, and
  only for a slot not linked yet; `FirstLink.WaitingSlotIsUnreferenced` shows why no
  search meets such a list.
* **Count check.**  `consolidate_deletes` compares counts before it tries the
  consolidation lock, so it reports inconsistent counts exactly when another
  consolidation has taken a non-empty delete set (`SlotMachine.ConsolidateChecks`,
  reached in `ConcurrentRace.CountErrorReached`).
* **Free-slot bitset.**  `compact_data` rebuilds the free list.  If no slot is free
  the bitset is left empty, and `is_in_set` then tests a bit it does not have.
  `FreeListBits.StraysExactly`: over every run, a test falls behind the end of the
  bitset exactly when one is made after a compaction of a full index;
  `FreeListBits.StrayRun` is such a run.
* **Compacted flag and saving.**  Slots are handed out from the back of the free list
  while `_data_compacted` stays true, so live slots need not be [0, nd) although
  `compact_data` then does nothing (`CompactedFlag.FirstInsertUnpacked`).
  `CompactedFlag.PackedExactly` has the exact condition: the free list is used up, or
  its last entry is the last slot.  `save` relies on the flag: it writes the first nd
  slots and the frozen points, and borrows the slots [nd, nd + frozen) meanwhile.
  `IndexStore.Store.Save`: if the compaction ran, every live list and vector comes
  back; otherwise, with non-zero vectors and no dangling references, exactly when no
  live slot is borrowed.  `CompactedFlag.RestoredOverRuns`: in exclusive runs there are
  no dangling references, and a live slot is borrowed exactly when the free list ends
  before the last borrowed slot (`CompactedFlag.BorrowedExactly`).
* **Saving without compaction.**  The frozen points have not been moved to nd then,
  but are moved back from there all the same.  `IndexStore.Store.SaveAsIs` has the exact
  conditions for their vectors, their lists and for everything live
  (`IndexStore.SurvivesAsIs`); in a packed index with a free slot the entry point keeps
  its list only if that is bare.  `CompactedFlag.FrozenOverwritten` is a run, for every
  index of two slots or more with a frozen point, after which the entry point loses its
  only edge and takes the vector of slot 1.  A build with assertions stops at the swap
  of an occupied slot instead.
* **Budgets.**  The stripe and batch searches fall back to one node even if that
  node does not fit.  `StripeBudget.StripeWithinBudget` and
  `BatchBudget.BatchWithinBudget` say exactly when the choice is within budget;
  `ReverseEdges.SecondStripeTooLarge` is a graph of three nodes, with the default
  safety share and stripe limit, that passes the check before filling, which covers the
  first node only; `BatchBudget.FirstNodeTooLarge` has no such check.
* **Size of a rewritten file.**  `cached_ofstream` counts every byte written.
  `CachedIo.CountedExactly`: over any operations its size is that of the file exactly
  when every non-empty write started at the end, and larger otherwise;
  `CachedIo.RewriteCountsTwice` rewrites a header.
* **Slack factor.**  The driver uses 1.3 and the C++ code the float 1.3f, which
  is slightly smaller.  `PartitionBudget.DriverPasses` accounts for it.

## Model

| member | source | states |
|---|---|---|
| `Neighbors.ProbeSplits` | include/neighbor.h:62-79 | in a sorted list the binary search ends at the slot that splits the list at the newcomer, unless it meets the newcomer's id |
| `Neighbors.InsertedSorted` | include/neighbor.h:55-94 | any insertion keeps the list strictly sorted, never shrinks it and never exceeds the capacity |
| `Closest.RepresentsTop` | include/neighbor.h:55-94 | the list holds exactly the `capacity` closest of all ids visited, in both directions |
| `Closest.RepresentsUnique` | include/neighbor.h:55-105 | what was visited and expanded determines the list entry by entry |
| `Closest.InsertRepresents` | include/neighbor.h:55-94 | inserting an id, new or seen before, keeps that; a dropped or expanded entry never returns unexpanded |
| `Closest.FirstUnexpandedIsNext` | include/neighbor.h:96-110 | the first unexpanded entry is the closest unexpanded one of the top list; with none left the whole top list is expanded |
| `Closest.ExpandRepresents` | include/neighbor.h:96-105 | expanding an entry changes only its mark |
| `NeighborPriorityQueues.NeighborPriorityQueue.constructor` | include/neighbor.h:46-48 | an empty queue with one spare slot |
| `NeighborPriorityQueues.NeighborPriorityQueue.Insert` | include/neighbor.h:55-94 | in place, within capacity + 1 slots, the contents become the specified insertion and the cursor stays at the first unexpanded entry |
| `NeighborPriorityQueues.NeighborPriorityQueue.FindSlot` | include/neighbor.h:62-79 | the loop computes the specified probe |
| `NeighborPriorityQueues.NeighborPriorityQueue.SpliceInto` | include/neighbor.h:81-93 | shift, store, grow and cursor pull-back together splice one entry |
| `NeighborPriorityQueues.NeighborPriorityQueue.ShiftUp` | include/neighbor.h:81-84 | the overlapping move shifts the tail by one and keeps the front |
| `NeighborPriorityQueues.NeighborPriorityQueue.ClosestUnexpanded` | include/neighbor.h:96-105 | hands out the first unexpanded entry, marks it and only it, and moves the cursor to the next one |
| `NeighborPriorityQueues.NeighborPriorityQueue.HasUnexpandedNode` | include/neighbor.h:107-110 | the cursor test means that some entry is unexpanded |
| `NeighborPriorityQueues.NeighborPriorityQueue.Reserve` | include/neighbor.h:122-129 | same contents under the new capacity; the queue stays usable if and only if its entries fit |
| `NeighborPriorityQueues.NeighborPriorityQueue.Clear` | include/neighbor.h:141-145 | empties the list, keeps the capacity |
| `NeighborPriorityQueues.InsertedCursor` | include/neighbor.h:90-93 | the pulled-back cursor is again the first unexpanded entry |
| `QueueHistory.QueueIsTop` | include/neighbor.h:55-110 | after any sequence of inserts and expansions the queue is exactly the `capacity` closest ids ever inserted, strictly sorted, each marked if and only if it was handed out |
| `QueueHistory.RepeatedIdDropped` | include/neighbor.h:50-79 | an id already listed is dropped if and only if the list is full and the newcomer is past its end, or an entry of that id that is not behind it lies on the search path; also in lists that hold ids several times |
| `QueueHistory.SameDistanceDropped` | include/neighbor.h:50-79 | with one distance per id a repeated id is always dropped |
| `QueueHistory.RepeatedIdListedTwice` | include/neighbor.h:50-54 | concrete input on which the header's promise fails |
| `Traversal.ReachedClosed` | src/index.cpp:3411-3464 | visited is exactly the start set with all out-neighbours of all expanded nodes |
| `Traversal.GreedyOrderDistinct` | src/index.cpp:3429-3437 | no node is expanded twice |
| `Traversal.GreedyOrderUnique` | src/index.cpp:3411-3464 | graph, distances, L and start set determine the run |
| `GreedySearch.IterateToFixedPoint` | src/index.cpp:3411-3466 | terminates on every graph with a greedy run that is a fixed point; list, visited set, emitted distances, hop and comparison counts are exact |
| `GreedySearch.Begin` | src/index.cpp:3411-3425 | the search state after the start nodes |
| `GreedySearch.Seed` | src/index.cpp:3411-3425 | every start node is offered once |
| `GreedySearch.Hop` | src/index.cpp:3429-3463 | one hop extends the greedy run by the closest unexpanded node and keeps the list exact |
| `GreedySearch.Pop` | src/index.cpp:3431-3433 | takes the next node of the run off the queue |
| `GreedySearch.Unvisited` | src/index.cpp:3441-3446 | collects the unvisited neighbours, repeats included |
| `GreedySearch.Visit` | src/index.cpp:3441-3463 | all neighbours become visited and the list is their top again |
| `GreedySearch.InsertAll` | src/index.cpp:3455-3463 | offering a batch equals adding its set |
| `GreedySearch.FixedPointTheorem` | src/index.cpp:3411-3464 | at the end every one of the L closest visited nodes is expanded, none twice, visited is closed under out-neighbours of expanded nodes and contains nothing else, and the run is the only one |
| `BeamSearch.Traverse` | search/ours_search.cpp:383-525 | for every cache content, beam width and I/O limit exactly the beam run of that cache: no node twice, exact list and visited set, a fixed point unless the limit was reached, a greedy run at width 1; expansions = hits + reads, rounds = I/O + no-I/O rounds, reads at most limit + width - 1, comparisons = out-degrees of the expanded nodes |
| `BeamSearch.OneRound` | search/ours_search.cpp:399-525 | one pass of the outer loop appends one specified round |
| `BeamSearch.CollectOne` | search/ours_search.cpp:406-453 | one pop extends the round |
| `BeamRounds.BeamDetermined` | search/ours_search.cpp:399-525 | at any width, inputs and cached ids determine the finished traversal |
| `CacheEffect.PromptGreedy` | search/ours_search.cpp:399-525 | a run whose rounds wait for a disk read at their last pop only is a greedy run |
| `CacheEffect.GreedyWhen` | search/ours_search.cpp:399-525 | at width one, with one list entry, or with every node cached, a run is a greedy run |
| `CacheEffect.SameOrder` | search/ours_search.cpp:399-525 | at width one, or with one list entry and any widths, two finished searches expand the same nodes in the same order whatever they have cached |
| `CacheEffect.RunOn` | search/ours_search.cpp:399-525 | from any point a traversal of a closed graph goes on to an end |
| `CacheEffect.CachedMisses` | search/ours_search.cpp:406-453 | for every width and list size, a graph on which no search with node 1 cached visits the closest node |
| `CacheEffect.UncachedFinds` | search/ours_search.cpp:406-525 | from width and list size two on, a finished search of that graph without a cache returns it |
| `CacheEffect.CacheShows` | search/ours_search.cpp:399-525 | two finished searches that differ in one cached node and in their result |
| `CacheEffect.CacheNeverShowsExactly` | search/ours_search.cpp:399-525 | for all graphs, distances, start nodes and caches finished searches visit the same nodes and return the same list if and only if the width is one or the list has one entry |
| `BeamSearch.Collect` | search/ours_search.cpp:404-454 | one round pops as its specification says, expanding cached nodes on the spot and leaving the rest in the frontier |
| `BeamSearch.PopOne` | search/ours_search.cpp:406-453 | one pop keeps the traversal invariant whichever branch it takes |
| `BeamSearch.FromCache` | search/ours_search.cpp:412-436 | a hit if and only if the id was cached, and then the exact disk list |
| `BeamSearch.ReadFrontier` | search/ours_search.cpp:457-520 | every waiting node is read and expanded |
| `BeamSearch.ReadOne` | search/ours_search.cpp:499-520 | the read decodes the node's list and visits it |
| `BeamSearch.VisitEach` | search/ours_search.cpp:442-446 | inserting on first visit equals adding the set of neighbours |
| `BeamSearch.ReachedBySet` | search/ours_search.cpp:399-525 | the visited set depends on which nodes were expanded, not on the order |
| `BeamSearch.BeamOneIsGreedy` | search/ours_search.cpp:399-525 | at beam width 1 without limit, cached and uncached traversal expand the same nodes in the same order and end with the same visited set and list |
| `CacheHash.TableCapacity` | search/ours_search.cpp:66-76 | load factor at most 3/4, so never full |
| `CacheHash.AbsentAfterProbe` | search/ours_search.cpp:106-129 | a probe that meets a hole, or goes all the way round, has proved absence |
| `CacheHash.StoreKeepsChains` | search/ours_search.cpp:87-100 | storing where the probe stopped keeps every other id reachable |
| `CacheHash.FullTable` | search/ours_search.cpp:87-102 | a table without holes holds as many ids as slots |
| `CacheHash.CompactHash.Init` | search/ours_search.cpp:66-76 | the empty map with room for `n` ids, whatever was there; for zero ids the old table stays |
| `CacheHash.CompactHash.Insert` | search/ours_search.cpp:79-103 | refines map update; each exception has its exact condition, "full" only when a new id meets as many ids as slots |
| `CacheHash.CompactHash.Find` | search/ours_search.cpp:106-129 | refines map lookup: found if and only if present with an offset other than the sentinel |
| `DiskGraph.Fetch` | search/ours_data_interfaces.cpp:90-165 | reading a node's sectors and decoding at the pointer gives its list |
| `DiskGraph.LayoutStores` | src/disk_utils.cpp:940-1031 | the writer's file stores the input graph for the readers |
| `CacheLoad.NodeCache.Lookup` | search/ours_search.cpp:412-422 | hash mode and offset mode are the same map, without sentinel offsets |
| `CacheLoad.NodeCache.Index` | search/ours_search.cpp:779-784 | either mode points the id at its offset and nothing else changes |
| `CacheLoad.NodeCache.StoreNode` | search/ours_search.cpp:765-784 | one more node is cached with its exact list |
| `CacheLoad.NodeCache.Prepare` | search/ours_search.cpp:689-715 | an empty lookup structure of the chosen mode |
| `CacheLoad.NodeCache.LoadOne` | search/ours_search.cpp:759-785 | neither the offset check nor the insertion can fail, offsets stay below the sentinel |
| `CacheLoad.NodeCache.LoadBatch` | search/ours_search.cpp:741-786 | a batch caches the next nodes of the sorted list |
| `CacheLoad.NodeCache.LoadSorted` | search/ours_search.cpp:741-789 | the loop caches the whole list for every batch size |
| `CacheLoad.NodeCache.LoadCacheList` | search/ours_search.cpp:673-789 | fails exactly on the up-front size check; otherwise finds exactly the listed ids, each with its exact disk list, in either mode |
| `BfsCache.CacheBfsLevels` | search/ours_search.cpp:792-865 | for every batch size: a duplicate-free list in nondecreasing BFS distance from the medoids with everything strictly closer than its entries, no longer than requested unless it is the medoids alone; if shorter than requested, exactly the reachable set |
| `BfsCache.Roots` | search/ours_search.cpp:798-805 | the medoids, each once |
| `BfsCache.Round` | search/ours_search.cpp:825-863 | one pass of the outer loop completes a level or fills the list |
| `BfsCache.Level` | search/ours_search.cpp:831-861 | a level is expanded wholly unless the list is full |
| `BfsCache.Batch` | search/ours_search.cpp:836-860 | a batch of reads extends list, next frontier and visited alike |
| `BfsCache.ExpandNode` | search/ours_search.cpp:851-859 | a node's new neighbours are added until the list is full |
| `BfsCache.BfsOrder` | search/ours_search.cpp:792-865 | whole levels followed by part of the next are such a list |
| `Bytes.U32RoundTrip` | search/ours_data_interfaces.cpp:130-134 | four little-endian bytes give the number back |
| `Bytes.WordsRoundTrip` | search/ours_data_interfaces.cpp:139-142 | a list of ids written as words reads back, whatever follows |
| `DiskLayout.NodesDisjoint` | search/ours_data_interfaces.cpp:90-103 | records never overlap, packed or multi-sector |
| `DiskLayout.NodeInsideFile` | src/disk_utils.cpp:904-915 | every record ends inside the file |
| `DiskLayout.CreateDiskLayout` | src/disk_utils.cpp:885-1031 | the file has exactly the computed sectors, starts with the given first sector and holds every record at the offset the readers compute |
| `DiskLayout.WritePacked` | src/disk_utils.cpp:940-989 | the same for several nodes per sector, with one running node id |
| `DiskLayout.FillSector` | src/disk_utils.cpp:948-985 | one sector holds its nodes in their slots |
| `DiskLayout.PutSlot` | src/disk_utils.cpp:967-984 | one record is copied into its slot and the others stay |
| `DiskLayout.WriteLarge` | src/disk_utils.cpp:990-1031 | the same for nodes of several sectors |
| `DiskLayout.DegreeRecovered` | search/ours_search.cpp:191-194 | the degree bound is recovered from the node length |
| `DiskLayout.RequestCovers` | search/ours_data_interfaces.cpp:90-110 | a request is sector-aligned, inside the file, fits the buffer and covers the record |
| `DiskLayout.PointersAgree` | search/ours_data_interfaces.cpp:112-165 | `get_neighbors_ptr` and `parse_neighbors` compute the same place |
| `DiskLayout.ParseNeighbors` | search/ours_data_interfaces.cpp:112-143 | decodes the record in the buffer |
| `DiskLayout.ParseRecord` | search/ours_data_interfaces.cpp:127-142 | the loop decodes the clipped list |
| `DiskLayout.RecordDecodes` | src/disk_utils.cpp:967-977 | a written record decodes to its coordinates and its list |
| `DiskLayout.ReadsRecord` | search/ours_search.cpp:463-481 | the bytes at the pointer of a node's read are its record |
| `DiskLayout.LayoutRoundTrip` | search/ours_data_interfaces.cpp:69-231 | for every graph and dimension, any node reads back its coordinates and neighbours through either pointer |
| `DiskIndex.WriteDiskIndex` | src/disk_utils.cpp:885-1064 | the laid-out file with its metadata fields written over the blank first sector |
| `DiskIndex.MetadataRoundTrip` | search/ours_data_interfaces.cpp:8-63 | the file opens if and only if there are nodes, coordinates and an entry point among the nodes, and then every field is what was written |
| `DiskIndex.IndexRoundTrip` | search/ours_search.cpp:141-198 | from the file and the coordinate type alone: point count, dimension, node length and degree are recovered, and every node reads back its coordinates and list |
| `NaturalNumberSets.NaturalNumberSet.Insert` | src/natural_number_set.cpp:27-35 | appends the id and grows the bitset; vector and bitset agree afterwards if and only if the id was new |
| `NaturalNumberSets.NaturalNumberSet.PopAny` | src/natural_number_set.cpp:37-50 | removes the most recently inserted id; throws if and only if there is none, and then changes nothing |
| `NaturalNumberSets.NaturalNumberSet.Clear` | src/natural_number_set.cpp:52-56 | the empty set with an empty bitset |
| `NaturalNumberSets.NaturalNumberSet.IsInSet` | src/natural_number_set.cpp:63-66 | inside the bitset the bit means membership; None if and only if the id lies behind its end |
| `SlotMachine.FreshInv` | src/index.cpp:2302-2308 | a fresh index satisfies the slot invariant |
| `SlotMachine.ReserveKeeps` | src/index.cpp:2637-2662 | a slot is reserved if and only if one is free, and it is the last queued one |
| `SlotMachine.ReleaseKeeps` | src/index.cpp:2664-2673 | giving back a slot that is not empty queues exactly it |
| `SlotMachine.CommitKeeps` | src/index.cpp:2963-2978 | recording a tag, or giving the slot back on a duplicate, keeps the partition and the inverse maps |
| `SlotMachine.LazyDeleteKeeps` | src/index.cpp:3054-3073 | so does a lazy delete, found or not |
| `SlotMachine.TakeKeeps` | src/index.cpp:2426-2430 | so does taking over the delete set |
| `SlotMachine.ReleaseAllKeeps` | src/index.cpp:2675-2693 | releasing the taken set in any order empties exactly those slots and raises no exception |
| `SlotMachine.ConsolidateChecks` | src/index.cpp:2387-2411 | the two exceptions cannot occur; the count error is reported if and only if another consolidation has taken a non-empty set |
| `IndexMachine.SlotsKept` | src/index.cpp:2426-2464 | every step of every operation keeps the slot invariant |
| `IndexMachine.SlotsAlwaysPartitioned` | src/index.cpp:2637-2693 | over every interleaving, exclusive or concurrent: empty, live, deleted, taken and reserved slots partition [0, max), the tag maps are inverse, none of the exceptions is reachable |
| `FreeListBits.StraysExactly` | src/index.cpp:2624-2630 | over every run, an `is_in_set` test falls behind the end of the bitset if and only if it is made after a compaction of a full index |
| `FreeListBits.ReleaseAllBits` | src/index.cpp:2675-2687 | releasing slots keeps a covering bitset covering, and strays at once on an empty one |
| `FreeListBits.StrayRun` | src/index.cpp:2445-2447 | insert into the only slot, delete an absent tag, compact, consolidate: the first test strays |
| `CompactedFlag.FlagAlways` | src/index.cpp:2637-2662 | while the data counts as compacted nothing is deleted and the free slots are one stretch, over every run |
| `CompactedFlag.PackedExactly` | src/index.cpp:2506-2514 | while the data counts as compacted, live slots are [0, nd) if and only if the free list is used up or ends with the last slot |
| `CompactedFlag.FirstInsertUnpacked` | src/index.cpp:2643-2661 | for every index of two slots or more, a run that counts as compacted with only the last slot live, and when saving it lends that slot away |
| `CompactedFlag.BorrowedExactly` | src/index.cpp:2484-2490 | over every run, while the data counts as compacted, `save` borrows a live slot if and only if the free list ends before the last borrowed slot |
| `CompactedFlag.RestoredOverRuns` | src/index.cpp:267-392 | in exclusive runs what `save` leaves has all live lists and vectors again if and only if the free list does not end early |
| `CompactedFlag.FrozenOverwritten` | src/index.cpp:283-392 | for every index of two slots or more, a run that ends compacted with slot 0 live, after which saving as it lies leaves the entry point without its edge and with the vector of slot 1 |
| `FirstInsert.Whole` | src/index.cpp:2885-3022 | one insert into a fresh index: tag, slot, own list and back edge, for every configuration |
| `IndexMachine.ProcessDeleteCommutes` | src/index.cpp:2314-2378 | two whole calls commute and see the same candidates |
| `ParallelDelete.AlwaysUndisturbed` | src/index.cpp:2326-2351 | under the update lock, at any point of any interleaving of single list reads and writes, every call has found what it would find alone |
| `ParallelDelete.LoopDetermined` | src/index.cpp:2445-2461 | so the finished parallel loop leaves the same lists whatever the interleaving |
| `IndexMachine.EdgesKept` | src/index.cpp:1223-1277 | with exclusive consolidation every step keeps the edge invariant |
| `IndexMachine.EdgesAlwaysWired` | src/index.cpp:2997-3020 | it therefore holds in every reachable state |
| `IndexMachine.CompactKeeps` | src/index.cpp:2600-2630 | compaction keeps the slot invariant and leaves the tags on [0, nd) |
| `IndexMachine.CompactEdges` | src/index.cpp:2553-2597 | and the edge invariant |
| `IndexMachine.CompactionDropsNothing` | src/index.cpp:2563-2575 | in exclusive runs compaction never meets a reference to an untagged slot |
| `IndexMachine.ExclusiveNeverDangles` | src/index.cpp:2445-2464 | with exclusive consolidation, in every reachable state, all edges of frozen and linked nodes end at frozen points or non-empty slots |
| `IndexMachine.ReusedSlotIsUnreferenced` | src/index.cpp:2445-2464 | an empty slot, hence a reused one, has no incoming edge |
| `ConcurrentRace.DanglingRun` | src/index.cpp:1223-1277 | for every concurrent configuration with a slot and a frozen point, a run that ends with an edge to a released slot |
| `ConcurrentRace.CountErrorReached` | src/index.cpp:2398-2404 | and one in which the count check fails |
| `ConcurrentRace.AlwaysUnlinked` | src/index.cpp:2980-3020 | without a slot or without a frozen point no list ever gets an entry |
| `ConcurrentRace.NeverDanglesExactly` | src/index.cpp:2413-2415 | a configuration excludes dangling edges in all its runs if and only if consolidation is exclusive or it has no slot or no frozen point |
| `FirstLink.WaitingSlotIsUnreferenced` | src/index.cpp:2980-3020 | in exclusive runs a slot whose insert has not linked it has no incoming edge |
| `FirstLink.StaleRun` | src/index.cpp:2675-2693 | for every exclusive configuration with two slots and a frozen point, a run in which a reused slot's old list names an empty slot |
| `FirstLink.AlwaysInRange` | src/index.cpp:2997-3020 | in exclusive runs every list, stale ones included, stays in range |
| `FirstLink.StaleExactly` | src/index.cpp:2997-3014 | with exclusive consolidation a slot in use can name an empty one if and only if there are two slots and a frozen point, and only before its insert links it |
| `Reposition.ShiftedExactly` | src/index.cpp:2704-2718 | the wrapping uint32 delta moves a location to the same place in the new block |
| `Reposition.ShiftedBack` | src/index.cpp:2704-2718 | there and back restores a reference if and only if it does not point into the borrowed part of the target |
| `Reposition.MovedBack` | src/in_mem_data_store.cpp:285-339 | there and back restores every entry outside the borrowed block and blanks the rest, overlap or not |
| `Reposition.ShiftedListBack` | src/index.cpp:2710-2720 | the same equivalence for a whole list |
| `Reposition.RepositionedBack` | src/index.cpp:2696-2775 | there and back, any location gets its list back if and only if the list never pointed into the borrowed block, whatever the target held |
| `Reposition.BlockSwappedBack` | src/index.cpp:2727-2764 | the swaps back undo the swaps there, overlapping blocks and occupied targets included |
| `Reposition.ArrivesInOrder` | src/index.cpp:2729-2742 | a block that moves down arrives in order |
| `Reposition.ArrivesAbove` | src/index.cpp:2745-2764 | a block that moves up arrives in order and nothing outside the two blocks changes |
| `Reposition.RepositionedUp` | src/index.cpp:2696-2775 | after a move up the target holds the renamed lists of the block, and outside the blocks a list is unchanged if and only if it has no reference into the block |
| `IndexStore.RelocationInjective` | src/index.cpp:2526-2545 | new locations are strictly increasing on survivors and packed below the tag count |
| `IndexStore.CompactionIsIsomorphism` | src/index.cpp:2526-2630 | one to one on survivors, vectors follow, and every edge is kept at its place in the list with none added |
| `IndexStore.CompactionPacks` | src/index.cpp:2526-2630 | afterwards every list refers to [0, nd) and frozen points only, dangling references or not |
| `IndexStore.CompactedEntry` | src/index.cpp:2553-2615 | every list that is not bare is the renamed list of the survivor that went there |
| `IndexStore.Rename` | src/index.cpp:2562-2575 | one list renamed; the dropped references are counted |
| `IndexStore.RebuildTags` | src/index.cpp:2600-2610 | both tag maps follow the relocation, stay inverse and cover exactly [0, nd) |
| `IndexStore.Store.AssignLocations` | src/index.cpp:2526-2545 | survivors get their rank, frozen points stay |
| `IndexStore.Store.MoveOne` | src/index.cpp:2554-2596 | one location's list and vector arrive renamed, and nothing else moves |
| `IndexStore.Store.Relocate` | src/index.cpp:2553-2597 | the ascending in-place loop moves every survivor without overwriting one still to be moved |
| `IndexStore.Store.ClearTail` | src/index.cpp:2611-2615 | lists of [nd, max) are cleared and no others |
| `IndexStore.Store.MoveAll` | src/index.cpp:2553-2615 | relocation and clearing together |
| `IndexStore.Store.Compact` | src/index.cpp:2553-2615 | the moves are a compaction; without dangling references none is counted |
| `IndexStore.Store.QueueEmpty` | src/index.cpp:2624-2629 | the free list is exactly [nd, max) |
| `IndexStore.Store.EverySlotTestable` | src/index.cpp:2624-2629 | afterwards `is_in_set` has a bit for every slot if and only if some slot is free |
| `IndexStore.Store.CompactData` | src/index.cpp:2505-2632 | each early return has its exact condition and changes nothing; otherwise the in-place result is the renamed graph with vectors and tags, frozen points fixed, [nd, max) empty and queued |
| `IndexStore.Store.ShiftAll` | src/index.cpp:2709-2720 | every list is renamed in place |
| `IndexStore.Store.SwapBlock` | src/index.cpp:2727-2764 | the loop is the specified sequence of swaps, in both directions, whatever the target holds |
| `IndexStore.Store.MoveVectors` | src/in_mem_data_store.cpp:285-339 | one memmove and one memset move the block and zero what it leaves |
| `IndexStore.Store.RepositionPoints` | src/index.cpp:2696-2775 | lists, references and vectors of a block are moved together |
| `IndexStore.Store.CompactFrozenPoint` | src/index.cpp:2484-2490 | frozen points move to nd, from any state |
| `IndexStore.Store.RepositionFrozenPointToEnd` | src/index.cpp:2777-2789 | and back, from any state |
| `IndexStore.Store.SaveAround` | src/index.cpp:277-392 | the rows written are the first nd slots and the frozen points, renamed; afterwards a list is restored if and only if it never pointed at a borrowed slot, and exactly the borrowed slots lose their vectors |
| `IndexStore.RestoredExactly` | src/index.cpp:277-392 | without dangling references and zero vectors, all live and frozen locations are restored if and only if no live slot is borrowed |
| `IndexStore.Store.SaveChecked` | src/index.cpp:277-392 | the moves of `save` with that equivalence |
| `IndexStore.Store.SaveAsIs` | src/index.cpp:283-392 | without compaction the rows are written as they lie and the frozen points are moved all the same; their vectors, their lists and everything live survive each under its exact condition on the slots from nd on, and in a packed index the entry point keeps its list only if that is bare |
| `IndexStore.AsIsExactly` | src/index.cpp:2777-2790 | with non-zero vectors, live and frozen locations come through the move if and only if the slots from nd on hold what the frozen points had, none of them is live and no live list refers to them |
| `IndexStore.Store.SaveCompacted` | src/index.cpp:277-392 | `save` with compaction: refusal, rows and the restore condition |
| `IndexStore.Store.Save` | src/index.cpp:267-395 | each refusal has its exact condition; if the compaction ran everything live comes back, if it was skipped exactly when no live slot is borrowed, and without compaction exactly when what is moved is what was there |
| `Buckets.BucketHolds` | construction/our_construction.cpp:980-992 | a bucket's range holds exactly the ids sent to it |
| `Buckets.BucketsCover` | construction/our_construction.cpp:985-992 | the ranges are consecutive and cover [0, N) |
| `RecordLog.EncodeDecodes` | construction/our_construction.cpp:690-702 | a framed record reads back, whatever follows it |
| `RecordLog.RecordAt` | construction/our_construction.cpp:1618-1634 | in a log of whole records the scan meets every record at its start and ends at the end |
| `Staging.TLStaging.constructor` | construction/our_construction.cpp:634-648 | an empty page-rounded buffer without a bucket |
| `Staging.TLStaging.Flush` | construction/our_construction.cpp:649-659 | one append of all staged bytes to the current log, or nothing |
| `Staging.TLStaging.Ensure` | construction/our_construction.cpp:660-674 | growth keeps the staged bytes and makes room |
| `Staging.TLStaging.PutBytes` | construction/our_construction.cpp:691-702 | bytes are appended to the stage |
| `Staging.TLStaging.AppendRecord` | construction/our_construction.cpp:675-705 | switch, place and flush together are the three specified steps; an empty record does nothing |
| `LogRuns.StepKeeps` | construction/our_construction.cpp:675-705 | every step of every thread keeps the log invariant |
| `LogRuns.LogsHoldWholeRecords` | construction/our_construction.cpp:649-705 | after any interleaving each log is a sequence of whole records of its bucket; once flushed, the logs hold exactly the appended records |
| `LogRuns.SwitchMatches` | construction/our_construction.cpp:682-688 | the interleaved step is the class's own bucket switch |
| `LogRuns.CloseMatches` | construction/our_construction.cpp:703-704 | and its final flush |
| `LogCompaction.CountRecords` | construction/our_construction.cpp:1616-1634 | pass 1 counts each node's candidates |
| `LogCompaction.FillRecords` | construction/our_construction.cpp:1659-1683 | pass 2 places every record behind its node's cursor, in order |
| `LogCompaction.CompactBucket` | construction/our_construction.cpp:1612-1703 | rows and ids of one bucket give each node the ids of its records |
| `LogCompaction.CompactAll` | construction/our_construction.cpp:1567-1704 | the candidate file gives every node exactly the ids of its records |
| `LogCompaction.CandidatesPermute` | construction/our_construction.cpp:1567-1704 | reordering a log permutes each node's candidates |
| `LogCompaction.RunsAgree` | construction/our_construction.cpp:649-705 | two runs over the same records, with any threads, buffers, buckets and interleavings, give every node a permutation of the same candidates |
| `Ranking.RankUnique` | construction/our_pruning.cpp:665-668 | the sorted order is determined by the set |
| `Ranking.UniqueIsRank` | construction/our_pruning.cpp:665-668 | a sorted pool without repeats is the ranking of its set |
| `Occlusion.KeptSeparated` | construction/our_pruning.cpp:674-689 | any kept u before kept v has d(u, v) > d(p, v) |
| `Occlusion.DroppedIsOccluded` | construction/our_construction.cpp:581-604 | below the degree limit every dropped candidate has a kept u no farther from p with d(u, v) <= d(p, v) |
| `Occlusion.OcclusionTheorem` | construction/our_construction.cpp:551-608 | both together for every candidate set |
| `Occlusion.PruneSetFacts` | construction/our_pruning.cpp:674-701 | the pruned list is duplicate-free, made of candidates, of length min(R, candidates), and starts with the occlusion pass |
| `Occlusion.PoolPrune` | construction/our_pruning.cpp:665-700 | the prune of a pool depends on its set only |
| `PruneLoops.PruneNode` | construction/our_pruning.cpp:654-701 | pool, sort, occlusion and fill compute the prune of the set of valid candidates |
| `PruneLoops.ValidPool` | construction/our_pruning.cpp:654-663 | the pool has exactly the candidates in range other than the node |
| `PruneLoops.OcclusionPass` | construction/our_pruning.cpp:674-689 | the counting loop with T = 1 is the occlusion pass |
| `PruneLoops.FillPass` | construction/our_pruning.cpp:690-700 | the second loop adds untaken candidates in order up to R |
| `PruneLoops.OccludeList` | construction/our_construction.cpp:551-608 | the factor-based loop at alpha = 1 is the same occlusion pass over the usable candidates |
| `PruneLoops.AlphaPass` | construction/our_construction.cpp:562-607 | its single pass |
| `PruneLoops.Blocked` | construction/our_construction.cpp:581-601 | the inner loop blocks exactly the occluded candidates; the factor test never fires at alpha = 1 |
| `PqDistance.BuildLut` | construction/our_pruning.cpp:281-301 | entry (a, b) is the squared distance of the two centroids on the chunk |
| `PqDistance.BuildLuts` | construction/our_pruning.cpp:275-303 | one such table per chunk |
| `PqDistance.ChunkSum` | construction/our_pruning.cpp:284-298 | a chunk's entry is the decoded distance on its dimensions |
| `PqDistance.TablesDecode` | construction/our_pruning.cpp:305-315 | the table look-ups add up to the squared distance of the decoded points |
| `PqDistance.Dist` | construction/our_pruning.cpp:305-315 | the loop computes that sum |
| `PqDistance.PqIsMetric` | construction/our_pruning.cpp:305-315 | it meets what the occlusion theorems need |
| `PqDistance.TableIsDecoded` | construction/our_pruning.cpp:275-315 | the table metric is the decoded distance everywhere |
| `Occlusion.PruneSetAgrees` | construction/our_pruning.cpp:654-701 | the prune depends on the distances only, not on how they are computed |
| `StreamPrune.PrunedFacts` | construction/our_pruning.cpp:654-701 | each written list is self-free, duplicate-free and of length exactly min(R, distinct valid candidates) |
| `StreamPrune.Span` | construction/our_pruning.cpp:598-607 | the span of a batch's ids |
| `StreamPrune.PruneOne` | construction/our_pruning.cpp:642-701 | one iteration prunes the candidates found through its row |
| `StreamPrune.WriteSlot` | construction/our_pruning.cpp:671-701 | a result goes to its own slot and no other |
| `StreamPrune.PruneBatch` | construction/our_pruning.cpp:628-707 | all slots of a batch are right for every order of the parallel loop |
| `StreamPrune.Serialize` | construction/our_pruning.cpp:716-733 | the batch's bytes and the running maximum degree |
| `StreamPrune.NextBatch` | construction/our_pruning.cpp:596-753 | one batch appends the bytes of its lists |
| `StreamPrune.BatchStep` | construction/our_pruning.cpp:591-760 | the file so far is the header and all lists so far |
| `StreamPrune.MetaBatch` | construction/our_pruning.cpp:588-760 | a metadata batch extends the file by its lists for any budget |
| `StreamPrune.AllBatches` | construction/our_pruning.cpp:576-763 | so does the outer loop |
| `StreamPrune.PruneToFile` | construction/our_pruning.cpp:576-772 | the same bytes for every budget, metadata batch and loop order, with exact size and maximum degree in the header |
| `StreamPrune.PruneIgnoresOrder` | construction/our_pruning.cpp:654-701 | candidates equal up to order and repetition prune to the same lists |
| `GraphFile.MaxDegreeIs` | construction/our_pruning.cpp:732-768 | the header's degree is the exact maximum |
| `GraphFile.NodeAt` | src/in_mem_graph_store.cpp:170-186 | a reader at a node boundary reads the node and stands at the next boundary |
| `GraphFile.HeaderDecodes` | src/in_mem_graph_store.cpp:147-150 | the four header fields read back |
| `GraphFile.LoadGraph` | src/in_mem_graph_store.cpp:135-198 | the loader recovers exactly the lists, degree, start and frozen count |
| `GraphFile.CountNodes` | construction/reverse_edge_logic.cpp:304-316 | the first pass counts the nodes |
| `GraphFile.ScanGraph` | construction/reverse_edge_logic.cpp:349-363 | the reverse-edge scanner recovers the same lists |
| `GraphFile.ReadNode` | construction/reverse_edge_logic.cpp:571-575 | one node at its boundary |
| `GraphFile.SaveGraph` | src/in_mem_graph_store.cpp:200-230 | the saved file is the one the loader inverts, header patched in place |
| `Segments.PrefixSums` | construction/reverse_edge_logic.cpp:367-371 | prefix sums of the counts |
| `Segments.Append` | construction/our_construction.cpp:1675-1681 | appending behind one cursor fills that segment and disturbs no other |
| `Segments.FullBuffer` | construction/our_construction.cpp:1659-1683 | once every segment is full the buffer is their concatenation |
| `ReverseEdges.CountPass` | construction/reverse_edge_logic.cpp:345-363 | dies if and only if a neighbour is out of range; otherwise counts each node's slice and all edges |
| `ReverseEdges.CountNode` | construction/reverse_edge_logic.cpp:351-362 | one node of it |
| `ReverseEdges.SliceCount` | construction/reverse_edge_logic.cpp:577-598 | a slice is out(v) plus every u with v in out(u), with multiplicity, so multiplicities are symmetric |
| `ReverseEdges.SlicesHoldTwoPerEdge` | construction/reverse_edge_logic.cpp:367-371 | all slices together have 2E entries |
| `ReverseEdges.SecondStripeTooLarge` | construction/reverse_edge_logic.cpp:466-511 | a graph, its counts and a budget that pass the check of the first node, after which a stripe is taken that does not fit |
| `ReverseEdges.FillNode` | construction/reverse_edge_logic.cpp:571-598 | one scanned node adds its forward and reverse contributions |
| `ReverseEdges.FillReverse` | construction/reverse_edge_logic.cpp:587-598 | one reverse contribution; the overflow abort never fires |
| `ReverseEdges.FillStripe` | construction/reverse_edge_logic.cpp:552-612 | one stripe is its slices in order; the mismatch abort never fires |
| `ReverseEdges.NextStripe` | construction/reverse_edge_logic.cpp:529-637 | the file so far is the slices so far |
| `ReverseEdges.EmptyStripe` | construction/reverse_edge_logic.cpp:535-540 | a skipped stripe had nothing to write |
| `ReverseEdges.StripedFill` | construction/reverse_edge_logic.cpp:529-637 | for every stripe division the file equals the one-stripe file and no abort is reachable |
| `ReverseEdges.CandidatesFrom` | construction/reverse_edge_logic.cpp:384-397 | the index rows lead to the slices |
| `ReverseEdges.BuildReverseCandidates` | construction/reverse_edge_logic.cpp:320-637 | each way the stage ends has its exact condition, the empty graph included, and its files hold the symmetric candidates for every memory plan |
| `Extremes.Largest` | construction/reverse_edge_logic.cpp:488-511 | the largest feasible value, or the lower end |
| `Extremes.SearchLargest` | construction/our_pruning.cpp:529-564 | the binary search finds it for every falling predicate |
| `StripeBudget.AvailFalls` | construction/reverse_edge_logic.cpp:447-464 | available memory falls with the number of nodes |
| `StripeBudget.FitsFalls` | construction/reverse_edge_logic.cpp:440-511 | so feasibility of a stripe end is monotone |
| `StripeBudget.PickHi` | construction/reverse_edge_logic.cpp:488-511 | the largest stripe end that fits, one node when none does |
| `StripeBudget.StripeWithinBudget` | construction/reverse_edge_logic.cpp:466-511 | the chosen stripe fits if and only if its first node alone does |
| `BatchBudget.SpanHolds` | construction/our_pruning.cpp:539-552 | the span contains every row's ids |
| `BatchBudget.NeedGrows` | construction/our_pruning.cpp:539-554 | the need of a batch grows with its size |
| `BatchBudget.PickBatchK` | construction/our_pruning.cpp:529-564 | the largest batch within budget, 1 when none is |
| `BatchBudget.BatchWithinBudget` | construction/our_pruning.cpp:529-564 | it is within budget if and only if its first node alone is |
| `BatchBudget.FirstNodeTooLarge` | construction/our_pruning.cpp:508-564 | two candidate rows and a positive budget: one node over budget is taken all the same |
| `PartitionBudget.UsageFalls` | construction/run_sigma_pipeline.py:41-43 | usage falls with the number of partitions |
| `PartitionBudget.UsageLeast` | construction/run_sigma_pipeline.py:45-55 | one point per partition is the least any count needs |
| `PartitionBudget.Double` | construction/run_sigma_pipeline.py:45-49 | doubling stops at a count that fits or at one per point |
| `PartitionBudget.RequiredUniformPartitions` | construction/run_sigma_pipeline.py:40-69 | the smallest count that fits; fails if and only if none does |
| `PartitionBudget.MakeOffsets` | construction/our_construction.cpp:407-419 | the start of every partition |
| `PartitionBudget.OffsetsTile` | construction/our_construction.cpp:407-419 | the partitions tile [0, n) |
| `PartitionBudget.LargestPart` | construction/our_construction.cpp:824-829 | the largest is the driver's ceiling |
| `PartitionBudget.BudgetCheck` | construction/our_construction.cpp:822-850 | dies exactly when two indexes of the largest partition exceed a non-zero budget |
| `PartitionBudget.DriverPasses` | construction/run_sigma_pipeline.py:32-69 | the driver's count always passes that check |
| `PairMask.LoadMask` | construction/our_construction.cpp:297-344 | dies if and only if a listed pair is invalid; otherwise selects exactly the listed pairs |
| `PairMask.SelectPair` | construction/our_construction.cpp:333-340 | one accepted line, repeats and swapped orders counted once |
| `PairMask.SelectionSymmetric` | construction/our_construction.cpp:346-355 | both orders of a pair are one pair |
| `PairMask.PairCount` | construction/our_construction.cpp:292-295 | P(P-1)/2 counts the unordered pairs |
| `PairMask.SelectedCount` | construction/our_construction.cpp:292-344 | the reported selection count is the number of selected pairs |
| `PairSchedule.RunAnchor` | construction/our_construction.cpp:1182-1505 | an anchor processes each selected target once, keeps the handle of its successor if and only if that pair was selected, and never holds more than two partitions |
| `PairSchedule.RunAnchors` | construction/our_construction.cpp:1154-1506 | the handle used at anchor i is always partition i, reused or loaded |
| `PairSchedule.RunAll` | construction/our_construction.cpp:1154-1506 | over all anchors every selected pair exactly once; processed count = selected count; at most two partitions resident |
| `PairSchedule.RunPerAnchor` | construction/run_sigma_pipeline.py:431-435 | one process per anchor does the same pairs |
| `CachedIo.CachedReader.constructor` | include/cached_io.h:31-53 | the reader stands at the start, cache no larger than the file |
| `CachedIo.CachedReader.Read` | include/cached_io.h:60-101 | exactly the next bytes of the file; throws if and only if they are missing, and then nothing moved |
| `CachedIo.CachedReader.ReadThrough` | include/cached_io.h:73-100 | the part from the cache and the part from the file are one stretch |
| `CachedIo.CachedReader.Refill` | include/cached_io.h:93-97 | a refill does not move the position |
| `CachedIo.CachedWriter.constructor` | include/cached_io.h:120-135 | an empty file and an empty cache |
| `CachedIo.CachedWriter.Write` | include/cached_io.h:166-188 | the logical contents and position advance by exactly the bytes, and so does the counted size |
| `CachedIo.CachedWriter.FlushCache` | include/cached_io.h:190-197 | file and logical contents agree |
| `CachedIo.CachedWriter.Reset` | include/cached_io.h:199-203 | the same, back at the start |
| `CachedIo.CachedWriter.Close` | include/cached_io.h:142-159 | nothing stays behind in the cache |
| `CachedIo.WriteTwice` | include/cached_io.h:166-188 | two writes in a row are one, also inside an existing file |
| `CachedIo.CountedExactly` | include/cached_io.h:161-203 | over any operations the counted size is at least that of the file, and equal if and only if every non-empty write started at the end |
| `CachedIo.Replay` | include/cached_io.h:120-203 | any writes, flushes and resets through a cache of any size leave the plain writer's file and count |
| `CachedIo.RewriteCountsTwice` | include/cached_io.h:199-203 | a header rewritten after a reset is counted twice |
| `CachedIo.WriteThenRead` | include/cached_io.h:60-188 | for all cache sizes, blocks written are the blocks read |
| `CachedIo.ReadBack` | include/cached_io.h:60-101 | reads of the same sizes give the blocks back |
| `Pipeline.LogsToGraphFile` | construction/run_sigma_pipeline.py:437-484 | compaction and first prune write the pruned graph of the logs' records |
| `Pipeline.PruneByTables` | construction/our_pruning.cpp:275-772 | the streamed prune over the lookup tables writes the file of the prune by decoded distances |
| `Pipeline.InterleavingsAgree` | construction/run_sigma_pipeline.py:426-484 | the pruned graph is identical for every thread interleaving, buffer size and bucket count |
| `Pipeline.PrunedClosed` | construction/our_pruning.cpp:654-663 | a pruned graph refers to its own nodes only, so the reverse pass cannot die on it |
| `Pipeline.SymmetrizeAndPrune` | construction/run_sigma_pipeline.py:498-533 | reverse edges and second prune give one file for all memory plans that pass the first check |
| `Pipeline.GraphSurvivesLayout` | src/disk_utils.cpp:881-1064 | laid out with the degree of its header and opened from the file alone, no list is clipped: the search reads the graph the prune wrote |

## Left out

- File opening, fadvise and fsync, AIO contexts, logging, timing, command lines and environment variables: no property of their own; batch sizes and lookup modes are parameters.
- Floating point and SIMD distance kernels: distances are exact reals.
- PQ training, k-means and the partitioner: their code is not part of this model.
- Filtered labels, FAST_L2 and inner product in `src/index.cpp`: more cases, no harder theorems.
- `iterate_to_fixed_point` without emission, and the `Arena` allocator: buffer handling.
- `merge_shards` and `build_disk_index`: they depend on a shuffle and on id maps from elsewhere.
- Reorder data and the separate-file sources: experimental or unused by the pipeline.
- The refinement phase after the traversal and the query statistics that are pure sums.
- Runs with a single `--target`, and the text parsing of the pair file.
- The setters of `src/in_mem_graph_store.cpp` and its observed-degree counter: one-line updates of a list, part of the steps that call them.
- Bulk build on a dynamic index, resizing, and loading into a dynamic index.
- IndexMachine.Next: the dynamic index under concurrency is a transition function on values, not a class, because its methods interleave; `IndexStore.Store` has the in-place operations that run alone.
- IndexMachine.ProcessDeleteCommutes: in the state machine a call of process_delete is one step.  `ParallelDelete` splits it into its reads and writes under the update lock; with concurrent consolidation the finer interleavings with inserts are not modelled, which only leaves out runs of configurations that dangle anyway.
- SlotMachine.ReleaseKeeps: a test behind the end of the bitset is recorded and answered by exact membership; what the C++ program does then is undefined.
- ReverseEdges.FillStripe: cursors count ids where the source counts bytes, four to an id.
- CandidateFiles: the headers and reserved fields of cand.idx and cand.ids; rows count ids.
- DiskLayout.CreateDiskLayout: the first sector is given; `DiskIndex.WriteDiskIndex` fills it.
- DiskLayout.LayoutRoundTrip: the reader's counts and lengths are given; `DiskIndex.IndexRoundTrip` reads them from the file.
- BeamSearch.Traverse: the refinement that follows, and the timers.
- IndexStore.Store.Save: the files of `save` are rows of lists and vectors here; `GraphFile.SaveGraph` has the bytes of the graph.
