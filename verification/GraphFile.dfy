// The graph file format: written by construction/our_pruning.cpp and by
// save_graph of src/in_mem_graph_store.cpp, read by load_impl there and by the
// scanner of construction/reverse_edge_logic.cpp.

module GraphFile {
  import opened Bytes

  const HEADER: nat := 24

  ghost predicate Storable(list: seq<nat>) {
    |list| < U32_LIMIT && AllU32(list)
  }

  ghost predicate AllStorable(lists: seq<seq<nat>>) {
    forall u :: 0 <= u < |lists| ==> Storable(lists[u])
  }

  /** Degree, then the ids. */
  function NodeBytes(list: seq<nat>): (b: seq<byte>)
    requires |list| < U32_LIMIT && AllU32(list)
    ensures |b| == 4 * (|list| + 1)
  {
    U32(|list|) + Words(list)
  }

  function Body(lists: seq<seq<nat>>): seq<byte>
    requires AllStorable(lists)
  {
    if lists == [] then [] else Body(lists[..|lists| - 1]) + NodeBytes(lists[|lists| - 1])
  }

  function MaxDegree(lists: seq<seq<nat>>): nat {
    if lists == [] then 0
    else
      var m, k := MaxDegree(lists[..|lists| - 1]), |lists[|lists| - 1]|;
      if k > m then k else m
  }

  /** The header's degree is the exact maximum. */
  lemma {:induction false} MaxDegreeIs(lists: seq<seq<nat>>)
    ensures forall u :: 0 <= u < |lists| ==> |lists[u]| <= MaxDegree(lists)
    ensures lists != [] ==> exists u :: 0 <= u < |lists| && |lists[u]| == MaxDegree(lists)
  {
    if lists != [] {
      var init, n := lists[..|lists| - 1], |lists| - 1;
      MaxDegreeIs(init);
      if init != [] && MaxDegree(lists) != |lists[n]| {
        var u :| 0 <= u < |init| && |init[u]| == MaxDegree(init);
        assert lists[u] == init[u];
      } else {
        assert |lists[n]| == MaxDegree(lists);
      }
    }
  }

  function HeaderBytes(size: nat, maxDegree: nat, start: nat, frozen: nat): (b: seq<byte>)
    requires size < U64_LIMIT && maxDegree < U32_LIMIT && start < U32_LIMIT && frozen < U64_LIMIT
    ensures |b| == HEADER
  {
    U64(size) + U32(maxDegree) + U32(start) + U64(frozen)
  }

  /** Sizes the header fields can hold. */
  ghost predicate Fits(lists: seq<seq<nat>>, start: nat, frozen: nat) {
    AllStorable(lists) && HEADER + |Body(lists)| < U64_LIMIT && start < U32_LIMIT && frozen < U64_LIMIT
  }

  /** The whole file. */
  ghost function FileOf(lists: seq<seq<nat>>, start: nat, frozen: nat): seq<byte>
    requires Fits(lists, start, frozen)
  {
    DegreeStorable(lists);
    HeaderBytes(HEADER + |Body(lists)|, MaxDegree(lists), start, frozen) + Body(lists)
  }

  lemma {:induction false} DegreeStorable(lists: seq<seq<nat>>)
    requires AllStorable(lists)
    ensures MaxDegree(lists) < U32_LIMIT
  {
    if lists != [] {
      DegreeStorable(lists[..|lists| - 1]);
    }
  }

  lemma BodyAppend(lists: seq<seq<nat>>, list: seq<nat>)
    requires AllStorable(lists) && Storable(list)
    ensures AllStorable(lists + [list]) && Body(lists + [list]) == Body(lists) + NodeBytes(list)
    ensures MaxDegree(lists + [list]) == if |list| > MaxDegree(lists) then |list| else MaxDegree(lists)
  {
    assert (lists + [list])[..|lists|] == lists;
  }

  lemma {:induction false} BodyConcat(a: seq<seq<nat>>, b: seq<seq<nat>>)
    requires AllStorable(a) && AllStorable(b)
    ensures AllStorable(a + b) && Body(a + b) == Body(a) + Body(b)
  {
    if b == [] {
      assert a + b == a;
    } else {
      var init, last := b[..|b| - 1], b[|b| - 1];
      BodyConcat(a, init);
      assert b == init + [last] && a + b == (a + init) + [last];
      BodyAppend(a + init, last);
      BodyAppend(init, last);
      Associate(Body(a), Body(init), NodeBytes(last));
    }
  }

  /** Where node k's bytes start in the body. */
  ghost function StartOf(lists: seq<seq<nat>>, k: nat): nat
    requires AllStorable(lists) && k <= |lists|
  {
    |Body(lists[..k])|
  }

  lemma SplitAt(lists: seq<seq<nat>>, k: nat)
    requires AllStorable(lists) && k < |lists|
    ensures Body(lists) == Body(lists[..k]) + (NodeBytes(lists[k]) + Body(lists[k + 1..]))
    ensures StartOf(lists, k + 1) == StartOf(lists, k) + 4 * (|lists[k]| + 1)
  {
    var front, list, rest := lists[..k], lists[k], lists[k + 1..];
    assert lists[..k + 1] == front + [list] && lists == lists[..k + 1] + rest;
    BodyAppend(front, list);
    BodyConcat(front + [list], rest);
    Associate(Body(front), NodeBytes(list), Body(rest));
  }

  lemma BodyEnds(lists: seq<seq<nat>>)
    requires AllStorable(lists)
    ensures StartOf(lists, 0) == 0 && StartOf(lists, |lists|) == |Body(lists)|
  {
    assert lists[..|lists|] == lists;
  }

  function ReadDegree(file: seq<byte>, at: nat): nat
    requires at + 4 <= |file|
  {
    FromU32(file[at..at + 4])
  }

  function ReadList(file: seq<byte>, at: nat, k: nat): seq<nat>
    requires at + 4 + 4 * k <= |file|
  {
    FromWords(file[at + 4..], k)
  }

  lemma NodeDecodes(front: seq<byte>, list: seq<nat>, rest: seq<byte>)
    requires Storable(list)
    ensures var file, at := front + (NodeBytes(list) + rest), |front|;
            ReadDegree(file, at) == |list| && ReadList(file, at, |list|) == list
  {
    var file, at := front + (NodeBytes(list) + rest), |front|;
    assert file[at..at + 4] == U32(|list|);
    U32RoundTrip(|list|);
    assert file[at + 4..] == Words(list) + rest;
    WordsRoundTrip(list, rest);
  }

  /** A reader that stands at node k's bytes reads its list. */
  lemma NodeAt(lists: seq<seq<nat>>, head: seq<byte>, k: nat)
    requires AllStorable(lists) && k < |lists|
    ensures var file, at := head + Body(lists), |head| + StartOf(lists, k);
            && |head| + StartOf(lists, k + 1) == at + 4 * (|lists[k]| + 1) <= |file|
            && ReadDegree(file, at) == |lists[k]| && ReadList(file, at, |lists[k]|) == lists[k]
  {
    SplitAt(lists, k);
    var front, list, rest := Body(lists[..k]), lists[k], Body(lists[k + 1..]);
    Associate(head, front, NodeBytes(list) + rest);
    NodeDecodes(head + front, list, rest);
  }

  lemma HeaderDecodes(size: nat, maxDegree: nat, start: nat, frozen: nat, rest: seq<byte>)
    requires size < U64_LIMIT && maxDegree < U32_LIMIT && start < U32_LIMIT && frozen < U64_LIMIT
    ensures var file := HeaderBytes(size, maxDegree, start, frozen) + rest;
            && FromU64(file[0..8]) == size && FromU32(file[8..12]) == maxDegree
            && FromU32(file[12..16]) == start && FromU64(file[16..24]) == frozen
  {
    var file := HeaderBytes(size, maxDegree, start, frozen) + rest;
    assert file[0..8] == U64(size) && file[8..12] == U32(maxDegree);
    assert file[12..16] == U32(start) && file[16..24] == U64(frozen);
    U64RoundTrip(size);
    U32RoundTrip(maxDegree);
    U32RoundTrip(start);
    U64RoundTrip(frozen);
  }

  /** load_impl: reads until the size in the header is used up. */
  method LoadGraph(file: seq<byte>, ghost lists: seq<seq<nat>>, ghost ep: nat, ghost nf: nat)
    returns (graph: seq<seq<nat>>, maxDegree: nat, start: nat, frozen: nat)
    requires Fits(lists, ep, nf) && file == FileOf(lists, ep, nf)
    ensures graph == lists && maxDegree == MaxDegree(lists) && start == ep && frozen == nf
  {
    DegreeStorable(lists);
    ghost var head := HeaderBytes(HEADER + |Body(lists)|, MaxDegree(lists), ep, nf);
    HeaderDecodes(HEADER + |Body(lists)|, MaxDegree(lists), ep, nf, Body(lists));
    var expected := FromU64(file[0..8]);
    maxDegree, start, frozen := FromU32(file[8..12]), FromU32(file[12..16]), FromU64(file[16..24]);
    graph := [];
    var bytesRead := HEADER;
    BodyEnds(lists);
    while bytesRead != expected
      invariant |graph| <= |lists| && graph == lists[..|graph|]
      invariant bytesRead == HEADER + StartOf(lists, |graph|)
      decreases |lists| - |graph|
    {
      BodyLeft(lists, |graph|);
      BodyEnds(lists);
      var list, next := ReadNode(file, bytesRead, head, lists, |graph|);
      graph := graph + [list];
      bytesRead := next;
    }
    BodyLeft(lists, |graph|);
  }

  /** Degree and ids at a node boundary, and the next boundary. */
  method ReadNode(file: seq<byte>, at: nat, ghost head: seq<byte>, ghost lists: seq<seq<nat>>, ghost k: nat)
    returns (list: seq<nat>, next: nat)
    requires AllStorable(lists) && k < |lists| && file == head + Body(lists) && at == |head| + StartOf(lists, k)
    ensures list == lists[k] && next == |head| + StartOf(lists, k + 1)
  {
    NodeAt(lists, head, k);
    var deg := ReadDegree(file, at);
    list := ReadList(file, at, deg);
    next := at + 4 * (deg + 1);
  }

  lemma BodyLeft(lists: seq<seq<nat>>, k: nat)
    requires AllStorable(lists) && k <= |lists|
    ensures StartOf(lists, k) <= |Body(lists)| && (k < |lists| ==> StartOf(lists, k) < |Body(lists)|)
  {
    if k < |lists| {
      SplitAt(lists, k);
    } else {
      BodyEnds(lists);
    }
  }

  /** The pass that counts nodes: degree by degree up to the end of the file. */
  method CountNodes(file: seq<byte>, ghost lists: seq<seq<nat>>, ghost ep: nat, ghost nf: nat) returns (n: nat)
    requires Fits(lists, ep, nf) && file == FileOf(lists, ep, nf)
    ensures n == |lists|
  {
    DegreeStorable(lists);
    ghost var head := HeaderBytes(HEADER + |Body(lists)|, MaxDegree(lists), ep, nf);
    n := 0;
    var at := HEADER;
    BodyEnds(lists);
    BodyLeft(lists, 0);
    while at < |file|
      invariant n <= |lists| && HEADER <= at == HEADER + StartOf(lists, n)
      decreases |lists| - n
    {
      BodyLeft(lists, n);
      NodeAt(lists, head, n);
      at := at + 4 * (ReadDegree(file, at) + 1);
      n := n + 1;
    }
    BodyLeft(lists, n);
  }

  /** The scan of the reverse-edge stage: `n` nodes from behind the header. */
  method ScanGraph(file: seq<byte>, n: nat, ghost lists: seq<seq<nat>>, ghost ep: nat, ghost nf: nat)
    returns (graph: seq<seq<nat>>)
    requires Fits(lists, ep, nf) && file == FileOf(lists, ep, nf) && n == |lists|
    ensures graph == lists
  {
    DegreeStorable(lists);
    ghost var head := HeaderBytes(HEADER + |Body(lists)|, MaxDegree(lists), ep, nf);
    graph := [];
    var at := HEADER;
    BodyEnds(lists);
    for u := 0 to n
      invariant graph == lists[..u] && at == HEADER + StartOf(lists, u)
    {
      var list, next := ReadNode(file, at, head, lists, u);
      graph := graph + [list];
      at := next;
    }
  }

  /** save_graph: a provisional header, the nodes, then size and degree in place. */
  method SaveGraph(graph: seq<seq<nat>>, numPoints: nat, frozen: nat, start: nat, maxObserved: nat) returns (file: seq<byte>)
    requires numPoints <= |graph| && Fits(graph[..numPoints], start, frozen) && maxObserved < U32_LIMIT
    ensures file == FileOf(graph[..numPoints], start, frozen)
  {
    file := HeaderBytes(HEADER, maxObserved, start, frozen);
    var indexSize, maxDegree := HEADER, 0;
    ghost var all := graph[..numPoints];
    for i := 0 to numPoints
      invariant AllStorable(graph[..i])
      invariant file == HeaderBytes(HEADER, maxObserved, start, frozen) + Body(graph[..i])
      invariant indexSize == HEADER + |Body(graph[..i])| && maxDegree == MaxDegree(graph[..i])
    {
      assert graph[i] == all[i] && graph[..i + 1] == graph[..i] + [graph[i]];
      BodyAppend(graph[..i], graph[i]);
      file := file + NodeBytes(graph[i]);
      maxDegree := if |graph[i]| > maxDegree then |graph[i]| else maxDegree;
      indexSize := indexSize + 4 * (|graph[i]| + 1);
    }
    DegreeStorable(all);
    HeaderPatched(maxObserved, indexSize, maxDegree, start, frozen, Body(all));
    file := U64(indexSize) + U32(maxDegree) + file[12..];
  }

  /** Size and degree are written over the first twelve bytes. */
  lemma HeaderPatched(maxObserved: nat, size: nat, maxDegree: nat, start: nat, frozen: nat, body: seq<byte>)
    requires size < U64_LIMIT && maxDegree < U32_LIMIT && maxObserved < U32_LIMIT && start < U32_LIMIT && frozen < U64_LIMIT
    ensures U64(size) + U32(maxDegree) + (HeaderBytes(HEADER, maxObserved, start, frozen) + body)[12..]
         == HeaderBytes(size, maxDegree, start, frozen) + body
  {
  }
}
