// construction/reverse_edge_logic.cpp: the candidate lists of the symmetric
// closure of a graph, counted in one pass and filled stripe by stripe.

module ReverseEdges {
  import opened Graphs
  import opened Segments
  import opened CandidateFiles
  import opened StripeBudget

  /** How often `v` occurs. */
  function Count(s: seq<nat>, v: nat): nat {
    if s == [] then 0 else Count(s[..|s| - 1], v) + (if s[|s| - 1] == v then 1 else 0)
  }

  lemma {:induction false} CountIsMultiplicity(s: seq<nat>, v: nat)
    ensures Count(s, v) == multiset(s)[v]
  {
    if s != [] {
      CountIsMultiplicity(s[..|s| - 1], v);
      assert s == s[..|s| - 1] + [s[|s| - 1]];
    }
  }

  lemma {:induction false} CountNone(s: seq<nat>, v: nat)
    requires v !in s
    ensures Count(s, v) == 0
  {
    if s != [] {
      CountNone(s[..|s| - 1], v);
    }
  }

  lemma CountStep(s: seq<nat>, i: nat, v: nat)
    requires i < |s|
    ensures Count(s[..i + 1], v) == Count(s[..i], v) + (if s[i] == v then 1 else 0)
  {
    assert s[..i + 1][..i] == s[..i];
  }

  function Repeat(x: nat, k: nat): seq<nat> {
    seq(k, _ => x)
  }

  /** What node `u` contributes to the candidates of `v`: its own list when it is
      `v`, then itself once per edge to `v`. */
  function Contribution(g: Graph, u: nat, v: nat): seq<nat>
    requires u < |g|
  {
    (if u == v then g[u] else []) + Repeat(u, Count(g[u], v))
  }

  function SliceUpTo(g: Graph, v: nat, n: nat): seq<nat>
    requires n <= |g|
  {
    if n == 0 then [] else SliceUpTo(g, v, n - 1) + Contribution(g, n - 1, v)
  }

  /** The candidates of `v`: the in-memory definition every stripe division has
      to reproduce. */
  function Slice(g: Graph, v: nat): seq<nat> {
    SliceUpTo(g, v, |g|)
  }

  function Slices(g: Graph, lo: nat, hi: nat): seq<seq<nat>>
    requires lo <= hi
  {
    seq(hi - lo, k requires 0 <= k < hi - lo => Slice(g, lo + k))
  }

  // ---- what the slices are ----

  /** Candidates of `v`: its out-neighbours and all nodes with an edge to it, with
      multiplicity. */
  lemma {:induction false} SliceUpToCount(g: Graph, v: nat, n: nat, w: nat)
    requires n <= |g| && v < |g|
    ensures Count(SliceUpTo(g, v, n), w)
         == (if v < n then Count(g[v], w) else 0) + (if w < n then Count(g[w], v) else 0)
  {
    if n > 0 {
      SliceUpToCount(g, v, n - 1, w);
      ContributionCount(g, n - 1, v, w);
      var init, last := SliceUpTo(g, v, n - 1), Contribution(g, n - 1, v);
      assert SliceUpTo(g, v, n) == init + last;
      CountConcat(init, last, w);
    }
  }

  lemma {:induction false} CountConcat(a: seq<nat>, b: seq<nat>, w: nat)
    ensures Count(a + b, w) == Count(a, w) + Count(b, w)
  {
    if b == [] {
      assert a + b == a;
    } else {
      CountConcat(a, b[..|b| - 1], w);
      assert (a + b)[..|a + b| - 1] == a + b[..|b| - 1];
    }
  }

  lemma ContributionCount(g: Graph, u: nat, v: nat, w: nat)
    requires u < |g|
    ensures Count(Contribution(g, u, v), w) == (if u == v then Count(g[u], w) else 0) + (if w == u then Count(g[u], v) else 0)
    ensures |Contribution(g, u, v)| == (if u == v then |g[u]| else 0) + Count(g[u], v)
  {
    RepeatCount(u, Count(g[u], v), w);
    CountConcat(if u == v then g[u] else [], Repeat(u, Count(g[u], v)), w);
  }

  lemma {:induction false} RepeatCount(x: nat, k: nat, w: nat)
    ensures Count(Repeat(x, k), w) == if w == x then k else 0
  {
    if k > 0 {
      RepeatCount(x, k - 1, w);
      assert Repeat(x, k)[..k - 1] == Repeat(x, k - 1);
    }
  }

  lemma SliceCount(g: Graph, v: nat, w: nat)
    requires Closed(g) && v < |g|
    ensures Count(Slice(g, v), w) == Count(g[v], w) + (if w < |g| then Count(g[w], v) else 0)
    ensures w < |g| ==> Count(Slice(g, v), w) == Count(Slice(g, w), v)
    ensures w >= |g| ==> Count(Slice(g, v), w) == 0
  {
    SliceUpToCount(g, v, |g|, w);
    if w < |g| {
      SliceUpToCount(g, w, |g|, v);
    } else {
      CountNone(g[v], w);
    }
  }

  function Edges(g: Graph, n: nat): nat
    requires n <= |g|
  {
    if n == 0 then 0 else Edges(g, n - 1) + |g[n - 1]|
  }

  ghost function SliceLength(g: Graph, v: nat, u: nat): nat
    requires u <= |g|
  {
    if u == 0 then 0 else SliceLength(g, v, u - 1) + (if u - 1 == v then |g[v]| else 0) + Count(g[u - 1], v)
  }

  lemma {:induction false} SliceLengthOf(g: Graph, v: nat, u: nat)
    requires u <= |g|
    ensures |SliceUpTo(g, v, u)| == SliceLength(g, v, u)
  {
    if u > 0 {
      SliceLengthOf(g, v, u - 1);
    }
  }

  /** Total size of the first `n` slices after `u` nodes. */
  ghost function Total(g: Graph, n: nat, u: nat): nat
    requires u <= |g|
  {
    if n == 0 then 0 else Total(g, n - 1, u) + SliceLength(g, n - 1, u)
  }

  /** The ids below `n` in a list. */
  ghost function CountBelow(s: seq<nat>, n: nat): nat {
    if n == 0 then 0 else CountBelow(s, n - 1) + Count(s, n - 1)
  }

  lemma {:induction false} TotalStep(g: Graph, n: nat, u: nat)
    requires u < |g|
    ensures Total(g, n, u + 1) == Total(g, n, u) + (if u < n then |g[u]| else 0) + CountBelow(g[u], n)
  {
    if n > 0 {
      TotalStep(g, n - 1, u);
    }
  }

  lemma {:induction false} CountBelowAll(s: seq<nat>, n: nat)
    requires forall i :: 0 <= i < |s| ==> s[i] < n
    ensures CountBelow(s, n) == |s|
  {
    if s == [] {
      CountBelowNone(n);
    } else {
      var init := s[..|s| - 1];
      CountBelowAll(init, n);
      assert s == init + [s[|s| - 1]];
      CountBelowAppend(init, s[|s| - 1], n);
    }
  }

  lemma {:induction false} CountBelowNone(n: nat)
    ensures CountBelow([], n) == 0
  {
    if n > 0 {
      CountBelowNone(n - 1);
    }
  }

  lemma {:induction false} CountBelowAppend(s: seq<nat>, x: nat, n: nat)
    ensures CountBelow(s + [x], n) == CountBelow(s, n) + (if x < n then 1 else 0)
  {
    if n > 0 {
      CountBelowAppend(s, x, n - 1);
      assert (s + [x])[..|s|] == s;
    }
  }

  lemma {:induction false} TotalIsTwice(g: Graph, u: nat)
    requires Closed(g) && u <= |g|
    ensures Total(g, |g|, u) == 2 * Edges(g, u)
  {
    if u == 0 {
      TotalNone(g, |g|);
    } else {
      TotalIsTwice(g, u - 1);
      TotalStep(g, |g|, u - 1);
      CountBelowAll(g[u - 1], |g|);
    }
  }

  lemma {:induction false} TotalNone(g: Graph, n: nat)
    ensures Total(g, n, 0) == 0
  {
    if n > 0 {
      TotalNone(g, n - 1);
    }
  }

  /** All slices together have two entries per edge. */
  lemma SlicesHoldTwoPerEdge(g: Graph)
    requires Closed(g)
    ensures |Flatten(Slices(g, 0, |g|))| == 2 * Edges(g, |g|)
  {
    TotalIsTwice(g, |g|);
    TotalFlatten(g, |g|);
  }

  lemma {:induction false} TotalFlatten(g: Graph, n: nat)
    ensures |Flatten(Slices(g, 0, n))| == Total(g, n, |g|)
  {
    if n > 0 {
      TotalFlatten(g, n - 1);
      SliceLengthOf(g, n - 1, |g|);
      assert Slices(g, 0, n)[..n - 1] == Slices(g, 0, n - 1);
    }
  }

  // ---- a node in progress ----

  /** The candidates of `v` once `u` has written its own list and its first `i`
      reverse edges. */
  ghost function Part(g: Graph, v: nat, u: nat, i: nat): seq<nat>
    requires u < |g| && i <= |g[u]|
  {
    SliceUpTo(g, v, u) + (if u == v then g[u] else []) + Repeat(u, Count(g[u][..i], v))
  }

  lemma PartSteps(g: Graph, v: nat, u: nat, i: nat)
    requires u < |g| && i < |g[u]|
    ensures Part(g, v, u, i + 1) == Part(g, v, u, i) + (if g[u][i] == v then [u] else [])
  {
    CountStep(g[u], i, v);
  }

  lemma PartEnds(g: Graph, v: nat, u: nat)
    requires u < |g|
    ensures Part(g, v, u, 0) == SliceUpTo(g, v, u) + (if u == v then g[u] else [])
    ensures Part(g, v, u, |g[u]|) == SliceUpTo(g, v, u + 1)
  {
    assert g[u][..0] == [] && g[u][..|g[u]|] == g[u];
  }

  lemma {:induction false} SliceGrows(g: Graph, v: nat, m: nat, n: nat)
    requires m <= n <= |g|
    ensures |SliceUpTo(g, v, m)| <= |SliceUpTo(g, v, n)|
    decreases n
  {
    if m < n {
      SliceGrows(g, v, m, n - 1);
    }
  }

  lemma {:induction false} PartFits(g: Graph, v: nat, u: nat, i: nat)
    requires u < |g| && i <= |g[u]|
    ensures |Part(g, v, u, i)| <= |Slice(g, v)|
    decreases |g[u]| - i
  {
    if i == |g[u]| {
      PartEnds(g, v, u);
      SliceGrows(g, v, u + 1, |g|);
    } else {
      PartSteps(g, v, u, i);
      PartFits(g, v, u, i + 1);
    }
  }

  // ---- the passes ----

  ghost predicate Counts(g: Graph, cnt: seq<nat>) {
    |cnt| == |g| && forall v :: 0 <= v < |g| ==> cnt[v] == |Slice(g, v)|
  }

  /** A path of three nodes in a budget that passes the check of the first node:
      the stripe of the second does not fit. */
  lemma SecondStripeTooLarge()
    ensures var g, cnt, off, plan := [[1], [2], []], [1, 2, 1], [0, 1, 3, 4], Plan(3, 4_415_118, 220_755, 1536);
            && Closed(g) && Counts(g, cnt) && IsPrefixSum(off, cnt)
            && Fits(plan, off, 0)(1) && StripeEnd(plan, off, 0) == 1
            && StripeEnd(plan, off, 1) == 2 && !Fits(plan, off, 1)(2)
  {
    var g, off, plan := [[1], [2], []], [0, 1, 3, 4], Plan(3, 4_415_118, 220_755, 1536);
    PathSlices(g);
    assert AvailForU(plan, 1) == 5 && AvailForU(plan, 2) == 0;
    FitsFalls(plan, off, [1, 2, 1], 0);
    FitsFalls(plan, off, [1, 2, 1], 1);
    assert IdsBytes(off, 0, 1) == 4 && IdsBytes(off, 1, 2) == 8;
    assert !Fits(plan, off, 0)(2) && !Fits(plan, off, 1)(2);
  }

  lemma PathSlices(g: Graph)
    requires g == [[1], [2], []]
    ensures |Slice(g, 0)| == 1 && |Slice(g, 1)| == 2 && |Slice(g, 2)| == 1
  {
    forall v | 0 <= v < 3 ensures |Slice(g, v)| == Count(g[0], v) + Count(g[1], v) + Count(g[2], v) + |g[v]| {
      assert Slice(g, v) == SliceUpTo(g, v, 2) + Contribution(g, 2, v);
      assert SliceUpTo(g, v, 2) == SliceUpTo(g, v, 1) + Contribution(g, 1, v);
      assert SliceUpTo(g, v, 1) == SliceUpTo(g, v, 0) + Contribution(g, 0, v);
    }
    assert g[0] == [] + [1] && g[1] == [] + [2];
    assert [1][..0] == [] && [2][..0] == [];
  }

  ghost predicate CountsPart(g: Graph, cnt: seq<nat>, u: nat, i: nat)
    requires u < |g| && i <= |g[u]|
  {
    |cnt| == |g| && forall v :: 0 <= v < |g| ==> cnt[v] == |Part(g, v, u, i)|
  }

  ghost predicate CountsUpTo(g: Graph, cnt: seq<nat>, u: nat)
    requires u <= |g|
  {
    |cnt| == |g| && forall v :: 0 <= v < |g| ==> cnt[v] == |SliceUpTo(g, v, u)|
  }

  ghost predicate ClosedBelow(g: Graph, n: nat) {
    forall u, i :: 0 <= u < |g| && u < n && 0 <= i < |g[u]| ==> g[u][i] < |g|
  }

  ghost predicate ClosedNode(g: Graph, u: nat)
    requires u < |g|
  {
    forall i :: 0 <= i < |g[u]| ==> g[u][i] < |g|
  }

  /** Pass 1.  It dies on a neighbour id out of range, and only then. */
  method CountPass(g: Graph) returns (ok: bool, cnt: array<nat>, edgesSeen: nat)
    ensures ok <==> Closed(g)
    ensures ok ==> Counts(g, cnt[..]) && edgesSeen == Edges(g, |g|)
    ensures fresh(cnt)
  {
    cnt := new nat[|g|](_ => 0);
    edgesSeen := 0;
    NoCounts(g, cnt[..]);
    for u := 0 to |g|
      invariant CountsUpTo(g, cnt[..], u) && ClosedBelow(g, u) && edgesSeen == Edges(g, u)
    {
      ok := CountNode(g, u, cnt);
      ClosedStep(g, u);
      if !ok {
        return;
      }
      edgesSeen := edgesSeen + |g[u]|;
    }
    AllCounts(g, cnt[..]);
    ok := true;
  }

  lemma ClosedStep(g: Graph, u: nat)
    requires u < |g| && ClosedBelow(g, u)
    ensures ClosedNode(g, u) <==> ClosedBelow(g, u + 1)
    ensures Closed(g) ==> ClosedNode(g, u)
  {
  }

  lemma NoCounts(g: Graph, cnt: seq<nat>)
    requires |cnt| == |g| && forall v :: 0 <= v < |g| ==> cnt[v] == 0
    ensures CountsUpTo(g, cnt, 0)
  {
  }

  lemma AllCounts(g: Graph, cnt: seq<nat>)
    requires CountsUpTo(g, cnt, |g|) && ClosedBelow(g, |g|)
    ensures Counts(g, cnt) && Closed(g)
  {
  }

  /** One node of pass 1. */
  method CountNode(g: Graph, u: nat, cnt: array<nat>) returns (ok: bool)
    requires u < |g| && CountsUpTo(g, cnt[..], u)
    modifies cnt
    ensures ok <==> ClosedNode(g, u)
    ensures ok ==> CountsUpTo(g, cnt[..], u + 1)
  {
    forall v: nat ensures Part(g, v, u, 0) == SliceUpTo(g, v, u) + (if u == v then g[u] else []) {
      PartEnds(g, v, u);
    }
    cnt[u] := cnt[u] + |g[u]|;
    for i := 0 to |g[u]|
      invariant CountsPart(g, cnt[..], u, i)
      invariant forall j :: 0 <= j < i ==> g[u][j] < |g|
    {
      var v := g[u][i];
      if v >= |g| {
        return false;
      }
      forall x: nat ensures Part(g, x, u, i + 1) == Part(g, x, u, i) + (if g[u][i] == x then [u] else []) {
        PartSteps(g, x, u, i);
      }
      cnt[v] := cnt[v] + 1;
    }
    forall v: nat ensures Part(g, v, u, |g[u]|) == SliceUpTo(g, v, u + 1) {
      PartEnds(g, v, u);
    }
    return true;
  }

  datatype FillStatus = FillOk | CursorOverflow | FillMismatch

  ghost function Parts(g: Graph, lo: nat, hi: nat, u: nat, i: nat): seq<seq<nat>>
    requires lo <= hi && u < |g| && i <= |g[u]|
  {
    seq(hi - lo, k requires 0 <= k < hi - lo => Part(g, lo + k, u, i))
  }

  ghost function SlicesUpTo(g: Graph, lo: nat, hi: nat, n: nat): seq<seq<nat>>
    requires lo <= hi && n <= |g|
  {
    seq(hi - lo, k requires 0 <= k < hi - lo => SliceUpTo(g, lo + k, n))
  }

  /** The stripe's share of the counts. */
  ghost predicate StripeSizes(g: Graph, lo: nat, sizes: seq<nat>) {
    forall k :: 0 <= k < |sizes| ==> sizes[k] == |Slice(g, lo + k)|
  }

  lemma PartsSteps(g: Graph, lo: nat, hi: nat, u: nat, i: nat)
    requires lo <= hi && u < |g| && i < |g[u]|
    ensures var v, p := g[u][i], Parts(g, lo, hi, u, i);
            Parts(g, lo, hi, u, i + 1) == if lo <= v < hi then p[v - lo := p[v - lo] + [u]] else p
  {
    var v, p, next := g[u][i], Parts(g, lo, hi, u, i), Parts(g, lo, hi, u, i + 1);
    var want := if lo <= v < hi then p[v - lo := p[v - lo] + [u]] else p;
    forall k | 0 <= k < hi - lo ensures next[k] == want[k] {
      PartSteps(g, lo + k, u, i);
    }
    assert next == want;
  }

  lemma PartsStart(g: Graph, lo: nat, hi: nat, u: nat)
    requires lo <= hi && u < |g|
    ensures var p := SlicesUpTo(g, lo, hi, u);
            Parts(g, lo, hi, u, 0) == if lo <= u < hi then p[u - lo := p[u - lo] + g[u]] else p
  {
    var p, next := SlicesUpTo(g, lo, hi, u), Parts(g, lo, hi, u, 0);
    var want := if lo <= u < hi then p[u - lo := p[u - lo] + g[u]] else p;
    forall k | 0 <= k < hi - lo ensures next[k] == want[k] {
      PartEnds(g, lo + k, u);
    }
    assert next == want;
  }

  lemma PartsEnd(g: Graph, lo: nat, hi: nat, u: nat)
    requires lo <= hi && u < |g|
    ensures Parts(g, lo, hi, u, |g[u]|) == SlicesUpTo(g, lo, hi, u + 1)
  {
    var a, b := Parts(g, lo, hi, u, |g[u]|), SlicesUpTo(g, lo, hi, u + 1);
    forall k | 0 <= k < hi - lo ensures a[k] == b[k] {
      PartEnds(g, lo + k, u);
    }
  }

  /** One scanned node's share of a stripe. */
  method FillNode(g: Graph, u: nat, lo: nat, hi: nat, buf: array<nat>, cur: array<nat>,
                  ghost base: seq<nat>, ghost sizes: seq<nat>) returns (ok: bool)
    requires u < |g| && lo <= hi && buf != cur && |sizes| == hi - lo && StripeSizes(g, lo, sizes)
    requires Filled(buf[..], cur[..], base, sizes, SlicesUpTo(g, lo, hi, u))
    modifies buf, cur
    ensures ok && Filled(buf[..], cur[..], base, sizes, SlicesUpTo(g, lo, hi, u + 1))
  {
    var nbr := g[u];
    FillOwn(g, u, lo, hi, buf, cur, base, sizes);
    PartsEnd(g, lo, hi, u);
    for i := 0 to |nbr|
      invariant Filled(buf[..], cur[..], base, sizes, Parts(g, lo, hi, u, i))
    {
      ok := FillReverse(g, u, i, lo, hi, buf, cur, base, sizes);
      if !ok {
        return;
      }
    }
    ok := true;
  }

  /** The node's own list, if the node is in the stripe. */
  method FillOwn(g: Graph, u: nat, lo: nat, hi: nat, buf: array<nat>, cur: array<nat>, ghost base: seq<nat>, ghost sizes: seq<nat>)
    requires u < |g| && lo <= hi && buf != cur && |sizes| == hi - lo && StripeSizes(g, lo, sizes)
    requires Filled(buf[..], cur[..], base, sizes, SlicesUpTo(g, lo, hi, u))
    modifies buf, cur
    ensures Filled(buf[..], cur[..], base, sizes, Parts(g, lo, hi, u, 0))
  {
    PartsStart(g, lo, hi, u);
    if lo <= u < hi {
      RoomForOwn(g, u, lo, hi, sizes);
      Append(buf, cur, u - lo, g[u], base, sizes, SlicesUpTo(g, lo, hi, u));
    }
  }

  /** One reverse edge; the overflow check never fires. */
  method FillReverse(g: Graph, u: nat, i: nat, lo: nat, hi: nat, buf: array<nat>, cur: array<nat>,
                     ghost base: seq<nat>, ghost sizes: seq<nat>) returns (ok: bool)
    requires u < |g| && i < |g[u]| && lo <= hi && buf != cur && |sizes| == hi - lo && StripeSizes(g, lo, sizes)
    requires Filled(buf[..], cur[..], base, sizes, Parts(g, lo, hi, u, i))
    modifies buf, cur
    ensures ok && Filled(buf[..], cur[..], base, sizes, Parts(g, lo, hi, u, i + 1))
  {
    var v := g[u][i];
    ghost var parts := Parts(g, lo, hi, u, i);
    PartsSteps(g, lo, hi, u, i);
    if lo <= v < hi {
      RoomForReverse(g, u, i, lo, hi, sizes);
      ok := PutOne(buf, cur, v - lo, u, base, sizes, parts);
    } else {
      ok := true;
    }
  }

  /** One id behind a cursor, after the overflow check. */
  method PutOne(buf: array<nat>, cur: array<nat>, k: nat, u: nat, ghost base: seq<nat>, ghost sizes: seq<nat>,
                ghost parts: seq<seq<nat>>) returns (ok: bool)
    requires buf != cur && Filled(buf[..], cur[..], base, sizes, parts) && k < |parts| && |parts[k]| + 1 <= sizes[k]
    modifies buf, cur
    ensures ok && Filled(buf[..], cur[..], base, sizes, parts[k := parts[k] + [u]])
  {
    assert HoldsPart(buf[..], cur[..], base, sizes, parts[k], k);
    if cur[k] + 1 > buf.Length {
      return false;
    }
    Append(buf, cur, k, [u], base, sizes, parts);
    ok := true;
  }

  lemma RoomForOwn(g: Graph, u: nat, lo: nat, hi: nat, sizes: seq<nat>)
    requires u < |g| && lo <= u < hi && |sizes| == hi - lo && StripeSizes(g, lo, sizes)
    ensures |SlicesUpTo(g, lo, hi, u)[u - lo]| + |g[u]| <= sizes[u - lo]
  {
    PartEnds(g, u, u);
    PartFits(g, u, u, 0);
  }

  lemma RoomForReverse(g: Graph, u: nat, i: nat, lo: nat, hi: nat, sizes: seq<nat>)
    requires u < |g| && i < |g[u]| && lo <= g[u][i] < hi && |sizes| == hi - lo && StripeSizes(g, lo, sizes)
    ensures |Parts(g, lo, hi, u, i)[g[u][i] - lo]| + 1 <= sizes[g[u][i] - lo]
  {
    PartSteps(g, g[u][i], u, i);
    PartFits(g, g[u][i], u, i + 1);
  }

  /** One stripe: buffer, cursors, a scan of the whole graph, the final check. */
  method FillStripe(g: Graph, cnt: seq<nat>, off: seq<nat>, lo: nat, hi: nat)
    returns (status: FillStatus, buf: array<nat>)
    requires Counts(g, cnt) && IsPrefixSum(off, cnt) && lo <= hi <= |g|
    ensures status == FillOk && buf[..] == Flatten(Slices(g, lo, hi)) && fresh(buf)
    ensures off[lo] <= off[hi] && buf.Length == off[hi] - off[lo]
  {
    BaseMonotone(off, cnt, lo, hi);
    buf := new nat[off[hi] - off[lo]](_ => 0);
    ghost var sizes := cnt[lo..hi];
    ghost var base := StripeBase(off, lo, hi);
    StripeBaseSums(off, cnt, lo, hi);
    var cur := new nat[hi - lo](_ => 0);
    for u := lo to hi
      invariant forall k :: 0 <= k < u - lo ==> cur[k] == base[k]
    {
      assert base[u - lo] == off[u] - off[lo];
      cur[u - lo] := off[u] - off[lo];
    }
    NothingFilled(buf[..], cur[..], base, sizes);
    NoSlices(g, lo, hi);
    for u := 0 to |g|
      invariant Filled(buf[..], cur[..], base, sizes, SlicesUpTo(g, lo, hi, u))
    {
      var ok := FillNode(g, u, lo, hi, buf, cur, base, sizes);
      if !ok {
        return CursorOverflow, buf;
      }
    }
    AllSlices(g, lo, hi);
    FullBuffer(buf[..], cur[..], base, sizes, Slices(g, lo, hi));
    for u := lo to hi {
      assert cur[..][u - lo] == base[u - lo + 1];
      if cur[u - lo] != off[u + 1] - off[lo] {
        return FillMismatch, buf;
      }
    }
    status := FillOk;
  }

  lemma NoSlices(g: Graph, lo: nat, hi: nat)
    requires lo <= hi
    ensures SlicesUpTo(g, lo, hi, 0) == Empties(hi - lo)
  {
    var a := SlicesUpTo(g, lo, hi, 0);
    forall k | 0 <= k < hi - lo ensures a[k] == [] {
      assert SliceUpTo(g, lo + k, 0) == [];
    }
  }

  lemma AllSlices(g: Graph, lo: nat, hi: nat)
    requires lo <= hi
    ensures SlicesUpTo(g, lo, hi, |g|) == Slices(g, lo, hi)
  {
    var a, b := SlicesUpTo(g, lo, hi, |g|), Slices(g, lo, hi);
    forall k | 0 <= k < hi - lo ensures a[k] == b[k] {
      assert a[k] == Slice(g, lo + k);
    }
  }

  /** Offsets relative to the start of a stripe. */
  ghost function StripeBase(off: seq<nat>, lo: nat, hi: nat): seq<nat>
    requires lo <= hi < |off|
  {
    seq(hi - lo + 1, k requires 0 <= k <= hi - lo => if off[lo + k] >= off[lo] then off[lo + k] - off[lo] else 0)
  }

  lemma StripeBaseSums(off: seq<nat>, cnt: seq<nat>, lo: nat, hi: nat)
    requires IsPrefixSum(off, cnt) && lo <= hi <= |cnt|
    ensures IsPrefixSum(StripeBase(off, lo, hi), cnt[lo..hi])
    ensures forall v :: lo <= v <= hi ==> off[v] >= off[lo] && StripeBase(off, lo, hi)[v - lo] == off[v] - off[lo]
  {
    var base := StripeBase(off, lo, hi);
    forall v | lo <= v <= hi ensures off[v] >= off[lo] && base[v - lo] == off[v] - off[lo] {
      BaseMonotone(off, cnt, lo, v);
    }
    forall k | 0 <= k < hi - lo ensures base[k + 1] == base[k] + cnt[lo..hi][k] {
      assert off[lo + k + 1] == off[lo + k] + cnt[lo + k];
    }
  }

  /** The striped fill, for any rule that picks the end of the next stripe: the
      file it writes is the one-stripe file, and neither abort is reachable. */
  method StripedFill(g: Graph, cnt: seq<nat>, off: seq<nat>, pickHi: nat -> nat)
    returns (status: FillStatus, ids: array<nat>, stripes: nat)
    requires Counts(g, cnt) && IsPrefixSum(off, cnt)
    requires forall lo :: 0 <= lo < |g| ==> pickHi(lo) <= |g|
    ensures status == FillOk && ids[..] == Flatten(Slices(g, 0, |g|))
    ensures stripes <= |g|
  {
    ids := new nat[off[|g|]](_ => 0);
    stripes := 0;
    var lo := 0;
    while lo < |g|
      invariant lo <= |g| && stripes <= lo && off[lo] <= ids.Length
      invariant ids[..off[lo]] == Flatten(Slices(g, 0, lo))
      decreases |g| - lo
    {
      var hi := pickHi(lo);
      if hi <= lo {
        hi := lo + 1;
      }
      var written;
      status, written := NextStripe(g, cnt, off, lo, hi, ids);
      if status != FillOk {
        return;
      }
      stripes := if written then stripes + 1 else stripes;
      lo := hi;
    }
    assert ids[..off[|g|]] == ids[..];
    status := FillOk;
  }

  /** One round of the stripe loop. */
  method NextStripe(g: Graph, cnt: seq<nat>, off: seq<nat>, lo: nat, hi: nat, ids: array<nat>)
    returns (status: FillStatus, written: bool)
    requires Counts(g, cnt) && IsPrefixSum(off, cnt) && lo < hi <= |g| && ids.Length == off[|g|]
    requires off[lo] <= ids.Length && ids[..off[lo]] == Flatten(Slices(g, 0, lo))
    modifies ids
    ensures status == FillOk && off[hi] <= ids.Length && ids[..off[hi]] == Flatten(Slices(g, 0, hi))
  {
    BaseMonotone(off, cnt, lo, hi);
    BaseMonotone(off, cnt, hi, |cnt|);
    SlicesSplit(g, lo, hi);
    if off[hi] == off[lo] {
      EmptyStripe(g, cnt, off, lo, hi);
      return FillOk, false;
    }
    var buf;
    status, buf := FillStripe(g, cnt, off, lo, hi);
    if status != FillOk {
      return status, false;
    }
    WriteAt(ids, off[lo], buf[..]);
    written := true;
  }

  lemma SlicesSplit(g: Graph, lo: nat, hi: nat)
    requires lo <= hi
    ensures Flatten(Slices(g, 0, hi)) == Flatten(Slices(g, 0, lo)) + Flatten(Slices(g, lo, hi))
  {
    var a, b := Slices(g, 0, lo), Slices(g, lo, hi);
    assert Slices(g, 0, hi) == a + b;
    FlattenConcat(a, b);
  }

  /** A stripe without bytes is skipped: it has nothing to contribute. */
  lemma EmptyStripe(g: Graph, cnt: seq<nat>, off: seq<nat>, lo: nat, hi: nat)
    requires Counts(g, cnt) && IsPrefixSum(off, cnt) && lo <= hi <= |g| && off[hi] == off[lo]
    ensures Flatten(Slices(g, lo, hi)) == []
  {
    var base := StripeBase(off, lo, hi);
    StripeBaseSums(off, cnt, lo, hi);
    var parts := Slices(g, lo, hi);
    PrefixSize(parts, base, cnt[lo..hi], hi - lo);
    assert parts[..hi - lo] == parts;
  }

  /** pwrite of a stripe. */
  method WriteAt(ids: array<nat>, at: nat, src: seq<nat>)
    requires at + |src| <= ids.Length
    modifies ids
    ensures ids[..at + |src|] == old(ids[..at]) + src
  {
    forall i | 0 <= i < |src| {
      ids[at + i] := src[i];
    }
  }

  datatype Outcome = Written | EmptyGraph | BadNeighbor | InsufficientMemory

  /** The check before filling: a stripe of the first node alone. */
  ghost predicate FirstFits(plan: Plan, g: Graph) {
    g != [] && AvailForU(plan, 1) > 0 && 4 * |Slice(g, 0)| <= AvailForU(plan, 1)
  }

  /** The whole stage.  The files it writes hold, for every node, its candidates
      in the symmetric closure, whatever stripes the memory plan leads to. */
  method BuildReverseCandidates(g: Graph, plan: Plan) returns (outcome: Outcome, f: CandFile)
    requires plan.n == |g|
    ensures outcome == if g == [] then EmptyGraph else if !Closed(g) then BadNeighbor else if !FirstFits(plan, g) then InsufficientMemory else Written
    ensures outcome.Written? ==>
              Holds(f, Slices(g, 0, |g|)) && f.ids == Flatten(Slices(g, 0, |g|)) && |f.ids| == 2 * Edges(g, |g|)
  {
    f := CandFile([], []);
    if g == [] {
      return EmptyGraph, f;
    }
    var ok, cnt, edges := CountPass(g);
    if !ok {
      return BadNeighbor, f;
    }
    var counts := cnt[..];
    var off := PrefixSums(counts);
    assert off[1] == off[0] + counts[0];
    if AvailForU(plan, 1) == 0 || IdsBytes(off, 0, 1) > AvailForU(plan, 1) {
      return InsufficientMemory, f;
    }
    var status, ids, stripes := StripedFill(g, counts, off, lo => if 0 <= lo && lo + 1 < |off| then StripeEnd(plan, off, lo) else 0);
    f := CandidatesFrom(g, counts, off, ids[..]);
    SlicesHoldTwoPerEdge(g);
    return Written, f;
  }

  /** The cand.idx rows beside the id stream. */
  method CandidatesFrom(g: Graph, counts: seq<nat>, off: seq<nat>, ids: seq<nat>) returns (f: CandFile)
    requires Counts(g, counts) && IsPrefixSum(off, counts) && ids == Flatten(Slices(g, 0, |g|))
    ensures Holds(f, Slices(g, 0, |g|)) && f.ids == ids
  {
    var rows := seq(|g|, u requires 0 <= u < |g| && |off| == |g| + 1 && |counts| == |g| => Row(off[u], counts[u]));
    f := CandFile(rows, ids);
    forall u | 0 <= u < |g| ensures RowHolds(rows[u], f.ids, Slice(g, u)) {
      SegmentOf(Slices(g, 0, |g|), off, counts, u);
    }
  }
}
