// src/index.cpp, reposition_points, and src/in_mem_data_store.cpp, move_vectors:
// moving a block of locations, possibly onto an overlapping one.

module Reposition {
  const U32_MODULUS: nat := 0x1_0000_0000

  predicate InBlock(p: nat, start: nat, n: nat) {
    start <= p < start + n
  }

  /** `location_delta` and `loc += location_delta`, both in wrapping uint32_t. */
  function Shifted(loc: nat, from: nat, dest: nat, n: nat): nat {
    if InBlock(loc, from, n) then (loc + (dest - from) % U32_MODULUS) % U32_MODULUS else loc
  }

  /** The wrap-around cancels: a moved location keeps its place in the block. */
  lemma ShiftedExactly(loc: nat, from: nat, dest: nat, n: nat)
    requires from + n <= U32_MODULUS && dest + n <= U32_MODULUS
    ensures Shifted(loc, from, dest, n) == if InBlock(loc, from, n) then dest + (loc - from) else loc
  {
  }

  /** Moving there and back restores a reference exactly when it does not point
      into the part of the target block that lies outside the source block. */
  lemma ShiftedBack(loc: nat, a: nat, b: nat, n: nat)
    requires a + n <= U32_MODULUS && b + n <= U32_MODULUS && a != b
    ensures Shifted(Shifted(loc, a, b, n), b, a, n) == loc <==> !(InBlock(loc, b, n) && !InBlock(loc, a, n))
  {
    ShiftedExactly(loc, a, b, n);
    ShiftedExactly(Shifted(loc, a, b, n), b, a, n);
  }

  function ShiftedList(list: seq<nat>, from: nat, dest: nat, n: nat): seq<nat> {
    seq(|list|, i requires 0 <= i < |list| => Shifted(list[i], from, dest, n))
  }

  function ShiftedGraph(g: seq<seq<nat>>, from: nat, dest: nat, n: nat): seq<seq<nat>> {
    seq(|g|, i requires 0 <= i < |g| => ShiftedList(g[i], from, dest, n))
  }

  /** The block [from, from + n) at [dest, dest + n); what it leaves is blank. */
  function Moved<T>(s: seq<T>, from: nat, dest: nat, n: nat, blank: T): seq<T>
    requires from + n <= |s| && dest + n <= |s|
  {
    seq(|s|, p requires 0 <= p < |s| =>
      if InBlock(p, dest, n) then s[from + (p - dest)] else if InBlock(p, from, n) then blank else s[p])
  }

  /** There and back: everything but the borrowed locations is restored, and
      those are left blank. */
  lemma MovedBack<T>(s: seq<T>, a: nat, b: nat, n: nat, blank: T, p: nat)
    requires a + n <= |s| && b + n <= |s| && p < |s|
    ensures Moved(Moved(s, a, b, n, blank), b, a, n, blank)[p]
         == if InBlock(p, b, n) && !InBlock(p, a, n) then blank else s[p]
  {
  }

  /** No reference of the list points into `b`'s block outside `a`'s. */
  ghost predicate Avoids(list: seq<nat>, a: nat, b: nat, n: nat) {
    forall i :: 0 <= i < |list| ==> !(InBlock(list[i], b, n) && !InBlock(list[i], a, n))
  }

  lemma ShiftedListBack(list: seq<nat>, a: nat, b: nat, n: nat)
    requires a + n <= U32_MODULUS && b + n <= U32_MODULUS && a != b
    ensures ShiftedList(ShiftedList(list, a, b, n), b, a, n) == list <==> Avoids(list, a, b, n)
  {
    var back := ShiftedList(ShiftedList(list, a, b, n), b, a, n);
    forall i | 0 <= i < |list|
      ensures back[i] == list[i] <==> !(InBlock(list[i], b, n) && !InBlock(list[i], a, n))
    {
      ShiftedBack(list[i], a, b, n);
    }
  }

  // ---- the swaps of reposition_points ----

  function Swapped<T>(g: seq<T>, x: nat, y: nat): (r: seq<T>)
    requires x < |g| && y < |g|
    ensures |r| == |g|
  {
    g[y := g[x]][x := g[y]]
  }

  /** Places from + j and dest + j exchanged for j = 0, ..., k - 1 in this order. */
  function SwapsUp<T>(g: seq<T>, from: nat, dest: nat, k: nat): (r: seq<T>)
    requires from + k <= |g| && dest + k <= |g|
    ensures |r| == |g|
  {
    if k == 0 then g else Swapped(SwapsUp(g, from, dest, k - 1), from + (k - 1), dest + (k - 1))
  }

  /** The same for j = n - 1, ..., k. */
  function SwapsDown<T>(g: seq<T>, from: nat, dest: nat, k: nat, n: nat): (r: seq<T>)
    requires from + n <= |g| && dest + n <= |g| && k <= n
    ensures |r| == |g|
    decreases n - k
  {
    if k == n then g else Swapped(SwapsDown(g, from, dest, k + 1, n), from + k, dest + k)
  }

  /** A block that moves down is swapped from its start, one that moves up from its
      end. */
  function BlockSwapped<T>(g: seq<T>, from: nat, dest: nat, n: nat): (r: seq<T>)
    requires from + n <= |g| && dest + n <= |g|
    ensures |r| == |g|
  {
    if dest < from then SwapsUp(g, from, dest, n) else SwapsDown(g, from, dest, 0, n)
  }

  lemma SwappedBack<T>(g: seq<T>, x: nat, y: nat)
    requires x < |g| && y < |g|
    ensures Swapped(Swapped(g, x, y), y, x) == g && Swapped(Swapped(g, x, y), x, y) == g
  {
  }

  /** The first swap of a descending run, peeled off. */
  lemma {:induction false} SwapsDownFirst<T>(g: seq<T>, from: nat, dest: nat, k: nat, n: nat)
    requires from + n <= |g| && dest + n <= |g| && k < n
    ensures SwapsDown(g, from, dest, k, n) == SwapsDown(Swapped(g, from + (n - 1), dest + (n - 1)), from, dest, k, n - 1)
    decreases n - k
  {
    if k + 1 < n {
      SwapsDownFirst(g, from, dest, k + 1, n);
    }
  }

  lemma SwapsUndone<T>(g: seq<T>, a: nat, b: nat, n: nat)
    requires a + n <= |g| && b + n <= |g|
    ensures SwapsDown(SwapsUp(g, a, b, n), b, a, 0, n) == g
    ensures SwapsUp(SwapsDown(g, a, b, 0, n), b, a, n) == g
  {
    UpUndone(g, a, b, n);
    DownUndone(g, a, b, n);
  }

  lemma {:induction false} UpUndone<T>(g: seq<T>, a: nat, b: nat, n: nat)
    requires a + n <= |g| && b + n <= |g|
    ensures SwapsDown(SwapsUp(g, a, b, n), b, a, 0, n) == g
  {
    if n > 0 {
      SwapsDownFirst(SwapsUp(g, a, b, n), b, a, 0, n);
      SwappedBack(SwapsUp(g, a, b, n - 1), a + (n - 1), b + (n - 1));
      UpUndone(g, a, b, n - 1);
    }
  }

  lemma {:induction false} DownUndone<T>(g: seq<T>, a: nat, b: nat, n: nat)
    requires a + n <= |g| && b + n <= |g|
    ensures SwapsUp(SwapsDown(g, a, b, 0, n), b, a, n) == g
    decreases n
  {
    if n > 0 {
      SwapsDownFirst(g, a, b, 0, n);
      DownUndone(Swapped(g, a + (n - 1), b + (n - 1)), a, b, n - 1);
      SwappedBack(g, a + (n - 1), b + (n - 1));
    }
  }

  /** Moving a block there and back undoes every swap, whatever the target held. */
  lemma BlockSwappedBack<T>(g: seq<T>, a: nat, b: nat, n: nat)
    requires a + n <= |g| && b + n <= |g| && a != b
    ensures BlockSwapped(BlockSwapped(g, a, b, n), b, a, n) == g
  {
    SwapsUndone(g, a, b, n);
  }

  /** Renaming acts on each list, so it commutes with the swaps. */
  lemma {:induction false} ShiftSwapsUp(g: seq<seq<nat>>, x: nat, y: nat, k: nat, from: nat, dest: nat, n: nat)
    requires x + k <= |g| && y + k <= |g|
    ensures ShiftedGraph(SwapsUp(g, x, y, k), from, dest, n) == SwapsUp(ShiftedGraph(g, from, dest, n), x, y, k)
  {
    if k > 0 {
      ShiftSwapsUp(g, x, y, k - 1, from, dest, n);
      ShiftSwap(SwapsUp(g, x, y, k - 1), x + (k - 1), y + (k - 1), from, dest, n);
    }
  }

  lemma {:induction false} ShiftSwapsDown(g: seq<seq<nat>>, x: nat, y: nat, k: nat, m: nat, from: nat, dest: nat, n: nat)
    requires x + m <= |g| && y + m <= |g| && k <= m
    ensures ShiftedGraph(SwapsDown(g, x, y, k, m), from, dest, n) == SwapsDown(ShiftedGraph(g, from, dest, n), x, y, k, m)
    decreases m - k
  {
    if k < m {
      ShiftSwapsDown(g, x, y, k + 1, m, from, dest, n);
      ShiftSwap(SwapsDown(g, x, y, k + 1, m), x + k, y + k, from, dest, n);
    }
  }

  lemma ShiftSwap(g: seq<seq<nat>>, x: nat, y: nat, from: nat, dest: nat, n: nat)
    requires x < |g| && y < |g|
    ensures ShiftedGraph(Swapped(g, x, y), from, dest, n) == Swapped(ShiftedGraph(g, from, dest, n), x, y)
  {
  }

  lemma ShiftBlock(g: seq<seq<nat>>, a: nat, b: nat, m: nat, from: nat, dest: nat, n: nat)
    requires a + m <= |g| && b + m <= |g|
    ensures ShiftedGraph(BlockSwapped(g, a, b, m), from, dest, n) == BlockSwapped(ShiftedGraph(g, from, dest, n), a, b, m)
  {
    if b < a {
      ShiftSwapsUp(g, a, b, m, from, dest, n);
    } else {
      ShiftSwapsDown(g, a, b, 0, m, from, dest, n);
    }
  }

  /** What reposition_points makes of a graph. */
  function Repositioned(g: seq<seq<nat>>, from: nat, dest: nat, n: nat): (r: seq<seq<nat>>)
    requires from + n <= |g| && dest + n <= |g|
    ensures |r| == |g|
  {
    BlockSwapped(ShiftedGraph(g, from, dest, n), from, dest, n)
  }

  /** There and back, any location gets its list back exactly when the list never
      pointed into the part of the target block outside the source block. */
  lemma RepositionedBack(g: seq<seq<nat>>, a: nat, b: nat, n: nat, p: nat)
    requires a + n <= |g| <= U32_MODULUS && b + n <= |g| && a != b && p < |g|
    ensures Repositioned(Repositioned(g, a, b, n), b, a, n)[p] == g[p] <==> Avoids(g[p], a, b, n)
  {
    var there := ShiftedGraph(g, a, b, n);
    ShiftBlock(there, a, b, n, b, a, n);
    BlockSwappedBack(ShiftedGraph(there, b, a, n), a, b, n);
    ShiftedListBack(g[p], a, b, n);
  }

  /** A block that moves down arrives in order, and nothing below it changes. */
  lemma {:induction false} ArrivesInOrder<T>(g: seq<T>, from: nat, dest: nat, k: nat, p: nat)
    requires dest < from && from + k <= |g| && p < |g|
    ensures p < dest ==> SwapsUp(g, from, dest, k)[p] == g[p]
    ensures dest <= p < dest + k ==> SwapsUp(g, from, dest, k)[p] == g[from + (p - dest)]
    ensures p >= from + k ==> SwapsUp(g, from, dest, k)[p] == g[p]
  {
    if k > 0 {
      ArrivesInOrder(g, from, dest, k - 1, p);
      ArrivesInOrder(g, from, dest, k - 1, from + (k - 1));
    }
  }

  /** A block that moves up arrives in order, and nothing outside the two changes. */
  lemma {:induction false} ArrivesAbove<T>(g: seq<T>, from: nat, dest: nat, k: nat, n: nat, p: nat)
    requires from < dest && from + n <= |g| && dest + n <= |g| && k <= n && p < |g|
    ensures p < from + k || (from + n <= p < dest + k) ==> SwapsDown(g, from, dest, k, n)[p] == g[p]
    ensures dest + k <= p < dest + n ==> SwapsDown(g, from, dest, k, n)[p] == g[from + (p - dest)]
    decreases n - k
  {
    if k < n {
      ArrivesAbove(g, from, dest, k + 1, n, p);
      ArrivesAbove(g, from, dest, k + 1, n, from + k);
    }
  }

  /** No reference of the list points into the block. */
  predicate Clear(list: seq<nat>, start: nat, n: nat) {
    forall i :: 0 <= i < |list| ==> !InBlock(list[i], start, n)
  }

  lemma ShiftedSame(list: seq<nat>, from: nat, dest: nat, n: nat)
    requires from + n <= U32_MODULUS && dest + n <= U32_MODULUS && from != dest
    ensures ShiftedList(list, from, dest, n) == list <==> Clear(list, from, n)
  {
    var moved := ShiftedList(list, from, dest, n);
    forall i | 0 <= i < |list| ensures moved[i] == list[i] <==> !InBlock(list[i], from, n) {
      ShiftedExactly(list[i], from, dest, n);
    }
  }

  /** A block moved to the end of a graph: its renamed lists are there in order, and
      outside the two blocks exactly the lists without references to it stay. */
  lemma RepositionedUp(g: seq<seq<nat>>, from: nat, dest: nat, n: nat, p: nat)
    requires from < dest && dest + n == |g| <= U32_MODULUS && p < |g|
    ensures p < from || from + n <= p < dest ==> (Repositioned(g, from, dest, n)[p] == g[p] <==> Clear(g[p], from, n))
    ensures dest <= p ==> Repositioned(g, from, dest, n)[p] == ShiftedList(g[from + (p - dest)], from, dest, n)
  {
    ArrivesAbove(ShiftedGraph(g, from, dest, n), from, dest, 0, n, p);
    ShiftedSame(g[p], from, dest, n);
  }
}
