// src/index.cpp: the slots of a dynamic index, from reservation through lazy
// deletion to release.

module SlotMachine {
  import opened Wrappers
  import opened Graphs

  /** What became impossible-by-invariant in the source: its exceptions. */
  datatype Failure = AlreadyEmpty | CountMismatch | NoValues

  datatype Pending = Pending(task: nat, loc: nat, tag: nat)

  /** `taken` is the delete set handed over by a running consolidation; `pending` is
      a reserved slot whose insert still holds the tag lock.  `bits` is the length of
      the free list's bitset, and `strayed` records that a membership test fell
      behind its end; no step looks at it. */
  datatype Slots = Slots(max: nat, empty: seq<nat>, nd: int, locToTag: map<nat, nat>, tagToLoc: map<nat, nat>,
                         deleteSet: set<nat>, taken: set<nat>, pending: Option<Pending>, compacted: bool,
                         failure: Option<Failure>, bits: nat, strayed: bool)

  ghost function PendingSet(s: Slots): set<nat> {
    if s.pending.Some? then {s.pending.value.loc} else {}
  }

  ghost predicate Inverse(a: map<nat, nat>, b: map<nat, nat>) {
    && (forall l :: l in a ==> a[l] in b && b[a[l]] == l)
    && (forall t :: t in b ==> b[t] in a && a[b[t]] == t)
  }

  function Bit(b: bool): nat {
    if b then 1 else 0
  }

  /** In how many of the classes empty, live, deleted, being consolidated and just
      reserved a slot is. */
  ghost function Classes(v: nat, s: Slots): nat {
    Bit(v in ToSet(s.empty)) + Bit(v in s.locToTag) + Bit(v in s.deleteSet) + Bit(v in s.taken) + Bit(v in PendingSet(s))
  }

  /** The partition: every slot is in exactly one class, nothing else is in any. */
  ghost predicate Partition(s: Slots) {
    forall v: nat :: Classes(v, s) == Bit(v < s.max)
  }

  ghost predicate SlotInv(s: Slots) {
    && Distinct(s.empty)
    && Partition(s)
    && |s.empty| + s.nd == s.max
    && Inverse(s.locToTag, s.tagToLoc)
    && s.failure.None?
  }

  /** A fresh dynamic index: enable_delete queues every slot in ascending order. */
  function Fresh(max: nat): Slots {
    Slots(max, seq(max, i => i), 0, map[], map[], {}, {}, None, true, None, max, false)
  }

  lemma FreshInv(max: nat)
    ensures SlotInv(Fresh(max))
  {
    var e := seq(max, i => i);
    forall v: nat ensures v in ToSet(e) <==> v < max {
      if v < max { assert e[v] == v; }
    }
    assert ToSet(e) == Below(max);
  }

  /** reserve_location under the tag and delete locks.  Tag 0 is refused by the caller. */
  function Reserve(s: Slots, task: nat, tag: nat): Slots {
    if s.nd >= s.max then s
    else if s.compacted && s.empty == [] then
      s.(nd := s.nd + 1, pending := Some(Pending(task, if s.nd < 0 then 0 else s.nd, tag)))
    else if s.empty == [] then s.(failure := Some(NoValues))
    else
      var loc := s.empty[|s.empty| - 1];
      s.(empty := s.empty[..|s.empty| - 1], deleteSet := s.deleteSet - {loc}, nd := s.nd + 1,
         pending := Some(Pending(task, loc, tag)))
  }

  /** One is_in_set call of the source. */
  function Tested(s: Slots, loc: nat): Slots {
    s.(strayed := s.strayed || loc >= s.bits)
  }

  /** release_location: the insert failed on a duplicate tag. */
  function Release(s: Slots, loc: nat): Slots {
    if loc in s.empty then Tested(s, loc).(failure := Some(AlreadyEmpty))
    else Tested(s, loc).(empty := s.empty + [loc], nd := s.nd - 1, bits := if loc < s.bits then s.bits else loc + 1)
  }

  /** The second half of insert_point's locked region: record the tag, or give the
      slot back when the tag is taken. */
  function CommitTag(s: Slots): Slots
    requires s.pending.Some?
  {
    var p := s.pending.value;
    if p.tag in s.tagToLoc then Release(s, p.loc).(pending := None)
    else s.(tagToLoc := s.tagToLoc[p.tag := p.loc], locToTag := s.locToTag[p.loc := p.tag], pending := None)
  }

  function LazyDelete(s: Slots, tag: nat): Slots {
    if tag !in s.tagToLoc then s.(compacted := false)
    else
      var loc := s.tagToLoc[tag];
      s.(compacted := false, deleteSet := s.deleteSet + {loc}, locToTag := s.locToTag - {loc},
         tagToLoc := s.tagToLoc - {tag})
  }

  /** The swap that opens a consolidation. */
  function TakeDeleteSet(s: Slots): Slots {
    s.(taken := s.deleteSet, deleteSet := {})
  }

  /** release_locations, in the iteration order of the hash set. */
  function ReleaseAll(s: Slots, order: seq<nat>): Slots
    decreases |order|
  {
    if order == [] then
      if |s.empty| + s.nd != s.max then s.(failure := Some(CountMismatch)) else s
    else
      var s' := Release(s, order[0]);
      if s'.failure.Some? then s' else ReleaseAll(s'.(taken := s'.taken - {order[0]}), order[1..])
  }

  // ---- every step keeps the invariant ----

  lemma ReserveKeeps(s: Slots, task: nat, tag: nat)
    requires SlotInv(s) && s.pending.None?
    ensures SlotInv(Reserve(s, task, tag))
    ensures s.nd < s.max <==> Reserve(s, task, tag).pending.Some?
    ensures s.nd < s.max ==> s.empty != [] && Reserve(s, task, tag).pending == Some(Pending(task, s.empty[|s.empty| - 1], tag))
  {
    if s.nd < s.max {
      var init, loc, r := s.empty[..|s.empty| - 1], s.empty[|s.empty| - 1], Reserve(s, task, tag);
      assert s.empty == init + [loc];
      ToSetAppend(init, loc);
      assert loc !in ToSet(init);
      assert Classes(loc, s) == 1;
      forall v: nat ensures Classes(v, r) == Bit(v < s.max) {
        assert Classes(v, s) == Bit(v < s.max);
      }
    }
  }

  lemma TestedKeeps(s: Slots, loc: nat)
    requires SlotInv(s)
    ensures SlotInv(Tested(s, loc))
  {
    forall v: nat ensures Classes(v, Tested(s, loc)) == Bit(v < s.max) {
      assert Classes(v, s) == Bit(v < s.max);
    }
  }

  lemma ReleaseKeeps(s: Slots, loc: nat)
    requires Distinct(s.empty) && s.failure.None? && loc !in ToSet(s.empty)
    ensures var r := Release(s, loc);
            && r == Tested(s, loc).(empty := s.empty + [loc], nd := s.nd - 1, bits := r.bits)
            && Distinct(r.empty) && ToSet(r.empty) == ToSet(s.empty) + {loc}
  {
    ToSetAppend(s.empty, loc);
    assert forall i :: 0 <= i < |s.empty| ==> s.empty[i] in ToSet(s.empty);
  }

  lemma CommitKeeps(s: Slots)
    requires SlotInv(s) && s.pending.Some?
    ensures SlotInv(CommitTag(s)) && CommitTag(s).pending.None?
  {
    var p, r := s.pending.value, CommitTag(s);
    assert Classes(p.loc, s) == 1;
    if p.tag in s.tagToLoc {
      ReleaseKeeps(s, p.loc);
    } else {
      InverseAdd(s.locToTag, s.tagToLoc, p.loc, p.tag);
    }
    forall v: nat ensures Classes(v, r) == Bit(v < s.max) {
      assert Classes(v, s) == Bit(v < s.max);
    }
  }

  lemma InverseAdd(a: map<nat, nat>, b: map<nat, nat>, l: nat, t: nat)
    requires Inverse(a, b) && l !in a && t !in b
    ensures Inverse(a[l := t], b[t := l])
  {
  }

  lemma InverseRemove(a: map<nat, nat>, b: map<nat, nat>, l: nat, t: nat)
    requires Inverse(a, b) && l in a && a[l] == t
    ensures Inverse(a - {l}, b - {t})
  {
    forall x | x in a - {l} ensures a[x] in b - {t} {
      assert b[a[x]] == x;
    }
  }

  lemma LazyDeleteKeeps(s: Slots, tag: nat)
    requires SlotInv(s)
    ensures SlotInv(LazyDelete(s, tag))
  {
    var r := LazyDelete(s, tag);
    if tag in s.tagToLoc {
      var loc := s.tagToLoc[tag];
      assert loc in s.locToTag && Classes(loc, s) == 1;
      InverseRemove(s.locToTag, s.tagToLoc, loc, tag);
    }
    forall v: nat ensures Classes(v, r) == Bit(v < s.max) {
      assert Classes(v, s) == Bit(v < s.max);
    }
  }

  lemma TakeKeeps(s: Slots)
    requires SlotInv(s) && s.taken == {}
    ensures SlotInv(TakeDeleteSet(s))
  {
    forall v: nat ensures Classes(v, TakeDeleteSet(s)) == Bit(v < s.max) {
      assert Classes(v, s) == Bit(v < s.max);
    }
  }

  /** Giving back one slot of the consolidated set. */
  lemma ReleaseTaken(s: Slots, loc: nat)
    requires SlotInv(s) && loc in s.taken
    ensures var r := Release(s, loc); SlotInv(r.(taken := r.taken - {loc}))
    ensures var r := Release(s, loc); r == Tested(s, loc).(empty := s.empty + [loc], nd := s.nd - 1, bits := r.bits)
    ensures ToSet(s.empty + [loc]) == ToSet(s.empty) + {loc}
  {
    assert Classes(loc, s) == 1;
    ReleaseKeeps(s, loc);
    var r := Release(s, loc).(taken := s.taken - {loc});
    forall v: nat ensures Classes(v, r) == Bit(v < s.max) {
      assert Classes(v, s) == Bit(v < s.max);
    }
  }

  lemma {:induction false} ReleaseAllKeeps(s: Slots, order: seq<nat>)
    requires SlotInv(s) && Distinct(order) && ToSet(order) == s.taken
    ensures SlotInv(ReleaseAll(s, order))
    ensures ToSet(ReleaseAll(s, order).empty) == ToSet(s.empty) + s.taken
    ensures var r := ReleaseAll(s, order); r == s.(empty := r.empty, nd := s.nd - |order|, taken := {}, bits := r.bits, strayed := r.strayed)
    decreases |order|
  {
    if order != [] {
      var loc := order[0];
      assert loc in s.taken;
      ReleaseTaken(s, loc);
      var s' := Release(s, loc).(taken := s.taken - {loc});
      TailSet(order);
      ReleaseAllKeeps(s', order[1..]);
    } else {
      assert s.taken == {};
    }
  }

  lemma TailSet(s: seq<nat>)
    requires s != [] && Distinct(s)
    ensures ToSet(s[1..]) == ToSet(s) - {s[0]} && Distinct(s[1..])
  {
    forall v | v in ToSet(s) - {s[0]} ensures v in ToSet(s[1..]) {
      var i :| 0 <= i < |s| && s[i] == v;
      assert s[1..][i - 1] == v;
    }
  }

  // ---- the counts consolidate_deletes checks ----

  /** The first check of consolidate_deletes can never throw; the second one holds
      exactly when no other consolidation has taken a non-empty delete set. */
  lemma ConsolidateChecks(s: Slots)
    requires SlotInv(s) && s.pending.None?
    ensures |s.empty| + s.nd == s.max
    ensures |s.locToTag| == |s.tagToLoc|
    ensures |s.locToTag| + |s.deleteSet| == s.nd <==> s.taken == {}
  {
    SetOfDistinct(s.empty);
    PartitionSets(s);
    var e, l := ToSet(s.empty), s.locToTag.Keys;
    assert |e + l + s.deleteSet + s.taken| == |e| + |l| + |s.deleteSet| + |s.taken|;
    assert |s.locToTag| == |l|;
    SameSize(s.locToTag, s.tagToLoc);
  }

  /** The partition, as sets. */
  lemma PartitionSets(s: Slots)
    requires Partition(s)
    ensures ToSet(s.empty) + s.locToTag.Keys + s.deleteSet + s.taken + PendingSet(s) == Below(s.max)
    ensures ToSet(s.empty) !! s.locToTag.Keys !! s.deleteSet !! s.taken !! PendingSet(s)
  {
    var e, l, p := ToSet(s.empty), s.locToTag.Keys, PendingSet(s);
    forall v: nat ensures InSets(v, e, l, s.deleteSet, s.taken, p) == Bit(v < s.max) {
      assert Classes(v, s) == Bit(v < s.max);
    }
    UnionIsAll(e, l, s.deleteSet, s.taken, p, s.max);
    PairwiseDisjoint(e, l, s.deleteSet, s.taken, p, s.max);
  }

  ghost function InSets(v: nat, e: set<nat>, l: set<nat>, d: set<nat>, o: set<nat>, p: set<nat>): nat {
    Bit(v in e) + Bit(v in l) + Bit(v in d) + Bit(v in o) + Bit(v in p)
  }

  lemma UnionIsAll(e: set<nat>, l: set<nat>, d: set<nat>, o: set<nat>, p: set<nat>, n: nat)
    requires forall v: nat :: InSets(v, e, l, d, o, p) == Bit(v < n)
    ensures e + l + d + o + p == Below(n)
  {
    forall v: nat ensures v in e + l + d + o + p <==> v in Below(n) {
      assert InSets(v, e, l, d, o, p) == Bit(v < n);
    }
  }

  lemma PairwiseDisjoint(e: set<nat>, l: set<nat>, d: set<nat>, o: set<nat>, p: set<nat>, n: nat)
    requires forall v: nat :: InSets(v, e, l, d, o, p) == Bit(v < n)
    ensures e !! l !! d !! o !! p
  {
    forall v: nat
      ensures v in e ==> v !in l
      ensures v in e + l ==> v !in d
      ensures v in e + l + d ==> v !in o
      ensures v in e + l + d + o ==> v !in p
    {
      assert InSets(v, e, l, d, o, p) == Bit(v < n);
    }
  }

  lemma {:induction false} SameSize(a: map<nat, nat>, b: map<nat, nat>)
    requires Inverse(a, b)
    ensures |a| == |b|
    decreases |a|
  {
    if a == map[] {
      assert b.Keys == {};
    } else {
      var l :| l in a;
      var t := a[l];
      var a', b' := a - {l}, b - {t};
      assert a'.Keys == a.Keys - {l} && b'.Keys == b.Keys - {t};
      assert Inverse(a', b') by {
        forall x | x in a' ensures a'[x] in b' && b'[a'[x]] == x {
          assert a[x] != t;
        }
      }
      SameSize(a', b');
    }
  }
}
