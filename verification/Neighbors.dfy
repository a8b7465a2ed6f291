// include/neighbor.h: the Neighbor order and the pure meaning of the operations of
// NeighborPriorityQueue, a bounded sorted list with a cursor.

module Neighbors {
  import opened Wrappers

  datatype Neighbor = Neighbor(id: nat, distance: real, expanded: bool)

  /** operator< : by distance, then by id. */
  predicate Less(a: Neighbor, b: Neighbor) {
    a.distance < b.distance || (a.distance == b.distance && a.id < b.id)
  }

  ghost predicate Sorted(s: seq<Neighbor>) {
    forall i, j :: 0 <= i < j < |s| ==> Less(s[i], s[j])
  }

  ghost function Ids(s: seq<Neighbor>): set<nat> {
    set i | 0 <= i < |s| :: s[i].id
  }

  /** The binary search of `insert`: the slot where `x` goes, or None once a
      probed entry carries the id of `x`. */
  function Probe(s: seq<Neighbor>, x: Neighbor, lo: nat, hi: nat): Option<nat>
    requires lo <= hi <= |s|
    decreases hi - lo
  {
    if lo == hi then Some(lo)
    else
      var mid := (lo + hi) / 2;
      if Less(x, s[mid]) then Probe(s, x, lo, mid)
      else if s[mid].id == x.id then None
      else Probe(s, x, mid + 1, hi)
  }

  /** What `insert` leaves behind: the list itself, or the list with a fresh
      unexpanded entry spliced in and the overflow dropped. */
  function Inserted(s: seq<Neighbor>, capacity: nat, x: Neighbor): seq<Neighbor>
    requires 1 <= capacity && |s| <= capacity
  {
    if |s| == capacity && Less(s[capacity - 1], x) then s
    else
      match Probe(s, x, 0, |s|)
      case None => s
      case Some(k) =>
        assert k <= |s| by { ProbeInRange(s, x, 0, |s|); }
        Spliced(s, capacity, x, k)
  }

  function Spliced(s: seq<Neighbor>, capacity: nat, x: Neighbor, k: nat): seq<Neighbor>
    requires k <= |s| <= capacity
  {
    var t := s[..k] + [Neighbor(x.id, x.distance, false)] + s[k..];
    if |t| > capacity then t[..capacity] else t
  }

  lemma {:induction false} ProbeInRange(s: seq<Neighbor>, x: Neighbor, lo: nat, hi: nat)
    requires lo <= hi <= |s|
    ensures Probe(s, x, lo, hi).Some? ==> lo <= Probe(s, x, lo, hi).value <= hi
    decreases hi - lo
  {
    if lo < hi {
      var mid := (lo + hi) / 2;
      if Less(x, s[mid]) {
        ProbeInRange(s, x, lo, mid);
      } else if s[mid].id != x.id {
        ProbeInRange(s, x, mid + 1, hi);
      }
    }
  }

  /** Index of the first unexpanded entry, |s| when all are expanded. */
  function FirstUnexpanded(s: seq<Neighbor>): (k: nat)
    ensures k <= |s|
    ensures forall i :: 0 <= i < k ==> s[i].expanded
    ensures k < |s| ==> !s[k].expanded
  {
    if s == [] || !s[0].expanded then 0 else 1 + FirstUnexpanded(s[1..])
  }

  /** In a sorted list the probe ends at the slot that splits the list at `x`,
      unless it meets the id of `x`. */
  lemma {:induction false} ProbeSplits(s: seq<Neighbor>, x: Neighbor, lo: nat, hi: nat)
    requires Sorted(s)
    requires lo <= hi <= |s|
    requires forall i :: 0 <= i < lo ==> Less(s[i], x)
    requires forall i :: hi <= i < |s| ==> Less(x, s[i])
    ensures match Probe(s, x, lo, hi)
            case Some(k) => k <= |s| && (forall i :: 0 <= i < k ==> Less(s[i], x))
                                     && (forall i :: k <= i < |s| ==> Less(x, s[i]))
            case None => x.id in Ids(s)
    decreases hi - lo
  {
    if lo < hi {
      var mid := (lo + hi) / 2;
      if Less(x, s[mid]) {
        ProbeSplits(s, x, lo, mid);
      } else if s[mid].id == x.id {
        assert s[mid].id in Ids(s);
      } else {
        assert Less(s[mid], x);
        ProbeSplits(s, x, mid + 1, hi);
      }
    }
  }

  /** The splice, entry by entry. */
  ghost predicate IsSplice(s: seq<Neighbor>, x: Neighbor, k: nat, t: seq<Neighbor>) {
    && |t| <= |s| + 1
    && (forall i :: 0 <= i < |t| && i < k ==> i < |s| && t[i] == s[i])
    && (k < |t| ==> t[k] == x)
    && (forall i :: k < i < |t| ==> t[i] == s[i - 1])
  }

  lemma SpliceAt(s: seq<Neighbor>, capacity: nat, x: Neighbor, k: nat, t: seq<Neighbor>)
    requires k <= |s| <= capacity && !x.expanded && t == Spliced(s, capacity, x, k)
    ensures |t| == if |s| < capacity then |s| + 1 else capacity
    ensures IsSplice(s, x, k, t)
  {
  }

  lemma SplicedSorted(s: seq<Neighbor>, x: Neighbor, k: nat, t: seq<Neighbor>)
    requires Sorted(s) && k <= |s| && IsSplice(s, x, k, t)
    requires forall i :: 0 <= i < k ==> Less(s[i], x)
    requires forall i :: k <= i < |s| ==> Less(x, s[i])
    ensures Sorted(t)
  {
    forall i, j | 0 <= i < j < |t| ensures Less(t[i], t[j]) {
      var si := if i < k then i else i - 1;
      var sj := if j < k then j else j - 1;
      assert i != k ==> t[i] == s[si];
      assert j != k ==> t[j] == s[sj];
    }
  }

  /** Every insertion keeps the list strictly sorted and within its capacity,
      whatever distances the caller reports. */
  lemma InsertedSorted(s: seq<Neighbor>, capacity: nat, x: Neighbor)
    requires 1 <= capacity && |s| <= capacity && Sorted(s)
    ensures Sorted(Inserted(s, capacity, x))
    ensures |s| <= |Inserted(s, capacity, x)| <= capacity
  {
    ProbeSplits(s, x, 0, |s|);
    var t := Inserted(s, capacity, x);
    if t != s {
      var k := Probe(s, x, 0, |s|).value;
      var fresh' := x.(expanded := false);
      SpliceAt(s, capacity, fresh', k, t);
      SplicedSorted(s, fresh', k, t);
    }
  }
}
