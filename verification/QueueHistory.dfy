// include/neighbor.h over whole histories: what any sequence of insertions and
// expansions leaves in the queue, and when a repeated id is dropped.

module QueueHistory {
  import opened Neighbors
  import opened Wrappers
  import opened Closest

  datatype Op = Insert(id: nat) | Expand

  function Apply(s: seq<Neighbor>, capacity: nat, d: Dist, op: Op): seq<Neighbor>
    requires 1 <= capacity && |s| <= capacity
  {
    match op
    case Insert(v) => Inserted(s, capacity, Neighbor(v, d(v), false))
    case Expand =>
      var k := FirstUnexpanded(s);
      if k < |s| then s[k := s[k].(expanded := true)] else s
  }

  /** The queue after `ops`, from an empty one. */
  ghost function Run(capacity: nat, d: Dist, ops: seq<Op>): (s: seq<Neighbor>)
    requires 1 <= capacity
    ensures Represents(s, capacity, d, InsertedIds(ops), ExpandedIds(capacity, d, ops))
    decreases |ops|, 1
  {
    if ops == [] then []
    else
      var before := Run(capacity, d, ops[..|ops| - 1]);
      var s := Apply(before, capacity, d, ops[|ops| - 1]);
      RunStep(capacity, d, ops, before, s);
      s
  }

  ghost function InsertedIds(ops: seq<Op>): set<nat> {
    set i | 0 <= i < |ops| && ops[i].Insert? :: ops[i].id
  }

  /** The ids handed out by the expansions of `ops`. */
  ghost function ExpandedIds(capacity: nat, d: Dist, ops: seq<Op>): set<nat>
    requires 1 <= capacity
    decreases |ops|, 0
  {
    if ops == [] then {}
    else
      var init := ops[..|ops| - 1];
      var e := ExpandedIds(capacity, d, init);
      if ops[|ops| - 1].Expand? then
        e + (set v | v in InsertedIds(init) && IsNext(d, capacity, InsertedIds(init), e, v))
      else e
  }

  lemma RunStep(capacity: nat, d: Dist, ops: seq<Op>, before: seq<Neighbor>, s: seq<Neighbor>)
    requires 1 <= capacity && ops != []
    requires var init := ops[..|ops| - 1];
             Represents(before, capacity, d, InsertedIds(init), ExpandedIds(capacity, d, init))
    requires s == Apply(before, capacity, d, ops[|ops| - 1])
    ensures Represents(s, capacity, d, InsertedIds(ops), ExpandedIds(capacity, d, ops))
  {
    var init, op := ops[..|ops| - 1], ops[|ops| - 1];
    var v0, e0 := InsertedIds(init), ExpandedIds(capacity, d, init);
    assert ops == init + [op];
    InsertedIdsAppend(init, op);
    match op
    case Insert(v) => InsertRepresents(before, capacity, d, v0, e0, v);
    case Expand => ExpandStep(capacity, d, v0, e0, before);
  }

  lemma InsertedIdsAppend(init: seq<Op>, op: Op)
    ensures InsertedIds(init + [op]) == InsertedIds(init) + (if op.Insert? then {op.id} else {})
  {
    var ops := init + [op];
    assert ops[|init|] == op && forall i :: 0 <= i < |init| ==> ops[i] == init[i];
  }

  lemma ExpandStep(capacity: nat, d: Dist, v0: set<nat>, e0: set<nat>, before: seq<Neighbor>)
    requires Represents(before, capacity, d, v0, e0)
    ensures Represents(Apply(before, capacity, d, Expand), capacity, d, v0,
                       e0 + (set v | v in v0 && IsNext(d, capacity, v0, e0, v)))
  {
    var k := FirstUnexpanded(before);
    FirstUnexpandedIsNext(before, capacity, d, v0, e0);
    var next := set v | v in v0 && IsNext(d, capacity, v0, e0, v);
    if k < |before| {
      ExpandRepresents(before, capacity, d, v0, e0, k);
      assert next == {before[k].id};
    } else {
      assert next == {};
      assert e0 + next == e0;
    }
  }

  /** After any history the queue is exactly the `capacity` closest of all ids
      ever inserted, in strict order, each marked iff it was ever handed out. */
  lemma QueueIsTop(capacity: nat, d: Dist, ops: seq<Op>)
    requires 1 <= capacity
    ensures var s := Run(capacity, d, ops);
            && Sorted(s)
            && (forall v :: v in Ids(s) <==> InTop(d, capacity, InsertedIds(ops), v))
            && |s| == (if |InsertedIds(ops)| < capacity then |InsertedIds(ops)| else capacity)
            && (forall i :: 0 <= i < |s| ==> (s[i].expanded <==> s[i].id in ExpandedIds(capacity, d, ops)))
  {
    var s := Run(capacity, d, ops);
    forall v ensures v in Ids(s) <==> InTop(d, capacity, InsertedIds(ops), v) {
      RepresentsTop(s, capacity, d, InsertedIds(ops), ExpandedIds(capacity, d, ops), v);
    }
    assert s[..|s|] == s;
    PrefixIds(s, d, |s|);
    assert Ids(s) <= InsertedIds(ops);
    CardinalityMonotone(Ids(s), InsertedIds(ops));
    if |s| < capacity {
      assert Ids(s) == InsertedIds(ops);
    }
  }

  // ---- a repeated id with a different distance ----

  /** Does the binary search for slot `rank` within [lo, hi) probe index `i`? */
  predicate OnPath(lo: nat, hi: nat, rank: nat, i: nat)
    requires lo <= hi
    decreases hi - lo
  {
    lo < hi &&
    var mid := (lo + hi) / 2;
    mid == i || (if rank <= mid then OnPath(lo, mid, rank, i) else OnPath(mid + 1, hi, rank, i))
  }

  /** The search probes an entry with the id of `x` before its slot. */
  predicate Meets(s: seq<Neighbor>, x: Neighbor, rank: nat, lo: nat, hi: nat)
    requires lo <= hi <= |s|
  {
    exists i :: 0 <= i < rank && i < |s| && s[i].id == x.id && OnPath(lo, hi, rank, i)
  }

  lemma {:induction false} PathInRange(lo: nat, hi: nat, rank: nat, i: nat)
    requires lo <= hi && OnPath(lo, hi, rank, i)
    ensures lo <= i < hi
    decreases hi - lo
  {
    var mid := (lo + hi) / 2;
    if mid != i {
      if rank <= mid {
        PathInRange(lo, mid, rank, i);
      } else {
        PathInRange(mid + 1, hi, rank, i);
      }
    }
  }

  lemma {:induction false} ProbeMeets(s: seq<Neighbor>, x: Neighbor, rank: nat, lo: nat, hi: nat)
    requires lo <= hi <= |s| && lo <= rank <= hi
    requires forall j :: 0 <= j < rank ==> !Less(x, s[j])
    requires forall j :: rank <= j < |s| ==> Less(x, s[j])
    ensures Probe(s, x, lo, hi) == if Meets(s, x, rank, lo, hi) then None else Some(rank)
    decreases hi - lo
  {
    if lo < hi {
      var mid := (lo + hi) / 2;
      if rank <= mid {
        ProbeMeets(s, x, rank, lo, mid);
        assert Meets(s, x, rank, lo, hi) <==> Meets(s, x, rank, lo, mid);
      } else if s[mid].id == x.id {
        assert OnPath(lo, hi, rank, mid);
      } else {
        ProbeMeets(s, x, rank, mid + 1, hi);
        assert Meets(s, x, rank, lo, hi) <==> Meets(s, x, rank, mid + 1, hi);
      }
    }
  }

  /** The header promises that an id already present is dropped.  Exactly: the
      list is full and the newcomer is past its end, or an entry of that id is no
      farther than the newcomer and the binary search happens to probe it.  The
      list may hold the id several times already. */
  lemma RepeatedIdDropped(s: seq<Neighbor>, capacity: nat, x: Neighbor, rank: nat)
    requires 1 <= capacity && |s| <= capacity && Sorted(s) && rank <= |s|
    requires forall j :: 0 <= j < rank ==> !Less(x, s[j])
    requires forall j :: rank <= j < |s| ==> Less(x, s[j])
    ensures Inserted(s, capacity, x) == s
       <==> (|s| == capacity && Less(s[capacity - 1], x))
            || exists i :: 0 <= i < rank && s[i].id == x.id && OnPath(0, |s|, rank, i)
  {
    ProbeMeets(s, x, rank, 0, |s|);
    if !(|s| == capacity && Less(s[capacity - 1], x)) && !Meets(s, x, rank, 0, |s|) {
      var t := Inserted(s, capacity, x);
      var y := x.(expanded := false);
      SpliceAt(s, capacity, y, rank, t);
      if rank < |s| {
        assert t[rank] == y && Less(x, s[rank]);
      } else if |s| == capacity {
        assert s[capacity - 1].id == x.id;
        LastOnPath(0, |s|);
      }
    }
  }

  /** The search for the slot past the end probes the last entry. */
  lemma {:induction false} LastOnPath(lo: nat, hi: nat)
    requires lo < hi
    ensures OnPath(lo, hi, hi, hi - 1)
    decreases hi - lo
  {
    var mid := (lo + hi) / 2;
    if mid != hi - 1 {
      LastOnPath(mid + 1, hi);
    }
  }

  /** With one distance per id the promise holds: the id is always dropped. */
  lemma SameDistanceDropped(s: seq<Neighbor>, capacity: nat, x: Neighbor)
    requires 1 <= capacity && |s| <= capacity && Sorted(s)
    requires exists i :: 0 <= i < |s| && s[i].id == x.id && s[i].distance == x.distance
    ensures Inserted(s, capacity, x) == s
  {
    ProbeSplits(s, x, 0, |s|);
  }

  /** An id that returns closer than before is listed twice. */
  lemma RepeatedIdListedTwice()
    ensures Inserted([Neighbor(7, 5.0, true)], 4, Neighbor(7, 3.0, false))
         == [Neighbor(7, 3.0, false), Neighbor(7, 5.0, true)]
  {
    var s, x := [Neighbor(7, 5.0, true)], Neighbor(7, 3.0, false);
    assert Probe(s, x, 0, 1) == Probe(s, x, 0, 0) == Some(0);
  }
}
