// include/neighbor.h: the L closest of a set of ids, and the lists that represent it.

module Closest {
  import opened Neighbors

  type Dist = nat -> real

  /** The Neighbor order on ids, for a fixed query. */
  predicate Before(d: Dist, u: nat, v: nat) {
    d(u) < d(v) || (d(u) == d(v) && u < v)
  }

  ghost function Closer(d: Dist, visited: set<nat>, v: nat): set<nat> {
    set u | u in visited && Before(d, u, v)
  }

  /** `v` is one of the `capacity` closest members of `visited`. */
  ghost predicate InTop(d: Dist, capacity: nat, visited: set<nat>, v: nat) {
    v in visited && |Closer(d, visited, v)| < capacity
  }

  /** The list holds a sorted prefix of `visited` under `d`, misses a member only
      when full and only if that member is farther than all it holds, and marks
      exactly the members of `expanded`. */
  ghost predicate Represents(s: seq<Neighbor>, capacity: nat, d: Dist, visited: set<nat>, expanded: set<nat>) {
    && 1 <= capacity && |s| <= capacity
    && Sorted(s)
    && expanded <= visited
    && (forall i :: 0 <= i < |s| ==> s[i].id in visited && s[i].distance == d(s[i].id))
    && (forall i :: 0 <= i < |s| ==> (s[i].expanded <==> s[i].id in expanded))
    && (forall v :: v in visited && v !in Ids(s) ==> |s| == capacity && Before(d, s[capacity - 1].id, v))
  }

  /** Ids of a sorted represented list are distinct, so its prefix of length k
      has exactly k ids. */
  lemma {:induction false} PrefixIds(s: seq<Neighbor>, d: Dist, k: nat)
    requires Sorted(s) && k <= |s|
    requires forall i :: 0 <= i < |s| ==> s[i].distance == d(s[i].id)
    ensures |Ids(s[..k])| == k
  {
    if k > 0 {
      PrefixIds(s, d, k - 1);
      assert s[..k] == s[..k - 1] + [s[k - 1]];
      IdsAppend(s[..k - 1], s[k - 1]);
      assert s[k - 1].id !in Ids(s[..k - 1]);
    }
  }

  lemma IdsAppend(s: seq<Neighbor>, x: Neighbor)
    ensures Ids(s + [x]) == Ids(s) + {x.id}
  {
    var t := s + [x];
    assert t[|s|] == x && forall i :: 0 <= i < |s| ==> t[i] == s[i];
  }

  /** A represented list is exactly the `capacity` closest of the visited set. */
  lemma RepresentsTop(s: seq<Neighbor>, capacity: nat, d: Dist, visited: set<nat>, expanded: set<nat>, v: nat)
    requires Represents(s, capacity, d, visited, expanded)
    ensures v in Ids(s) <==> InTop(d, capacity, visited, v)
  {
    if v in Ids(s) {
      var i :| 0 <= i < |s| && s[i].id == v;
      assert Closer(d, visited, v) <= Ids(s[..i]) by {
        forall u | u in Closer(d, visited, v) ensures u in Ids(s[..i]) {
          assert i == |s| - 1 || Less(s[i], s[|s| - 1]);
          assert u in Ids(s);
          var j :| 0 <= j < |s| && s[j].id == u;
          assert j < i;
          assert s[..i][j].id == u;
        }
      }
      PrefixIds(s, d, i);
      CardinalityMonotone(Closer(d, visited, v), Ids(s[..i]));
    } else if v in visited {
      assert s[..|s|] == s;
      PrefixIds(s, d, |s|);
      assert Ids(s) <= Closer(d, visited, v);
      CardinalityMonotone(Ids(s), Closer(d, visited, v));
    }
  }

  lemma {:induction false} CardinalityMonotone(a: set<nat>, b: set<nat>)
    requires a <= b
    ensures |a| <= |b|
  {
    assert b == a + (b - a);
  }

  /** The list is determined by what was visited and expanded. */
  lemma RepresentsUnique(s: seq<Neighbor>, t: seq<Neighbor>, capacity: nat, d: Dist, visited: set<nat>, expanded: set<nat>)
    requires Represents(s, capacity, d, visited, expanded) && Represents(t, capacity, d, visited, expanded)
    ensures s == t
  {
    LengthsAgree(s, t, capacity, d, visited, expanded);
    LengthsAgree(t, s, capacity, d, visited, expanded);
    forall i | 0 <= i < |s| ensures s[i] == t[i] {
      AgreeAt(s, t, capacity, d, visited, expanded, i);
    }
  }

  /** The length is that of the visited set, capped. */
  lemma LengthsAgree(s: seq<Neighbor>, t: seq<Neighbor>, capacity: nat, d: Dist, visited: set<nat>, expanded: set<nat>)
    requires Represents(s, capacity, d, visited, expanded) && Represents(t, capacity, d, visited, expanded)
    ensures |s| <= |t|
  {
    assert s[..|s|] == s && t[..|t|] == t;
    PrefixIds(s, d, |s|);
    PrefixIds(t, d, |t|);
    if |t| < capacity {
      assert Ids(t) == visited;
      CardinalityMonotone(Ids(s), Ids(t));
    }
  }

  lemma {:induction false} AgreeAt(s: seq<Neighbor>, t: seq<Neighbor>, capacity: nat, d: Dist,
                                   visited: set<nat>, expanded: set<nat>, i: nat)
    requires Represents(s, capacity, d, visited, expanded) && Represents(t, capacity, d, visited, expanded)
    requires i < |s| && i < |t|
    ensures s[i] == t[i]
  {
    forall m | 0 <= m < i ensures s[m] == t[m] {
      AgreeAt(s, t, capacity, d, visited, expanded, m);
    }
    NotSmaller(s, t, capacity, d, visited, expanded, i);
    NotSmaller(t, s, capacity, d, visited, expanded, i);
  }

  lemma NotSmaller(s: seq<Neighbor>, t: seq<Neighbor>, capacity: nat, d: Dist, visited: set<nat>, expanded: set<nat>, i: nat)
    requires Represents(s, capacity, d, visited, expanded) && Represents(t, capacity, d, visited, expanded)
    requires i < |s| && i < |t| && forall m :: 0 <= m < i ==> s[m] == t[m]
    ensures !Less(s[i], t[i])
  {
    var v := s[i].id;
    if v in Ids(t) {
      var j :| 0 <= j < |t| && t[j].id == v;
      assert i <= j;
    } else {
      assert i == capacity - 1 || Less(t[i], t[capacity - 1]);
    }
  }

  /** Inserting an id keeps the representation, also when the id was visited
      before: an entry that was dropped or expanded never comes back fresh. */
  lemma InsertRepresents(s: seq<Neighbor>, capacity: nat, d: Dist, visited: set<nat>, expanded: set<nat>, v: nat)
    requires Represents(s, capacity, d, visited, expanded)
    ensures Represents(Inserted(s, capacity, Neighbor(v, d(v), false)), capacity, d, visited + {v}, expanded)
  {
    var x := Neighbor(v, d(v), false);
    var t := Inserted(s, capacity, x);
    InsertedSorted(s, capacity, x);
    ProbeSplits(s, x, 0, |s|);
    if |s| == capacity && Less(s[capacity - 1], x) {
      KeepRepresents(s, capacity, d, visited, expanded, v);
    } else {
      match Probe(s, x, 0, |s|)
      case None => KeepRepresents(s, capacity, d, visited, expanded, v);
      case Some(k) =>
        SplitMisses(s, x, k);
        assert v !in visited;
        SplicedRepresents(s, capacity, d, visited, expanded, x, k, t);
    }
  }

  /** Nothing changes when the id is listed already or is past a full list. */
  lemma KeepRepresents(s: seq<Neighbor>, capacity: nat, d: Dist, visited: set<nat>, expanded: set<nat>, v: nat)
    requires Represents(s, capacity, d, visited, expanded)
    requires v in Ids(s) || (|s| == capacity && Before(d, s[capacity - 1].id, v))
    ensures Represents(s, capacity, d, visited + {v}, expanded)
  {
  }

  lemma SplitMisses(s: seq<Neighbor>, x: Neighbor, k: nat)
    requires k <= |s| && (forall i :: 0 <= i < k ==> Less(s[i], x)) && (forall i :: k <= i < |s| ==> Less(x, s[i]))
    requires forall i :: 0 <= i < |s| && s[i].id == x.id ==> s[i].distance == x.distance
    ensures x.id !in Ids(s)
  {
    forall i | 0 <= i < |s| ensures s[i].id != x.id {
      assert Less(s[i], x) || Less(x, s[i]);
    }
  }

  lemma SplicedRepresents(s: seq<Neighbor>, capacity: nat, d: Dist, visited: set<nat>, expanded: set<nat>,
                          x: Neighbor, k: nat, t: seq<Neighbor>)
    requires Represents(s, capacity, d, visited, expanded)
    requires x == Neighbor(x.id, d(x.id), false) && x.id !in visited && k <= |s|
    requires forall i :: 0 <= i < k ==> Less(s[i], x)
    requires k < |s| ==> Less(x, s[k])
    requires Sorted(t) && t == Spliced(s, capacity, x, k)
    ensures Represents(t, capacity, d, visited + {x.id}, expanded)
  {
    SpliceAt(s, capacity, x, k, t);
    forall v | v in visited + {x.id}
      ensures v in Ids(t) || (|t| == capacity && Before(d, t[capacity - 1].id, v))
    {
      SplicedMissing(s, capacity, d, visited, expanded, x, k, t, v);
    }
  }

  /** What the splice misses: the entry that fell off the end, or what was
      missing before. */
  lemma SplicedMissing(s: seq<Neighbor>, capacity: nat, d: Dist, visited: set<nat>, expanded: set<nat>,
                       x: Neighbor, k: nat, t: seq<Neighbor>, v: nat)
    requires Represents(s, capacity, d, visited, expanded)
    requires x == Neighbor(x.id, d(x.id), false) && x.id !in visited && k <= |s|
    requires forall i :: 0 <= i < k ==> Less(s[i], x)
    requires |t| == if |s| < capacity then |s| + 1 else capacity
    requires IsSplice(s, x, k, t)
    requires k < |s| ==> Less(x, s[k])
    requires v in visited + {x.id}
    ensures v in Ids(t) || (|t| == capacity && Before(d, t[capacity - 1].id, v))
  {
    if v in Ids(s) {
      var j :| 0 <= j < |s| && s[j].id == v;
      var p := if j < k then j else j + 1;
      if p < |t| {
        assert t[p] == s[j];
      }
    } else if v == x.id && k < |t| {
      assert t[k] == x;
    }
  }

  /** The queue's next node: the first unexpanded entry is the closest
      unexpanded member of the top, and there is none when all are expanded. */
  ghost predicate IsNext(d: Dist, capacity: nat, visited: set<nat>, expanded: set<nat>, n: nat) {
    && InTop(d, capacity, visited, n) && n !in expanded
    && forall m :: InTop(d, capacity, visited, m) && m !in expanded ==> n == m || Before(d, n, m)
  }

  lemma NextUnique(d: Dist, capacity: nat, visited: set<nat>, expanded: set<nat>, m: nat, n: nat)
    requires IsNext(d, capacity, visited, expanded, m) && IsNext(d, capacity, visited, expanded, n)
    ensures m == n
  {
  }

  lemma FirstUnexpandedIsNext(s: seq<Neighbor>, capacity: nat, d: Dist, visited: set<nat>, expanded: set<nat>)
    requires Represents(s, capacity, d, visited, expanded)
    ensures var k := FirstUnexpanded(s);
            if k < |s| then IsNext(d, capacity, visited, expanded, s[k].id)
            else forall v :: InTop(d, capacity, visited, v) ==> v in expanded
  {
    var k := FirstUnexpanded(s);
    forall m | InTop(d, capacity, visited, m) && m !in expanded
      ensures k < |s| && (s[k].id == m || Before(d, s[k].id, m))
    {
      RepresentsTop(s, capacity, d, visited, expanded, m);
      var j :| 0 <= j < |s| && s[j].id == m;
      assert k <= j;
    }
    if k < |s| {
      assert s[k].id in Ids(s);
      RepresentsTop(s, capacity, d, visited, expanded, s[k].id);
    }
  }

  lemma ExpandRepresents(s: seq<Neighbor>, capacity: nat, d: Dist, visited: set<nat>, expanded: set<nat>, k: nat)
    requires Represents(s, capacity, d, visited, expanded) && k < |s|
    ensures Represents(s[k := s[k].(expanded := true)], capacity, d, visited, expanded + {s[k].id})
  {
    var t := s[k := s[k].(expanded := true)];
    assert forall i :: 0 <= i < |s| ==> t[i].id == s[i].id && t[i].distance == s[i].distance;
    assert Ids(t) == Ids(s);
  }
}
