// include/neighbor.h, NeighborPriorityQueue: a bounded sorted list in place on its
// array, with a cursor on its first unexpanded entry.

module NeighborPriorityQueues {
  import opened Neighbors
  import opened Wrappers

  class NeighborPriorityQueue {
    var size: nat
    var capacity: nat
    var cur: nat
    var data: array<Neighbor>

    /** capacity + 1 slots, sorted content, cursor on the first unexpanded entry. */
    ghost predicate Valid()
      reads this, data
    {
      && size <= capacity && data.Length >= capacity + 1
      && Sorted(data[..size])
      && cur == FirstUnexpanded(data[..size])
    }

    ghost function Contents(): seq<Neighbor>
      requires size <= data.Length
      reads this, data
    {
      data[..size]
    }

    constructor (capacity: nat)
      ensures Valid() && fresh(data) && this.capacity == capacity && Contents() == []
    {
      this.capacity := capacity;
      size, cur := 0, 0;
      data := new Neighbor[capacity + 1](_ => Neighbor(0, 0.0, false));
    }

    method Clear()
      requires Valid()
      modifies this
      ensures Valid() && Contents() == [] && capacity == old(capacity) && data == old(data)
    {
      size, cur := 0, 0;
    }

    /** `insert`: binary search, one overlapping shift by one slot, cursor pulled
        back when the entry lands before it. */
    method Insert(x: Neighbor)
      requires Valid() && 1 <= capacity
      modifies this, data
      ensures Valid() && capacity == old(capacity) && data == old(data)
      ensures Contents() == Inserted(old(Contents()), capacity, x)
    {
      if size == capacity && Less(data[size - 1], x) {
        return;
      }
      var slot := FindSlot(x);
      if slot.Some? {
        InsertedIs(Contents(), capacity, x, slot.value);
        PlaceAt(slot.value, x);
      }
    }

    /** The tail of `insert` at the right slot. */
    method PlaceAt(k: nat, x: Neighbor)
      requires Valid() && k <= size && k < capacity
      requires var t := Spliced(Contents(), capacity, x, k); Sorted(t) && FirstUnexpanded(t) == if k < cur then k else cur
      modifies this, data
      ensures Valid() && capacity == old(capacity) && data == old(data)
      ensures Contents() == Spliced(old(Contents()), capacity, x, k)
    {
      ghost var t := Spliced(Contents(), capacity, x, k);
      SpliceInto(k, x);
      assert data[..size] == t;
    }

    /** The binary search of `insert`; None once it meets the id. */
    method FindSlot(x: Neighbor) returns (slot: Option<nat>)
      requires size <= data.Length
      ensures slot == Probe(Contents(), x, 0, size)
      ensures slot.Some? ==> slot.value <= size
    {
      ghost var s := data[..size];
      var lo, hi := 0, size;
      while lo < hi
        invariant lo <= hi <= size
        invariant Probe(s, x, 0, |s|) == Probe(s, x, lo, hi)
      {
        var mid := (lo + hi) / 2;
        if Less(x, data[mid]) {
          hi := mid;
        } else if data[mid].id == x.id {
          return None;
        } else {
          lo := mid + 1;
        }
      }
      return Some(lo);
    }

    /** The tail of `insert`, once the slot is known. */
    method SpliceInto(lo: nat, x: Neighbor)
      requires size <= capacity < data.Length && lo <= size && lo < capacity
      modifies this, data
      ensures capacity == old(capacity) && data == old(data)
      ensures size == (if old(size) < capacity then old(size) + 1 else capacity)
      ensures Contents() == Spliced(old(Contents()), capacity, x, lo)
      ensures cur == if lo < old(cur) then lo else old(cur)
    {
      ghost var s := data[..size];
      if lo < capacity {
        ShiftUp(lo);
      }
      data[lo] := Neighbor(x.id, x.distance, false);
      assert data[..lo] == s[..lo] && data[lo + 1..size + 1] == s[lo..];
      if size < capacity {
        size := size + 1;
      }
      if lo < cur {
        cur := lo;
      }
      assert data[..|s| + 1] == s[..lo] + [Neighbor(x.id, x.distance, false)] + s[lo..];
    }

    /** The memmove of `insert`: it reaches slot `capacity`, the spare one. */
    method ShiftUp(lo: nat)
      requires lo <= size < data.Length
      modifies data
      ensures data[..lo] == old(data[..lo]) && data[lo + 1..size + 1] == old(data[lo..size])
    {
      forall i | lo <= i < size {
        data[i + 1] := data[i];
      }
    }

    /** `closest_unexpanded`: marks the cursor's entry and moves the cursor on. */
    method ClosestUnexpanded() returns (nbr: Neighbor)
      requires Valid() && cur < size
      modifies this, data
      ensures Valid() && capacity == old(capacity) && data == old(data)
      ensures var k := FirstUnexpanded(old(Contents()));
              && nbr == old(Contents())[k].(expanded := true)
              && Contents() == old(Contents())[k := nbr]
    {
      ghost var s := data[..size];
      data[cur] := data[cur].(expanded := true);
      var pre := cur;
      ghost var marked := data[..size];
      assert marked == s[pre := s[pre].(expanded := true)];
      while cur < size && data[cur].expanded
        modifies `cur
        invariant pre <= cur <= size && data[..size] == marked
        invariant forall i :: 0 <= i < cur ==> marked[i].expanded
      {
        assert marked[cur] == data[cur];
        cur := cur + 1;
      }
      FirstUnexpandedUnique(marked, cur);
      nbr := data[pre];
      assert nbr == marked[pre];
    }

    /** `has_unexpanded_node` tells whether some entry is unexpanded. */
    predicate HasUnexpandedNode()
      requires Valid()
      reads this, data
      ensures HasUnexpandedNode() <==> exists i :: 0 <= i < size && !data[i].expanded
    {
      cur < size
    }

    /** `reserve`: a larger array when needed, then the new capacity. */
    method Reserve(newCapacity: nat)
      requires Valid()
      modifies this
      ensures capacity == newCapacity && size == old(size) <= data.Length && Contents() == old(Contents())
      ensures Valid() <==> old(size) <= newCapacity
      ensures data == old(data) || fresh(data)
    {
      if newCapacity + 1 > data.Length {
        var grown := new Neighbor[newCapacity + 1](_ => Neighbor(0, 0.0, false));
        forall i | 0 <= i < data.Length {
          grown[i] := data[i];
        }
        ghost var s := data[..size];
        data := grown;
        assert data[..size] == s;
      }
      capacity := newCapacity;
      assert data[..size] == old(data[..size]);
    }
  }

  /** The specified insertion is a splice at the slot the probe found. */
  lemma InsertedIs(s: seq<Neighbor>, capacity: nat, x: Neighbor, k: nat)
    requires 1 <= capacity && |s| <= capacity && k <= |s| && Sorted(s) && Probe(s, x, 0, |s|) == Some(k)
    requires !(|s| == capacity && Less(s[capacity - 1], x))
    ensures k < capacity && Inserted(s, capacity, x) == Spliced(s, capacity, x, k)
    ensures var t := Spliced(s, capacity, x, k);
            Sorted(t) && FirstUnexpanded(t) == if k < FirstUnexpanded(s) then k else FirstUnexpanded(s)
  {
    InsertedSorted(s, capacity, x);
    InsertedCursor(s, capacity, x, k);
  }

  lemma {:induction false} FirstUnexpandedUnique(s: seq<Neighbor>, k: nat)
    requires k <= |s|
    requires forall i :: 0 <= i < k ==> s[i].expanded
    requires k < |s| ==> !s[k].expanded
    ensures k == FirstUnexpanded(s)
  {
  }

  /** Where the cursor stands after a splice at slot k. */
  lemma InsertedCursor(s: seq<Neighbor>, capacity: nat, x: Neighbor, k: nat)
    requires Sorted(s) && 1 <= capacity && |s| <= capacity && k <= |s|
    requires !(|s| == capacity && Less(s[capacity - 1], x))
    requires Probe(s, x, 0, |s|) == Some(k)
    ensures k < capacity
    ensures FirstUnexpanded(Inserted(s, capacity, x)) == if k < FirstUnexpanded(s) then k else FirstUnexpanded(s)
  {
    ProbeSplits(s, x, 0, |s|);
    var t := Inserted(s, capacity, x);
    var c := if k < FirstUnexpanded(s) then k else FirstUnexpanded(s);
    assert c < k ==> t[c] == s[c];
    FirstUnexpandedUnique(t, c);
  }
}
