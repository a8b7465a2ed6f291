// src/natural_number_set.cpp: the vector-plus-bitset set that keeps the free slots.

module NaturalNumberSets {
  import opened Wrappers
  import opened Graphs

  class NaturalNumberSet {
    var values: seq<nat>
    var bits: seq<bool>

    /** The vector lists exactly the set bits, each once. */
    ghost predicate Valid()
      reads this
    {
      && Distinct(values)
      && (forall i :: 0 <= i < |values| ==> values[i] < |bits| && bits[values[i]])
      && (forall v :: 0 <= v < |bits| && bits[v] ==> v in values)
    }

    constructor ()
      ensures Valid() && values == [] && bits == []
    {
      values, bits := [], [];
    }

    /** `insert` appends blindly; a repeated id is what breaks the set. */
    method Insert(id: nat)
      requires Valid()
      modifies this
      ensures values == old(values) + [id]
      ensures |bits| == if id < old(|bits|) then old(|bits|) else id + 1
      ensures Valid() <==> id !in old(values)
    {
      values := values + [id];
      if id >= |bits| {
        bits := bits + seq(id + 1 - |bits|, _ => false);
      }
      bits := bits[id := true];
      assert values[|values| - 1] == id;
      assert forall i :: 0 <= i < old(|values|) ==> values[i] == old(values)[i];
      assert forall v :: v in old(values) ==> v in values;
    }

    /** `pop_any` takes the most recently inserted id; None is its exception. */
    method PopAny() returns (r: Option<nat>)
      requires Valid()
      modifies this
      ensures Valid() && |bits| == old(|bits|)
      ensures r.None? <==> old(values) == []
      ensures old(values) == if r.Some? then values + [r.value] else values
    {
      if values == [] {
        return None;
      }
      var id := values[|values| - 1];
      values := values[..|values| - 1];
      bits := bits[id := false];
      assert old(values) == values + [id];
      r := Some(id);
    }

    method Clear()
      modifies this
      ensures Valid() && values == [] && bits == []
    {
      values, bits := [], [];
    }

    /** `is_in_set` tests a bit.  The bitset only reaches up to the largest id
        inserted since the last clear; None is a test behind its end, which the
        source does not guard. */
    function IsInSet(id: nat): (r: Option<bool>)
      requires Valid()
      reads this
      ensures r.None? <==> id >= |bits|
      ensures r.Some? ==> (r.value <==> id in values)
    {
      if id < |bits| then Some(bits[id]) else None
    }
  }
}
