// construction/our_construction.cpp: the cross-pair mask.

module PairMask {
  import opened Arithmetic
  import opened Wrappers

  type Pair = (nat, nat)

  /** `selected` is a P x P byte matrix, row-major. */
  datatype Mask = Mask(enabled: bool, selectedPairs: nat, selected: seq<bool>)

  function Cell(i: nat, j: nat, p: nat): nat {
    i * p + j
  }

  lemma CellUnique(i: nat, j: nat, x: nat, y: nat, p: nat)
    requires j < p && y < p && Cell(i, j, p) == Cell(x, y, p)
    ensures i == x && j == y
  {
    if i < x {
      MulFits(i, x, p);
    } else if x < i {
      MulFits(x, i, p);
    }
  }

  ghost function SelectedSet(mask: Mask, p: nat): set<Pair> {
    set i, j | 0 <= i < j < p && CrossPairSelected(mask, p, i, j) :: (i, j)
  }

  ghost predicate MaskOk(mask: Mask, p: nat) {
    mask.enabled ==> |mask.selected| == p * p && mask.selectedPairs == |SelectedSet(mask, p)|
  }

  /** cross_pair_selected */
  function CrossPairSelected(mask: Mask, p: nat, i: nat, j: nat): bool {
    if !mask.enabled then true
    else if i == j then false
    else
      var c := if i > j then Cell(j, i, p) else Cell(i, j, p);
      c < |mask.selected| && mask.selected[c]
  }

  /** Both orders of a pair are one pair. */
  lemma SelectionSymmetric(mask: Mask, p: nat, i: nat, j: nat)
    ensures CrossPairSelected(mask, p, i, j) == CrossPairSelected(mask, p, j, i)
  {
  }

  ghost predicate Allowed(lines: seq<Pair>, p: nat) {
    forall k :: 0 <= k < |lines| ==> lines[k].0 < p && lines[k].1 < p && lines[k].0 != lines[k].1
  }

  /** load_cross_pair_mask on the parsed lines of the file: it dies on the first
      pair that is out of range or not a pair, and otherwise selects exactly the
      listed pairs, repeats and both orders counted once. */
  method LoadMask(p: nat, lines: seq<Pair>) returns (r: Option<Mask>)
    ensures r.None? <==> !Allowed(lines, p)
    ensures r.Some? ==> r.value.enabled && MaskOk(r.value, p)
    ensures r.Some? ==> forall i, j :: 0 <= i < j < p ==>
              (CrossPairSelected(r.value, p, i, j) <==> (i, j) in lines || (j, i) in lines)
  {
    var mask := Mask(true, 0, seq(p * p, _ => false));
    NothingSelected(mask, p);
    for k := 0 to |lines|
      invariant mask.enabled && MaskOk(mask, p) && Allowed(lines[..k], p)
      invariant Lists(mask, p, lines[..k])
    {
      var (x, y) := lines[k];
      assert lines[..k + 1] == lines[..k] + [lines[k]];
      if x >= p || y >= p || x == y {
        return None;
      }
      mask := SelectPair(mask, p, lines[..k], x, y);
    }
    assert lines[..|lines|] == lines;
    return Some(mask);
  }

  ghost predicate Lists(mask: Mask, p: nat, lines: seq<Pair>) {
    forall i, j :: 0 <= i < j < p ==> (CrossPairSelected(mask, p, i, j) <==> (i, j) in lines || (j, i) in lines)
  }

  lemma NothingSelected(mask: Mask, p: nat)
    requires mask == Mask(true, 0, seq(p * p, _ => false))
    ensures MaskOk(mask, p) && Lists(mask, p, [])
  {
    assert SelectedSet(mask, p) == {};
  }

  /** One accepted line. */
  method SelectPair(mask: Mask, p: nat, ghost lines: seq<Pair>, x: nat, y: nat) returns (mask': Mask)
    requires mask.enabled && MaskOk(mask, p) && x < p && y < p && x != y && Lists(mask, p, lines)
    ensures mask'.enabled && MaskOk(mask', p) && Lists(mask', p, lines + [(x, y)])
  {
    var i, j := if x < y then x else y, if x < y then y else x;
    MulFits(i, p, p);
    var c := Cell(i, j, p);
    mask' := mask;
    if !mask.selected[c] {
      mask' := Mask(true, mask.selectedPairs + 1, mask.selected[c := true]);
    }
    OneMore(mask, mask'.selected, p, i, j);
    assert mask'.selected == mask.selected[c := true];
  }

  lemma OneMore(mask: Mask, selected: seq<bool>, p: nat, i: nat, j: nat)
    requires mask.enabled && |mask.selected| == p * p && i < j < p
    requires Cell(i, j, p) < |mask.selected| && selected == mask.selected[Cell(i, j, p) := true]
    ensures forall a, b :: 0 <= a < b < p ==>
              CrossPairSelected(Mask(true, 0, selected), p, a, b) == (CrossPairSelected(mask, p, a, b) || (a == i && b == j))
    ensures forall n :: SelectedSet(Mask(true, n, selected), p) == SelectedSet(mask, p) + {(i, j)}
    ensures forall n: nat, a: nat, b: nat :: CrossPairSelected(Mask(true, n, selected), p, a, b) == CrossPairSelected(Mask(true, 0, selected), p, a, b)
  {
    forall a, b | 0 <= a < b < p
      ensures CrossPairSelected(Mask(true, 0, selected), p, a, b) == (CrossPairSelected(mask, p, a, b) || (a == i && b == j))
    {
      if Cell(a, b, p) == Cell(i, j, p) {
        CellUnique(a, b, i, j, p);
      }
    }
  }

  /** unordered_pair_count */
  function UnorderedPairCount(p: nat): nat {
    if p < 2 then 0 else p * (p - 1) / 2
  }

  ghost function AllPairs(p: nat): set<Pair> {
    set i, j | 0 <= i < j < p :: (i, j)
  }

  lemma {:induction false} PairCount(p: nat)
    ensures |AllPairs(p)| == UnorderedPairCount(p)
  {
    if p == 0 {
      assert AllPairs(0) == {};
    } else {
      PairCount(p - 1);
      var column := Column(p - 1, p - 1);
      ColumnCount(p - 1, p - 1);
      assert AllPairs(p) == AllPairs(p - 1) + column && AllPairs(p - 1) !! column;
      assert p * (p - 1) == (p - 1) * (p - 2) + 2 * (p - 1);
    }
  }

  /** The pairs (i, j) with i < n. */
  ghost function Column(j: nat, n: nat): set<Pair> {
    set i | 0 <= i < n :: (i, j)
  }

  lemma {:induction false} ColumnCount(j: nat, n: nat)
    ensures |Column(j, n)| == n
  {
    if n > 0 {
      ColumnCount(j, n - 1);
      assert Column(j, n) == Column(j, n - 1) + {(n - 1, j)} && (n - 1, j) !in Column(j, n - 1);
    } else {
      assert Column(j, 0) == {};
    }
  }

  /** How many pairs the run will report as selected. */
  lemma SelectedCount(mask: Mask, p: nat)
    requires MaskOk(mask, p)
    ensures |SelectedSet(mask, p)| == if mask.enabled then mask.selectedPairs else UnorderedPairCount(p)
  {
    if !mask.enabled {
      assert SelectedSet(mask, p) == AllPairs(p);
      PairCount(p);
    }
  }
}
