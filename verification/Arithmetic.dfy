// Products and quotients of natural numbers: what the offset computations need.

module Arithmetic {
  /** The product, as a term that invariants and quantifiers can name. */
  function Mul(x: nat, y: nat): nat {
    x * y
  }

  function Quot(x: nat, y: nat): nat
    requires y > 0
  {
    x / y
  }

  /** Row i of n rows of equal length lies inside them. */
  lemma {:induction false} MulFits(i: nat, n: nat, len: nat)
    requires i < n
    ensures i * len + len <= n * len
    ensures Mul(i, len) + len == Mul(i + 1, len) <= Mul(n, len)
  {
    if i + 1 < n {
      MulFits(i, n - 1, len);
    }
    assert n * len == (n - 1) * len + len;
  }

  lemma MulMonotone(x: nat, y: nat, size: nat)
    requires x <= y
    ensures x * size <= y * size && Mul(x, size) <= Mul(y, size)
  {
    if x < y {
      MulFits(x, y, size);
    }
  }

  /** Whole rows of length `per` in `x`. */
  lemma DivBelow(x: nat, per: nat)
    requires per > 0
    ensures Mul(x / per, per) <= x < Mul(x / per, per) + per
  {
  }

  lemma DivModUnique(id: nat, q: nat, r: nat, per: nat)
    requires per > 0 && r < per && id == q * per + r
    ensures id / per == q && id % per == r
  {
    var q', r' := id / per, id % per;
    assert q' * per + r' == q * per + r;
    if q' < q { MulFits(q', q, per); }
    if q < q' { MulFits(q, q', per); }
  }

  lemma DivMonotone(a: nat, b: nat, per: nat)
    requires per > 0 && a <= b
    ensures a / per <= b / per
  {
    if a / per > b / per {
      assert a >= a / per * per && b < b / per * per + per;
      MulFits(b / per, a / per, per);
    }
  }
}
