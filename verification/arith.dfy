/** Facts about multiplication, division and remainder by a column count
    that the solver does not find on its own. */
module Arith {

  /** Quotient and remainder are determined by any decomposition
      `x == r * c + q` with `0 <= q < c`. */
  lemma DivModUnique(x: nat, c: nat, r: nat, q: nat)
    requires 0 < c && q < c
    requires x == r * c + q
    ensures x / c == r && x % c == q
  {
    var d, m := x / c, x % c;
    Decompose(x, c);
    if d > r {
      assert (r + 1) * c == r * c + c;
      MulMonotone(r + 1, d, c);
    } else if d < r {
      assert (d + 1) * c == d * c + c;
      MulMonotone(d + 1, r, c);
    }
  }

  /** Every `x` decomposes into its row and column. */
  lemma Decompose(x: nat, c: nat)
    requires 0 < c
    ensures x == (x / c) * c + x % c && 0 <= x % c < c
  {
  }

  /** Multiplying by a positive factor preserves strict order. */
  lemma MulStrictCancel(a: nat, b: nat, c: nat)
    requires 0 < c && a * c < b * c
    ensures a < b
  {
    if a >= b {
      MulMonotone(b, a, c);
    }
  }

  /** Multiplying by a factor preserves order. */
  lemma {:induction false} MulMonotone(a: nat, b: nat, c: nat)
    requires a <= b
    ensures a * c <= b * c
    decreases b - a
  {
    if a < b {
      MulMonotone(a + 1, b, c);
      assert (a + 1) * c == a * c + c;
    }
  }
}
