/** Facts about multiplication, division and remainder that the other modules share. */
module Arithmetic {

  lemma MulAtLeast(q: nat, k: int)
    requires k >= 1
    ensures q * k >= q
  {
    assert q * k == q + q * (k - 1);
    MulNonNegative(q, k - 1);
  }

  lemma MulNonNegative(a: nat, b: nat)
    ensures a * b >= 0
  {
  }

  lemma MulDistributes(q: int, a: int, b: int)
    ensures q * (a - b) == q * a - q * b
  {
  }

  lemma MulMonotone(q: nat, a: int, b: int)
    requires a <= b
    ensures q * a <= q * b
  {
    MulNonNegative(q, b - a);
    MulDistributes(q, b, a);
  }

  /** Quotient and remainder are determined by `i == q * d + r` with `0 <= r < q`. */
  lemma DivModUnique(i: int, q: nat, d: int, r: nat)
    requires i == q * d + r && r < q
    ensures i / q == d && i % q == r
  {
    var d', r' := i / q, i % q;
    assert q * d' + r' == q * d + r;
    MulDistributes(q, d, d');
    MulDistributes(q, d', d);
    if d' < d {
      MulAtLeast(q, d - d');
    } else if d < d' {
      MulAtLeast(q, d' - d);
    }
  }
}
