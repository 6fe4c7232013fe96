/** Facts about natural-number division and multiplication used by the offset and rounding proofs. */
module Arith {

  /** Integer division rounds down: n / d is the q with q * d <= n < (q + 1) * d. */
  lemma DivBounds(n: nat, d: nat)
    requires d > 0
    ensures (n / d) * d <= n < (n / d + 1) * d
  {
    var q, r := n / d, n % d;
    assert n == q * d + r && r < d;
    assert (q + 1) * d == q * d + d;
  }

  lemma MulMono(a: nat, b: nat, c: nat)
    requires b <= c
    ensures a * b <= a * c
  {
  }

  /** A strict product bound with a common factor gives a strict bound on the other factors. */
  lemma MulCancelLess(a: nat, b: nat, d: nat)
    requires a * d < b * d
    ensures a < b
  {
    if a >= b {
      MulMono(d, b, a);
    }
  }

  /** Multiplying a strict bound by a positive factor keeps it strict. */
  lemma MulStrictLess(a: nat, b: nat, c: nat)
    requires a < b && c > 0
    ensures a * c < b * c
  {
    MulMono(c, a + 1, b);
    assert c * (a + 1) == a * c + c;
  }
}
