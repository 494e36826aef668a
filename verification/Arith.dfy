/** Quotients and remainders. */
module Arith {
  lemma MulStep(q: nat, q': nat, d: nat)
    requires q' < q
    ensures q * d >= q' * d + d
  {
    var k: nat := q - q' - 1;
    assert q * d == (q' + 1 + k) * d == q' * d + d + k * d;
  }

  lemma MulPred(q: nat, d: nat)
    requires q > 0
    ensures q * d == (q - 1) * d + d
  {
  }

  lemma MulMono(q: nat, q': nat, d: nat)
    requires q' <= q
    ensures q' * d <= q * d
  {
    if q' < q { MulStep(q, q', d); }
  }

  /** A quotient and remainder are the ones that fit. */
  lemma DivMod(n: nat, d: nat, q: nat, r: nat)
    requires d > 0 && r < d && n == q * d + r
    ensures n / d == q && n % d == r
  {
    var q', r' := n / d, n % d;
    assert n == q' * d + r';
    if q > q' { MulStep(q, q', d); } else if q < q' { MulStep(q', q, d); }
  }

  lemma DivModExists(n: nat, d: nat)
    requires d > 0
    ensures n == n / d * d + n % d && n % d < d
  {
  }
}
