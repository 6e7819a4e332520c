/** Facts about products and quotients that the solver does not find by itself. */
module Arithmetic {

  function Min(a: int, b: int): int {
    if a < b then a else b
  }

  function Max(a: int, b: int): int {
    if a < b then b else a
  }

  lemma MulAtLeast(a: nat, d: nat)
    requires a >= 1
    ensures a * d >= d
  {
    assert a * d == (a - 1) * d + d;
  }

  /** Quotient and remainder are unique. */
  lemma QuotientIs(n: nat, d: nat, q: nat, m: nat)
    requires d > 0 && n == q * d + m && m < d
    ensures n / d == q && n % d == m
  {
    var q', m' := n / d, n % d;
    assert n == q' * d + m';
    assert q * d - q' * d == (q - q') * d;
    if q > q' { MulAtLeast(q - q', d); } else if q < q' { MulAtLeast(q' - q, d); }
  }
}
