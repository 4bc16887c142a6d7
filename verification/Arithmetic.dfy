/** Division on natural numbers. */
module Arithmetic {

  /** Quotient and remainder are unique. */
  lemma QuotientUnique(p: nat, b: nat, q: nat, r: nat)
    requires b > 0 && r < b && p == r + q * b
    ensures p / b == q && p % b == r
  {
    var e := p / b - q;
    assert e * b == r - p % b;
    assert e >= 1 ==> e * b >= b;
    assert e <= -1 ==> e * b + b <= 0;
  }
}
