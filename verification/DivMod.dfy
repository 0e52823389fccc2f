/** Division facts for a divisor that is a variable, stated without division wherever possible. */
module DivMod {
  lemma Split(a: nat, b: nat)
    requires b > 0
    ensures a == b * (a / b) + a % b
    ensures 0 <= a % b < b
    ensures a / b >= 0
  {
  }

  lemma Monotone(b: nat, x: int, y: int)
    requires x <= y
    ensures b * x <= b * y
  {
  }

  /** Quotient and remainder are determined by the equation and the remainder's range. */
  lemma Unique(a: nat, b: nat, q: nat, r: nat)
    requires b > 0 && r < b
    requires a == b * q + r
    ensures a / b == q && a % b == r
  {
    Split(a, b);
    var p := a / b;
    assert b * (p + 1) == b * p + b && b * (q + 1) == b * q + b;
    if p < q {
      Monotone(b, p + 1, q);
    } else if q < p {
      Monotone(b, q + 1, p);
    }
  }

  /** Adding whole multiples of the modulus changes nothing. */
  lemma AddMultiple(a: nat, b: nat, k: nat)
    requires b > 0
    ensures (a + b * k) % b == a % b
    ensures (a + b * k) / b == a / b + k
  {
    Split(a, b);
    assert a + b * k == b * (a / b + k) + a % b;
    Unique(a + b * k, b, a / b + k, a % b);
  }
}
