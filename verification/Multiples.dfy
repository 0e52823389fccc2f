/** Whole multiples of a real, kept apart from multiplication so that sums of them stay linear. */
module Multiples {
  /** `n` copies of `x` added up. */
  function Times(n: nat, x: real): real {
    if n == 0 then 0.0 else x + Times(n - 1, x)
  }

  lemma {:induction false} TimesIsProduct(n: nat, x: real)
    ensures Times(n, x) == n as real * x
  {
    if n > 0 {
      TimesIsProduct(n - 1, x);
      var k := (n - 1) as real;
      assert n as real == k + 1.0;
      assert (k + 1.0) * x == k * x + x;
    }
  }

  lemma TimesIsShare(n: nat, x: real)
    ensures Times(n, x) == x * n as real
  {
    TimesIsProduct(n, x);
  }

  lemma {:induction false} TimesAdds(m: nat, n: nat, x: real, y: real)
    ensures Times(m + n, x) == Times(m, x) + Times(n, x)
    ensures Times(n, x + y) == Times(n, x) + Times(n, y)
  {
    if n > 0 {
      TimesAdds(m, n - 1, x, y);
    }
  }

  lemma {:induction false} TimesRises(n: nat, x: real, y: real)
    requires x <= y
    ensures Times(n, x) <= Times(n, y)
  {
    if n > 0 {
      TimesRises(n - 1, x, y);
    }
  }

  /** A positive share of `n` of at most one lies between zero and `n`. */
  lemma {:induction false} TimesOfShare(n: nat, x: real)
    requires n > 0 && 0.0 < x <= 1.0
    ensures 0.0 < Times(n, x) <= n as real
  {
    if n > 1 {
      TimesOfShare(n - 1, x);
    } else {
      assert Times(0, x) == 0.0;
    }
  }
}
