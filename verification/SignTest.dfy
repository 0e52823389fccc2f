/** The exact two-sided sign test, checked against an enumeration of every way the signs can fall. */
module SignTest {
  import opened Prelude
  import Reals

  function CountPositive(d: seq<real>): nat {
    if d == [] then 0 else (if d[0] > 0.0 then 1 else 0) + CountPositive(d[1..])
  }

  function CountNegative(d: seq<real>): nat {
    if d == [] then 0 else (if d[0] < 0.0 then 1 else 0) + CountNegative(d[1..])
  }

  /** `n` choose `k` by Pascal's rule. */
  function Choose(n: nat, k: nat): nat {
    if k == 0 then 1 else if n == 0 then 0 else Choose(n - 1, k - 1) + Choose(n - 1, k)
  }

  /** The upper tail of row `n` of Pascal's triangle, from entry `k` on. */
  function Tail(n: nat, k: nat): nat
    decreases n + 1 - k
  {
    if k > n then 0 else Choose(n, k) + Tail(n, k + 1)
  }

  // ---- the binomial coefficient as a running product of ratios ----------------------------------------

  lemma {:induction false} ChooseBeyond(n: nat, k: nat)
    requires k > n
    ensures Choose(n, k) == 0
  {
    if n > 0 {
      ChooseBeyond(n - 1, k - 1);
      ChooseBeyond(n - 1, k);
    }
  }

  lemma PascalAlgebra(n: int, k: int, a: int, b: int, c: int)
    requires (k + 1) * c == (n - 1 - k) * b && k * b == (n - k) * a
    ensures (k + 1) * (b + c) == (n - k) * (a + b)
  {
    assert (k + 1) * (b + c) == k * b + b + (k + 1) * c;
    assert (n - k) * (a + b) == (n - k) * a + (n - 1 - k) * b + b;
  }

  /** Each entry of a row follows from the one before it. */
  lemma {:induction false} ChooseStep(n: nat, k: nat)
    requires k <= n
    ensures (k + 1) * Choose(n, k + 1) == (n - k) * Choose(n, k)
  {
    if k == n {
      ChooseBeyond(n, n + 1);
    } else if k == 0 {
      ChooseStep(n - 1, 0);
    } else {
      ChooseStep(n - 1, k);
      ChooseStep(n - 1, k - 1);
      PascalAlgebra(n, k, Choose(n - 1, k - 1), Choose(n - 1, k), Choose(n - 1, k + 1));
    }
  }

  lemma ScaledQuotient(acc: real, b: real, c: real, x: real)
    requires c > 0.0 && c * x == b * acc
    ensures acc * (b / c) == x
  {
    var q := b / c;
    assert q * c == b;
    assert (acc * q) * c == acc * b;
    assert (acc * q - x) * c == 0.0;
  }

  lemma {:induction false} IntProduct(a: nat, b: nat)
    ensures a as real * b as real == (a * b) as real
  {
    if a > 0 {
      IntProduct(a - 1, b);
      var x, y := (a - 1) as real, b as real;
      assert a as real == x + 1.0;
      assert (x + 1.0) * y == x * y + y;
      assert a * b == (a - 1) * b + b;
    }
  }

  lemma RatioAlgebra(a: nat, b: nat, c: nat, x: nat)
    requires c > 0 && c * x == b * a
    ensures a as real * (b as real / c as real) == x as real
  {
    IntProduct(c, x);
    IntProduct(b, a);
    ScaledQuotient(a as real, b as real, c as real, x as real);
  }

  lemma RatioStep(n: nat, i: nat)
    requires i < n
    ensures Choose(n, i) as real * ((n - i) as real / (i + 1) as real) == Choose(n, i + 1) as real
  {
    ChooseStep(n, i);
    RatioAlgebra(Choose(n, i), n - i, i + 1, Choose(n, i + 1));
  }

  /** The exponential of the source's running sum of logarithms: the same product of ratios. */
  method Binomial(n: nat, k: nat) returns (acc: real)
    requires k <= n
    ensures acc == Choose(n, k) as real
  {
    acc := 1.0;
    for i := 0 to k
      invariant acc == Choose(n, i) as real
    {
      RatioStep(n, i);
      acc := acc * ((n - i) as real / (i + 1) as real);
    }
  }

  // ---- the test ------------------------------------------------------------------------------------------

  /** Twice the tail beyond the larger count, as a share of all 2^n outcomes, capped at one. */
  function TwoSided(n: nat, k: nat): real {
    var p := 2.0 * Share(Tail(n, k), n);
    if p < 1.0 then p else 1.0
  }

  function Verdict(d: seq<real>): (nat, nat, real) {
    var pos, neg := CountPositive(d), CountNegative(d);
    if pos + neg == 0 then (0, 0, 1.0)
    else (pos, neg, TwoSided(pos + neg, Max(pos, neg)))
  }

  /** A count of outcomes as a share of all `2^n`. */
  function Share(count: nat, n: nat): real {
    count as real / Pow2(n) as real
  }

  /** The source multiplies by a half to the power `n` instead of dividing. */
  function Halved(c: real, n: nat): real {
    c * (1.0 / Pow2(n) as real)
  }

  lemma HalvedIsShare(a: nat, c: nat, n: nat)
    ensures Share(a, n) + Halved(c as real, n) == Share(a + c, n)
  {
    var w := Pow2(n) as real;
    var h := 1.0 / w;
    assert Share(a, n) == a as real * h by { ScaledQuotient(a as real, 1.0, w, Share(a, n)); }
    assert Share(a + c, n) == (a + c) as real * h by { ScaledQuotient((a + c) as real, 1.0, w, Share(a + c, n)); }
  }

  /** The loop over the tail. */
  method TailMass(n: nat, k: nat) returns (tail: real)
    requires k <= n
    ensures tail == Share(Tail(n, k), n)
  {
    tail := 0.0;
    ghost var done: nat := 0;
    for i := k to n + 1
      invariant done + Tail(n, i) == Tail(n, k)
      invariant tail == Share(done, n)
    {
      var c := Binomial(n, i);
      HalvedIsShare(done, Choose(n, i), n);
      tail := tail + Halved(c, n);
      done := done + Choose(n, i);
    }
  }

  method Test(d: seq<real>) returns (pos: nat, neg: nat, p: real)
    ensures (pos, neg, p) == Verdict(d)
  {
    pos, neg := CountPositive(d), CountNegative(d);
    var n := pos + neg;
    if n == 0 {
      return 0, 0, 1.0;
    }
    var k := Max(pos, neg);
    var tail := TailMass(n, k);
    p := if 2.0 * tail < 1.0 then 2.0 * tail else 1.0;
  }

  // ---- every way the signs can fall ---------------------------------------------------------------------

  /** Of the 2^n ways `n` more signs can fall, how many leave some count at `k` or more. */
  function ExtremeOutcomes(n: nat, pos: nat, neg: nat, k: nat): nat {
    if n == 0 then (if pos >= k || neg >= k then 1 else 0)
    else ExtremeOutcomes(n - 1, pos + 1, neg, k) + ExtremeOutcomes(n - 1, pos, neg + 1, k)
  }

  /** Ways in which at least `j` of `n` signs are positive. */
  function AtLeast(n: nat, j: int): nat {
    if n == 0 then (if j <= 0 then 1 else 0) else AtLeast(n - 1, j - 1) + AtLeast(n - 1, j)
  }

  lemma {:induction false} PascalTail(n: nat, k: nat)
    requires n > 0 && k > 0
    ensures Tail(n, k) == Tail(n - 1, k - 1) + Tail(n - 1, k)
    decreases n + 1 - k
  {
    if k <= n {
      PascalTail(n, k + 1);
      if k == n {
        ChooseBeyond(n - 1, n);
      }
    }
  }

  lemma {:induction false} WholeRow(n: nat)
    ensures Tail(n, 0) == Pow2(n)
  {
    if n > 0 {
      WholeRow(n - 1);
      PascalTail(n, 1);
    }
  }

  lemma {:induction false} AtLeastIsTail(n: nat, j: int)
    ensures AtLeast(n, j) == Tail(n, Max(j, 0))
  {
    if n > 0 {
      AtLeastIsTail(n - 1, j - 1);
      AtLeastIsTail(n - 1, j);
      if j > 0 {
        PascalTail(n, j);
      } else {
        WholeRow(n);
        WholeRow(n - 1);
      }
    }
  }

  /** The two tails cover the extreme outcomes, and do not overlap when `k` is a strict majority. */
  lemma {:induction false} TwoTails(n: nat, pos: nat, neg: nat, k: nat)
    ensures ExtremeOutcomes(n, pos, neg, k) <= AtLeast(n, k - pos) + AtLeast(n, k - neg)
    ensures pos + neg + n < 2 * k ==>
              ExtremeOutcomes(n, pos, neg, k) == AtLeast(n, k - pos) + AtLeast(n, k - neg)
    ensures pos + neg + n >= 2 * k - 1 ==> ExtremeOutcomes(n, pos, neg, k) == Pow2(n)
  {
    if n > 0 {
      TwoTails(n - 1, pos + 1, neg, k);
      TwoTails(n - 1, pos, neg + 1, k);
    }
  }

  lemma CappedShare(t: real, w: real)
    requires w > 0.0
    ensures var p := 2.0 * (t / w);
            (if p < 1.0 then p else 1.0) * w == if 2.0 * t < w then 2.0 * t else w
  {
    var q := t / w;
    assert q * w == t;
    if 2.0 * q < 1.0 {
      assert (2.0 * q) * w < 1.0 * w;
    } else {
      assert (2.0 * q) * w >= 1.0 * w;
    }
  }

  /** The capped double tail counts exactly the extreme outcomes. */
  lemma TailCountsExtremes(n: nat, k: nat)
    requires 2 * k >= n
    ensures ExtremeOutcomes(n, 0, 0, k) == Min(2 * Tail(n, k), Pow2(n))
  {
    TwoTails(n, 0, 0, k);
    AtLeastIsTail(n, k);
    OutcomesAtMostAll(n, 0, 0, k);
  }

  lemma {:induction false} OutcomesAtMostAll(n: nat, pos: nat, neg: nat, k: nat)
    ensures ExtremeOutcomes(n, pos, neg, k) <= Pow2(n)
  {
    if n > 0 {
      OutcomesAtMostAll(n - 1, pos + 1, neg, k);
      OutcomesAtMostAll(n - 1, pos, neg + 1, k);
    }
  }

  /**
   * The p-value is the exact share of the 2^n equally likely outcomes that are at least as lopsided
   * as the one observed; the cap at one is what an even split needs.
   */
  lemma {:induction false} PValueIsShareOfExtremes(d: seq<real>)
    ensures var v := Verdict(d);
            var n := v.0 + v.1;
            v.2 * Pow2(n) as real == ExtremeOutcomes(n, 0, 0, Max(v.0, v.1)) as real
  {
    var pos, neg := CountPositive(d), CountNegative(d);
    var n, k := pos + neg, Max(pos, neg);
    if n > 0 {
      TailCountsExtremes(n, k);
      CappedShare(Tail(n, k) as real, Pow2(n) as real);
    }
  }

  /** Swapping the arms swaps the counts and keeps the p-value. */
  lemma {:induction false} SwappingArms(d: seq<real>)
    ensures Verdict(Negated(d)) == (Verdict(d).1, Verdict(d).0, Verdict(d).2)
  {
    CountsSwap(d);
  }

  lemma {:induction false} NegativesAreBelowZero(d: seq<real>)
    ensures CountNegative(d) == Reals.CountBelow(0.0, d)
  {
    if d != [] {
      NegativesAreBelowZero(d[1..]);
    }
  }

  /** The counts are the numbers of places with a difference above and below zero. */
  lemma CountsArePlaces(d: seq<real>)
    ensures Verdict(d).0 == |set i: nat | i < |d| && d[i] > 0.0|
    ensures Verdict(d).1 == |set i: nat | i < |d| && d[i] < 0.0|
  {
    NegativesAreBelowZero(d);
    Reals.CountsArePlaces(0.0, d);
    CountsSwap(d);
    NegativesAreBelowZero(Negated(d));
    Reals.CountsArePlaces(0.0, Negated(d));
    assert (set i: nat | i < |d| && d[i] > 0.0) == set i: nat | i < |Negated(d)| && Negated(d)[i] < 0.0;
  }

  lemma {:induction false} CountsSwap(d: seq<real>)
    ensures CountPositive(Negated(d)) == CountNegative(d) && CountNegative(Negated(d)) == CountPositive(d)
  {
    if d != [] {
      CountsSwap(d[1..]);
      assert Negated(d)[1..] == Negated(d[1..]);
    }
  }
}
