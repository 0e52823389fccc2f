/**
 * The Wilcoxon signed-rank test with tie correction.  The normal distribution function and the
 * square root are parameters: nothing here depends on how they are approximated.
 */
module Wilcoxon {
  import opened Multiples
  import opened Prelude
  import opened Ranks

  // ---- the statistic -------------------------------------------------------------------------------

  function NonZero(d: seq<real>): (r: seq<real>)
    ensures forall i | 0 <= i < |r| :: r[i] != 0.0
  {
    if d == [] then []
    else if d[0] != 0.0 then [d[0]] + NonZero(d[1..])
    else NonZero(d[1..])
  }

  function Magnitudes(d: seq<real>): (r: seq<real>)
    ensures |r| == |d| && forall i | 0 <= i < |d| :: r[i] == AbsReal(d[i])
  {
    seq(|d|, i requires 0 <= i < |d| => AbsReal(d[i]))
  }

  /** Sum of the ranks of the positive differences. */
  function PositiveRankSum(d: seq<real>, ranks: seq<real>): real
    requires |d| == |ranks|
  {
    if d == [] then 0.0
    else (if d[0] > 0.0 then ranks[0] else 0.0) + PositiveRankSum(d[1..], ranks[1..])
  }

  function NullMean(n: nat): real {
    var nf := n as real;
    nf * (nf + 1.0) / 4.0
  }

  function NullVariance(n: nat, tieSum: real): real {
    var nf := n as real;
    nf * (nf + 1.0) * (2.0 * nf + 1.0) / 24.0 - tieSum / 48.0
  }

  /** Two-sided tail of the standardised statistic; `None` is the NaN of the degenerate exit. */
  function PValue(cdf: real -> real, root: real -> real, w: real, mu: real, variance: real): Option<real>
    requires forall x | x > 0.0 :: root(x) > 0.0
  {
    if variance <= 0.0 then None
    else Some(2.0 * (1.0 - cdf(AbsReal((w - mu) / root(variance)))))
  }

  /** The statistic, and its mean and variance when signs are a matter of chance. */
  function Moments(d: seq<real>): (real, real, real) {
    var nz := NonZero(d);
    var keys := Magnitudes(nz);
    (PositiveRankSum(nz, Midranks(keys)), NullMean(|nz|), NullVariance(|nz|, TieSum(SortedKeys(keys), 0)))
  }

  /** The whole test as a function of the differences. */
  function SignedRankP(cdf: real -> real, root: real -> real, d: seq<real>): Option<real>
    requires forall x | x > 0.0 :: root(x) > 0.0
  {
    var m := Moments(d);
    if |NonZero(d)| < 2 then None else PValue(cdf, root, m.0, m.1, m.2)
  }

  lemma {:induction false} NonZeroSnoc(d: seq<real>, x: real)
    ensures NonZero(d + [x]) == if x != 0.0 then NonZero(d) + [x] else NonZero(d)
  {
    if d == [] {
      assert [] + [x] == [x] && NonZero([x][1..]) == [];
    } else {
      NonZeroSnoc(d[1..], x);
      assert (d + [x])[1..] == d[1..] + [x];
    }
  }

  method WilcoxonP(cdf: real -> real, root: real -> real, d: seq<real>) returns (p: Option<real>)
    requires forall x | x > 0.0 :: root(x) > 0.0
    ensures p == SignedRankP(cdf, root, d)
  {
    var nz: seq<real> := [];
    for i := 0 to |d|
      invariant nz == NonZero(d[..i])
    {
      NonZeroSnoc(d[..i], d[i]);
      assert d[..i + 1] == d[..i] + [d[i]];
      if d[i] != 0.0 {
        nz := nz + [d[i]];
      }
    }
    assert d[..|d|] == d;
    if |nz| < 2 {
      return None;
    }
    var ranks, tieSum := RankWithTies(Magnitudes(nz));
    var w := SumPositive(nz, ranks);
    p := PValue(cdf, root, w, NullMean(|nz|), NullVariance(|nz|, tieSum));
  }

  method SumPositive(nz: seq<real>, ranks: seq<real>) returns (w: real)
    requires |nz| == |ranks|
    ensures w == PositiveRankSum(nz, ranks)
  {
    w := 0.0;
    var k := |nz|;
    while k > 0
      invariant 0 <= k <= |nz|
      invariant w == PositiveRankSum(nz[k..], ranks[k..])
    {
      k := k - 1;
      if nz[k] > 0.0 {
        w := w + ranks[k];
      }
      assert nz[k..][1..] == nz[k + 1..] && ranks[k..][1..] == ranks[k + 1..];
    }
    assert nz[0..] == nz && ranks[0..] == ranks;
  }

  // ---- the null mean and variance are exact ---------------------------------------------------------

  function Shift(c: real, xs: seq<real>): (r: seq<real>)
    ensures |r| == |xs|
  {
    if xs == [] then [] else [c + xs[0]] + Shift(c, xs[1..])
  }

  /** The statistic under every one of the 2^n equally likely choices of signs. */
  function AllOutcomes(ranks: seq<real>): (r: seq<real>)
    ensures |r| > 0
  {
    if ranks == [] then [0.0]
    else
      var rest := AllOutcomes(ranks[1..]);
      rest + Shift(ranks[0], rest)
  }

  function SumOver(f: real -> real, xs: seq<real>): real {
    if xs == [] then 0.0 else f(xs[0]) + SumOver(f, xs[1..])
  }

  function SquaredDeviation(m: real): real -> real {
    (x: real) => (x - m) * (x - m)
  }

  lemma {:induction false} SumOverConcat(f: real -> real, xs: seq<real>, ys: seq<real>)
    ensures SumOver(f, xs + ys) == SumOver(f, xs) + SumOver(f, ys)
  {
    if xs == [] {
      assert xs + ys == ys;
    } else {
      SumOverConcat(f, xs[1..], ys);
      assert (xs + ys)[1..] == xs[1..] + ys;
    }
  }

  lemma {:induction false} ShiftSum(c: real, xs: seq<real>)
    ensures Sum(Shift(c, xs)) == Times(|xs|, c) + Sum(xs)
  {
    if xs != [] {
      ShiftSum(c, xs[1..]);
    }
  }

  /** Summing over a sample and its shifted copy, term by term. */
  lemma {:induction false} SumOverShiftedCopies(f: real -> real, g: real -> real, c: real, k: real, xs: seq<real>)
    requires forall y :: f(y) + f(c + y) == 2.0 * g(y) + k
    ensures SumOver(f, xs) + SumOver(f, Shift(c, xs)) == 2.0 * SumOver(g, xs) + Times(|xs|, k)
  {
    if xs != [] {
      SumOverShiftedCopies(f, g, c, k, xs[1..]);
      assert f(xs[0]) + f(c + xs[0]) == 2.0 * g(xs[0]) + k;
    }
  }

  /** The same for squared deviations: the two copies lie half a step either side of the mean. */
  lemma ShiftedDeviations(c: real, m: real, xs: seq<real>)
    ensures var f, g := SquaredDeviation(m + c / 2.0), SquaredDeviation(m);
            SumOver(f, xs) + SumOver(f, Shift(c, xs)) == 2.0 * SumOver(g, xs) + Times(|xs|, c * c / 2.0)
  {
    var f, g := SquaredDeviation(m + c / 2.0), SquaredDeviation(m);
    forall y: real
      ensures f(y) + f(c + y) == 2.0 * g(y) + c * c / 2.0
    {
      var z, h := y - m, c / 2.0;
      assert f(y) == (z - h) * (z - h) && f(c + y) == (z + h) * (z + h);
    }
    SumOverShiftedCopies(f, g, c, c * c / 2.0, xs);
  }

  lemma {:induction false} OutcomeMean(ranks: seq<real>)
    ensures Sum(AllOutcomes(ranks)) == Times(|AllOutcomes(ranks)|, Sum(ranks) / 2.0)
  {
    if ranks != [] {
      var rest := AllOutcomes(ranks[1..]);
      var n, c, m := |rest|, ranks[0], Sum(ranks[1..]) / 2.0;
      OutcomeMean(ranks[1..]);
      ShiftSum(c, rest);
      SumConcat(rest, Shift(c, rest));
      TimesAdds(n, n, c / 2.0 + m, 0.0);
      TimesAdds(0, n, c / 2.0, m);
      TimesAdds(0, n, c / 2.0, c / 2.0);
    }
  }

  /** One more rank doubles the outcomes, and adds a quarter of its square to their mean squared deviation. */
  lemma TwoCopiesVariance(c: real, m: real, q: real, e: real, rest: seq<real>)
    requires SumOver(SquaredDeviation(m), rest) == Times(|rest|, q) && e == c * c / 4.0
    ensures SumOver(SquaredDeviation(m + c / 2.0), rest + Shift(c, rest)) == Times(|rest| + |rest|, e + q)
  {
    var n := |rest|;
    ShiftedDeviations(c, m, rest);
    SumOverConcat(SquaredDeviation(m + c / 2.0), rest, Shift(c, rest));
    assert c * c / 2.0 == e + e;
    TimesAdds(n, n, e + q, 0.0);
    TimesAdds(0, n, e, q);
    TimesAdds(0, n, e, e);
  }

  lemma {:induction false} OutcomeVariance(ranks: seq<real>)
    ensures SumOver(SquaredDeviation(Sum(ranks) / 2.0), AllOutcomes(ranks))
         == Times(|AllOutcomes(ranks)|, SumSquares(ranks) / 4.0)
  {
    if ranks != [] {
      var rest := AllOutcomes(ranks[1..]);
      var c, m := ranks[0], Sum(ranks[1..]) / 2.0;
      var q, e := SumSquares(ranks[1..]) / 4.0, c * c / 4.0;
      OutcomeVariance(ranks[1..]);
      assert Sum(ranks) / 2.0 == m + c / 2.0;
      assert SumSquares(ranks) / 4.0 == e + q;
      TwoCopiesVariance(c, m, q, e, rest);
    } else {
      assert AllOutcomes(ranks) == [0.0] && [0.0][1..] == [];
    }
  }

  /** The observed statistic is one of those outcomes. */
  lemma {:induction false} StatisticIsAnOutcome(d: seq<real>, ranks: seq<real>)
    requires |d| == |ranks|
    ensures PositiveRankSum(d, ranks) in AllOutcomes(ranks)
  {
    if d != [] {
      StatisticIsAnOutcome(d[1..], ranks[1..]);
      var rest := AllOutcomes(ranks[1..]);
      var i :| 0 <= i < |rest| && rest[i] == PositiveRankSum(d[1..], ranks[1..]);
      ShiftAt(ranks[0], rest, i);
      assert AllOutcomes(ranks)[i] == rest[i];
      assert AllOutcomes(ranks)[|rest| + i] == ranks[0] + rest[i];
    }
  }

  lemma {:induction false} ShiftAt(c: real, xs: seq<real>, i: nat)
    requires i < |xs|
    ensures Shift(c, xs)[i] == c + xs[i]
  {
    if i > 0 {
      ShiftAt(c, xs[1..], i - 1);
    }
  }

  lemma NullMomentsClosed(n: nat, tieSum: real)
    ensures NullMean(n) == Triangle(n) / 2.0
    ensures NullVariance(n, tieSum) == (Pyramid(n) - tieSum / 12.0) / 4.0
  {
    TriangleClosed(n);
    PyramidClosed(n);
  }

  /** The tie-corrected variance is a quarter of the sum of the squared midranks. */
  lemma VarianceIsQuarterOfSquares(keys: seq<real>)
    ensures NullMean(|keys|) == Sum(Midranks(keys)) / 2.0
    ensures NullVariance(|keys|, TieSum(SortedKeys(keys), 0)) == SumSquares(Midranks(keys)) / 4.0
  {
    MidrankSums(keys);
    NullMomentsClosed(|keys|, TieSum(SortedKeys(keys), 0));
  }

  lemma OutcomeMoments(ranks: seq<real>, mu: real, variance: real)
    requires mu == Sum(ranks) / 2.0 && variance == SumSquares(ranks) / 4.0
    ensures Sum(AllOutcomes(ranks)) == Times(|AllOutcomes(ranks)|, mu)
    ensures SumOver(SquaredDeviation(mu), AllOutcomes(ranks)) == Times(|AllOutcomes(ranks)|, variance)
  {
    OutcomeMean(ranks);
    OutcomeVariance(ranks);
  }

  /**
   * Ties or not, the mean and the tie-corrected variance the test standardises with are the exact
   * ones of the statistic over all 2^n equally likely sign choices.
   */
  lemma {:induction false} NullMomentsAreExact(keys: seq<real>)
    ensures var outcomes, mu := AllOutcomes(Midranks(keys)), NullMean(|keys|);
            && Sum(outcomes) == Times(|outcomes|, mu)
            && SumOver(SquaredDeviation(mu), outcomes)
            == Times(|outcomes|, NullVariance(|keys|, TieSum(SortedKeys(keys), 0)))
  {
    VarianceIsQuarterOfSquares(keys);
    OutcomeMoments(Midranks(keys), NullMean(|keys|), NullVariance(|keys|, TieSum(SortedKeys(keys), 0)));
  }

  lemma {:induction false} OutcomeCount(ranks: seq<real>)
    ensures |AllOutcomes(ranks)| == Pow2(|ranks|)
  {
    if ranks != [] {
      OutcomeCount(ranks[1..]);
    }
  }

  // ---- the degenerate exit --------------------------------------------------------------------------

  lemma CubeOfSum(x: real, y: real, z: real)
    requires z == x + y
    ensures z * z * z - z == x * x * x - x + (y * y * y - y) + 3.0 * (x * y * z)
  {
  }

  lemma Product(x: real, y: real)
    requires x >= 0.0 && y >= 0.0
    ensures x * y >= 0.0 && (x > 0.0 && y > 0.0 ==> x * y > 0.0)
  {
  }

  /** Joining two runs of ties raises the tie sum. */
  lemma TieTermSuperadditive(a: nat, b: nat)
    ensures TieTerm(a) + TieTerm(b) <= TieTerm(a + b)
    ensures a > 0 && b > 0 ==> TieTerm(a) + TieTerm(b) < TieTerm(a + b)
  {
    var x, y, z := a as real, b as real, (a + b) as real;
    assert TieTerm(a + b) == TieTerm(a) + TieTerm(b) + 3.0 * (x * y * z) by {
      CubeOfSum(x, y, z);
    }
    Product(x, y);
    Product(x * y, z);
  }

  lemma {:induction false} TieSumBound(s: seq<real>, i: nat)
    requires i <= |s|
    ensures TieSum(s, i) <= TieTerm(|s| - i)
    decreases |s| - i
  {
    if i < |s| {
      var j := RunEnd(s, i, i);
      TieSumBound(s, j + 1);
      TieTermSuperadditive(j - i + 1, |s| - (j + 1));
    }
  }

  /** What n keys leave of the variance when all of them tie. */
  function VarianceFloor(n: nat): real {
    var x := n as real;
    x * (x + 1.0) * (x + 1.0) / 16.0
  }

  lemma FloorIsPositive(n: nat)
    requires n > 0
    ensures VarianceFloor(n) > 0.0
  {
    var x := n as real;
    Product(x, x + 1.0);
    Product(x * (x + 1.0), x + 1.0);
  }

  lemma VarianceOverFloor(n: nat, tieSum: real)
    ensures NullVariance(n, tieSum) == VarianceFloor(n) + (TieTerm(n) - tieSum) / 48.0
  {
    var x := n as real;
    assert x * (x + 1.0) * (2.0 * x + 1.0) == 2.0 * (x * x * x) + 3.0 * (x * x) + x;
    assert x * (x + 1.0) * (x + 1.0) == x * x * x + 2.0 * (x * x) + x;
  }

  /** The tie sum is largest exactly when all the keys form one run. */
  lemma TieSumIsLargest(s: seq<real>)
    requires s != []
    ensures TieSum(s, 0) == TieTerm(|s|) <==> RunEnd(s, 0, 0) == |s| - 1
  {
    var t := RunEnd(s, 0, 0) + 1;
    if t == |s| {
      assert TieSum(s, t) == 0.0;
    } else {
      TieSumBound(s, t);
      TieTermSuperadditive(t, |s| - t);
    }
  }

  /** However the keys tie, the variance is at least n(n+1)^2/16, reached exactly when all of them are one run. */
  lemma {:induction false} VarianceIsBoundedBelow(keys: seq<real>)
    ensures var s := SortedKeys(keys);
            && NullVariance(|keys|, TieSum(s, 0)) >= VarianceFloor(|keys|)
            && (keys != [] ==>
                  (NullVariance(|keys|, TieSum(s, 0)) == VarianceFloor(|keys|) <==> RunEnd(s, 0, 0) == |keys| - 1))
  {
    var s := SortedKeys(keys);
    TieSumBound(s, 0);
    VarianceOverFloor(|keys|, TieSum(s, 0));
    if keys != [] {
      TieSumIsLargest(s);
    }
  }

  /** In exact arithmetic the test answers NaN only for fewer than two nonzero differences. */
  lemma {:induction false} DegenerateExitIsUnreachable(cdf: real -> real, root: real -> real, d: seq<real>)
    requires forall x | x > 0.0 :: root(x) > 0.0
    ensures SignedRankP(cdf, root, d).Some? <==> |NonZero(d)| >= 2
  {
    var keys := Magnitudes(NonZero(d));
    VarianceIsBoundedBelow(keys);
    if |keys| >= 2 {
      FloorIsPositive(|keys|);
    }
  }

  // ---- swapping the arms ------------------------------------------------------------------------------

  lemma NegatedCons(x: real, d: seq<real>)
    ensures Negated([x] + d) == [-x] + Negated(d)
  {
  }

  lemma {:induction false} NonZeroNegated(d: seq<real>)
    ensures NonZero(Negated(d)) == Negated(NonZero(d))
    ensures |NonZero(d)| <= |d|
  {
    if d != [] {
      NonZeroNegated(d[1..]);
      assert Negated(d)[1..] == Negated(d[1..]);
      NegatedCons(d[0], NonZero(d[1..]));
    }
  }

  lemma {:induction false} RankSumNegated(d: seq<real>, ranks: seq<real>)
    requires |d| == |ranks| && forall i | 0 <= i < |d| :: d[i] != 0.0
    ensures PositiveRankSum(d, ranks) + PositiveRankSum(Negated(d), ranks) == Sum(ranks)
  {
    if d != [] {
      RankSumNegated(d[1..], ranks[1..]);
      assert Negated(d)[1..] == Negated(d[1..]);
    }
  }

  lemma NegatedQuotient(a: real, r: real)
    requires r != 0.0
    ensures (-a) / r == -(a / r)
  {
    var q := a / r;
    assert q * r == a;
    assert (-q) * r == -a;
    assert (-q) * r / r == -q;
  }

  /** The tail depends only on how far the statistic is from its mean. */
  lemma PValueSymmetric(cdf: real -> real, root: real -> real, v: real, w: real, mu: real, variance: real)
    requires forall x | x > 0.0 :: root(x) > 0.0
    requires v - mu == -(w - mu)
    ensures PValue(cdf, root, v, mu, variance) == PValue(cdf, root, w, mu, variance)
  {
    if variance > 0.0 {
      NegatedQuotient(w - mu, root(variance));
    }
  }

  lemma QuotientSquared(a: real, r: real, z: real)
    requires r > 0.0 && z == AbsReal(a / r)
    ensures z >= 0.0 && z * z * (r * r) == a * a
  {
    var q := a / r;
    assert q * r == a;
    assert q * q * (r * r) == (q * r) * (q * r);
    assert z * z == q * q;
  }

  /**
   * The p-value of a symmetric distribution is its mass outside -z and z, where z is how many standard
   * deviations the statistic lies from its mean.
   */
  lemma PValueIsTwoTails(cdf: real -> real, root: real -> real, w: real, mu: real, variance: real)
    returns (z: real)
    requires forall x | x > 0.0 :: root(x) > 0.0 && root(x) * root(x) == x
    requires forall x :: cdf(-x) == 1.0 - cdf(x)
    requires variance > 0.0
    ensures z >= 0.0 && z * z * variance == (w - mu) * (w - mu)
    ensures PValue(cdf, root, w, mu, variance) == Some(cdf(-z) + (1.0 - cdf(z)))
  {
    z := AbsReal((w - mu) / root(variance));
    QuotientSquared(w - mu, root(variance), z);
  }

  /** What the test standardises is the positive rank sum, by its exact mean over all sign choices. */
  lemma MeanIsExact(d: seq<real>)
    ensures var ranks := Midranks(Magnitudes(NonZero(d)));
            Moments(d).0 == PositiveRankSum(NonZero(d), ranks) && Moments(d).1 == Sum(ranks) / 2.0
  {
    VarianceIsQuarterOfSquares(Magnitudes(NonZero(d)));
  }

  /** And by its exact variance. */
  lemma VarianceIsExact(d: seq<real>)
    ensures Moments(d).2 == SumSquares(Midranks(Magnitudes(NonZero(d)))) / 4.0
  {
    VarianceIsQuarterOfSquares(Magnitudes(NonZero(d)));
  }

  lemma MomentsVary(d: seq<real>)
    requires NonZero(d) != []
    ensures Moments(d).2 > 0.0
  {
    var keys := Magnitudes(NonZero(d));
    VarianceIsBoundedBelow(keys);
    FloorIsPositive(|keys|);
  }

  lemma MidrankTotal(keys: seq<real>)
    ensures Sum(Midranks(keys)) == Triangle(|keys|)
  {
    MidrankSums(keys);
  }

  lemma MagnitudesNegated(nz: seq<real>)
    ensures Magnitudes(Negated(nz)) == Magnitudes(nz)
  {
  }

  lemma {:induction false} NonZeroKeepsAll(d: seq<real>)
    requires forall i | 0 <= i < |d| :: d[i] != 0.0
    ensures NonZero(d) == d
  {
    if d != [] {
      NonZeroKeepsAll(d[1..]);
    }
  }

  lemma {:induction false} NonZeroConcat(d: seq<real>, e: seq<real>)
    ensures NonZero(d + e) == NonZero(d) + NonZero(e)
  {
    if d == [] {
      assert d + e == e;
    } else {
      assert (d + e)[1..] == d[1..] + e && (d + e)[0] == d[0];
      NonZeroConcat(d[1..], e);
      if d[0] != 0.0 {
        assert [d[0]] + (NonZero(d[1..]) + NonZero(e)) == [d[0]] + NonZero(d[1..]) + NonZero(e);
      }
    }
  }

  /** Zero differences are dropped, and no other. */
  lemma ZerosAreDropped(d: seq<real>, e: seq<real>)
    ensures NonZero(d + [0.0] + e) == NonZero(d + e)
    ensures (forall i | 0 <= i < |d| :: d[i] != 0.0) ==> NonZero(d) == d
  {
    NonZeroConcat(d, e);
    NonZeroConcat(d + [0.0], e);
    NonZeroSnoc(d, 0.0);
    if forall i | 0 <= i < |d| :: d[i] != 0.0 {
      NonZeroKeepsAll(d);
    }
  }

  lemma {:induction false} RankSumFlip(nz: seq<real>, ranks: seq<real>, k: nat)
    requires |nz| == |ranks| && k < |nz| && nz[k] < 0.0
    ensures PositiveRankSum(nz[k := -nz[k]], ranks) == PositiveRankSum(nz, ranks) + ranks[k]
    decreases |nz|
  {
    if k > 0 {
      assert nz[k := -nz[k]][1..] == nz[1..][k - 1 := -nz[k]];
      RankSumFlip(nz[1..], ranks[1..], k - 1);
    } else {
      assert nz[0 := -nz[0]][1..] == nz[1..];
    }
  }

  lemma {:induction false} NoRankCounts(nz: seq<real>, ranks: seq<real>)
    requires |nz| == |ranks| && forall i | 0 <= i < |nz| :: nz[i] < 0.0
    ensures PositiveRankSum(nz, ranks) == 0.0
  {
    if nz != [] {
      NoRankCounts(nz[1..], ranks[1..]);
    }
  }

  /** The statistic is zero when every difference is negative, and turning one positive adds that one's midrank. */
  lemma StatisticAddsPositiveRanks(d: seq<real>, k: nat)
    requires k < |d| && d[k] < 0.0 && forall i | 0 <= i < |d| :: d[i] != 0.0
    ensures Moments(d[k := -d[k]]).0 == Moments(d).0 + Midranks(Magnitudes(d))[k]
    ensures (forall i | 0 <= i < |d| :: d[i] < 0.0) ==> Moments(d).0 == 0.0
  {
    var e := d[k := -d[k]];
    NonZeroKeepsAll(d);
    NonZeroKeepsAll(e);
    assert Magnitudes(e) == Magnitudes(d);
    RankSumFlip(d, Midranks(Magnitudes(d)), k);
    if forall i | 0 <= i < |d| :: d[i] < 0.0 {
      NoRankCounts(d, Midranks(Magnitudes(d)));
    }
  }

  /** Swapping the two arms mirrors the statistic in n(n+1)/2. */
  lemma SwappingArmsMirrorsStatistic(nz: seq<real>)
    requires forall i | 0 <= i < |nz| :: nz[i] != 0.0
    ensures Magnitudes(Negated(nz)) == Magnitudes(nz)
    ensures var ranks := Midranks(Magnitudes(nz));
            PositiveRankSum(Negated(nz), ranks) == Triangle(|nz|) - PositiveRankSum(nz, ranks)
  {
    MagnitudesNegated(nz);
    MidrankTotal(Magnitudes(nz));
    MirroredIn(nz, Midranks(Magnitudes(nz)), Triangle(|nz|));
  }

  lemma MirroredIn(nz: seq<real>, ranks: seq<real>, total: real)
    requires |nz| == |ranks| && Sum(ranks) == total && forall i | 0 <= i < |nz| :: nz[i] != 0.0
    ensures PositiveRankSum(Negated(nz), ranks) == total - PositiveRankSum(nz, ranks)
  {
    RankSumNegated(nz, ranks);
  }

  /** So it leaves the p-value alone. */
  lemma {:induction false} SwappingArmsKeepsP(cdf: real -> real, root: real -> real, d: seq<real>)
    requires forall x | x > 0.0 :: root(x) > 0.0
    ensures SignedRankP(cdf, root, Negated(d)) == SignedRankP(cdf, root, d)
  {
    var nz := NonZero(d);
    var keys := Magnitudes(nz);
    NonZeroNegated(d);
    SwappingArmsMirrorsStatistic(nz);
    NullMomentsClosed(|nz|, TieSum(SortedKeys(keys), 0));
    PValueSymmetric(cdf, root, PositiveRankSum(Negated(nz), Midranks(keys)), PositiveRankSum(nz, Midranks(keys)),
                    NullMean(|nz|), NullVariance(|nz|, TieSum(SortedKeys(keys), 0)));
  }
}
