/**
 * Midranks: sort, then give every run of tied values the mean of the positions it fills.  Two values
 * tie when they are closer than the machine epsilon to the first value of the run.
 */
module Ranks {
  import opened Prelude
  import opened Sorting
  import Reals

  /** `f64::EPSILON`, two to the minus 52. */
  const EPSILON: real := 1.0 / 4503599627370496.0

  // ---- sums ----------------------------------------------------------------------------------

  function Sum(xs: seq<real>): real {
    if xs == [] then 0.0 else xs[0] + Sum(xs[1..])
  }

  function SumSquares(xs: seq<real>): real {
    if xs == [] then 0.0 else xs[0] * xs[0] + SumSquares(xs[1..])
  }

  lemma {:induction false} SumConcat(xs: seq<real>, ys: seq<real>)
    ensures Sum(xs + ys) == Sum(xs) + Sum(ys)
    ensures SumSquares(xs + ys) == SumSquares(xs) + SumSquares(ys)
  {
    if xs == [] {
      assert xs + ys == ys;
    } else {
      SumConcat(xs[1..], ys);
      assert (xs + ys)[1..] == xs[1..] + ys;
    }
  }

  /** A sum does not depend on the order of its terms. */
  lemma {:induction false} SumPermutation(xs: seq<real>, ys: seq<real>)
    requires multiset(xs) == multiset(ys)
    ensures Sum(xs) == Sum(ys) && SumSquares(xs) == SumSquares(ys)
  {
    if xs == [] {
      assert |multiset(ys)| == 0;
    } else {
      var k := MatchHead(xs, ys);
      SumPermutation(xs[1..], RemoveAt(ys, k));
      assert ys == ys[..k] + ([ys[k]] + ys[k + 1..]);
      SumConcat(ys[..k], [ys[k]] + ys[k + 1..]);
      SumConcat(ys[..k], ys[k + 1..]);
    }
  }

  // ---- the sorted order of the keys ------------------------------------------------------------

  function KeyAt(keys: seq<real>, i: int): real {
    if 0 <= i < |keys| then keys[i] else 0.0
  }

  function ByKey(keys: seq<real>): (int, int) -> bool {
    (a: int, b: int) => KeyAt(keys, a) <= KeyAt(keys, b)
  }

  function Iota(n: nat): (r: seq<int>)
    ensures |r| == n && forall i | 0 <= i < n :: r[i] == i
  {
    seq(n, i => i)
  }

  /** Positions of the keys in increasing order; tied keys keep their places. */
  function Order(keys: seq<real>): (idx: seq<int>)
    ensures |idx| == |keys|
  {
    Sort(ByKey(keys), Iota(|keys|))
  }

  predicate IsPermutation(idx: seq<int>) {
    && (forall k | 0 <= k < |idx| :: 0 <= idx[k] < |idx|)
    && (forall j, k | 0 <= j < k < |idx| :: idx[j] != idx[k])
    && (forall i | 0 <= i < |idx| :: i in idx)
  }

  lemma {:induction false} IotaMultiset(n: nat)
    ensures forall i: int :: multiset(Iota(n))[i] == if 0 <= i < n then 1 else 0
  {
    if n > 0 {
      IotaMultiset(n - 1);
      assert Iota(n) == Iota(n - 1) + [n - 1];
    }
  }

  lemma RepeatedElementCounts(s: seq<int>, j: nat, k: nat)
    requires j < k < |s| && s[j] == s[k]
    ensures multiset(s)[s[j]] >= 2
  {
    assert s == s[..k] + ([s[k]] + s[k + 1..]);
    assert s[..k][j] == s[j];
    assert s[j] in multiset(s[..k]);
  }

  lemma OrderIsPermutation(keys: seq<real>)
    ensures |Order(keys)| == |keys| && IsPermutation(Order(keys))
    ensures forall j, k | 0 <= j < k < |keys| :: KeyAt(keys, Order(keys)[j]) <= KeyAt(keys, Order(keys)[k])
  {
    var idx, n := Order(keys), |keys|;
    IotaMultiset(n);
    assert multiset(idx) == multiset(Iota(n));
    forall k | 0 <= k < n
      ensures 0 <= idx[k] < n
    {
      assert idx[k] in multiset(idx);
    }
    forall i | 0 <= i < n
      ensures i in idx
    {
      assert i in multiset(idx);
    }
    forall j, k | 0 <= j < k < n && idx[j] == idx[k]
      ensures false
    {
      RepeatedElementCounts(idx, j, k);
    }
    SortSorted(ByKey(keys), Iota(n));
    forall j, k | 0 <= j < k < n
      ensures KeyAt(keys, idx[j]) <= KeyAt(keys, idx[k])
    {
      assert ByKey(keys)(idx[j], idx[k]);
    }
  }

  /** The keys read in sorted order. */
  function SortedKeys(keys: seq<real>): (s: seq<real>)
    ensures |s| == |keys|
  {
    var idx := Order(keys);
    seq(|keys|, k requires 0 <= k < |keys| => KeyAt(keys, idx[k]))
  }

  lemma {:induction false} SortedKeysSorted(keys: seq<real>)
    ensures forall j, k | 0 <= j < k < |keys| :: SortedKeys(keys)[j] <= SortedKeys(keys)[k]
  {
    OrderIsPermutation(keys);
    forall j, k | 0 <= j < k < |keys|
      ensures SortedKeys(keys)[j] <= SortedKeys(keys)[k]
    {
      assert KeyAt(keys, Order(keys)[j]) <= KeyAt(keys, Order(keys)[k]);
    }
  }

  /** A permutation without the position holding its largest index permutes the smaller ones. */
  lemma PermutationShrinks(idx: seq<int>, k: nat)
    requires IsPermutation(idx) && k < |idx| && idx[k] == |idx| - 1
    ensures IsPermutation(RemoveAt(idx, k))
  {
    var r := RemoveAt(idx, k);
    forall i | 0 <= i < |r|
      ensures i in r
    {
      assert i in idx;
      var j :| 0 <= j < |idx| && idx[j] == i;
      assert r[if j < k then j else j - 1] == i;
    }
    forall j | 0 <= j < |r|
      ensures 0 <= r[j] < |r|
    {
      assert r[j] == idx[if j < k then j else j + 1];
    }
  }

  /** Reading a list through a permutation rearranges it. */
  lemma {:induction false} GatherMultiset<T>(xs: seq<T>, idx: seq<int>, ys: seq<T>)
    requires |idx| == |xs| == |ys| && IsPermutation(idx)
    requires forall k | 0 <= k < |idx| :: ys[k] == xs[idx[k]]
    ensures multiset(ys) == multiset(xs)
  {
    if xs != [] {
      var n := |xs| - 1;
      assert n in idx;
      var k :| 0 <= k <= n && idx[k] == n;
      PermutationShrinks(idx, k);
      GatherMultiset(xs[..n], RemoveAt(idx, k), RemoveAt(ys, k));
      assert xs == xs[..n] + [xs[n]];
    }
  }

  // ---- runs of ties ------------------------------------------------------------------------------

  predicate Tied(a: real, b: real) {
    AbsReal(b - a) < EPSILON
  }

  /** Last position of the run that starts at `i`, scanning on from `j`. */
  function RunEnd(s: seq<real>, i: nat, j: nat): (e: nat)
    requires i <= j < |s|
    ensures j <= e < |s|
    decreases |s| - j
  {
    if j + 1 < |s| && Tied(s[i], s[j + 1]) then RunEnd(s, i, j + 1) else j
  }

  /** Mean of the one-based positions `i + 1` to `j + 1`. */
  function MeanPosition(i: nat, j: nat): real {
    (i + 1 + j + 1) as real / 2.0
  }

  function Repeat(x: real, n: nat): (r: seq<real>)
    ensures |r| == n && forall k | 0 <= k < n :: r[k] == x
  {
    seq(n, _ => x)
  }

  /** Ranks of the sorted values from position `i` on. */
  function SortedRanks(s: seq<real>, i: nat): (r: seq<real>)
    requires i <= |s|
    ensures |r| == |s| - i
    decreases |s| - i
  {
    if i == |s| then []
    else
      var j := RunEnd(s, i, i);
      Repeat(MeanPosition(i, j), j - i + 1) + SortedRanks(s, j + 1)
  }

  function TieTerm(t: nat): real {
    var x := t as real;
    x * x * x - x
  }

  function TieSum(s: seq<real>, i: nat): real
    requires i <= |s|
    decreases |s| - i
  {
    if i == |s| then 0.0
    else
      var j := RunEnd(s, i, i);
      TieTerm(j - i + 1) + TieSum(s, j + 1)
  }

  function PositionOf(idx: seq<int>, i: int): (k: nat)
    ensures k <= |idx|
    ensures i in idx ==> k < |idx| && idx[k] == i
  {
    if idx == [] || idx[0] == i then 0 else 1 + PositionOf(idx[1..], i)
  }

  /** The midrank of each key, in the keys' own order. */
  function Midranks(keys: seq<real>): (r: seq<real>)
    ensures |r| == |keys|
  {
    var idx, sorted := Order(keys), SortedRanks(SortedKeys(keys), 0);
    seq(|keys|, i requires 0 <= i < |keys| => KeyAt(sorted, PositionOf(idx, i)))
  }

  lemma MidrankOfSorted(keys: seq<real>, k: nat)
    requires k < |keys|
    ensures |Order(keys)| == |keys| && 0 <= Order(keys)[k] < |keys|
    ensures Midranks(keys)[Order(keys)[k]] == SortedRanks(SortedKeys(keys), 0)[k]
  {
    OrderIsPermutation(keys);
  }

  /** Ranks that are right in sorted order are right everywhere. */
  lemma SortedOrderDetermines(keys: seq<real>, r: seq<real>)
    requires |r| == |keys| == |Order(keys)|
    requires forall k | 0 <= k < |keys| ::
               0 <= Order(keys)[k] < |keys| && r[Order(keys)[k]] == SortedRanks(SortedKeys(keys), 0)[k]
    ensures r == Midranks(keys)
  {
    OrderIsPermutation(keys);
    forall q | 0 <= q < |keys|
      ensures r[q] == Midranks(keys)[q]
    {
      var k := PositionOf(Order(keys), q);
      assert r[Order(keys)[k]] == SortedRanks(SortedKeys(keys), 0)[k];
    }
  }

  /** Gives every key of one run, positions `i` to `j` of the sorted order, the same rank. */
  method AssignRun(r: array<real>, idx: seq<int>, i: nat, j: nat, avg: real)
    requires |idx| == r.Length && IsPermutation(idx) && i <= j < |idx|
    modifies r
    ensures forall p | 0 <= p < |idx| :: r[idx[p]] == if i <= p <= j then avg else old(r[idx[p]])
  {
    var k := i;
    while k <= j
      invariant i <= k <= j + 1
      invariant forall p | 0 <= p < |idx| :: r[idx[p]] == if i <= p < k then avg else old(r[idx[p]])
    {
      r[idx[k]] := avg;
      k := k + 1;
    }
  }

  /** One run peeled off the target ranks. */
  lemma NextRun(s: seq<real>, target: seq<real>, i: nat)
    requires i < |s| == |target| && target[i..] == SortedRanks(s, i)
    ensures var j := RunEnd(s, i, i);
            && (forall p | i <= p <= j :: target[p] == MeanPosition(i, j))
            && target[j + 1..] == SortedRanks(s, j + 1)
  {
    var j := RunEnd(s, i, i);
    var run := Repeat(MeanPosition(i, j), j - i + 1);
    forall p | i <= p <= j
      ensures target[p] == MeanPosition(i, j)
    {
      assert target[p] == target[i..][p - i] == run[p - i];
    }
    assert target[j + 1..] == target[i..][j + 1 - i..];
  }

  /** The inner loop: how far the run that starts at `i` reaches. */
  method ScanRun(xs: seq<real>, idx: seq<int>, i: nat, ghost s: seq<real>) returns (j: nat)
    requires |idx| == |xs| == |s| && IsPermutation(idx) && i < |xs|
    requires forall k | 0 <= k < |xs| :: s[k] == xs[idx[k]]
    ensures j == RunEnd(s, i, i)
  {
    j := i;
    while j + 1 < |xs| && AbsReal(xs[idx[j + 1]] - xs[idx[i]]) < EPSILON
      invariant i <= j < |xs|
      invariant RunEnd(s, i, i) == RunEnd(s, i, j)
    {
      j := j + 1;
    }
  }

  /** One turn of the outer loop: rank the run that starts at `i` and step past it. */
  method RankRun(xs: seq<real>, idx: seq<int>, ghost s: seq<real>, r: array<real>, i: nat)
    returns (next: nat, tieTerm: real)
    requires |idx| == |xs| == |s| == r.Length && IsPermutation(idx) && i < |xs|
    requires forall k | 0 <= k < |xs| :: s[k] == xs[idx[k]]
    modifies r
    ensures next == RunEnd(s, i, i) + 1 && tieTerm == TieTerm(next - i)
    ensures forall p | 0 <= p < |xs| ::
              r[idx[p]] == if i <= p < next then MeanPosition(i, next - 1) else old(r[idx[p]])
  {
    var j := ScanRun(xs, idx, i, s);
    AssignRun(r, idx, i, j, MeanPosition(i, j));
    var t := (j - i + 1) as real;
    next, tieTerm := j + 1, t * t * t - t;
  }

  /** One turn of the outer loop, as the walk sees it: the ranks so far, and what is left of the tie sum. */
  method TakeRun(xs: seq<real>, idx: seq<int>, ghost s: seq<real>, ghost target: seq<real>, r: array<real>, i: nat)
      returns (next: nat, tieTerm: real)
    requires |idx| == |xs| == |s| == r.Length == |target| && IsPermutation(idx) && i < |xs|
    requires forall k | 0 <= k < |xs| :: s[k] == xs[idx[k]]
    requires target[i..] == SortedRanks(s, i) && forall p | 0 <= p < i :: r[idx[p]] == target[p]
    modifies r
    ensures i < next <= |xs| && target[next..] == SortedRanks(s, next)
    ensures forall p | 0 <= p < next :: r[idx[p]] == target[p]
    ensures tieTerm + TieSum(s, next) == TieSum(s, i)
  {
    NextRun(s, target, i);
    next, tieTerm := RankRun(xs, idx, s, r, i);
  }

  /** The walk over the sorted order, run by run. */
  method WalkRuns(xs: seq<real>, idx: seq<int>, ghost s: seq<real>) returns (r: array<real>, tieSum: real)
    requires |idx| == |xs| == |s| && IsPermutation(idx)
    requires forall k | 0 <= k < |xs| :: s[k] == xs[idx[k]]
    ensures fresh(r) && r.Length == |xs|
    ensures forall p | 0 <= p < |xs| :: r[idx[p]] == SortedRanks(s, 0)[p]
    ensures tieSum == TieSum(s, 0)
  {
    var n := |xs|;
    ghost var target := SortedRanks(s, 0);
    r := new real[n](_ => 0.0);
    tieSum := 0.0;
    var i := 0;
    while i < n
      invariant i <= n
      invariant target[i..] == SortedRanks(s, i)
      invariant forall p | 0 <= p < i :: r[idx[p]] == target[p]
      invariant tieSum + TieSum(s, i) == TieSum(s, 0)
    {
      var next, term := TakeRun(xs, idx, s, target, r, i);
      i, tieSum := next, tieSum + term;
    }
  }

  /** What both callers run: every rank, and the sum of `t^3 - t` over the runs. */
  method RankWithTies(xs: seq<real>) returns (ranks: seq<real>, tieSum: real)
    ensures ranks == Midranks(xs)
    ensures tieSum == TieSum(SortedKeys(xs), 0)
  {
    OrderIsPermutation(xs);
    var idx := Order(xs);
    var r, t := WalkRuns(xs, idx, SortedKeys(xs));
    ranks, tieSum := r[..], t;
    SortedOrderDetermines(xs, ranks);
  }

  // ---- what the ranks add up to --------------------------------------------------------------------

  /** Sum of the first `n` positions. */
  function Triangle(n: nat): real {
    if n == 0 then 0.0 else n as real + Triangle(n - 1)
  }

  /** Sum of their squares. */
  function Pyramid(n: nat): real {
    if n == 0 then 0.0 else n as real * n as real + Pyramid(n - 1)
  }

  lemma {:induction false} TriangleClosed(n: nat)
    ensures var x := n as real;
            Triangle(n) == x * (x + 1.0) / 2.0
  {
    if n > 0 {
      TriangleClosed(n - 1);
      var y := (n - 1) as real;
      assert n as real == y + 1.0;
      assert (y + 1.0) * (y + 2.0) == y * (y + 1.0) + 2.0 * (y + 1.0);
    }
  }

  lemma {:induction false} PyramidClosed(n: nat)
    ensures var x := n as real;
            Pyramid(n) == x * (x + 1.0) * (2.0 * x + 1.0) / 6.0
  {
    if n > 0 {
      PyramidClosed(n - 1);
      var y := (n - 1) as real;
      assert n as real == y + 1.0;
      assert y * (y + 1.0) * (2.0 * y + 1.0) == 2.0 * (y * y * y) + 3.0 * (y * y) + y;
      assert (y + 1.0) * (y + 2.0) * (2.0 * y + 3.0) == 2.0 * (y * y * y) + 9.0 * (y * y) + 13.0 * y + 6.0;
    }
  }

  lemma {:induction false} RepeatSums(x: real, n: nat)
    ensures Sum(Repeat(x, n)) == n as real * x
    ensures SumSquares(Repeat(x, n)) == n as real * (x * x)
  {
    if n > 0 {
      RepeatSums(x, n - 1);
      assert Repeat(x, n)[1..] == Repeat(x, n - 1);
    }
  }

  lemma RepeatTotals(x: real, n: nat, total: real, squares: real)
    requires n as real * x == total && n as real * (x * x) == squares
    ensures Sum(Repeat(x, n)) == total && SumSquares(Repeat(x, n)) == squares
  {
    RepeatSums(x, n);
  }

  /** A run of `t` from position `i + 1` on adds what those positions would have added. */
  lemma RunSum(i: nat, t: nat)
    requires t > 0
    ensures t as real * MeanPosition(i, i + t - 1) == Triangle(i + t) - Triangle(i)
  {
    var a, b := i as real, t as real;
    TriangleClosed(i);
    TriangleClosed(i + t);
    assert (i + t) as real == a + b;
    assert MeanPosition(i, i + t - 1) == (2.0 * a + b + 1.0) / 2.0;
  }

  lemma PyramidPolynomial(n: nat, x: real)
    requires x == n as real
    ensures Pyramid(n) == (2.0 * (x * x * x) + 3.0 * (x * x) + x) / 6.0
  {
    PyramidClosed(n);
    assert x * (x + 1.0) * (2.0 * x + 1.0) == 2.0 * (x * x * x) + 3.0 * (x * x) + x;
  }

  lemma RunSquaresIdentity(a: real, b: real, c: real, m: real, first: real, last: real)
    requires m == a + (b + 1.0) / 2.0 && c == a + b
    requires first == (2.0 * (a * a * a) + 3.0 * (a * a) + a) / 6.0
    requires last == (2.0 * (c * c * c) + 3.0 * (c * c) + c) / 6.0
    ensures b * (m * m) == last - first - (b * b * b - b) / 12.0
  {
    assert b * (m * m) == b * (a * a) + a * b * (b + 1.0) + b * ((b + 1.0) * (b + 1.0)) / 4.0;
    assert c * c == a * a + 2.0 * (a * b) + b * b;
    assert c * c * c == a * a * a + 3.0 * (a * a * b) + 3.0 * (a * b * b) + b * b * b;
  }

  /** Its squares fall short of theirs by a twelfth of the tie term. */
  lemma RunSumSquares(i: nat, t: nat)
    requires t > 0
    ensures var m := MeanPosition(i, i + t - 1);
            t as real * (m * m) == Pyramid(i + t) - Pyramid(i) - TieTerm(t) / 12.0
  {
    var a, b := i as real, t as real;
    PyramidPolynomial(i, a);
    PyramidPolynomial(i + t, a + b);
    RunSquaresIdentity(a, b, a + b, MeanPosition(i, i + t - 1), Pyramid(i), Pyramid(i + t));
  }

  lemma RunSums(i: nat, t: nat)
    requires t > 0
    ensures Sum(Repeat(MeanPosition(i, i + t - 1), t)) == Triangle(i + t) - Triangle(i)
    ensures SumSquares(Repeat(MeanPosition(i, i + t - 1), t)) == Pyramid(i + t) - Pyramid(i) - TieTerm(t) / 12.0
  {
    RunSum(i, t);
    RunSumSquares(i, t);
    RepeatTotals(MeanPosition(i, i + t - 1), t, Triangle(i + t) - Triangle(i),
                 Pyramid(i + t) - Pyramid(i) - TieTerm(t) / 12.0);
  }

  lemma {:induction false} SortedRankSums(s: seq<real>, i: nat)
    requires i <= |s|
    ensures Sum(SortedRanks(s, i)) == Triangle(|s|) - Triangle(i)
    ensures SumSquares(SortedRanks(s, i)) == Pyramid(|s|) - Pyramid(i) - TieSum(s, i) / 12.0
    decreases |s| - i
  {
    if i < |s| {
      var j := RunEnd(s, i, i);
      var t := j - i + 1;
      SortedRankSums(s, j + 1);
      SumConcat(Repeat(MeanPosition(i, j), t), SortedRanks(s, j + 1));
      RunSums(i, t);
    }
  }

  /**
   * Whatever the ties, midranks add up to n(n+1)/2, and their squares to the sum of the first n
   * squares less a twelfth of the tie sum.
   */
  lemma {:induction false} MidrankSums(keys: seq<real>)
    ensures Sum(Midranks(keys)) == Triangle(|keys|)
    ensures SumSquares(Midranks(keys)) == Pyramid(|keys|) - TieSum(SortedKeys(keys), 0) / 12.0
  {
    OrderIsPermutation(keys);
    var s := SortedKeys(keys);
    forall k | 0 <= k < |keys|
      ensures SortedRanks(s, 0)[k] == Midranks(keys)[Order(keys)[k]]
    {
      MidrankOfSorted(keys, k);
    }
    GatherMultiset(Midranks(keys), Order(keys), SortedRanks(s, 0));
    SumPermutation(SortedRanks(s, 0), Midranks(keys));
    SortedRankSums(s, 0);
  }

  // ---- the textbook midrank -----------------------------------------------------------------------

  /** Half-way between the first and the last place `v` could take among the keys. */
  function Textbook(keys: seq<real>, v: real): real {
    (Reals.CountBelow(v, keys) + Reals.CountAtMost(v, keys) + 1) as real / 2.0
  }

  /** No two different keys are closer than the machine epsilon. */
  predicate Separated(keys: seq<real>) {
    forall i, j | 0 <= i < |keys| && 0 <= j < |keys| && keys[i] < keys[j] :: keys[i] + EPSILON <= keys[j]
  }

  predicate Ascending(s: seq<real>) {
    forall j, k | 0 <= j < k < |s| :: s[j] <= s[k]
  }

  lemma {:induction false} CountsAfterPrefix(s: seq<real>, v: real, i: nat, j: nat)
    requires i <= j <= |s|
    requires forall p | 0 <= p < i :: s[p] < v
    requires forall p | i <= p < j :: s[p] == v
    requires forall p | j <= p < |s| :: v < s[p]
    ensures Reals.CountBelow(v, s) == i && Reals.CountAtMost(v, s) == j
  {
    if s != [] {
      CountsAfterPrefix(s[1..], v, if i > 0 then i - 1 else 0, if j > 0 then j - 1 else 0);
    }
  }

  /** Everything in a run ties with its first value, and the value after it does not. */
  lemma {:induction false} RunIsMaximal(s: seq<real>, i: nat, j: nat)
    requires i <= j < |s|
    requires forall p | i < p <= j :: Tied(s[i], s[p])
    ensures var e := RunEnd(s, i, j);
            && (forall p | i < p <= e :: Tied(s[i], s[p]))
            && (e + 1 < |s| ==> !Tied(s[i], s[e + 1]))
    decreases |s| - j
  {
    if j + 1 < |s| && Tied(s[i], s[j + 1]) {
      RunIsMaximal(s, i, j + 1);
    }
  }

  /** With separated keys a run is exactly the places of one value. */
  lemma SeparatedRun(s: seq<real>, i: nat)
    requires Ascending(s) && Separated(s)
    requires i < |s| && (i > 0 ==> s[i - 1] < s[i])
    ensures var j := RunEnd(s, i, i);
            && (forall p | 0 <= p < i :: s[p] < s[i])
            && (forall p | i <= p <= j :: s[p] == s[i])
            && (forall p | j < p < |s| :: s[i] < s[p])
  {
    var j := RunEnd(s, i, i);
    RunIsMaximal(s, i, i);
    forall p | i <= p <= j
      ensures s[p] == s[i]
    {
      if i < p {
        assert Tied(s[i], s[p]) && s[i] <= s[p];
      }
    }
    if j + 1 < |s| {
      assert s[i] <= s[j + 1] && !Tied(s[i], s[j + 1]);
      assert s[i] < s[j + 1];
    }
  }

  /** Over separated values a run's mean position is the textbook rank of each of its values. */
  lemma RunIsTextbook(s: seq<real>, i: nat, p: nat)
    requires Ascending(s) && Separated(s)
    requires i < |s| && i <= p <= RunEnd(s, i, i) && (i > 0 ==> s[i - 1] < s[i])
    ensures Textbook(s, s[p]) == MeanPosition(i, RunEnd(s, i, i))
  {
    SeparatedRun(s, i);
    CountsAfterPrefix(s, s[p], i, RunEnd(s, i, i) + 1);
  }

  /** A rank is its run's mean position, or one of the ranks after the run. */
  lemma RankByRun(s: seq<real>, i: nat, p: nat)
    requires i <= p < |s|
    ensures var j := RunEnd(s, i, i);
            SortedRanks(s, i)[p - i] == if p <= j then MeanPosition(i, j) else SortedRanks(s, j + 1)[p - (j + 1)]
  {
  }

  lemma RunStepsUp(s: seq<real>, i: nat)
    requires Ascending(s) && Separated(s)
    requires i < |s| && (i > 0 ==> s[i - 1] < s[i])
    ensures var j := RunEnd(s, i, i); j + 1 < |s| ==> s[j] < s[j + 1]
  {
    SeparatedRun(s, i);
  }

  lemma {:induction false} SeparatedRanksAreTextbook(s: seq<real>, i: nat, p: nat)
    requires Ascending(s) && Separated(s)
    requires i <= p < |s| && (i > 0 ==> s[i - 1] < s[i])
    ensures SortedRanks(s, i)[p - i] == Textbook(s, s[p])
    decreases |s| - i
  {
    var j := RunEnd(s, i, i);
    RankByRun(s, i, p);
    if p <= j {
      RunIsTextbook(s, i, p);
    } else {
      RunStepsUp(s, i);
      SeparatedRanksAreTextbook(s, j + 1, p);
    }
  }

  /** A run over different values gives its two ends one rank, and the textbook gives them two. */
  lemma WideRunMisranks(s: seq<real>, i: nat)
    requires Ascending(s) && i < |s| && s[i] < s[RunEnd(s, i, i)]
    ensures var j := RunEnd(s, i, i);
            SortedRanks(s, i)[0] != Textbook(s, s[i]) || SortedRanks(s, i)[j - i] != Textbook(s, s[j])
  {
    var j := RunEnd(s, i, i);
    Reals.CountsOrdered(s, s[i], s[j]);
    assert s[i] in s && s[j] in s;
  }

  /** Two different but close neighbours end up in one run, and one of the run's ends has the wrong rank. */
  lemma {:induction false} CloseKeysMisrank(s: seq<real>, i: nat, q: nat) returns (p: nat)
    requires Ascending(s) && i <= q && q + 1 < |s|
    requires s[q] < s[q + 1] && Tied(s[q], s[q + 1])
    ensures i <= p < |s| && SortedRanks(s, i)[p - i] != Textbook(s, s[p])
    decreases |s| - i
  {
    var j := RunEnd(s, i, i);
    RunIsMaximal(s, i, i);
    if s[i] < s[j] {
      WideRunMisranks(s, i);
      p := if SortedRanks(s, i)[0] != Textbook(s, s[i]) then i else j;
    } else {
      assert s[i] == s[j];
      assert q > j;
      p := CloseKeysMisrank(s, j + 1, q);
    }
  }

  /** Somewhere between two different sorted values there is a step up. */
  lemma {:induction false} StepBetween(s: seq<real>, a: nat, b: nat) returns (q: nat)
    requires Ascending(s) && a < b < |s| && s[a] < s[b] && Tied(s[a], s[b])
    ensures a <= q < b && s[q] < s[q + 1] && Tied(s[q], s[q + 1])
    decreases b - a
  {
    if s[a] < s[a + 1] {
      q := a;
    } else {
      q := StepBetween(s, a + 1, b);
    }
  }

  lemma SomeRankIsOff(s: seq<real>) returns (p: nat)
    requires Ascending(s) && !Separated(s)
    ensures p < |s| && SortedRanks(s, 0)[p] != Textbook(s, s[p])
  {
    var a, b :| 0 <= a < |s| && 0 <= b < |s| && s[a] < s[b] && Tied(s[a], s[b]);
    assert a < b;
    var q := StepBetween(s, a, b);
    p := CloseKeysMisrank(s, 0, q);
  }

  lemma SortedRanksTextbookExactly(s: seq<real>)
    requires Ascending(s)
    ensures (forall p | 0 <= p < |s| :: SortedRanks(s, 0)[p] == Textbook(s, s[p])) <==> Separated(s)
  {
    if Separated(s) {
      forall p | 0 <= p < |s|
        ensures SortedRanks(s, 0)[p] == Textbook(s, s[p])
      {
        SeparatedRanksAreTextbook(s, 0, p);
      }
    } else {
      var p := SomeRankIsOff(s);
    }
  }

  lemma SeparatedIsPermutationInvariant(xs: seq<real>, ys: seq<real>)
    requires multiset(xs) == multiset(ys) && Separated(xs)
    ensures Separated(ys)
  {
    forall i, j | 0 <= i < |ys| && 0 <= j < |ys| && ys[i] < ys[j]
      ensures !Tied(ys[i], ys[j])
    {
      assert ys[i] in multiset(xs) && ys[j] in multiset(xs);
    }
  }

  /**
   * The ranks are the textbook midranks, which count the smaller and the equal keys, exactly when
   * no two different keys are closer than the machine epsilon.
   */
  lemma {:induction false} MidranksAreTextbookExactly(keys: seq<real>)
    ensures (forall i | 0 <= i < |keys| :: Midranks(keys)[i] == Textbook(keys, keys[i])) <==> Separated(keys)
  {
    var s, idx := SortedKeys(keys), Order(keys);
    OrderIsPermutation(keys);
    SortedKeysSorted(keys);
    GatherMultiset(keys, idx, s);
    SortedRanksTextbookExactly(s);
    forall p | 0 <= p < |s|
      ensures Textbook(s, s[p]) == Textbook(keys, keys[idx[p]])
      ensures Midranks(keys)[idx[p]] == SortedRanks(s, 0)[p]
    {
      Reals.CountsArePermutationInvariant(s, keys, s[p]);
      MidrankOfSorted(keys, p);
    }
    if Separated(keys) {
      SeparatedIsPermutationInvariant(keys, s);
      forall i | 0 <= i < |keys|
        ensures Midranks(keys)[i] == Textbook(keys, keys[i])
      {
        assert idx[PositionOf(idx, i)] == i;
      }
    } else if Separated(s) {
      SeparatedIsPermutationInvariant(s, keys);
    }
  }
}
