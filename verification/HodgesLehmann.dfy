/** The Hodges-Lehmann pseudomedian: the median of all pairwise Walsh averages. */
module HodgesLehmann {
  import opened Prelude
  import opened Sorting
  import opened Reals

  /** Averages of `x` with each element of `d`. */
  function Row(x: real, d: seq<real>): (r: seq<real>)
    ensures |r| == |d|
  {
    if d == [] then [] else [0.5 * (x + d[0])] + Row(x, d[1..])
  }

  /** All averages of pairs at positions `i <= j`. */
  function Walsh(d: seq<real>): seq<real> {
    if d == [] then [] else Row(d[0], d) + Walsh(d[1..])
  }

  function Pseudomedian(d: seq<real>): Option<real> {
    if d == [] then None else Median(Walsh(d))
  }

  lemma {:induction false} RowSnoc(x: real, d: seq<real>, y: real)
    ensures Row(x, d + [y]) == Row(x, d) + [0.5 * (x + y)]
  {
    if d == [] {
      assert [] + [y] == [y] && [y][1..] == [];
    } else {
      RowSnoc(x, d[1..], y);
      assert (d + [y])[1..] == d[1..] + [y];
    }
  }

  /** The inner loop: append the averages of `d[i]` with the elements from `i` on. */
  method AppendRow(d: seq<real>, i: nat, w: seq<real>) returns (r: seq<real>)
    requires i < |d|
    ensures r == w + Row(d[i], d[i..])
  {
    r := w;
    for j := i to |d|
      invariant r == w + Row(d[i], d[i..j])
    {
      RowSnoc(d[i], d[i..j], d[j]);
      assert d[i..j + 1] == d[i..j] + [d[j]];
      r := r + [0.5 * (d[i] + d[j])];
    }
    assert d[i..|d|] == d[i..];
  }

  lemma WalshStep(d: seq<real>, i: nat, w: seq<real>)
    requires i < |d|
    ensures w + Walsh(d[i..]) == w + Row(d[i], d[i..]) + Walsh(d[i + 1..])
  {
    assert d[i..][1..] == d[i + 1..];
    assert w + (Row(d[i], d[i..]) + Walsh(d[i + 1..])) == w + Row(d[i], d[i..]) + Walsh(d[i + 1..]);
  }

  method WalshAverages(d: seq<real>) returns (w: seq<real>)
    ensures w == Walsh(d)
  {
    w := [];
    for i := 0 to |d|
      invariant w + Walsh(d[i..]) == Walsh(d)
    {
      WalshStep(d, i, w);
      w := AppendRow(d, i, w);
    }
    assert w + [] == w;
  }

  method Compute(d: seq<real>) returns (r: Option<real>)
    ensures r == Pseudomedian(d)
  {
    if |d| == 0 {
      return None;
    }
    var w := WalshAverages(d);
    r := Median(w);
  }

  // ---- what the estimate is ----------------------------------------------------------------------------

  /** The index pairs `i <= j`, from `k` on, whose average passes a test. */
  ghost function PairsFrom(d: seq<real>, f: real -> bool, k: nat): set<(nat, nat)> {
    set i: nat, j: nat | i < |d| && j < |d| && k <= i <= j && f((d[i] + d[j]) / 2.0) :: (i, j)
  }

  /** Those with first index `k` and second below `m`. */
  ghost function PairsInRow(d: seq<real>, f: real -> bool, k: nat, m: nat): set<(nat, nat)>
    requires m <= |d|
  {
    set j: nat | k <= j < m && f((d[k] + d[j]) / 2.0) :: (k, j)
  }

  function Count(f: real -> bool, s: seq<real>): nat {
    if s == [] then 0 else (if f(s[0]) then 1 else 0) + Count(f, s[1..])
  }

  lemma {:induction false} CountConcat(f: real -> bool, a: seq<real>, b: seq<real>)
    ensures Count(f, a + b) == Count(f, a) + Count(f, b)
  {
    if a == [] {
      assert a + b == b;
    } else {
      CountConcat(f, a[1..], b);
      assert (a + b)[1..] == a[1..] + b;
    }
  }

  lemma {:induction false} CountsAgree(v: real, s: seq<real>)
    ensures Count((x: real) => x < v, s) == CountBelow(v, s)
    ensures Count((x: real) => x <= v, s) == CountAtMost(v, s)
  {
    if s != [] {
      CountsAgree(v, s[1..]);
    }
  }

  lemma RowSetGrows(d: seq<real>, f: real -> bool, k: nat, m: nat)
    requires k < m <= |d|
    ensures (k, m - 1) !in PairsInRow(d, f, k, m - 1)
    ensures PairsInRow(d, f, k, m) ==
            PairsInRow(d, f, k, m - 1) + (if f((d[k] + d[m - 1]) / 2.0) then {(k, m - 1)} else {})
  {
  }

  lemma RowCountGrows(d: seq<real>, f: real -> bool, k: nat, m: nat)
    requires k < m <= |d|
    ensures Count(f, Row(d[k], d[k..m])) ==
            Count(f, Row(d[k], d[k..m - 1])) + if f((d[k] + d[m - 1]) / 2.0) then 1 else 0
  {
    var last := 0.5 * (d[k] + d[m - 1]);
    assert d[k..m] == d[k..m - 1] + [d[m - 1]];
    RowSnoc(d[k], d[k..m - 1], d[m - 1]);
    CountConcat(f, Row(d[k], d[k..m - 1]), [last]);
    assert Count(f, [last]) == if f(last) then 1 else 0;
  }

  lemma {:induction false} RowPairs(d: seq<real>, f: real -> bool, k: nat, m: nat)
    requires k <= m <= |d| && k < |d|
    ensures |PairsInRow(d, f, k, m)| == Count(f, Row(d[k], d[k..m]))
    decreases m - k
  {
    if k == m {
      assert PairsInRow(d, f, k, m) == {};
    } else {
      RowPairs(d, f, k, m - 1);
      RowSetGrows(d, f, k, m);
      RowCountGrows(d, f, k, m);
    }
  }

  lemma PairsSplit(d: seq<real>, f: real -> bool, k: nat)
    requires k < |d|
    ensures PairsFrom(d, f, k) == PairsInRow(d, f, k, |d|) + PairsFrom(d, f, k + 1)
    ensures PairsInRow(d, f, k, |d|) !! PairsFrom(d, f, k + 1)
  {
  }

  lemma WalshCount(d: seq<real>, f: real -> bool, k: nat)
    requires k < |d|
    ensures Count(f, Walsh(d[k..])) == Count(f, Row(d[k], d[k..])) + Count(f, Walsh(d[k + 1..]))
  {
    assert d[k..][1..] == d[k + 1..];
    CountConcat(f, Row(d[k], d[k..]), Walsh(d[k + 1..]));
  }

  /** The averages of the list, counted pair by pair. */
  lemma {:induction false} WalshPairs(d: seq<real>, f: real -> bool, k: nat)
    requires k <= |d|
    ensures |PairsFrom(d, f, k)| == Count(f, Walsh(d[k..]))
    decreases |d| - k
  {
    if k == |d| {
      assert PairsFrom(d, f, k) == {};
    } else {
      RowPairs(d, f, k, |d|);
      assert d[k..|d|] == d[k..];
      WalshPairs(d, f, k + 1);
      WalshCount(d, f, k);
      PairsSplit(d, f, k);
    }
  }

  lemma {:induction false} WalshLength(d: seq<real>)
    ensures |Walsh(d)| == |d| * (|d| + 1) / 2
  {
    if d != [] {
      WalshLength(d[1..]);
      var n := |d|;
      assert n * (n + 1) == (n - 1) * n + 2 * n;
    }
  }

  /**
   * `v` is a k-th smallest pairwise average: of the index pairs `i <= j` fewer than `k` have an
   * average below it, and at least `k` one at or below it.
   */
  ghost predicate IsKthAverage(v: real, d: seq<real>, k: nat) {
    && |set i: nat, j: nat | i < |d| && j < |d| && i <= j && (d[i] + d[j]) / 2.0 < v :: (i, j)| < k
    && |set i: nat, j: nat | i < |d| && j < |d| && i <= j && (d[i] + d[j]) / 2.0 <= v :: (i, j)| >= k
  }

  lemma KthAverage(v: real, d: seq<real>, k: nat)
    ensures IsKthAverage(v, d, k) <==> IsKthSmallest(v, Walsh(d), k)
  {
    var below, atMost := (x: real) => x < v, (x: real) => x <= v;
    assert d[0..] == d;
    WalshPairs(d, below, 0);
    WalshPairs(d, atMost, 0);
    CountsAgree(v, Walsh(d));
    assert PairsFrom(d, below, 0)
        == set i: nat, j: nat | i < |d| && j < |d| && i <= j && (d[i] + d[j]) / 2.0 < v :: (i, j);
    assert PairsFrom(d, atMost, 0)
        == set i: nat, j: nat | i < |d| && j < |d| && i <= j && (d[i] + d[j]) / 2.0 <= v :: (i, j);
  }

  /** The k-th smallest average is one number. */
  lemma KthAverageIsUnique(v: real, w: real, d: seq<real>, k: nat)
    requires IsKthAverage(v, d, k) && IsKthAverage(w, d, k)
    ensures v == w
  {
    KthAverage(v, d, k);
    KthAverage(w, d, k);
    KthIsUnique(v, w, Walsh(d), k);
  }

  /**
   * The estimate is the mean of the two middle averages over all index pairs `i <= j`: with
   * N = n(n+1)/2 of them, the (N+1)/2-th and the (N/2+1)-th smallest.
   */
  lemma {:induction false} EstimateIsMiddleAverage(d: seq<real>) returns (a: real, b: real)
    requires d != []
    ensures var pairs := |d| * (|d| + 1) / 2;
            pairs > 0 && IsKthAverage(a, d, (pairs + 1) / 2) && IsKthAverage(b, d, pairs / 2 + 1)
    ensures Pseudomedian(d) == Some((a + b) / 2.0)
  {
    WalshLength(d);
    assert Walsh(d) != [];
    a, b := MedianIsMiddleOfList(Walsh(d));
    KthAverage(a, d, (|Walsh(d)| + 1) / 2);
    KthAverage(b, d, |Walsh(d)| / 2 + 1);
  }

  // ---- order of the pairs does not matter --------------------------------------------------------------

  /** How often `v` occurs. */
  function Occurrences(v: real, s: seq<real>): nat {
    if s == [] then 0 else (if s[0] == v then 1 else 0) + Occurrences(v, s[1..])
  }

  function One(b: bool): nat {
    if b then 1 else 0
  }

  lemma {:induction false} OccurrencesIsMultiplicity(v: real, s: seq<real>)
    ensures Occurrences(v, s) == multiset(s)[v]
  {
    if s != [] {
      OccurrencesIsMultiplicity(v, s[1..]);
      TailMultiset(s);
    }
  }

  lemma {:induction false} OccurrencesConcat(v: real, a: seq<real>, b: seq<real>)
    ensures Occurrences(v, a + b) == Occurrences(v, a) + Occurrences(v, b)
  {
    if a == [] {
      assert a + b == b;
    } else {
      OccurrencesConcat(v, a[1..], b);
      assert (a + b)[1..] == a[1..] + b;
    }
  }

  lemma WalshUnfold(v: real, d: seq<real>)
    requires d != []
    ensures Occurrences(v, Walsh(d)) == Occurrences(v, Row(d[0], d)) + Occurrences(v, Walsh(d[1..]))
  {
    OccurrencesConcat(v, Row(d[0], d), Walsh(d[1..]));
  }

  lemma RowUnfold(v: real, x: real, d: seq<real>)
    requires d != []
    ensures Occurrences(v, Row(x, d)) == One(0.5 * (x + d[0]) == v) + Occurrences(v, Row(x, d[1..]))
  {
    assert Row(x, d)[1..] == Row(x, d[1..]);
  }

  lemma RemoveFromTail(d: seq<real>, k: nat)
    requires 0 < k < |d|
    ensures RemoveAt(d, k) != [] && RemoveAt(d, k)[0] == d[0] && RemoveAt(d, k)[1..] == RemoveAt(d[1..], k - 1)
  {
  }

  /** Taking element `k` out of a row's partners takes its one average out. */
  lemma {:induction false} RowWithout(v: real, x: real, d: seq<real>, k: nat)
    requires k < |d|
    ensures Occurrences(v, Row(x, d)) == Occurrences(v, Row(x, RemoveAt(d, k))) + One(0.5 * (x + d[k]) == v)
  {
    RowUnfold(v, x, d);
    if k == 0 {
      assert RemoveAt(d, 0) == d[1..];
    } else {
      RowWithout(v, x, d[1..], k - 1);
      RemoveFromTail(d, k);
      RowUnfold(v, x, RemoveAt(d, k));
    }
  }

  lemma {:induction false} RowPermutation(v: real, x: real, a: seq<real>, b: seq<real>)
    requires multiset(a) == multiset(b)
    ensures Occurrences(v, Row(x, a)) == Occurrences(v, Row(x, b))
  {
    if a == [] {
      assert |multiset(b)| == 0;
    } else {
      var k := MatchHead(a, b);
      RowPermutation(v, x, a[1..], RemoveAt(b, k));
      RowWithout(v, x, b, k);
      RowUnfold(v, x, a);
    }
  }

  /** Any element may play the part of the first one: the two elements' shared average counts once either way. */
  lemma {:induction false} WalshWithout(v: real, d: seq<real>, k: nat)
    requires k < |d|
    ensures Occurrences(v, Walsh(d)) == Occurrences(v, Row(d[k], d)) + Occurrences(v, Walsh(RemoveAt(d, k)))
  {
    WalshUnfold(v, d);
    if k == 0 {
      assert RemoveAt(d, 0) == d[1..];
    } else {
      var x, y, rest := d[k], d[0], d[1..];
      WalshWithout(v, rest, k - 1);
      RemoveFromTail(d, k);
      WalshUnfold(v, RemoveAt(d, k));
      RowWithout(v, y, d, k);
      RowUnfold(v, x, d);
    }
  }

  lemma {:induction false} WalshPermutation(v: real, a: seq<real>, b: seq<real>)
    requires multiset(a) == multiset(b)
    ensures Occurrences(v, Walsh(a)) == Occurrences(v, Walsh(b))
  {
    if a == [] {
      assert |multiset(b)| == 0;
    } else {
      var k := MatchHead(a, b);
      WalshPermutation(v, a[1..], RemoveAt(b, k));
      WalshUnfold(v, a);
      WalshWithout(v, b, k);
      RowPermutation(v, a[0], a, b);
    }
  }

  /** The estimate depends only on the multiset of differences. */
  lemma {:induction false} OrderIsIrrelevant(a: seq<real>, b: seq<real>)
    requires multiset(a) == multiset(b)
    ensures Pseudomedian(a) == Pseudomedian(b)
  {
    assert |multiset(a)| == |multiset(b)|;
    forall v: real
      ensures multiset(Walsh(a))[v] == multiset(Walsh(b))[v]
    {
      WalshPermutation(v, a, b);
      OccurrencesIsMultiplicity(v, Walsh(a));
      OccurrencesIsMultiplicity(v, Walsh(b));
    }
    assert multiset(Walsh(a)) == multiset(Walsh(b));
    MedianOfMultiset(Walsh(a), Walsh(b));
  }

  // ---- range and equivariance ----------------------------------------------------------------------------

  lemma {:induction false} RowWithin(x: real, d: seq<real>, lo: real, hi: real)
    requires lo <= x <= hi && forall i | 0 <= i < |d| :: lo <= d[i] <= hi
    ensures forall i | 0 <= i < |Row(x, d)| :: lo <= Row(x, d)[i] <= hi
  {
    if d != [] {
      RowWithin(x, d[1..], lo, hi);
    }
  }

  lemma {:induction false} WalshWithin(d: seq<real>, lo: real, hi: real)
    requires forall i | 0 <= i < |d| :: lo <= d[i] <= hi
    ensures forall i | 0 <= i < |Walsh(d)| :: lo <= Walsh(d)[i] <= hi
  {
    if d != [] {
      RowWithin(d[0], d, lo, hi);
      WalshWithin(d[1..], lo, hi);
    }
  }

  /** The estimate lies between the smallest and the largest difference. */
  lemma {:induction false} LiesWithinTheDifferences(d: seq<real>, lo: real, hi: real)
    requires d != [] && forall i | 0 <= i < |d| :: lo <= d[i] <= hi
    ensures Pseudomedian(d).Some? && lo <= Pseudomedian(d).value <= hi
  {
    WalshWithin(d, lo, hi);
    assert Walsh(d) != [];
    MedianWithin(Walsh(d), lo, hi);
  }

  lemma RescaledAverage(a: real, c: real, x: real, y: real)
    ensures 0.5 * (Scale(a, c)(x) + Scale(a, c)(y)) == Scale(a, c)(0.5 * (x + y))
  {
  }

  lemma {:induction false} RowScale(a: real, c: real, x: real, d: seq<real>)
    ensures Row(Scale(a, c)(x), Map(Scale(a, c), d)) == Map(Scale(a, c), Row(x, d))
  {
    if d != [] {
      RowScale(a, c, x, d[1..]);
      RescaledAverage(a, c, x, d[0]);
      assert Map(Scale(a, c), d)[1..] == Map(Scale(a, c), d[1..]);
    }
  }

  lemma {:induction false} WalshScale(a: real, c: real, d: seq<real>)
    ensures Walsh(Map(Scale(a, c), d)) == Map(Scale(a, c), Walsh(d))
  {
    if d != [] {
      WalshScale(a, c, d[1..]);
      RowScale(a, c, d[0], d);
      assert Map(Scale(a, c), d)[1..] == Map(Scale(a, c), d[1..]);
    }
  }

  /** Every affine change of units of the differences carries over to the estimate. */
  lemma {:induction false} FollowsChangeOfUnits(a: real, c: real, d: seq<real>)
    requires d != []
    ensures Pseudomedian(d).Some?
    ensures Pseudomedian(Map(Scale(a, c), d)) == Some(Scale(a, c)(Pseudomedian(d).value))
  {
    WalshScale(a, c, d);
    assert Walsh(d) != [];
    MedianScale(a, c, Walsh(d));
  }

  /** Paired differences of two arms, round by round. */
  function Differences(a: seq<real>, b: seq<real>): (d: seq<real>)
    requires |a| == |b|
    ensures |d| == |a| && forall i | 0 <= i < |a| :: d[i] == a[i] - b[i]
  {
    seq(|a|, i requires 0 <= i < |a| => a[i] - b[i])
  }

  /** Swapping the two arms flips the sign; an offset common to one arm shifts the estimate by it. */
  lemma SwapAndShift(a: seq<real>, b: seq<real>, c: real)
    requires |a| == |b| > 0
    ensures Pseudomedian(Differences(a, b)).Some?
    ensures Pseudomedian(Differences(b, a)) == Some(-Pseudomedian(Differences(a, b)).value)
    ensures Pseudomedian(Map(Scale(1.0, c), Differences(a, b))) == Some(Pseudomedian(Differences(a, b)).value + c)
  {
    var d := Differences(a, b);
    FollowsChangeOfUnits(-1.0, 0.0, d);
    assert Differences(b, a) == Map(Scale(-1.0, 0.0), d);
    FollowsChangeOfUnits(1.0, c, d);
  }
}
