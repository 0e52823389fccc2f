/** Order statistics of a list of exact reals; `None` stands for the NaN of an empty list. */
module Reals {
  import opened Multiples
  import opened Prelude
  import opened Sorting

  function LessEq(a: real, b: real): bool {
    a <= b
  }

  function SortedReals(xs: seq<real>): (s: seq<real>)
    ensures |s| == |xs| && multiset(s) == multiset(xs)
    ensures forall i, j | 0 <= i < j < |s| :: s[i] <= s[j]
  {
    SortSorted(LessEq, xs);
    var s := Sort(LessEq, xs);
    assert forall i, j | 0 <= i < j < |s| :: LessEq(s[i], s[j]);
    s
  }

  /** Sorting depends on the multiset of values alone. */
  lemma SortedRealsUnique(a: seq<real>, b: seq<real>)
    requires multiset(a) == multiset(b)
    requires forall i, j | 0 <= i < j < |b| :: b[i] <= b[j]
    ensures SortedReals(a) == b
  {
    assert SortedBy(LessEq, b);
    SortedUnique(LessEq, SortedReals(a), b);
  }

  /** The mean of the two middle elements, which coincide when the length is odd. */
  function Middle(s: seq<real>): real
    requires s != []
  {
    0.5 * (s[(|s| - 1) / 2] + s[|s| / 2])
  }

  /** The middle element, or the mean of the two middle elements. */
  function SortedMedian(s: seq<real>): Option<real> {
    if s == [] then None
    else if |s| % 2 == 1 then Some(s[|s| / 2])
    else Some(0.5 * (s[|s| / 2 - 1] + s[|s| / 2]))
  }

  function Median(xs: seq<real>): Option<real> {
    SortedMedian(SortedReals(xs))
  }

  lemma MedianOfMultiset(a: seq<real>, b: seq<real>)
    requires multiset(a) == multiset(b)
    ensures Median(a) == Median(b)
  {
    SortedRealsUnique(a, SortedReals(b));
  }

  /** The median stays inside any interval that holds every value. */
  lemma MedianWithin(xs: seq<real>, lo: real, hi: real)
    requires xs != []
    requires forall i | 0 <= i < |xs| :: lo <= xs[i] <= hi
    ensures Median(xs).Some? && lo <= Median(xs).value <= hi
  {
    var s := SortedReals(xs);
    forall i | 0 <= i < |s|
      ensures lo <= s[i] <= hi
    {
      assert s[i] in multiset(s);
      assert s[i] in xs;
    }
    MedianIsMiddle(xs);
  }

  lemma MedianIsMiddle(xs: seq<real>)
    requires xs != []
    ensures Median(xs) == Some(Middle(SortedReals(xs)))
  {
    var s := SortedReals(xs);
    if |s| % 2 == 1 {
      assert (|s| - 1) / 2 == |s| / 2;
    }
  }

  function Reverse(xs: seq<real>): (r: seq<real>)
    ensures |r| == |xs| && forall i | 0 <= i < |xs| :: r[i] == xs[|xs| - 1 - i]
  {
    seq(|xs|, i requires 0 <= i < |xs| => xs[|xs| - 1 - i])
  }

  lemma {:induction false} ReverseMultiset(xs: seq<real>)
    ensures multiset(Reverse(xs)) == multiset(xs)
  {
    if xs != [] {
      ReverseMultiset(xs[1..]);
      assert Reverse(xs) == Reverse(xs[1..]) + [xs[0]];
      assert xs == [xs[0]] + xs[1..];
    }
  }

  lemma MiddleReverse(s: seq<real>)
    requires s != []
    ensures Middle(Reverse(s)) == Middle(s)
  {
    assert |s| - 1 - |s| / 2 == (|s| - 1) / 2;
  }

  // ---- changes of units ------------------------------------------------------------------------

  function Map(f: real -> real, xs: seq<real>): (r: seq<real>)
    ensures |r| == |xs| && forall i | 0 <= i < |xs| :: r[i] == f(xs[i])
  {
    seq(|xs|, i requires 0 <= i < |xs| => f(xs[i]))
  }

  /** Mapping two rearrangements of the same values gives rearrangements of the same values. */
  lemma {:induction false} MapMultiset(f: real -> real, xs: seq<real>, ys: seq<real>)
    requires multiset(xs) == multiset(ys)
    ensures multiset(Map(f, xs)) == multiset(Map(f, ys))
  {
    if xs == [] {
      assert |multiset(ys)| == 0;
    } else {
      var k := MatchHead(xs, ys);
      MapMultiset(f, xs[1..], RemoveAt(ys, k));
      assert Map(f, xs)[1..] == Map(f, xs[1..]);
      TailMultiset(Map(f, xs));
      assert RemoveAt(Map(f, ys), k) == Map(f, RemoveAt(ys, k));
    }
  }

  /** A monotone map keeps the sorted order, an antitone one reverses it. */
  lemma SortedMap(f: real -> real, xs: seq<real>)
    ensures (forall x, y | x <= y :: f(x) <= f(y)) ==> SortedReals(Map(f, xs)) == Map(f, SortedReals(xs))
    ensures (forall x, y | x <= y :: f(y) <= f(x)) ==> SortedReals(Map(f, xs)) == Reverse(Map(f, SortedReals(xs)))
  {
    var s := SortedReals(xs);
    MapMultiset(f, xs, s);
    if forall x, y | x <= y :: f(x) <= f(y) {
      SortedRealsUnique(Map(f, xs), Map(f, s));
    }
    if forall x, y | x <= y :: f(y) <= f(x) {
      ReverseMultiset(Map(f, s));
      SortedRealsUnique(Map(f, xs), Reverse(Map(f, s)));
    }
  }

  /** Change of units: multiply by `a`, then add `c`. */
  function Scale(a: real, c: real): real -> real {
    (x: real) => a * x + c
  }

  lemma ProductRises(a: real, x: real, y: real)
    requires a >= 0.0 && x <= y
    ensures a * x <= a * y
  {
    assert a * (y - x) >= 0.0;
  }

  lemma ProductFalls(a: real, x: real, y: real)
    requires a <= 0.0 && x <= y
    ensures a * y <= a * x
  {
    ProductRises(-a, x, y);
  }

  lemma ScaleOrder(a: real, c: real)
    ensures a >= 0.0 ==> forall x, y | x <= y :: Scale(a, c)(x) <= Scale(a, c)(y)
    ensures a <= 0.0 ==> forall x, y | x <= y :: Scale(a, c)(y) <= Scale(a, c)(x)
  {
    forall x: real, y: real | x <= y
      ensures a >= 0.0 ==> Scale(a, c)(x) <= Scale(a, c)(y)
      ensures a <= 0.0 ==> Scale(a, c)(y) <= Scale(a, c)(x)
    {
      if a >= 0.0 {
        ProductRises(a, x, y);
      }
      if a <= 0.0 {
        ProductFalls(a, x, y);
      }
    }
  }

  lemma MiddleScale(a: real, c: real, s: seq<real>)
    requires s != []
    ensures Middle(Map(Scale(a, c), s)) == Scale(a, c)(Middle(s))
  {
  }

  lemma MedianMap(f: real -> real, xs: seq<real>)
    requires xs != []
    requires (forall x, y | x <= y :: f(x) <= f(y)) || (forall x, y | x <= y :: f(y) <= f(x))
    ensures Median(Map(f, xs)) == Some(Middle(Map(f, SortedReals(xs))))
  {
    SortedMap(f, xs);
    MedianIsMiddle(Map(f, xs));
    MiddleReverse(Map(f, SortedReals(xs)));
  }

  /** The median follows every affine change of units, a sign flip included. */
  lemma MedianScale(a: real, c: real, xs: seq<real>)
    requires xs != []
    ensures Median(xs).Some? && Median(Map(Scale(a, c), xs)) == Some(Scale(a, c)(Median(xs).value))
  {
    assert Median(Map(Scale(a, c), xs)) == Some(Middle(Map(Scale(a, c), SortedReals(xs)))) by {
      ScaleOrder(a, c);
      MedianMap(Scale(a, c), xs);
    }
    MedianIsMiddle(xs);
    MiddleScale(a, c, SortedReals(xs));
  }

  // ---- nearest-rank quantiles ------------------------------------------------------------------

  function Ceil(x: real): int {
    -((-x).Floor)
  }

  /** The place of a share in a list of `n`.  A float-to-`usize` cast saturates: negative values become zero. */
  function Place(share: real, n: nat): (i: nat)
    requires n > 0
    ensures i < n
  {
    Clamp(Max(Ceil(share), 0), 1, n) - 1
  }

  function Quant(s: seq<real>, q: real): Option<real> {
    if s == [] then None else Some(s[Place(Times(|s|, q), |s|)])
  }

  function CountAtMost(v: real, s: seq<real>): nat {
    if s == [] then 0 else (if s[0] <= v then 1 else 0) + CountAtMost(v, s[1..])
  }

  function CountBelow(v: real, s: seq<real>): nat {
    if s == [] then 0 else (if s[0] < v then 1 else 0) + CountBelow(v, s[1..])
  }

  lemma {:induction false} CountAtMostAtLeast(v: real, s: seq<real>, k: nat)
    requires k <= |s| && forall i | 0 <= i < k :: s[i] <= v
    ensures CountAtMost(v, s) >= k
  {
    if k > 0 {
      CountAtMostAtLeast(v, s[1..], k - 1);
    }
  }

  lemma {:induction false} CountBelowAtMost(v: real, s: seq<real>, k: nat)
    requires k <= |s| && forall i | k <= i < |s| :: v <= s[i]
    ensures CountBelow(v, s) <= k
  {
    if s != [] {
      CountBelowAtMost(v, s[1..], if k > 0 then k - 1 else 0);
    }
  }

  lemma {:induction false} CountsArePermutationInvariant(xs: seq<real>, ys: seq<real>, v: real)
    requires multiset(xs) == multiset(ys)
    ensures CountBelow(v, xs) == CountBelow(v, ys)
    ensures CountAtMost(v, xs) == CountAtMost(v, ys)
  {
    if xs == [] {
      assert |multiset(ys)| == 0;
    } else {
      var k := MatchHead(xs, ys);
      CountsArePermutationInvariant(xs[1..], RemoveAt(ys, k), v);
      CountsWithout(ys, k, v);
    }
  }

  lemma {:induction false} CountsConcat(xs: seq<real>, ys: seq<real>, v: real)
    ensures CountBelow(v, xs + ys) == CountBelow(v, xs) + CountBelow(v, ys)
    ensures CountAtMost(v, xs + ys) == CountAtMost(v, xs) + CountAtMost(v, ys)
  {
    if xs == [] {
      assert xs + ys == ys;
    } else {
      CountsConcat(xs[1..], ys, v);
      assert (xs + ys)[1..] == xs[1..] + ys;
    }
  }

  function Places(p: real -> bool, s: seq<real>): set<nat> {
    set i: nat | i < |s| && p(s[i])
  }

  lemma PlacesSnoc(p: real -> bool, s: seq<real>, x: real)
    ensures |Places(p, s + [x])| == |Places(p, s)| + if p(x) then 1 else 0
  {
    var n := |s|;
    assert forall i | 0 <= i < n :: (s + [x])[i] == s[i];
    assert (s + [x])[n] == x;
    if p(x) {
      assert Places(p, s + [x]) == Places(p, s) + {n};
    } else {
      assert Places(p, s + [x]) == Places(p, s);
    }
  }

  lemma {:induction false} CountsArePlacesOf(v: real, s: seq<real>)
    ensures CountBelow(v, s) == |Places((x: real) => x < v, s)|
    ensures CountAtMost(v, s) == |Places((x: real) => x <= v, s)|
    decreases |s|
  {
    if s == [] {
      assert Places((x: real) => x < v, s) == {} && Places((x: real) => x <= v, s) == {};
    } else {
      var n := |s| - 1;
      assert s == s[..n] + [s[n]];
      CountsArePlacesOf(v, s[..n]);
      CountsConcat(s[..n], [s[n]], v);
      PlacesSnoc((x: real) => x < v, s[..n], s[n]);
      PlacesSnoc((x: real) => x <= v, s[..n], s[n]);
    }
  }

  /** The counts are the numbers of places that hold such a value. */
  lemma CountsArePlaces(v: real, s: seq<real>)
    ensures CountBelow(v, s) == |set i: nat | i < |s| && s[i] < v|
    ensures CountAtMost(v, s) == |set i: nat | i < |s| && s[i] <= v|
  {
    CountsArePlacesOf(v, s);
    assert Places((x: real) => x < v, s) == set i: nat | i < |s| && s[i] < v;
    assert Places((x: real) => x <= v, s) == set i: nat | i < |s| && s[i] <= v;
  }

  lemma CountsWithout(ys: seq<real>, k: nat, v: real)
    requires k < |ys|
    ensures CountBelow(v, ys) == CountBelow(v, RemoveAt(ys, k)) + if ys[k] < v then 1 else 0
    ensures CountAtMost(v, ys) == CountAtMost(v, RemoveAt(ys, k)) + if ys[k] <= v then 1 else 0
  {
    assert ys == ys[..k] + ([ys[k]] + ys[k + 1..]);
    CountsConcat(ys[..k], [ys[k]] + ys[k + 1..], v);
    CountsConcat(ys[..k], ys[k + 1..], v);
  }

  lemma {:induction false} CountsOrdered(s: seq<real>, a: real, b: real)
    requires a < b
    ensures CountBelow(a, s) <= CountAtMost(a, s) <= CountBelow(b, s) <= CountAtMost(b, s)
    ensures a in s ==> CountBelow(a, s) < CountAtMost(a, s)
  {
    if s != [] {
      CountsOrdered(s[1..], a, b);
    }
  }

  // ---- order statistics, by counting -------------------------------------------------------------------

  /** `v` is a k-th smallest value: fewer than `k` values lie below it, and at least `k` at or below it. */
  predicate IsKthSmallest(v: real, s: seq<real>, k: nat) {
    CountBelow(v, s) < k <= CountAtMost(v, s)
  }

  /** There is only one such value. */
  lemma KthIsUnique(v: real, w: real, s: seq<real>, k: nat)
    requires IsKthSmallest(v, s, k) && IsKthSmallest(w, s, k)
    ensures v == w
  {
    if v < w {
      CountsOrdered(s, v, w);
    } else if w < v {
      CountsOrdered(s, w, v);
    }
  }

  lemma SortedKth(s: seq<real>, i: nat)
    requires i < |s| && forall i, j | 0 <= i < j < |s| :: s[i] <= s[j]
    ensures IsKthSmallest(s[i], s, i + 1)
  {
    CountAtMostAtLeast(s[i], s, i + 1);
    CountBelowAtMost(s[i], s, i);
  }

  lemma PlaceIsKth(xs: seq<real>, i: nat)
    requires i < |xs|
    ensures IsKthSmallest(SortedReals(xs)[i], xs, i + 1)
  {
    var s := SortedReals(xs);
    SortedKth(s, i);
    CountsArePermutationInvariant(s, xs, s[i]);
  }

  /**
   * The median is the mean of the two middle values of the list, told by counting: of `n` values the
   * (n+1)/2-th smallest and the (n/2+1)-th smallest, which are one for odd `n`.
   */
  lemma MedianIsMiddleOfList(xs: seq<real>) returns (a: real, b: real)
    requires xs != []
    ensures IsKthSmallest(a, xs, (|xs| + 1) / 2) && IsKthSmallest(b, xs, |xs| / 2 + 1)
    ensures Median(xs) == Some((a + b) / 2.0)
  {
    var i, j := (|xs| - 1) / 2, |xs| / 2;
    assert i + 1 == (|xs| + 1) / 2;
    a, b := SortedReals(xs)[i], SortedReals(xs)[j];
    assert Median(xs) == Some((a + b) / 2.0) by {
      MedianIsMiddle(xs);
    }
    PlaceIsKth(xs, i);
    PlaceIsKth(xs, j);
  }

  lemma CeilBounds(x: real)
    ensures x <= Ceil(x) as real < x + 1.0
  {
  }

  lemma PlaceOfShare(share: real, n: nat)
    requires 0.0 < share <= n as real
    ensures share <= (Place(share, n) + 1) as real < share + 1.0
  {
    CeilBounds(share);
    assert 0 < Ceil(share) <= n;
  }

  lemma RankOfShare(s: seq<real>, share: real)
    requires s != [] && 0.0 < share <= |s| as real
    requires forall i, j | 0 <= i < j < |s| :: s[i] <= s[j]
    ensures var v := s[Place(share, |s|)];
            CountAtMost(v, s) as real >= share && (CountBelow(v, s) as real) < share
  {
    var i := Place(share, |s|);
    PlaceOfShare(share, |s|);
    CountAtMostAtLeast(s[i], s, i + 1);
    CountBelowAtMost(s[i], s, i);
  }

  /**
   * Nearest rank, without reference to positions: at least a `q` share of the sample is at or below
   * the quantile, and less than a `q` share is strictly below it.
   */
  lemma {:induction false} QuantIsNearestRank(s: seq<real>, q: real)
    requires s != [] && 0.0 < q <= 1.0
    requires forall i, j | 0 <= i < j < |s| :: s[i] <= s[j]
    ensures var v := Quant(s, q).value;
            && CountAtMost(v, s) as real >= q * |s| as real
            && CountBelow(v, s) as real < q * |s| as real
  {
    var share := Times(|s|, q);
    TimesOfShare(|s|, q);
    RankOfShare(s, share);
    assert share == q * |s| as real by {
      TimesIsShare(|s|, q);
    }
  }

  lemma PlaceRises(s: seq<real>, a: real, b: real)
    requires s != [] && a <= b
    requires forall i, j | 0 <= i < j < |s| :: s[i] <= s[j]
    ensures s[Place(a, |s|)] <= s[Place(b, |s|)]
  {
    CeilBounds(a);
    CeilBounds(b);
    var i, j := Place(a, |s|), Place(b, |s|);
    assert i <= j;
  }

  /** A percentile interval is never inverted. */
  lemma QuantMonotone(s: seq<real>, p: real, q: real)
    requires s != [] && p <= q
    requires forall i, j | 0 <= i < j < |s| :: s[i] <= s[j]
    ensures Quant(s, p).value <= Quant(s, q).value
  {
    TimesRises(|s|, p, q);
    PlaceRises(s, Times(|s|, p), Times(|s|, q));
  }
}
