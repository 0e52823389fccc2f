/** The in-place shuffle that orders the arms of each round, given the generator's raw draws. */
module Shuffle {
  import opened Prelude
  import DivMod
  import Sorting

  /** A draw reduced to an index below `n`. */
  function Below(raw: nat, n: nat): nat {
    if n == 0 then 0 else raw % n
  }

  /** Of `n` words in a row each index comes from exactly one. */
  lemma BelowIsEven(first: nat, n: nat, j: nat) returns (raw: nat)
    requires j < n
    ensures first <= raw < first + n && Below(raw, n) == j
    ensures forall other | first <= other < first + n && Below(other, n) == j :: other == raw
  {
    DivMod.Split(first, n);
    var q := if first % n <= j then first / n else first / n + 1;
    raw := n * q + j;
    assert n * (first / n + 1) == n * (first / n) + n;
    DivMod.Unique(raw, n, q, j);
    forall other | first <= other < first + n && Below(other, n) == j
      ensures other == raw
    {
      DivMod.Split(other, n);
      SameRow(n, other / n, q, j, first);
    }
  }

  lemma SameRow(n: nat, p: nat, q: nat, j: nat, first: nat)
    requires n > 0 && first <= n * p + j < first + n && first <= n * q + j < first + n
    ensures p == q
  {
    assert n * (p + 1) == n * p + n && n * (q + 1) == n * q + n;
    if p < q {
      DivMod.Monotone(n, p + 1, q);
    } else if q < p {
      DivMod.Monotone(n, q + 1, p);
    }
  }

  function Swap<T>(s: seq<T>, i: nat, j: nat): (r: seq<T>)
    requires i < |s| && j < |s|
    ensures |r| == |s|
  {
    s[i := s[j]][j := s[i]]
  }

  /** Last place first: swap a chosen element into it, then shuffle the places before it. */
  function Shuffled<T>(s: seq<T>, raws: seq<nat>): (r: seq<T>)
    requires |raws| + 1 >= |s|
    ensures |r| == |s|
    decreases |s|
  {
    if |s| <= 1 then s
    else
      var last := |s| - 1;
      var t := Swap(s, last, Below(raws[0], last + 1));
      Shuffled(t[..last], raws[1..]) + [t[last]]
  }

  /** One step peeled off, for any split of the list into places still to shuffle and places done. */
  lemma ShuffleStep<T>(s: seq<T>, done: seq<T>, raws: seq<nat>)
    requires |s| > 1 && |raws| + 1 >= |s|
    ensures var t := Swap(s, |s| - 1, Below(raws[0], |s|));
            Shuffled(s, raws) + done == Shuffled(t[..|s| - 1], raws[1..]) + ([t[|s| - 1]] + done)
  {
  }

  lemma SwapSlices<T>(s: seq<T>, i: nat, j: nat)
    requires j <= i < |s|
    ensures Swap(s, i, j)[..i] == Swap(s[..i + 1], i, j)[..i]
    ensures Swap(s, i, j)[i..] == [Swap(s[..i + 1], i, j)[i]] + s[i + 1..]
  {
  }

  /** One turn of the loop on the list as a whole: places up to `i` are still to shuffle. */
  lemma ShuffleTurn<T>(s: seq<T>, i: nat, raws: seq<nat>)
    requires 0 < i < |s| && |raws| >= i
    ensures var t := Swap(s, i, Below(raws[0], i + 1));
            Shuffled(s[..i + 1], raws) + s[i + 1..] == Shuffled(t[..i], raws[1..]) + t[i..]
  {
    ShuffleStep(s[..i + 1], s[i + 1..], raws);
    SwapSlices(s, i, Below(raws[0], i + 1));
  }

  method SwapInArray<T>(v: array<T>, i: nat, j: nat)
    requires j <= i < v.Length
    modifies v
    ensures v[..] == Swap(old(v[..]), i, j)
  {
    v[i], v[j] := v[j], v[i];
  }

  method ShuffleInPlace<T>(v: array<T>, raws: seq<nat>)
    requires |raws| + 1 >= v.Length
    modifies v
    ensures v[..] == Shuffled(old(v[..]), raws)
  {
    var n, i := v.Length, v.Length;
    ghost var s := v[..];
    assert s[..i] == s && s[i..] == [] && raws[0..] == raws;
    while i > 1
      invariant 0 <= i <= n && (n > 0 ==> i > 0) && s == v[..] && |s| == n
      invariant Shuffled(s[..i], raws[n - i..]) + s[i..] == Shuffled(old(v[..]), raws)
    {
      ShuffleTurn(s, i - 1, raws[n - i..]);
      assert raws[n - i..][1..] == raws[n - (i - 1)..];
      i := i - 1;
      var j := Below(raws[n - (i + 1)], i + 1);
      SwapInArray(v, i, j);
      s := v[..];
    }
    assert s[..i] + s[i..] == s;
  }

  // ---- every order comes from exactly one choice of indices -----------------------------------------------

  /** One index per place from the last down to the second, each below the number of places left. */
  predicate Choices(js: seq<nat>, n: nat) {
    && |js| == Max(n - 1, 0)
    && forall t | 0 <= t < |js| :: js[t] < n - t
  }

  predicate Distinct<T(==)>(s: seq<T>) {
    forall i, j | 0 <= i < j < |s| :: s[i] != s[j]
  }

  lemma SwapMultiset<T>(s: seq<T>, i: nat, j: nat)
    requires i < |s| && j < |s|
    ensures multiset(Swap(s, i, j)) == multiset(s)
  {
  }

  lemma LastMultiset<T>(s: seq<T>)
    requires s != []
    ensures multiset(s) == multiset(s[..|s| - 1]) + multiset{s[|s| - 1]}
  {
    assert s == s[..|s| - 1] + [s[|s| - 1]];
  }

  lemma {:induction false} ShuffledMultiset<T>(s: seq<T>, raws: seq<nat>)
    requires |raws| + 1 >= |s|
    ensures multiset(Shuffled(s, raws)) == multiset(s)
    decreases |s|
  {
    if |s| > 1 {
      var last := |s| - 1;
      var j := Below(raws[0], last + 1);
      var t := Swap(s, last, j);
      SwapMultiset(s, last, j);
      ShuffledMultiset(t[..last], raws[1..]);
      LastMultiset(t);
      LastMultiset(Shuffled(s, raws));
      assert Shuffled(s, raws)[..last] == Shuffled(t[..last], raws[1..]);
    }
  }

  lemma ChoicesTail(js: seq<nat>, n: nat)
    requires Choices(js, n) && n > 1
    ensures Choices(js[1..], n - 1) && Below(js[0], n) == js[0]
  {
    forall t | 0 <= t < |js[1..]|
      ensures js[1..][t] < n - 1 - t
    {
      assert js[1..][t] == js[t + 1];
    }
  }

  lemma SwapDistinct<T>(s: seq<T>, j: nat)
    requires Distinct(s) && j < |s|
    ensures Distinct(Swap(s, |s| - 1, j)) && Distinct(Swap(s, |s| - 1, j)[..|s| - 1])
  {
  }

  lemma SnocParts<T>(x: seq<T>, p: T, y: seq<T>, q: T)
    requires x + [p] == y + [q]
    ensures x == y && p == q
  {
    assert |x + [p]| == |y + [q]|;
    assert (x + [p])[|x|] == (y + [q])[|y|];
    assert x == (x + [p])[..|x|] && y == (y + [q])[..|y|];
  }

  /** Different choices give different orders. */
  lemma {:induction false} ShuffleIsInjective<T>(s: seq<T>, a: seq<nat>, b: seq<nat>)
    requires Distinct(s) && Choices(a, |s|) && Choices(b, |s|)
    requires Shuffled(s, a) == Shuffled(s, b)
    ensures a == b
    decreases |s|
  {
    if |s| > 1 {
      var last := |s| - 1;
      ChoicesTail(a, |s|);
      ChoicesTail(b, |s|);
      var t, u := Swap(s, last, a[0]), Swap(s, last, b[0]);
      var x, y := Shuffled(t[..last], a[1..]), Shuffled(u[..last], b[1..]);
      SnocParts(x, t[last], y, u[last]);
      assert s[a[0]] == s[b[0]];
      SwapDistinct(s, a[0]);
      ShuffleIsInjective(t[..last], a[1..], b[1..]);
      assert a == [a[0]] + a[1..] && b == [b[0]] + b[1..];
    }
  }

  /** Some element can be swapped into the last place so that the rest rearranges the rest. */
  lemma ChooseLast<T>(s: seq<T>, target: seq<T>) returns (j: nat)
    requires multiset(s) == multiset(target) && s != [] && |target| == |s|
    ensures j < |s| && s[j] == target[|s| - 1]
    ensures multiset(Swap(s, |s| - 1, j)[..|s| - 1]) == multiset(target[..|s| - 1])
  {
    var last := |s| - 1;
    var x := target[last];
    assert x in multiset(s);
    j :| 0 <= j < |s| && s[j] == x;
    var t := Swap(s, last, j);
    SwapMultiset(s, last, j);
    LastMultiset(t);
    LastMultiset(target);
    Sorting.Cancel(multiset(t[..last]), multiset(target[..last]), x);
  }

  lemma ShuffledCons<T>(s: seq<T>, j: nat, rest: seq<nat>)
    requires |s| > 1 && j < |s| && Choices(rest, |s| - 1)
    ensures Shuffled(s, [j] + rest) == Shuffled(Swap(s, |s| - 1, j)[..|s| - 1], rest) + [s[j]]
  {
    var js := [j] + rest;
    assert js[1..] == rest && js[0] == j;
    BelowItself(j, |s|);
    ShuffleStep(s, [], js);
    SwapLast(s, j);
    assert Shuffled(s, js) + [] == Shuffled(s, js);
  }

  lemma BelowItself(j: nat, n: nat)
    requires j < n
    ensures Below(j, n) == j
  {
  }

  lemma SwapLast<T>(s: seq<T>, j: nat)
    requires j < |s|
    ensures [Swap(s, |s| - 1, j)[|s| - 1]] + [] == [s[j]]
  {
  }

  lemma ChoicesCons(j: nat, rest: seq<nat>, n: nat)
    requires n > 1 && j < n && Choices(rest, n - 1)
    ensures Choices([j] + rest, n)
  {
    var js := [j] + rest;
    forall t | 0 <= t < |js|
      ensures js[t] < n - t
    {
      assert t > 0 ==> js[t] == rest[t - 1];
    }
  }

  lemma OnlyArrangement<T>(s: seq<T>, target: seq<T>)
    requires |s| == 1 && |target| == 1 && multiset(s) == multiset(target)
    ensures s == target
  {
    assert target[0] in multiset(s);
  }

  /** Every order is the result of some choice. */
  lemma {:induction false} ShuffleIsSurjective<T>(s: seq<T>, target: seq<T>) returns (js: seq<nat>)
    requires multiset(s) == multiset(target) && |s| == |target|
    ensures Choices(js, |s|) && Shuffled(s, js) == target
    decreases |s|
  {
    js := [];
    if |s| == 1 {
      OnlyArrangement(s, target);
    } else if |s| > 1 {
      var last := |s| - 1;
      var j := ChooseLast(s, target);
      var rest := ShuffleIsSurjective(Swap(s, last, j)[..last], target[..last]);
      js := [j] + rest;
      ChoicesCons(j, rest, |s|);
      ShuffledCons(s, j, rest);
      assert target == target[..last] + [target[last]];
    }
  }

  /** Equally likely choices therefore give equally likely orders: one choice for each order. */
  lemma {:induction false} EveryOrderHasOneChoice<T(!new)>(s: seq<T>, target: seq<T>)
    requires Distinct(s) && multiset(s) == multiset(target)
    ensures exists js :: Choices(js, |s|) && Shuffled(s, js) == target
    ensures forall a, b | Choices(a, |s|) && Choices(b, |s|) && Shuffled(s, a) == target && Shuffled(s, b) == target ::
              a == b
  {
    assert |multiset(s)| == |multiset(target)|;
    var js := ShuffleIsSurjective(s, target);
    forall a, b | Choices(a, |s|) && Choices(b, |s|) && Shuffled(s, a) == target && Shuffled(s, b) == target
      ensures a == b
    {
      ShuffleIsInjective(s, a, b);
    }
  }
}
