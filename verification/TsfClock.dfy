/** Reading a running 64-bit counter through two 32-bit registers. */
module TsfClock {
  import opened Prelude

  const HALF: nat := 0x1_0000_0000

  /** The counter at each instant: it never decreases and stays within 64 bits. */
  ghost predicate Counter(c: nat -> nat) {
    && (forall s, t :: s <= t ==> c(s) <= c(t))
    && (forall t :: c(t) < HALF * HALF)
  }

  function High(x: nat): nat {
    x / HALF
  }

  function Low(x: nat): nat {
    x % HALF
  }

  /** The instants of one call's register reads; the fourth happens only when the high word moved. */
  datatype Call = Call(t1: nat, t2: nat, t3: nat, t4: nat)

  predicate InOrder(k: Call) {
    k.t1 <= k.t2 <= k.t3 <= k.t4
  }

  predicate Moved(c: nat -> nat, k: Call) {
    High(c(k.t1)) != High(c(k.t3))
  }

  /** The instant of a call's last read. */
  function Last(c: nat -> nat, k: Call): nat {
    if Moved(c, k) then k.t4 else k.t3
  }

  /** What a call returns. */
  function Reading(c: nat -> nat, k: Call): nat {
    if Moved(c, k) then High(c(k.t3)) * HALF + Low(c(k.t4)) else High(c(k.t1)) * HALF + Low(c(k.t2))
  }

  lemma HalvesOrdered(x: nat, y: nat)
    requires x <= y
    ensures High(x) <= High(y)
    ensures High(x) * HALF + Low(y) <= y
    ensures High(x) == High(y) ==> High(x) * HALF + Low(y) == y
  {
  }

  /** However fast the counter runs, a reading lies between its values at the call's first and last read. */
  lemma ReadingIsWithinTheCall(c: nat -> nat, k: Call)
    requires Counter(c) && InOrder(k)
    ensures c(k.t1) <= Reading(c, k) <= c(Last(c, k))
  {
    HalvesOrdered(c(k.t1), c(k.t2));
    HalvesOrdered(c(k.t2), c(k.t3));
    HalvesOrdered(c(k.t3), c(k.t4));
    assert c(k.t1) <= c(k.t2) <= c(k.t3) <= c(k.t4);
  }

  /** While the counter advances less than 2^32 in a call, the reading is its value at one of the call's reads. */
  lemma ReadingWasHeld(c: nat -> nat, k: Call)
    requires Counter(c) && InOrder(k) && c(k.t4) - c(k.t1) < HALF
    ensures Reading(c, k) == if Moved(c, k) then c(k.t4) else c(k.t2)
  {
    HalvesOrdered(c(k.t1), c(k.t2));
    HalvesOrdered(c(k.t2), c(k.t3));
    HalvesOrdered(c(k.t3), c(k.t4));
    assert c(k.t1) <= c(k.t2) <= c(k.t3) <= c(k.t4);
  }

  /**
   * The high word, the low word, the high word again, and the low word once more if the high one
   * moved; another clock domain is not answered.  The answer lies between the counter's values at the
   * first and the last of these reads, and below 2^32 ticks per call it is the value at one of them.
   */
  method ReadClock(c: nat -> nat, k: Call, domain: nat, own: nat) returns (r: Option<nat>)
    ensures r.None? <==> domain != own
    ensures r.Some? && Counter(c) && InOrder(k) ==>
              && c(k.t1) <= r.value <= c(Last(c, k))
              && (c(k.t4) - c(k.t1) < HALF ==> r.value == if Moved(c, k) then c(k.t4) else c(k.t2))
    ensures r.Some? ==> r.value == Reading(c, k)
  {
    if domain != own {
      return None;
    }
    var hi1 := High(c(k.t1));
    var lo := Low(c(k.t2));
    var hi2 := High(c(k.t3));
    var hi := hi1;
    if hi1 != hi2 {
      hi, lo := hi2, Low(c(k.t4));
    }
    r := Some(hi * HALF + lo);
    if Counter(c) && InOrder(k) {
      ReadingIsWithinTheCall(c, k);
      if c(k.t4) - c(k.t1) < HALF {
        ReadingWasHeld(c, k);
      }
    }
  }

  ghost predicate Ticking(c: nat -> nat) {
    forall s: nat :: c(s + 1) <= c(s) + 1
  }

  /** A counter that steps by one held every reading at some instant of the call, however long the call took. */
  lemma TickingCounterHeldReading(c: nat -> nat, k: Call)
    requires Counter(c) && InOrder(k) && Ticking(c)
    ensures exists t: nat :: k.t1 <= t <= Last(c, k) && c(t) == Reading(c, k)
  {
    ReadingIsWithinTheCall(c, k);
    var t := Crossing(c, k.t1, Last(c, k), Reading(c, k));
  }

  /** An instant at which a unit-step counter passes a value between two of its own. */
  lemma {:induction false} Crossing(c: nat -> nat, first: nat, last: nat, v: nat) returns (t: nat)
    requires first <= last && c(first) <= v <= c(last) && Ticking(c)
    ensures first <= t <= last && c(t) == v
    decreases last - first
  {
    if c(first) == v {
      t := first;
    } else {
      assert c(first + 1) <= c(first) + 1;
      t := Crossing(c, first + 1, last, v);
    }
  }

  /** A call that starts when the one before has ended, or later, reads no earlier value. */
  lemma NextReadingIsNoEarlier(c: nat -> nat, k: Call, next: Call)
    requires Counter(c) && InOrder(k) && InOrder(next) && Last(c, k) <= next.t1
    ensures Reading(c, k) <= Reading(c, next)
  {
    ReadingIsWithinTheCall(c, k);
    ReadingIsWithinTheCall(c, next);
    assert c(Last(c, k)) <= c(next.t1);
  }

  predicate OneAfterAnother(c: nat -> nat, ks: seq<Call>) {
    && (forall n :: 0 <= n < |ks| ==> InOrder(ks[n]))
    && (forall n :: 0 < n < |ks| ==> Last(c, ks[n - 1]) <= ks[n].t1)
  }

  lemma {:induction false} NeighboursToAll(rs: seq<nat>, i: nat, j: nat)
    requires forall n :: 0 < n < |rs| ==> rs[n - 1] <= rs[n]
    requires i <= j < |rs|
    ensures rs[i] <= rs[j]
    decreases j - i
  {
    if i < j {
      NeighboursToAll(rs, i, j - 1);
    }
  }

  function Readings(c: nat -> nat, ks: seq<Call>): seq<nat> {
    seq(|ks|, n requires 0 <= n < |ks| => Reading(c, ks[n]))
  }

  lemma NeighbouringReadings(c: nat -> nat, ks: seq<Call>, n: nat)
    requires Counter(c) && OneAfterAnother(c, ks) && 0 < n < |ks|
    ensures Reading(c, ks[n - 1]) <= Reading(c, ks[n])
  {
    NextReadingIsNoEarlier(c, ks[n - 1], ks[n]);
  }

  /** Over any series of calls, none starting before the previous one ended, readings never go backwards. */
  lemma ReadingsNeverGoBack(c: nat -> nat, ks: seq<Call>, i: nat, j: nat)
    requires Counter(c) && OneAfterAnother(c, ks) && i <= j < |ks|
    ensures Readings(c, ks)[i] <= Readings(c, ks)[j]
  {
    var rs := Readings(c, ks);
    forall n | 0 < n < |ks|
      ensures rs[n - 1] <= rs[n]
    {
      NeighbouringReadings(c, ks, n);
    }
    NeighboursToAll(rs, i, j);
  }
}
