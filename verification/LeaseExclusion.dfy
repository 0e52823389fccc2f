/**
 * Mutual exclusion.  Nobody grants a slot, so two nodes keep out of each other's way only because
 * their clocks nearly agree and every frame ends a guard before its slot does.  `clock(tau)` is what
 * a node's clock shows at true time `tau`.  Clocks have offsets, run fast or slow, and wander: all
 * that is asked of them is asked over the window of true time in which the frames are sent.
 */
module LeaseExclusion {
  import opened Prelude
  import DivMod
  import opened Lease

  type Clock = real -> real

  /** A stretch of true time. */
  datatype Window = Window(opens: real, closes: real) {
    predicate Holds(tau: real) {
      opens <= tau <= closes
    }
  }

  /** Clocks that differ by at most `d` at every true instant of the window. */
  ghost predicate Agree(clocks: seq<Clock>, d: real, w: Window) {
    forall i, j, tau: real | 0 <= i < |clocks| && 0 <= j < |clocks| && w.Holds(tau) ::
      AbsReal(clocks[i](tau) - clocks[j](tau)) <= d
  }

  /** A clock that runs forward and gains at most `k` on true time in any `span` of the window. */
  ghost predicate KeepsTime(c: Clock, k: real, span: real, w: Window) {
    forall t: real, u: real | w.Holds(t) && w.Holds(u) && t <= u <= t + span :: c(t) <= c(u) <= c(t) + (u - t) + k
  }

  /**
   * A frame for name hash `hash`, checked for the instant `at` of `node`'s own clock, and on the air
   * from true time `launch` on.
   */
  datatype Transmission = Transmission(node: nat, hash: U64, at: nat, launch: real, airtime: U64)

  predicate OnAir(tx: Transmission, tau: real) {
    tx.launch <= tau < tx.launch + tx.airtime as real
  }

  predicate During(w: Window, tx: Transmission) {
    w.Holds(tx.launch) && w.Holds(tx.launch + tx.airtime as real)
  }

  /**
   * What the driver checks, and how well it keeps to it: the frame fits at `at`, and leaves at most
   * `late` after that by the sender's clock, the microsecond lost to truncation included.
   */
  predicate Permitted(g: LeaseGrid, clocks: seq<Clock>, late: real, tx: Transmission)
    requires g.Valid()
  {
    && tx.node < |clocks|
    && g.FitsAt(tx.hash, tx.at, tx.airtime) && g.PhaseInSlotUs(tx.at) + tx.airtime <= U64_MAX
    && tx.at as real <= clocks[tx.node](tx.launch) <= tx.at as real + late
  }

  /** A frame that fits keeps, from its own instant on, inside the usable part of one epoch of its owner. */
  lemma FitsInsideEpoch(g: LeaseGrid, hash: U64, at: nat, airtime: U64) returns (e: nat)
    requires g.Valid() && g.FitsAt(hash, at, airtime) && g.PhaseInSlotUs(at) + airtime <= U64_MAX
    ensures e % g.slots == g.OwnerSlot(hash)
    ensures e * g.slotUs <= at && at + airtime <= (e + 1) * g.slotUs - g.guardUs
    ensures airtime <= g.slotUs
  {
    e := g.Epoch(at);
    EpochCharacterised(g, at, e);
    FitsAtMeansRoomExactly(g, hash, at, airtime);
    assert (e + 1) * g.slotUs == e * g.slotUs + g.slotUs;
  }

  /** While a permitted frame is on the air its sender's clock stays in the usable part of one epoch. */
  lemma OnAirConfinesOwnClock(g: LeaseGrid, clocks: seq<Clock>, late: real, k: real, w: Window, tx: Transmission,
                              tau: real) returns (e: nat)
    requires g.Valid() && Permitted(g, clocks, late, tx) && During(w, tx) && OnAir(tx, tau)
    requires KeepsTime(clocks[tx.node], k, g.slotUs as real, w)
    ensures e % g.slots == g.OwnerSlot(tx.hash)
    ensures (e * g.slotUs) as real <= clocks[tx.node](tau)
    ensures clocks[tx.node](tau) < ((e + 1) * g.slotUs - g.guardUs) as real + k + late
  {
    var c := clocks[tx.node];
    e := FitsInsideEpoch(g, tx.hash, tx.at, tx.airtime);
    assert w.Holds(tx.launch) && w.Holds(tau);
    assert c(tx.launch) <= c(tau) <= c(tx.launch) + (tau - tx.launch) + k;
  }

  /** Two names' epochs differ, and the earlier one ends a guard before the later one begins. */
  lemma EpochsAreAGuardApart(g: LeaseGrid, e: nat, f: nat)
    requires g.Valid() && e < f
    ensures (e + 1) * g.slotUs - g.guardUs <= f * g.slotUs - g.guardUs
  {
    DivMod.Monotone(g.slotUs, e + 1, f);
  }

  /** A clock still short of one epoch's end and another already past the next one's start differ by the guard. */
  lemma ReadingsApart(close: int, open: int, guard: int, early: real, later: real, slack: real)
    requires close + guard <= open
    requires early < close as real + slack && open as real <= later
    ensures later - early > guard as real - slack
  {
  }

  lemma EarlierEpochIsOver(g: LeaseGrid, e: nat, f: nat, early: real, later: real, slack: real)
    requires g.Valid() && e < f
    requires early < ((e + 1) * g.slotUs - g.guardUs) as real + slack && (f * g.slotUs) as real <= later
    ensures later - early > g.guardUs as real - slack
  {
    EpochsAreAGuardApart(g, e, f);
    ReadingsApart((e + 1) * g.slotUs - g.guardUs, f * g.slotUs, g.guardUs, early, later, slack);
  }

  /** Clocks that agree within what the guard leaves are in one epoch. */
  lemma SameEpoch(g: LeaseGrid, e: nat, f: nat, x: real, y: real, slack: real)
    requires g.Valid() && AbsReal(x - y) <= g.guardUs as real - slack
    requires (e * g.slotUs) as real <= x < ((e + 1) * g.slotUs - g.guardUs) as real + slack
    requires (f * g.slotUs) as real <= y < ((f + 1) * g.slotUs - g.guardUs) as real + slack
    ensures e == f
  {
    if e < f {
      EarlierEpochIsOver(g, e, f, x, y, slack);
    } else if f < e {
      EarlierEpochIsOver(g, f, e, y, x, slack);
    }
  }

  lemma TwoOwnersApart(g: LeaseGrid, clocks: seq<Clock>, d: real, late: real, k: real, w: Window, a: Transmission,
                       b: Transmission, tau: real)
    requires g.Valid() && Permitted(g, clocks, late, a) && Permitted(g, clocks, late, b)
    requires During(w, a) && During(w, b) && OnAir(a, tau) && OnAir(b, tau)
    requires AbsReal(clocks[a.node](tau) - clocks[b.node](tau)) <= d
    requires KeepsTime(clocks[a.node], k, g.slotUs as real, w) && KeepsTime(clocks[b.node], k, g.slotUs as real, w)
    requires d + k + late <= g.guardUs as real
    ensures g.OwnerSlot(a.hash) == g.OwnerSlot(b.hash)
  {
    var e := OnAirConfinesOwnClock(g, clocks, late, k, w, a, tau);
    var f := OnAirConfinesOwnClock(g, clocks, late, k, w, b, tau);
    SameEpoch(g, e, f, clocks[a.node](tau), clocks[b.node](tau), k + late);
  }

  lemma AgreeAt(clocks: seq<Clock>, d: real, w: Window, i: nat, j: nat, tau: real)
    requires Agree(clocks, d, w) && i < |clocks| && j < |clocks| && w.Holds(tau)
    ensures AbsReal(clocks[i](tau) - clocks[j](tau)) <= d
  {
  }

  lemma PairIsExclusive(g: LeaseGrid, clocks: seq<Clock>, d: real, late: real, k: real, w: Window, a: Transmission,
                        b: Transmission, tau: real)
    requires g.Valid() && Agree(clocks, d, w) && d + k + late <= g.guardUs as real
    requires forall i | 0 <= i < |clocks| :: KeepsTime(clocks[i], k, g.slotUs as real, w)
    requires Permitted(g, clocks, late, a) && Permitted(g, clocks, late, b)
    requires During(w, a) && During(w, b) && OnAir(a, tau) && OnAir(b, tau)
    ensures g.OwnerSlot(a.hash) == g.OwnerSlot(b.hash)
  {
    AgreeAt(clocks, d, w, a.node, b.node, tau);
    TwoOwnersApart(g, clocks, d, late, k, w, a, b, tau);
  }

  /** No two frames of names with different owner slots are on the air at one instant. */
  ghost predicate Exclusive(g: LeaseGrid, txs: seq<Transmission>)
    requires g.Valid()
  {
    forall i, j, tau: real | 0 <= i < |txs| && 0 <= j < |txs| && OnAir(txs[i], tau) && OnAir(txs[j], tau) ::
      g.OwnerSlot(txs[i].hash) == g.OwnerSlot(txs[j].hash)
  }

  /**
   * No two permitted frames of names with different owner slots are ever on the air together, for
   * any number of nodes, when over the window of their transmissions the clocks' disagreement, their
   * gain over one slot, and the placement lateness fit in the guard.
   */
  lemma {:induction false} NoTwoOwnersOnAir(g: LeaseGrid, clocks: seq<Clock>, d: real, late: real, k: real, w: Window,
                                            txs: seq<Transmission>)
    requires g.Valid()
    requires Agree(clocks, d, w)
    requires forall i | 0 <= i < |clocks| :: KeepsTime(clocks[i], k, g.slotUs as real, w)
    requires d + k + late <= g.guardUs as real
    requires forall i | 0 <= i < |txs| :: Permitted(g, clocks, late, txs[i]) && During(w, txs[i])
    ensures Exclusive(g, txs)
  {
    forall i, j, tau: real | 0 <= i < |txs| && 0 <= j < |txs| && OnAir(txs[i], tau) && OnAir(txs[j], tau)
      ensures g.OwnerSlot(txs[i].hash) == g.OwnerSlot(txs[j].hash)
    {
      PairIsExclusive(g, clocks, d, late, k, w, txs[i], txs[j], tau);
    }
  }

  // ---- clocks that run at different rates ---------------------------------------------------------

  /** A clock that is `offset` ahead at true time zero and gains `rate` for every unit of true time. */
  function Skewed(offset: real, rate: real): Clock {
    (tau: real) => offset + (1.0 + rate) * tau
  }

  lemma RateGain(rate: real, r: real, x: real, span: real)
    requires -r <= rate <= r && 0.0 <= x <= span
    ensures -(r * span) <= rate * x <= r * span
    ensures r <= 1.0 ==> 0.0 <= x + rate * x
  {
    assert (r - rate) * x >= 0.0 && (r + rate) * x >= 0.0 && r * (span - x) >= 0.0;
    assert r <= 1.0 ==> (1.0 + rate) * x >= 0.0;
  }

  lemma SkewedStep(offset: real, rate: real, t: real, x: real)
    ensures Skewed(offset, rate)(t + x) == Skewed(offset, rate)(t) + x + rate * x
  {
  }

  /** Over at most `span` a clock of rate error at most `r` runs forward, and gains or loses at most `r` times that. */
  lemma SkewedOver(offset: real, rate: real, r: real, span: real, t: real, u: real)
    requires -r <= rate <= r <= 1.0 && t <= u <= t + span
    ensures var c := Skewed(offset, rate);
            && c(t) <= c(u)
            && c(t) + (u - t) - r * span <= c(u) <= c(t) + (u - t) + r * span
  {
    var x := u - t;
    RateGain(rate, r, x, span);
    SkewedStep(offset, rate, t, x);
    assert t + x == u;
  }

  lemma SkewedKeepsTime(offset: real, rate: real, r: real, span: real, w: Window)
    requires -r <= rate <= r <= 1.0
    ensures KeepsTime(Skewed(offset, rate), r * span, span, w)
  {
    var c := Skewed(offset, rate);
    forall t: real, u: real | w.Holds(t) && w.Holds(u) && t <= u <= t + span
      ensures c(t) <= c(u) <= c(t) + (u - t) + r * span
    {
      SkewedOver(offset, rate, r, span, t, u);
    }
  }

  lemma DriftApart(x0: real, y0: real, x: real, y: real, t: real, b: real, gain: real)
    requires AbsReal(x0 - y0) <= b
    requires x0 + t - gain <= x <= x0 + t + gain && y0 + t - gain <= y <= y0 + t + gain
    ensures AbsReal(x - y) <= b + 2.0 * gain
  {
  }

  /** Two such clocks drift apart by at most twice `r` times the window. */
  lemma SkewedClocksAgree(c: (real, real), e: (real, real), b: real, r: real, w: Window, tau: real)
    requires -r <= c.1 <= r <= 1.0 && -r <= e.1 <= r && w.Holds(tau)
    requires AbsReal(Skewed(c.0, c.1)(w.opens) - Skewed(e.0, e.1)(w.opens)) <= b
    ensures AbsReal(Skewed(c.0, c.1)(tau) - Skewed(e.0, e.1)(tau)) <= b + 2.0 * (r * (w.closes - w.opens))
  {
    var span := w.closes - w.opens;
    SkewedOver(c.0, c.1, r, span, w.opens, tau);
    SkewedOver(e.0, e.1, r, span, w.opens, tau);
    var x, y := Skewed(c.0, c.1), Skewed(e.0, e.1);
    DriftApart(x(w.opens), y(w.opens), x(tau), y(tau), tau - w.opens, b, r * span);
  }

  /**
   * Free-running clocks: nodes whose rates are off by at most `r` and whose clocks agree to `b` when
   * the window opens exclude each other until the window closes, while the drift apart over the
   * window, the gain over a slot and the lateness fit in the guard with `b`.
   */
  lemma {:induction false} SkewedNodesExcludeEachOther(
    g: LeaseGrid, clocks: seq<Clock>, laws: seq<(real, real)>, b: real, r: real, late: real, w: Window,
    txs: seq<Transmission>)
    requires g.Valid() && |laws| == |clocks| && r <= 1.0
    requires forall i | 0 <= i < |clocks| :: clocks[i] == Skewed(laws[i].0, laws[i].1) && -r <= laws[i].1 <= r
    requires forall i, j | 0 <= i < |clocks| && 0 <= j < |clocks| ::
               AbsReal(clocks[i](w.opens) - clocks[j](w.opens)) <= b
    requires b + 2.0 * (r * (w.closes - w.opens)) + r * g.slotUs as real + late <= g.guardUs as real
    requires forall i | 0 <= i < |txs| :: Permitted(g, clocks, late, txs[i]) && During(w, txs[i])
    ensures Exclusive(g, txs)
  {
    var span, d := g.slotUs as real, b + 2.0 * (r * (w.closes - w.opens));
    forall i | 0 <= i < |clocks|
      ensures KeepsTime(clocks[i], r * span, span, w)
    {
      SkewedKeepsTime(laws[i].0, laws[i].1, r, span, w);
    }
    forall i, j, tau: real | 0 <= i < |clocks| && 0 <= j < |clocks| && w.Holds(tau)
      ensures AbsReal(clocks[i](tau) - clocks[j](tau)) <= d
    {
      assert AbsReal(clocks[i](w.opens) - clocks[j](w.opens)) <= b;
      SkewedClocksAgree(laws[i], laws[j], b, r, w, tau);
    }
    NoTwoOwnersOnAir(g, clocks, d, late, r * span, w, txs);
  }

  /** Half the relative rate of two bench clocks that drift 78 us apart in 90 s, rounded up. */
  const BENCH_RATE: real := 0.00000044

  /** Placement lateness measured at the 99.9th percentile. */
  const BENCH_LATE: real := 896.0

  /** Ten-millisecond slots, a guard of one, and clocks of the bench's drift that start within 24 us for 90 s. */
  ghost predicate OnBench(g: LeaseGrid, clocks: seq<Clock>, laws: seq<(real, real)>, w: Window) {
    && g.Valid() && g.slotUs == 10_000 && g.guardUs == 1_000
    && |laws| == |clocks| && w.closes - w.opens <= 90_000_000.0
    && (forall i | 0 <= i < |clocks| ::
          clocks[i] == Skewed(laws[i].0, laws[i].1) && -BENCH_RATE <= laws[i].1 <= BENCH_RATE)
    && (forall i, j | 0 <= i < |clocks| && 0 <= j < |clocks| ::
          AbsReal(clocks[i](w.opens) - clocks[j](w.opens)) <= 24.0)
  }

  lemma BenchNodesExcludeEachOther(g: LeaseGrid, clocks: seq<Clock>, laws: seq<(real, real)>, w: Window,
                                   txs: seq<Transmission>)
    requires OnBench(g, clocks, laws, w)
    requires forall i | 0 <= i < |txs| :: Permitted(g, clocks, BENCH_LATE, txs[i]) && During(w, txs[i])
    ensures Exclusive(g, txs)
  {
    SkewedNodesExcludeEachOther(g, clocks, laws, 24.0, BENCH_RATE, BENCH_LATE, w, txs);
  }

  /** Such nodes exist: two clocks of different rates, each sending in its own slot. */
  lemma BenchNodesExist() returns (g: LeaseGrid, clocks: seq<Clock>, laws: seq<(real, real)>, w: Window,
                                   txs: seq<Transmission>)
    ensures OnBench(g, clocks, laws, w) && |clocks| == |txs| == 2 && laws[0].1 != laws[1].1
    ensures forall i | 0 <= i < |txs| :: Permitted(g, clocks, BENCH_LATE, txs[i]) && During(w, txs[i])
    ensures g.OwnerSlot(txs[0].hash) != g.OwnerSlot(txs[1].hash)
  {
    g, w := LeaseGrid(10_000, 2, 1_000), Window(0.0, 90_000_000.0);
    laws := [(0.0, 0.0), (10.0, BENCH_RATE)];
    clocks := [Skewed(0.0, 0.0), Skewed(10.0, BENCH_RATE)];
    txs := [Transmission(0, 0, 0, 0.0, 9_000), Transmission(1, 1, 10_000, 9_990.0, 9_000)];
    assert clocks[0](0.0) == 0.0 && clocks[1](0.0) == 10.0;
  }

  // ---- the guard is exactly the clock error it absorbs ------------------------------------------

  /** A frame as its own sender's clock sees it: launch reading and airtime. */
  datatype Frame = Frame(hash: U64, at: nat, airtime: U64)

  /** The check's 64-bit sum of phase and airtime does not wrap. */
  predicate Sized(g: LeaseGrid, a: Frame)
    requires g.Valid()
  {
    g.PhaseInSlotUs(a.at) + a.airtime <= U64_MAX
  }

  /** Two frames of different owners that both pass the driver's check. */
  predicate RivalsFit(g: LeaseGrid, a: Frame, b: Frame)
    requires g.Valid()
  {
    && g.OwnerSlot(a.hash) != g.OwnerSlot(b.hash)
    && g.FitsAt(a.hash, a.at, a.airtime) && Sized(g, a)
    && g.FitsAt(b.hash, b.at, b.airtime) && Sized(g, b)
  }

  /** The frames share an instant when `b`'s clock runs `offset` ahead of `a`'s. */
  predicate Collide(a: Frame, b: Frame, offset: int) {
    a.at < b.at - offset + b.airtime && b.at - offset < a.at + a.airtime
  }

  /** On microsecond clocks that differ by at most `d`, permitted frames of different owners never collide. */
  ghost predicate SafeWithin(g: LeaseGrid, d: nat)
    requires g.Valid()
  {
    forall a: Frame, b: Frame, offset: int | RivalsFit(g, a, b) && offset <= d && -offset <= d ::
      !Collide(a, b, offset)
  }

  lemma GuardIsEnough(g: LeaseGrid, a: Frame, b: Frame, offset: int)
    requires g.Valid() && RivalsFit(g, a, b)
    requires offset <= g.guardUs && -offset <= g.guardUs
    ensures !Collide(a, b, offset)
  {
    var e := FitsInsideEpoch(g, a.hash, a.at, a.airtime);
    var f := FitsInsideEpoch(g, b.hash, b.at, b.airtime);
    if e < f {
      EpochsAreAGuardApart(g, e, f);
    } else {
      EpochsAreAGuardApart(g, f, e);
    }
  }

  /** One microsecond more than the guard, and a full-length frame in slot 0 meets the start of slot 1. */
  lemma BeyondGuardCollides(g: LeaseGrid)
    requires g.Valid()
    ensures !SafeWithin(g, g.guardUs + 1)
  {
    var a, b := Frame(0, 0, g.UsableUs()), Frame(1, g.slotUs, 1);
    FirstTwoSlots(g);
    WrappedSum(0, g.UsableUs());
    WrappedSum(0, 1);
    assert RivalsFit(g, a, b) && Collide(a, b, g.guardUs + 1);
  }

  lemma FirstTwoSlots(g: LeaseGrid)
    requires g.Valid()
    ensures g.OwnerSlot(0) == 0 && g.CurrentSlot(0) == 0 && g.PhaseInSlotUs(0) == 0
    ensures g.OwnerSlot(1) == 1 && g.CurrentSlot(g.slotUs) == 1 && g.PhaseInSlotUs(g.slotUs) == 0
  {
    DivMod.Unique(0, g.slotUs, 0, 0);
    DivMod.Unique(g.slotUs, g.slotUs, 1, 0);
    DivMod.Unique(0, g.slots, 0, 0);
    DivMod.Unique(1, g.slots, 0, 1);
  }

  /** Safety within a clock disagreement is exactly that disagreement not exceeding the guard. */
  lemma {:induction false} GuardIsExactlyTheTolerance(g: LeaseGrid, d: nat)
    requires g.Valid()
    ensures SafeWithin(g, d) <==> d <= g.guardUs
  {
    if d <= g.guardUs {
      forall a: Frame, b: Frame, offset: int | RivalsFit(g, a, b) && offset <= d && -offset <= d
        ensures !Collide(a, b, offset)
      {
        GuardIsEnough(g, a, b, offset);
      }
    } else {
      BeyondGuardCollides(g);
    }
  }

  // ---- the weaker rule ---------------------------------------------------------------------------

  predicate RivalsEndInside(g: LeaseGrid, a: Frame, b: Frame)
    requires g.Valid()
  {
    && g.OwnerSlot(a.hash) != g.OwnerSlot(b.hash)
    && g.EndsInsideSlot(a.hash, a.at, a.airtime) && Sized(g, a)
    && g.EndsInsideSlot(b.hash, b.at, b.airtime) && Sized(g, b)
  }

  ghost predicate EndsSafeWithin(g: LeaseGrid, d: nat)
    requires g.Valid()
  {
    forall a: Frame, b: Frame, offset: int | RivalsEndInside(g, a, b) && offset <= d && -offset <= d ::
      !Collide(a, b, offset)
  }

  lemma EndsInsideEpoch(g: LeaseGrid, a: Frame) returns (e: nat)
    requires g.Valid() && g.EndsInsideSlot(a.hash, a.at, a.airtime) && Sized(g, a)
    ensures e % g.slots == g.OwnerSlot(a.hash)
    ensures e * g.slotUs <= a.at && a.at + a.airtime <= (e + 1) * g.slotUs
  {
    e := g.Epoch(a.at);
    EpochCharacterised(g, a.at, e);
    WrappedSum(g.PhaseInSlotUs(a.at), a.airtime);
    assert (e + 1) * g.slotUs == e * g.slotUs + g.slotUs;
  }

  lemma EqualClocksSuffice(g: LeaseGrid, a: Frame, b: Frame)
    requires g.Valid() && RivalsEndInside(g, a, b)
    ensures !Collide(a, b, 0)
  {
    var e := EndsInsideEpoch(g, a);
    var f := EndsInsideEpoch(g, b);
    if e < f {
      EpochsAreAGuardApart(g, e, f);
    } else {
      EpochsAreAGuardApart(g, f, e);
    }
  }

  /** One microsecond apart, a frame that fills slot 0 meets the start of slot 1. */
  lemma OneMicrosecondCollides(g: LeaseGrid)
    requires g.Valid()
    ensures !EndsSafeWithin(g, 1)
  {
    var a, b := Frame(0, 0, g.slotUs), Frame(1, g.slotUs, 1);
    FirstTwoSlots(g);
    WrappedSum(0, g.slotUs);
    WrappedSum(0, 1);
    assert RivalsEndInside(g, a, b) && Collide(a, b, 1);
  }

  /** Ending inside the slot is enough exactly on clocks that agree to the microsecond. */
  lemma {:induction false} EndsInsideSlotNeedsPerfectClocks(g: LeaseGrid, d: nat)
    requires g.Valid()
    ensures EndsSafeWithin(g, d) <==> d == 0
  {
    if d == 0 {
      forall a: Frame, b: Frame, offset: int | RivalsEndInside(g, a, b) && offset <= d && -offset <= d
        ensures !Collide(a, b, offset)
      {
        EqualClocksSuffice(g, a, b);
      }
    } else {
      OneMicrosecondCollides(g);
    }
  }
}
