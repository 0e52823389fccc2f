/**
 * The named airtime lease: the slot geometry a name's transmissions are confined to.  A name owns
 * the slot its hash falls in, so ownership is computed from the name and a shared clock.
 */
module Lease {
  import opened Prelude
  import DivMod

  const MIN_SLOT_US: nat := 2_000
  const MIN_GUARD_US: nat := 1_000
  const U64_MAX: nat := 0xffff_ffff_ffff_ffff

  type U64 = n: int | 0 <= n <= U64_MAX

  datatype GridError =
    | SlotBelowFloor(slotUs: U64)
    | GuardBelowFloor(guardUs: U64)
    | GuardSwallowsSlot(slotUs: U64, guardUs: U64)
    | TooFewSlots(slots: U64)

  function SaturatingAdd(a: U64, b: U64): U64 {
    if a + b > U64_MAX then U64_MAX else a + b
  }

  /** `slots` slots of `slotUs` each, the last `guardUs` of every slot kept as dead air. */
  datatype LeaseGrid = LeaseGrid(slotUs: U64, slots: U64, guardUs: U64) {

    /** What every constructor, including the bench one, guarantees. */
    predicate Valid() {
      slots >= 2 && guardUs < slotUs
    }

    function SuperframeUs(): nat {
      slotUs * slots
    }

    function UsableUs(): nat
      requires Valid()
    {
      slotUs - guardUs
    }

    function OwnerSlot(hash: U64): nat
      requires Valid()
    {
      hash % slots
    }

    function Epoch(now: nat): nat
      requires Valid()
    {
      now / slotUs
    }

    function CurrentSlot(now: nat): nat
      requires Valid()
    {
      Epoch(now) % slots
    }

    function PhaseInSlotUs(now: nat): nat
      requires Valid()
    {
      now % slotUs
    }

    predicate OwnsNow(hash: U64, now: nat)
      requires Valid()
    {
      OwnerSlot(hash) == CurrentSlot(now)
    }

    predicate InsideLease(hash: U64, at: nat)
      requires Valid()
    {
      OwnsNow(hash, at) && PhaseInSlotUs(at) < UsableUs()
    }

    /** Launch phase plus airtime, a 64-bit sum that wraps. */
    function EndPhaseUs(at: nat, airtime: U64): U64
      requires Valid()
    {
      (PhaseInSlotUs(at) + airtime) % (U64_MAX + 1)
    }

    predicate FitsAt(hash: U64, at: nat, airtime: U64)
      requires Valid()
    {
      InsideLease(hash, at) && EndPhaseUs(at, airtime) <= UsableUs()
    }

    predicate EndsInsideSlot(hash: U64, at: nat, airtime: U64)
      requires Valid()
    {
      OwnsNow(hash, at) && EndPhaseUs(at, airtime) <= slotUs
    }

    function WaitUs(hash: U64, now: nat): int
      requires Valid()
    {
      var cur := Epoch(now);
      var curSlot := cur % slots;
      var owner := OwnerSlot(hash);
      if owner == curSlot then 0
      else
        var ahead := (owner + slots - curSlot) % slots;
        (cur + ahead) * slotUs - now
    }

    function NextSlotStartUs(hash: U64, notBefore: nat): nat
      requires Valid()
    {
      var owner := OwnerSlot(hash);
      var nextEpoch := Epoch(notBefore) + 1;
      var curSlot := nextEpoch % slots;
      var ahead := (owner + slots - curSlot) % slots;
      (nextEpoch + ahead) * slotUs
    }

    function FollowingSlotStartUs(slotStart: nat): nat {
      slotStart + SuperframeUs()
    }

    /** An instant at which a slot owned by `hash` starts. */
    predicate OwnedBoundary(hash: U64, t: nat)
      requires Valid()
    {
      PhaseInSlotUs(t) == 0 && OwnsNow(hash, t)
    }
  }

  // ---- construction --------------------------------------------------------------------------

  function NewForFrame(slotUs: U64, slots: U64, guardUs: U64, frameCostUs: U64): (r: Result<LeaseGrid, GridError>) {
    if slots < 2 then Err(TooFewSlots(slots))
    else if guardUs < MIN_GUARD_US then Err(GuardBelowFloor(guardUs))
    else if guardUs >= slotUs then Err(GuardSwallowsSlot(slotUs, guardUs))
    else if slotUs < SaturatingAdd(guardUs, Max(frameCostUs, 1)) then Err(SlotBelowFloor(slotUs))
    else Ok(LeaseGrid(slotUs, slots, guardUs))
  }

  function New(slotUs: U64, slots: U64, guardUs: U64): Result<LeaseGrid, GridError> {
    NewForFrame(slotUs, slots, guardUs, MIN_SLOT_US - MIN_GUARD_US)
  }

  function ForMeasurement(slotUs: U64, slots: U64, guardUs: U64): Result<LeaseGrid, GridError> {
    if slots < 2 then Err(TooFewSlots(slots))
    else if guardUs >= slotUs then Err(GuardSwallowsSlot(slotUs, guardUs))
    else Ok(LeaseGrid(slotUs, slots, guardUs))
  }

  /**
   * An accepted geometry is a schedule whose slot holds one frame and its guard.  The saturating
   * sum lets exactly one slot width through without that: the widest one.
   */
  lemma AcceptedGridHoldsAFrame(slotUs: U64, slots: U64, guardUs: U64, frameCostUs: U64)
    ensures NewForFrame(slotUs, slots, guardUs, frameCostUs).Ok? <==>
            && slots >= 2
            && MIN_GUARD_US <= guardUs < slotUs
            && (guardUs + Max(frameCostUs, 1) <= slotUs || slotUs == U64_MAX)
    ensures NewForFrame(slotUs, slots, guardUs, frameCostUs).Ok? ==>
              var g := NewForFrame(slotUs, slots, guardUs, frameCostUs).value;
              g.Valid() && (slotUs < U64_MAX ==> g.UsableUs() >= Max(frameCostUs, 1))
    ensures New(slotUs, slots, guardUs).Ok? ==>
              ForMeasurement(slotUs, slots, guardUs) == New(slotUs, slots, guardUs)
  {
  }

  // ---- epochs --------------------------------------------------------------------------------

  /** The epoch is the only index whose slot contains the instant. */
  lemma {:induction false} EpochCharacterised(g: LeaseGrid, t: nat, e: nat)
    requires g.Valid()
    ensures g.Epoch(t) == e <==> e * g.slotUs <= t < (e + 1) * g.slotUs
    ensures t == g.Epoch(t) * g.slotUs + g.PhaseInSlotUs(t)
    ensures 0 <= g.PhaseInSlotUs(t) < g.slotUs
  {
    DivMod.Split(t, g.slotUs);
    assert (e + 1) * g.slotUs == g.slotUs * e + g.slotUs;
    if e * g.slotUs <= t < (e + 1) * g.slotUs {
      assert t == g.slotUs * e + (t - e * g.slotUs);
      DivMod.Unique(t, g.slotUs, e, t - e * g.slotUs);
    }
  }

  /** A slot boundary has phase zero and the epoch it was built from. */
  lemma BoundaryEpoch(g: LeaseGrid, e: nat)
    requires g.Valid()
    ensures g.Epoch(e * g.slotUs) == e && g.PhaseInSlotUs(e * g.slotUs) == 0
  {
    DivMod.Unique(e * g.slotUs, g.slotUs, e, 0);
  }

  lemma EpochMonotone(g: LeaseGrid, t: nat, u: nat)
    requires g.Valid() && t <= u
    ensures g.Epoch(t) <= g.Epoch(u)
  {
    EpochCharacterised(g, t, g.Epoch(t));
    EpochCharacterised(g, u, g.Epoch(u));
    if g.Epoch(u) < g.Epoch(t) {
      DivMod.Monotone(g.slotUs, g.Epoch(u) + 1, g.Epoch(t));
    }
  }

  /** The first epoch at or after `e` whose slot index is `owner`: what `wait` and `next` step by. */
  function Ahead(slots: nat, owner: nat, e: nat): nat
    requires slots > 0 && owner < slots
  {
    (owner + slots - e % slots) % slots
  }

  lemma AheadLandsOnOwner(slots: nat, owner: nat, e: nat)
    requires slots > 0 && owner < slots
    ensures Ahead(slots, owner, e) < slots
    ensures (e + Ahead(slots, owner, e)) % slots == owner
    ensures Ahead(slots, owner, e) == 0 <==> e % slots == owner
  {
    var r := e % slots;
    DivMod.Split(e, slots);
    var q := e / slots;
    if owner >= r {
      assert owner + slots - r == slots * 1 + (owner - r);
      DivMod.Unique(owner + slots - r, slots, 1, owner - r);
      assert e + (owner - r) == slots * q + owner;
      DivMod.Unique(e + (owner - r), slots, q, owner);
    } else {
      DivMod.Unique(owner + slots - r, slots, 0, owner + slots - r);
      assert e + (owner + slots - r) == slots * (q + 1) + owner;
      DivMod.Unique(e + (owner + slots - r), slots, q + 1, owner);
    }
  }

  /** No epoch strictly between `e` and the landing epoch has that slot index. */
  lemma AheadIsLeast(slots: nat, owner: nat, e: nat, k: nat)
    requires slots > 0 && owner < slots
    requires (e + k) % slots == owner
    ensures Ahead(slots, owner, e) <= k
  {
    AheadLandsOnOwner(slots, owner, e);
    var a := Ahead(slots, owner, e);
    if k < a {
      DivMod.Split(e + k, slots);
      DivMod.Split(e + a, slots);
      var p, q := (e + k) / slots, (e + a) / slots;
      assert a - k == slots * q - slots * p;
      assert slots * (p + 1) == slots * p + slots;
      if q <= p {
        DivMod.Monotone(slots, q, p);
      } else {
        DivMod.Monotone(slots, p + 1, q);
      }
    }
  }

  // ---- waiting for a turn --------------------------------------------------------------------

  /** An epoch from one to `slots` on starts later, and no more than a superframe on. */
  lemma StartsWithinSuperframe(slotUs: nat, slots: nat, e: nat, ahead: nat, now: nat)
    requires e * slotUs <= now < (e + 1) * slotUs && 0 < ahead <= slots
    ensures now < (e + ahead) * slotUs <= now + slots * slotUs
    ensures ahead < slots ==> (e + ahead) * slotUs < now + slots * slotUs
  {
    DivMod.Monotone(slotUs, 1, ahead);
    DivMod.Monotone(slotUs, ahead, slots);
    if ahead < slots {
      DivMod.Monotone(slotUs, ahead + 1, slots);
    }
    assert (e + ahead) * slotUs == e * slotUs + ahead * slotUs;
    assert (e + 1) * slotUs == e * slotUs + slotUs && (ahead + 1) * slotUs == ahead * slotUs + slotUs;
  }

  /** Epochs up to the current one have started. */
  lemma EpochHasStarted(g: LeaseGrid, t: nat, e: nat)
    requires g.Valid() && e <= g.Epoch(t)
    ensures e * g.slotUs <= t
  {
    EpochCharacterised(g, t, g.Epoch(t));
    DivMod.Monotone(g.slotUs, e, g.Epoch(t));
  }

  /** Off its own slot, a name waits until the start of the epoch it lands on. */
  lemma WaitTarget(g: LeaseGrid, hash: U64, now: nat)
    requires g.Valid() && !g.OwnsNow(hash, now)
    ensures var e := g.Epoch(now) + Ahead(g.slots, g.OwnerSlot(hash), g.Epoch(now));
            && now + g.WaitUs(hash, now) == e * g.slotUs
            && g.Epoch(now) < e < g.Epoch(now) + g.slots
            && now < e * g.slotUs < now + g.SuperframeUs()
            && g.OwnsNow(hash, e * g.slotUs)
  {
    var owner, e := g.OwnerSlot(hash), g.Epoch(now);
    var ahead := Ahead(g.slots, owner, e);
    AheadLandsOnOwner(g.slots, owner, e);
    EpochCharacterised(g, now, e);
    BoundaryEpoch(g, e + ahead);
    StartsWithinSuperframe(g.slotUs, g.slots, e, ahead, now);
  }

  /** `now + WaitUs` is the first instant not before `now` that the name owns. */
  lemma {:induction false} WaitIsLeastOwnedInstant(g: LeaseGrid, hash: U64, now: nat)
    requires g.Valid()
    ensures 0 <= g.WaitUs(hash, now) < g.SuperframeUs()
    ensures g.OwnsNow(hash, now + g.WaitUs(hash, now))
    ensures forall u: nat | now <= u < now + g.WaitUs(hash, now) :: !g.OwnsNow(hash, u)
  {
    DivMod.Monotone(g.slotUs, 1, g.slots);
    if !g.OwnsNow(hash, now) {
      WaitTarget(g, hash, now);
      var wait := g.WaitUs(hash, now);
      forall u: nat | now <= u < now + wait
        ensures !g.OwnsNow(hash, u)
      {
        if g.OwnsNow(hash, u) {
          NotOwnedBeforeTarget(g, hash, now, u);
        }
      }
    }
  }

  lemma NotOwnedBeforeTarget(g: LeaseGrid, hash: U64, now: nat, u: nat)
    requires g.Valid() && now <= u && g.OwnsNow(hash, u)
    ensures (g.Epoch(now) + Ahead(g.slots, g.OwnerSlot(hash), g.Epoch(now))) * g.slotUs <= u
  {
    var owner, e := g.OwnerSlot(hash), g.Epoch(now);
    EpochMonotone(g, now, u);
    AheadIsLeast(g.slots, owner, e, g.Epoch(u) - e);
    EpochHasStarted(g, u, e + Ahead(g.slots, owner, e));
  }

  lemma NextStartTarget(g: LeaseGrid, hash: U64, t: nat)
    requires g.Valid()
    ensures t < g.NextSlotStartUs(hash, t) <= t + g.SuperframeUs()
    ensures g.OwnedBoundary(hash, g.NextSlotStartUs(hash, t))
  {
    var owner, e := g.OwnerSlot(hash), g.Epoch(t);
    var ahead := Ahead(g.slots, owner, e + 1);
    EpochCharacterised(g, t, e);
    AheadLandsOnOwner(g.slots, owner, e + 1);
    BoundaryEpoch(g, e + 1 + ahead);
    StartsWithinSuperframe(g.slotUs, g.slots, e, 1 + ahead, t);
  }

  /** A later boundary of the same name is in a later epoch, so not before the target. */
  lemma NoBoundaryBeforeNext(g: LeaseGrid, hash: U64, t: nat, u: nat)
    requires g.Valid() && t < u && g.OwnedBoundary(hash, u)
    ensures g.NextSlotStartUs(hash, t) <= u
  {
    var owner, e := g.OwnerSlot(hash), g.Epoch(t) + 1;
    EpochCharacterised(g, u, g.Epoch(u));
    EpochMonotone(g, t, u);
    if g.Epoch(u) == g.Epoch(t) {
      EpochHasStarted(g, t, g.Epoch(u));
    }
    AheadIsLeast(g.slots, owner, e, g.Epoch(u) - e);
    EpochHasStarted(g, u, e + Ahead(g.slots, owner, e));
  }

  /**
   * `NextSlotStartUs` is the least owned boundary strictly after its argument, at most one
   * superframe on.
   */
  lemma {:induction false} NextStartIsLeastLaterBoundary(g: LeaseGrid, hash: U64, t: nat)
    requires g.Valid()
    ensures t < g.NextSlotStartUs(hash, t) <= t + g.SuperframeUs()
    ensures g.OwnedBoundary(hash, g.NextSlotStartUs(hash, t))
    ensures forall u: nat | t < u < g.NextSlotStartUs(hash, t) :: !g.OwnedBoundary(hash, u)
  {
    NextStartTarget(g, hash, t);
    forall u: nat | t < u < g.NextSlotStartUs(hash, t)
      ensures !g.OwnedBoundary(hash, u)
    {
      if g.OwnedBoundary(hash, u) {
        NoBoundaryBeforeNext(g, hash, t, u);
      }
    }
  }

  /** The next number with the same remainder lies a whole modulus on. */
  lemma NextCongruent(n: nat, e: nat, ahead: nat)
    requires n > 0 && ahead < n && (e + 1 + ahead) % n == e % n
    ensures 1 + ahead == n
  {
    DivMod.Split(e, n);
    DivMod.Split(e + 1 + ahead, n);
    var p, q := e / n, (e + 1 + ahead) / n;
    assert 1 + ahead == n * q - n * p;
    if q <= p {
      DivMod.Monotone(n, q, p);
    } else if p + 2 <= q {
      DivMod.Monotone(n, p + 2, q);
    }
    assert q == p + 1;
  }

  /** From one owned boundary, the recomputed next one is exactly a superframe on. */
  lemma {:induction false} FollowingAgreesWithNext(g: LeaseGrid, hash: U64, s: nat)
    requires g.Valid() && g.OwnedBoundary(hash, s)
    ensures g.NextSlotStartUs(hash, s) == g.FollowingSlotStartUs(s)
    ensures g.OwnedBoundary(hash, g.FollowingSlotStartUs(s))
  {
    NextStartIsLeastLaterBoundary(g, hash, s);
    var owner, e := g.OwnerSlot(hash), g.Epoch(s);
    EpochCharacterised(g, s, e);
    var next := g.NextSlotStartUs(hash, s);
    var ahead := Ahead(g.slots, owner, e + 1);
    AheadLandsOnOwner(g.slots, owner, e + 1);
    NextCongruent(g.slots, e, ahead);
    assert (e + g.slots) * g.slotUs == e * g.slotUs + g.SuperframeUs();
  }

  /** The least owned boundary not before `t`, the reading the documentation gives. */
  predicate IsFirstBoundaryAtOrAfter(g: LeaseGrid, hash: U64, t: nat, b: nat)
    requires g.Valid()
  {
    b >= t && g.OwnedBoundary(hash, b) && forall u: nat | t <= u < b :: !g.OwnedBoundary(hash, u)
  }

  /** "At or after" is what the code computes exactly when its argument is not itself such a boundary. */
  lemma {:induction false} NextStartIsDocumentedStartExactlyOffBoundary(g: LeaseGrid, hash: U64, t: nat)
    requires g.Valid()
    ensures IsFirstBoundaryAtOrAfter(g, hash, t, g.NextSlotStartUs(hash, t)) <==> !g.OwnedBoundary(hash, t)
  {
    NextStartIsLeastLaterBoundary(g, hash, t);
  }

  /** Waiting and targeting agree: off its own slot a name waits exactly until its next start. */
  lemma {:induction false} WaitReachesNextStart(g: LeaseGrid, hash: U64, now: nat)
    requires g.Valid()
    ensures !g.OwnsNow(hash, now) ==> now + g.WaitUs(hash, now) == g.NextSlotStartUs(hash, now)
  {
    var owner, e := g.OwnerSlot(hash), g.Epoch(now);
    if owner != e % g.slots {
      var a := Ahead(g.slots, owner, e);
      AheadLandsOnOwner(g.slots, owner, e);
      AheadLandsOnOwner(g.slots, owner, e + 1);
      assert e + a == e + 1 + (a - 1);
      AheadIsLeast(g.slots, owner, e + 1, a - 1);
      AheadIsLeast(g.slots, owner, e, 1 + Ahead(g.slots, owner, e + 1));
    }
  }

  // ---- where 64 bits matter ------------------------------------------------------------------

  lemma HeadroomForTargets(g: LeaseGrid, hash: U64, now: nat)
    requires g.Valid()
    ensures g.NextSlotStartUs(hash, now) <= now + g.SuperframeUs()
    ensures now <= now + g.WaitUs(hash, now) <= now + g.SuperframeUs()
  {
    NextStartIsLeastLaterBoundary(g, hash, now);
    WaitIsLeastOwnedInstant(g, hash, now);
  }

  lemma OwnerIsASlot(g: LeaseGrid, hash: U64)
    requires g.Valid()
    ensures 0 <= g.OwnerSlot(hash) < g.slots
  {
    DivMod.Split(hash, g.slots);
  }

  /** Adding the owner slot to the slot count overflows for no name exactly when there are at most 2^63 slots. */
  lemma {:induction false} OwnerSumFitsExactly(g: LeaseGrid)
    requires g.Valid()
    ensures (forall hash: U64 :: g.OwnerSlot(hash) + g.slots <= U64_MAX) <==> g.slots <= 0x8000_0000_0000_0000
  {
    DivMod.Unique(g.slots - 1, g.slots, 0, g.slots - 1);
    assert g.OwnerSlot(g.slots - 1) == g.slots - 1;
    forall hash: U64
      ensures g.OwnerSlot(hash) < g.slots
    {
      OwnerIsASlot(g, hash);
    }
  }

  lemma SlotsAreHalf(g: LeaseGrid)
    requires g.Valid() && g.slotUs >= 2
    ensures 2 * g.slots <= g.SuperframeUs()
  {
    DivMod.Monotone(g.slots, 2, g.slotUs);
  }

  lemma OwnerSumFits(g: LeaseGrid, hash: U64)
    requires g.Valid() && 2 * g.slots <= U64_MAX + 1
    ensures g.OwnerSlot(hash) + g.slots <= U64_MAX
  {
    OwnerIsASlot(g, hash);
  }

  /**
   * With one superframe of headroom below 2^64 neither target overflows, and neither does the owner
   * sum unless the slots are single microseconds and more than 2^63 of them.
   */
  lemma NoOverflowWithASuperframeOfHeadroom(g: LeaseGrid, hash: U64, now: nat)
    requires g.Valid() && now + g.SuperframeUs() <= U64_MAX
    ensures g.NextSlotStartUs(hash, now) <= U64_MAX
    ensures now + g.WaitUs(hash, now) <= U64_MAX
    ensures g.slotUs >= 2 || g.slots <= 0x8000_0000_0000_0000 ==> g.OwnerSlot(hash) + g.slots <= U64_MAX
  {
    HeadroomForTargets(g, hash, now);
    if g.slotUs >= 2 {
      SlotsAreHalf(g);
    }
    if g.slotUs >= 2 || g.slots <= 0x8000_0000_0000_0000 {
      OwnerSumFits(g, hash);
    }
  }

  /**
   * Inside the lease, `FitsAt` means that the frame ends before the guard exactly when launch phase
   * plus airtime stays below 2^64: a longer airtime wraps and is always let through.
   */
  lemma FitsAtMeansRoomExactly(g: LeaseGrid, hash: U64, at: nat, airtime: U64)
    requires g.Valid() && g.InsideLease(hash, at)
    ensures (g.FitsAt(hash, at, airtime) <==> g.PhaseInSlotUs(at) + airtime <= g.UsableUs())
        <==> g.PhaseInSlotUs(at) + airtime <= U64_MAX
    ensures g.PhaseInSlotUs(at) + airtime > U64_MAX ==> g.FitsAt(hash, at, airtime)
  {
    WrappedSum(g.PhaseInSlotUs(at), airtime);
    EpochCharacterised(g, at, g.Epoch(at));
  }

  lemma WrappedSum(phase: nat, airtime: U64)
    requires phase <= U64_MAX
    ensures (phase + airtime) % (U64_MAX + 1) ==
            if phase + airtime <= U64_MAX then phase + airtime else phase + airtime - (U64_MAX + 1)
  {
  }
}
