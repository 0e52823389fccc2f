/**
 * Every name gets the same airtime: over any one superframe, wherever it starts, a name owns
 * exactly one slot's worth of microseconds and may transmit in exactly the usable part of it.
 */
module LeaseAirtime {
  import opened Prelude
  import DivMod
  import opened Lease

  /** In the owned slot and less than `w` into it; `w` is the whole slot or its usable part. */
  predicate Within(g: LeaseGrid, hash: U64, w: nat, t: nat)
    requires g.Valid()
  {
    g.OwnsNow(hash, t) && g.PhaseInSlotUs(t) < w
  }

  function Count(g: LeaseGrid, hash: U64, w: nat, t: nat, n: nat): nat
    requires g.Valid()
  {
    if n == 0 then 0
    else (if Within(g, hash, w, t + n - 1) then 1 else 0) + Count(g, hash, w, t, n - 1)
  }

  function Instants(g: LeaseGrid, hash: U64, w: nat, t: nat, n: nat): set<nat>
    requires g.Valid()
  {
    set u: nat | t <= u < t + n && Within(g, hash, w, u)
  }

  lemma {:induction false} CountIsCardinality(g: LeaseGrid, hash: U64, w: nat, t: nat, n: nat)
    requires g.Valid()
    ensures |Instants(g, hash, w, t, n)| == Count(g, hash, w, t, n)
  {
    if n == 0 {
      assert Instants(g, hash, w, t, 0) == {};
    } else {
      CountIsCardinality(g, hash, w, t, n - 1);
      var last := t + n - 1;
      var before := Instants(g, hash, w, t, n - 1);
      assert Instants(g, hash, w, t, n) == if Within(g, hash, w, last) then before + {last} else before;
    }
  }

  lemma {:induction false} CountSplit(g: LeaseGrid, hash: U64, w: nat, t: nat, m: nat, n: nat)
    requires g.Valid()
    ensures Count(g, hash, w, t, m + n) == Count(g, hash, w, t, m) + Count(g, hash, w, t + m, n)
  {
    if n > 0 {
      CountSplit(g, hash, w, t, m, n - 1);
      assert t + (m + n) - 1 == (t + m) + n - 1;
    }
  }

  /** Ownership and phase repeat every superframe. */
  lemma Periodic(g: LeaseGrid, hash: U64, w: nat, t: nat)
    requires g.Valid()
    ensures Within(g, hash, w, t + g.SuperframeUs()) == Within(g, hash, w, t)
  {
    DivMod.AddMultiple(t, g.slotUs, g.slots);
    DivMod.AddMultiple(g.Epoch(t), g.slots, 1);
  }

  /** Sliding the window by one instant drops what it gains. */
  lemma {:induction false} WindowSlides(g: LeaseGrid, hash: U64, w: nat, t: nat)
    requires g.Valid()
    ensures Count(g, hash, w, t, g.SuperframeUs()) == Count(g, hash, w, 0, g.SuperframeUs())
  {
    if t > 0 {
      WindowSlides(g, hash, w, t - 1);
      var p := g.SuperframeUs();
      CountSplit(g, hash, w, t - 1, 1, p);
      assert Count(g, hash, w, t - 1, 1) == (if Within(g, hash, w, t - 1) then 1 else 0) + Count(g, hash, w, t - 1, 0);
      Periodic(g, hash, w, t - 1);
      assert (t - 1) + (1 + p) - 1 == t - 1 + p;
    }
  }

  /** Inside one slot the first `w` instants count if the slot is owned, and none otherwise. */
  lemma {:induction false} CountInSlot(g: LeaseGrid, hash: U64, w: nat, e: nat, n: nat)
    requires g.Valid() && w <= g.slotUs && n <= g.slotUs
    ensures Count(g, hash, w, e * g.slotUs, n) ==
            if e % g.slots == g.OwnerSlot(hash) then Min(n, w) else 0
  {
    if n > 0 {
      CountInSlot(g, hash, w, e, n - 1);
      assert e * g.slotUs + n - 1 == g.slotUs * e + (n - 1);
      DivMod.Unique(e * g.slotUs + n - 1, g.slotUs, e, n - 1);
    }
  }

  lemma {:induction false} CountSlots(g: LeaseGrid, hash: U64, w: nat, k: nat)
    requires g.Valid() && w <= g.slotUs && k <= g.slots
    ensures Count(g, hash, w, 0, k * g.slotUs) == if g.OwnerSlot(hash) < k then w else 0
  {
    if k > 0 {
      CountSlots(g, hash, w, k - 1);
      assert k * g.slotUs == (k - 1) * g.slotUs + g.slotUs;
      CountSplit(g, hash, w, 0, (k - 1) * g.slotUs, g.slotUs);
      CountInSlot(g, hash, w, k - 1, g.slotUs);
      DivMod.Unique(k - 1, g.slots, 0, k - 1);
    } else {
      assert 0 * g.slotUs == 0;
    }
  }

  lemma FirstSuperframe(g: LeaseGrid, hash: U64, w: nat)
    requires g.Valid() && w <= g.slotUs
    ensures Count(g, hash, w, 0, g.SuperframeUs()) == w
  {
    CountSlots(g, hash, w, g.slots);
    OwnerIsASlot(g, hash);
    assert g.slots * g.slotUs == g.SuperframeUs();
  }

  lemma SuperframeShare(g: LeaseGrid, hash: U64, w: nat, t: nat)
    requires g.Valid() && w <= g.slotUs
    ensures |Instants(g, hash, w, t, g.SuperframeUs())| == w
  {
    CountIsCardinality(g, hash, w, t, g.SuperframeUs());
    WindowSlides(g, hash, w, t);
    FirstSuperframe(g, hash, w);
  }

  /** The airtime law: `slotUs` owned and `usableUs` transmittable microseconds in every superframe. */
  lemma EveryNameGetsItsShare(g: LeaseGrid, hash: U64, t: nat)
    requires g.Valid()
    ensures |set u: nat | t <= u < t + g.SuperframeUs() && g.OwnsNow(hash, u)| == g.slotUs
    ensures |set u: nat | t <= u < t + g.SuperframeUs() && g.InsideLease(hash, u)| == g.UsableUs()
  {
    SuperframeShare(g, hash, g.slotUs, t);
    SuperframeShare(g, hash, g.UsableUs(), t);
    forall u: nat
      ensures g.OwnsNow(hash, u) == Within(g, hash, g.slotUs, u)
    {
      DivMod.Split(u, g.slotUs);
    }
    assert (set u: nat | t <= u < t + g.SuperframeUs() && g.OwnsNow(hash, u))
        == Instants(g, hash, g.slotUs, t, g.SuperframeUs());
    assert (set u: nat | t <= u < t + g.SuperframeUs() && g.InsideLease(hash, u))
        == Instants(g, hash, g.UsableUs(), t, g.SuperframeUs());
  }

  /** Slots divide time: two names own the same instant exactly when they share an owner slot. */
  lemma InstantsAreNotShared(g: LeaseGrid, a: U64, b: U64, t: nat)
    requires g.Valid() && g.OwnsNow(a, t)
    ensures g.OwnsNow(b, t) <==> g.OwnerSlot(a) == g.OwnerSlot(b)
    ensures g.CurrentSlot(t) < g.slots
  {
    DivMod.Split(g.Epoch(t), g.slots);
  }

  // ---- how names spread over the slots --------------------------------------------------------------

  /** Within every superframe the small hashes own the slots in order: hash `s` the slot number `s`. */
  lemma HashOwnsItsSlot(g: LeaseGrid, s: U64, t: nat)
    requires g.Valid() && s < g.slots
    ensures g.OwnsNow(s, t) <==> exists k: nat :: InSlot(g, k * g.slots + s, t)
  {
    var e := g.Epoch(t);
    EpochCharacterised(g, t, e);
    DivMod.Split(e, g.slots);
    DivMod.Unique(s, g.slots, 0, s);
    if g.OwnsNow(s, t) {
      assert e == e / g.slots * g.slots + s;
      assert InSlot(g, e / g.slots * g.slots + s, t);
    }
    if k: nat :| InSlot(g, k * g.slots + s, t) {
      EpochCharacterised(g, t, k * g.slots + s);
      DivMod.Unique(k * g.slots + s, g.slots, k, s);
    }
  }

  /** The instant lies in the `n`-th slot since time zero. */
  predicate InSlot(g: LeaseGrid, n: nat, t: nat) {
    n * g.slotUs <= t < (n + 1) * g.slotUs
  }

  /** A hash a whole number of slots further on owns the same instants. */
  lemma HashesWrap(g: LeaseGrid, hash: U64, t: nat)
    requires g.Valid() && hash + g.slots <= U64_MAX
    ensures g.OwnsNow(hash + g.slots, t) <==> g.OwnsNow(hash, t)
  {
    DivMod.AddMultiple(hash, g.slots, 1);
  }

  /** Of any `slots` hashes in a row exactly one owns a given instant. */
  lemma {:induction false} OneOfARowOwns(g: LeaseGrid, base: U64, t: nat) returns (hash: U64)
    requires g.Valid() && base + g.slots - 1 <= U64_MAX
    ensures base <= hash < base + g.slots && g.OwnsNow(hash, t)
    ensures forall other: U64 | base <= other < base + g.slots && g.OwnsNow(other, t) :: other == hash
  {
    var slot := g.CurrentSlot(t);
    DivMod.Split(g.Epoch(t), g.slots);
    AheadLandsOnOwner(g.slots, slot, base);
    hash := base + Ahead(g.slots, slot, base);
    forall other: U64 | base <= other < base + g.slots && g.OwnsNow(other, t)
      ensures other == hash
    {
      SameSlotInARow(g, base, other, hash);
    }
  }

  lemma SameSlotInARow(g: LeaseGrid, base: U64, a: U64, b: U64)
    requires g.Valid() && base <= a < base + g.slots && base <= b < base + g.slots
    requires g.OwnerSlot(a) == g.OwnerSlot(b)
    ensures a == b
  {
    var n := g.slots;
    DivMod.Split(a, n);
    DivMod.Split(b, n);
    var p, q := a / n, b / n;
    assert a - b == n * p - n * q;
    assert n * (p + 1) == n * p + n && n * (q + 1) == n * q + n;
    if p < q {
      DivMod.Monotone(n, p + 1, q);
    } else if q < p {
      DivMod.Monotone(n, q + 1, p);
    }
  }
}
