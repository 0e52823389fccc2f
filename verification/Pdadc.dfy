/**
 * The 128-entry table that maps detector readings to gain, built from one power-detector curve per
 * gain.  Arithmetic is checked: an index out of range, an unsigned underflow or a 16-bit overflow
 * makes the result `None`, where the source panics.  With one or two gains only the power span of a
 * curve can bring that about.
 */
module Pdadc {
  import opened Prelude
  import opened VpdCurve
  import DivMod

  const NUM_PDADC: nat := 128
  const ICEPTS: nat := 5
  const MAX_RATE_POWER: int := 63
  const I16_MIN: int := -32768
  const I16_MAX: int := 32767

  /** Five measured points of one gain. */
  datatype Curve = Curve(pwr: seq<Byte>, vpd: seq<Byte>) {
    predicate Shaped() {
      |pwr| == ICEPTS && |vpd| == ICEPTS
    }

    /** Power and reading both rise along the curve, as a calibrated part's do. */
    predicate Calibrated() {
      Shaped() && Rising(pwr) && Rising(vpd)
    }

    function MinPwr(): Byte
      requires Shaped()
    {
      pwr[0]
    }

    function MaxPwr(): Byte
      requires Shaped()
    {
      pwr[ICEPTS - 1]
    }

    /** The dense table: a reading every two half-dB steps, zero beyond the curve. */
    function Dense(): (v: seq<Byte>)
      requires Shaped()
      ensures |v| == 64
    {
      seq(64, i requires 0 <= i < 64 =>
        if i <= GridSteps(MinPwr(), MaxPwr()) then Interpolate(pwr, vpd, (MinPwr() + 2 * i) % 256) else 0)
    }
  }

  /** One gain's share of the table: the readings `v`, and the steps `start` to `target` it covers. */
  datatype Gain = Gain(minPwr: Byte, maxPwr: Byte, v: seq<Byte>, start: int, target: int) {

    /** The span in half-dB for which every index into the 64 dense readings is in range. */
    predicate SpanFits() {
      2 <= maxPwr - minPwr <= 127
    }

    predicate Valid() {
      |v| == 64 && SpanFits()
    }

    function Size(): int {
      (maxPwr - minPwr) / 2 + 1
    }

    function MaxIndex(): int {
      Min(target, Size())
    }

    function LowStep(): int
      requires |v| == 64
    {
      Max(v[1] as int - v[0] as int, 1)
    }

    function HighStep(): int
      requires Valid()
    {
      Max(v[Size() - 1] as int - v[Size() - 2] as int, 1)
    }

    /** Extrapolation above the measured readings, before it is capped. */
    function Above(ss: int): int
      requires Valid()
    {
      v[Size() - 1] + (ss - MaxIndex() + 1) * HighStep()
    }

    /** The table entry for step `ss`: extrapolated below, measured, or extrapolated above. */
    function Entry(ss: int): Byte
      requires Valid()
    {
      if ss < 0 then Clamp(v[0] + ss * LowStep(), 0, 255)
      else if ss < MaxIndex() then v[ss]
      else Clamp(Above(ss), 0, 255)
    }

    /** Steps visited when the table has room: up to the target, and at least up to step -1. */
    function Steps(): nat {
      Max(0, Max(target, -1) - start + 1)
    }

    /** The products below step zero fit 16 bits, if any is computed. */
    predicate BelowFits(room: nat)
      requires |v| == 64
    {
      room > 0 && start < 0 ==> start * LowStep() >= I16_MIN
    }

    /** The sums above the readings fit 16 bits from step `a` up to but not including step `b`. */
    ghost predicate AboveFits(a: int, b: int)
      requires Valid()
    {
      forall ss | a <= ss < b :: Above(ss) <= I16_MAX
    }

    /** No 16-bit product or sum overflows while at most `room` entries are written. */
    ghost predicate NoOverflow(room: nat)
      requires Valid()
    {
      BelowFits(room) && AboveFits(Max(start, Max(0, MaxIndex())), start + Min(Steps(), room))
    }

    function Run(): (r: seq<Byte>)
      requires Valid()
      ensures |r| == Steps()
    {
      seq<Byte>(Steps(), i requires 0 <= i < Steps() => Entry(start + i))
    }
  }

  // ---- boundaries between gains -------------------------------------------------------------------------

  function Boundary(curves: seq<Curve>, g: nat): int
    requires g < |curves| && forall i | 0 <= i < |curves| :: curves[i].Shaped()
  {
    var b := if g == |curves| - 1 then curves[g].MaxPwr() / 2
             else (curves[g].MaxPwr() + curves[g + 1].MinPwr()) / 4;
    Min(b, MAX_RATE_POWER)
  }

  function GainOf(curves: seq<Curve>, overlap: Byte, g: nat): Gain
    requires g < |curves| && forall i | 0 <= i < |curves| :: curves[i].Shaped()
  {
    var c := curves[g];
    var start := if g == 0 then -(c.MinPwr() / 2)
                 else Boundary(curves, g - 1) - c.MinPwr() / 2 - overlap + 1;
    Gain(c.MinPwr(), c.MaxPwr(), c.Dense(), start, Boundary(curves, g) + overlap - c.MinPwr() / 2)
  }

  // ---- one gain's three loops ------------------------------------------------------------------------------

  function Prefix<T>(s: seq<T>, n: nat): seq<T> {
    s[..Min(n, |s|)]
  }

  /** Below the first reading: extrapolate downward until step zero or the last free entry. */
  method ExtendBelow(g: Gain, pdadc: array<Byte>, k0: nat) returns (ok: bool, k: nat, ss: int)
    requires |g.v| == 64 && pdadc.Length == NUM_PDADC && k0 <= NUM_PDADC - 1
    modifies pdadc
    ensures ok <==> g.BelowFits(NUM_PDADC - 1 - k0)
    ensures ok ==> k0 <= k <= NUM_PDADC - 1 && ss == g.start + (k - k0)
    ensures ok ==> (g.start >= 0 ==> k == k0) && (g.start < 0 ==> ss <= 0) && (ss >= 0 || k == NUM_PDADC - 1)
    ensures ok ==> forall i | 0 <= i < k0 :: pdadc[i] == old(pdadc[i])
    ensures ok && g.SpanFits() ==> forall i | k0 <= i < k :: pdadc[i] == g.Entry(g.start + i - k0)
  {
    ok, k, ss := true, k0, g.start;
    var vpdStep := g.LowStep();
    while ss < 0 && k < NUM_PDADC - 1
      invariant k0 <= k <= NUM_PDADC - 1 && ss == g.start + (k - k0)
      invariant (g.start >= 0 ==> k == k0) && (g.start < 0 ==> ss <= 0)
      invariant k > k0 ==> g.start * vpdStep >= I16_MIN
      invariant forall i | 0 <= i < k0 :: pdadc[i] == old(pdadc[i])
      invariant g.SpanFits() ==> forall i | k0 <= i < k :: pdadc[i] == g.Entry(g.start + i - k0)
    {
      DivMod.Monotone(vpdStep, g.start, ss);
      if ss * vpdStep < I16_MIN {
        return false, k, ss;
      }
      var t := g.v[0] + ss * vpdStep;
      pdadc[k] := Min(Max(t, 0), 255);
      k := k + 1;
      ss := ss + 1;
    }
  }

  /** The measured readings, copied. */
  method CopyMeasured(g: Gain, pdadc: array<Byte>, k0: nat, s0: int) returns (k: nat, ss: int)
    requires g.Valid() && pdadc.Length == NUM_PDADC && k0 <= NUM_PDADC - 1
    requires s0 >= 0 || k0 == NUM_PDADC - 1
    modifies pdadc
    ensures k0 <= k <= NUM_PDADC - 1 && ss == s0 + (k - k0)
    ensures (s0 >= g.MaxIndex() ==> k == k0) && (s0 < g.MaxIndex() ==> ss <= g.MaxIndex())
    ensures ss >= g.MaxIndex() || k == NUM_PDADC - 1
    ensures forall i | 0 <= i < k0 :: pdadc[i] == old(pdadc[i])
    ensures forall i | k0 <= i < k :: pdadc[i] == g.Entry(s0 + i - k0)
  {
    k, ss := k0, s0;
    while ss < g.MaxIndex() && k < NUM_PDADC - 1
      invariant k0 <= k <= NUM_PDADC - 1 && ss == s0 + (k - k0)
      invariant (s0 >= g.MaxIndex() ==> k == k0) && (s0 < g.MaxIndex() ==> ss <= g.MaxIndex())
      invariant forall i | 0 <= i < k0 :: pdadc[i] == old(pdadc[i])
      invariant forall i | k0 <= i < k :: pdadc[i] == g.Entry(s0 + i - k0)
    {
      pdadc[k] := g.v[ss];
      k := k + 1;
      ss := ss + 1;
    }
  }

  /** Extrapolation above the readings starts no lower than the last one and rises. */
  lemma AboveGrows(g: Gain, x: int, y: int)
    requires g.Valid() && g.MaxIndex() <= x <= y
    ensures g.v[g.Size() - 1] <= g.Above(x) <= g.Above(y)
  {
    var step, a, b := g.HighStep(), x - g.MaxIndex() + 1, y - g.MaxIndex() + 1;
    DivMod.Monotone(step, 0, a);
    DivMod.Monotone(step, a, b);
  }

  lemma EntryAbove(g: Gain, ss: int)
    requires g.Valid() && 0 <= ss && g.MaxIndex() <= ss
    ensures 0 <= g.Above(ss) && g.Entry(ss) == Min(g.Above(ss), 255)
  {
    AboveGrows(g, ss, ss);
  }

  /** Above the last reading: extrapolate upward to the target. */
  method ExtendAbove(g: Gain, pdadc: array<Byte>, k0: nat, s0: int) returns (ok: bool, k: nat)
    requires g.Valid() && pdadc.Length == NUM_PDADC && k0 <= NUM_PDADC - 1
    requires (s0 >= 0 && s0 >= g.MaxIndex()) || k0 == NUM_PDADC - 1
    modifies pdadc
    ensures ok ==> k0 <= k <= NUM_PDADC - 1
    ensures ok ==> k - k0 == Min(Max(0, g.target - s0 + 1), NUM_PDADC - 1 - k0)
    ensures ok <==> g.AboveFits(s0, s0 + Min(Max(0, g.target - s0 + 1), NUM_PDADC - 1 - k0))
    ensures ok ==> forall i | 0 <= i < k0 :: pdadc[i] == old(pdadc[i])
    ensures ok ==> forall i | k0 <= i < k :: pdadc[i] == g.Entry(s0 + i - k0)
  {
    ok, k := true, k0;
    var ss := s0;
    while ss <= g.target && k < NUM_PDADC - 1
      invariant k0 <= k <= NUM_PDADC - 1 && ss == s0 + (k - k0)
      invariant k > k0 ==> ss <= g.target + 1
      invariant forall s | s0 <= s < ss :: g.Above(s) <= I16_MAX
      invariant forall i | 0 <= i < k0 :: pdadc[i] == old(pdadc[i])
      invariant forall i | k0 <= i < k :: pdadc[i] == g.Entry(s0 + i - k0)
    {
      var t := g.Above(ss);
      if t > I16_MAX {
        return false, k;
      }
      EntryAbove(g, ss);
      pdadc[k] := Min(t, 255);
      k := k + 1;
      ss := ss + 1;
    }
  }

  /** The three loops hand the step over without a gap, and together write the whole run or fill the table. */
  lemma PhasesCover(g: Gain, k0: nat, k1: nat, k2: nat)
    requires g.Valid() && k0 <= k1 <= k2 <= NUM_PDADC - 1
    requires (g.start >= 0 ==> k1 == k0) && (g.start < 0 ==> g.start + (k1 - k0) <= 0)
    requires g.start + (k1 - k0) >= 0 || k1 == NUM_PDADC - 1
    requires (g.start + (k1 - k0) >= g.MaxIndex() ==> k2 == k1)
    requires (g.start + (k1 - k0) < g.MaxIndex() ==> g.start + (k2 - k0) <= g.MaxIndex())
    requires g.start + (k2 - k0) >= g.MaxIndex() || k2 == NUM_PDADC - 1
    ensures var room := NUM_PDADC - 1 - k0;
            var s2 := g.start + (k2 - k0);
            var written := Min(Max(0, g.target - s2 + 1), NUM_PDADC - 1 - k2);
            && k2 + written == k0 + Min(g.Steps(), room)
            && (g.AboveFits(s2, s2 + written) <==>
                g.AboveFits(Max(g.start, Max(0, g.MaxIndex())), g.start + Min(g.Steps(), room)))
  {
  }

  /** The three loops of one gain, entry by entry. */
  method WriteRun(g: Gain, pdadc: array<Byte>, k0: nat) returns (ok: bool, k: nat)
    requires |g.v| == 64 && pdadc.Length == NUM_PDADC && k0 <= NUM_PDADC - 1
    modifies pdadc
    ensures ok <==> g.SpanFits() && g.NoOverflow(NUM_PDADC - 1 - k0)
    ensures ok ==> k == k0 + Min(g.Steps(), NUM_PDADC - 1 - k0)
    ensures ok ==> forall i | 0 <= i < k0 :: pdadc[i] == old(pdadc[i])
    ensures ok ==> forall i | k0 <= i < k :: pdadc[i] == g.Entry(g.start + i - k0)
  {
    var ss: int;
    ok, k, ss := ExtendBelow(g, pdadc, k0);
    if !ok || !g.SpanFits() {
      return false, k;
    }
    ghost var k1 := k;
    k, ss := CopyMeasured(g, pdadc, k, ss);
    ghost var k2 := k;
    ok, k := ExtendAbove(g, pdadc, k, ss);
    PhasesCover(g, k0, k1, k2);
  }

  lemma RunSlice(g: Gain, before: seq<Byte>, after: seq<Byte>, k0: nat, k: nat)
    requires g.Valid() && |before| == |after| == NUM_PDADC && k0 <= NUM_PDADC - 1
    requires k == k0 + Min(g.Steps(), NUM_PDADC - 1 - k0)
    requires forall i | 0 <= i < k0 :: after[i] == before[i]
    requires forall i | k0 <= i < k :: after[i] == g.Entry(g.start + i - k0)
    ensures after[..k] == before[..k0] + Prefix(g.Run(), NUM_PDADC - 1 - k0)
  {
  }

  /** The loops of one gain append the gain's run, cut off before the last entry. */
  method AppendRun(g: Gain, pdadc: array<Byte>, k0: nat) returns (ok: bool, k: nat)
    requires |g.v| == 64 && pdadc.Length == NUM_PDADC && k0 <= NUM_PDADC - 1
    modifies pdadc
    ensures ok <==> g.SpanFits() && g.NoOverflow(NUM_PDADC - 1 - k0)
    ensures ok ==> k == k0 + Min(g.Steps(), NUM_PDADC - 1 - k0)
    ensures ok ==> pdadc[..k] == old(pdadc[..k0]) + Prefix(g.Run(), NUM_PDADC - 1 - k0)
  {
    ghost var before := pdadc[..];
    ok, k := WriteRun(g, pdadc, k0);
    if ok {
      RunSlice(g, before, pdadc[..], k0, k);
      assert before[..k0] == old(pdadc[..k0]) && pdadc[..][..k] == pdadc[..k];
    }
  }

  // ---- the whole table ---------------------------------------------------------------------------------------

  predicate AllShaped(curves: seq<Curve>) {
    forall i | 0 <= i < |curves| :: curves[i].Shaped()
  }

  function Gains(curves: seq<Curve>, overlap: Byte): (gains: seq<Gain>)
    requires AllShaped(curves)
    ensures |gains| == |curves|
  {
    seq(|curves|, g requires 0 <= g < |curves| => GainOf(curves, overlap, g))
  }

  /** What the first `n` gains write, each in the room the ones before it left; `None` on a panic. */
  ghost function Fill(gains: seq<Gain>, n: nat): (r: Option<seq<Byte>>)
    requires n <= |gains|
    ensures r.Some? ==> |r.value| <= NUM_PDADC - 1
  {
    if n == 0 then Some([])
    else
      var before := Fill(gains, n - 1);
      if before.None? then None
      else
        var g, room := gains[n - 1], NUM_PDADC - 1 - |before.value|;
        if g.Valid() && g.NoOverflow(room) then Some(before.value + Prefix(g.Run(), room)) else None
  }

  lemma {:induction false} FillStep(gains: seq<Gain>, n: nat, before: seq<Byte>)
    requires n < |gains| && Fill(gains, n) == Some(before)
    ensures var g, room := gains[n], NUM_PDADC - 1 - |before|;
            Fill(gains, n + 1) == if g.Valid() && g.NoOverflow(room) then Some(before + Prefix(g.Run(), room)) else None
  {
  }

  /** The last written entry is repeated to the end. */
  function Padded(s: seq<Byte>): (r: seq<Byte>)
    requires 0 < |s| <= NUM_PDADC
    ensures |r| == NUM_PDADC
  {
    s + seq<Byte>(NUM_PDADC - |s|, _ => s[|s| - 1])
  }

  /** The gain boundaries programmed beside the table: four slots, 58 where there is no gain. */
  function Boundaries(curves: seq<Curve>): (b: seq<int>)
    requires AllShaped(curves)
    ensures |b| == 4
  {
    seq(4, g requires 0 <= g < 4 => if g < |curves| then Boundary(curves, g) else 58)
  }

  /** The first gain always writes, so there is an entry to repeat. */
  lemma FirstGainWrites(curves: seq<Curve>, overlap: Byte)
    requires AllShaped(curves) && |curves| > 0
    ensures GainOf(curves, overlap, 0).Steps() >= Boundary(curves, 0) + overlap + 1 >= 1
  {
  }

  method DenseTable(c: Curve) returns (v: seq<Byte>)
    requires c.Shaped()
    ensures v == c.Dense()
  {
    var ret := new Byte[64](_ => 0);
    FillVpdTable(c.MinPwr(), c.MaxPwr(), c.pwr, c.vpd, ret);
    v := ret[..];
  }

  /** One turn of the loop over gains. */
  method AppendGain(curves: seq<Curve>, overlap: Byte, n: nat, pdadc: array<Byte>, k0: nat) returns (ok: bool, k: nat)
    requires AllShaped(curves) && n < |curves| && pdadc.Length == NUM_PDADC && k0 <= NUM_PDADC - 1
    requires Fill(Gains(curves, overlap), n) == Some(pdadc[..k0])
    modifies pdadc
    ensures ok <==> Fill(Gains(curves, overlap), n + 1).Some?
    ensures ok ==> k <= NUM_PDADC - 1 && Fill(Gains(curves, overlap), n + 1) == Some(pdadc[..k])
    ensures ok ==> k == k0 + Min(GainOf(curves, overlap, n).Steps(), NUM_PDADC - 1 - k0)
  {
    ghost var gains := Gains(curves, overlap);
    ghost var before := pdadc[..k0];
    var dense := DenseTable(curves[n]);
    var g := GainOf(curves, overlap, n).(v := dense);
    assert g == gains[n];
    FillStep(gains, n, before);
    ok, k := AppendRun(g, pdadc, k0);
    assert ok ==> pdadc[..k] == before + Prefix(g.Run(), NUM_PDADC - 1 - k0);
  }

  /** At most two gains, as the EEPROM of this part has; none is refused. */
  method Build(curves: seq<Curve>, overlap: Byte) returns (r: Option<(seq<Byte>, seq<int>)>)
    requires AllShaped(curves) && |curves| <= 2
    ensures r.Some? <==> curves != [] && SpansFit(curves)
    ensures var fill := Fill(Gains(curves, overlap), |curves|);
            r.Some? ==> fill.Some? && 0 < |fill.value| && r.value == (Padded(fill.value), Boundaries(curves))
  {
    if |curves| == 0 {
      return None;
    }
    if |curves| == 1 {
      OneGainBuildsExactly(curves, overlap);
    } else {
      TwoGainsBuildExactly(curves, overlap);
    }
    var pdadc := new Byte[NUM_PDADC](_ => 0);
    FirstGainWrites(curves, overlap);
    var k: nat := 0;
    for n := 0 to |curves|
      invariant k <= NUM_PDADC - 1 && (n > 0 ==> k > 0)
      invariant Fill(Gains(curves, overlap), n) == Some(pdadc[..k])
    {
      var ok;
      ok, k := AppendGain(curves, overlap, n, pdadc, k);
      if !ok {
        NoneAfterPanic(Gains(curves, overlap), n + 1, |curves|);
        return None;
      }
    }
    RepeatLast(pdadc, k);
    r := Some((pdadc[..], Boundaries(curves)));
  }

  lemma {:induction false} NoneAfterPanic(gains: seq<Gain>, n: nat, m: nat)
    requires n <= m <= |gains| && Fill(gains, n) == None
    ensures Fill(gains, m) == None
  {
    if n < m {
      NoneAfterPanic(gains, n, m - 1);
    }
  }

  method RepeatLast(pdadc: array<Byte>, k0: nat)
    requires pdadc.Length == NUM_PDADC && 0 < k0 <= NUM_PDADC
    modifies pdadc
    ensures pdadc[..] == Padded(old(pdadc[..k0]))
  {
    var k := k0;
    while k < NUM_PDADC
      invariant k0 <= k <= NUM_PDADC
      invariant forall i | 0 <= i < k0 :: pdadc[i] == old(pdadc[i])
      invariant forall i | k0 <= i < k :: pdadc[i] == old(pdadc[k0 - 1])
    {
      pdadc[k] := pdadc[k - 1];
      k := k + 1;
    }
    assert pdadc[..] == Padded(old(pdadc[..k0]));
  }

  // ---- exactly when it builds ------------------------------------------------------------------------------------

  lemma ProductFits(x: int, step: int, v: Byte)
    requires x <= 127 && 0 <= step <= 255
    ensures v + x * step <= I16_MAX
  {
    DivMod.Monotone(step, x, 127);
  }

  /** A gain that starts at or below zero never overflows upward. */
  lemma LowStartFitsAbove(g: Gain, room: nat)
    requires g.Valid() && g.start <= 0 && room <= NUM_PDADC - 1
    ensures g.AboveFits(Max(g.start, Max(0, g.MaxIndex())), g.start + Min(g.Steps(), room))
  {
    forall ss | Max(g.start, Max(0, g.MaxIndex())) <= ss < g.start + Min(g.Steps(), room)
      ensures g.Above(ss) <= I16_MAX
    {
      ProductFits(ss - g.MaxIndex() + 1, g.HighStep(), g.v[g.Size() - 1]);
    }
  }

  /** Nor does one whose start the room already written makes up for. */
  lemma HighStartFitsAbove(g: Gain, room: nat)
    requires g.Valid() && 0 < g.start && g.start + room <= NUM_PDADC
    ensures g.AboveFits(Max(g.start, Max(0, g.MaxIndex())), g.start + Min(g.Steps(), room))
  {
    forall ss | Max(g.start, Max(0, g.MaxIndex())) <= ss < g.start + Min(g.Steps(), room)
      ensures g.Above(ss) <= I16_MAX
    {
      ProductFits(ss - g.MaxIndex() + 1, g.HighStep(), g.v[g.Size() - 1]);
    }
  }

  lemma FirstGainFits(curves: seq<Curve>, overlap: Byte)
    requires AllShaped(curves) && |curves| > 0
    ensures var g := GainOf(curves, overlap, 0);
            g.SpanFits() ==> g.NoOverflow(NUM_PDADC - 1)
  {
    var g := GainOf(curves, overlap, 0);
    if g.SpanFits() {
      DivMod.Monotone(g.LowStep(), -127, g.start);
      LowStartFitsAbove(g, NUM_PDADC - 1);
    }
  }

  /** Every curve spans 2 to 127 half-dB. */
  predicate SpansFit(curves: seq<Curve>)
    requires AllShaped(curves)
  {
    forall i | 0 <= i < |curves| :: 2 <= curves[i].MaxPwr() - curves[i].MinPwr() <= 127
  }

  /** With one gain the table is built exactly when the power span is 2 to 127 half-dB. */
  lemma {:induction false} OneGainBuildsExactly(curves: seq<Curve>, overlap: Byte)
    requires AllShaped(curves) && |curves| == 1
    ensures Fill(Gains(curves, overlap), 1).Some? <==> SpansFit(curves)
  {
    FirstGainFits(curves, overlap);
    assert Fill(Gains(curves, overlap), 0) == Some([]);
  }

  /** How many entries the first gain leaves for the second. */
  function RoomForSecond(curves: seq<Curve>, overlap: Byte): nat
    requires AllShaped(curves) && |curves| > 0
  {
    NUM_PDADC - 1 - Min(GainOf(curves, overlap, 0).Steps(), NUM_PDADC - 1)
  }

  /** A gain that starts neither too low nor beyond the entries already written does not overflow. */
  lemma NothingOverflows(g: Gain, room: nat)
    requires g.Valid() && room <= NUM_PDADC - 1
    requires room > 0 ==> -127 <= g.start && (g.start <= 0 || g.start + room <= NUM_PDADC)
    ensures g.NoOverflow(room)
  {
    if room > 0 {
      DivMod.Monotone(g.LowStep(), -127, g.start);
      if g.start <= 0 {
        LowStartFitsAbove(g, room);
      } else {
        HighStartFitsAbove(g, room);
      }
    }
  }

  /** What the first gain leaves, and where the second starts in it. */
  lemma FirstGainLeaves(curves: seq<Curve>, overlap: Byte)
    requires AllShaped(curves) && |curves| == 2
    ensures var gains, room := Gains(curves, overlap), RoomForSecond(curves, overlap);
            && (Fill(gains, 1).Some? <==> gains[0].SpanFits())
            && (Fill(gains, 1).Some? ==> |Fill(gains, 1).value| == NUM_PDADC - 1 - room)
  {
    FirstGainFits(curves, overlap);
    FirstGainWrites(curves, overlap);
    assert Fill(Gains(curves, overlap), 0) == Some([]);
  }

  /** Where anything is left, the second gain starts within reach of it. */
  lemma SecondGainStarts(curves: seq<Curve>, overlap: Byte)
    requires AllShaped(curves) && |curves| == 2
    ensures var start, room := GainOf(curves, overlap, 1).start, RoomForSecond(curves, overlap);
            room > 0 ==> -127 <= start && (start <= 0 || start + room <= NUM_PDADC)
  {
    FirstGainWrites(curves, overlap);
  }

  lemma SecondGainFits(curves: seq<Curve>, overlap: Byte)
    requires AllShaped(curves) && |curves| == 2
    ensures var g := GainOf(curves, overlap, 1);
            g.SpanFits() ==> g.NoOverflow(RoomForSecond(curves, overlap))
  {
    var g := GainOf(curves, overlap, 1);
    if g.SpanFits() {
      SecondGainStarts(curves, overlap);
      NothingOverflows(g, RoomForSecond(curves, overlap));
    }
  }

  /** With two gains it is built exactly when both power spans are 2 to 127 half-dB, whatever the overlap. */
  lemma {:induction false} TwoGainsBuildExactly(curves: seq<Curve>, overlap: Byte)
    requires AllShaped(curves) && |curves| == 2
    ensures Fill(Gains(curves, overlap), 2).Some? <==> SpansFit(curves)
  {
    var gains := Gains(curves, overlap);
    FirstGainLeaves(curves, overlap);
    if Fill(gains, 1).Some? {
      FillStep(gains, 1, Fill(gains, 1).value);
      SecondGainFits(curves, overlap);
    }
  }

  // ---- the shape of the table ---------------------------------------------------------------------------------------

  lemma DenseAt(c: Curve, i: nat)
    requires c.Shaped() && 2 <= c.MaxPwr() - c.MinPwr() <= 127 && i <= GridSteps(c.MinPwr(), c.MaxPwr())
    ensures i < 64 && c.MinPwr() + 2 * i <= c.MaxPwr()
    ensures c.Dense()[i] == Interpolate(c.pwr, c.vpd, c.MinPwr() + 2 * i)
  {
    var p := c.MinPwr() + 2 * i;
    assert p % 256 == p;
  }

  /** Each dense reading inside the span lies between the readings of the measured points around it. */
  lemma {:induction false} MeasuredEntriesAreBracketed(c: Curve, i: nat)
    requires c.Calibrated() && 2 <= c.MaxPwr() - c.MinPwr() <= 127
    requires i <= GridSteps(c.MinPwr(), c.MaxPwr())
    ensures i < 64
    ensures var p := c.MinPwr() + 2 * i;
            && Covers(c.pwr, p)
            && c.Dense()[i] == Interpolate(c.pwr, c.vpd, p)
            && var (l, r) := Bracket(c.pwr, p);
               c.pwr[l] <= p <= c.pwr[r] && c.vpd[l] <= c.Dense()[i] <= c.vpd[r]
  {
    DenseAt(c, i);
    InterpolationIsBracketed(c.pwr, c.vpd, c.MinPwr() + 2 * i);
  }

  predicate RisingUpTo(v: seq<Byte>, n: int) {
    forall i, j | 0 <= i <= j < n && j < |v| :: v[i] <= v[j]
  }

  lemma DenseRisesAt(c: Curve, i: nat, j: nat)
    requires c.Calibrated() && 2 <= c.MaxPwr() - c.MinPwr() <= 127
    requires i <= j <= GridSteps(c.MinPwr(), c.MaxPwr())
    ensures j < 64 && c.Dense()[i] <= c.Dense()[j]
  {
    DenseAt(c, i);
    DenseAt(c, j);
    InterpolationRises(c.pwr, c.vpd, c.MinPwr() + 2 * i, c.MinPwr() + 2 * j);
  }

  lemma DenseRises(c: Curve)
    requires c.Calibrated() && 2 <= c.MaxPwr() - c.MinPwr() <= 127
    ensures RisingUpTo(c.Dense(), GridSteps(c.MinPwr(), c.MaxPwr()) + 1)
  {
    forall i, j | 0 <= i <= j < GridSteps(c.MinPwr(), c.MaxPwr()) + 1
      ensures c.Dense()[i] <= c.Dense()[j]
    {
      DenseRisesAt(c, i, j);
    }
  }

  /** Extrapolation below rises toward the first reading and never passes it. */
  lemma BelowRises(g: Gain, x: int, y: int)
    requires g.Valid() && x <= y && x < 0
    ensures g.Entry(x) <= g.v[0] && (y < 0 ==> g.Entry(x) <= g.Entry(y))
  {
    DivMod.Monotone(g.LowStep(), x, y);
    DivMod.Monotone(g.LowStep(), x, 0);
  }

  /** Extrapolation above rises from the last reading. */
  lemma AboveRises(g: Gain, x: int, y: int)
    requires g.Valid() && 0 <= g.MaxIndex() <= x <= y
    ensures g.v[g.Size() - 1] <= g.Entry(x) <= g.Entry(y)
  {
    AboveGrows(g, x, y);
    EntryAbove(g, x);
    EntryAbove(g, y);
  }

  /** Extrapolation joins the measured readings without a step down. */
  lemma EntryRises(g: Gain, x: int, y: int)
    requires g.Valid() && RisingUpTo(g.v, g.Size()) && x <= y
    requires y < 0 || g.MaxIndex() >= 0
    ensures g.Entry(x) <= g.Entry(y)
  {
    if x < 0 {
      BelowRises(g, x, y);
    }
    if y >= 0 && y >= g.MaxIndex() {
      AboveRises(g, Max(x, g.MaxIndex()), y);
      AboveRises(g, y, y);
    }
  }

  /** For a calibrated curve each gain's run of the table never falls. */
  lemma {:induction false} RunRises(curves: seq<Curve>, overlap: Byte, n: nat)
    requires AllShaped(curves) && n < |curves| && curves[n].Calibrated()
    requires GainOf(curves, overlap, n).SpanFits()
    ensures Rising(GainOf(curves, overlap, n).Run())
  {
    var g := GainOf(curves, overlap, n);
    DenseRises(curves[n]);
    forall i, j | 0 <= i <= j < g.Steps()
      ensures g.Run()[i] <= g.Run()[j]
    {
      EntryRises(g, g.start + i, g.start + j);
    }
  }

  /** With one calibrated gain the whole table, repeated tail included, never falls. */
  lemma {:induction false} SingleGainTableRises(c: Curve, overlap: Byte)
    requires c.Calibrated() && 2 <= c.MaxPwr() - c.MinPwr() <= 127
    ensures var fill := Fill(Gains([c], overlap), 1);
            fill.Some? && 0 < |fill.value| && Rising(Padded(fill.value))
  {
    OneGainBuildsExactly([c], overlap);
    FirstGainWrites([c], overlap);
    RunRises([c], overlap, 0);
    var g := GainOf([c], overlap, 0);
    assert Fill(Gains([c], overlap), 0) == Some([]);
    assert Fill(Gains([c], overlap), 1) == Some([] + Prefix(g.Run(), NUM_PDADC - 1));
  }
}
