/**
 * The detector table in absolute power.  Entry `k` stands for about `k` dB, that is for `2 * k` half-dB,
 * give or take the odd half-dB of the curve it was made from.
 */
module PdadcPower {
  import opened Prelude
  import opened VpdCurve
  import opened Pdadc

  predicate Spans(c: Curve) {
    c.Shaped() && 2 <= c.MaxPwr() - c.MinPwr() <= 127
  }

  /** The highest power on the curve's grid of two half-dB. */
  function LastPower(c: Curve): (p: Byte)
    requires Spans(c)
    ensures c.MinPwr() + 2 <= p <= c.MaxPwr() < p + 2 && (p - c.MinPwr()) % 2 == 0
  {
    c.MinPwr() + (c.MaxPwr() - c.MinPwr()) / 2 * 2
  }

  /**
   * `x` is the table's value for power `p` of a curve whose readings are taken up to, not including,
   * power `top`: the interpolated reading in the measured span; below it the line through the first two
   * grid readings, and above it the line through the last two, each rising at least one per step.
   */
  predicate Tabulates(x: int, c: Curve, p: int, top: int)
    requires Spans(c) && top <= LastPower(c) + 2
  {
    if p < c.MinPwr() then
      var first, second := Interpolate(c.pwr, c.vpd, c.MinPwr()), Interpolate(c.pwr, c.vpd, c.MinPwr() + 2);
      x == Clamp(first - (c.MinPwr() - p) / 2 * Max(second as int - first as int, 1), 0, 255)
    else if p < top then p <= LastPower(c) + 1 && p < 256 && x == Interpolate(c.pwr, c.vpd, p)
    else
      var last, before := Interpolate(c.pwr, c.vpd, LastPower(c)), Interpolate(c.pwr, c.vpd, LastPower(c) - 2);
      x == Clamp(last + ((p - top) / 2 + 1) * Max(last as int - before as int, 1), 0, 255)
  }

  // ---- one gain -------------------------------------------------------------------------------------------

  lemma DenseReads(c: Curve, i: nat)
    requires Spans(c) && c.MinPwr() + 2 * i <= LastPower(c)
    ensures i < 64 && c.Dense()[i] == Interpolate(c.pwr, c.vpd, c.MinPwr() + 2 * i)
  {
    DenseAt(c, i);
  }

  lemma LowReadings(g: Gain, c: Curve)
    requires Spans(c) && g.v == c.Dense() && g.minPwr == c.MinPwr() && g.maxPwr == c.MaxPwr()
    ensures |g.v| == 64 && g.v[0] == Interpolate(c.pwr, c.vpd, c.MinPwr())
    ensures g.v[1] == Interpolate(c.pwr, c.vpd, c.MinPwr() + 2)
  {
    DenseReads(c, 0);
    DenseReads(c, 1);
  }

  lemma HighReadings(g: Gain, c: Curve)
    requires Spans(c) && g.v == c.Dense() && g.minPwr == c.MinPwr() && g.maxPwr == c.MaxPwr()
    ensures |g.v| == 64 && 2 <= g.Size() <= 64 && LastPower(c) == c.MinPwr() + 2 * (g.Size() - 1)
    ensures g.v[g.Size() - 1] == Interpolate(c.pwr, c.vpd, LastPower(c))
    ensures g.v[g.Size() - 2] == Interpolate(c.pwr, c.vpd, LastPower(c) - 2)
  {
    DenseReads(c, g.Size() - 1);
    DenseReads(c, g.Size() - 2);
  }

  predicate Describes(g: Gain, c: Curve) {
    Spans(c) && g.v == c.Dense() && g.minPwr == c.MinPwr() && g.maxPwr == c.MaxPwr() && g.Valid()
  }

  lemma StepsDown(x: int, ss: int, low: int, p: int, step: int)
    requires p == low + 2 * ss
    ensures x + ss * step == x - (low - p) / 2 * step
  {
    assert (low - p) / 2 == -ss;
    assert (-ss) * step == -(ss * step);
  }

  lemma EntryBelow(g: Gain, c: Curve, ss: int)
    requires Describes(g, c) && ss < 0
    ensures var first, second := Interpolate(c.pwr, c.vpd, c.MinPwr()), Interpolate(c.pwr, c.vpd, c.MinPwr() + 2);
            var p := c.MinPwr() + 2 * ss;
            g.Entry(ss) == Clamp(first - (c.MinPwr() - p) / 2 * Max(second as int - first as int, 1), 0, 255)
  {
    LowReadings(g, c);
    StepsDown(g.v[0] as int, ss, c.MinPwr() as int, c.MinPwr() + 2 * ss, g.LowStep());
  }

  lemma EntryMeasured(g: Gain, c: Curve, ss: int)
    requires Describes(g, c) && 0 <= ss < Min(g.target, g.Size())
    ensures c.MinPwr() + 2 * ss <= LastPower(c)
    ensures g.Entry(ss) == Interpolate(c.pwr, c.vpd, c.MinPwr() + 2 * ss)
  {
    HighReadings(g, c);
    DenseReads(c, ss);
  }

  lemma EntryBeyond(g: Gain, c: Curve, ss: int)
    requires Describes(g, c) && 0 <= ss && Min(g.target, g.Size()) <= ss
    ensures var last, before := Interpolate(c.pwr, c.vpd, LastPower(c)), Interpolate(c.pwr, c.vpd, LastPower(c) - 2);
            g.Entry(ss) == Clamp(last + (ss - Min(g.target, g.Size()) + 1) * Max(last as int - before as int, 1),
                                 0, 255)
  {
    HighReadings(g, c);
    var first, step := g.v[g.Size() - 1] as int, g.HighStep();
    assert g.Entry(ss) == Clamp(g.Above(ss), 0, 255);
    assert g.Above(ss) == first + (ss - Min(g.target, g.Size()) + 1) * step;
  }

  /** The steps of a gain's run, read as powers. */
  lemma EntryInPower(g: Gain, c: Curve, ss: int)
    requires Describes(g, c)
    ensures c.MinPwr() + 2 * Min(g.target, g.Size()) <= LastPower(c) + 2
    ensures Tabulates(g.Entry(ss), c, c.MinPwr() + 2 * ss, c.MinPwr() + 2 * Min(g.target, g.Size()))
  {
    HighReadings(g, c);
    if ss < 0 {
      EntryBelow(g, c, ss);
    } else if ss < Min(g.target, g.Size()) {
      EntryMeasured(g, c, ss);
    } else {
      EntryBeyond(g, c, ss);
      assert (c.MinPwr() + 2 * ss - (c.MinPwr() + 2 * Min(g.target, g.Size()))) / 2 == ss - Min(g.target, g.Size());
    }
  }

  /** The entries of a run, counted from its first. */
  lemma RunInPower(g: Gain, c: Curve, room: nat, i: nat)
    requires Describes(g, c) && i < |Prefix(g.Run(), room)|
    ensures c.MinPwr() + 2 * Min(g.target, g.Size()) <= LastPower(c) + 2
    ensures Tabulates(Prefix(g.Run(), room)[i], c, c.MinPwr() + 2 * (g.start + i),
                      c.MinPwr() + 2 * Min(g.target, g.Size()))
  {
    EntryInPower(g, c, g.start + i);
  }

  // ---- the table ------------------------------------------------------------------------------------------

  /** The entries the first gain writes. */
  function FirstRun(curves: seq<Curve>, overlap: Byte): seq<Byte>
    requires AllShaped(curves) && 0 < |curves| <= 2 && SpansFit(curves)
  {
    Prefix(GainOf(curves, overlap, 0).Run(), NUM_PDADC - 1)
  }

  /** The entries the second gain writes in what is left. */
  function SecondRun(curves: seq<Curve>, overlap: Byte): seq<Byte>
    requires AllShaped(curves) && |curves| == 2 && SpansFit(curves)
  {
    Prefix(GainOf(curves, overlap, 1).Run(), Max(NUM_PDADC - 1 - |FirstRun(curves, overlap)|, 0))
  }

  lemma FillFirst(curves: seq<Curve>, overlap: Byte)
    requires AllShaped(curves) && 0 < |curves| <= 2 && SpansFit(curves)
    ensures Fill(Gains(curves, overlap), 1) == Some(FirstRun(curves, overlap)) && FirstRun(curves, overlap) != []
  {
    FirstGainFits(curves, overlap);
    FirstGainWrites(curves, overlap);
    assert Fill(Gains(curves, overlap), 0) == Some([]);
    FillStep(Gains(curves, overlap), 0, []);
    assert [] + FirstRun(curves, overlap) == FirstRun(curves, overlap);
  }

  lemma FillSecond(curves: seq<Curve>, overlap: Byte)
    requires AllShaped(curves) && |curves| == 2 && SpansFit(curves)
    ensures Fill(Gains(curves, overlap), 2) == Some(FirstRun(curves, overlap) + SecondRun(curves, overlap))
  {
    FillFirst(curves, overlap);
    TwoGainsBuildExactly(curves, overlap);
    FillStep(Gains(curves, overlap), 1, Fill(Gains(curves, overlap), 1).value);
  }

  lemma FirstDescribes(curves: seq<Curve>, overlap: Byte, n: nat)
    requires AllShaped(curves) && SpansFit(curves) && n < |curves|
    ensures Describes(GainOf(curves, overlap, n), curves[n])
  {
  }

  lemma PaddedAt(s: seq<Byte>, k: nat)
    requires 0 < |s| <= NUM_PDADC && k < NUM_PDADC
    ensures Padded(s)[k] == if k < |s| then s[k] else s[|s| - 1]
    ensures 0 < k && |s| <= k ==> Padded(s)[k] == Padded(s)[k - 1]
  {
  }

  /** How many entries the first gain writes. */
  lemma FirstRunLength(curves: seq<Curve>, overlap: Byte)
    requires AllShaped(curves) && 0 < |curves| <= 2 && SpansFit(curves)
    ensures |FirstRun(curves, overlap)|
            == Min(Max(Boundary(curves, 0) + overlap, curves[0].MinPwr() / 2 - 1), NUM_PDADC - 2) + 1
  {
  }

  /** The entries of the first gain, whichever its boundary. */
  lemma FirstRunInPower(curves: seq<Curve>, overlap: Byte, k: nat, reach: int)
    requires AllShaped(curves) && 0 < |curves| <= 2 && SpansFit(curves)
    requires k < |FirstRun(curves, overlap)| && reach == Boundary(curves, 0) + overlap
    ensures var c := curves[0];
            Tabulates(FirstRun(curves, overlap)[k], c, 2 * k + c.MinPwr() % 2,
                      Min(LastPower(c) + 2, 2 * reach + c.MinPwr() % 2))
  {
    var c, g := curves[0], GainOf(curves, overlap, 0);
    FirstDescribes(curves, overlap, 0);
    RunInPower(g, c, NUM_PDADC - 1, k);
    assert c.MinPwr() + 2 * (g.start + k) == 2 * k + c.MinPwr() % 2;
    TopOfRun(g, c, reach);
  }

  lemma TopOfRun(g: Gain, c: Curve, reach: int)
    requires Describes(g, c) && g.target == reach - c.MinPwr() / 2
    ensures c.MinPwr() + 2 * Min(g.target, g.Size()) == Min(LastPower(c) + 2, 2 * reach + c.MinPwr() % 2)
  {
    HighReadings(g, c);
  }

  /** The table `Build` returns. */
  ghost predicate TableOf(curves: seq<Curve>, overlap: Byte, t: seq<Byte>)
    requires AllShaped(curves)
  {
    var fill := Fill(Gains(curves, overlap), |curves|);
    fill.Some? && 0 < |fill.value| && t == Padded(fill.value)
  }

  lemma OneRun(curves: seq<Curve>, overlap: Byte)
    requires AllShaped(curves) && |curves| == 1 && SpansFit(curves)
    ensures Fill(Gains(curves, overlap), 1) == Some(FirstRun(curves, overlap))
    ensures Boundary(curves, 0) == Min(curves[0].MaxPwr() / 2, 63)
    ensures |FirstRun(curves, overlap)|
            == Min(Max(Min(curves[0].MaxPwr() / 2, 63) + overlap, curves[0].MinPwr() / 2 - 1), 126) + 1
  {
    FillFirst(curves, overlap);
    OnlyBoundary(curves);
    FirstRunLength(curves, overlap);
  }

  lemma OnlyBoundary(curves: seq<Curve>)
    requires AllShaped(curves) && |curves| == 1
    ensures Boundary(curves, 0) == Min(curves[0].MaxPwr() / 2, 63)
  {
  }

  /**
   * With one curve, entry `k` holds the value for power `2 * k`, up to half the highest power, at most 63,
   * and the overlap beyond it; from there on the last value is repeated.
   */
  lemma {:induction false} OneCurveInPower(curves: seq<Curve>, overlap: Byte, t: seq<Byte>, reach: int, last: int,
                                           k: nat)
    requires AllShaped(curves) && |curves| == 1 && SpansFit(curves) && TableOf(curves, overlap, t)
    requires reach == Min(curves[0].MaxPwr() / 2, 63) + overlap
    requires last == Min(Max(reach, curves[0].MinPwr() / 2 - 1), 126)
    requires k < NUM_PDADC
    ensures |t| == NUM_PDADC && 0 <= last < NUM_PDADC
    ensures k <= last ==>
              var c := curves[0];
              Tabulates(t[k], c, 2 * k + c.MinPwr() % 2, Min(LastPower(c) + 2, 2 * reach + c.MinPwr() % 2))
    ensures k > last ==> t[k] == t[last]
  {
    OneRun(curves, overlap);
    var run := FirstRun(curves, overlap);
    PaddedAt(run, k);
    PaddedAt(run, last);
    if k <= last {
      FirstRunInPower(curves, overlap, k, reach);
    }
  }

  // ---- two gains ------------------------------------------------------------------------------------------

  /** The boundary between two gains is half the power midway between the curves, at most 63; the last one is half
      the highest power. */
  lemma BoundaryIsMidway(curves: seq<Curve>)
    requires AllShaped(curves) && |curves| == 2
    ensures Boundary(curves, 0) == Min((curves[0].MaxPwr() + curves[1].MinPwr()) / 4, 63)
    ensures Boundary(curves, 1) == Min(curves[1].MaxPwr() / 2, 63)
    ensures Boundaries(curves) == [Boundary(curves, 0), Boundary(curves, 1), 58, 58]
  {
  }

  /** Where the second gain starts: as far below the boundary as the first one goes beyond it, and one step on. */
  lemma SecondRunInPower(curves: seq<Curve>, overlap: Byte, i: nat, middle: int, reach: int)
    requires AllShaped(curves) && |curves| == 2 && SpansFit(curves)
    requires i < |SecondRun(curves, overlap)|
    requires middle == Boundary(curves, 0) && reach == Boundary(curves, 1) + overlap
    ensures var c := curves[1];
            Tabulates(SecondRun(curves, overlap)[i], c, 2 * (middle - overlap + 1 + i) + c.MinPwr() % 2,
                      Min(LastPower(c) + 2, 2 * reach + c.MinPwr() % 2))
  {
    var c, g := curves[1], GainOf(curves, overlap, 1);
    FirstDescribes(curves, overlap, 1);
    RunInPower(g, c, Max(NUM_PDADC - 1 - |FirstRun(curves, overlap)|, 0), i);
    assert c.MinPwr() + 2 * (g.start + i) == 2 * (middle - overlap + 1 + i) + c.MinPwr() % 2;
    TopOfRun(g, c, reach);
  }

  lemma TwoRuns(curves: seq<Curve>, overlap: Byte)
    requires AllShaped(curves) && |curves| == 2 && SpansFit(curves)
    ensures Fill(Gains(curves, overlap), 2) == Some(FirstRun(curves, overlap) + SecondRun(curves, overlap))
    ensures var lastA := Min(Max(Boundary(curves, 0) + overlap, curves[0].MinPwr() / 2 - 1), 126);
            var until := Max(Boundary(curves, 1) + overlap, curves[1].MinPwr() / 2 - 1);
            && |FirstRun(curves, overlap)| == lastA + 1
            && |SecondRun(curves, overlap)| == Min(Max(until - (Boundary(curves, 0) - overlap), 0), 126 - lastA)
  {
    FillSecond(curves, overlap);
    FirstRunLength(curves, overlap);
  }

  /** How the table is divided: where the boundary lies, and how far either gain reaches. */
  predicate Divided(curves: seq<Curve>, overlap: Byte, middle: int, last: int, reach: int)
    requires AllShaped(curves) && |curves| == 2
  {
    && middle == Min((curves[0].MaxPwr() + curves[1].MinPwr()) / 4, 63)
    && last == Min(Max(middle + overlap, curves[0].MinPwr() / 2 - 1), 126)
    && reach == Min(curves[1].MaxPwr() / 2, 63) + overlap
  }

  lemma EntryOfFirst(curves: seq<Curve>, overlap: Byte, t: seq<Byte>, middle: int, last: int, reach: int, k: nat)
    requires AllShaped(curves) && |curves| == 2 && SpansFit(curves) && TableOf(curves, overlap, t)
    requires Divided(curves, overlap, middle, last, reach) && k <= last
    ensures |t| == NUM_PDADC && last < NUM_PDADC && Boundary(curves, 0) == middle
    ensures k < |FirstRun(curves, overlap)| && t[k] == FirstRun(curves, overlap)[k]
  {
    TwoRuns(curves, overlap);
    BoundaryIsMidway(curves);
    PaddedAt(FirstRun(curves, overlap) + SecondRun(curves, overlap), k);
  }

  lemma EntryOfSecond(curves: seq<Curve>, overlap: Byte, t: seq<Byte>, middle: int, last: int, reach: int, i: nat)
    requires AllShaped(curves) && |curves| == 2 && SpansFit(curves) && TableOf(curves, overlap, t)
    requires Divided(curves, overlap, middle, last, reach) && last + 1 + i < 127
    requires middle - overlap + 1 + i <= Max(reach, curves[1].MinPwr() / 2 - 1)
    ensures |t| == NUM_PDADC && 0 <= last && Boundary(curves, 0) == middle && Boundary(curves, 1) + overlap == reach
    ensures i < |SecondRun(curves, overlap)| && t[last + 1 + i] == SecondRun(curves, overlap)[i]
  {
    TwoRuns(curves, overlap);
    BoundaryIsMidway(curves);
    PaddedAt(FirstRun(curves, overlap) + SecondRun(curves, overlap), last + 1 + i);
  }

  /** With two curves the first gain fills the entries up to the boundary and the overlap beyond it. */
  lemma {:induction false} FirstCurveInPower(curves: seq<Curve>, overlap: Byte, t: seq<Byte>, middle: int, last: int,
                                             reach: int, k: nat)
    requires AllShaped(curves) && |curves| == 2 && SpansFit(curves) && TableOf(curves, overlap, t)
    requires Divided(curves, overlap, middle, last, reach) && k <= last
    ensures |t| == NUM_PDADC && last < NUM_PDADC
    ensures var a := curves[0];
            Tabulates(t[k], a, 2 * k + a.MinPwr() % 2, Min(LastPower(a) + 2, 2 * (middle + overlap) + a.MinPwr() % 2))
  {
    EntryOfFirst(curves, overlap, t, middle, last, reach, k);
    FirstRunInPower(curves, overlap, k, middle + overlap);
  }

  /**
   * The next entry stands for a power of the second curve that lies the overlap, less one step, below the
   * boundary, and each further entry for one step more, up to the second boundary and the overlap beyond it.
   */
  lemma {:induction false} SecondCurveInPower(curves: seq<Curve>, overlap: Byte, t: seq<Byte>, middle: int, last: int,
                                              reach: int, i: nat)
    requires AllShaped(curves) && |curves| == 2 && SpansFit(curves) && TableOf(curves, overlap, t)
    requires Divided(curves, overlap, middle, last, reach) && last + 1 + i < 127
    requires middle - overlap + 1 + i <= Max(reach, curves[1].MinPwr() / 2 - 1)
    ensures |t| == NUM_PDADC && 0 <= last
    ensures var b := curves[1];
            Tabulates(t[last + 1 + i], b, 2 * (middle - overlap + 1 + i) + b.MinPwr() % 2,
                      Min(LastPower(b) + 2, 2 * reach + b.MinPwr() % 2))
  {
    EntryOfSecond(curves, overlap, t, middle, last, reach, i);
    SecondRunInPower(curves, overlap, i, middle, reach);
  }

  /** Behind the last entry of the second gain its value is repeated. */
  lemma {:induction false} RestIsRepeated(curves: seq<Curve>, overlap: Byte, t: seq<Byte>, middle: int, last: int,
                                          reach: int, k: nat)
    requires AllShaped(curves) && |curves| == 2 && SpansFit(curves) && TableOf(curves, overlap, t)
    requires Divided(curves, overlap, middle, last, reach) && last < k < NUM_PDADC
    requires k == 127 || middle - overlap + (k - last) > Max(reach, curves[1].MinPwr() / 2 - 1)
    ensures |t| == NUM_PDADC && t[k] == t[k - 1]
  {
    TwoRuns(curves, overlap);
    BoundaryIsMidway(curves);
    PaddedAt(FirstRun(curves, overlap) + SecondRun(curves, overlap), k);
  }
}
