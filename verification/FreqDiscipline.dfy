/**
 * The frequency-discipline loop: measure the residual skew, hold inside a deadband, otherwise steer
 * a clamped, coarsely quantised trim by the residual.  Skews are exact reals, in ppm.
 */
module FreqDiscipline {
  import opened Prelude

  /** `f32::EPSILON`, two to the minus 23. */
  const EPSILON: real := 1.0 / 8388608.0

  datatype ClockSteering = ClockSteering(rangePpm: real, resolutionPpm: real)

  datatype FreqAction =
    | Held(residualPpm: real)
    | Steered(requestedPpm: real, appliedPpm: real)
    | Saturated(wantedPpm: real, appliedPpm: real)

  function ClampReal(x: real, lo: real, hi: real): real {
    if x < lo then lo else if x > hi then hi else x
  }

  /** What the trim reports for a commanded value; `None` when the register write fails. */
  type Actuator = real -> Option<real>

  // ---- one tick ------------------------------------------------------------------------------------------

  /** Trim after a tick, and what the tick did; `None` when the radio refused to steer. */
  function Tick(act: Actuator, limits: ClockSteering, deadband: real, applied: real, measured: real)
    : (real, Option<FreqAction>)
  {
    if AbsReal(measured) <= deadband then (applied, Some(Held(measured)))
    else
      var wanted := applied - measured;
      var clamped := ClampReal(wanted, -limits.rangePpm, limits.rangePpm);
      var done := act(clamped);
      if done.None? then (applied, None)
      else if AbsReal(clamped - wanted) > EPSILON then (done.value, Some(Saturated(wanted, done.value)))
      else (done.value, Some(Steered(clamped, done.value)))
  }

  predicate InRange(limits: ClockSteering, x: real) {
    -limits.rangePpm <= x <= limits.rangePpm
  }

  /** The command in range nearest to the wanted trim. */
  ghost predicate BestCommand(limits: ClockSteering, wanted: real, command: real) {
    && InRange(limits, command)
    && forall x: real | InRange(limits, x) :: AbsReal(command - wanted) <= AbsReal(x - wanted)
  }

  lemma ClampIsBest(limits: ClockSteering, wanted: real)
    requires limits.rangePpm >= 0.0
    ensures BestCommand(limits, wanted, ClampReal(wanted, -limits.rangePpm, limits.rangePpm))
  {
  }

  class Discipline {
    const act: Actuator
    const limits: ClockSteering
    var appliedPpm: real
    var deadbandPpm: real

    /** A loop starts unsteered, with a deadband of one trim step. */
    constructor (act: Actuator, limits: ClockSteering)
      ensures this.act == act && this.limits == limits
      ensures appliedPpm == 0.0 && deadbandPpm == limits.resolutionPpm
    {
      this.act, this.limits := act, limits;
      appliedPpm, deadbandPpm := 0.0, limits.resolutionPpm;
    }

    method WithAppliedPpm(ppm: real)
      modifies this`appliedPpm
      ensures appliedPpm == ppm
    {
      appliedPpm := ppm;
    }

    method WithDeadbandPpm(ppm: real)
      modifies this`deadbandPpm
      ensures deadbandPpm == ppm
    {
      deadbandPpm := ppm;
    }

    /**
     * Inside the deadband nothing moves.  Outside, the radio is given the command in range nearest to
     * the trim that would cancel the measured skew; the trim it reports back is kept, a refusal leaves
     * the old one, and the action is called saturated exactly when the command falls short of it.
     * Steering needs a range that is an interval: the source panics on any other.
     */
    method Update(measuredSkewPpm: real) returns (r: Option<FreqAction>)
      requires AbsReal(measuredSkewPpm) > deadbandPpm ==> limits.rangePpm >= 0.0
      modifies this`appliedPpm
      ensures AbsReal(measuredSkewPpm) <= deadbandPpm ==>
                appliedPpm == old(appliedPpm) && r == Some(Held(measuredSkewPpm))
      ensures AbsReal(measuredSkewPpm) > deadbandPpm ==>
                exists command ::
                  && BestCommand(limits, old(appliedPpm) - measuredSkewPpm, command)
                  && (r.None? <==> act(command).None?)
                  && appliedPpm == (if r.None? then old(appliedPpm) else act(command).value)
                  && (r.Some? ==>
                        && !r.value.Held? && r.value.appliedPpm == appliedPpm
                        && (r.value.Saturated? <==>
                              AbsReal(command - (old(appliedPpm) - measuredSkewPpm)) > EPSILON)
                        && (r.value.Saturated? ==> r.value.wantedPpm == old(appliedPpm) - measuredSkewPpm)
                        && (r.value.Steered? ==> r.value.requestedPpm == command))
      ensures (appliedPpm, r) == Tick(act, limits, deadbandPpm, old(appliedPpm), measuredSkewPpm)
    {
      if AbsReal(measuredSkewPpm) <= deadbandPpm {
        return Some(Held(measuredSkewPpm));
      }
      var wanted := appliedPpm - measuredSkewPpm;
      var clamped := ClampReal(wanted, -limits.rangePpm, limits.rangePpm);
      ClampIsBest(limits, wanted);
      var applied := act(clamped);
      if applied.None? {
        return None;
      }
      appliedPpm := applied.value;
      r := if AbsReal(clamped - wanted) > EPSILON then Some(Saturated(wanted, applied.value))
           else Some(Steered(clamped, applied.value));
    }

    method UpdatePpb(measuredSkewPpb: int) returns (r: Option<FreqAction>)
      requires AbsReal(measuredSkewPpb as real / 1000.0) > deadbandPpm ==> limits.rangePpm >= 0.0
      modifies this`appliedPpm
      ensures (appliedPpm, r) == Tick(act, limits, deadbandPpm, old(appliedPpm), measuredSkewPpb as real / 1000.0)
    {
      r := Update(measuredSkewPpb as real / 1000.0);
    }
  }

  // ---- runs ------------------------------------------------------------------------------------------------

  /** One tick's surroundings: true skew, measurement noise, and whether the radio accepts a write. */
  datatype Input = Input(skew: real, noise: real, accepts: bool)

  /** The loop's fixed parts: the trim as a function of the command, its limits, and the deadband. */
  datatype Plant = Plant(trim: real -> real, limits: ClockSteering, deadband: real) {

    function Actuate(accepts: bool): Actuator {
      (ppm: real) => if accepts then Some(trim(ppm)) else None
    }

    /** The measurement sees the true skew, the trim already in place, and noise. */
    function Next(applied: real, i: Input): (real, Option<FreqAction>) {
      Tick(Actuate(i.accepts), limits, deadband, applied, i.skew + applied + i.noise)
    }

    function Run(applied: real, inputs: seq<Input>): real
      decreases |inputs|
    {
      if inputs == [] then applied else Run(Next(applied, inputs[0]).0, inputs[1..])
    }

    /** Ticks of a run that moved the trim. */
    function Steers(applied: real, inputs: seq<Input>): nat
      decreases |inputs|
    {
      if inputs == [] then 0
      else
        var n := Next(applied, inputs[0]);
        (if n.1.Some? && !n.1.value.Held? then 1 else 0) + Steers(n.0, inputs[1..])
    }

    /** The trim lands within `e` of any command in range. */
    ghost predicate AccurateTo(e: real) {
      && limits.rangePpm >= 0.0
      && forall x: real | -limits.rangePpm <= x <= limits.rangePpm :: AbsReal(trim(x) - x) <= e
    }
  }

  predicate NoiseWithin(inputs: seq<Input>, eta: real) {
    forall i | 0 <= i < |inputs| :: AbsReal(inputs[i].noise) <= eta
  }

  predicate ConstantSkew(inputs: seq<Input>, s: real) {
    forall i | 0 <= i < |inputs| :: inputs[i].skew == s
  }

  // ---- the quantised, clamped trim -----------------------------------------------------------------------

  /** Rounds half away from zero. */
  function Round(x: real): int {
    if x >= 0.0 then (x + 0.5).Floor else -((-x + 0.5).Floor)
  }

  /** The nearest whole number of steps. */
  function ToGrid(step: real, ppm: real): real
    requires step > 0.0
  {
    Round(ppm / step) as real * step
  }

  function Quantise(step: real, range: real, ppm: real): real
    requires step > 0.0
  {
    ClampReal(ToGrid(step, ppm), -range, range)
  }

  function Quantised(step: real, range: real): real -> real
    requires step > 0.0
  {
    (ppm: real) => Quantise(step, range, ppm)
  }

  lemma RoundIsNear(x: real)
    ensures AbsReal(Round(x) as real - x) <= 0.5
  {
  }

  /** Rounding a quotient and multiplying back misses by at most half the divisor. */
  lemma RoundedMultiple(step: real, x: real, q: real)
    requires step > 0.0 && q * step == x
    ensures AbsReal(Round(q) as real * step - x) <= step / 2.0
  {
    RoundIsNear(q);
    HalfStep(Round(q) as real - q, step);
  }

  lemma ClampNearer(y: real, x: real, range: real)
    requires -range <= x <= range
    ensures AbsReal(ClampReal(y, -range, range) - x) <= AbsReal(y - x)
  {
  }

  lemma QuotientBack(x: real, step: real)
    requires step != 0.0
    ensures x / step * step == x
  {
  }

  lemma GridError(step: real, x: real)
    requires step > 0.0
    ensures AbsReal(ToGrid(step, x) - x) <= step / 2.0
  {
    QuotientBack(x, step);
    RoundedMultiple(step, x, x / step);
  }

  lemma QuantisedError(step: real, range: real, x: real)
    requires step > 0.0 && -range <= x <= range
    ensures AbsReal(Quantise(step, range, x) - x) <= step / 2.0
  {
    GridError(step, x);
    ClampNearer(ToGrid(step, x), x, range);
  }

  lemma HalfStep(d: real, step: real)
    requires AbsReal(d) <= 0.5 && step > 0.0
    ensures AbsReal(d * step) <= step / 2.0
  {
    assert (0.5 - d) * step >= 0.0 && (0.5 + d) * step >= 0.0;
  }

  /** A stepped, clamped trim is accurate to half its step. */
  lemma QuantisedIsAccurate(step: real, range: real, deadband: real)
    requires step > 0.0 && range >= 0.0
    ensures Plant(Quantised(step, range), ClockSteering(range, step), deadband).AccurateTo(step / 2.0)
  {
    forall x: real | -range <= x <= range
      ensures AbsReal(Quantised(step, range)(x) - x) <= step / 2.0
    {
      QuantisedError(step, range, x);
    }
  }

  /** A whole number of steps. */
  function Steps(step: real, k: int): real {
    k as real * step
  }

  lemma StepsApart(step: real, k: int, m: int)
    requires step > 0.0 && k != m
    ensures AbsReal(Steps(step, m) - Steps(step, k)) >= step
  {
    var d := (m - k) as real;
    assert Steps(step, m) - Steps(step, k) == d * step;
    if d >= 1.0 {
      assert (d - 1.0) * step >= 0.0;
    } else {
      assert (-d - 1.0) * step >= 0.0;
    }
  }

  /** No whole number of steps is nearer than one within half a step. */
  lemma HalfStepIsNearest(step: real, ppm: real, k: int)
    requires step > 0.0 && AbsReal(Steps(step, k) - ppm) <= step / 2.0
    ensures forall m: int :: AbsReal(Steps(step, k) - ppm) <= AbsReal(Steps(step, m) - ppm)
  {
    forall m: int
      ensures AbsReal(Steps(step, k) - ppm) <= AbsReal(Steps(step, m) - ppm)
    {
      if m != k {
        StepsApart(step, k, m);
      }
    }
  }

  /** The trim never leaves its range, and inside it rests on a whole number of steps, none of which is nearer. */
  lemma QuantisedIsNearest(step: real, range: real, ppm: real) returns (k: int)
    requires step > 0.0 && range >= 0.0
    ensures var trim := Quantise(step, range, ppm);
            && -range <= trim <= range
            && (-range < trim < range ==>
                  trim == Steps(step, k) && forall m: int :: AbsReal(trim - ppm) <= AbsReal(Steps(step, m) - ppm))
            && (-range < trim == range ==> ppm + step / 2.0 >= range)
            && (range > trim == -range ==> ppm - step / 2.0 <= -range)
  {
    k := Round(ppm / step);
    GridError(step, ppm);
    assert ToGrid(step, ppm) == Steps(step, k);
    HalfStepIsNearest(step, ppm, k);
  }

  // ---- convergence --------------------------------------------------------------------------------------------

  /** What an accepted steer leaves: at most the actuator error and the noise it was computed from. */
  lemma SteerLeaves(p: Plant, e: real, eta: real, applied: real, i: Input)
    requires p.AccurateTo(e) && AbsReal(i.noise) <= eta && AbsReal(i.skew) <= p.limits.rangePpm + eta
    requires i.accepts && AbsReal(i.skew + applied + i.noise) > p.deadband
    ensures AbsReal(i.skew + p.Next(applied, i).0) <= e + eta
  {
    var wanted := applied - (i.skew + applied + i.noise);
    var clamped := ClampReal(wanted, -p.limits.rangePpm, p.limits.rangePpm);
    assert wanted == -i.skew - i.noise;
    assert AbsReal(p.trim(clamped) - clamped) <= e;
    assert AbsReal(clamped + i.skew) <= eta;
  }

  /** Once the residual is small enough that noise cannot lift it out of the deadband, nothing moves again. */
  lemma {:induction false} SettledStaysHeld(p: Plant, eta: real, applied: real, s: real, inputs: seq<Input>)
    requires ConstantSkew(inputs, s) && NoiseWithin(inputs, eta)
    requires AbsReal(s + applied) + eta <= p.deadband
    ensures p.Steers(applied, inputs) == 0 && p.Run(applied, inputs) == applied
    decreases |inputs|
  {
    if inputs != [] {
      assert inputs[0].skew == s && AbsReal(inputs[0].noise) <= eta;
      SettledStaysHeld(p, eta, applied, s, inputs[1..]);
    }
  }

  /** Every steer under this skew and noise leaves a residual of at most `r`. */
  ghost predicate SteersWithin(p: Plant, eta: real, s: real, r: real) {
    forall applied: real, noise: real | AbsReal(noise) <= eta && AbsReal(s + applied + noise) > p.deadband ::
      AbsReal(s + p.Next(applied, Input(s, noise, true)).0) <= r
  }

  lemma {:induction false} OneSteerIsEnough(p: Plant, eta: real, s: real, r: real, applied: real,
                                            inputs: seq<Input>)
    requires SteersWithin(p, eta, s, r) && r + eta <= p.deadband
    requires ConstantSkew(inputs, s) && NoiseWithin(inputs, eta)
    ensures p.Steers(applied, inputs) <= 1
    ensures p.Steers(applied, inputs) == 1 ==> AbsReal(s + p.Run(applied, inputs)) <= r
    decreases |inputs|
  {
    if inputs != [] {
      var i := inputs[0];
      assert i.skew == s && AbsReal(i.noise) <= eta;
      var next := p.Next(applied, i).0;
      if AbsReal(s + applied + i.noise) > p.deadband && i.accepts {
        assert i == Input(s, i.noise, true);
        SettledStaysHeld(p, eta, next, s, inputs[1..]);
      } else {
        assert next == applied;
        OneSteerIsEnough(p, eta, s, r, applied, inputs[1..]);
      }
    }
  }

  /**
   * Any constant skew the trim can reach, up to the noise, is corrected by at most one steer in a
   * run of any length from any starting trim: there is no limit cycle.
   */
  lemma AtMostOneSteer(p: Plant, e: real, eta: real, applied: real, s: real, inputs: seq<Input>)
    requires p.AccurateTo(e) && 0.0 <= eta && e + 2.0 * eta <= p.deadband
    requires AbsReal(s) <= p.limits.rangePpm + eta
    requires ConstantSkew(inputs, s) && NoiseWithin(inputs, eta)
    ensures p.Steers(applied, inputs) <= 1
    ensures p.Steers(applied, inputs) == 1 ==> AbsReal(s + p.Run(applied, inputs)) <= e + eta
  {
    forall applied: real, noise: real | AbsReal(noise) <= eta && AbsReal(s + applied + noise) > p.deadband
      ensures AbsReal(s + p.Next(applied, Input(s, noise, true)).0) <= e + eta
    {
      SteerLeaves(p, e, eta, applied, Input(s, noise, true));
    }
    OneSteerIsEnough(p, eta, s, e + eta, applied, inputs);
  }

  /** A skew further out than the noise can reach always commands the same end of the range. */
  lemma SaturatedCommand(p: Plant, eta: real, applied: real, i: Input)
    requires p.limits.rangePpm >= 0.0 && AbsReal(i.noise) <= eta && AbsReal(i.skew) > p.limits.rangePpm + eta
    requires i.accepts && AbsReal(i.skew + applied + i.noise) > p.deadband
    ensures p.Next(applied, i).0 == p.trim(if i.skew > 0.0 then -p.limits.rangePpm else p.limits.rangePpm)
  {
  }

  /** Beyond range the trim, once steered, rests at one fixed value for ever. */
  lemma {:induction false} OutOfRangeSettles(p: Plant, eta: real, applied: real, s: real, inputs: seq<Input>)
    requires p.limits.rangePpm >= 0.0 && 0.0 <= eta && AbsReal(s) > p.limits.rangePpm + eta
    requires ConstantSkew(inputs, s) && NoiseWithin(inputs, eta)
    ensures var rest := p.trim(if s > 0.0 then -p.limits.rangePpm else p.limits.rangePpm);
            p.Run(applied, inputs) == if p.Steers(applied, inputs) == 0 then applied else rest
    decreases |inputs|
  {
    if inputs != [] {
      var i := inputs[0];
      assert i.skew == s && AbsReal(i.noise) <= eta;
      var next := p.Next(applied, i);
      OutOfRangeSettles(p, eta, next.0, s, inputs[1..]);
      if AbsReal(s + applied + i.noise) > p.deadband && i.accepts {
        SaturatedCommand(p, eta, applied, i);
      }
    }
  }

  predicate AnyAccepted(inputs: seq<Input>) {
    exists k :: 0 <= k < |inputs| && inputs[k].accepts
  }

  /** What an accepted tick out of range reports: saturation, unless the command falls short by no more than epsilon. */
  lemma OutOfRangeTick(p: Plant, eta: real, applied: real, i: Input)
    requires p.limits.rangePpm >= 0.0 && AbsReal(i.noise) <= eta && AbsReal(i.skew) > p.limits.rangePpm + eta
    requires i.accepts && AbsReal(i.skew + applied + i.noise) > p.deadband
    ensures var action := p.Next(applied, i).1;
            action.Some? && !action.value.Held?
            && (action.value.Saturated? <==> AbsReal(i.skew + i.noise) > p.limits.rangePpm + EPSILON)
    ensures AbsReal(i.skew) > p.limits.rangePpm + eta + EPSILON ==> p.Next(applied, i).1.value.Saturated?
  {
  }

  /**
   * From a residual that noise cannot bring inside the deadband, the first tick the radio accepts
   * puts the trim at its resting value, and it is there at the end of every run that has one.
   */
  lemma {:induction false} OutOfRangeReachesRest(p: Plant, eta: real, applied: real, s: real, inputs: seq<Input>)
    requires p.limits.rangePpm >= 0.0 && 0.0 <= eta && AbsReal(s) > p.limits.rangePpm + eta
    requires ConstantSkew(inputs, s) && NoiseWithin(inputs, eta)
    requires AbsReal(s + applied) > p.deadband + eta
    ensures var rest := p.trim(if s > 0.0 then -p.limits.rangePpm else p.limits.rangePpm);
            p.Run(applied, inputs) == if AnyAccepted(inputs) then rest else applied
    ensures p.Steers(applied, inputs) > 0 <==> AnyAccepted(inputs)
    decreases |inputs|
  {
    if inputs != [] {
      var i := inputs[0];
      assert i.skew == s && AbsReal(i.noise) <= eta;
      var next := p.Next(applied, i);
      if i.accepts {
        SaturatedCommand(p, eta, applied, i);
        OutOfRangeSettles(p, eta, next.0, s, inputs[1..]);
      } else {
        OutOfRangeReachesRest(p, eta, applied, s, inputs[1..]);
        assert AnyAccepted(inputs) <==> AnyAccepted(inputs[1..]) by {
          assert forall k :: 0 < k < |inputs| ==> inputs[k] == inputs[1..][k - 1];
        }
      }
    }
  }

  // ---- drift ---------------------------------------------------------------------------------------------------

  predicate Drifts(inputs: seq<Input>, rho: real) {
    forall i | 0 < i < |inputs| :: AbsReal(inputs[i].skew - inputs[i - 1].skew) <= rho
  }

  predicate Tracked(p: Plant, eta: real, inputs: seq<Input>) {
    forall i | 0 <= i < |inputs| ::
      && AbsReal(inputs[i].noise) <= eta && AbsReal(inputs[i].skew) <= p.limits.rangePpm + eta && inputs[i].accepts
  }

  lemma TickBounds(p: Plant, e: real, eta: real, applied: real, i: Input)
    requires p.AccurateTo(e) && AbsReal(i.noise) <= eta && AbsReal(i.skew) <= p.limits.rangePpm + eta && i.accepts
    ensures AbsReal(i.skew + p.Next(applied, i).0) <= (if e > p.deadband then e else p.deadband) + eta
  {
    if AbsReal(i.skew + applied + i.noise) > p.deadband {
      SteerLeaves(p, e, eta, applied, i);
    }
  }

  lemma TailDrifts(p: Plant, eta: real, rho: real, inputs: seq<Input>)
    requires Tracked(p, eta, inputs) && Drifts(inputs, rho) && inputs != []
    ensures Tracked(p, eta, inputs[1..]) && Drifts(inputs[1..], rho)
  {
    var rest := inputs[1..];
    assert forall k | 0 < k < |rest| :: rest[k] == inputs[k + 1] && rest[k - 1] == inputs[k];
  }

  lemma DriftAdds(x: real, skew: real, later: real)
    ensures AbsReal(later + x) <= AbsReal(skew + x) + AbsReal(later - skew)
  {
  }

  /**
   * Under drift of at most `rho` a tick, the residual after the first tick, seen at any later
   * instant up to the next tick, stays within the larger of deadband and actuator error, plus
   * noise, plus one tick's drift.
   */
  lemma {:induction false} DriftStaysBounded(p: Plant, e: real, eta: real, rho: real, applied: real,
                                             inputs: seq<Input>, later: real)
    requires p.AccurateTo(e) && Tracked(p, eta, inputs) && Drifts(inputs, rho) && inputs != []
    requires AbsReal(later - inputs[|inputs| - 1].skew) <= rho
    ensures AbsReal(later + p.Run(applied, inputs)) <= (if e > p.deadband then e else p.deadband) + eta + rho
    decreases |inputs|
  {
    var i := inputs[0];
    var next := p.Next(applied, i).0;
    if |inputs| == 1 {
      assert inputs[1..] == [];
      TickBounds(p, e, eta, applied, i);
      DriftAdds(next, i.skew, later);
    } else {
      TailDrifts(p, eta, rho, inputs);
      DriftStaysBounded(p, e, eta, rho, next, inputs[1..], later);
    }
  }

  // ---- the deadband cannot be smaller ------------------------------------------------------------------------------

  /** A trim that misses by `e`, always away from zero. */
  function Overshooting(e: real): real -> real {
    (x: real) => if x < 0.0 then x - e else x + e
  }

  /** Noise of size `eta` that flips sign every tick, on a clock with no skew. */
  function Flipping(eta: real, n: nat): (r: seq<Input>)
    ensures |r| == n
    decreases n
  {
    if n == 0 then [] else [Input(0.0, eta, true)] + Flipping(-eta, n - 1)
  }

  lemma RingingTick(p: Plant, e: real, eta: real)
    requires p.trim == Overshooting(e) && p.deadband < e + 2.0 * AbsReal(eta)
    requires 0.0 <= e && 0.0 < AbsReal(eta) <= p.limits.rangePpm
    ensures var n := p.Next(if eta > 0.0 then eta + e else eta - e, Input(0.0, eta, true));
            && n.0 == (if eta > 0.0 then -eta - e else -eta + e)
            && n.1.Some? && !n.1.value.Held?
  {
    var applied := if eta > 0.0 then eta + e else eta - e;
    assert AbsReal(0.0 + applied + eta) == e + 2.0 * AbsReal(eta);
  }

  /** From the far side of an overshoot every tick steers, back and forth. */
  lemma {:induction false} Ringing(p: Plant, e: real, eta: real, n: nat)
    requires p.trim == Overshooting(e) && p.deadband < e + 2.0 * AbsReal(eta)
    requires 0.0 <= e && 0.0 < AbsReal(eta) <= p.limits.rangePpm
    ensures p.Steers(if eta > 0.0 then eta + e else eta - e, Flipping(eta, n)) == n
    decreases n
  {
    if n > 0 {
      var i := Input(0.0, eta, true);
      RingingTick(p, e, eta);
      Ringing(p, e, -eta, n - 1);
      assert Flipping(eta, n)[0] == i && Flipping(eta, n)[1..] == Flipping(-eta, n - 1);
    }
  }

  lemma {:induction false} FlippingIsAllowed(eta: real, n: nat)
    ensures ConstantSkew(Flipping(eta, n), 0.0) && NoiseWithin(Flipping(eta, n), AbsReal(eta))
    decreases n
  {
    if n > 0 {
      FlippingIsAllowed(-eta, n - 1);
    }
  }

  /** Below `e + 2 eta` an overshooting trim can be kept steering at every tick for ever. */
  lemma {:induction false} LimitCycle(e: real, eta: real, range: real, deadband: real, n: nat)
    requires 0.0 <= e && 0.0 < eta <= range && deadband < e + 2.0 * eta
    ensures var p := Plant(Overshooting(e), ClockSteering(range, e), deadband);
            && p.AccurateTo(e) && ConstantSkew(Flipping(eta, n), 0.0) && NoiseWithin(Flipping(eta, n), eta)
            && p.Steers(eta + e, Flipping(eta, n)) == n
  {
    Ringing(Plant(Overshooting(e), ClockSteering(range, e), deadband), e, eta, n);
    FlippingIsAllowed(eta, n);
  }

  /** Every trim of error at most `e` meets any skew in range with at most one steer, whatever the noise. */
  ghost predicate NeverCycles(e: real, eta: real, range: real, deadband: real) {
    forall p: Plant, applied: real, s: real, inputs: seq<Input>
      | && p.deadband == deadband && p.limits.rangePpm == range && p.AccurateTo(e)
        && AbsReal(s) <= range && ConstantSkew(inputs, s) && NoiseWithin(inputs, eta) ::
      p.Steers(applied, inputs) <= 1
  }

  /** How far noise can misdirect a command: by its size, but not beyond the two ends of the range. */
  function Misdirection(eta: real, range: real): real {
    if eta <= 2.0 * range then eta else 2.0 * range
  }

  lemma SteerLeavesInRange(p: Plant, e: real, eta: real, applied: real, i: Input)
    requires p.AccurateTo(e) && AbsReal(i.noise) <= eta && AbsReal(i.skew) <= p.limits.rangePpm
    requires i.accepts && AbsReal(i.skew + applied + i.noise) > p.deadband
    ensures AbsReal(i.skew + p.Next(applied, i).0) <= e + Misdirection(eta, p.limits.rangePpm)
  {
    var wanted := applied - (i.skew + applied + i.noise);
    var clamped := ClampReal(wanted, -p.limits.rangePpm, p.limits.rangePpm);
    assert wanted == -i.skew - i.noise;
    assert AbsReal(p.trim(clamped) - clamped) <= e;
    assert AbsReal(clamped + i.skew) <= Misdirection(eta, p.limits.rangePpm);
  }

  lemma AtMostOneSteerInRange(p: Plant, e: real, eta: real, applied: real, s: real, inputs: seq<Input>)
    requires p.AccurateTo(e) && e + eta + Misdirection(eta, p.limits.rangePpm) <= p.deadband
    requires AbsReal(s) <= p.limits.rangePpm && ConstantSkew(inputs, s) && NoiseWithin(inputs, eta)
    ensures p.Steers(applied, inputs) <= 1
  {
    var r := e + Misdirection(eta, p.limits.rangePpm);
    forall applied: real, noise: real | AbsReal(noise) <= eta && AbsReal(s + applied + noise) > p.deadband
      ensures AbsReal(s + p.Next(applied, Input(s, noise, true)).0) <= r
    {
      SteerLeavesInRange(p, e, eta, applied, Input(s, noise, true));
    }
    OneSteerIsEnough(p, eta, s, r, applied, inputs);
  }

  /** Misdirected as far as noise can, an overshooting trim has to steer again. */
  lemma MisdirectedSteersTwice(p: Plant, e: real, eta: real, m: real, applied: real)
    requires p.trim == Overshooting(e) && 0.0 <= e && 0.0 <= eta
    requires 0.0 <= m <= eta && m <= 2.0 * p.limits.rangePpm && p.deadband < e + eta + m
    requires applied - m / 2.0 > p.deadband && applied - m / 2.0 > 0.0
    ensures p.Steers(applied, [Input(m / 2.0, -m, true), Input(m / 2.0, eta, true)]) == 2
  {
    var first, second := Input(m / 2.0, -m, true), Input(m / 2.0, eta, true);
    assert p.Next(applied, first).0 == m / 2.0 + e;
    assert [first, second][1..] == [second] && [second][1..] == [];
    assert p.Steers(m / 2.0 + e, [second]) == 1;
  }

  lemma OvershootingMisdirected(p: Plant, e: real, eta: real, m: real, applied: real)
    requires p.trim == Overshooting(e) && 0.0 <= e && 0.0 <= eta
    requires 0.0 <= m <= eta && m <= 2.0 * p.limits.rangePpm && p.deadband < e + eta + m
    requires applied - m / 2.0 > p.deadband && applied - m / 2.0 > 0.0
    ensures exists s: real, inputs: seq<Input> ::
              && p.AccurateTo(e) && AbsReal(s) <= p.limits.rangePpm && ConstantSkew(inputs, s)
              && NoiseWithin(inputs, eta) && p.Steers(applied, inputs) == 2
  {
    var s, inputs := m / 2.0, [Input(m / 2.0, -m, true), Input(m / 2.0, eta, true)];
    MisdirectedSteersTwice(p, e, eta, m, applied);
    assert ConstantSkew(inputs, s) && NoiseWithin(inputs, eta);
    assert p.AccurateTo(e);
  }

  /**
   * The deadband that rules out limit cycles for every such trim is exactly the trim's error, the
   * noise, and how far noise can misdirect a command: `e + 2 eta` for noise up to twice the range.
   */
  lemma {:induction false} DeadbandIsExact(e: real, eta: real, range: real, deadband: real)
    requires 0.0 <= e && 0.0 <= eta && 0.0 <= range
    ensures NeverCycles(e, eta, range, deadband) <==> e + eta + Misdirection(eta, range) <= deadband
  {
    var m := Misdirection(eta, range);
    if e + eta + m <= deadband {
      forall p: Plant, applied: real, s: real, inputs: seq<Input>
        | && p.deadband == deadband && p.limits.rangePpm == range && p.AccurateTo(e)
          && AbsReal(s) <= range && ConstantSkew(inputs, s) && NoiseWithin(inputs, eta)
        ensures p.Steers(applied, inputs) <= 1
      {
        AtMostOneSteerInRange(p, e, eta, applied, s, inputs);
      }
    } else {
      var p := Plant(Overshooting(e), ClockSteering(range, e), deadband);
      var applied := m / 2.0 + AbsReal(deadband) + 1.0;
      OvershootingMisdirected(p, e, eta, m, applied);
    }
  }

  // ---- the source's own stepped trim ------------------------------------------------------------------------------

  function Stepped(step: real, range: real, deadband: real): Plant
    requires step > 0.0
  {
    Plant(Quantised(step, range), ClockSteering(range, step), deadband)
  }

  /** The stepped trim meets any skew in range with at most one steer, whatever the noise and the starting trim. */
  ghost predicate SteppedNeverCycles(step: real, range: real, eta: real, deadband: real)
    requires step > 0.0
  {
    forall applied: real, s: real, inputs: seq<Input>
      | AbsReal(s) <= range && ConstantSkew(inputs, s) && NoiseWithin(inputs, eta) ::
      Stepped(step, range, deadband).Steers(applied, inputs) <= 1
  }

  /** Half a step rounds away from zero, to a whole one. */
  lemma HalfStepRoundsUp(step: real, range: real)
    requires 0.0 < step <= range
    ensures Quantise(step, range, step / 2.0) == step
  {
    var q := step / 2.0 / step;
    QuotientBack(step / 2.0, step);
    assert (q - 0.5) * step == 0.0;
    assert q == 0.5;
    assert Round(0.5) == 1;
    OneStep(step);
  }

  lemma OneStep(step: real)
    ensures 1 as real * step == step
  {
  }

  /** A skew half a step off, seen first through one extreme of the noise and then through the other. */
  function Straddling(step: real, eta: real): seq<Input> {
    var s := eta - step / 2.0;
    [Input(s, -eta, true), Input(s, eta, true)]
  }

  lemma StraddlingSteersTwice(step: real, range: real, eta: real, deadband: real, applied: real)
    requires 0.0 < step <= range && 0.0 <= eta && deadband < step / 2.0 + 2.0 * eta
    requires AbsReal(applied - step / 2.0) > deadband
    ensures Stepped(step, range, deadband).Steers(applied, Straddling(step, eta)) == 2
  {
    var p, inputs := Stepped(step, range, deadband), Straddling(step, eta);
    HalfStepRoundsUp(step, range);
    assert p.Next(applied, inputs[0]).0 == step;
    assert inputs[1..] == [inputs[1]] && [inputs[1]][1..] == [];
    assert p.Steers(step, [inputs[1]]) == 1 + p.Steers(p.Next(step, inputs[1]).0, []);
  }

  /** For the stepped trim the deadband that rules out limit cycles is exactly half a step and twice the noise. */
  lemma {:induction false} SteppedDeadbandIsExact(step: real, range: real, eta: real, deadband: real)
    requires 0.0 < step <= range && 0.0 <= eta <= range
    ensures SteppedNeverCycles(step, range, eta, deadband) <==> step / 2.0 + 2.0 * eta <= deadband
  {
    if step / 2.0 + 2.0 * eta <= deadband {
      QuantisedIsAccurate(step, range, deadband);
      forall applied: real, s: real, inputs: seq<Input>
        | AbsReal(s) <= range && ConstantSkew(inputs, s) && NoiseWithin(inputs, eta)
        ensures Stepped(step, range, deadband).Steers(applied, inputs) <= 1
      {
        AtMostOneSteer(Stepped(step, range, deadband), step / 2.0, eta, applied, s, inputs);
      }
    } else {
      var s, applied := eta - step / 2.0, step + AbsReal(deadband);
      assert ConstantSkew(Straddling(step, eta), s) && NoiseWithin(Straddling(step, eta), eta);
      StraddlingSteersTwice(step, range, eta, deadband, applied);
    }
  }

  /** With the default deadband of one step the loop never cycles exactly while the noise is at most a quarter step. */
  lemma {:induction false} OneStepDeadbandIsExact(step: real, range: real, eta: real)
    requires 0.0 < step <= range && 0.0 <= eta <= range
    ensures SteppedNeverCycles(step, range, eta, step) <==> eta <= step / 4.0
  {
    SteppedDeadbandIsExact(step, range, eta, step);
  }

  /**
   * With a stepped trim and the default deadband of one step, the loop never cycles while the
   * noise is at most a quarter of a step.
   */
  lemma {:induction false} OneStepDeadbandHolds(step: real, range: real, eta: real, applied: real, s: real,
                                                inputs: seq<Input>)
    requires step > 0.0 && 0.0 <= eta <= step / 4.0 && AbsReal(s) <= range
    requires ConstantSkew(inputs, s) && NoiseWithin(inputs, eta)
    ensures Stepped(step, range, step).Steers(applied, inputs) <= 1
  {
    QuantisedIsAccurate(step, range, step);
    AtMostOneSteer(Stepped(step, range, step), step / 2.0, eta, applied, s, inputs);
  }
}
