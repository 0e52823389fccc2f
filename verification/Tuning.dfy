/** What a run of knob calls leaves behind: which power level, which width, which frequency. */
module Tuning {
  import opened Prelude
  import opened PowerLevels
  import opened Phy

  datatype Bandwidth = Bw20 | Bw40 | OtherWidth

  /** Whether the hardware clears the bit each calibration waits for. */
  datatype CalEnv = CalEnv(offset: bool, agc: bool, nf: bool)

  datatype PowerRequest = Ceiling | Index(idx: nat) | Raw(raw: nat) | Dbm(dbm: int) | NoActuator

  datatype Knob = Tune(channel: Channel, bw: Bandwidth, env: CalEnv) | Power(req: PowerRequest)

  /** The driver's remembered settings and the registers they stand for. */
  datatype View = View(channel: Channel, ht40: bool, curPower: nat, phy: Phy)

  /** What a Tune does: nothing, a change of width (a full reprogramming), or a change of channel alone. */
  datatype Act = Refused | Nothing | Width | ChannelOnly

  function TuneAct(v: View, channel: Channel, bw: Bandwidth): Act {
    if bw == OtherWidth then Refused
    else if (bw == Bw40) != v.ht40 then Width
    else if channel != v.channel then ChannelOnly
    else Nothing
  }

  /** The index a request stores: the ceiling of the scale, the request clamped to it, or the image of a level. */
  function StoredIndex(req: PowerRequest): nat
    requires !req.NoActuator?
  {
    match req
    case Ceiling => 63
    case Index(i) => Min(i, 63)
    case Raw(i) => Min(i, 63)
    case Dbm(d) => IdxForLevel(NearestLevel(d))
  }

  /** The level a request puts in the gain registers. */
  function LevelOf(req: PowerRequest): (level: nat)
    requires !req.NoActuator?
    ensures level < LEVELS
  {
    if req.Dbm? then NearestLevel(req.dbm) else LevelForIdx(StoredIndex(req))
  }

  function PowerStep(v: View, req: PowerRequest): View {
    if req.NoActuator? then v
    else v.(curPower := StoredIndex(req), phy := v.phy.(lut := Rungs(LevelOf(req))))
  }

  function WidthStep(v: View, channel: Channel, ht40: bool, env: CalEnv): View {
    View(channel, ht40, v.curPower,
         Phy(ht40 || !env.offset, Tuned(Centre(Mhz(channel), ht40)), Rungs(LevelForIdx(v.curPower))))
  }

  function ChannelStep(v: View, channel: Channel, env: CalEnv): View {
    View(channel, v.ht40, v.curPower, Phy(!env.offset, Tuned(Centre(Mhz(channel), v.ht40)), v.phy.lut))
  }

  function TuneStep(v: View, channel: Channel, bw: Bandwidth, env: CalEnv): View {
    match TuneAct(v, channel, bw)
    case Refused => v
    case Nothing => v
    case Width => WidthStep(v, channel, bw == Bw40, env)
    case ChannelOnly => ChannelStep(v, channel, env)
  }

  function Step(v: View, k: Knob): View {
    match k
    case Tune(channel, bw, env) => TuneStep(v, channel, bw, env)
    case Power(req) => PowerStep(v, req)
  }

  function Run(v: View, ks: seq<Knob>): View
    decreases |ks|
  {
    if ks == [] then v else Run(Step(v, ks[0]), ks[1..])
  }

  // ---- what a run ends on -----------------------------------------------------------------------------------

  lemma {:induction false} RefusedTunesKeep(v: View, ks: seq<Knob>)
    requires forall j | 0 <= j < |ks| :: ks[j].Tune? ==> ks[j].bw == OtherWidth
    ensures Run(v, ks).channel == v.channel && Run(v, ks).ht40 == v.ht40
    decreases |ks|
  {
    if ks != [] {
      RefusedTunesKeep(Step(v, ks[0]), ks[1..]);
    }
  }

  /** A run ends on the channel and the width of its last retune that was not refused. */
  lemma {:induction false} LastTuneWins(v: View, ks: seq<Knob>, i: nat)
    requires i < |ks| && ks[i].Tune? && ks[i].bw != OtherWidth
    requires forall j | i < j < |ks| :: ks[j].Tune? ==> ks[j].bw == OtherWidth
    ensures Run(v, ks).channel == ks[i].channel && (Run(v, ks).ht40 <==> ks[i].bw == Bw40)
    decreases |ks|
  {
    if i == 0 {
      RefusedTunesKeep(Step(v, ks[0]), ks[1..]);
    } else {
      assert ks[1..][i - 1] == ks[i];
      LastTuneWins(Step(v, ks[0]), ks[1..], i - 1);
    }
  }

  lemma {:induction false} RefusedPowerKeeps(v: View, ks: seq<Knob>)
    requires forall j | 0 <= j < |ks| :: ks[j].Power? ==> ks[j].req.NoActuator?
    ensures Run(v, ks).curPower == v.curPower
    decreases |ks|
  {
    if ks != [] {
      RefusedPowerKeeps(Step(v, ks[0]), ks[1..]);
    }
  }

  /** It remembers the index of its last power request that was not refused, whatever retunes came after. */
  lemma {:induction false} LastPowerWins(v: View, ks: seq<Knob>, i: nat)
    requires i < |ks| && ks[i].Power? && !ks[i].req.NoActuator?
    requires forall j | i < j < |ks| :: ks[j].Power? ==> ks[j].req.NoActuator?
    ensures var stored := Run(v, ks).curPower;
            match ks[i].req
            case Dbm(d) => 10 * stored <= 63 * NearestLevel(d) < 10 * (stored + 1)
            case Ceiling => stored == 63
            case Index(idx) => stored == if idx < 63 then idx else 63
            case Raw(idx) => stored == if idx < 63 then idx else 63
    decreases |ks|
  {
    if i == 0 {
      RefusedPowerKeeps(Step(v, ks[0]), ks[1..]);
    } else {
      assert ks[1..][i - 1] == ks[i];
      LastPowerWins(Step(v, ks[0]), ks[1..], i - 1);
    }
  }

  /** A request in dBm sets the nearest level, any other the share of the ladder its stored index stands for; a refused
      one changes nothing, and none touches width or frequency. */
  lemma PowerSetsLevel(v: View, req: PowerRequest) returns (level: nat)
    ensures level < LEVELS
    ensures var after := PowerStep(v, req);
            && after.(curPower := v.curPower, phy := after.phy.(lut := v.phy.lut)) == v
            && (req.NoActuator? ==> after == v)
            && (!req.NoActuator? ==> after.phy.lut == Rungs(level))
            && (req.Dbm? ==> level == NearestLevel(req.dbm))
            && (!req.Dbm? && !req.NoActuator? ==> 63 * level <= 10 * after.curPower < 63 * (level + 1))
  {
    level := if req.NoActuator? then 0 else LevelOf(req);
    if !req.NoActuator? && !req.Dbm? {
      LevelIsShareOfIndex(StoredIndex(req));
    }
  }

  // ---- power ------------------------------------------------------------------------------------------------

  predicate OnlyTunes(ks: seq<Knob>) {
    forall k :: k in ks ==> k.Tune?
  }

  /** Some call of the run changes the width. */
  predicate ChangesWidth(v: View, ks: seq<Knob>)
    decreases |ks|
  {
    ks != [] && ((ks[0].Tune? && TuneAct(v, ks[0].channel, ks[0].bw) == Width) || ChangesWidth(Step(v, ks[0]), ks[1..]))
  }

  /** The width changes in a run when some part of it ends on the other width. */
  lemma {:induction false} ChangesWidthExactly(v: View, ks: seq<Knob>)
    ensures ChangesWidth(v, ks) <==> exists i :: 0 <= i <= |ks| && Run(v, ks[..i]).ht40 != v.ht40
    decreases |ks|
  {
    if ks != [] {
      var next := Step(v, ks[0]);
      ChangesWidthExactly(next, ks[1..]);
      forall i | 1 <= i <= |ks|
        ensures Run(v, ks[..i]) == Run(next, ks[1..][..i - 1])
      {
        assert ks[..i][1..] == ks[1..][..i - 1];
      }
      if next.ht40 != v.ht40 {
        assert Run(v, ks[..1]) == Run(next, ks[1..][..0]) == next;
      } else if ChangesWidth(next, ks[1..]) {
        var j :| 0 <= j < |ks| && Run(next, ks[1..][..j]).ht40 != next.ht40;
        assert Run(v, ks[..j + 1]).ht40 != v.ht40;
      } else {
        forall i | 0 <= i <= |ks|
          ensures Run(v, ks[..i]).ht40 == v.ht40
        {
          if i > 0 {
            assert Run(next, ks[1..][..i - 1]).ht40 == next.ht40;
          }
        }
      }
    }
  }

  /** Tuning never forgets the stored index; the gain registers are rebuilt from it at each width change and left
      alone otherwise. */
  lemma {:induction false} TuningRestoresStoredIndex(v: View, ks: seq<Knob>)
    requires OnlyTunes(ks)
    ensures Run(v, ks).curPower == v.curPower
    ensures Run(v, ks).phy.lut == if ChangesWidth(v, ks) then Rungs(LevelForIdx(v.curPower)) else v.phy.lut
    decreases |ks|
  {
    if ks != [] {
      assert ks[0] in ks;
      TuningRestoresStoredIndex(Step(v, ks[0]), ks[1..]);
    }
  }

  /** A power request by index keeps the gain registers at its level through every later retune. */
  lemma IndexLevelSurvives(v: View, req: PowerRequest, ks: seq<Knob>)
    requires OnlyTunes(ks) && !req.Dbm? && !req.NoActuator?
    ensures Run(PowerStep(v, req), ks).phy.lut == Rungs(LevelOf(req))
  {
    TuningRestoresStoredIndex(PowerStep(v, req), ks);
  }

  /** A request in dBm is at its level after a run of retunes exactly when the width never changed or the level is
      one of the ends of the ladder; otherwise it is one level lower. */
  lemma DbmLevelSurvivesExactly(v: View, dbm: int, ks: seq<Knob>)
    requires OnlyTunes(ks)
    ensures var level := NearestLevel(dbm);
            var asked := PowerStep(v, Dbm(dbm));
            var after := Run(asked, ks).phy.lut;
            && (after == Rungs(level) <==> !ChangesWidth(asked, ks) || level == 0 || level == 10)
            && (after == Rungs(level) || (level > 0 && after == Rungs(level - 1)))
  {
    var level := NearestLevel(dbm);
    var asked := PowerStep(v, Dbm(dbm));
    TuningRestoresStoredIndex(asked, ks);
    StoringLosesAStep(level);
    RungsAreDistinct(level, Remembered(level));
  }

  /** A radio whose power was never set holds index 0: its first width change drops it to the lowest level. */
  lemma UnsetPowerFallsToMinimum(v: View, ks: seq<Knob>)
    requires OnlyTunes(ks) && v.curPower == 0
    ensures Run(v, ks).phy.lut == if ChangesWidth(v, ks) then Rungs(0) else v.phy.lut
  {
    TuningRestoresStoredIndex(v, ks);
  }

  // ---- frequency and width ----------------------------------------------------------------------------------

  predicate OnFrequency(v: View) {
    v.phy.synth == Tuned(Centre(Mhz(v.channel), v.ht40))
  }

  /** The last Tune of a run that did anything. */
  function LastAct(v: View, ks: seq<Knob>): Act
    decreases |ks|
  {
    if ks == [] then Nothing
    else
      var later := LastAct(Step(v, ks[0]), ks[1..]);
      if later != Nothing || ks[0].Power? then later
      else
        var act := TuneAct(v, ks[0].channel, ks[0].bw);
        if act == Refused then Nothing else act
  }

  lemma {:induction false} RunIsOnFrequency(v: View, ks: seq<Knob>)
    ensures OnFrequency(v) || LastAct(v, ks) != Nothing ==> OnFrequency(Run(v, ks))
    decreases |ks|
  {
    if ks != [] {
      RunIsOnFrequency(Step(v, ks[0]), ks[1..]);
    }
  }

  predicate OffsetCalsConverge(ks: seq<Knob>) {
    forall k :: k in ks && k.Tune? ==> k.env.offset
  }

  /** Over any run whose offset calibrations converge, the width bit agrees with the width exactly when the last
      retune that acted did not change the channel alone in HT40. */
  lemma {:induction false} WidthBitAgreesExactly(v: View, ks: seq<Knob>)
    requires OffsetCalsConverge(ks) && v.phy.dyn == v.ht40
    ensures var after := Run(v, ks);
            after.phy.dyn == after.ht40 <==> !(LastAct(v, ks) == ChannelOnly && after.ht40)
  {
    WidthBitAfterRun(v, ks);
    WidthNeedsAnAct(v, ks);
  }

  lemma {:induction false} WidthBitAfterRun(v: View, ks: seq<Knob>)
    requires OffsetCalsConverge(ks)
    ensures Run(v, ks).phy.dyn == match LastAct(v, ks) {
                                    case ChannelOnly => false
                                    case Width => Run(v, ks).ht40
                                    case Nothing => v.phy.dyn
                                    case Refused => v.phy.dyn
                                  }
    decreases |ks|
  {
    if ks != [] {
      var next := Step(v, ks[0]);
      WidthBitAfterRun(next, ks[1..]);
      WidthNeedsAnAct(next, ks[1..]);
      if ks[0].Tune? {
        assert ks[0] in ks && ks[0].env.offset;
        assert next.phy.dyn == match TuneAct(v, ks[0].channel, ks[0].bw) {
                                 case ChannelOnly => false
                                 case Width => next.ht40
                                 case Nothing => v.phy.dyn
                                 case Refused => v.phy.dyn
                               };
      }
    }
  }

  /** Without a retune that changes the width, the width stays. */
  lemma {:induction false} WidthNeedsAnAct(v: View, ks: seq<Knob>)
    ensures LastAct(v, ks) == Nothing ==> Run(v, ks).ht40 == v.ht40 && Run(v, ks).channel == v.channel
    ensures LastAct(v, ks) != Refused
    decreases |ks|
  {
    if ks != [] {
      WidthNeedsAnAct(Step(v, ks[0]), ks[1..]);
    }
  }

  /** One retune, calibrated or not: a width change leaves the bit right unless an HT20 offset calibration failed;
      a channel change leaves it right exactly when the calibration's outcome happens to match the width. */
  lemma OneTuneKeepsWidthBit(v: View, channel: Channel, bw: Bandwidth, env: CalEnv)
    ensures var after := TuneStep(v, channel, bw, env);
            match TuneAct(v, channel, bw)
            case Width => after.phy.dyn == after.ht40 <==> bw == Bw40 || env.offset
            case ChannelOnly => after.phy.dyn == after.ht40 <==> v.ht40 != env.offset
            case Nothing => after == v
            case Refused => after == v
  {
  }

  /** The step that breaks it: a channel change in HT40 whose calibration converges. */
  lemma Ht40RetuneLosesWidthBit(v: View, channel: Channel, env: CalEnv)
    requires v.ht40 && v.phy.dyn && channel != v.channel && env.offset
    ensures var after := TuneStep(v, channel, Bw40, env); after.ht40 && !after.phy.dyn
  {
  }
}
