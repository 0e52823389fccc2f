/** The radio's live knobs: retune, width, power, and the reset they start from, register by register. */
module Knobs {
  import opened Bits
  import opened Prelude
  import opened Registers
  import opened Store
  import opened Initvals
  import opened PowerLevels
  import opened Phy
  import opened Tuning

  const AR_PHY_MODE: Addr := 0xA200
  const AR_PHY_MODE_DYNAMIC: Word := 0x4
  const AR_PHY_CCK_TX_CTRL: Addr := 0xA204
  const CCK_TX_CTRL_JAPAN: Word := 0x10
  const AR_PHY_ACTIVE: Addr := 0x981C
  const AR_PHY_CL_CAL_CTL: Addr := 0xA358
  const CL_CAL_ENABLE: Word := 0x2
  const PARALLEL_CAL_ENABLE: Word := 0x1
  const AR_PHY_AGC_CONTROL: Addr := 0x9860
  const AGC_CAL: Word := 0x1
  const AGC_NF: Word := 0x2
  const AGC_ENABLE_NF: Word := 0x8000
  const AGC_FLTR_CAL: Word := 0x1_0000
  const AGC_NO_UPDATE_NF: Word := 0x2_0000
  const AR_PHY_TPCRG1: Addr := 0xA258
  const PD_CAL_ENABLE: Word := 0x40_0000
  const AR_PHY_ADC_CTL: Addr := 0x982C
  const OFF_PWDADC: Word := 0x8000
  const AR_PHY_CCA: Addr := 0x9864
  const CCA_FIELD: Word := 0x1FF
  const AR_PHY_TIMING_CTRL4: Addr := 0x9920
  const IQCAL_LOG_COUNT_MASK: Word := 0xF000
  const IQCAL_LOG_COUNT_10: Word := 0xA000
  const IQ_DO_CAL: Word := 0x1_0000
  const AR_PHY_CALMODE: Addr := 0x99F0

  datatype Applied = AppliedIndex(idx: nat, clamped: bool, level: nat) | AppliedDbm(dbm: int, clamped: bool)

  datatype KnobError = UnsupportedWidth | PowerUnsupported

  /** A noise floor in dBm as the nine-bit field of half-dB steps. */
  function NoiseField(nf: int): Word {
    2 * nf % 0x200
  }

  /** Writes that stay off the registers the knobs share. */
  predicate Apart(pairs: seq<Pair>) {
    forall p :: p in pairs ==> !Shared(p.0)
  }

  /** Registers the board values and the power calibration program from the EEPROM. */
  predicate CalRegister(a: Addr) {
    || a in [0x9964, 0xA20C, 0xB20C, 0x7828, 0x782C, 0x9844, 0x9850, 0x9834, 0x9828, 0x9824]
    || a == 0xA258 || a == 0xA26C || 0xA280 <= a <= 0xA2FC
    || a in [0x9934, 0x9938, 0xA234, 0xA238, 0xA38C, 0xA390, 0x993C]
  }

  /** Registers the reset-time calibrations work in. */
  predicate CalWorkspace(a: Addr) {
    || a == AR_PHY_TURBO || a == AR_PHY_CL_CAL_CTL || a == AR_PHY_AGC_CONTROL || a == AR_PHY_TPCRG1
    || a == AR_PHY_ADC_CTL || a == AR_PHY_CCA || a == AR_PHY_TIMING_CTRL4 || a == AR_PHY_CALMODE
  }

  /** Nothing outside that workspace changed. */
  ghost predicate CalOnly(before: RegFile, after: RegFile) {
    forall a: Addr :: !CalWorkspace(a) ==> Load(after, a) == Load(before, a)
  }

  /** A flag of a register. */
  predicate Flag(regs: RegFile, a: Addr, bit: nat) {
    BitOf(Load(regs, a), bit)
  }

  /** A power of two as a mask. */
  lemma MaskIsBit(mask: Word, k: nat, j: nat)
    requires mask == Pow2(k) && j != k
    ensures BitOf(mask, k) && !BitOf(mask, j)
  {
    OneBit(k, k);
    OneBit(k, j);
  }

  /** The carrier-leak enables are bits 1 and 0 of their register. */
  lemma LeakBits()
    ensures BitOf(CL_CAL_ENABLE, 1) && !BitOf(CL_CAL_ENABLE, 0)
    ensures BitOf(PARALLEL_CAL_ENABLE, 0) && !BitOf(PARALLEL_CAL_ENABLE, 1)
  {
    Pow22();
    MaskIsBit(CL_CAL_ENABLE, 1, 0);
    MaskIsBit(PARALLEL_CAL_ENABLE, 0, 1);
  }

  /** The filter calibration is bit 16 and the start of the gain calibration is not, the detector enable bit 22 and the
      converter flag bit 15. */
  lemma GainBits()
    ensures BitOf(AGC_FLTR_CAL, 16) && !BitOf(AGC_CAL, 16) && BitOf(PD_CAL_ENABLE, 22) && BitOf(OFF_PWDADC, 15)
  {
    Pow22();
    MaskIsBit(AGC_FLTR_CAL, 16, 0);
    MaskIsBit(AGC_CAL, 0, 16);
    MaskIsBit(PD_CAL_ENABLE, 22, 0);
    MaskIsBit(OFF_PWDADC, 15, 0);
  }

  /** Channel-14 spreading is bit 4, a noise measurement bit 1 and the I/Q calibration bit 16. */
  lemma OtherBits()
    ensures BitOf(CCK_TX_CTRL_JAPAN, 4) && BitOf(AGC_NF, 1) && BitOf(IQ_DO_CAL, 16)
  {
    Pow22();
    MaskIsBit(CCK_TX_CTRL_JAPAN, 4, 0);
    MaskIsBit(AGC_NF, 1, 0);
    MaskIsBit(IQ_DO_CAL, 16, 0);
  }

  /** The noise floor replaces the low nine bits of its register. */
  lemma NoiseFieldReplaced(v: Word, nf: int)
    ensures Or(Clear(v, CCA_FIELD), And(NoiseField(nf), CCA_FIELD)) == 0x200 * (v / 0x200) + NoiseField(nf)
  {
    assert Pow2(8) == 0x100;
    assert Pow2(9) == 0x200;
    LowFieldReplaced(v, v / 0x200, v % 0x200, NoiseField(nf), 9);
  }

  function WithNoise(v: Word, nf: int): Word {
    Or(Clear(v, CCA_FIELD), And(NoiseField(nf), CCA_FIELD))
  }

  lemma HighPartStays(v: nat, high: nat, low: nat)
    requires low < 0x200 && v == 0x200 * high + low
    ensures v / 0x200 == high
  {
  }

  /** The last of two noise floors stays. */
  lemma NoiseTwice(v: Word, first: int, last: int)
    ensures WithNoise(WithNoise(v, first), last) == 0x200 * (v / 0x200) + NoiseField(last)
  {
    NoiseFieldReplaced(v, first);
    var once := WithNoise(v, first);
    HighPartStays(once, v / 0x200, NoiseField(first));
    NoiseFieldReplaced(once, last);
  }

  /** The nine gain registers. */
  predicate GainRegister(a: Addr) {
    a % 4 == 0 && 0xA334 <= a <= 0xA354
  }

  /** What the steps of a reset around the calibration write, in order. */
  function ResetLog(ini: seq<Pair>, mac: seq<Pair>, queues: seq<Pair>, tail: seq<Pair>): seq<Pair> {
    ini + [(AR_PHY_MODE, AR_PHY_MODE_DYNAMIC)] + mac + queues + [(AR_PHY_ACTIVE, 1)] + tail
  }

  /** A stretch of writes, followed by one that leaves a register alone, extends the log that register replays. */
  lemma LogGrows(start: RegFile, before: RegFile, after: RegFile, log: seq<Pair>, more: seq<Pair>, a: Addr)
    requires HoldsLast(start, before, log, a) && Load(after, a) == Load(WriteAll(before, more), a)
    ensures HoldsLast(start, after, log + more, a)
  {
    LastWriterIsContents(before, more, a);
    LastWriterConcat(log, more, a);
  }

  lemma WriteOne(regs: RegFile, a: Addr, w: Word)
    ensures WriteAll(regs, [(a, w)]) == regs[a := w]
  {
    assert [(a, w)][1..] == [];
    assert WriteAll(regs[a := w], []) == regs[a := w];
  }

  /** A register the calibration and the tuning leave alone replays the whole log of a reset. */
  lemma ResetReplays(start: RegFile, ini: RegFile, moded: RegFile, tuned: RegFile, queued: RegFile, calibrated: RegFile,
                     end: RegFile, log: seq<Pair>, mac: seq<Pair>, queues: seq<Pair>, tail: seq<Pair>, a: Addr)
    requires HoldsLast(start, ini, log, a)
    requires Load(moded, a) == Load(WriteAll(ini, [(AR_PHY_MODE, AR_PHY_MODE_DYNAMIC)]), a)
    requires Load(tuned, a) == Load(WriteAll(moded, mac), a) && Load(queued, a) == Load(WriteAll(tuned, queues), a)
    requires Load(calibrated, a) == Load(WriteAll(queued, [(AR_PHY_ACTIVE, 1)]), a)
    requires Load(end, a) == Load(WriteAll(calibrated, tail), a)
    ensures HoldsLast(start, end, ResetLog(log, mac, queues, tail), a)
  {
    var mode, active := [(AR_PHY_MODE, AR_PHY_MODE_DYNAMIC)], [(AR_PHY_ACTIVE, 1)];
    LogGrows(start, ini, moded, log, mode, a);
    LogGrows(start, moded, tuned, log + mode, mac, a);
    LogGrows(start, tuned, queued, log + mode + mac, queues, a);
    LogGrows(start, queued, calibrated, log + mode + mac + queues, active, a);
    LogGrows(start, calibrated, end, log + mode + mac + queues + active, tail, a);
  }

  function Reply(req: PowerRequest): Result<Applied, KnobError> {
    match req
    case NoActuator => Err(PowerUnsupported)
    case Dbm(d) => Ok(AppliedDbm(ReportedDbm(NearestLevel(d)), ReportedDbm(NearestLevel(d)) != d))
    case Ceiling => Ok(AppliedIndex(63, false, 10))
    case Index(i) => Ok(AppliedIndex(Min(i, 63), i > 63, LevelForIdx(Min(i, 63))))
    case Raw(i) => Ok(AppliedIndex(Min(i, 63), i > 63, LevelForIdx(Min(i, 63))))
  }

  class Radio {
    const target: Target
    const tables: Tables
    var channel: Channel
    var ht40: bool
    var curPower: nat
    var calApplied: bool
    var highPower: bool

    /** As opened: channel 0, HT20, index 0, no calibration. */
    constructor (target: Target, tables: Tables)
      ensures this.target == target && this.tables == tables && !calApplied && !highPower
      ensures ViewNow() == View(0, false, 0, PhyOf(target.regs))
    {
      this.target, this.tables := target, tables;
      channel, ht40, curPower, calApplied, highPower := 0, false, 0, false, false;
    }

    function ViewNow(): View
      reads this, target
    {
      View(channel, ht40, curPower, PhyOf(target.regs))
    }

    // ---- register helpers -----------------------------------------------------------------------------------

    method Write(a: Addr, w: Word)
      requires !Shared(a)
      modifies target
      ensures target.regs == old(target.regs)[a := w] && PhyOf(target.regs) == old(PhyOf(target.regs))
    {
      target.RegWrite(a, w);
      WriteElsewhere(old(target.regs), a, w);
    }

    method SetBit(a: Addr, bits: Word)
      requires !Shared(a)
      modifies target
      ensures target.regs == old(target.regs)[a := Or(Load(old(target.regs), a), bits)]
      ensures PhyOf(target.regs) == old(PhyOf(target.regs))
    {
      var v := target.RegRead(a);
      Write(a, Or(v, bits));
    }

    method ClearBit(a: Addr, bits: Word)
      requires !Shared(a)
      modifies target
      ensures target.regs == old(target.regs)[a := Clear(Load(old(target.regs), a), bits)]
      ensures PhyOf(target.regs) == old(PhyOf(target.regs))
    {
      var v := target.RegRead(a);
      Write(a, Clear(v, bits));
    }

    method Rmw(a: Addr, field: Word, mask: Word)
      requires !Shared(a)
      modifies target
      ensures target.regs == old(target.regs)[a := Or(Clear(Load(old(target.regs), a), mask), And(field, mask))]
      ensures PhyOf(target.regs) == old(PhyOf(target.regs))
    {
      var v := target.RegRead(a);
      Write(a, Or(Clear(v, mask), And(field, mask)));
    }

    method WriteApart(pairs: seq<Pair>)
      requires Apart(pairs)
      modifies target
      ensures target.regs == WriteAll(old(target.regs), pairs) && PhyOf(target.regs) == old(PhyOf(target.regs))
    {
      target.RegWriteBatch(pairs);
      WritesElsewhere(old(target.regs), pairs);
    }

    /** The dynamic 20/40 bit, and no other register. */
    method SetDyn(on: bool)
      modifies target
      ensures target.regs == old(target.regs)[AR_PHY_TURBO := WithWidth(Load(old(target.regs), AR_PHY_TURBO), on)]
      ensures PhyOf(target.regs) == old(PhyOf(target.regs)).(dyn := on)
    {
      var v := target.RegRead(AR_PHY_TURBO);
      target.RegWrite(AR_PHY_TURBO, WithWidth(v, on));
      WriteDyn(old(target.regs), on);
    }

    /** Polls until the hardware clears a bit, or gives up. */
    method WaitClear(a: Addr, mask: Word, clears: bool) returns (ok: bool)
      requires !Shared(a)
      modifies target
      ensures ok == clears && PhyOf(target.regs) == old(PhyOf(target.regs))
      ensures target.regs
              == if clears then old(target.regs)[a := Clear(Load(old(target.regs), a), mask)] else old(target.regs)
    {
      if clears {
        ClearBit(a, mask);
      }
      ok := clears;
    }

    // ---- calibration ----------------------------------------------------------------------------------------

    method SetFlag(a: Addr, bits: Word, bit: nat)
      requires !Shared(a) && BitOf(bits, bit)
      modifies target
      ensures target.regs == old(target.regs)[a := Or(Load(old(target.regs), a), bits)]
      ensures PhyOf(target.regs) == old(PhyOf(target.regs)) && Flag(target.regs, a, bit)
    {
      SetBit(a, bits);
      OrBitByBit(Load(old(target.regs), a), bits, bit);
    }

    method ClearFlag(a: Addr, bits: Word, bit: nat)
      requires !Shared(a) && BitOf(bits, bit)
      modifies target
      ensures target.regs == old(target.regs)[a := Clear(Load(old(target.regs), a), bits)]
      ensures PhyOf(target.regs) == old(PhyOf(target.regs)) && !Flag(target.regs, a, bit)
    {
      ClearBit(a, bits);
      ClearBitByBit(Load(old(target.regs), a), bits, bit);
    }

    /** Sets up the parallel offset calibration, with the width bit borrowed. */
    method StartOffsetCal()
      modifies target
      ensures CalOnly(old(target.regs), target.regs)
      ensures PhyOf(target.regs) == old(PhyOf(target.regs)).(dyn := true)
      ensures Flag(target.regs, AR_PHY_CL_CAL_CTL, 0) && Flag(target.regs, AR_PHY_CL_CAL_CTL, 1)
    {
      LeakBits();
      SetFlag(AR_PHY_CL_CAL_CTL, CL_CAL_ENABLE, 1);
      OrBitByBit(Load(target.regs, AR_PHY_CL_CAL_CTL), PARALLEL_CAL_ENABLE, 1);
      SetFlag(AR_PHY_CL_CAL_CTL, PARALLEL_CAL_ENABLE, 0);
      SetDyn(true);
      ClearBit(AR_PHY_AGC_CONTROL, AGC_FLTR_CAL);
      ClearBit(AR_PHY_TPCRG1, PD_CAL_ENABLE);
      SetBit(AR_PHY_AGC_CONTROL, AGC_CAL);
    }

    /** Gives the width bit back, cleared, and clears both enables. */
    method EndOffsetCal()
      modifies target
      ensures CalOnly(old(target.regs), target.regs)
      ensures PhyOf(target.regs) == old(PhyOf(target.regs)).(dyn := false)
      ensures !Flag(target.regs, AR_PHY_CL_CAL_CTL, 0) && !Flag(target.regs, AR_PHY_CL_CAL_CTL, 1)
    {
      LeakBits();
      SetDyn(false);
      ClearFlag(AR_PHY_CL_CAL_CTL, PARALLEL_CAL_ENABLE, 0);
      ClearBitByBit(Load(target.regs, AR_PHY_CL_CAL_CTL), CL_CAL_ENABLE, 0);
      ClearFlag(AR_PHY_CL_CAL_CTL, CL_CAL_ENABLE, 1);
    }

    /** Opens the main gain calibration. */
    method StartAgcCal()
      modifies target
      ensures CalOnly(old(target.regs), target.regs) && PhyOf(target.regs) == old(PhyOf(target.regs))
      ensures Load(target.regs, AR_PHY_CL_CAL_CTL) == Load(old(target.regs), AR_PHY_CL_CAL_CTL)
      ensures Flag(target.regs, AR_PHY_TPCRG1, 22)
    {
      GainBits();
      ClearBit(AR_PHY_ADC_CTL, OFF_PWDADC);
      SetBit(AR_PHY_AGC_CONTROL, AGC_FLTR_CAL);
      SetFlag(AR_PHY_TPCRG1, PD_CAL_ENABLE, 22);
      SetBit(AR_PHY_AGC_CONTROL, AGC_CAL);
    }

    /** Closes it: the converter flag set again, filter calibration and carrier-leak enable cleared. */
    method EndAgcCal()
      modifies target
      ensures CalOnly(old(target.regs), target.regs) && PhyOf(target.regs) == old(PhyOf(target.regs))
      ensures Flag(target.regs, AR_PHY_CL_CAL_CTL, 0) == Flag(old(target.regs), AR_PHY_CL_CAL_CTL, 0)
      ensures !Flag(target.regs, AR_PHY_CL_CAL_CTL, 1) && !Flag(target.regs, AR_PHY_AGC_CONTROL, 16)
      ensures Flag(target.regs, AR_PHY_ADC_CTL, 15)
      ensures Load(target.regs, AR_PHY_TPCRG1) == Load(old(target.regs), AR_PHY_TPCRG1)
    {
      GainBits();
      LeakBits();
      SetFlag(AR_PHY_ADC_CTL, OFF_PWDADC, 15);
      ClearBitByBit(Load(target.regs, AR_PHY_CL_CAL_CTL), CL_CAL_ENABLE, 0);
      ClearFlag(AR_PHY_CL_CAL_CTL, CL_CAL_ENABLE, 1);
      ClearFlag(AR_PHY_AGC_CONTROL, AGC_FLTR_CAL, 16);
    }

    /** The offset calibration borrows the width bit and the carrier-leak enables.  When it converges all come back
        cleared, and the gain calibration that follows leaves the converter flag and the detector set and the filter
        calibration cleared; when it does not, all stay set. */
    method ClCal(env: CalEnv) returns (converged: bool)
      modifies target
      ensures converged == (env.offset && env.agc) && CalOnly(old(target.regs), target.regs)
      ensures PhyOf(target.regs) == old(PhyOf(target.regs)).(dyn := !env.offset)
      ensures Flag(target.regs, AR_PHY_CL_CAL_CTL, 0) == Flag(target.regs, AR_PHY_CL_CAL_CTL, 1) == !env.offset
      ensures env.offset ==> Flag(target.regs, AR_PHY_ADC_CTL, 15) && Flag(target.regs, AR_PHY_TPCRG1, 22)
                             && !Flag(target.regs, AR_PHY_AGC_CONTROL, 16)
    {
      StartOffsetCal();
      var offset := WaitClear(AR_PHY_AGC_CONTROL, AGC_CAL, env.offset);
      if !offset {
        return false;
      }
      EndOffsetCal();
      StartAgcCal();
      converged := WaitClear(AR_PHY_AGC_CONTROL, AGC_CAL, env.agc);
      EndAgcCal();
    }

    method SetNoise(nf: int)
      modifies target
      ensures Load(target.regs, AR_PHY_CCA) == WithNoise(Load(old(target.regs), AR_PHY_CCA), nf)
      ensures forall a: Addr :: a != AR_PHY_CCA ==> Load(target.regs, a) == Load(old(target.regs), a)
      ensures PhyOf(target.regs) == old(PhyOf(target.regs))
    {
      Rmw(AR_PHY_CCA, NoiseField(nf), CCA_FIELD);
    }

    /** One noise-floor load, which the hardware may or may not acknowledge. */
    method TakeNoise(env: CalEnv)
      modifies target
      ensures PhyOf(target.regs) == old(PhyOf(target.regs))
      ensures forall a: Addr :: a != AR_PHY_AGC_CONTROL ==> Load(target.regs, a) == Load(old(target.regs), a)
    {
      ClearBit(AR_PHY_AGC_CONTROL, AGC_ENABLE_NF);
      ClearBit(AR_PHY_AGC_CONTROL, AGC_NO_UPDATE_NF);
      SetBit(AR_PHY_AGC_CONTROL, AGC_NF);
      var _ := WaitClear(AR_PHY_AGC_CONTROL, AGC_NF, env.nf);
    }

    /** Loads one noise floor, and leaves another for the next measurement. */
    method LoadNoise(floor: int, next: int, env: CalEnv)
      modifies target
      ensures PhyOf(target.regs) == old(PhyOf(target.regs)) && CalOnly(old(target.regs), target.regs)
      ensures Load(target.regs, AR_PHY_CCA) == 0x200 * (Load(old(target.regs), AR_PHY_CCA) / 0x200) + NoiseField(next)
    {
      NoiseTwice(Load(target.regs, AR_PHY_CCA), floor, next);
      SetNoise(floor);
      TakeNoise(env);
      SetNoise(next);
    }

    /** -50 dBm is 412 half-dB steps modulo 512. */
    method LoadNf(env: CalEnv)
      modifies target
      ensures PhyOf(target.regs) == old(PhyOf(target.regs)) && CalOnly(old(target.regs), target.regs)
      ensures Load(target.regs, AR_PHY_CCA) == 0x200 * (Load(old(target.regs), AR_PHY_CCA) / 0x200) + 412
    {
      LoadNoise(-118, -50, env);
    }

    /** Arms the I/Q calibration for a number of samples, told by its logarithm. */
    method ArmIqCal(count: Word)
      modifies target
      ensures PhyOf(target.regs) == old(PhyOf(target.regs)) && CalOnly(old(target.regs), target.regs)
      ensures Load(target.regs, AR_PHY_CALMODE) == 0 && Flag(target.regs, AR_PHY_TIMING_CTRL4, 16)
      ensures forall a: Addr :: a != AR_PHY_CALMODE && a != AR_PHY_TIMING_CTRL4
                                ==> Load(target.regs, a) == Load(old(target.regs), a)
    {
      OtherBits();
      Rmw(AR_PHY_TIMING_CTRL4, count, IQCAL_LOG_COUNT_MASK);
      Write(AR_PHY_CALMODE, 0);
      SetFlag(AR_PHY_TIMING_CTRL4, IQ_DO_CAL, 16);
    }

    /** Starts a noise-floor measurement, with the update allowed. */
    method StartNf()
      modifies target
      ensures PhyOf(target.regs) == old(PhyOf(target.regs)) && CalOnly(old(target.regs), target.regs)
      ensures Flag(target.regs, AR_PHY_AGC_CONTROL, 1)
      ensures forall a: Addr :: a != AR_PHY_AGC_CONTROL ==> Load(target.regs, a) == Load(old(target.regs), a)
    {
      OtherBits();
      SetBit(AR_PHY_AGC_CONTROL, AGC_ENABLE_NF);
      ClearBit(AR_PHY_AGC_CONTROL, AGC_NO_UPDATE_NF);
      SetFlag(AR_PHY_AGC_CONTROL, AGC_NF, 1);
    }

    method FinishCal(env: CalEnv)
      modifies target
      ensures CalOnly(old(target.regs), target.regs) && PhyOf(target.regs) == old(PhyOf(target.regs))
      ensures Load(target.regs, AR_PHY_CCA) % 0x200 == 412 && Flag(target.regs, AR_PHY_AGC_CONTROL, 1)
      ensures Load(target.regs, AR_PHY_CALMODE) == 0 && Flag(target.regs, AR_PHY_TIMING_CTRL4, 16)
    {
      LoadNf(env);
      StartNf();
      ArmIqCal(IQCAL_LOG_COUNT_10);
    }

    /** The whole sequence: it ends with the noise floor at -50 dBm, its measurement running and the I/Q calibration
        armed, whether or not the two calibrations before converged. */
    method InitCal(env: CalEnv) returns (converged: bool)
      modifies target
      ensures converged == (env.offset && env.agc) && CalOnly(old(target.regs), target.regs)
      ensures PhyOf(target.regs) == old(PhyOf(target.regs)).(dyn := !env.offset)
      ensures Load(target.regs, AR_PHY_CCA) % 0x200 == 412 && Flag(target.regs, AR_PHY_AGC_CONTROL, 1)
      ensures Load(target.regs, AR_PHY_CALMODE) == 0 && Flag(target.regs, AR_PHY_TIMING_CTRL4, 16)
    {
      converged := ClCal(env);
      FinishCal(env);
    }

    // ---- tuning ---------------------------------------------------------------------------------------------

    method RfSetFreq(mhz: Frequency)
      modifies target
      ensures PhyOf(target.regs) == old(PhyOf(target.regs)).(synth := Tuned(Centre(mhz, ht40)))
      ensures Flag(target.regs, AR_PHY_CCK_TX_CTRL, 4) <==> mhz == 2484
      ensures forall a: Addr :: a != AR_PHY_CCK_TX_CTRL && a != AR_PHY_SYNTH_CONTROL
                                ==> Load(target.regs, a) == Load(old(target.regs), a)
    {
      OtherBits();
      if mhz != 2484 {
        ClearFlag(AR_PHY_CCK_TX_CTRL, CCK_TX_CTRL_JAPAN, 4);
      } else {
        SetFlag(AR_PHY_CCK_TX_CTRL, CCK_TX_CTRL_JAPAN, 4);
      }
      var synthMhz := Centre(mhz, ht40);
      var prev := target.RegRead(AR_PHY_SYNTH_CONTROL);
      WriteSynth(target.regs, synthMhz);
      target.RegWrite(AR_PHY_SYNTH_CONTROL, SynthWord(prev, synthMhz));
    }

    method ProgramChannel(mhz: Frequency)
      modifies target
      ensures PhyOf(target.regs) == old(PhyOf(target.regs)).(synth := Tuned(Centre(mhz, ht40)))
      ensures Load(target.regs, AR_PHY_MODE) == AR_PHY_MODE_DYNAMIC && Load(target.regs, AR_PHY_ACTIVE) == 1
      ensures Flag(target.regs, AR_PHY_CCK_TX_CTRL, 4) <==> mhz == 2484
    {
      Write(AR_PHY_MODE, AR_PHY_MODE_DYNAMIC);
      RfSetFreq(mhz);
      assert Load(target.regs, AR_PHY_MODE) == AR_PHY_MODE_DYNAMIC;
      Write(AR_PHY_ACTIVE, 1);
    }

    method SetChannelAndCal(mhz: Frequency, env: CalEnv) returns (converged: bool)
      modifies target
      ensures converged == (env.offset && env.agc)
      ensures PhyOf(target.regs)
              == old(PhyOf(target.regs)).(dyn := !env.offset, synth := Tuned(Centre(mhz, ht40)))
      ensures Load(target.regs, AR_PHY_MODE) == AR_PHY_MODE_DYNAMIC && Load(target.regs, AR_PHY_ACTIVE) == 1
      ensures Flag(target.regs, AR_PHY_CCK_TX_CTRL, 4) <==> mhz == 2484
    {
      ProgramChannel(mhz);
      converged := InitCal(env);
    }

    /** Streams the tables for the width in use: the width bit follows the flag. */
    method Reinitialise()
      modifies target
      ensures PhyOf(target.regs).dyn == ht40
    {
      var _ := ApplyInitvals(target, tables, ht40, highPower);
      LogIsContents(old(target.regs), tables, ht40, highPower, AR_PHY_TURBO);
    }

    /** Reprograms the radio for a width, whatever it was, and puts the power state back. */
    method SetBandwidth(want: bool, env: CalEnv, cal: seq<Pair>) returns (converged: bool)
      requires forall p :: p in cal ==> CalRegister(p.0)
      modifies this`ht40, target
      ensures converged == (env.offset && env.agc)
      ensures ViewNow() == WidthStep(old(ViewNow()), channel, want, env)
      ensures calApplied ==> forall a: Addr :: !GainRegister(a) && LastWriter(cal, a).Some?
                                               ==> Load(target.regs, a) == LastWriter(cal, a).value
    {
      ht40 := want;
      Reinitialise();
      converged := SetChannelAndCal(Mhz(channel), env);
      if want {
        SetDyn(true);
      }
      ReapplyPowerState(cal);
    }

    /** Retunes; refuses a width it has no tables for and leaves everything alone. */
    method SetChannel(channel: Channel, bw: Bandwidth, env: CalEnv, cal: seq<Pair>) returns (r: Result<(), KnobError>)
      requires forall p :: p in cal ==> CalRegister(p.0)
      modifies this`channel, this`ht40, target
      ensures ViewNow() == TuneStep(old(ViewNow()), channel, bw, env)
      ensures r == if bw == OtherWidth then Err(UnsupportedWidth) else Ok(())
    {
      var wantHt40;
      match bw {
        case Bw20 => wantHt40 := false;
        case Bw40 => wantHt40 := true;
        case OtherWidth => return Err(UnsupportedWidth);
      }
      var widthChanged := wantHt40 != ht40;
      var channelChanged := channel != this.channel;
      if !widthChanged && !channelChanged {
        return Ok(());
      }
      this.channel := channel;
      if widthChanged {
        var _ := SetBandwidth(wantHt40, env, cal);
      } else {
        var _ := SetChannelAndCal(Mhz(channel), env);
      }
      return Ok(());
    }

    // ---- power ----------------------------------------------------------------------------------------------

    /** Writes one rung to all nine gain registers. */
    method SetTxGainLevel(level: nat)
      modifies target
      ensures PhyOf(target.regs) == old(PhyOf(target.regs)).(lut := Rungs(Min(level, LEVELS - 1)))
      ensures forall a: Addr :: Load(target.regs, a) == if GainRegister(a) then TX_GAIN_LADDER[Min(level, LEVELS - 1)]
                                                        else Load(old(target.regs), a)
    {
      var v := TX_GAIN_LADDER[Min(level, LEVELS - 1)];
      for k := 0 to LUT_SIZE
        invariant forall a: Addr :: !GainRegister(a) ==> Load(target.regs, a) == Load(old(target.regs), a)
        invariant forall j :: 0 <= j < k ==> Load(target.regs, LutAddr(j)) == v
      {
        target.RegWrite(LutAddr(k), v);
      }
      forall a: Addr | GainRegister(a)
        ensures Load(target.regs, a) == v
      {
        assert a == LutAddr((a - 0xA334) / 4);
      }
      assert PhyOf(target.regs).lut == Rungs(Min(level, LEVELS - 1));
    }

    /** Puts back the board and power calibration, when there was one, and then the commanded level.  Every register
        but the nine gain registers then holds its last calibration value. */
    method ReapplyPowerState(cal: seq<Pair>)
      requires forall p :: p in cal ==> CalRegister(p.0)
      modifies target
      ensures PhyOf(target.regs) == old(PhyOf(target.regs)).(lut := Rungs(LevelForIdx(curPower)))
      ensures forall a: Addr :: !GainRegister(a) ==>
                                HoldsLast(old(target.regs), target.regs, if calApplied then cal else [], a)
    {
      if calApplied {
        WriteApart(cal);
      }
      ghost var written := target.regs;
      SetTxGainLevel(LevelForIdx(curPower));
      forall a: Addr | !GainRegister(a)
        ensures HoldsLast(old(target.regs), target.regs, if calApplied then cal else [], a)
      {
        LastWriterIsContents(old(target.regs), cal, a);
      }
    }

    method SetTxPowerDbm(dbm: int) returns (applied: int)
      modifies this`curPower, target
      ensures applied == ReportedDbm(NearestLevel(dbm))
      ensures ViewNow() == PowerStep(old(ViewNow()), Dbm(dbm))
    {
      var level := NearestLevel(dbm);
      curPower := level * 63 / (LEVELS - 1);
      SetTxGainLevel(level);
      applied := ReportedDbm(level);
    }

    method SetTxPower(req: PowerRequest) returns (r: Result<Applied, KnobError>)
      modifies this`curPower, target
      ensures r == Reply(req)
      ensures ViewNow() == PowerStep(old(ViewNow()), req)
    {
      var want;
      match req {
        case Ceiling => want := 63;
        case Index(i) => want := i;
        case Raw(i) => want := i;
        case Dbm(d) =>
          var applied := SetTxPowerDbm(d);
          return Ok(AppliedDbm(applied, applied != d));
        case NoActuator => return Err(PowerUnsupported);
      }
      var idx := Min(want, 63);
      var level := LevelForIdx(idx);
      curPower := idx;
      SetTxGainLevel(level);
      return Ok(AppliedIndex(idx, idx != want, level));
    }

    // ---- whole runs -----------------------------------------------------------------------------------------

    /** A run of knob calls takes the radio where the model of runs says; `cal` is what each width change reads out
        of the EEPROM. */
    method Turn(ks: seq<Knob>, cal: seq<Pair>)
      requires forall p :: p in cal ==> CalRegister(p.0)
      modifies this`channel, this`ht40, this`curPower, target
      ensures ViewNow() == Run(old(ViewNow()), ks)
    {
      var i := 0;
      while i < |ks|
        invariant 0 <= i <= |ks|
        invariant Run(ViewNow(), ks[i..]) == Run(old(ViewNow()), ks)
      {
        match ks[i] {
          case Tune(c, bw, env) => var _ := SetChannel(c, bw, env, cal);
          case Power(req) => var _ := SetTxPower(req);
        }
        assert ks[i..][1..] == ks[i + 1..];
        i := i + 1;
      }
    }

    /** The cold reset: `wiped` is what the chip reset leaves, `mac`, `queues` and `tail` what the MAC steps between
        the tuning steps write.  The width bit comes out right unless an HT20 offset calibration failed; the gain
        registers are left as the tables have them, with the stored index unchanged. */
    method HwReset(mhz: Frequency, env: CalEnv, wiped: RegFile, mac: seq<Pair>, queues: seq<Pair>, tail: seq<Pair>)
      requires Apart(mac) && Apart(queues) && Apart(tail)
      modifies target
      ensures ViewNow().phy.dyn == ht40 <==> ht40 || env.offset
      ensures ViewNow().phy.synth == Tuned(Centre(mhz, ht40))
      ensures ViewNow().phy.lut == PhyOf(WriteAll(Routed(wiped), Log(wiped, tables, ht40, highPower))).lut
      ensures forall a: Addr :: !CalWorkspace(a) && a != AR_PHY_SYNTH_CONTROL && a != AR_PHY_CCK_TX_CTRL ==>
                                HoldsLast(Routed(wiped), target.regs,
                                          ResetLog(Log(wiped, tables, ht40, highPower), mac, queues, tail), a)
      ensures forall a: Addr :: LastWriter(tail, a).Some? ==> Load(target.regs, a) == LastWriter(tail, a).value
    {
      target.regs := wiped;
      var _ := ApplyInitvals(target, tables, ht40, highPower);
      ghost var ini := target.regs;
      Write(AR_PHY_MODE, AR_PHY_MODE_DYNAMIC);
      ghost var moded := target.regs;
      WriteApart(mac);
      RfSetFreq(mhz);
      ghost var tuned := target.regs;
      WriteApart(queues);
      ghost var queued := target.regs;
      Write(AR_PHY_ACTIVE, 1);
      var _ := InitCal(env);
      if ht40 {
        SetDyn(true);
      }
      ghost var calibrated := target.regs;
      WriteApart(tail);
      forall a: Addr | !CalWorkspace(a) && a != AR_PHY_SYNTH_CONTROL && a != AR_PHY_CCK_TX_CTRL
        ensures HoldsLast(Routed(wiped), target.regs,
                          ResetLog(Log(wiped, tables, ht40, highPower), mac, queues, tail), a)
      {
        var log := Log(wiped, tables, ht40, highPower);
        LastWriterIsContents(Routed(wiped), log, a);
        WriteOne(ini, AR_PHY_MODE, AR_PHY_MODE_DYNAMIC);
        WriteOne(queued, AR_PHY_ACTIVE, 1);
        ResetReplays(Routed(wiped), ini, moded, tuned, queued, calibrated, target.regs, log, mac, queues, tail, a);
      }
      forall a: Addr | LastWriter(tail, a).Some?
        ensures Load(target.regs, a) == LastWriter(tail, a).value
      {
        LastWriterIsContents(calibrated, tail, a);
      }
    }
  }
}
