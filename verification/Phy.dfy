/** The registers that one knob writes and another has to put back: width bit, synthesiser, gain table. */
module Phy {
  import opened Bits
  import opened Registers
  import opened Store
  import opened Initvals
  import opened PowerLevels

  const AR_PHY_SYNTH_CONTROL: Addr := 0x9874

  /** The first of the nine gain registers the power loop latches, four bytes apart. */
  const TX_GAIN_LUT_TOP: Addr := 0xA334
  const LUT_SIZE: nat := 9

  const TX_GAIN_LADDER: seq<Word> :=
    [0x9200, 0x1_0208, 0x1_9608, 0x1_e610, 0x2_4650, 0x2_d6d0, 0x3_16d2, 0x3_9758, 0x3_b759, 0x3_d75a, 0x3_e9df]

  type Channel = c: int | 0 <= c < 256

  /** A frequency in whole MHz, as its sixteen bits hold it. */
  type Frequency = m: int | 0 <= m < 0x1_0000

  function Mhz(c: Channel): Frequency {
    if c == 14 then 2484 else 2407 + 5 * c
  }

  /** The synthesiser centre: an HT40 pair is centred 10 MHz above its primary channel. */
  function Centre(mhz: Frequency, ht40: bool): Frequency {
    if ht40 then (mhz + 10) % 0x1_0000 else mhz
  }

  /** The fractional-mode selector of a centre. */
  function ChanSel(mhz: Frequency): (sel: Word)
    ensures sel < 0x2000_0000
  {
    mhz * 0x1_0000 / 15
  }

  const SYNTH_KEPT: Word := 0xC000_0000
  const SYNTH_2G: Word := 0x3000_0000

  function SynthWord(prev: Word, mhz: Frequency): Word {
    Or(Or(And(prev, SYNTH_KEPT), SYNTH_2G), ChanSel(mhz))
  }

  /**
   * What the field under the two kept bits holds when tuned to a centre: the mode bits swallow bit 28 of
   * the selector.
   */
  function Tuned(mhz: Frequency): nat {
    SYNTH_2G + ChanSel(mhz) % 0x1000_0000
  }

  lemma KeptBits(prev: Word)
    ensures And(prev, SYNTH_KEPT) == 0x4000_0000 * (prev / 0x4000_0000)
  {
    Pow32();
    var top := prev / 0x4000_0000;
    MaskHighField(top, prev % 0x4000_0000, 3, 30);
    LowTwoBits(top);
  }

  lemma LowTwoBits(top: nat)
    requires top < 4
    ensures AndBits(top, 3) == top
  {
    assert AndBits(0, 3) == 0 && AndBits(1, 3) == 1 && AndBits(2, 3) == 2 && AndBits(3, 3) == 3;
  }

  lemma OddHigh(h: nat, bit: nat)
    requires bit < 2
    ensures OrBits(2 * h + 1, bit) == 2 * h + 1
  {
    assert OrBits(h, 0) == h && (2 * h + 1) / 2 == h && (2 * h + 1) % 2 == 1;
  }

  /** The mode bits fill the place just below the two kept bits. */
  lemma OverModeBits(kept: Word, top: nat)
    requires kept == 0x4000_0000 * top
    ensures Or(kept, SYNTH_2G) == kept + SYNTH_2G
  {
    Pow32();
    assert OrBits(top, 0) == top;
    OrHighField(top, 0, SYNTH_2G, 30);
  }

  /** An odd multiple of 2^28 swallows bit 28 of the selector. */
  lemma OverSelector(w: Word, h: nat, sel: Word)
    requires w == 0x1000_0000 * (2 * h + 1) && sel < 0x2000_0000
    ensures Or(w, sel) == w + sel % 0x1000_0000
  {
    var bit, low := sel / 0x1000_0000, sel % 0x1000_0000;
    assert sel == 0x1000_0000 * bit + low;
    Pow32();
    OddHigh(h, bit);
    OrHighField(2 * h + 1, bit, low, 28);
  }

  lemma ModeAndSelector(kept: Word, top: nat, sel: Word)
    requires kept == 0x4000_0000 * top && sel < 0x2000_0000
    ensures Or(Or(kept, SYNTH_2G), sel) == kept + SYNTH_2G + sel % 0x1000_0000
  {
    OverModeBits(kept, top);
    OverSelector(Or(kept, SYNTH_2G), 2 * top + 1, sel);
  }

  lemma LowField(top: nat, low: nat)
    requires low < 0x4000_0000
    ensures (0x4000_0000 * top + low) % 0x4000_0000 == low
  {
  }

  /** A retune keeps the two top bits and overwrites the rest. */
  lemma RetuneOverwritesField(prev: Word, mhz: Frequency)
    ensures SynthWord(prev, mhz) == 0x4000_0000 * (prev / 0x4000_0000) + Tuned(mhz)
    ensures SynthWord(prev, mhz) % 0x4000_0000 == Tuned(mhz)
  {
    var top := prev / 0x4000_0000;
    assert SynthWord(prev, mhz) == 0x4000_0000 * top + Tuned(mhz) by {
      KeptBits(prev);
      ModeAndSelector(And(prev, SYNTH_KEPT), top, ChanSel(mhz));
    }
    LowField(top, Tuned(mhz));
  }

  /** The field is the 2.4 GHz mode bits over the centre in 15/65536 MHz, rounded down, modulo 61440 MHz. */
  lemma TunedIsFraction(mhz: Frequency)
    ensures var sel := Tuned(mhz) - 0x3000_0000;
            0 <= 15 * sel <= mhz % 61440 * 0x1_0000 < 15 * (sel + 1)
  {
    SelectorCycle(mhz);
  }

  /** The selector grows by 65536/15 per MHz and reaches bit 28 at 61440 MHz. */
  lemma SelectorCycle(mhz: Frequency)
    ensures ChanSel(mhz) % 0x1000_0000 == mhz % 61440 * 0x1_0000 / 15
  {
    var high, low := mhz / 61440, mhz % 61440;
    assert mhz * 0x1_0000 == 15 * 0x1000_0000 * high + low * 0x1_0000;
  }

  /**
   * Two centres program the same field exactly when they agree modulo 61440 MHz; below that every centre
   * has its own field.  Channel 1 programs the word of the golden trace.
   */
  lemma TunedAgreesExactly(a: Frequency, b: Frequency)
    ensures Tuned(a) == Tuned(b) <==> a % 61440 == b % 61440
    ensures Tuned(Centre(Mhz(1), false)) == 0x30A0_CCCC
  {
    SelectorCycle(a);
    SelectorCycle(b);
  }

  /**
   * Neighbouring channels lie 5 MHz apart from 2412 MHz on, 14 alone 12 MHz above 13; an HT40 pair programs the field
   * of the HT20 channel two up, halfway between the pair, and of no other among channels 1 to 13.
   */
  lemma ChannelsAreFiveApart(c: Channel, d: Channel)
    ensures Mhz(1) == 2412 && Mhz(14) == Mhz(13) + 12
    ensures c < 13 ==> Mhz(c + 1) == Mhz(c) + 5
    ensures c <= 11 && 1 <= d <= 13 ==> (Tuned(Centre(Mhz(c), true)) == Tuned(Centre(Mhz(d), false)) <==> d == c + 2)
    ensures c <= 9 ==> 2 * Centre(Mhz(c), true) == Mhz(c) + Mhz(c + 4)
  {
    TunedAgreesExactly(Centre(Mhz(c), true), Centre(Mhz(d), false));
  }

  datatype Phy = Phy(dyn: bool, synth: nat, lut: seq<Word>)

  function LutAddr(k: nat): Addr
    requires k < LUT_SIZE
  {
    TX_GAIN_LUT_TOP + 4 * k
  }

  function PhyOf(regs: RegFile): Phy {
    Phy(DynBit(Load(regs, AR_PHY_TURBO)), Load(regs, AR_PHY_SYNTH_CONTROL) % 0x4000_0000,
        seq(LUT_SIZE, k requires 0 <= k < LUT_SIZE => Load(regs, LutAddr(k))))
  }

  predicate Shared(a: Addr) {
    a == AR_PHY_TURBO || a == AR_PHY_SYNTH_CONTROL || TX_GAIN_LUT_TOP <= a <= TX_GAIN_LUT_TOP + 32
  }

  lemma WriteElsewhere(regs: RegFile, a: Addr, w: Word)
    requires !Shared(a)
    ensures PhyOf(regs[a := w]) == PhyOf(regs)
  {
  }

  lemma {:induction false} WritesElsewhere(regs: RegFile, pairs: seq<Pair>)
    requires forall p :: p in pairs ==> !Shared(p.0)
    ensures PhyOf(WriteAll(regs, pairs)) == PhyOf(regs)
    decreases |pairs|
  {
    if pairs != [] {
      assert pairs[0] in pairs;
      WriteElsewhere(regs, pairs[0].0, pairs[0].1);
      WritesElsewhere(regs[pairs[0].0 := pairs[0].1], pairs[1..]);
    }
  }

  lemma WriteDyn(regs: RegFile, on: bool)
    ensures PhyOf(regs[AR_PHY_TURBO := WithWidth(Load(regs, AR_PHY_TURBO), on)]) == PhyOf(regs).(dyn := on)
  {
    WidthBit(Load(regs, AR_PHY_TURBO), on);
  }

  lemma WriteSynth(regs: RegFile, mhz: Frequency)
    ensures PhyOf(regs[AR_PHY_SYNTH_CONTROL := SynthWord(Load(regs, AR_PHY_SYNTH_CONTROL), mhz)])
            == PhyOf(regs).(synth := Tuned(mhz))
  {
    RetuneOverwritesField(Load(regs, AR_PHY_SYNTH_CONTROL), mhz);
  }

  /** All nine gain registers at one rung. */
  function Rungs(level: nat): (r: seq<Word>)
    requires level < LEVELS
    ensures |r| == LUT_SIZE && forall k :: 0 <= k < LUT_SIZE ==> r[k] == TX_GAIN_LADDER[level]
  {
    seq(LUT_SIZE, _ => TX_GAIN_LADDER[level])
  }

  /** The gain registers tell the eleven levels apart. */
  lemma RungsAreDistinct(a: nat, b: nat)
    requires a < LEVELS && b < LEVELS
    ensures Rungs(a) == Rungs(b) <==> a == b
  {
    if a != b {
      assert Rungs(a)[0] == TX_GAIN_LADDER[a] && Rungs(b)[0] == TX_GAIN_LADDER[b];
    }
  }
}
