/** The OFDM delta-slope coefficient as the mantissa and exponent its registers hold. */
module DeltaSlope {
  import opened Bits
  import opened Bytes
  import opened Prelude
  import DivMod

  const COEF_SCALE_S: nat := 24
  const DELTA_SLOPE_CLOCK_MHZ_SCALED: nat := 0x6400_0000

  function TopBit(coef: nat): nat {
    if coef < 2 then 0 else 1 + TopBit(coef / 2)
  }

  lemma {:induction false} TopBitBrackets(coef: nat)
    requires coef > 0
    ensures Pow2(TopBit(coef)) <= coef < Pow2(TopBit(coef) + 1)
  {
    if coef >= 2 {
      TopBitBrackets(coef / 2);
    } else {
      assert Pow2(1) == 2;
    }
  }

  lemma {:induction false} TopBitIs(coef: nat, b: nat)
    requires Pow2(b) <= coef < Pow2(b + 1)
    ensures TopBit(coef) == b
    decreases b
  {
    if b > 0 {
      TopBitIs(coef / 2, b - 1);
    }
  }

  lemma TestBit(coef: nat, p: nat)
    requires p > 0 && coef < 2 * p
    ensures coef / p % 2 == 1 <==> coef >= p
  {
    if coef >= p {
      assert coef == p * 1 + (coef - p);
      assert coef / p == 1;
    }
  }

  /** The search from bit 31 down for the highest bit set. */
  method FindTopBit(coef: nat) returns (b: nat)
    requires coef < TWO_32
    ensures b == TopBit(coef) && b <= 31
  {
    Pow32();
    b := 31;
    while b > 0
      invariant b <= 31 && coef < Pow2(b + 1)
    {
      TestBit(coef, Pow2(b));
      if coef / Pow2(b) % 2 == 1 {
        break;
      }
      b := b - 1;
    }
    if coef > 0 {
      TopBitIs(coef, b);
    }
  }

  lemma {:induction false} TopBitAtLeast(coef: nat, k: nat)
    requires coef >= Pow2(k)
    ensures TopBit(coef) >= k
    decreases k
  {
    if k > 0 {
      TopBitAtLeast(coef / 2, k - 1);
    }
  }

  lemma {:induction false} TopBitBelow(coef: nat, k: nat)
    requires 0 < coef < Pow2(k)
    ensures TopBit(coef) < k
    decreases k
  {
    if coef >= 2 {
      TopBitBelow(coef / 2, k - 1);
    }
  }

  function Quotient(a: nat, p: nat): nat
    requires p > 0
  {
    DivMod.Split(a, p);
    a / p
  }

  /** A division that rounds, by a 32-bit addition first. */
  function RoundedBy(coef: nat, half: nat, step: nat): nat
    requires step > 0
  {
    Quotient((coef + half) % TWO_32, step)
  }

  /** A shift right that rounds; shift counts keep their low five bits. */
  function Rounded(coef: nat, shift: int): nat {
    RoundedBy(coef, Pow2((shift - 1) % 32), Pow2(shift % 32))
  }

  function Mantissa(coef: nat): nat {
    Rounded(coef, TopBit(coef) - 14)
  }

  lemma Powers()
    ensures Pow2(14) == 0x4000 && Pow2(15) == 0x8000 && Pow2(23) == 0x80_0000
  {
    assert Pow2(8) == 0x100;
  }

  method RoundedShift(coef: nat, shift: int) returns (man: nat)
    ensures man == Rounded(coef, shift)
  {
    var coefMan := (coef + Pow2((shift - 1) % 32)) % TWO_32;
    man := Quotient(coefMan, Pow2(shift % 32));
  }

  /**
   * The split as the driver computes it, in 32-bit words.  The two shift counts are plain subtractions:
   * `checked` says whether the build traps a negative one, where the result is `None`, or wraps it.
   */
  method DeltaSlopeVals(coef: nat, checked: bool) returns (r: Option<(nat, nat)>)
    requires coef < TWO_32
    ensures r.None? <==> checked && coef < 0x8000
    ensures r.Some? ==> r.value == (Mantissa(coef), (22 - TopBit(coef)) % TWO_32)
  {
    var b := FindTopBit(coef);
    TopBitReaches15(coef);
    var coefExp := 14 - (b - COEF_SCALE_S);
    if checked && COEF_SCALE_S - coefExp - 1 < 0 {
      return None;
    }
    var man := RoundedShift(coef, COEF_SCALE_S - coefExp);
    return Some((man, (coefExp - 16) % TWO_32));
  }

  lemma TopBitReaches15(coef: nat)
    ensures TopBit(coef) >= 15 <==> coef >= 0x8000
  {
    Powers();
    if coef >= 0x8000 {
      TopBitAtLeast(coef, 15);
    } else if coef > 0 {
      TopBitBelow(coef, 15);
    }
  }

  /** Rounding to the nearest multiple of an even step, for values between 2^14 and 2^15 steps. */
  lemma RoundedDivision(coef: nat, half: nat, step: nat, m: nat)
    requires half > 0 && step == 2 * half && m == (coef + half) / step
    requires 0x4000 * step <= coef < 0x8000 * step
    ensures -(half as int) <= step * m - coef <= half
    ensures 0x4000 <= m <= 0x8000
    ensures m == 0x8000 <==> coef >= 0x8000 * step - half
  {
    DivMod.Split(coef + half, step);
    if m < 0x4000 {
      DivMod.Monotone(step, m, 0x3FFF);
    }
    if m > 0x8000 {
      DivMod.Monotone(step, 0x8001, m);
    }
    if m < 0x8000 {
      DivMod.Monotone(step, m, 0x7FFF);
    }
  }

  lemma NoWrap(coef: nat, half: nat, step: nat)
    requires step > 0 && coef + half < TWO_32
    ensures RoundedBy(coef, half, step) == (coef + half) / step
  {
    assert (coef + half) % TWO_32 == coef + half;
  }

  lemma RoundedIsNearest(coef: nat, half: nat, step: nat, m: nat)
    requires 0 < half <= 0x80 && step == 2 * half && m == RoundedBy(coef, half, step)
    requires 0x4000 * step <= coef < 0x8000 * step
    ensures -(half as int) <= step * m - coef <= half
    ensures 0x4000 <= m <= 0x8000
    ensures m == 0x8000 <==> coef >= 0x8000 * step - half
  {
    NoWrap(coef, half, step);
    RoundedDivision(coef, half, step, m);
  }

  lemma ShiftOfFiveBits(coef: nat, shift: nat)
    requires 1 <= shift < 32
    ensures Rounded(coef, shift) == RoundedBy(coef, Pow2(shift - 1), Pow2(shift))
  {
    assert shift % 32 == shift && (shift - 1) % 32 == shift - 1;
  }

  lemma {:induction false} Pow2Rises(j: nat, k: nat)
    requires j <= k
    ensures Pow2(j) <= Pow2(k)
  {
    if j > 0 {
      Pow2Rises(j - 1, k - 1);
    }
  }

  lemma {:induction false} Pow2Scales(k: nat)
    ensures Pow2(k + 14) == 0x4000 * Pow2(k) && Pow2(k + 15) == 0x8000 * Pow2(k)
  {
    if k == 0 {
      Powers();
    } else {
      Pow2Scales(k - 1);
    }
  }

  lemma TopBitRange(coef: nat)
    requires 0x8000 <= coef < 0x80_0000
    ensures 15 <= TopBit(coef) <= 22
  {
    Powers();
    TopBitAtLeast(coef, 15);
    TopBitBelow(coef, 23);
  }

  lemma CoefficientRange(coef: nat)
    requires 15 <= TopBit(coef) <= 22
    ensures var shift := TopBit(coef) - 14;
            Pow2(shift - 1) <= 0x80 && 0x4000 * Pow2(shift) <= coef < 0x8000 * Pow2(shift)
  {
    var b := TopBit(coef);
    TopBitBrackets(coef);
    Pow2Scales(b - 14);
    assert Pow2(b - 15) <= 0x80 by {
      Pow2Rises(b - 15, 7);
      assert Pow2(7) == 0x80;
    }
  }

  /** Over the coefficients of this radio the mantissa is the nearest one, the exponent does not wrap, and the
      mantissa outgrows its fifteen bits exactly when rounding carries out of the top. */
  lemma SplitIsNearest(coef: nat, shift: int, m: nat)
    requires 0x8000 <= coef < 0x80_0000 && shift == TopBit(coef) - 14 && m == Mantissa(coef)
    ensures 1 <= shift <= 8
    ensures -(Pow2(shift - 1) as int) <= Pow2(shift) * m - coef <= Pow2(shift - 1)
    ensures 0x4000 <= m <= 0x8000
    ensures m == 0x8000 <==> coef >= 0x8000 * Pow2(shift) - Pow2(shift - 1)
  {
    TopBitRange(coef);
    CoefficientRange(coef);
    ShiftOfFiveBits(coef, shift);
    RoundedIsNearest(coef, Pow2(shift - 1), Pow2(shift), m);
  }

  /** At every 2.4 GHz centre both splits, full and 9/10, have exponent 3 and a mantissa that fits its field, and
      the full one stands for 100 MHz over the centre to within 17 steps. */
  lemma TwoPointFourGigahertzFits(mhz: nat)
    requires 2400 <= mhz <= 2500
    ensures var coef := DELTA_SLOPE_CLOCK_MHZ_SCALED / mhz;
            var half := 9 * coef / 10;
            && TopBit(coef) == 19 && TopBit(half) == 19
            && Mantissa(coef) < 0x8000 && Mantissa(half) < 0x8000
            && -17 * mhz <= 32 * Mantissa(coef) * mhz - DELTA_SLOPE_CLOCK_MHZ_SCALED <= 17 * mhz
  {
    var clock := DELTA_SLOPE_CLOCK_MHZ_SCALED;
    var coef := clock / mhz;
    DivMod.Split(clock, mhz);
    if coef < 671088 {
      DivMod.Monotone(mhz, coef, 671087);
    }
    if coef > 699050 {
      DivMod.Monotone(mhz, 699051, coef);
    }
    assert Pow2(5) == 32 && Pow2(4) == 16 && Pow2(19) == 524288 && Pow2(20) == 1048576;
    TopBitIs(coef, 19);
    TopBitIs(9 * coef / 10, 19);
    SplitIsNearest(coef, 5, Mantissa(coef));
    SplitIsNearest(9 * coef / 10, 5, Mantissa(9 * coef / 10));
    Scaled(32 * Mantissa(coef), coef, mhz, clock);
  }

  lemma Scaled(m: nat, coef: nat, mhz: nat, clock: nat)
    requires -16 <= m - coef <= 16 && mhz * coef <= clock <= mhz * coef + mhz
    ensures -17 * mhz <= m * mhz - clock <= 17 * mhz
  {
    DivMod.Monotone(mhz, m - coef, 16);
    DivMod.Monotone(mhz, -16, m - coef);
  }
}
