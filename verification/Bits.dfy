/** Masks and flags of a 32-bit register, on the word's value. */
module Bits {
  import opened Prelude

  type Word = w: int | 0 <= w < 0x1_0000_0000

  function OrBits(a: nat, b: nat): nat
    decreases a + b
  {
    if a == 0 then b
    else if b == 0 then a
    else 2 * OrBits(a / 2, b / 2) + if a % 2 == 1 || b % 2 == 1 then 1 else 0
  }

  function AndBits(a: nat, b: nat): nat
    decreases a
  {
    if a == 0 then 0
    else 2 * AndBits(a / 2, b / 2) + if a % 2 == 1 && b % 2 == 1 then 1 else 0
  }

  /** `a & !b`. */
  function ClearBits(a: nat, b: nat): nat
    decreases a
  {
    if a == 0 then 0
    else 2 * ClearBits(a / 2, b / 2) + if a % 2 == 1 && b % 2 == 0 then 1 else 0
  }

  lemma {:induction false} ResultsFit(a: nat, b: nat, k: nat)
    requires a < Pow2(k) && b < Pow2(k)
    ensures OrBits(a, b) < Pow2(k)
    ensures AndBits(a, b) <= a && ClearBits(a, b) <= a
  {
    if a != 0 {
      ResultsFit(a / 2, b / 2, k - 1);
    }
  }

  lemma Pow32()
    ensures Pow2(28) == 0x1000_0000 && Pow2(30) == 0x4000_0000 && Pow2(32) == 0x1_0000_0000
  {
    assert Pow2(8) == 0x100;
    assert Pow2(16) == 0x1_0000;
    assert Pow2(24) == 0x100_0000;
    assert Pow2(28) == 0x1000_0000;
  }

  lemma Pow22()
    ensures Pow2(0) == 1 && Pow2(1) == 2 && Pow2(4) == 0x10 && Pow2(15) == 0x8000 && Pow2(16) == 0x1_0000
    ensures Pow2(22) == 0x40_0000
  {
    assert Pow2(8) == 0x100;
    assert Pow2(12) == 0x1000;
    assert Pow2(15) == 0x8000;
    assert Pow2(16) == 0x1_0000;
    assert Pow2(20) == 0x10_0000;
  }

  function Or(a: Word, b: Word): Word {
    Pow32();
    ResultsFit(a, b, 32);
    OrBits(a, b)
  }

  function And(a: Word, b: Word): Word {
    Pow32();
    ResultsFit(a, b, 32);
    AndBits(a, b)
  }

  function Clear(a: Word, b: Word): Word {
    Pow32();
    ResultsFit(a, b, 32);
    ClearBits(a, b)
  }

  predicate BitOf(w: nat, k: nat)
    decreases k
  {
    if k == 0 then w % 2 == 1 else BitOf(w / 2, k - 1)
  }

  /** The operations act bit by bit. */
  lemma {:induction false} OrBitByBit(a: nat, b: nat, k: nat)
    ensures BitOf(OrBits(a, b), k) == (BitOf(a, k) || BitOf(b, k))
    decreases k
  {
    if a == 0 || b == 0 {
      NoBitsInZero(k);
    } else {
      var bit := if a % 2 == 1 || b % 2 == 1 then 1 else 0;
      assert OrBits(a, b) == 2 * OrBits(a / 2, b / 2) + bit;
      if k > 0 {
        OrBitByBit(a / 2, b / 2, k - 1);
      }
    }
  }

  lemma {:induction false} ClearBitByBit(a: nat, b: nat, k: nat)
    ensures BitOf(ClearBits(a, b), k) == (BitOf(a, k) && !BitOf(b, k))
    decreases k
  {
    NoBitsInZero(k);
    if k > 0 {
      ClearBitByBit(a / 2, b / 2, k - 1);
    }
  }

  lemma {:induction false} NoBitsInZero(k: nat)
    ensures !BitOf(0, k)
  {
    if k > 0 {
      NoBitsInZero(k - 1);
    }
  }

  /** A power of two has one bit. */
  lemma {:induction false} OneBit(k: nat, j: nat)
    ensures BitOf(Pow2(k), j) <==> j == k
    decreases k
  {
    if k == 0 {
      if j > 0 {
        NoBitsInZero(j - 1);
      }
    } else if j > 0 {
      OneBit(k - 1, j - 1);
    }
  }

  /** A word without low bits adds none: the high parts are combined and the low part stays. */
  lemma {:induction false} OrHighField(high: nat, other: nat, low: nat, k: nat)
    requires low < Pow2(k)
    ensures OrBits(Pow2(k) * high, Pow2(k) * other + low) == Pow2(k) * OrBits(high, other) + low
    decreases k
  {
    if k > 0 {
      var p := Pow2(k - 1);
      Regroup(p, high);
      Regroup(p, other);
      Regroup(p, OrBits(high, other));
      OrHalves(Pow2(k) * high, Pow2(k) * other + low, p * high, p * other, low);
      OrHighField(high, other, low / 2, k - 1);
    }
  }

  lemma OrHalves(x: nat, y: nat, h: nat, m: nat, low: nat)
    requires x == 2 * h && y == 2 * m + low
    ensures OrBits(x, y) == 2 * OrBits(h, m + low / 2) + low % 2
  {
    assert y / 2 == m + low / 2;
    assert OrBits(0, m + low / 2) == m + low / 2 && OrBits(h, 0) == h;
  }

  /** A mask of high bits keeps the high part. */
  lemma {:induction false} MaskHighField(high: nat, low: nat, mask: nat, k: nat)
    requires low < Pow2(k)
    ensures AndBits(Pow2(k) * high + low, Pow2(k) * mask) == Pow2(k) * AndBits(high, mask)
    decreases k
  {
    if k > 0 {
      var p := Pow2(k - 1);
      Regroup(p, high);
      Regroup(p, mask);
      Regroup(p, AndBits(high, mask));
      AndHalves(Pow2(k) * high + low, Pow2(k) * mask, p * high, low, p * mask);
      MaskHighField(high, low / 2, mask, k - 1);
    }
  }

  lemma {:induction false} ClearNothing(v: nat)
    ensures ClearBits(v, 0) == v
  {
    if v > 0 {
      ClearNothing(v / 2);
    }
  }

  /** One bit of a mask `2 * q - 1` of low bits. */
  lemma LowMaskHalves(v: nat, f: nat, m: nat, low: nat, q: nat)
    requires q > 0 && v == 2 * m + low
    ensures ClearBits(v, 2 * q - 1) == 2 * ClearBits(m + low / 2, q - 1)
    ensures AndBits(f, 2 * q - 1) == 2 * AndBits(f / 2, q - 1) + f % 2
  {
    assert v / 2 == m + low / 2 && (2 * q - 1) / 2 == q - 1 && (2 * q - 1) % 2 == 1;
  }

  /** A mask of the low bits keeps a value that has no others, and clearing them leaves the high part. */
  lemma {:induction false} LowMask(v: nat, high: nat, low: nat, f: nat, k: nat)
    requires f < Pow2(k) && low < Pow2(k) && v == Pow2(k) * high + low
    ensures AndBits(f, Pow2(k) - 1) == f
    ensures ClearBits(v, Pow2(k) - 1) == Pow2(k) * high
    decreases k
  {
    if k == 0 {
      ClearNothing(v);
    } else {
      var q := Pow2(k - 1);
      Regroup(q, high);
      LowMaskHalves(v, f, q * high, low, q);
      LowMask(q * high + low / 2, high, low / 2, f / 2, k - 1);
    }
  }

  /** Writing a field of low bits replaces those bits and keeps the rest. */
  lemma LowFieldReplaced(v: nat, high: nat, low: nat, f: nat, k: nat)
    requires f < Pow2(k) && low < Pow2(k) && v == Pow2(k) * high + low
    ensures OrBits(ClearBits(v, Pow2(k) - 1), AndBits(f, Pow2(k) - 1)) == Pow2(k) * high + f
  {
    LowMask(v, high, low, f, k);
    OrHighField(high, 0, f, k);
    assert OrBits(high, 0) == high && Pow2(k) * 0 + f == f;
  }

  lemma Regroup(p: nat, x: nat)
    ensures (2 * p) * x == 2 * (p * x)
  {
  }

  lemma AndHalves(x: nat, y: nat, h: nat, low: nat, m: nat)
    requires x == 2 * h + low && y == 2 * m
    ensures AndBits(x, y) == 2 * AndBits(h + low / 2, m)
  {
    assert x / 2 == h + low / 2;
    assert AndBits(0, m) == 0;
  }
}
