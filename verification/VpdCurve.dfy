/**
 * The power-detector curve of one gain: a handful of measured points (power in half-dB units,
 * detector reading) interpolated onto a grid of two half-dB units.
 */
module VpdCurve {
  import opened Prelude
  import DivMod

  /** Integer division as the source does it: toward zero. */
  function TruncDiv(a: int, b: int): int
    requires b != 0
  {
    if a >= 0 && b > 0 then a / b
    else if a < 0 && b > 0 then -((-a) / b)
    else if a >= 0 then -(a / (-b))
    else (-a) / (-b)
  }

  /** The cast of a wide integer to a byte keeps its low eight bits. */
  function ToByte(x: int): Byte {
    x % 256
  }

  /** First measured point that decides where `target` lies, scanning from `i`. */
  function Scan(pwr: seq<Byte>, target: Byte, i: nat): (nat, nat)
    decreases |pwr| - i
  {
    if i + 1 >= |pwr| then (0, 0)
    else if pwr[i] == target then (i, i)
    else if target < pwr[i + 1] then (i, i + 1)
    else Scan(pwr, target, i + 1)
  }

  function LowerUpper(pwr: seq<Byte>, target: Byte): (nat, nat)
    requires |pwr| >= 2
  {
    if target <= pwr[0] then (0, 0)
    else if target >= pwr[|pwr| - 1] then (|pwr| - 1, |pwr| - 1)
    else Scan(pwr, target, 0)
  }

  lemma {:induction false} ScanInRange(pwr: seq<Byte>, target: Byte, i: nat)
    requires |pwr| >= 2
    ensures Scan(pwr, target, i).0 < |pwr| - 1 && Scan(pwr, target, i).1 < |pwr|
    decreases |pwr| - i
  {
    if i + 1 < |pwr| {
      ScanInRange(pwr, target, i + 1);
    }
  }

  /** The two points interpolated between, after the ends are widened to a full interval. */
  function Bracket(pwr: seq<Byte>, target: Byte): (b: (nat, nat))
    requires |pwr| >= 2
    ensures b.0 < |pwr| && b.1 < |pwr|
  {
    ScanInRange(pwr, target, 0);
    var lu := LowerUpper(pwr, target);
    (if lu.0 == |pwr| - 1 then |pwr| - 2 else lu.0, if lu.1 < 1 then 1 else lu.1)
  }

  /** The reading at power `c` weighted by its distance from the two points, before division. */
  function Weighted(c: int, pl: int, pr: int, vl: int, vr: int): int {
    (c - pl) * vr + (pr - c) * vl
  }

  /** The reading between two points, as the byte the source stores. */
  function Between(c: int, pl: int, pr: int, vl: int, vr: int): Byte
    requires pl != pr
  {
    ToByte(TruncDiv(Weighted(c, pl, pr, vl, vr), pr - pl))
  }

  function Interpolate(pwr: seq<Byte>, vpd: seq<Byte>, curr: Byte): Byte
    requires |pwr| == |vpd| >= 2
  {
    var (l, r) := Bracket(pwr, curr);
    if pwr[l] == pwr[r] then vpd[l]
    else Between(curr, pwr[l], pwr[r], vpd[l], vpd[r])
  }

  /** Grid points beyond the first; a falling span counts as none. */
  function GridSteps(pwrMin: Byte, pwrMax: Byte): nat {
    if pwrMax < pwrMin then 0 else (pwrMax - pwrMin) / 2
  }

  lemma GridStep(p: nat)
    ensures (p % 256 + 2) % 256 == (p + 2) % 256
  {
  }

  /** The source's nested search and interpolation, filling a 64-entry table in place. */
  method FillVpdTable(pwrMin: Byte, pwrMax: Byte, pwr: seq<Byte>, vpd: seq<Byte>, ret: array<Byte>)
    requires |pwr| == |vpd| >= 2 && ret.Length == 64
    modifies ret
    ensures forall i | 0 <= i < 64 ::
              ret[i] == if i <= GridSteps(pwrMin, pwrMax)
                        then Interpolate(pwr, vpd, (pwrMin + 2 * i) % 256)
                        else old(ret[i])
  {
    var count := GridSteps(pwrMin, pwrMax);
    var curr: Byte := pwrMin;
    var i := 0;
    while i <= Min(count, 63)
      invariant 0 <= i <= Min(count, 63) + 1
      invariant curr == (pwrMin + 2 * i) % 256
      invariant forall j | 0 <= j < 64 ::
                  ret[j] == if j < i then Interpolate(pwr, vpd, (pwrMin + 2 * j) % 256) else old(ret[j])
    {
      ret[i] := Interpolate(pwr, vpd, curr);
      GridStep(pwrMin + 2 * i);
      curr := (curr + 2) % 256;
      i := i + 1;
    }
  }

  // ---- curves that rise ------------------------------------------------------------------------------

  predicate Rising(s: seq<Byte>) {
    forall i, j | 0 <= i <= j < |s| :: s[i] <= s[j]
  }

  predicate Covers(pwr: seq<Byte>, c: Byte) {
    |pwr| >= 2 && pwr[0] <= c <= pwr[|pwr| - 1]
  }

  lemma {:induction false} ScanFinds(pwr: seq<Byte>, c: Byte, i: nat)
    requires Rising(pwr) && i + 1 < |pwr| && pwr[i] <= c < pwr[|pwr| - 1]
    ensures var (l, r) := Scan(pwr, c, i);
            && i <= l <= r < |pwr| && pwr[l] <= c <= pwr[r]
            && ((r == l && pwr[l] == c) || (r == l + 1 && pwr[l] < c < pwr[r]))
    decreases |pwr| - i
  {
    if pwr[i] != c && c >= pwr[i + 1] {
      ScanFinds(pwr, c, i + 1);
    }
  }

  /** Inside the measured range the bracket holds the power: a point, or neighbours around it. */
  lemma BracketHolds(pwr: seq<Byte>, c: Byte)
    requires Rising(pwr) && Covers(pwr, c)
    ensures var (l, r) := Bracket(pwr, c);
            l <= r <= l + 1 && pwr[l] <= c <= pwr[r]
  {
    if pwr[0] < c < pwr[|pwr| - 1] {
      ScanFinds(pwr, c, 0);
    }
  }

  /** A lower power's bracket is the same as, or ends before, a higher power's. */
  lemma BracketsAdvance(pwr: seq<Byte>, c: Byte, d: Byte)
    requires Rising(pwr) && Covers(pwr, c) && Covers(pwr, d) && c < d
    ensures Bracket(pwr, c) == Bracket(pwr, d) || Bracket(pwr, c).1 <= Bracket(pwr, d).0
  {
    BracketHolds(pwr, c);
    BracketHolds(pwr, d);
    if pwr[0] < c {
      ScanFinds(pwr, c, 0);
    }
    if d < pwr[|pwr| - 1] {
      ScanFinds(pwr, d, 0);
    }
  }

  /** Multiplying out the interpolation keeps it between its two readings. */
  lemma WeightedBounds(c: int, pl: int, pr: int, vl: int, vr: int)
    requires pl < pr && pl <= c <= pr && vl <= vr
    ensures vl * (pr - pl) <= Weighted(c, pl, pr, vl, vr) <= vr * (pr - pl)
  {
    assert Weighted(c, pl, pr, vl, vr) == vl * (pr - pl) + (c - pl) * (vr - vl);
    assert Weighted(c, pl, pr, vl, vr) == vr * (pr - pl) - (pr - c) * (vr - vl);
    assert (c - pl) * (vr - vl) >= 0 && (pr - c) * (vr - vl) >= 0;
  }

  lemma WeightedMonotone(c: int, d: int, pl: int, pr: int, vl: int, vr: int)
    requires c <= d && vl <= vr
    ensures Weighted(c, pl, pr, vl, vr) <= Weighted(d, pl, pr, vl, vr)
  {
    assert Weighted(d, pl, pr, vl, vr) == Weighted(c, pl, pr, vl, vr) + (d - c) * (vr - vl);
    assert (d - c) * (vr - vl) >= 0;
  }

  lemma QuotientFloor(x: nat, b: nat)
    requires b > 0
    ensures (x / b) * b <= x < (x / b + 1) * b
  {
    var q := x / b;
    assert x == b * q + x % b;
    assert (q + 1) * b == b * q + b;
  }

  lemma QuotientBounds(x: nat, b: nat, lo: nat, hi: nat)
    requires b > 0 && lo * b <= x <= hi * b
    ensures lo <= x / b <= hi
  {
    var q := x / b;
    QuotientFloor(x, b);
    assert (hi + 1) * b == hi * b + b;
    if q < lo {
      DivMod.Monotone(b, q + 1, lo);
    }
    if hi < q {
      DivMod.Monotone(b, hi + 1, q);
    }
  }

  lemma QuotientMonotone(x: nat, y: nat, b: nat)
    requires b > 0 && x <= y
    ensures x / b <= y / b
  {
    QuotientFloor(x, b);
    QuotientFloor(y, b);
    var p, q := x / b, y / b;
    if q < p {
      DivMod.Monotone(b, q + 1, p);
    }
  }

  lemma BetweenBounds(c: int, pl: int, pr: int, vl: Byte, vr: Byte)
    requires pl < pr && pl <= c <= pr && vl <= vr
    ensures var y := Between(c, pl, pr, vl, vr);
            && vl <= y <= vr
            && y == Weighted(c, pl, pr, vl, vr) / (pr - pl)
            && y * (pr - pl) <= Weighted(c, pl, pr, vl, vr) < (y + 1) * (pr - pl)
  {
    WeightedBounds(c, pl, pr, vl, vr);
    var w := Weighted(c, pl, pr, vl, vr);
    DivMod.Monotone(pr - pl, 0, vl);
    assert 0 <= w;
    QuotientBounds(w, pr - pl, vl, vr);
    QuotientFloor(w, pr - pl);
  }

  lemma BetweenRises(c: int, d: int, pl: int, pr: int, vl: Byte, vr: Byte)
    requires pl < pr && pl <= c <= d <= pr && vl <= vr
    ensures Between(c, pl, pr, vl, vr) <= Between(d, pl, pr, vl, vr)
  {
    BetweenBounds(c, pl, pr, vl, vr);
    BetweenBounds(d, pl, pr, vl, vr);
    WeightedMonotone(c, d, pl, pr, vl, vr);
    WeightedBounds(c, pl, pr, vl, vr);
    DivMod.Monotone(pr - pl, 0, vl);
    QuotientMonotone(Weighted(c, pl, pr, vl, vr), Weighted(d, pl, pr, vl, vr), pr - pl);
  }

  /**
   * Inside the measured range an interpolated reading lies between the readings of its two
   * bracketing points, and is their exact weighted mean rounded down.
   */
  lemma {:induction false} InterpolationIsBracketed(pwr: seq<Byte>, vpd: seq<Byte>, c: Byte)
    requires |pwr| == |vpd| && Rising(pwr) && Rising(vpd) && Covers(pwr, c)
    ensures var (l, r) := Bracket(pwr, c);
            var y := Interpolate(pwr, vpd, c);
            && pwr[l] <= c <= pwr[r] && vpd[l] <= y <= vpd[r]
            && (pwr[l] < pwr[r] ==>
                  var weighted := Weighted(c, pwr[l], pwr[r], vpd[l], vpd[r]);
                  y * (pwr[r] - pwr[l]) <= weighted < (y + 1) * (pwr[r] - pwr[l]))
  {
    BracketHolds(pwr, c);
    var (l, r) := Bracket(pwr, c);
    if pwr[l] < pwr[r] {
      BetweenBounds(c, pwr[l], pwr[r], vpd[l], vpd[r]);
    }
  }

  /** In plain numbers: two measured points around the power, and the line between them rounded down. */
  lemma InterpolationIsOnTheLine(pwr: seq<Byte>, vpd: seq<Byte>, c: Byte) returns (l: nat, r: nat)
    requires |pwr| == |vpd| && Rising(pwr) && Rising(vpd) && Covers(pwr, c)
    ensures l <= r <= l + 1 && r < |pwr| && pwr[l] <= c <= pwr[r]
    ensures var y := Interpolate(pwr, vpd, c) as int;
            if pwr[l] == pwr[r] then y == vpd[l]
            else
              var run, line := pwr[r] - pwr[l], (c - pwr[l]) * vpd[r] + (pwr[r] - c) * vpd[l];
              y * run <= line < (y + 1) * run
  {
    InterpolationIsBracketed(pwr, vpd, c);
    BracketHolds(pwr, c);
    l, r := Bracket(pwr, c).0, Bracket(pwr, c).1;
  }

  lemma OnlyQuotient(y: int, v: int, run: nat)
    requires run > 0 && y * run <= v * run < (y + 1) * run
    ensures y == v
  {
    assert (v + 1) * run == v * run + run;
    if v < y {
      DivMod.Monotone(run, v + 1, y);
    } else if y < v {
      DivMod.Monotone(run, y + 1, v);
    }
  }

  /** At either end the line is at the end's reading. */
  lemma EndOfLine(y: int, c: int, pl: int, pr: int, vl: int, vr: int)
    requires pl < pr && y * (pr - pl) <= (c - pl) * vr + (pr - c) * vl < (y + 1) * (pr - pl)
    ensures c == pl ==> y == vl
    ensures c == pr ==> y == vr
  {
    if c == pl {
      OnlyQuotient(y, vl, pr - pl);
    }
    if c == pr {
      OnlyQuotient(y, vr, pr - pl);
    }
  }

  /** At a measured power the curve reads what was measured. */
  lemma MeasuredPointIsItself(pwr: seq<Byte>, vpd: seq<Byte>, i: nat)
    requires |pwr| == |vpd| >= 2 && i < |pwr| && Rising(vpd)
    requires forall j, k | 0 <= j < k < |pwr| :: pwr[j] < pwr[k]
    ensures Interpolate(pwr, vpd, pwr[i]) == vpd[i]
  {
    var l, r := InterpolationIsOnTheLine(pwr, vpd, pwr[i]);
    assert l <= i <= r;
    if l < r {
      EndOfLine(Interpolate(pwr, vpd, pwr[i]), pwr[i], pwr[l], pwr[r], vpd[l], vpd[r]);
    }
  }

  /** The interpolated curve never falls. */
  lemma {:induction false} InterpolationRises(pwr: seq<Byte>, vpd: seq<Byte>, c: Byte, d: Byte)
    requires |pwr| == |vpd| && Rising(pwr) && Rising(vpd) && Covers(pwr, c) && Covers(pwr, d) && c <= d
    ensures Interpolate(pwr, vpd, c) <= Interpolate(pwr, vpd, d)
  {
    if c < d {
      BracketHolds(pwr, c);
      BracketHolds(pwr, d);
      BracketsAdvance(pwr, c, d);
      var (l, r) := Bracket(pwr, c);
      if Bracket(pwr, d) != (l, r) {
        InterpolationIsBracketed(pwr, vpd, c);
        InterpolationIsBracketed(pwr, vpd, d);
      } else if pwr[l] < pwr[r] {
        BetweenRises(c, d, pwr[l], pwr[r], vpd[l], vpd[r]);
      }
    }
  }
}
