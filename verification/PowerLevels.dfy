/** The eleven rungs of the transmit gain ladder, and the two ways a caller names one. */
module PowerLevels {
  import opened Prelude

  const LEVELS: nat := 11

  /** Measured output of each level in tenths of a dBm. */
  const MEASURED_DECI_DBM: seq<int> := [56, 60, 60, 64, 64, 75, 88, 114, 122, 129, 200]

  /** The whole number of dBm a level is reported as: its measured output rounded, halves up. */
  function ReportedDbm(level: nat): int
    requires level < LEVELS
  {
    (MEASURED_DECI_DBM[level] + 5) / 10
  }

  function LevelForIdx(idx: nat): (level: nat)
    ensures level < LEVELS
  {
    Min(idx, 63) * (LEVELS - 1) / 63
  }

  /** An index of 63 steps stands for its share of the ladder's ten, rounded down, and at most for the top. */
  lemma LevelIsShareOfIndex(idx: nat)
    ensures 63 * LevelForIdx(idx) <= 10 * (if idx < 63 then idx else 63) < 63 * (LevelForIdx(idx) + 1)
  {
  }

  /** The index stored for a level asked for in dBm. */
  function IdxForLevel(level: nat): (idx: nat)
    requires level < LEVELS
    ensures idx <= 63
  {
    level * 63 / (LEVELS - 1)
  }

  /** The stored index is the level's share of 63 steps, rounded down. */
  lemma IndexIsShareOfLevel(level: nat)
    requires level < LEVELS
    ensures 10 * IdxForLevel(level) <= 63 * level < 10 * (IdxForLevel(level) + 1)
  {
  }

  /** A level is reported as the nearest whole dBm, the upper one of two. */
  lemma ReportIsNearest(level: nat)
    requires level < LEVELS
    ensures 10 * ReportedDbm(level) - 5 <= MEASURED_DECI_DBM[level] < 10 * ReportedDbm(level) + 5
  {
  }

  /** What is left of a level that was stored as an index. */
  function Remembered(level: nat): nat
    requires level < LEVELS
  {
    LevelForIdx(IdxForLevel(level))
  }

  /** Storing a level as an index and mapping it back loses one step, except at the two ends. */
  lemma StoringLosesAStep(level: nat)
    requires level < LEVELS
    ensures Remembered(level) == if level == 0 || level == 10 then level else level - 1
  {
  }

  function DbmError(d: int, level: nat): int
    requires level < LEVELS
  {
    var off := MEASURED_DECI_DBM[level] - 10 * d;
    if off < 0 then -off else off
  }

  /** The first of the lowest `n` levels whose measured output is nearest. */
  function NearestBelow(d: int, n: nat): (level: nat)
    requires 1 <= n <= LEVELS
    ensures level < n
    ensures forall l :: 0 <= l < n ==> DbmError(d, level) <= DbmError(d, l)
    ensures forall l :: 0 <= l < level ==> DbmError(d, level) < DbmError(d, l)
  {
    if n == 1 then 0
    else
      var best := NearestBelow(d, n - 1);
      if DbmError(d, n - 1) < DbmError(d, best) then n - 1 else best
  }

  /** The first of all the levels whose measured output is nearest. */
  function NearestLevel(d: int): (level: nat)
    ensures level < LEVELS
    ensures forall l :: 0 <= l < LEVELS ==> DbmError(d, level) <= DbmError(d, l)
    ensures forall l :: 0 <= l < level ==> DbmError(d, level) < DbmError(d, l)
  {
    NearestBelow(d, LEVELS)
  }

  lemma OnlyLevelFiveIsHalfway(level: nat)
    requires level < LEVELS && MEASURED_DECI_DBM[level] % 10 == 5
    ensures level == 5
  {
  }

  /** A value the radio reports is granted as that value when it is asked for again. */
  lemma ReportedValueIsGranted(d: int)
    ensures ReportedDbm(NearestLevel(ReportedDbm(NearestLevel(d)))) == ReportedDbm(NearestLevel(d))
  {
    var level := NearestLevel(d);
    var r := ReportedDbm(level);
    var again := NearestLevel(r);
    assert DbmError(r, again) <= DbmError(r, level) <= 5;
    if MEASURED_DECI_DBM[again] == 10 * r + 5 {
      OnlyLevelFiveIsHalfway(again);
      OnlyLevelFiveIsHalfway(level);
    }
  }
}
