/** Streaming the initialisation tables, and the check of the write log against the hardware. */
module Initvals {
  import opened Bits
  import opened Prelude
  import opened Registers
  import opened Store

  const AR_PHY_BASE: Addr := 0x9800
  const AR_PHY_ANALOG_SHIFT_ENABLE: Word := 0x7
  const AR_PHY_TURBO: Addr := 0x9804
  const AR_PHY_FC_DYN2040_EN: Word := 0x4
  const AR_PCU_MISC_MODE2: Addr := 0x8344
  const AR_PCU_MISC_MODE2_TRACE_VAL: Word := 0x0058_1083

  const SENTINELS: seq<Addr> := [0x9840, 0x9848, 0x9910, 0x99c0, 0x7804, 0x7808, 0xa208, 0xa30c]

  /** A MODES row carries one value per band and width. */
  datatype ModeRow = ModeRow(addr: Addr, a20: Word, a40: Word, g40: Word, g20: Word)

  datatype Tables = Tables(modes: seq<ModeRow>, common: seq<Pair>, ani: seq<ModeRow>,
                           normalGain: seq<ModeRow>, highGain: seq<ModeRow>)

  datatype IniVerify = IniVerify(totalWritten: nat, matched: nat, checked: nat,
                                 mismatches: seq<(Addr, Word, Word)>)

  /** The 2.4 GHz column of a MODES row for the width in use. */
  function Cell(row: ModeRow, ht40: bool): Pair {
    (row.addr, if ht40 then row.g40 else row.g20)
  }

  function Column(table: seq<ModeRow>, ht40: bool): seq<Pair> {
    seq(|table|, i requires 0 <= i < |table| => Cell(table[i], ht40))
  }

  /** Every table write for a width and a power class, in streaming order. */
  function TableWrites(t: Tables, ht40: bool, highPower: bool): seq<Pair> {
    Column(t.modes, ht40) + t.common + Column(t.ani, ht40)
    + Column(if highPower then t.highGain else t.normalGain, ht40)
    + [(AR_PCU_MISC_MODE2, AR_PCU_MISC_MODE2_TRACE_VAL)]
  }

  function WithWidth(turbo: Word, ht40: bool): Word {
    if ht40 then Or(turbo, AR_PHY_FC_DYN2040_EN) else Clear(turbo, AR_PHY_FC_DYN2040_EN)
  }

  /** The dynamic 20/40 enable is bit 2. */
  predicate DynBit(turbo: Word) {
    BitOf(turbo, 2)
  }

  lemma WidthBit(turbo: Word, ht40: bool)
    ensures DynBit(WithWidth(turbo, ht40)) == ht40
  {
    OrBitByBit(turbo, 4, 2);
    ClearBitByBit(turbo, 4, 2);
    assert BitOf(4, 2);
  }

  /** No other bit of the register changes with it. */
  lemma OtherBitsStay(turbo: Word, ht40: bool, k: nat)
    requires k != 2
    ensures BitOf(WithWidth(turbo, ht40), k) == BitOf(turbo, k)
  {
    OrBitByBit(turbo, 4, k);
    ClearBitByBit(turbo, 4, k);
    if k > 2 {
      NoBitsInZero(k - 3);
      assert BitOf(4, k) == BitOf(2, k - 1) == BitOf(1, k - 2) == BitOf(0, k - 3);
    }
  }

  // ---- checking the log against the hardware ----------------------------------------------------------------

  /** A sentinel the log wrote, whose register does not hold the last value logged for it. */
  predicate Mismatch(regs: RegFile, log: seq<Pair>, m: (Addr, Word, Word)) {
    LastWriter(log, m.0) == Some(m.1) && m.2 == Load(regs, m.0) && m.1 != m.2
  }

  function LoggedCount(log: seq<Pair>, addrs: seq<Addr>): nat {
    if addrs == [] then 0
    else LoggedCount(log, addrs[..|addrs| - 1]) + if LastWriter(log, addrs[|addrs| - 1]).Some? then 1 else 0
  }

  /** Reads every logged sentinel back: the report lists exactly the ones that lost their last write. */
  method Verify(target: Target, written: seq<Pair>) returns (r: IniVerify)
    ensures r.totalWritten == |written| && r.checked == LoggedCount(written, SENTINELS)
    ensures r.matched + |r.mismatches| == r.checked
    ensures forall m :: m in r.mismatches <==> m.0 in SENTINELS && Mismatch(target.regs, written, m)
  {
    var mismatches: seq<(Addr, Word, Word)> := [];
    var matched, checked := 0, 0;
    for i := 0 to |SENTINELS|
      invariant checked == LoggedCount(written, SENTINELS[..i])
      invariant matched + |mismatches| == checked
      invariant forall m: (Addr, Word, Word) ::
                  m in mismatches <==> m.0 in SENTINELS[..i] && Mismatch(target.regs, written, m)
    {
      var addr := SENTINELS[i];
      assert SENTINELS[..i + 1] == SENTINELS[..i] + [addr];
      var expected := LastWriter(written, addr);
      if expected.Some? {
        checked := checked + 1;
        var got := target.RegRead(addr);
        if got == expected.value {
          matched := matched + 1;
        } else {
          mismatches := mismatches + [(addr, expected.value, got)];
        }
      }
    }
    assert SENTINELS[..|SENTINELS|] == SENTINELS;
    r := IniVerify(|written|, matched, checked, mismatches);
  }

  /** Streams one table and extends the log with it. */
  method Stream(target: Target, pairs: seq<Pair>, written: seq<Pair>, ghost start: RegFile) returns (log: seq<Pair>)
    requires target.regs == WriteAll(start, written)
    modifies target
    ensures log == written + pairs && target.regs == WriteAll(start, log)
  {
    target.RegWriteBatch(pairs);
    WriteAllConcat(start, written, pairs);
    log := written + pairs;
  }

  method StreamOne(target: Target, p: Pair, written: seq<Pair>, ghost start: RegFile) returns (log: seq<Pair>)
    requires target.regs == WriteAll(start, written)
    modifies target
    ensures log == written + [p] && target.regs == WriteAll(start, log)
  {
    target.RegWrite(p.0, p.1);
    WriteAllConcat(start, written, [p]);
    assert WriteAll(target.regs, []) == target.regs;
    log := written + [p];
  }

  /** The register file before the first logged write: the analog-shift route is open. */
  function Routed(regs: RegFile): RegFile {
    regs[AR_PHY_BASE := AR_PHY_ANALOG_SHIFT_ENABLE]
  }

  /** The register file after the tables and before the width bit is set. */
  function Tabled(regs: RegFile, t: Tables, ht40: bool, highPower: bool): RegFile {
    WriteAll(Routed(regs), TableWrites(t, ht40, highPower))
  }

  /** The whole write log of one initialisation. */
  function Log(regs: RegFile, t: Tables, ht40: bool, highPower: bool): seq<Pair> {
    TableWrites(t, ht40, highPower)
    + [(AR_PHY_TURBO, WithWidth(Load(Tabled(regs, t, ht40, highPower), AR_PHY_TURBO), ht40))]
  }

  /** The log accounts for the register file: every logged address holds its last logged value and every other
      address but the route is as it was; the width bit follows the flag, whatever the tables say. */
  lemma LogIsContents(regs: RegFile, t: Tables, ht40: bool, highPower: bool, a: Addr)
    ensures var log := Log(regs, t, ht40, highPower);
            var after := WriteAll(Routed(regs), log);
            && Load(after, a) == (match LastWriter(log, a) {
                                    case Some(w) => w
                                    case None => if a == AR_PHY_BASE then AR_PHY_ANALOG_SHIFT_ENABLE else Load(regs, a)
                                  })
            && DynBit(Load(after, AR_PHY_TURBO)) == ht40
  {
    var log := Log(regs, t, ht40, highPower);
    LastWriterIsContents(Routed(regs), log, a);
    LastWriterIsContents(Routed(regs), log, AR_PHY_TURBO);
    WidthBit(Load(Tabled(regs, t, ht40, highPower), AR_PHY_TURBO), ht40);
  }

  /** A table has a row for an address at or past a place. */
  predicate Names(table: seq<ModeRow>, from: nat, a: Addr) {
    exists j :: from <= j < |table| && table[j].addr == a
  }

  predicate NamesPair(table: seq<Pair>, from: nat, a: Addr) {
    exists j :: from <= j < |table| && table[j].0 == a
  }

  lemma {:induction false} LastOfPairs(table: seq<Pair>, a: Addr)
    ensures !NamesPair(table, 0, a) ==> LastWriter(table, a) == None
    ensures forall i :: 0 <= i < |table| && table[i].0 == a && !NamesPair(table, i + 1, a)
                        ==> LastWriter(table, a) == Some(table[i].1)
    decreases |table|
  {
    if table != [] {
      var n := |table| - 1;
      LastOfPairs(table[..n], a);
      if table[n].0 != a {
        assert forall i :: 0 <= i <= n && NamesPair(table[..n], i, a) ==> NamesPair(table, i, a);
        assert forall i :: 0 <= i < n && table[i].0 == a ==> table[..n][i].0 == a;
      }
    }
  }

  lemma LastOfColumn(table: seq<ModeRow>, ht40: bool, a: Addr)
    ensures !Names(table, 0, a) ==> LastWriter(Column(table, ht40), a) == None
    ensures forall i :: 0 <= i < |table| && table[i].addr == a && !Names(table, i + 1, a)
                        ==> LastWriter(Column(table, ht40), a) == Some(Cell(table[i], ht40).1)
  {
    var pairs := Column(table, ht40);
    LastOfPairs(pairs, a);
    assert forall i :: 0 <= i < |table| ==> pairs[i].0 == table[i].addr && pairs[i] == Cell(table[i], ht40);
    assert forall i: nat :: NamesPair(pairs, i, a) ==> Names(table, i, a);
  }

  /** A later part of the log hides an earlier one. */
  lemma LastOfLog(modes: seq<Pair>, common: seq<Pair>, ani: seq<Pair>, gain: seq<Pair>, p: Pair, q: Pair, a: Addr)
    requires a != p.0 && a != q.0
    ensures LastWriter(modes + common + ani + gain + [p] + [q], a)
            == if LastWriter(gain, a).Some? then LastWriter(gain, a)
               else if LastWriter(ani, a).Some? then LastWriter(ani, a)
               else if LastWriter(common, a).Some? then LastWriter(common, a)
               else LastWriter(modes, a)
  {
    LastWriterConcat(modes + common + ani + gain + [p], [q], a);
    LastWriterConcat(modes + common + ani + gain, [p], a);
    LastWriterConcat(modes + common + ani, gain, a);
    LastWriterConcat(modes + common, ani, a);
    LastWriterConcat(modes, common, a);
  }

  /**
   * What a register holds after an initialisation, row by row: the last gain row that names it, of the table chosen,
   * else the last ANI row, else the last common row, else the last MODES row.  A row that carries a value per width
   * gives the 2.4 GHz one of the width in use.
   */
  lemma LatestRowIsContents(regs: RegFile, t: Tables, ht40: bool, highPower: bool, a: Addr, i: nat)
    requires a != AR_PHY_TURBO && a != AR_PCU_MISC_MODE2
    ensures var held := Load(WriteAll(Routed(regs), Log(regs, t, ht40, highPower)), a);
            var gain := if highPower then t.highGain else t.normalGain;
            && (i < |gain| && gain[i].addr == a && !Names(gain, i + 1, a)
                ==> held == if ht40 then gain[i].g40 else gain[i].g20)
            && (i < |t.ani| && t.ani[i].addr == a && !Names(t.ani, i + 1, a) && !Names(gain, 0, a)
                ==> held == if ht40 then t.ani[i].g40 else t.ani[i].g20)
            && (i < |t.common| && t.common[i].0 == a && !NamesPair(t.common, i + 1, a)
                && !Names(t.ani, 0, a) && !Names(gain, 0, a)
                ==> held == t.common[i].1)
            && (i < |t.modes| && t.modes[i].addr == a && !Names(t.modes, i + 1, a) && !NamesPair(t.common, 0, a)
                && !Names(t.ani, 0, a) && !Names(gain, 0, a)
                ==> held == if ht40 then t.modes[i].g40 else t.modes[i].g20)
            && (!Names(t.modes, 0, a) && !NamesPair(t.common, 0, a) && !Names(t.ani, 0, a) && !Names(gain, 0, a)
                ==> held == if a == AR_PHY_BASE then 0x7 else Load(regs, a))
  {
    var gain := if highPower then t.highGain else t.normalGain;
    LogIsContents(regs, t, ht40, highPower, a);
    LastOfColumn(gain, ht40, a);
    LastOfColumn(t.ani, ht40, a);
    LastOfPairs(t.common, a);
    LastOfColumn(t.modes, ht40, a);
    LastOfLog(Column(t.modes, ht40), t.common, Column(t.ani, ht40), Column(gain, ht40),
              (AR_PCU_MISC_MODE2, AR_PCU_MISC_MODE2_TRACE_VAL),
              (AR_PHY_TURBO, WithWidth(Load(Tabled(regs, t, ht40, highPower), AR_PHY_TURBO), ht40)), a);
  }

  /** Opens the analog route and streams every table in reference order. */
  method StreamTables(target: Target, t: Tables, ht40: bool, highPower: bool) returns (written: seq<Pair>)
    modifies target
    ensures written == TableWrites(t, ht40, highPower)
    ensures target.regs == Tabled(old(target.regs), t, ht40, highPower)
  {
    target.RegWrite(AR_PHY_BASE, AR_PHY_ANALOG_SHIFT_ENABLE);
    ghost var start := target.regs;
    written := Stream(target, Column(t.modes, ht40), [], start);
    assert written == Column(t.modes, ht40);
    written := Stream(target, t.common, written, start);
    written := Stream(target, Column(t.ani, ht40), written, start);
    written := Stream(target, Column(if highPower then t.highGain else t.normalGain, ht40), written, start);
    written := StreamOne(target, (AR_PCU_MISC_MODE2, AR_PCU_MISC_MODE2_TRACE_VAL), written, start);
  }

  /** After a faithful replay of the log no address can mismatch it. */
  lemma ReplayHasNoMismatch(start: RegFile, log: seq<Pair>, ms: seq<(Addr, Word, Word)>)
    requires forall m :: m in ms ==> Mismatch(WriteAll(start, log), log, m)
    ensures ms == []
  {
    if ms != [] {
      var m := ms[0];
      assert Mismatch(WriteAll(start, log), log, m);
      LastWriterIsContents(start, log, m.0);
    }
  }

  /** Forces the width bit in whatever the tables left there, and logs the write. */
  method ForceWidth(target: Target, ht40: bool, log: seq<Pair>, ghost start: RegFile) returns (written: seq<Pair>)
    requires target.regs == WriteAll(start, log)
    modifies target
    ensures written == log + [(AR_PHY_TURBO, WithWidth(Load(old(target.regs), AR_PHY_TURBO), ht40))]
    ensures target.regs == WriteAll(start, written)
  {
    var turbo := target.RegRead(AR_PHY_TURBO);
    written := StreamOne(target, (AR_PHY_TURBO, WithWidth(turbo, ht40)), log, start);
  }

  /** Streams every table, forces the width bit, and checks the sentinels: none can mismatch. */
  method ApplyInitvals(target: Target, t: Tables, ht40: bool, highPower: bool) returns (r: IniVerify)
    modifies target
    ensures target.regs == WriteAll(Routed(old(target.regs)), Log(old(target.regs), t, ht40, highPower))
    ensures r.totalWritten == |Log(old(target.regs), t, ht40, highPower)|
    ensures r.checked == LoggedCount(Log(old(target.regs), t, ht40, highPower), SENTINELS)
    ensures r.mismatches == [] && r.matched == r.checked
  {
    ghost var start := Routed(target.regs);
    var written := StreamTables(target, t, ht40, highPower);
    written := ForceWidth(target, ht40, written, start);
    r := Verify(target, written);
    ReplayHasNoMismatch(start, written, r.mismatches);
  }
}
