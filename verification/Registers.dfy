/** The register file behind the WMI register commands, and the batched write that streams it. */
module Registers {
  import opened Bits
  import opened Prelude
  import opened Bytes
  import opened Htc
  import opened Store
  import opened Wmi

  /** Pairs per batched write: `8 + 4 + 6 * 8` bytes fit the 64-byte pipe. */
  const REG_WRITE_MAX_PAIRS: nat := 6

  type Pair = (Addr, Word)

  /** An ideal register file. */
  type RegFile = Memory

  /** Writes in order. */
  function WriteAll(regs: RegFile, pairs: seq<Pair>): RegFile
    decreases |pairs|
  {
    if pairs == [] then regs else WriteAll(regs[pairs[0].0 := pairs[0].1], pairs[1..])
  }

  lemma {:induction false} WriteAllConcat(regs: RegFile, a: seq<Pair>, b: seq<Pair>)
    ensures WriteAll(regs, a + b) == WriteAll(WriteAll(regs, a), b)
    decreases |a|
  {
    if a == [] {
      assert a + b == b;
    } else {
      WriteAllConcat(regs[a[0].0 := a[0].1], a[1..], b);
      assert (a + b)[1..] == a[1..] + b;
    }
  }

  /** The last value logged for an address. */
  function LastWriter(log: seq<Pair>, a: Addr): Option<Word> {
    if log == [] then None
    else if log[|log| - 1].0 == a then Some(log[|log| - 1].1)
    else LastWriter(log[..|log| - 1], a)
  }

  /** An address reads as its last write in the log, and as before where the log is silent. */
  lemma {:induction false} LastWriterIsContents(regs: RegFile, log: seq<Pair>, a: Addr)
    ensures Load(WriteAll(regs, log), a) ==
            match LastWriter(log, a) { case Some(w) => w case None => Load(regs, a) }
  {
    if log != [] {
      var n := |log| - 1;
      assert log == log[..n] + [log[n]];
      WriteAllConcat(regs, log[..n], [log[n]]);
      LastWriterIsContents(regs, log[..n], a);
      assert WriteAll(WriteAll(regs, log[..n]), [log[n]]) == WriteAll(regs, log[..n])[log[n].0 := log[n].1];
    }
  }

  /** A register reads as its last write in the log, and as it did before where the log is silent. */
  ghost predicate HoldsLast(before: RegFile, after: RegFile, log: seq<Pair>, a: Addr) {
    Load(after, a) == match LastWriter(log, a) { case Some(w) => w case None => Load(before, a) }
  }

  /** Later writes win. */
  lemma {:induction false} LastWriterConcat(x: seq<Pair>, y: seq<Pair>, a: Addr)
    ensures LastWriter(x + y, a) == if LastWriter(y, a).Some? then LastWriter(y, a) else LastWriter(x, a)
    decreases |y|
  {
    if y == [] {
      assert x + y == x;
    } else {
      assert (x + y)[..|x + y| - 1] == x + y[..|y| - 1];
      LastWriterConcat(x, y[..|y| - 1], a);
    }
  }

  // ---- on the wire ------------------------------------------------------------------------------------------

  function EncodePair(p: Pair): (r: seq<Byte>)
    ensures |r| == 8
  {
    Be32(p.0) + Be32(p.1)
  }

  function EncodePairs(pairs: seq<Pair>): (r: seq<Byte>)
    ensures |r| == 8 * |pairs|
  {
    if pairs == [] then [] else EncodePair(pairs[0]) + EncodePairs(pairs[1..])
  }

  /** The target's handler: every whole pair of the payload, written in order. */
  function HandleRegWrite(regs: RegFile, payload: seq<Byte>): RegFile
    decreases |payload|
  {
    if |payload| < 8 then regs
    else HandleRegWrite(regs[U32(payload, 0) := U32(payload, 4)], payload[8..])
  }

  /** The target's handler for one address. */
  function HandleRegRead(regs: RegFile, payload: seq<Byte>): seq<Byte> {
    if |payload| < 4 then [] else Be32(Load(regs, U32(payload, 0)))
  }

  lemma PairReadsBack(p: Pair, rest: seq<Byte>)
    ensures var b := EncodePair(p) + rest;
            U32(b, 0) == p.0 && U32(b, 4) == p.1 && b[8..] == rest
  {
    var b := EncodePair(p) + rest;
    assert b[0..4] == Be32(p.0) && b[4..8] == Be32(p.1);
    U32At(b, 0, p.0);
    U32At(b, 4, p.1);
  }

  lemma {:induction false} HandlerWritesPairs(regs: RegFile, pairs: seq<Pair>)
    ensures HandleRegWrite(regs, EncodePairs(pairs)) == WriteAll(regs, pairs)
    decreases |pairs|
  {
    if pairs != [] {
      PairReadsBack(pairs[0], EncodePairs(pairs[1..]));
      HandlerWritesPairs(regs[pairs[0].0 := pairs[0].1], pairs[1..]);
    }
  }

  lemma ReadHandlerReturnsContents(regs: RegFile, a: Addr)
    ensures var resp := HandleRegRead(regs, Be32(a));
            |resp| == 4 && U32(resp, 0) == Load(regs, a)
  {
    U32At(Be32(a), 0, a);
    U32At(Be32(Load(regs, a)), 0, Load(regs, a));
  }

  /** The driver's register path, over commands that are answered; `RemoteRegisters` has those that may not be. */
  class Target {
    var regs: RegFile

    constructor (regs: RegFile)
      ensures this.regs == regs
    {
      this.regs := regs;
    }

    /** One WMI register-write exchange; its message must fit one packet. */
    method ExchangeWrite(payload: seq<Byte>)
      requires HTC_HDR_LEN + WMI_HDR_LEN + |payload| <= REG_PIPE_MAX
      modifies this
      ensures regs == HandleRegWrite(old(regs), payload)
    {
      regs := HandleRegWrite(regs, payload);
    }

    method RegRead(a: Addr) returns (w: Word)
      ensures w == Load(regs, a)
    {
      var resp := HandleRegRead(regs, Be32(a));
      ReadHandlerReturnsContents(regs, a);
      w := U32(resp, 0);
    }

    method RegWrite(a: Addr, w: Word)
      modifies this
      ensures regs == old(regs)[a := w]
    {
      ExchangeWrite(Be32(a) + Be32(w));
      PairReadsBack((a, w), []);
      assert EncodePair((a, w)) + [] == Be32(a) + Be32(w);
    }

    /** Streams any number of pairs in messages of at most six; the register file sees them in order. */
    method RegWriteBatch(pairs: seq<Pair>)
      modifies this
      ensures regs == WriteAll(old(regs), pairs)
    {
      var i := 0;
      while i < |pairs|
        invariant 0 <= i <= |pairs|
        invariant regs == WriteAll(old(regs), pairs[..i])
      {
        var end := Min(i + REG_WRITE_MAX_PAIRS, |pairs|);
        var chunk := pairs[i..end];
        var payload := EncodeChunk(chunk);
        HandlerWritesPairs(regs, chunk);
        WriteAllConcat(old(regs), pairs[..i], chunk);
        assert pairs[..end] == pairs[..i] + chunk;
        ExchangeWrite(payload);
        i := end;
      }
      assert pairs[..i] == pairs;
    }
  }

  lemma {:induction false} EncodePairsSnoc(pairs: seq<Pair>, p: Pair)
    ensures EncodePairs(pairs + [p]) == EncodePairs(pairs) + EncodePair(p)
  {
    if pairs == [] {
      assert [] + [p] == [p] && [p][1..] == [];
    } else {
      EncodePairsSnoc(pairs[1..], p);
      assert (pairs + [p])[1..] == pairs[1..] + [p];
    }
  }

  method EncodeChunk(chunk: seq<Pair>) returns (payload: seq<Byte>)
    ensures payload == EncodePairs(chunk)
  {
    payload := [];
    for k := 0 to |chunk|
      invariant payload == EncodePairs(chunk[..k])
    {
      EncodePairsSnoc(chunk[..k], chunk[k]);
      assert chunk[..k + 1] == chunk[..k] + [chunk[k]];
      payload := payload + Be32(chunk[k].0);
      payload := payload + Be32(chunk[k].1);
    }
    assert chunk[..|chunk|] == chunk;
  }
}
