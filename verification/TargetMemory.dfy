/**
 * Reading and writing target memory through `WMI_ACCESS_MEMORY`: the host's chunking, the wire
 * format, and the firmware's handler, against a flat memory of 32-bit words.
 */
module TargetMemory {
  import opened Prelude
  import opened Bits
  import opened Bytes
  import opened Htc
  import opened Store
  import opened Wmi

  /** Words per exchange on the host's side. */
  const NDR_MEM_MAX_TUPLES: nat := 5
  /** The firmware accepts one more. */
  const FIRMWARE_MAX_TUPLES: nat := 6
  /** Credit report the target may append to a reply. */
  const TRAILER_LEN: nat := 4
  const FLAG_WRITE: nat := 1

  const STATUS_OK: nat := 0
  const STATUS_MALFORMED: nat := 1
  const STATUS_TOO_MANY: nat := 2
  const STATUS_UNALIGNED: nat := 3
  const STATUS_RANGE: nat := 4

  const RAM_LO: nat := 0x004E_5200
  const RAM_HI: nat := 0x0051_5000
  const IRAM_LO: nat := 0x0090_3000
  const IRAM_HI: nat := 0x0092_C000

  predicate AddrOk(a: nat) {
    RAM_LO <= a < RAM_HI || IRAM_LO <= a < IRAM_HI
  }

  // ---- the flat memory the host sees --------------------------------------------------------------------------

  /** Address of word `j`; 32-bit addition wraps. */
  function WordAddr(addr: Word, j: nat): Word {
    (addr + 4 * j) % TWO_32
  }

  function FlatLoad(mem: Memory, addr: Word, n: nat): (r: seq<Word>)
    ensures |r| == n
  {
    seq<Word>(n, j => if j >= 0 then Load(mem, WordAddr(addr, j)) else 0)
  }

  function FlatStore(mem: Memory, addr: Word, vals: seq<Word>): Memory {
    if vals == [] then mem
    else FlatStore(mem, addr, vals[..|vals| - 1])[WordAddr(addr, |vals| - 1) := vals[|vals| - 1]]
  }

  // ---- the firmware's handler ----------------------------------------------------------------------------------

  type Tuple = (Word, Word)

  function TupleAt(req: seq<Byte>, i: nat): Tuple
    requires 4 + 8 * (i + 1) <= |req|
  {
    (U32(req, 4 + 8 * i), U32(req, 8 + 8 * i))
  }

  /** The first `n` tuples touched in order: memory after, and the tuples echoed. */
  function Touch(mem: Memory, req: seq<Byte>, write: bool, n: nat): (r: (Memory, seq<Tuple>))
    requires 4 + 8 * n <= |req|
    ensures |r.1| == n
  {
    if n == 0 then (mem, [])
    else
      var (m, out) := Touch(mem, req, write, n - 1);
      var (a, v) := TupleAt(req, n - 1);
      if write then (m[a := v], out + [(a, v)]) else (m, out + [(a, Load(m, a))])
  }

  /** Every address is checked before any is touched: the first fault found among the tuples from `i` on. */
  function Validate(req: seq<Byte>, i: nat, count: nat): nat
    requires i <= count && 4 + 8 * count <= |req|
    decreases count - i
  {
    if i == count then STATUS_OK
    else if TupleAt(req, i).0 % 4 != 0 then STATUS_UNALIGNED
    else if !AddrOk(TupleAt(req, i).0) then STATUS_RANGE
    else Validate(req, i + 1, count)
  }

  function EncodeTuples(ts: seq<Tuple>): (r: seq<Byte>)
    ensures |r| == 8 * |ts|
  {
    if ts == [] then [] else Be32(ts[0].0) + Be32(ts[0].1) + EncodeTuples(ts[1..])
  }

  function ErrorReply(status: nat): seq<Byte> {
    Be16(status) + Be16(0)
  }

  function Handle(mem: Memory, req: seq<Byte>): (r: (Memory, seq<Byte>))
    ensures |r.1| <= 4 + 8 * FIRMWARE_MAX_TUPLES
  {
    if |req| < 4 then (mem, ErrorReply(STATUS_MALFORMED))
    else
      var flags, count := U16(req, 0), U16(req, 2);
      if count > FIRMWARE_MAX_TUPLES then (mem, ErrorReply(STATUS_TOO_MANY))
      else if |req| < 4 + 8 * count then (mem, ErrorReply(STATUS_MALFORMED))
      else
        var status := Validate(req, 0, count);
        if status != STATUS_OK then (mem, ErrorReply(status))
        else
          var (m, out) := Touch(mem, req, flags % 2 == 1, count);
          (m, Be16(STATUS_OK) + Be16(count) + EncodeTuples(out))
  }

  // ---- the host ---------------------------------------------------------------------------------------------------

  datatype MemError = Unaligned | ShortReply | Refused(status: nat) | Incomplete

  function Request(ts: seq<Tuple>, write: bool): (r: seq<Byte>)
    ensures |r| == 4 + 8 * |ts|
  {
    Be16(if write then FLAG_WRITE else 0) + Be16(|ts|) + EncodeTuples(ts)
  }

  /** Tuples of the words `first` to `until`. */
  function ChunkTuples(addr: Word, vals: seq<Word>, first: nat, until: nat): (ts: seq<Tuple>)
    requires first <= until <= |vals|
    ensures |ts| == until - first
  {
    seq<Tuple>(until - first, i requires 0 <= i < until - first => (WordAddr(addr, first + i), vals[first + i]))
  }

  predicate ChunkOk(addr: Word, first: nat, until: nat) {
    forall j | first <= j < until :: AddrOk(WordAddr(addr, j))
  }

  /** Words in the chunks before the first one with an address outside the firmware's windows. */
  function GoodWords(addr: Word, first: nat, n: nat): (g: nat)
    requires first <= n
    ensures first <= g <= n
    decreases n - first
  {
    var until := Min(first + NDR_MEM_MAX_TUPLES, n);
    if first == n || !ChunkOk(addr, first, until) then first else GoodWords(addr, until, n)
  }

  /** The first of the tuples that stand at the end of a message. */
  lemma FirstTupleReadsBack(b: seq<Byte>, at: nat, ts: seq<Tuple>)
    requires ts != [] && at <= |b| && b[at..] == EncodeTuples(ts)
    ensures at + 8 <= |b| && U32(b, at) == ts[0].0 && U32(b, at + 4) == ts[0].1
    ensures b[at + 8..] == EncodeTuples(ts[1..])
  {
    var tail := EncodeTuples(ts[1..]);
    assert b[at..] == Be32(ts[0].0) + Be32(ts[0].1) + tail;
    assert b[at..at + 4] == b[at..][..4] && b[at + 4..at + 8] == b[at..][4..8] && b[at + 8..] == b[at..][8..];
    U32At(b, at, ts[0].0);
    U32At(b, at + 4, ts[0].1);
  }

  /** Every tuple reads back where it stands. */
  lemma {:induction false} FieldsAt(b: seq<Byte>, at: nat, ts: seq<Tuple>, i: nat)
    requires i < |ts| && at <= |b| && b[at..] == EncodeTuples(ts)
    ensures at + 8 * i + 8 <= |b| && U32(b, at + 8 * i) == ts[i].0 && U32(b, at + 8 * i + 4) == ts[i].1
    decreases i
  {
    FirstTupleReadsBack(b, at, ts);
    if i > 0 {
      FieldsAt(b, at + 8, ts[1..], i - 1);
    }
  }

  lemma TupleReadsBack(msg: seq<Byte>, ts: seq<Tuple>, i: nat)
    requires i < |ts| && |msg| >= 4 && msg[4..] == EncodeTuples(ts)
    ensures TupleAt(msg, i) == ts[i]
  {
    FieldsAt(msg, 4, ts, i);
  }

  // ---- one exchange -----------------------------------------------------------------------------------------------

  function StoreTuples(mem: Memory, ts: seq<Tuple>): Memory {
    if ts == [] then mem
    else StoreTuples(mem, ts[..|ts| - 1])[ts[|ts| - 1].0 := ts[|ts| - 1].1]
  }

  function LoadTuples(mem: Memory, ts: seq<Tuple>): (r: seq<Tuple>)
    ensures |r| == |ts|
  {
    seq<Tuple>(|ts|, i requires 0 <= i < |ts| => (ts[i].0, Load(mem, ts[i].0)))
  }

  lemma RequestHeader(ts: seq<Tuple>, write: bool)
    requires |ts| < TWO_16
    ensures var req := Request(ts, write);
            U16(req, 0) == (if write then FLAG_WRITE else 0) && U16(req, 2) == |ts|
  {
    var req := Request(ts, write);
    assert req[0..2] == Be16(if write then FLAG_WRITE else 0) && req[2..4] == Be16(|ts|);
    U16At(req, 0, if write then FLAG_WRITE else 0);
    U16At(req, 2, |ts|);
  }

  lemma RequestTuple(ts: seq<Tuple>, write: bool, i: nat)
    requires i < |ts|
    ensures TupleAt(Request(ts, write), i) == ts[i]
  {
    var req := Request(ts, write);
    assert req[4..] == EncodeTuples(ts);
    TupleReadsBack(req, ts, i);
  }

  predicate AllAligned(ts: seq<Tuple>) {
    forall i | 0 <= i < |ts| :: ts[i].0 % 4 == 0
  }

  predicate AllInRange(ts: seq<Tuple>, first: nat) {
    forall i | first <= i < |ts| :: AddrOk(ts[i].0)
  }

  lemma {:induction false} ValidateRequest(ts: seq<Tuple>, write: bool, i: nat)
    requires i <= |ts| && AllAligned(ts)
    ensures Validate(Request(ts, write), i, |ts|) == if AllInRange(ts, i) then STATUS_OK else STATUS_RANGE
    decreases |ts| - i
  {
    if i < |ts| {
      RequestTuple(ts, write, i);
      ValidateRequest(ts, write, i + 1);
    }
  }

  lemma LoadTuplesSnoc(mem: Memory, ts: seq<Tuple>, n: nat)
    requires n < |ts|
    ensures LoadTuples(mem, ts[..n + 1]) == LoadTuples(mem, ts[..n]) + [(ts[n].0, Load(mem, ts[n].0))]
  {
    assert ts[..n + 1] == ts[..n] + [ts[n]];
  }

  lemma {:induction false} TouchRequest(mem: Memory, ts: seq<Tuple>, write: bool, n: nat)
    requires n <= |ts|
    ensures Touch(mem, Request(ts, write), write, n) ==
            if write then (StoreTuples(mem, ts[..n]), ts[..n]) else (mem, LoadTuples(mem, ts[..n]))
  {
    if n > 0 {
      TouchRequest(mem, ts, write, n - 1);
      RequestTuple(ts, write, n - 1);
      assert ts[..n] == ts[..n - 1] + [ts[n - 1]];
      LoadTuplesSnoc(mem, ts, n - 1);
    }
  }

  function Reply(ts: seq<Tuple>): seq<Byte> {
    Be16(STATUS_OK) + Be16(|ts|) + EncodeTuples(ts)
  }

  /** The handler on a request of consistent length. */
  lemma HandleConsistent(mem: Memory, req: seq<Byte>, write: bool, count: nat)
    requires count <= FIRMWARE_MAX_TUPLES && |req| == 4 + 8 * count
    requires U16(req, 0) == (if write then FLAG_WRITE else 0) && U16(req, 2) == count
    ensures Handle(mem, req) ==
            var status := Validate(req, 0, count);
            if status != STATUS_OK then (mem, ErrorReply(status))
            else var t := Touch(mem, req, write, count); (t.0, Be16(STATUS_OK) + Be16(count) + EncodeTuples(t.1))
  {
  }

  /** What the firmware makes of a request the host can send: all of it, or none of it. */
  lemma ExchangeIsAllOrNothing(mem: Memory, ts: seq<Tuple>, write: bool)
    requires |ts| <= NDR_MEM_MAX_TUPLES && AllAligned(ts)
    ensures Handle(mem, Request(ts, write)) ==
            if !AllInRange(ts, 0) then (mem, ErrorReply(STATUS_RANGE))
            else if write then (StoreTuples(mem, ts), Reply(ts))
            else (mem, Reply(LoadTuples(mem, ts)))
  {
    var req := Request(ts, write);
    RequestHeader(ts, write);
    HandleConsistent(mem, req, write, |ts|);
    ValidateRequest(ts, write, 0);
    TouchRequest(mem, ts, write, |ts|);
    assert ts[..|ts|] == ts;
  }

  /** A reply is never longer than its request, or than a bare status. */
  lemma ReplyIsNoLonger(mem: Memory, req: seq<Byte>)
    ensures |Handle(mem, req).1| <= Max(4, |req|)
  {
  }

  lemma ReplyReadsBack(ts: seq<Tuple>)
    requires |ts| < TWO_16
    ensures var resp := Reply(ts);
            && |resp| == 4 + 8 * |ts| && U16(resp, 0) == STATUS_OK && U16(resp, 2) == |ts|
            && forall i | 0 <= i < |ts| :: U32(resp, 8 + 8 * i) == ts[i].1
  {
    var resp := Reply(ts);
    assert resp[0..2] == Be16(STATUS_OK) && resp[2..4] == Be16(|ts|);
    U16At(resp, 0, STATUS_OK);
    U16At(resp, 2, |ts|);
    assert resp[4..] == EncodeTuples(ts);
    forall i | 0 <= i < |ts|
      ensures U32(resp, 8 + 8 * i) == ts[i].1
    {
      FieldsAt(resp, 4, ts, i);
    }
  }

  lemma ErrorReplyReadsBack(status: nat)
    requires status < TWO_16
    ensures U16(ErrorReply(status), 0) == status
  {
    U16At(ErrorReply(status), 0, status);
  }

  // ---- chunk by chunk -----------------------------------------------------------------------------------------------

  lemma {:induction false} ChunkStores(mem: Memory, addr: Word, vals: seq<Word>, first: nat, until: nat)
    requires first <= until <= |vals|
    ensures StoreTuples(FlatStore(mem, addr, vals[..first]), ChunkTuples(addr, vals, first, until))
         == FlatStore(mem, addr, vals[..until])
    decreases until
  {
    if first < until {
      ChunkStores(mem, addr, vals, first, until - 1);
      var ts := ChunkTuples(addr, vals, first, until);
      assert ts[..|ts| - 1] == ChunkTuples(addr, vals, first, until - 1);
      assert vals[..until][..until - 1] == vals[..until - 1];
    }
  }

  lemma WordsAreAligned(addr: Word, j: nat)
    requires addr % 4 == 0
    ensures WordAddr(addr, j) % 4 == 0
  {
  }

  /** Everything the whole access returns when no chunk is refused. */
  function Wanted(start: Memory, addr: Word, vals: seq<Word>, write: bool): (w: seq<Word>)
    ensures |w| == |vals|
  {
    if write then vals else FlatLoad(start, addr, |vals|)
  }

  /** The first `i` words are done: stored or collected, and none of their chunks was refused. */
  predicate Progress(start: Memory, mem: Memory, addr: Word, vals: seq<Word>, write: bool, i: nat,
                     out: seq<Word>)
  {
    && i <= |vals|
    && mem == (if write then FlatStore(start, addr, vals[..i]) else start)
    && out == Wanted(start, addr, vals, write)[..i]
    && GoodWords(addr, 0, |vals|) == GoodWords(addr, i, |vals|)
  }

  /** The driver's memory path, over commands that are answered; `RemoteMemory` has those that may not be. */
  class Backend {
    var mem: Memory

    constructor (mem: Memory)
      ensures this.mem == mem
    {
      this.mem := mem;
    }

    /** One exchange: the request and the reply, trailer included, each fit one packet of the pipe. */
    method Exchange(payload: seq<Byte>) returns (resp: seq<Byte>)
      requires |payload| <= 4 + 8 * NDR_MEM_MAX_TUPLES
      modifies this
      ensures (mem, resp) == Handle(old(mem), payload)
      ensures HTC_HDR_LEN + WMI_HDR_LEN + |payload| <= REG_PIPE_MAX
      ensures HTC_HDR_LEN + WMI_HDR_LEN + |resp| + TRAILER_LEN <= REG_PIPE_MAX
    {
      ReplyIsNoLonger(mem, payload);
      var (m, r) := Handle(mem, payload);
      mem, resp := m, r;
    }

    /** Reads (`write` false) or writes the words of `vals` from `addr` on, five to an exchange. */
    method AccessMemory(addr: Word, vals: seq<Word>, write: bool) returns (r: Result<seq<Word>, MemError>)
      modifies this
      ensures addr % 4 != 0 ==> r == Err(Unaligned) && mem == old(mem)
      ensures addr % 4 == 0 ==>
                var good := GoodWords(addr, 0, |vals|);
                && mem == (if write then FlatStore(old(mem), addr, vals[..good]) else old(mem))
                && r == if good < |vals| then Err(Refused(STATUS_RANGE))
                        else Ok(if write then vals else FlatLoad(old(mem), addr, |vals|))
    {
      if addr % 4 != 0 {
        return Err(Unaligned);
      }
      var out: seq<Word> := [];
      var i := 0;
      ghost var start := mem;
      assert vals[..0] == [];
      while i < |vals|
        invariant 0 <= i <= |vals| && Progress(start, mem, addr, vals, write, i, out)
      {
        var end := Min(i + NDR_MEM_MAX_TUPLES, |vals|);
        var step := AccessTurn(addr, vals, i, end, write, out, start);
        if step.Err? {
          return Err(step.error);
        }
        out := step.value;
        i := end;
      }
      assert vals[..|vals|] == vals && Wanted(start, addr, vals, write)[..|vals|] == Wanted(start, addr, vals, write);
      r := Ok(out);
    }

    /** The loop body: one chunk, added to what came before it. */
    method AccessTurn(addr: Word, vals: seq<Word>, first: nat, until: nat, write: bool, out: seq<Word>,
                      ghost start: Memory) returns (r: Result<seq<Word>, MemError>)
      requires addr % 4 == 0 && first < |vals| && until == Min(first + NDR_MEM_MAX_TUPLES, |vals|)
      requires Progress(start, mem, addr, vals, write, first, out)
      modifies this
      ensures r.Ok? <==> ChunkOk(addr, first, until)
      ensures r.Ok? ==> Progress(start, mem, addr, vals, write, until, r.value)
      ensures r.Err? ==> r == Err(Refused(STATUS_RANGE)) && mem == old(mem) && GoodWords(addr, 0, |vals|) == first
    {
      r := AccessChunk(addr, vals, first, until, write);
      if r.Ok? {
        ChunkStores(start, addr, vals, first, until);
        ghost var all := Wanted(start, addr, vals, write);
        assert all[..until] == all[..first] + all[first..until];
        r := Ok(out + r.value);
      }
    }

    /** One turn of the loop: build the request, exchange it, check the reply, collect its values. */
    method AccessChunk(addr: Word, vals: seq<Word>, first: nat, until: nat, write: bool)
      returns (r: Result<seq<Word>, MemError>)
      requires addr % 4 == 0 && first < until <= |vals| && until <= first + NDR_MEM_MAX_TUPLES
      modifies this
      ensures !ChunkOk(addr, first, until) ==> r == Err(Refused(STATUS_RANGE)) && mem == old(mem)
      ensures ChunkOk(addr, first, until) ==>
                && mem == (if write then StoreTuples(old(mem), ChunkTuples(addr, vals, first, until)) else old(mem))
                && r == Ok(if write then vals[first..until] else FlatLoad(old(mem), addr, |vals|)[first..until])
    {
      ChunkOutcome(mem, addr, vals, first, until, write);
      var ts := ChunkTuples(addr, vals, first, until);
      var resp := Exchange(Request(ts, write));
      r := ReadReply(resp, |ts|);
    }
  }

  /** The host's checks on a reply to `expected` tuples, and the values in it. */
  function ReplyValues(resp: seq<Byte>, expected: nat): Result<seq<Word>, MemError> {
    if |resp| < 4 then Err(ShortReply)
    else if U16(resp, 0) != STATUS_OK then Err(Refused(U16(resp, 0)))
    else if U16(resp, 2) != expected || |resp| < 4 + 8 * expected then Err(Incomplete)
    else Ok(seq<Word>(expected, i requires 0 <= i < expected => U32(resp, 8 + 8 * i)))
  }

  method ReadReply(resp: seq<Byte>, expected: nat) returns (r: Result<seq<Word>, MemError>)
    ensures r == ReplyValues(resp, expected)
  {
    if |resp| < 4 {
      return Err(ShortReply);
    }
    var status, count := U16(resp, 0), U16(resp, 2);
    if status != STATUS_OK {
      return Err(Refused(status));
    }
    if count != expected || |resp| < 4 + count * 8 {
      return Err(Incomplete);
    }
    var out: seq<Word> := [];
    for k := 0 to count
      invariant |out| == k && forall q | 0 <= q < k :: out[q] == U32(resp, 8 + 8 * q)
    {
      out := out + [U32(resp, 4 + k * 8 + 4)];
    }
    assert out == seq<Word>(expected, i requires 0 <= i < expected => U32(resp, 8 + 8 * i));
    r := Ok(out);
  }

  /** What the host reads out of a refusal, and out of a full reply. */
  lemma RefusalValues(expected: nat)
    ensures ReplyValues(ErrorReply(STATUS_RANGE), expected) == Err(Refused(STATUS_RANGE))
  {
    ErrorReplyReadsBack(STATUS_RANGE);
  }

  lemma FullReplyValues(ts: seq<Tuple>, vs: seq<Word>)
    requires |ts| == |vs| < TWO_16 && forall i | 0 <= i < |ts| :: ts[i].1 == vs[i]
    ensures ReplyValues(Reply(ts), |ts|) == Ok(vs)
  {
    ReplyReadsBack(ts);
    assert ReplyValues(Reply(ts), |ts|).value == vs;
  }

  lemma ChunkIsAligned(addr: Word, vals: seq<Word>, first: nat, until: nat)
    requires addr % 4 == 0 && first <= until <= |vals|
    ensures AllAligned(ChunkTuples(addr, vals, first, until))
  {
    forall k | 0 <= k < until - first
      ensures ChunkTuples(addr, vals, first, until)[k].0 % 4 == 0
    {
      WordsAreAligned(addr, first + k);
    }
  }

  /** What the host reads out of the outcome of an exchange. */
  lemma OutcomeValues(mem: Memory, ts: seq<Tuple>, write: bool, vs: seq<Word>, h: (Memory, seq<Byte>))
    requires h == if !AllInRange(ts, 0) then (mem, ErrorReply(STATUS_RANGE))
                  else if write then (StoreTuples(mem, ts), Reply(ts))
                  else (mem, Reply(LoadTuples(mem, ts)))
    requires |vs| == |ts| < TWO_16
    requires forall i | 0 <= i < |ts| :: vs[i] == if write then ts[i].1 else Load(mem, ts[i].0)
    ensures h.0 == if AllInRange(ts, 0) && write then StoreTuples(mem, ts) else mem
    ensures ReplyValues(h.1, |ts|) == if AllInRange(ts, 0) then Ok(vs) else Err(Refused(STATUS_RANGE))
  {
    if !AllInRange(ts, 0) {
      RefusalValues(|ts|);
    } else if write {
      FullReplyValues(ts, vs);
    } else {
      FullReplyValues(LoadTuples(mem, ts), vs);
    }
  }

  lemma ChunkValues(mem: Memory, addr: Word, vals: seq<Word>, first: nat, until: nat, k: nat)
    requires first <= until <= |vals| && k < until - first
    ensures var t := ChunkTuples(addr, vals, first, until)[k];
            vals[first..until][k] == t.1 && FlatLoad(mem, addr, |vals|)[first..until][k] == Load(mem, t.0)
  {
  }

  /** One chunk's exchange, as the flat memory sees it. */
  lemma ChunkOutcome(mem: Memory, addr: Word, vals: seq<Word>, first: nat, until: nat, write: bool)
    requires addr % 4 == 0 && first < until <= |vals| && until <= first + NDR_MEM_MAX_TUPLES
    ensures var ts := ChunkTuples(addr, vals, first, until);
            var (m, resp) := Handle(mem, Request(ts, write));
            if !ChunkOk(addr, first, until) then m == mem && ReplyValues(resp, |ts|) == Err(Refused(STATUS_RANGE))
            else && m == (if write then StoreTuples(mem, ts) else mem)
                 && ReplyValues(resp, |ts|) ==
                    Ok(if write then vals[first..until] else FlatLoad(mem, addr, |vals|)[first..until])
  {
    var ts := ChunkTuples(addr, vals, first, until);
    ChunkIsAligned(addr, vals, first, until);
    ChunkRange(addr, vals, first, until);
    ExchangeIsAllOrNothing(mem, ts, write);
    var vs := if write then vals[first..until] else FlatLoad(mem, addr, |vals|)[first..until];
    forall k | 0 <= k < |ts|
      ensures vs[k] == if write then ts[k].1 else Load(mem, ts[k].0)
    {
      ChunkValues(mem, addr, vals, first, until, k);
    }
    OutcomeValues(mem, ts, write, vs, Handle(mem, Request(ts, write)));
  }

  lemma ChunkRange(addr: Word, vals: seq<Word>, first: nat, until: nat)
    requires first <= until <= |vals|
    ensures AllInRange(ChunkTuples(addr, vals, first, until), 0) <==> ChunkOk(addr, first, until)
  {
    var ts := ChunkTuples(addr, vals, first, until);
    assert forall j | first <= j < until :: ts[j - first].0 == WordAddr(addr, j);
  }

  // ---- what the flat memory promises -------------------------------------------------------------------------

  lemma AddrSplits(addr: Word, m: nat, j: nat)
    ensures WordAddr((addr + 4 * m) % 0x1_0000_0000, j) == WordAddr(addr, m + j)
  {
  }

  lemma WordOfLoad(mem: Memory, addr: Word, n: nat, j: nat)
    requires j < n
    ensures FlatLoad(mem, addr, n)[j] == Load(mem, (addr + 4 * j) % 0x1_0000_0000)
  {
  }

  lemma LoadOne(mem: Memory, addr: Word)
    ensures FlatLoad(mem, addr, 1) == [Load(mem, addr)]
  {
    WordOfLoad(mem, addr, 1, 0);
  }

  lemma StoreOne(mem: Memory, addr: Word, v: Word)
    ensures FlatStore(mem, addr, [v]) == mem[addr := v]
  {
    assert [v][..0] == [];
  }

  /** Words read in one go are some words, and then the rest from four bytes a word further on. */
  lemma LoadSplits(mem: Memory, addr: Word, m: nat, n: nat)
    ensures FlatLoad(mem, addr, m + n)
            == FlatLoad(mem, addr, m) + FlatLoad(mem, (addr + 4 * m) % 0x1_0000_0000, n)
  {
    var whole, first := FlatLoad(mem, addr, m + n), FlatLoad(mem, addr, m);
    var rest := FlatLoad(mem, (addr + 4 * m) % 0x1_0000_0000, n);
    forall i | 0 <= i < m + n
      ensures whole[i] == (first + rest)[i]
    {
      if i >= m {
        AddrSplits(addr, m, i - m);
      }
    }
  }

  /** So with words written. */
  lemma {:induction false} StoreSplits(mem: Memory, addr: Word, a: seq<Word>, b: seq<Word>)
    ensures FlatStore(mem, addr, a + b)
            == FlatStore(FlatStore(mem, addr, a), (addr + 4 * |a|) % 0x1_0000_0000, b)
    decreases |b|
  {
    if b == [] {
      assert a + b == a;
    } else {
      var n := |b| - 1;
      StoreSplits(mem, addr, a, b[..n]);
      assert (a + b)[..|a| + n] == a + b[..n];
      AddrSplits(addr, |a|, n);
    }
  }

  /** Words less than a whole address space apart have different addresses. */
  lemma WordsDiffer(addr: Word, i: nat, j: nat)
    requires i < j && 4 * (j - i) < TWO_32
    ensures WordAddr(addr, i) != WordAddr(addr, j)
  {
  }

  /** Writing touches the written words only, and each of them holds what was written. */
  lemma {:induction false} StoreThenLoad(mem: Memory, addr: Word, vals: seq<Word>)
    requires 4 * |vals| <= TWO_32
    ensures FlatLoad(FlatStore(mem, addr, vals), addr, |vals|) == vals
    ensures forall a: Word | (forall j | 0 <= j < |vals| :: a != WordAddr(addr, j)) ::
              Load(FlatStore(mem, addr, vals), a) == Load(mem, a)
  {
    if vals != [] {
      var n := |vals| - 1;
      var before := FlatStore(mem, addr, vals[..n]);
      StoreThenLoad(mem, addr, vals[..n]);
      var after := before[WordAddr(addr, n) := vals[n]];
      forall j | 0 <= j < |vals|
        ensures Load(after, WordAddr(addr, j)) == vals[j]
      {
        if j < n {
          WordsDiffer(addr, j, n);
          assert FlatLoad(before, addr, n)[j] == vals[j];
        }
      }
    }
  }

  /** A transfer completes exactly when every word lies in the firmware's windows. */
  lemma {:induction false} GoodWordsAreAll(addr: Word, first: nat, n: nat)
    requires first <= n
    ensures GoodWords(addr, first, n) == n <==> ChunkOk(addr, first, n)
    decreases n - first
  {
    if first < n {
      var until := Min(first + NDR_MEM_MAX_TUPLES, n);
      GoodWordsAreAll(addr, until, n);
      if !ChunkOk(addr, first, until) {
        assert !ChunkOk(addr, first, n);
      } else {
        assert ChunkOk(addr, until, n) ==> ChunkOk(addr, first, n);
        assert ChunkOk(addr, first, n) ==> ChunkOk(addr, until, n);
      }
    }
  }

  /** Words are refused by chunks of five: those before the chunk of the first bad word are good, that chunk is not. */
  lemma {:induction false} GoodWordsAreWholeChunks(addr: Word, first: nat, n: nat)
    requires first <= n
    ensures var g := GoodWords(addr, first, n);
            && (forall j | first <= j < g :: AddrOk(WordAddr(addr, j)))
            && (g < n ==> (g - first) % 5 == 0 && exists j :: g <= j < g + 5 && j < n && !AddrOk(WordAddr(addr, j)))
    decreases n - first
  {
    var until := Min(first + NDR_MEM_MAX_TUPLES, n);
    if first < n && ChunkOk(addr, first, until) {
      GoodWordsAreWholeChunks(addr, until, n);
    }
  }

  /** Of the words written, the one at `addr + 4 * j`. */
  lemma StoredWord(mem: Memory, addr: Word, vals: seq<Word>, j: nat)
    requires 4 * |vals| <= TWO_32 && j < |vals|
    ensures FlatLoad(FlatStore(mem, addr, vals), (addr + 4 * j) % 0x1_0000_0000, 1) == [vals[j]]
  {
    StoreThenLoad(mem, addr, vals);
    WordOfLoad(FlatStore(mem, addr, vals), addr, |vals|, j);
    LoadOne(FlatStore(mem, addr, vals), (addr + 4 * j) % 0x1_0000_0000);
  }

  lemma OneInRange(addr: Word, n: nat, j: nat)
    requires addr % 4 == 0 && ChunkOk(addr, 0, n) && j < n
    ensures (addr + 4 * j) % 0x1_0000_0000 % 4 == 0
    ensures GoodWords((addr + 4 * j) % 0x1_0000_0000, 0, 1) == 1
  {
    AddrSplits(addr, j, 0);
    GoodWordsAreAll((addr + 4 * j) % 0x1_0000_0000, 0, 1);
  }

  /** Writing words and then reading one of them, four bytes a word behind the first, returns that word. */
  method WriteThenReadOne(b: Backend, addr: Word, vals: seq<Word>, j: nat) returns (r: Result<seq<Word>, MemError>)
    requires addr % 4 == 0 && 4 * |vals| <= TWO_32 && ChunkOk(addr, 0, |vals|) && j < |vals|
    modifies b
    ensures r == Ok([vals[j]])
  {
    GoodWordsAreAll(addr, 0, |vals|);
    assert vals[..|vals|] == vals;
    OneInRange(addr, |vals|, j);
    StoredWord(b.mem, addr, vals, j);
    var echoed := b.AccessMemory(addr, vals, true);
    r := b.AccessMemory((addr + 4 * j) % 0x1_0000_0000, [0], false);
  }

  /** Writing, then reading as many words back, returns what was written. */
  method WriteThenRead(b: Backend, addr: Word, vals: seq<Word>) returns (r: Result<seq<Word>, MemError>)
    requires addr % 4 == 0 && 4 * |vals| <= TWO_32 && ChunkOk(addr, 0, |vals|)
    modifies b
    ensures r == Ok(vals)
  {
    GoodWordsAreAll(addr, 0, |vals|);
    assert vals[..|vals|] == vals;
    StoreThenLoad(b.mem, addr, vals);
    var echoed := b.AccessMemory(addr, vals, true);
    r := b.AccessMemory(addr, seq<Word>(|vals|, _ => 0), false);
  }
}
