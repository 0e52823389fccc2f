/** The register path of `Registers` over the lossy protocol of `Remote`. */
module RemoteRegisters {
  import opened Prelude
  import opened Bytes
  import opened Store
  import opened Registers
  import opened Remote

  datatype Call = WriteRegs(payload: seq<Byte>) | ReadReg(payload: seq<Byte>) | Other(body: seq<Byte>)

  function Serve(regs: RegFile, call: Call): (RegFile, seq<Byte>) {
    match call
    case WriteRegs(payload) => (HandleRegWrite(regs, payload), [])
    case ReadReg(payload) => (regs, HandleRegRead(regs, payload))
    case Other(body) => (regs, body)
  }

  type RegisterWorld = World<RegFile, Call>

  /** How many messages `n` pairs take. */
  function Messages(n: nat): nat {
    (n + REG_WRITE_MAX_PAIRS - 1) / REG_WRITE_MAX_PAIRS
  }

  /** Where message `j` of `n` pairs begins. */
  function Begin(j: nat, n: nat): nat {
    Min(REG_WRITE_MAX_PAIRS * j, n)
  }

  lemma MessageBounds(j: nat, n: nat)
    ensures 0 <= Begin(j, n) <= Begin(j + 1, n) <= n
    ensures j < Messages(n) ==> Begin(j, n) < Begin(j + 1, n)
    ensures j >= Messages(n) ==> Begin(j, n) == n
  {
  }

  function BatchCalls(pairs: seq<Pair>): (calls: seq<Call>)
    ensures |calls| == Messages(|pairs|)
    ensures forall j | 0 <= j < |calls| :: calls[j] == MessageCall(pairs, j)
  {
    seq<Call>(Messages(|pairs|), j requires 0 <= j < Messages(|pairs|) => MessageCall(pairs, j))
  }

  function MessageCall(pairs: seq<Pair>, j: nat): Call {
    MessageBounds(j, |pairs|);
    WriteRegs(EncodePairs(pairs[Begin(j, |pairs|)..Begin(j + 1, |pairs|)]))
  }

  /** The register file with the pairs of the first `j` messages written. */
  function Written(regs: RegFile, pairs: seq<Pair>, j: nat): RegFile {
    WriteAll(regs, pairs[..Begin(j, |pairs|)])
  }

  lemma MessageStep(regs: RegFile, pairs: seq<Pair>, j: nat)
    ensures Serve(Written(regs, pairs, j), MessageCall(pairs, j)).0 == Written(regs, pairs, j + 1)
  {
    MessageBounds(j, |pairs|);
    var first, until := Begin(j, |pairs|), Begin(j + 1, |pairs|);
    HandlerWritesPairs(Written(regs, pairs, j), pairs[first..until]);
    WriteAllConcat(regs, pairs[..first], pairs[first..until]);
    assert pairs[..until] == pairs[..first] + pairs[first..until];
  }

  function Path(regs: RegFile, pairs: seq<Pair>, n: nat): (path: seq<RegFile>)
    ensures |path| == n + 1 && forall j | 0 <= j <= n :: path[j] == Written(regs, pairs, j)
  {
    seq<RegFile>(n + 1, j requires 0 <= j <= n => Written(regs, pairs, j))
  }

  function AfterMessages(regs: RegFile, calls: seq<Call>, n: nat): RegFile
    requires n <= |calls|
  {
    Sequel(Serve, regs, calls, n)
  }

  lemma SequelIsWritten(regs: RegFile, pairs: seq<Pair>, calls: seq<Call>, n: nat)
    requires calls <= BatchCalls(pairs) && n <= |calls|
    ensures AfterMessages(regs, calls, n) == Written(regs, pairs, n)
  {
    var path := Path(regs, pairs, n);
    assert pairs[..0] == [];
    forall j | 0 <= j < n
      ensures Serve(path[j], calls[j]).0 == path[j + 1]
    {
      assert calls[j] == BatchCalls(pairs)[j];
      MessageStep(regs, pairs, j);
    }
    SequelFollows(Serve, calls, path, n);
  }

  /**
   * A batch that comes back without error has written all its pairs in order, with nothing in between.
   * One whose last message so far has not come back has written the messages before it whole, and of
   * that message all pairs or none.
   */
  lemma {:induction false} BatchIsAtomic(start: RegFile, a: RegisterWorld, b: RegisterWorld, pairs: seq<Pair>,
                                         bodies: seq<seq<Byte>>) returns (regs: RegFile, done: nat)
    requires Stretch(Serve, start, a, b, bodies) && b.wire.issued - a.wire.issued <= Messages(|pairs|)
    requires Asked(b, a.wire.issued, BatchCalls(pairs)[..b.wire.issued - a.wire.issued])
    ensures RunsFrom(Serve, start, a, b, regs) && (a.wire.unanswered == {} ==> regs == a.target)
    ensures |bodies| <= done <= b.wire.issued - a.wire.issued && b.target == Written(regs, pairs, done)
    ensures done == Messages(|pairs|) ==> b.target == WriteAll(regs, pairs)
  {
    var calls := BatchCalls(pairs)[..b.wire.issued - a.wire.issued];
    regs, done := StretchIsAtomic(Serve, start, a, b, calls, bodies);
    var after: RegFile := Sequel(Serve, regs, calls, done);
    assert b.target == after;
    SequelIsWritten(regs, pairs, calls, done);
    AllWritten(regs, pairs);
  }

  lemma AllWritten(regs: RegFile, pairs: seq<Pair>)
    ensures Written(regs, pairs, Messages(|pairs|)) == WriteAll(regs, pairs)
  {
    MessageBounds(Messages(|pairs|), |pairs|);
    assert pairs[..|pairs|] == pairs;
  }

  /** A register read that comes back returns what the register held when it was executed, and changes nothing. */
  lemma {:induction false} ReadIsAtomic(start: RegFile, a: RegisterWorld, b: RegisterWorld, addr: Addr,
                                        body: seq<Byte>) returns (regs: RegFile)
    requires Stretch(Serve, start, a, b, [body]) && b.wire.issued == a.wire.issued + 1
    requires Asked(b, a.wire.issued, [ReadReg(Be32(addr))])
    ensures RunsFrom(Serve, start, a, b, regs) && (a.wire.unanswered == {} ==> regs == a.target)
    ensures |body| == 4 && U32(body, 0) == Load(regs, addr) && b.target == regs
  {
    var calls, done := [ReadReg(Be32(addr))], 0;
    regs, done := StretchIsAtomic(Serve, start, a, b, calls, [body]);
    var after: RegFile := Sequel(Serve, regs, calls, 1);
    assert done == 1 && b.target == after;
    assert body == ReplyTo(Serve, regs, calls, 0);
    OneReadSequel(regs, addr);
    ReadHandlerReturnsContents(regs, addr);
  }

  lemma OneReadSequel(regs: RegFile, addr: Addr)
    ensures Sequel(Serve, regs, [ReadReg(Be32(addr))], 1) == regs
    ensures ReplyTo(Serve, regs, [ReadReg(Be32(addr))], 0) == HandleRegRead(regs, Be32(addr))
  {
  }
}
