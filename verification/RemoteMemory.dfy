/**
 * The memory path of `TargetMemory` over the lossy protocol of `Remote`: what an access that comes
 * back without error has read or written, whatever was lost, late or given up along the way, and what
 * memory may hold after one that did not.
 */
module RemoteMemory {
  import opened Prelude
  import opened Bits
  import opened Bytes
  import opened Store
  import opened WmiProtocol
  import opened TargetMemory
  import opened Remote

  /** A memory command, or any other, which leaves memory alone. */
  datatype Call = Access(payload: seq<Byte>) | Other(body: seq<Byte>)

  function Serve(mem: Memory, call: Call): (Memory, seq<Byte>) {
    match call
    case Access(payload) => Handle(mem, payload)
    case Other(body) => (mem, body)
  }

  type MemoryWorld = World<Memory, Call>

  /** What memory held when entry `i` of the log was executed. */
  function Before(start: Memory, log: seq<Entry<Call>>, i: nat): Memory
    requires i <= |log|
  {
    Replay(Serve, start, log[..i])
  }

  // ---- the driver's loop, over answers --------------------------------------------------------------------

  /** How many exchanges `n` words take. */
  function Chunks(n: nat): nat {
    (n + NDR_MEM_MAX_TUPLES - 1) / NDR_MEM_MAX_TUPLES
  }

  function First(j: nat): nat {
    NDR_MEM_MAX_TUPLES * j
  }

  function Until(j: nat, n: nat): nat {
    Min(First(j) + NDR_MEM_MAX_TUPLES, n)
  }

  lemma ChunkBounds(j: nat, n: nat)
    requires j < Chunks(n)
    ensures First(j) < Until(j, n) <= n
    ensures j + 1 < Chunks(n) ==> Until(j, n) == First(j + 1)
    ensures j + 1 == Chunks(n) ==> Until(j, n) == n
  {
  }

  /** The request for one chunk. */
  function ChunkCall(addr: Word, vals: seq<Word>, write: bool, j: nat): Call
    requires j < Chunks(|vals|)
  {
    ChunkBounds(j, |vals|);
    Access(Request(ChunkTuples(addr, vals, First(j), Until(j, |vals|)), write))
  }

  // ---- one chunk ------------------------------------------------------------------------------------------

  /** What an accepted answer says about the memory it was made from. */
  lemma AcceptedChunk(mem: Memory, addr: Word, vals: seq<Word>, write: bool, j: nat, values: seq<Word>)
    requires addr % 4 == 0 && j < Chunks(|vals|)
    requires ReplyValues(Serve(mem, ChunkCall(addr, vals, write, j)).1, Until(j, |vals|) - First(j)) == Ok(values)
    ensures First(j) < Until(j, |vals|) <= |vals|
    ensures values == Wanted(mem, addr, vals, write)[First(j)..Until(j, |vals|)]
    ensures Serve(mem, ChunkCall(addr, vals, write, j)).0 ==
            (if write then StoreTuples(mem, ChunkTuples(addr, vals, First(j), Until(j, |vals|))) else mem)
  {
    ChunkBounds(j, |vals|);
    ChunkOutcome(mem, addr, vals, First(j), Until(j, |vals|), write);
  }

  lemma BeforeNext(start: Memory, log: seq<Entry<Call>>, i: nat)
    requires i < |log|
    ensures Before(start, log, i + 1) == Serve(Before(start, log, i), log[i].request).0
  {
    assert log[..i + 1] == log[..i] + [log[i]];
    ReplaySnoc(Serve, start, log[..i], log[i]);
  }

  /**
   * A chunk whose answer the driver accepts has read the words that memory held when the target
   * executed it, or written all of its words then, at one point of the log.
   */
  lemma {:induction false} ChunkIsAtomic(start: Memory, worlds: seq<MemoryWorld>, moves: seq<Move<Call>>, k: nat,
                                         d: nat, addr: Word, vals: seq<Word>, write: bool, j: nat, values: seq<Word>)
      returns (i: nat)
    requires IsHistory(Serve, start, worlds, moves) && k < |worlds| && d < |worlds[k].wire.delivered|
    requires addr % 4 == 0 && j < Chunks(|vals|)
    requires var cmd := worlds[k].wire.delivered[d].cmd;
             1 <= cmd <= |worlds[k].requests| ==> worlds[k].requests[cmd - 1] == ChunkCall(addr, vals, write, j)
    requires ReplyValues(worlds[k].wire.delivered[d].body, Until(j, |vals|) - First(j)) == Ok(values)
    ensures var w := worlds[k];
            && i < |w.log| && w.log[i].cmd == w.wire.delivered[d].cmd
            && var mem := Before(start, w.log, i);
               && values == Wanted(mem, addr, vals, write)[First(j)..Until(j, |vals|)]
               && Before(start, w.log, i + 1) ==
                  (if write then StoreTuples(mem, ChunkTuples(addr, vals, First(j), Until(j, |vals|))) else mem)
  {
    var w := worlds[k];
    i := DeliveriesAreExecuted(Serve, start, worlds, moves, k, d);
    BeforeNext(start, w.log, i);
    AcceptedChunk(Before(start, w.log, i), addr, vals, write, j, values);
  }

  // ---- a whole access -------------------------------------------------------------------------------------

  function AccessCalls(addr: Word, vals: seq<Word>, write: bool): (calls: seq<Call>)
    ensures |calls| == Chunks(|vals|)
    ensures forall j | 0 <= j < |calls| :: calls[j] == ChunkCall(addr, vals, write, j)
  {
    seq<Call>(Chunks(|vals|), j requires 0 <= j < Chunks(|vals|) => ChunkCall(addr, vals, write, j))
  }

  /** Memory once the target has executed the first `n` commands of an access. */
  function AfterChunks(mem: Memory, addr: Word, vals: seq<Word>, write: bool, n: nat): Memory
    requires n <= Chunks(|vals|)
  {
    Sequel(Serve, mem, AccessCalls(addr, vals, write), n)
  }

  /** The flat memory with the first `j` chunks of an access done. */
  function Partly(mem: Memory, addr: Word, vals: seq<Word>, write: bool, j: nat): Memory {
    if write then FlatStore(mem, addr, vals[..Min(First(j), |vals|)]) else mem
  }

  /** One more chunk: accepted and done, or refused and without effect. */
  lemma PartlyStep(mem: Memory, addr: Word, vals: seq<Word>, write: bool, j: nat)
    requires addr % 4 == 0 && j < Chunks(|vals|)
    ensures First(j) < Until(j, |vals|) <= |vals|
    ensures var (m, body) := Serve(Partly(mem, addr, vals, write, j), ChunkCall(addr, vals, write, j));
            var n := Until(j, |vals|) - First(j);
            if ChunkOk(addr, First(j), Until(j, |vals|)) then
              && m == Partly(mem, addr, vals, write, j + 1)
              && ReplyValues(body, n) == Ok(Wanted(mem, addr, vals, write)[First(j)..Until(j, |vals|)])
            else m == Partly(mem, addr, vals, write, j) && ReplyValues(body, n) == Err(Refused(STATUS_RANGE))
  {
    ChunkBounds(j, |vals|);
    ChunkOutcome(Partly(mem, addr, vals, write, j), addr, vals, First(j), Until(j, |vals|), write);
    ChunkStores(mem, addr, vals, First(j), Until(j, |vals|));
  }

  /** The values the driver reads out of the answer to chunk `j`, or its complaint. */
  function ChunkValues(bodies: seq<seq<Byte>>, j: nat, n: nat): Result<seq<Word>, MemError>
    requires j < |bodies| <= Chunks(n)
  {
    ChunkBounds(j, n);
    ReplyValues(bodies[j], Until(j, n) - First(j))
  }

  predicate Accepted(bodies: seq<seq<Byte>>, n: nat)
    requires |bodies| <= Chunks(n)
  {
    forall j | 0 <= j < |bodies| :: ChunkValues(bodies, j, n).Ok?
  }

  /** These are the answers the access gets when it runs on memory `mem`. */
  predicate AnsweredBy(mem: Memory, calls: seq<Call>, bodies: seq<seq<Byte>>) {
    |bodies| <= |calls| && forall j | 0 <= j < |bodies| :: bodies[j] == ReplyTo(Serve, mem, calls, j)
  }

  predicate InWindows(addr: Word, n: nat, j: nat) {
    ChunkOk(addr, First(j), Until(j, n))
  }

  function Path(mem: Memory, addr: Word, vals: seq<Word>, write: bool, n: nat): (path: seq<Memory>)
    ensures |path| == n + 1
    ensures forall j | 0 <= j <= n :: path[j] == Partly(mem, addr, vals, write, j)
  {
    seq<Memory>(n + 1, j requires 0 <= j <= n => Partly(mem, addr, vals, write, j))
  }

  lemma PathStep(mem: Memory, addr: Word, vals: seq<Word>, write: bool, j: nat)
    requires addr % 4 == 0 && j < Chunks(|vals|) && InWindows(addr, |vals|, j)
    ensures Serve(Partly(mem, addr, vals, write, j), ChunkCall(addr, vals, write, j)).0
            == Partly(mem, addr, vals, write, j + 1)
  {
    PartlyStep(mem, addr, vals, write, j);
  }

  /** An access does its chunks one by one, up to the first one out of the windows. */
  lemma SequelIsPartly(mem: Memory, addr: Word, vals: seq<Word>, write: bool, n: nat)
    requires addr % 4 == 0 && n <= Chunks(|vals|)
    requires forall j | 0 <= j < n :: InWindows(addr, |vals|, j)
    ensures AfterChunks(mem, addr, vals, write, n) == Partly(mem, addr, vals, write, n)
  {
    var calls, path := AccessCalls(addr, vals, write), Path(mem, addr, vals, write, n);
    assert vals[..0] == [];
    forall j | 0 <= j < n
      ensures Serve(path[j], calls[j]).0 == path[j + 1]
    {
      PathStep(mem, addr, vals, write, j);
    }
    SequelFollows(Serve, calls, path, n);
  }

  /** Whatever memory holds, a chunk is accepted exactly when it lies in the firmware's windows. */
  lemma AcceptedExactly(mem: Memory, addr: Word, vals: seq<Word>, write: bool, j: nat)
    requires addr % 4 == 0 && j < Chunks(|vals|)
    ensures First(j) < Until(j, |vals|)
    ensures var r := ReplyValues(Serve(mem, ChunkCall(addr, vals, write, j)).1, Until(j, |vals|) - First(j));
            if InWindows(addr, |vals|, j) then r.Ok? else r == Err(Refused(STATUS_RANGE))
  {
    ChunkBounds(j, |vals|);
    ChunkOutcome(mem, addr, vals, First(j), Until(j, |vals|), write);
  }

  lemma AnswerTells(mem: Memory, addr: Word, vals: seq<Word>, write: bool, bodies: seq<seq<Byte>>, j: nat)
    requires addr % 4 == 0 && AnsweredBy(mem, AccessCalls(addr, vals, write), bodies) && j < |bodies|
    ensures if InWindows(addr, |vals|, j) then ChunkValues(bodies, j, |vals|).Ok?
            else ChunkValues(bodies, j, |vals|) == Err(Refused(STATUS_RANGE))
  {
    AcceptedExactly(AfterChunks(mem, addr, vals, write, j), addr, vals, write, j);
  }

  /** Answers that accept the chunks in the windows and refuse the others. */
  predicate Telling(bodies: seq<seq<Byte>>, addr: Word, n: nat)
    requires |bodies| <= Chunks(n)
  {
    forall j | 0 <= j < |bodies| ::
      if InWindows(addr, n, j) then ChunkValues(bodies, j, n).Ok?
      else ChunkValues(bodies, j, n) == Err(Refused(STATUS_RANGE))
  }

  lemma AnswersTell(mem: Memory, addr: Word, vals: seq<Word>, write: bool, bodies: seq<seq<Byte>>)
    requires addr % 4 == 0 && AnsweredBy(mem, AccessCalls(addr, vals, write), bodies)
    ensures Telling(bodies, addr, |vals|)
  {
    forall j | 0 <= j < |bodies|
      ensures if InWindows(addr, |vals|, j) then ChunkValues(bodies, j, |vals|).Ok?
              else ChunkValues(bodies, j, |vals|) == Err(Refused(STATUS_RANGE))
    {
      AnswerTells(mem, addr, vals, write, bodies, j);
    }
  }

  lemma PartValues(mem: Memory, addr: Word, vals: seq<Word>, write: bool, j: nat)
    requires addr % 4 == 0 && j < Chunks(|vals|) && InWindows(addr, |vals|, j)
    ensures First(j) < Until(j, |vals|) <= |vals|
    ensures ReplyValues(Serve(Partly(mem, addr, vals, write, j), ChunkCall(addr, vals, write, j)).1,
                        Until(j, |vals|) - First(j))
            == Ok(Wanted(mem, addr, vals, write)[First(j)..Until(j, |vals|)])
  {
    PartlyStep(mem, addr, vals, write, j);
  }

  /** The values of an accepted access are those the flat access wants. */
  lemma ValuesArePart(mem: Memory, addr: Word, vals: seq<Word>, write: bool, bodies: seq<seq<Byte>>, j: nat)
    requires addr % 4 == 0 && AnsweredBy(mem, AccessCalls(addr, vals, write), bodies) && j < |bodies|
    requires forall i | 0 <= i <= j :: InWindows(addr, |vals|, i)
    ensures First(j) < Until(j, |vals|) <= |vals|
    ensures ChunkValues(bodies, j, |vals|) == Ok(Wanted(mem, addr, vals, write)[First(j)..Until(j, |vals|)])
  {
    SequelIsPartly(mem, addr, vals, write, j);
    PartValues(mem, addr, vals, write, j);
  }

  // ---- what the driver returns ----------------------------------------------------------------------------

  /** The values of all the answers in order, or the first complaint about one. */
  function Collected(bodies: seq<seq<Byte>>, j: nat, n: nat): Result<seq<Word>, MemError>
    requires |bodies| == Chunks(n) && j <= |bodies|
    decreases |bodies| - j
  {
    if j == |bodies| then Ok([])
    else
      match ChunkValues(bodies, j, n)
      case Err(e) => Err(e)
      case Ok(values) =>
        match Collected(bodies, j + 1, n)
        case Err(e) => Err(e)
        case Ok(rest) => Ok(values + rest)
  }

  lemma {:induction false} CollectedNeedsAll(bodies: seq<seq<Byte>>, n: nat, j: nat, i: nat)
    requires |bodies| == Chunks(n) && j <= i < |bodies| && Collected(bodies, j, n).Ok?
    ensures ChunkValues(bodies, i, n).Ok?
    decreases i - j
  {
    if j < i {
      CollectedNeedsAll(bodies, n, j + 1, i);
    }
  }

  lemma {:induction false} CollectedIsWhole(bodies: seq<seq<Byte>>, n: nat, j: nat, all: seq<Word>)
    requires |bodies| == Chunks(n) && |all| == n && j <= |bodies|
    requires forall i | 0 <= i < |bodies| ::
               First(i) < Until(i, n) <= n && ChunkValues(bodies, i, n) == Ok(all[First(i)..Until(i, n)])
    ensures Collected(bodies, j, n) == Ok(all[Min(First(j), n)..])
    decreases |bodies| - j
  {
    if j < |bodies| {
      CollectedIsWhole(bodies, n, j + 1, all);
      assert Min(First(j), n) == First(j) && Min(First(j + 1), n) == Until(j, n);
      assert all[First(j)..] == all[First(j)..Until(j, n)] + all[Until(j, n)..];
    } else {
      assert Min(First(j), n) == n && all[n..] == [];
    }
  }

  /** An access whose answers are all accepted is the flat access. */
  lemma AccessIsFlat(mem: Memory, addr: Word, vals: seq<Word>, write: bool, bodies: seq<seq<Byte>>, out: seq<Word>)
    requires addr % 4 == 0 && AnsweredBy(mem, AccessCalls(addr, vals, write), bodies)
    requires |bodies| == Chunks(|vals|) && Collected(bodies, 0, |vals|) == Ok(out)
    ensures out == Wanted(mem, addr, vals, write)
    ensures AfterChunks(mem, addr, vals, write, |bodies|)
            == if write then FlatStore(mem, addr, vals) else mem
  {
    var n, all := |vals|, Wanted(mem, addr, vals, write);
    forall j | 0 <= j < |bodies|
      ensures ChunkValues(bodies, j, n).Ok?
    {
      CollectedNeedsAll(bodies, n, 0, j);
    }
    AnswersTell(mem, addr, vals, write, bodies);
    SequelIsPartly(mem, addr, vals, write, |bodies|);
    forall i | 0 <= i < |bodies|
      ensures First(i) < Until(i, n) <= n && ChunkValues(bodies, i, n) == Ok(all[First(i)..Until(i, n)])
    {
      ValuesArePart(mem, addr, vals, write, bodies, i);
    }
    CollectedIsWhole(bodies, n, 0, all);
    assert all[0..] == all && vals[..n] == vals;
  }

  // ---- in a history ---------------------------------------------------------------------------------------

  /**
   * An access that comes back without error is one atomic access to the flat memory, no matter what
   * was lost, late or raised in between: with no command waiting when it began, to memory as it was
   * then; with a target that executes in order, to memory as the commands given up before left it.
   */
  lemma {:induction false} AccessIsAtomic(start: Memory, a: MemoryWorld, b: MemoryWorld, addr: Word, vals: seq<Word>,
                                          write: bool, bodies: seq<seq<Byte>>, out: seq<Word>) returns (mem: Memory)
    requires Stretch(Serve, start, a, b, bodies) && b.wire.issued == a.wire.issued + |bodies|
    requires Asked(b, a.wire.issued, AccessCalls(addr, vals, write))
    requires addr % 4 == 0 && |bodies| == Chunks(|vals|) && Collected(bodies, 0, |vals|) == Ok(out)
    ensures RunsFrom(Serve, start, a, b, mem) && (a.wire.unanswered == {} ==> mem == a.target)
    ensures out == Wanted(mem, addr, vals, write)
    ensures b.target == if write then FlatStore(mem, addr, vals) else mem
  {
    var done;
    var calls := AccessCalls(addr, vals, write);
    mem, done := StretchIsAtomic(Serve, start, a, b, calls, bodies);
    assert done == |bodies|;
    var after: Memory := Sequel(Serve, mem, calls, |bodies|);
    assert b.target == after;
    AccessIsFlat(mem, addr, vals, write, bodies, out);
    assert after == if write then FlatStore(mem, addr, vals) else mem;
  }

  /**
   * An access that was refused has done exactly the chunks before the refused one, which is the first
   * that leaves the firmware's windows.
   */
  lemma {:induction false} RefusedIsAtomic(start: Memory, a: MemoryWorld, b: MemoryWorld, addr: Word, vals: seq<Word>,
                                           write: bool, bodies: seq<seq<Byte>>) returns (mem: Memory)
    requires Stretch(Serve, start, a, b, bodies) && b.wire.issued == a.wire.issued + |bodies|
    requires 0 < |bodies| <= Chunks(|vals|) && Asked(b, a.wire.issued, AccessCalls(addr, vals, write)[..|bodies|])
    requires addr % 4 == 0 && ChunkValues(bodies, |bodies| - 1, |vals|).Err?
    requires forall j | 0 <= j < |bodies| - 1 :: ChunkValues(bodies, j, |vals|).Ok?
    ensures RunsFrom(Serve, start, a, b, mem) && (a.wire.unanswered == {} ==> mem == a.target)
    ensures ChunkValues(bodies, |bodies| - 1, |vals|) == Err(Refused(STATUS_RANGE))
    ensures !InWindows(addr, |vals|, |bodies| - 1)
    ensures forall j | 0 <= j < |bodies| - 1 :: InWindows(addr, |vals|, j)
    ensures b.target == Partly(mem, addr, vals, write, |bodies| - 1)
  {
    var calls, k := AccessCalls(addr, vals, write), |bodies|;
    var done;
    mem, done := StretchIsAtomic(Serve, start, a, b, calls[..k], bodies);
    assert done == k;
    var after: Memory := Sequel(Serve, mem, calls[..k], k);
    assert b.target == after;
    PrefixAnswers(mem, calls, bodies, k);
    AnswersTell(mem, addr, vals, write, bodies);
    RefusedIsFlat(mem, addr, vals, write, bodies);
    SequelOfPrefix(mem, calls, k, k);
    assert after == Partly(mem, addr, vals, write, k - 1);
  }

  lemma RefusedIsFlat(mem: Memory, addr: Word, vals: seq<Word>, write: bool, bodies: seq<seq<Byte>>)
    requires addr % 4 == 0 && 0 < |bodies| <= Chunks(|vals|) && Telling(bodies, addr, |vals|)
    requires ChunkValues(bodies, |bodies| - 1, |vals|).Err?
    requires forall j | 0 <= j < |bodies| - 1 :: ChunkValues(bodies, j, |vals|).Ok?
    ensures ChunkValues(bodies, |bodies| - 1, |vals|) == Err(Refused(STATUS_RANGE))
    ensures !InWindows(addr, |vals|, |bodies| - 1)
    ensures forall j | 0 <= j < |bodies| - 1 :: InWindows(addr, |vals|, j)
    ensures AfterChunks(mem, addr, vals, write, |bodies|)
            == Partly(mem, addr, vals, write, |bodies| - 1)
  {
    NextChunk(mem, addr, vals, write, |bodies| - 1);
  }

  /**
   * An access whose last command has not come back has done its first chunks whole, and of the chunk
   * of that command all or nothing.
   */
  lemma {:induction false} AbandonedIsAllOrNothing(start: Memory, a: MemoryWorld, b: MemoryWorld, addr: Word,
                                                   vals: seq<Word>, write: bool, bodies: seq<seq<Byte>>)
      returns (mem: Memory, kept: nat)
    requires Stretch(Serve, start, a, b, bodies) && b.wire.issued == a.wire.issued + |bodies| + 1
    requires |bodies| < Chunks(|vals|) && Asked(b, a.wire.issued, AccessCalls(addr, vals, write)[..|bodies| + 1])
    requires addr % 4 == 0 && Accepted(bodies, |vals|)
    ensures RunsFrom(Serve, start, a, b, mem) && (a.wire.unanswered == {} ==> mem == a.target)
    ensures |bodies| <= kept <= |bodies| + 1 && b.target == Partly(mem, addr, vals, write, kept)
  {
    var calls, k := AccessCalls(addr, vals, write), |bodies|;
    var done;
    mem, done := StretchIsAtomic(Serve, start, a, b, calls[..k + 1], bodies);
    assert done == k || done == k + 1;
    var after: Memory := Sequel(Serve, mem, calls[..k + 1], done);
    assert b.target == after;
    PrefixAnswers(mem, calls, bodies, k + 1);
    SequelOfPrefix(mem, calls, k + 1, done);
    AnswersTell(mem, addr, vals, write, bodies);
    kept := AbandonedIsFlat(mem, addr, vals, write, bodies, done);
    assert after == Partly(mem, addr, vals, write, kept);
  }

  lemma AbandonedIsFlat(mem: Memory, addr: Word, vals: seq<Word>, write: bool, bodies: seq<seq<Byte>>, done: nat)
    returns (kept: nat)
    requires addr % 4 == 0 && |bodies| < Chunks(|vals|) && Telling(bodies, addr, |vals|)
    requires Accepted(bodies, |vals|) && |bodies| <= done <= |bodies| + 1
    ensures |bodies| <= kept <= |bodies| + 1
    ensures AfterChunks(mem, addr, vals, write, done) == Partly(mem, addr, vals, write, kept)
  {
    forall j | 0 <= j < |bodies|
      ensures InWindows(addr, |vals|, j)
    {
      assert ChunkValues(bodies, j, |vals|).Ok?;
    }
    kept := if done > |bodies| && InWindows(addr, |vals|, |bodies|) then done else |bodies|;
    NextChunk(mem, addr, vals, write, |bodies|);
  }

  /** One chunk on from chunks in the windows: done, or refused and without effect. */
  lemma NextChunk(mem: Memory, addr: Word, vals: seq<Word>, write: bool, k: nat)
    requires addr % 4 == 0 && k < Chunks(|vals|)
    requires forall j | 0 <= j < k :: InWindows(addr, |vals|, j)
    ensures AfterChunks(mem, addr, vals, write, k) == Partly(mem, addr, vals, write, k)
    ensures AfterChunks(mem, addr, vals, write, k + 1)
            == Partly(mem, addr, vals, write, if InWindows(addr, |vals|, k) then k + 1 else k)
  {
    SequelIsPartly(mem, addr, vals, write, k);
    SequelStep(mem, addr, vals, write, k);
    PartlyStep(mem, addr, vals, write, k);
  }

  lemma SequelStep(mem: Memory, addr: Word, vals: seq<Word>, write: bool, k: nat)
    requires k < Chunks(|vals|)
    ensures AfterChunks(mem, addr, vals, write, k + 1)
            == Serve(AfterChunks(mem, addr, vals, write, k), ChunkCall(addr, vals, write, k)).0
  {
  }

  lemma {:induction false} SequelOfPrefix(mem: Memory, calls: seq<Call>, k: nat, n: nat)
    requires n <= k <= |calls|
    ensures Sequel(Serve, mem, calls[..k], n) == Sequel(Serve, mem, calls, n)
  {
    if n > 0 {
      SequelOfPrefix(mem, calls, k, n - 1);
    }
  }

  lemma PrefixAnswers(mem: Memory, calls: seq<Call>, bodies: seq<seq<Byte>>, k: nat)
    requires |bodies| <= k <= |calls|
    requires forall j | 0 <= j < |bodies| :: bodies[j] == ReplyTo(Serve, mem, calls[..k], j)
    ensures AnsweredBy(mem, calls, bodies)
  {
    forall j | 0 <= j < |bodies|
      ensures bodies[j] == ReplyTo(Serve, mem, calls, j)
    {
      SequelOfPrefix(mem, calls, k, j);
    }
  }

  // ---- reading back ---------------------------------------------------------------------------------------

  /** From world `k` to world `l` of a history the host did this access, and it came back without error. */
  ghost predicate Completed(start: Memory, worlds: seq<MemoryWorld>, k: nat, l: nat, addr: Word, vals: seq<Word>,
                            write: bool, bodies: seq<seq<Byte>>, out: seq<Word>)
  {
    && k <= l < |worlds|
    && AllDelivered(worlds[l], worlds[k].wire.issued, bodies)
    && worlds[l].wire.issued == worlds[k].wire.issued + |bodies|
    && Asked(worlds[l], worlds[k].wire.issued, AccessCalls(addr, vals, write))
    && addr % 4 == 0 && |bodies| == Chunks(|vals|) && Collected(bodies, 0, |vals|) == Ok(out)
  }

  /**
   * Words written by an access that completed are read by the next one that completes, whatever was
   * lost or late in either, unless an older command is still waiting that the target may yet execute
   * out of order.
   */
  lemma {:induction false} WrittenWordsReadBack(start: Memory, worlds: seq<MemoryWorld>, moves: seq<Move<Call>>, k: nat,
                                                l: nat, m: nat, addr: Word, vals: seq<Word>, blank: seq<Word>,
                                                written: seq<seq<Byte>>, echo: seq<Word>, read: seq<seq<Byte>>,
                                                out: seq<Word>)
    requires IsHistory(Serve, start, worlds, moves)
    requires Completed(start, worlds, k, l, addr, vals, true, written, echo)
    requires Completed(start, worlds, l, m, addr, blank, false, read, out)
    requires |blank| == |vals| && 4 * |vals| <= TWO_32
    requires worlds[k].wire.unanswered == {} || InOrder(worlds[m].log)
    ensures echo == vals && out == vals
  {
    var a, b, c := worlds[k], worlds[l], worlds[m];
    LaterExtends(Serve, worlds, moves, l, m);
    InOrderBefore(b, c);
    StretchOfHistory(Serve, start, worlds, moves, k, l, written);
    var mem := AccessIsAtomic(start, a, b, addr, vals, true, written, echo);
    if a.wire.unanswered == {} {
      QuietAgain(Serve, start, a, b, written);
    }
    StretchOfHistory(Serve, start, worlds, moves, l, m, read);
    var before := AccessIsAtomic(start, b, c, addr, blank, false, read, out);
    if written != [] {
      if a.wire.unanswered != {} {
        var n := |written| - 1;
        assert IsDelivered(b, a.wire.issued + 1 + n, written[n]);
        NothingSlipsIn(Serve, start, b, c, written[n], before);
      }
      assert before == FlatStore(mem, addr, vals);
      StoreThenLoad(mem, addr, vals);
    }
  }

  lemma InOrderBefore(b: MemoryWorld, c: MemoryWorld)
    requires Extends(b, c)
    ensures InOrder(c.log) ==> InOrder(b.log)
  {
    assert forall i | 0 <= i < |b.log| :: b.log[i] == c.log[i];
  }

  // ---- why the order matters ------------------------------------------------------------------------------

  const CMD_ACCESS_MEMORY: nat := 0x0002

  function OneWordCall(v: Word): Call {
    ChunkCall(RAM_LO, [v], true, 0)
  }

  lemma OneWordServed(mem: Memory, v: Word)
    ensures Serve(mem, OneWordCall(v)).0 == mem[RAM_LO := v]
    ensures ReplyValues(Serve(mem, OneWordCall(v)).1, 1) == Ok([v])
  {
    PartlyStep(mem, RAM_LO, [v], true, 0);
    assert [v][..0] == [] && [v][..1] == [v] && [v][0..1] == [v];
  }

  lemma OneWordCollected(body: seq<Byte>, v: Word)
    requires ReplyValues(body, 1) == Ok([v])
    ensures Collected([body], 0, 1) == Ok([v])
  {
    assert Collected([body], 1, 1) == Ok([]);
    assert ChunkValues([body], 0, 1) == Ok([v]);
    assert [v] + [] == [v];
  }

  lemma OneWordAsked(v: Word)
    ensures AccessCalls(RAM_LO, [v], true) == [OneWordCall(v)]
  {
  }

  lemma OneWordCompleted(worlds: seq<MemoryWorld>, v: Word, body: seq<Byte>)
    requires |worlds| == 7 && worlds[2].wire.issued == 1 && worlds[5].wire.issued == 2
    requires |worlds[5].requests| == 2 && worlds[5].requests[1] == OneWordCall(v)
    requires IsDelivered(worlds[5], 2, body) && ReplyValues(body, 1) == Ok([v])
    ensures Completed(map[], worlds, 2, 5, RAM_LO, [v], true, [body], [v])
  {
    OneWordCollected(body, v);
    OneWordAsked(v);
  }

  /**
   * Without an order of execution a completed write can be undone: an older write of the same word, long
   * given up, is executed after it.
   */
  lemma LateWriteOvertakes() returns (worlds: seq<MemoryWorld>, moves: seq<Move<Call>>, body: seq<Byte>)
    ensures IsHistory(Serve, map[], worlds, moves) && |worlds| == 7
    ensures Completed(map[], worlds, 2, 5, RAM_LO, [2], true, [body], [2])
    ensures Load(worlds[5].target, RAM_LO) == 2 && Load(worlds[6].target, RAM_LO) == 1
    ensures worlds[6].wire.phase.Idle? && worlds[6].wire.issued == 2
  {
    var older, newer := OneWordCall(1), OneWordCall(2);
    body := Serve(map[], newer).1;
    var p := AnswerFrame(0, CMD_ACCESS_MEMORY, 2, body, None);
    AnswerFrameIsWellFormed(0, CMD_ACCESS_MEMORY, 2, body, None);
    worlds, moves := GivenUpRunsLate(Serve, map[], older, newer, p);
    OneWordServed(map[], 2);
    OneWordServed(worlds[5].target, 1);
    OneWordCompleted(worlds, 2, body);
  }
}
