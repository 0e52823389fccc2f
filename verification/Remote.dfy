/**
 * What commands do.  Behind the protocol of `WmiProtocol` stands a target whose state each command
 * it executes takes to a new one, with an answer.  Commands and answers may be lost, answers may be
 * late, and a command the host has given up may still be executed at any later time.
 */
module Remote {
  import opened Prelude
  import opened Wmi
  import opened WmiProtocol

  /** How the target executes a request: its next state, and the body of its answer. */
  type Handler<!S, !R> = (S, R) -> (S, seq<Byte>)

  /** A command the target has executed. */
  datatype Entry<R> = Entry(cmd: nat, request: R)

  datatype World<S, R> = World(
    wire: State,
    target: S,
    requests: seq<R>,      // what each command asks for, in the order they were issued
    log: seq<Entry<R>>)    // the commands executed so far, in the order of their execution

  datatype Move<R> =
    | Issues(request: R)
    | Executes(cmd: nat, answer: Option<InFlight>)   // the answer goes out, or is lost on the way
    | Raises(event: InFlight)
    | Reads
    | GivesUp

  /** The protocol step that goes with a move. */
  function WireStep<R>(m: Move<R>): Step {
    match m
    case Issues(_) => Send
    case Executes(cmd, answer) => if answer.Some? then TargetAnswers(answer.value) else AnswerLost(cmd)
    case Raises(event) => TargetEvent(event)
    case Reads => HostReads
    case GivesUp => HostTimesOut
  }

  predicate Possible<S, R>(h: Handler<S, R>, w: World<S, R>, m: Move<R>) {
    && Enabled(w.wire, WireStep(m))
    && (m.Executes? ==>
          && m.cmd in w.wire.unanswered && 1 <= m.cmd <= |w.requests|
          && (m.answer.Some? ==> m.answer.value.origin == Answer(m.cmd, h(w.target, w.requests[m.cmd - 1]).1)))
  }

  function After<S, R>(h: Handler<S, R>, w: World<S, R>, m: Move<R>): World<S, R>
    requires Possible(h, w, m)
  {
    var wire := Next(w.wire, WireStep(m));
    match m
    case Issues(request) => w.(wire := wire, requests := w.requests + [request])
    case Executes(cmd, _) =>
      var request := w.requests[cmd - 1];
      w.(wire := wire, target := h(w.target, request).0, log := w.log + [Entry(cmd, request)])
    case Raises(_) => w.(wire := wire)
    case Reads => w.(wire := wire)
    case GivesUp => w.(wire := wire)
  }

  function Opening<S, R>(start: S): World<S, R> {
    World(INIT, start, [], [])
  }

  /** A stretch of events, from any world on. */
  ghost predicate Follows<S, R>(h: Handler<S, R>, worlds: seq<World<S, R>>, moves: seq<Move<R>>) {
    && |worlds| == |moves| + 1
    && forall i | 0 <= i < |moves| :: Possible(h, worlds[i], moves[i]) && worlds[i + 1] == After(h, worlds[i], moves[i])
  }

  ghost predicate IsHistory<S, R>(h: Handler<S, R>, start: S, worlds: seq<World<S, R>>, moves: seq<Move<R>>) {
    Follows(h, worlds, moves) && worlds[0] == Opening(start)
  }

  // ---- what the log says ------------------------------------------------------------------------------------

  /** The target's state after executing a log. */
  function Replay<S, R>(h: Handler<S, R>, start: S, log: seq<Entry<R>>): S {
    if log == [] then start else h(Replay(h, start, log[..|log| - 1]), log[|log| - 1].request).0
  }

  /** Entry `i` of the log is command `cmd`, and `body` is what the target made of it. */
  predicate ExecutedAt<S, R>(h: Handler<S, R>, start: S, log: seq<Entry<R>>, i: nat, cmd: nat, body: seq<Byte>) {
    i < |log| && log[i].cmd == cmd && h(Replay(h, start, log[..i]), log[i].request).1 == body
  }

  ghost predicate Executed<S, R>(h: Handler<S, R>, start: S, log: seq<Entry<R>>, cmd: nat, body: seq<Byte>) {
    exists i: nat :: ExecutedAt(h, start, log, i, cmd, body)
  }

  lemma ReplaySnoc<S, R>(h: Handler<S, R>, start: S, log: seq<Entry<R>>, e: Entry<R>)
    ensures Replay(h, start, log + [e]) == h(Replay(h, start, log), e.request).0
  {
    assert (log + [e])[..|log|] == log;
  }

  /** What was executed stays executed. */
  lemma ExecutedGrows<S, R>(h: Handler<S, R>, start: S, log: seq<Entry<R>>, e: Entry<R>, cmd: nat, body: seq<Byte>)
    requires Executed(h, start, log, cmd, body)
    ensures Executed(h, start, log + [e], cmd, body)
  {
    var i: nat :| ExecutedAt(h, start, log, i, cmd, body);
    assert (log + [e])[..i] == log[..i];
    assert ExecutedAt(h, start, log + [e], i, cmd, body);
  }

  lemma ExecutedLast<S, R>(h: Handler<S, R>, start: S, log: seq<Entry<R>>, e: Entry<R>)
    ensures Executed(h, start, log + [e], e.cmd, h(Replay(h, start, log), e.request).1)
  {
    assert (log + [e])[..|log|] == log;
    assert ExecutedAt(h, start, log + [e], |log|, e.cmd, h(Replay(h, start, log), e.request).1);
  }

  // ---- safety ------------------------------------------------------------------------------------------------

  /** Every entry is an issued command with its request, executed once and not waiting to be. */
  ghost predicate Booked<S, R>(w: World<S, R>) {
    && |w.requests| == w.wire.issued
    && (w.wire.phase.Waiting? ==> w.wire.issued > 0)
    && (forall c | c in w.wire.unanswered :: 1 <= c <= w.wire.issued)
    && (forall i | 0 <= i < |w.log| :: EntryBooked(w, w.log[i]))
    && (forall i, j | 0 <= i < j < |w.log| :: w.log[i].cmd != w.log[j].cmd)
  }

  ghost predicate EntryBooked<S, R>(w: World<S, R>, e: Entry<R>) {
    1 <= e.cmd <= |w.requests| && e.request == w.requests[e.cmd - 1] && e.cmd !in w.wire.unanswered
  }

  /** Answers, on their way or delivered, are what the target made of their commands. */
  ghost predicate AnswersExecuted<S, R>(h: Handler<S, R>, start: S, w: World<S, R>) {
    && (forall i | 0 <= i < |w.wire.pipe| && w.wire.pipe[i].origin.Answer? ::
          Executed(h, start, w.log, w.wire.pipe[i].origin.cmd, w.wire.pipe[i].origin.body))
    && (forall i | 0 <= i < |w.wire.delivered| ::
          Executed(h, start, w.log, w.wire.delivered[i].cmd, w.wire.delivered[i].body))
  }

  /** A delivered command was executed before every command that was issued after it. */
  predicate DeliveredFirst<S, R>(w: World<S, R>) {
    forall d, i, j | 0 <= d < |w.wire.delivered| && 0 <= i < |w.log| && 0 <= j < |w.log| ::
      w.log[i].cmd == w.wire.delivered[d].cmd < w.log[j].cmd ==> i < j
  }

  /** Deliveries are of commands that were issued. */
  predicate DeliveriesIssued<S, R>(w: World<S, R>) {
    forall d | 0 <= d < |w.wire.delivered| :: 1 <= w.wire.delivered[d].cmd <= w.wire.issued
  }

  ghost predicate Sound<S, R>(h: Handler<S, R>, start: S, w: World<S, R>) {
    && Invariant(w.wire)
    && Booked(w)
    && w.target == Replay(h, start, w.log)
    && AnswersExecuted(h, start, w)
    && DeliveredFirst(w)
    && DeliveriesIssued(w)
  }

  lemma BookedStep<S, R>(h: Handler<S, R>, w: World<S, R>, m: Move<R>)
    requires Booked(w) && Possible(h, w, m)
    ensures Booked(After(h, w, m))
  {
    var t := After(h, w, m);
    forall i | 0 <= i < |t.log|
      ensures EntryBooked(t, t.log[i])
    {
      if i < |w.log| {
        assert EntryBooked(w, w.log[i]);
      }
    }
  }

  lemma ExecutionStep<S, R>(h: Handler<S, R>, start: S, w: World<S, R>, m: Move<R>)
    requires w.target == Replay(h, start, w.log) && Possible(h, w, m)
    ensures After(h, w, m).target == Replay(h, start, After(h, w, m).log)
  {
    if m.Executes? {
      ReplaySnoc(h, start, w.log, Entry(m.cmd, w.requests[m.cmd - 1]));
    }
  }

  /** Executing a command keeps the answers that were there. */
  lemma AnswersKept<S, R>(h: Handler<S, R>, start: S, w: World<S, R>, m: Move<R>, cmd: nat, body: seq<Byte>)
    requires Possible(h, w, m) && Executed(h, start, w.log, cmd, body)
    ensures Executed(h, start, After(h, w, m).log, cmd, body)
  {
    if m.Executes? {
      ExecutedGrows(h, start, w.log, Entry(m.cmd, w.requests[m.cmd - 1]), cmd, body);
    }
  }

  lemma PipeStep<S, R>(h: Handler<S, R>, start: S, w: World<S, R>, m: Move<R>, i: nat)
    requires Sound(h, start, w) && Possible(h, w, m)
    requires i < |After(h, w, m).wire.pipe| && After(h, w, m).wire.pipe[i].origin.Answer?
    ensures var o := After(h, w, m).wire.pipe[i].origin;
            Executed(h, start, After(h, w, m).log, o.cmd, o.body)
  {
    var p := After(h, w, m).wire.pipe[i];
    var at := if m.Reads? then i + 1 else i;
    if at < |w.wire.pipe| {
      assert w.wire.pipe[at] == p;
      AnswersKept(h, start, w, m, p.origin.cmd, p.origin.body);
    } else {
      assert m.Executes?;
      ExecutedLast(h, start, w.log, Entry(m.cmd, w.requests[m.cmd - 1]));
    }
  }

  lemma DeliveredStep<S, R>(h: Handler<S, R>, start: S, w: World<S, R>, m: Move<R>, d: nat)
    requires Sound(h, start, w) && Possible(h, w, m) && Invariant(After(h, w, m).wire)
    requires d < |After(h, w, m).wire.delivered|
    ensures var got := After(h, w, m).wire.delivered[d];
            Executed(h, start, After(h, w, m).log, got.cmd, got.body)
  {
    var got := After(h, w, m).wire.delivered[d];
    if d < |w.wire.delivered| {
      assert w.wire.delivered[d] == got;
      AnswersKept(h, start, w, m, got.cmd, got.body);
    } else {
      assert m.Reads? && Genuine(got);
      assert got.origin == w.wire.pipe[0].origin;
    }
  }

  lemma DeliveredWasExecuted<S, R>(h: Handler<S, R>, start: S, w: World<S, R>, d: nat) returns (i: nat)
    requires AnswersExecuted(h, start, w) && d < |w.wire.delivered|
    ensures ExecutedAt(h, start, w.log, i, w.wire.delivered[d].cmd, w.wire.delivered[d].body)
  {
    i :| ExecutedAt(h, start, w.log, i, w.wire.delivered[d].cmd, w.wire.delivered[d].body);
  }

  /** The next execution is of a command that was not executed, and so not delivered, before. */
  lemma NewEntryIsUndelivered<S, R>(h: Handler<S, R>, start: S, w: World<S, R>, cmd: nat, d: nat)
    requires Booked(w) && AnswersExecuted(h, start, w) && cmd in w.wire.unanswered && d < |w.wire.delivered|
    ensures w.wire.delivered[d].cmd != cmd
  {
    var i := DeliveredWasExecuted(h, start, w, d);
    assert EntryBooked(w, w.log[i]);
  }

  lemma DeliveriesStep<S, R>(h: Handler<S, R>, w: World<S, R>, m: Move<R>)
    requires DeliveriesIssued(w) && Possible(h, w, m) && (m.Reads? ==> w.wire.issued > 0)
    ensures DeliveriesIssued(After(h, w, m))
  {
  }

  lemma EntryIsIssued<S, R>(w: World<S, R>, j: nat)
    requires Booked(w) && j < |w.log|
    ensures 1 <= w.log[j].cmd <= w.wire.issued
  {
    assert EntryBooked(w, w.log[j]);
  }

  lemma OrderAt<S, R>(h: Handler<S, R>, start: S, w: World<S, R>, m: Move<R>, d: nat, i: nat, j: nat)
    requires Sound(h, start, w) && Possible(h, w, m)
    requires var t := After(h, w, m);
             && d < |t.wire.delivered| && i < |t.log| && j < |t.log|
             && t.log[i].cmd == t.wire.delivered[d].cmd < t.log[j].cmd
    ensures i < j
  {
    if m.Executes? {
      NewEntryIsUndelivered(h, start, w, m.cmd, d);
    } else {
      EntryIsIssued(w, j);
    }
  }

  lemma OrderStep<S, R>(h: Handler<S, R>, start: S, w: World<S, R>, m: Move<R>)
    requires Sound(h, start, w) && Possible(h, w, m)
    ensures DeliveredFirst(After(h, w, m))
  {
    var t := After(h, w, m);
    forall d, i, j | 0 <= d < |t.wire.delivered| && 0 <= i < |t.log| && 0 <= j < |t.log|
      ensures t.log[i].cmd == t.wire.delivered[d].cmd < t.log[j].cmd ==> i < j
    {
      if t.log[i].cmd == t.wire.delivered[d].cmd < t.log[j].cmd {
        OrderAt(h, start, w, m, d, i, j);
      }
    }
  }

  lemma SoundStep<S, R>(h: Handler<S, R>, start: S, w: World<S, R>, m: Move<R>)
    requires Sound(h, start, w) && Possible(h, w, m)
    ensures Sound(h, start, After(h, w, m))
  {
    var t := After(h, w, m);
    InvariantStep(w.wire, WireStep(m));
    BookedStep(h, w, m);
    ExecutionStep(h, start, w, m);
    OrderStep(h, start, w, m);
    DeliveriesStep(h, w, m);
    forall i | 0 <= i < |t.wire.pipe| && t.wire.pipe[i].origin.Answer?
      ensures Executed(h, start, t.log, t.wire.pipe[i].origin.cmd, t.wire.pipe[i].origin.body)
    {
      PipeStep(h, start, w, m, i);
    }
    forall d | 0 <= d < |t.wire.delivered|
      ensures Executed(h, start, t.log, t.wire.delivered[d].cmd, t.wire.delivered[d].body)
    {
      DeliveredStep(h, start, w, m, d);
    }
  }

  lemma {:induction false} SoundHistory<S, R>(h: Handler<S, R>, start: S, worlds: seq<World<S, R>>,
                                              moves: seq<Move<R>>, k: nat)
    requires IsHistory(h, start, worlds, moves) && k < |worlds|
    ensures Sound(h, start, worlds[k])
  {
    if k > 0 {
      SoundHistory(h, start, worlds, moves, k - 1);
      SoundStep(h, start, worlds[k - 1], moves[k - 1]);
    }
  }

  /** Every delivered command was executed exactly once, and what was delivered is what the target made of it. */
  lemma {:induction false} DeliveriesAreExecuted<S, R>(h: Handler<S, R>, start: S, worlds: seq<World<S, R>>,
                                                       moves: seq<Move<R>>, k: nat, d: nat) returns (i: nat)
    requires IsHistory(h, start, worlds, moves) && k < |worlds| && d < |worlds[k].wire.delivered|
    ensures var w := worlds[k];
            var got := w.wire.delivered[d];
            && ExecutedAt(h, start, w.log, i, got.cmd, got.body)
            && 1 <= got.cmd <= |w.requests| && w.log[i].request == w.requests[got.cmd - 1]
            && (forall j | 0 <= j < |w.log| && w.log[j].cmd == got.cmd :: j == i)
            && (forall j | 0 <= j < |w.log| && w.log[j].cmd > got.cmd :: i < j)
  {
    var w := worlds[k];
    SoundHistory(h, start, worlds, moves, k);
    i := DeliveredWasExecuted(h, start, w, d);
    assert EntryBooked(w, w.log[i]);
  }

  // ---- stretches of a history ---------------------------------------------------------------------------------

  /** What may have happened from one world to a later one. */
  ghost predicate Extends<S, R>(a: World<S, R>, b: World<S, R>) {
    && a.log <= b.log && a.requests <= b.requests && a.wire.delivered <= b.wire.delivered
    && a.wire.issued <= b.wire.issued
    && (forall j | |a.log| <= j < |b.log| :: b.log[j].cmd in a.wire.unanswered || b.log[j].cmd > a.wire.issued)
    && (forall c | c in b.wire.unanswered :: c in a.wire.unanswered || c > a.wire.issued)
  }

  lemma ExtendsStep<S, R>(h: Handler<S, R>, a: World<S, R>, b: World<S, R>, m: Move<R>)
    requires Extends(a, b) && Possible(h, b, m)
    ensures Extends(a, After(h, b, m))
  {
  }

  lemma {:induction false} LaterExtends<S, R>(h: Handler<S, R>, worlds: seq<World<S, R>>, moves: seq<Move<R>>, k: nat,
                                              l: nat)
    requires Follows(h, worlds, moves) && k <= l < |worlds|
    ensures Extends(worlds[k], worlds[l])
    decreases l
  {
    if k < l {
      LaterExtends(h, worlds, moves, k, l - 1);
      ExtendsStep(h, worlds[k], worlds[l - 1], moves[l - 1]);
    }
  }

  /** The target executes commands in the order of their numbers, as one that takes them from a queue does. */
  predicate InOrder<R>(log: seq<Entry<R>>) {
    forall i, j | 0 <= i < j < |log| :: log[i].cmd < log[j].cmd
  }

  /** Commands `c + 1` to `c + m` came back without error. */
  predicate AllDelivered<S, R>(w: World<S, R>, c: nat, bodies: seq<seq<Byte>>) {
    forall j | 0 <= j < |bodies| :: IsDelivered(w, c + 1 + j, bodies[j])
  }

  predicate IsDelivered<S, R>(w: World<S, R>, cmd: nat, body: seq<Byte>) {
    exists d :: 0 <= d < |w.wire.delivered| && w.wire.delivered[d].cmd == cmd && w.wire.delivered[d].body == body
  }

  predicate Rising(cmds: seq<nat>) {
    forall i, k | 0 <= i < k < |cmds| :: cmds[i] < cmds[k]
  }

  lemma {:induction false} AtLeast(cmds: seq<nat>, c: nat, q: nat)
    requires Rising(cmds) && forall i | 0 <= i < |cmds| :: c < cmds[i]
    requires q < |cmds|
    ensures cmds[q] >= c + 1 + q
  {
    if q > 0 {
      AtLeast(cmds, c, q - 1);
    }
  }

  /** Rising numbers above `c` that include the next `m` begin with them. */
  lemma {:induction false} RisingNumbers(cmds: seq<nat>, c: nat, m: nat, j: nat)
    requires Rising(cmds) && forall i | 0 <= i < |cmds| :: c < cmds[i]
    requires forall n | c < n <= c + m :: n in cmds
    requires j < m
    ensures j < |cmds| && cmds[j] == c + 1 + j
  {
    assert c + 1 + j in cmds;
    var q :| 0 <= q < |cmds| && cmds[q] == c + 1 + j;
    AtLeast(cmds, c, q);
    if j > 0 {
      RisingNumbers(cmds, c, m, j - 1);
    }
  }

  lemma OwnNumbers(own: seq<nat>, c: nat, m: nat, top: nat)
    requires Rising(own) && forall i | 0 <= i < |own| :: c < own[i] <= top
    requires forall n | c < n <= c + m :: n in own
    requires c + m <= top <= c + m + 1
    ensures m <= |own| <= top - c
    ensures forall j | 0 <= j < |own| :: own[j] == c + 1 + j
  {
    if m > 0 {
      RisingNumbers(own, c, m, m - 1);
    }
    if own != [] {
      AtLeast(own, c, |own| - 1);
    }
    forall j | 0 <= j < |own|
      ensures own[j] == c + 1 + j
    {
      AtLeast(own, c, j);
      if j < m {
        RisingNumbers(own, c, m, j);
      }
    }
  }

  /**
   * From world `a` to a later world `b` the host has issued as many commands as there are bodies, or
   * one more, and got just those bodies back.  When it began no command was waiting to be executed,
   * or else the target executes in order.
   */
  ghost predicate Stretch<S, R>(h: Handler<S, R>, start: S, a: World<S, R>, b: World<S, R>, bodies: seq<seq<Byte>>) {
    && Sound(h, start, a) && Sound(h, start, b) && Extends(a, b)
    && AllDelivered(b, a.wire.issued, bodies)
    && a.wire.issued + |bodies| <= b.wire.issued <= a.wire.issued + |bodies| + 1
    && (a.wire.unanswered == {} || InOrder(b.log))
  }

  lemma DeliveredIsLogged<S, R>(h: Handler<S, R>, start: S, w: World<S, R>, cmd: nat, body: seq<Byte>) returns (i: nat)
    requires Sound(h, start, w) && IsDelivered(w, cmd, body)
    ensures ExecutedAt(h, start, w.log, i, cmd, body)
  {
    var d :| 0 <= d < |w.wire.delivered| && w.wire.delivered[d].cmd == cmd && w.wire.delivered[d].body == body;
    i := DeliveredWasExecuted(h, start, w, d);
  }

  lemma DeliveredIsFirst<S, R>(w: World<S, R>, cmd: nat, body: seq<Byte>, i: nat, j: nat)
    requires DeliveredFirst(w) && IsDelivered(w, cmd, body)
    requires i < |w.log| && j < |w.log| && w.log[i].cmd == cmd < w.log[j].cmd
    ensures i < j
  {
    var d :| 0 <= d < |w.wire.delivered| && w.wire.delivered[d].cmd == cmd && w.wire.delivered[d].body == body;
  }

  /** Two executed commands of a stretch were executed in the order they were issued in. */
  lemma OwnRise<S, R>(h: Handler<S, R>, start: S, a: World<S, R>, b: World<S, R>, bodies: seq<seq<Byte>>, i: nat,
                      j: nat)
    requires Stretch(h, start, a, b, bodies)
    requires i < |b.log| && j < |b.log| && a.wire.issued < b.log[i].cmd < b.log[j].cmd
    ensures i < j
  {
    var c, n := a.wire.issued, b.log[i].cmd;
    EntryIsIssued(b, j);
    assert IsDelivered(b, c + 1 + (n - c - 1), bodies[n - c - 1]);
    DeliveredIsFirst(b, n, bodies[n - c - 1], i, j);
  }

  lemma LaterRise<S, R>(h: Handler<S, R>, start: S, a: World<S, R>, b: World<S, R>, bodies: seq<seq<Byte>>, i: nat,
                        j: nat)
    requires Stretch(h, start, a, b, bodies)
    requires i < j < |b.log| && a.wire.issued < b.log[i].cmd && a.wire.issued < b.log[j].cmd
    ensures b.log[i].cmd < b.log[j].cmd
  {
    if b.log[j].cmd < b.log[i].cmd {
      OwnRise(h, start, a, b, bodies, j, i);
    }
  }

  /** Where the commands issued since an earlier world begin in the log. */
  function FirstSince<R>(log: seq<Entry<R>>, c: nat, at: nat): (i: nat)
    requires at <= |log|
    ensures at <= i <= |log| && (forall j | at <= j < i :: log[j].cmd <= c) && (i < |log| ==> log[i].cmd > c)
    decreases |log| - at
  {
    if at == |log| || log[at].cmd > c then at else FirstSince(log, c, at + 1)
  }

  function Numbers<R>(log: seq<Entry<R>>, at: nat): (r: seq<nat>)
    requires at <= |log|
    ensures |r| == |log| - at && forall i | 0 <= i < |r| :: r[i] == log[at + i].cmd
  {
    seq<nat>(|log| - at, i requires 0 <= i < |log| - at => log[at + i].cmd)
  }

  /** An entry with a later number than any of the earlier world's is beyond them. */
  lemma EntryIsSince<S, R>(a: World<S, R>, b: World<S, R>, i: nat, at: nat)
    requires Booked(a) && Extends(a, b) && i < |b.log| && b.log[i].cmd > a.wire.issued
    requires |a.log| <= at <= |b.log| && forall j | |a.log| <= j < at :: b.log[j].cmd <= a.wire.issued
    ensures i >= at
  {
    if i < |a.log| {
      assert a.log[i] == b.log[i];
      EntryIsIssued(a, i);
    }
  }

  /** From the first command of a stretch on there is nothing else in the log. */
  lemma AllOwn<S, R>(h: Handler<S, R>, start: S, a: World<S, R>, b: World<S, R>, bodies: seq<seq<Byte>>, at: nat,
                     i: nat)
    requires Stretch(h, start, a, b, bodies)
    requires at == FirstSince(b.log, a.wire.issued, |a.log|) && at <= i < |b.log|
    ensures a.wire.issued < b.log[i].cmd <= b.wire.issued
  {
    EntryIsIssued(b, i);
    if a.wire.unanswered != {} && at < i {
      assert b.log[at].cmd < b.log[i].cmd;
    }
  }

  lemma OwnIsThere<S, R>(h: Handler<S, R>, start: S, a: World<S, R>, b: World<S, R>, bodies: seq<seq<Byte>>, at: nat,
                         n: nat)
    requires Stretch(h, start, a, b, bodies)
    requires at == FirstSince(b.log, a.wire.issued, |a.log|)
    requires a.wire.issued < n <= a.wire.issued + |bodies|
    ensures n in Numbers(b.log, at)
  {
    var j := n - a.wire.issued - 1;
    var i := DeliveredIsLogged(h, start, b, n, bodies[j]);
    EntryIsSince(a, b, i, at);
    assert Numbers(b.log, at)[i - at] == n;
  }

  lemma OwnAreRising<S, R>(h: Handler<S, R>, start: S, a: World<S, R>, b: World<S, R>, bodies: seq<seq<Byte>>,
                           at: nat)
    requires Stretch(h, start, a, b, bodies)
    requires at == FirstSince(b.log, a.wire.issued, |a.log|)
    ensures Rising(Numbers(b.log, at))
    ensures forall i | 0 <= i < |b.log| - at :: a.wire.issued < Numbers(b.log, at)[i] <= b.wire.issued
  {
    forall i | at <= i < |b.log|
      ensures a.wire.issued < b.log[i].cmd <= b.wire.issued
    {
      AllOwn(h, start, a, b, bodies, at, i);
    }
    forall i, k | at <= i < k < |b.log|
      ensures b.log[i].cmd < b.log[k].cmd
    {
      LaterRise(h, start, a, b, bodies, i, k);
    }
  }

  lemma OwnAreNumbered<S, R>(h: Handler<S, R>, start: S, a: World<S, R>, b: World<S, R>, bodies: seq<seq<Byte>>,
                             at: nat)
    requires Stretch(h, start, a, b, bodies)
    requires at == FirstSince(b.log, a.wire.issued, |a.log|)
    ensures |bodies| <= |b.log| - at <= b.wire.issued - a.wire.issued
    ensures forall i | 0 <= i < |b.log| - at :: Numbers(b.log, at)[i] == a.wire.issued + 1 + i
  {
    OwnAreRising(h, start, a, b, bodies, at);
    forall n | a.wire.issued < n <= a.wire.issued + |bodies|
      ensures n in Numbers(b.log, at)
    {
      OwnIsThere(h, start, a, b, bodies, at, n);
    }
    OwnNumbers(Numbers(b.log, at), a.wire.issued, |bodies|, b.wire.issued);
  }

  lemma BeforeOwn<S, R>(a: World<S, R>, b: World<S, R>, at: nat)
    requires Extends(a, b) && at == FirstSince(b.log, a.wire.issued, |a.log|)
    ensures forall j | |a.log| <= j < at :: b.log[j].cmd in a.wire.unanswered
    ensures |a.log| < at ==> b.log[|a.log|].cmd in a.wire.unanswered
  {
  }

  /**
   * The commands of a stretch stand side by side at the end of the log, in order.  Between the log as
   * it was and them come only commands that had been given up by then.
   */
  lemma {:induction false} SideBySide<S, R>(h: Handler<S, R>, start: S, a: World<S, R>, b: World<S, R>,
                                            bodies: seq<seq<Byte>>) returns (at: nat)
    requires Stretch(h, start, a, b, bodies)
    ensures |a.log| <= at && at + |bodies| <= |b.log| <= at + (b.wire.issued - a.wire.issued)
    ensures forall j | |a.log| <= j < at :: b.log[j].cmd in a.wire.unanswered
    ensures forall j | at <= j < |b.log| :: b.log[j].cmd == a.wire.issued + 1 + (j - at)
    ensures a.wire.unanswered == {} ==> at == |a.log|
  {
    at := FirstSince(b.log, a.wire.issued, |a.log|);
    BeforeOwn(a, b, at);
    OwnAreNumbered(h, start, a, b, bodies, at);
    forall j | at <= j < |b.log|
      ensures b.log[j].cmd == a.wire.issued + 1 + (j - at)
    {
      assert Numbers(b.log, at)[j - at] == a.wire.issued + 1 + (j - at);
    }
  }

  // ---- a series of commands is atomic -------------------------------------------------------------------------

  /** What the commands after number `c` ask for. */
  ghost predicate Asked<S, R>(w: World<S, R>, c: nat, calls: seq<R>) {
    c + |calls| <= |w.requests| && forall j | 0 <= j < |calls| :: w.requests[c + j] == calls[j]
  }

  /** The state after the first `n` calls, executed one after the other. */
  function Sequel<S, R>(h: Handler<S, R>, s: S, calls: seq<R>, n: nat): S
    requires n <= |calls|
  {
    if n == 0 then s else h(Sequel(h, s, calls, n - 1), calls[n - 1]).0
  }

  /** A path of states on which every call leads to the next is the sequel. */
  lemma {:induction false} SequelFollows<S, R>(h: Handler<S, R>, calls: seq<R>, path: seq<S>, n: nat)
    requires n <= |calls| && n < |path|
    requires forall j | 0 <= j < n :: h(path[j], calls[j]).0 == path[j + 1]
    ensures Sequel(h, path[0], calls, n) == path[n]
  {
    if n > 0 {
      SequelFollows(h, calls, path, n - 1);
    }
  }

  /** The answer to call `n`. */
  function ReplyTo<S, R>(h: Handler<S, R>, s: S, calls: seq<R>, n: nat): seq<Byte>
    requires n < |calls|
  {
    h(Sequel(h, s, calls, n), calls[n]).1
  }

  lemma {:induction false} ReplayIsSequel<S, R>(h: Handler<S, R>, start: S, w: World<S, R>, c: nat, calls: seq<R>,
                                                at: nat, n: nat)
    requires Booked(w) && Asked(w, c, calls) && n <= |calls|
    requires at + n <= |w.log| && forall j | at <= j < at + n :: w.log[j].cmd == c + 1 + (j - at)
    ensures Replay(h, start, w.log[..at + n]) == Sequel(h, Replay(h, start, w.log[..at]), calls, n)
    decreases n
  {
    if n > 0 {
      var last := at + n - 1;
      ReplayIsSequel(h, start, w, c, calls, at, n - 1);
      assert EntryBooked(w, w.log[last]);
      assert w.log[..at + n] == w.log[..last] + [w.log[last]];
      ReplaySnoc(h, start, w.log[..last], w.log[last]);
    }
  }

  lemma ReplyIsBody<S, R>(h: Handler<S, R>, start: S, w: World<S, R>, c: nat, calls: seq<R>, at: nat, n: nat,
                          body: seq<Byte>)
    requires Sound(h, start, w) && Asked(w, c, calls) && n < |calls| && IsDelivered(w, c + 1 + n, body)
    requires at + n < |w.log| && forall j | at <= j < |w.log| :: w.log[j].cmd == c + 1 + (j - at)
    ensures body == ReplyTo(h, Replay(h, start, w.log[..at]), calls, n)
  {
    var i := DeliveredIsLogged(h, start, w, c + 1 + n, body);
    assert w.log[at + n].cmd == c + 1 + n;
    assert i == at + n;
    assert EntryBooked(w, w.log[i]);
    ReplayIsSequel(h, start, w, c, calls, at, n);
  }

  /** The target's state from which a stretch runs on: what the commands given up before have left. */
  ghost predicate RunsFrom<S, R>(h: Handler<S, R>, start: S, a: World<S, R>, b: World<S, R>, s: S) {
    exists at :: StartsAt(h, start, a, b, s, at)
  }

  /** Since world `a` only commands waiting then have been executed before place `at`. */
  predicate StartsAt<S(==), R>(h: Handler<S, R>, start: S, a: World<S, R>, b: World<S, R>, s: S, at: nat) {
    && |a.log| <= at <= |b.log|
    && (forall j | |a.log| <= j < at :: b.log[j].cmd in a.wire.unanswered)
    && s == Replay(h, start, b.log[..at])
  }

  /**
   * The commands of a stretch have run one after the other with nothing in between, however many
   * packets were lost, late or raised, and their answers are the ones the host got.  The last one may
   * or may not have been executed when it has not come back.
   */
  lemma {:induction false} StretchIsAtomic<S, R>(h: Handler<S, R>, start: S, a: World<S, R>, b: World<S, R>,
                                                 calls: seq<R>, bodies: seq<seq<Byte>>) returns (s: S, done: nat)
    requires Stretch(h, start, a, b, bodies) && |calls| == b.wire.issued - a.wire.issued
    requires Asked(b, a.wire.issued, calls)
    ensures RunsFrom(h, start, a, b, s) && (a.wire.unanswered == {} ==> s == a.target)
    ensures |bodies| <= done <= |calls| && b.target == Sequel(h, s, calls, done)
    ensures forall j | 0 <= j < |bodies| :: bodies[j] == ReplyTo(h, s, calls, j)
  {
    var c := a.wire.issued;
    var at := SideBySide(h, start, a, b, bodies);
    s, done := Replay(h, start, b.log[..at]), |b.log| - at;
    assert StartsAt(h, start, a, b, s, at);
    ReplayIsSequel(h, start, b, c, calls, at, done);
    assert b.log[..at + done] == b.log;
    if a.wire.unanswered == {} {
      assert b.log[..at] == a.log;
    }
    forall j | 0 <= j < |bodies|
      ensures bodies[j] == ReplyTo(h, s, calls, j)
    {
      assert IsDelivered(b, c + 1 + j, bodies[j]);
      ReplyIsBody(h, start, b, c, calls, at, j, bodies[j]);
    }
  }

  /** Two places of a history as the ends of a stretch. */
  lemma StretchOfHistory<S, R>(h: Handler<S, R>, start: S, worlds: seq<World<S, R>>, moves: seq<Move<R>>, k: nat,
                               l: nat, bodies: seq<seq<Byte>>)
    requires IsHistory(h, start, worlds, moves) && k <= l < |worlds|
    requires var a, b := worlds[k], worlds[l];
             && AllDelivered(b, a.wire.issued, bodies)
             && a.wire.issued + |bodies| <= b.wire.issued <= a.wire.issued + |bodies| + 1
             && (a.wire.unanswered == {} || InOrder(b.log))
    ensures Stretch(h, start, worlds[k], worlds[l], bodies)
  {
    SoundHistory(h, start, worlds, moves, k);
    SoundHistory(h, start, worlds, moves, l);
    LaterExtends(h, worlds, moves, k, l);
  }

  lemma DeliveredIsNotWaiting<S, R>(h: Handler<S, R>, start: S, w: World<S, R>, cmd: nat, body: seq<Byte>)
    requires Sound(h, start, w) && IsDelivered(w, cmd, body)
    ensures cmd !in w.wire.unanswered
  {
    var i := DeliveredIsLogged(h, start, w, cmd, body);
    assert EntryBooked(w, w.log[i]);
  }

  /** When all commands since a quiet world have come back, it is quiet again. */
  lemma QuietAgain<S, R>(h: Handler<S, R>, start: S, a: World<S, R>, b: World<S, R>, bodies: seq<seq<Byte>>)
    requires Stretch(h, start, a, b, bodies) && b.wire.issued == a.wire.issued + |bodies|
    requires a.wire.unanswered == {}
    ensures b.wire.unanswered == {}
  {
    forall n | a.wire.issued < n <= b.wire.issued
      ensures n !in b.wire.unanswered
    {
      DeliveredIsNotWaiting(h, start, b, n, bodies[n - a.wire.issued - 1]);
    }
    assert forall n :: n !in b.wire.unanswered;
  }

  /** Once the latest command has come back, a target that executes in order executes no earlier one. */
  lemma NothingSlipsIn<S, R>(h: Handler<S, R>, start: S, b: World<S, R>, c: World<S, R>, body: seq<Byte>, s: S)
    requires Sound(h, start, b) && Extends(b, c) && InOrder(c.log)
    requires IsDelivered(b, b.wire.issued, body) && RunsFrom(h, start, b, c, s)
    ensures s == b.target
  {
    var at: nat :| StartsAt(h, start, b, c, s, at);
    var i := DeliveredIsLogged(h, start, b, b.wire.issued, body);
    LaterNumbers(b, c, i);
    assert c.log[..at] == b.log;
  }

  lemma LaterNumbers<S, R>(b: World<S, R>, c: World<S, R>, i: nat)
    requires Booked(b) && Extends(b, c) && InOrder(c.log) && i < |b.log| && b.log[i].cmd == b.wire.issued
    ensures forall j | |b.log| <= j < |c.log| :: c.log[j].cmd !in b.wire.unanswered
  {
    assert c.log[i] == b.log[i];
  }

  lemma FirstIsGivenUp<S, R>(h: Handler<S, R>, start: S, older: R, newer: R) returns (worlds: seq<World<S, R>>)
    ensures |worlds| == 4 && Follows(h, worlds, [Issues(older), GivesUp, Issues(newer)])
    ensures worlds[0] == Opening(start)
    ensures worlds[2] == World(State(1, {1}, [], Idle, []), start, [older], [])
    ensures worlds[3] == World(State(2, {1, 2}, [], Waiting(REPLY_READS), []), start, [older, newer], [])
  {
    var w1 := World(State(1, {1}, [], Waiting(REPLY_READS), []), start, [older], []);
    var w2 := World(State(1, {1}, [], Idle, []), start, [older], []);
    var w3 := World(State(2, {1, 2}, [], Waiting(REPLY_READS), []), start, [older, newer], []);
    assert After(h, Opening(start), Issues(older)) == w1;
    assert After(h, w1, GivesUp) == w2;
    assert After(h, w2, Issues(newer)) == w3;
    worlds := [Opening(start), w1, w2, w3];
  }

  lemma SecondComesBack<S, R>(h: Handler<S, R>, w: World<S, R>, p: InFlight) returns (worlds: seq<World<S, R>>)
    requires |w.requests| == 2 && w.wire == State(2, {1, 2}, [], Waiting(REPLY_READS), [])
    requires WellFormed(p) && p.origin == Answer(2, h(w.target, w.requests[1]).1)
    ensures |worlds| == 3 && worlds[0] == w && Follows(h, worlds, [Executes(2, Some(p)), Reads])
    ensures worlds[2].wire == State(2, {1}, [], Idle, [Delivery(2, p.origin, p.origin.body)])
    ensures worlds[2].target == h(w.target, w.requests[1]).0 && worlds[2].requests == w.requests
  {
    ReadByOrigin(p, 2);
    var w1 := After(h, w, Executes(2, Some(p)));
    assert w1.wire == State(2, {1}, [p], Waiting(REPLY_READS), []);
    worlds := [w, w1, After(h, w1, Reads)];
  }

  lemma Joined<S, R>(h: Handler<S, R>, a: seq<World<S, R>>, m: seq<Move<R>>, b: seq<World<S, R>>, n: seq<Move<R>>)
    requires Follows(h, a, m) && Follows(h, b, n) && a[|a| - 1] == b[0]
    ensures Follows(h, a + b[1..], m + n)
  {
    var worlds, moves := a + b[1..], m + n;
    forall i | 0 <= i < |moves|
      ensures Possible(h, worlds[i], moves[i]) && worlds[i + 1] == After(h, worlds[i], moves[i])
    {
      if i >= |m| {
        assert worlds[i] == b[i - |m|] && worlds[i + 1] == b[i - |m| + 1] && moves[i] == n[i - |m|];
      }
    }
  }

  /** The history of a command that is given up, overtaken by the next one, and executed after it all the same. */
  lemma GivenUpRunsLate<S, R>(h: Handler<S, R>, start: S, older: R, newer: R, p: InFlight)
      returns (worlds: seq<World<S, R>>, moves: seq<Move<R>>)
    requires WellFormed(p) && p.origin == Answer(2, h(start, newer).1)
    ensures IsHistory(h, start, worlds, moves) && |worlds| == 7
    ensures worlds[2].wire.phase.Idle? && worlds[2].wire.issued == 1
    ensures worlds[5].wire.phase.Idle? && worlds[5].wire.issued == 2 && worlds[5].requests == [older, newer]
    ensures IsDelivered(worlds[5], 2, h(start, newer).1)
    ensures worlds[5].target == h(start, newer).0
    ensures worlds[6].wire == worlds[5].wire.(unanswered := {}) && worlds[6].target == h(h(start, newer).0, older).0
  {
    var first := FirstIsGivenUp(h, start, older, newer);
    var second := SecondComesBack(h, first[3], p);
    var w5 := second[2];
    assert w5.wire.delivered[0].cmd == 2;
    var third := [w5, After(h, w5, Executes(1, None))];
    Joined(h, first, [Issues(older), GivesUp, Issues(newer)], second, [Executes(2, Some(p)), Reads]);
    worlds, moves := first + second[1..], [Issues(older), GivesUp, Issues(newer)] + [Executes(2, Some(p)), Reads];
    Joined(h, worlds, moves, third, [Executes(1, None)]);
    worlds, moves := worlds + third[1..], moves + [Executes(1, None)];
  }
}
