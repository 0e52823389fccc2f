/**
 * Host, target and register-in pipe as one state machine.  Commands are numbered without wrap-around
 * here; the wire carries the number modulo 65536.  The target may answer in any order, late or
 * never, answers may be lost on the way, events may come at any time, and the host may time out at
 * any time.
 */
module WmiProtocol {
  import opened Prelude
  import opened Bytes
  import opened Htc
  import opened Wmi

  /** Where a packet really came from: an event, or the target's answer to command `cmd`. */
  datatype Origin = Event | Answer(cmd: nat, body: seq<Byte>)

  datatype InFlight = InFlight(raw: seq<Byte>, origin: Origin)

  /** An answer echoes its command's wire number; an event has an event id or no WMI header at all. */
  predicate WellFormed(p: InFlight) {
    var got := Receive(p.raw);
    && got.Ok?
    && var resp := got.value.1;
       match p.origin
       case Event => |resp| < WMI_HDR_LEN || U16(resp, 0) >= WMI_EVENT_BASE
       case Answer(cmd, body) =>
         && |resp| >= WMI_HDR_LEN && U16(resp, 0) < WMI_EVENT_BASE
         && U16(resp, 2) == cmd % TWO_16 && resp[WMI_HDR_LEN..] == body
  }

  /** A frame the target might really send for an answer. */
  function AnswerFrame(endpoint: Byte, id: nat, cmd: nat, body: seq<Byte>, trailer: Option<seq<Byte>>): InFlight
    requires trailer.Some? ==> |trailer.value| < 256
  {
    InFlight(TargetFrame(endpoint, Command(id, cmd % TWO_16, body), trailer), Answer(cmd, body))
  }

  lemma AnswerFrameIsWellFormed(endpoint: Byte, id: nat, cmd: nat, body: seq<Byte>, trailer: Option<seq<Byte>>)
    requires id < WMI_EVENT_BASE && (trailer.Some? ==> |trailer.value| < 256)
    requires |AnswerFrame(endpoint, id, cmd, body, trailer).raw| <= REG_PIPE_MAX
    ensures WellFormed(AnswerFrame(endpoint, id, cmd, body, trailer))
  {
    var resp := Command(id, cmd % TWO_16, body);
    TrailerIsStripped(endpoint, resp, trailer);
    assert resp[0..2] == Be16(id) && resp[2..4] == Be16(cmd % TWO_16);
    U16At(resp, 0, id);
    U16At(resp, 2, cmd % TWO_16);
  }

  datatype Phase = Idle | Waiting(left: nat)

  /** An error-free return: which command it was for, whose packet it was, and what the caller got. */
  datatype Delivery = Delivery(cmd: nat, origin: Origin, body: seq<Byte>)

  datatype State = State(
    issued: nat,              // commands sent so far; the latest one has this number
    unanswered: set<nat>,     // commands the target has received and not answered
    pipe: seq<InFlight>,      // packets on their way to the host, oldest first
    phase: Phase,
    delivered: seq<Delivery>)

  datatype Step =
    | Send
    | TargetAnswers(p: InFlight)
    | AnswerLost(cmd: nat)
    | TargetEvent(p: InFlight)
    | HostReads
    | HostTimesOut

  const INIT: State := State(0, {}, [], Idle, [])

  /** Every answer still in the pipe is to one of the 65536 commands up to `next`.  Silences do not matter. */
  predicate StaleRepliesAreRecent(s: State, next: nat) {
    forall i | 0 <= i < |s.pipe| && s.pipe[i].origin.Answer? :: next < s.pipe[i].origin.cmd + TWO_16
  }

  predicate Enabled(s: State, step: Step) {
    match step
    case Send => s.phase.Idle? && StaleRepliesAreRecent(s, s.issued + 1)
    case TargetAnswers(p) =>
      && WellFormed(p) && p.origin.Answer? && p.origin.cmd in s.unanswered
      && s.issued < p.origin.cmd + TWO_16
    case AnswerLost(cmd) => cmd in s.unanswered
    case TargetEvent(p) => WellFormed(p) && p.origin.Event?
    case HostReads => s.phase.Waiting? && s.phase.left > 0 && s.pipe != [] && Receive(s.pipe[0].raw).Ok?
    case HostTimesOut => s.phase.Waiting?
  }

  /** The host looks at bytes only; `origin` is carried along to say what they were. */
  function Next(s: State, step: Step): State
    requires Enabled(s, step)
  {
    match step
    case Send => s.(issued := s.issued + 1, unanswered := s.unanswered + {s.issued + 1}, phase := Waiting(REPLY_READS))
    case TargetAnswers(p) => s.(unanswered := s.unanswered - {p.origin.cmd}, pipe := s.pipe + [p])
    case AnswerLost(cmd) => s.(unanswered := s.unanswered - {cmd})
    case TargetEvent(p) => s.(pipe := s.pipe + [p])
    case HostTimesOut => s.(phase := Idle)
    case HostReads =>
      var p := s.pipe[0];
      var rest := s.(pipe := s.pipe[1..]);
      match Classify(Receive(p.raw).value.1, s.issued % TWO_16)
      case Match(body) => rest.(phase := Idle, delivered := s.delivered + [Delivery(s.issued, p.origin, body)])
      case Skip => rest.(phase := if s.phase.left == 1 then Idle else Waiting(s.phase.left - 1))
  }

  ghost predicate IsRun(states: seq<State>, steps: seq<Step>) {
    && |states| == |steps| + 1
    && states[0] == INIT
    && forall i | 0 <= i < |steps| :: Enabled(states[i], steps[i]) && states[i + 1] == Next(states[i], steps[i])
  }

  // ---- safety ------------------------------------------------------------------------------------------------

  /** The caller got the target's answer to that very command. */
  predicate Genuine(d: Delivery) {
    d.origin == Answer(d.cmd, d.body)
  }

  predicate Invariant(s: State) {
    && (forall i | 0 <= i < |s.pipe| :: WellFormed(s.pipe[i]))
    && (forall c | c in s.unanswered :: c <= s.issued)
    && (forall i | 0 <= i < |s.pipe| && s.pipe[i].origin.Answer? :: s.pipe[i].origin.cmd <= s.issued)
    && StaleRepliesAreRecent(s, s.issued)
    && (forall i | 0 <= i < |s.delivered| :: Genuine(s.delivered[i]))
  }

  /** Numbers less than 65536 apart that look the same on the wire are the same. */
  lemma WireNumbersAgree(c: nat, n: nat)
    requires c <= n < c + TWO_16 && c % TWO_16 == n % TWO_16
    ensures c == n
  {
  }

  /** What a read yields, in terms of where the packet really came from. */
  lemma ReadByOrigin(p: InFlight, n: nat)
    requires WellFormed(p)
    ensures Classify(Receive(p.raw).value.1, n % TWO_16) ==
            if p.origin.Answer? && p.origin.cmd % TWO_16 == n % TWO_16 then Match(p.origin.body) else Skip
  {
  }

  lemma InvariantStep(s: State, step: Step)
    requires Invariant(s) && Enabled(s, step)
    ensures Invariant(Next(s, step))
  {
    if step.HostReads? {
      var p := s.pipe[0];
      ReadByOrigin(p, s.issued);
      if p.origin.Answer? && p.origin.cmd % TWO_16 == s.issued % TWO_16 {
        WireNumbersAgree(p.origin.cmd, s.issued);
      }
    }
  }

  lemma {:induction false} InvariantOfRun(states: seq<State>, steps: seq<Step>, k: nat)
    requires IsRun(states, steps) && k < |states|
    ensures Invariant(states[k])
  {
    if k > 0 {
      InvariantOfRun(states, steps, k - 1);
      InvariantStep(states[k - 1], steps[k - 1]);
    }
  }

  /** A run of `n` commands that are all lost: silence never stops the host, however many commands ago it began. */
  lemma {:induction false} LostCommandsStopNothing(n: nat) returns (states: seq<State>, steps: seq<Step>)
    ensures IsRun(states, steps)
    ensures var last := states[|states| - 1];
            last.issued == n && last.phase.Idle? && last.pipe == [] && last.delivered == []
            && forall c: nat | 1 <= c <= n :: c in last.unanswered
  {
    if n == 0 {
      states, steps := [INIT], [];
    } else {
      states, steps := LostCommandsStopNothing(n - 1);
      var before := states[|states| - 1];
      var waiting := Next(before, Send);
      states, steps := states + [waiting, Next(waiting, HostTimesOut)], steps + [Send, HostTimesOut];
    }
  }

  /**
   * Over every interleaving in which stale replies are fewer than 65536 commands old, an error-free
   * command returns the target's answer to that command: never an event, never an earlier answer.
   */
  lemma {:induction false} RepliesAreGenuine(states: seq<State>, steps: seq<Step>, k: nat, i: nat)
    requires IsRun(states, steps) && k < |states| && i < |states[k].delivered|
    ensures Genuine(states[k].delivered[i])
  {
    InvariantOfRun(states, steps, k);
  }

  /** The bound is exact: a stale answer is taken for the reply exactly when it is a multiple of 65536 commands old. */
  lemma {:induction false} StaleAnswerIsTakenExactly(s: State, c: nat, body: seq<Byte>)
    requires s.phase.Waiting? && s.phase.left > 0 && s.pipe != [] && WellFormed(s.pipe[0])
    requires s.pipe[0].origin == Answer(c, body)
    ensures Enabled(s, HostReads)
    ensures var taken := if c % TWO_16 == s.issued % TWO_16 then [Delivery(s.issued, Answer(c, body), body)] else [];
            Next(s, HostReads).delivered == s.delivered + taken
  {
    ReadByOrigin(s.pipe[0], s.issued);
  }

  // ---- delivery --------------------------------------------------------------------------------------------------

  function ReadsOf(pipe: seq<InFlight>): (r: seq<Read>)
    ensures |r| == |pipe|
  {
    seq(|pipe|, i requires 0 <= i < |pipe| => Packet(pipe[i].raw))
  }

  predicate Answers(p: InFlight, n: nat) {
    p.origin.Answer? && p.origin.cmd % TWO_16 == n % TWO_16
  }

  /** The receive loop, told by what the packets really are. */
  function Awaited(n: nat, pipe: seq<InFlight>, left: nat): Result<seq<Byte>, Error> {
    if left == 0 then Err(NoReply)
    else if pipe == [] then Err(UsbError)
    else if Answers(pipe[0], n) then Ok(pipe[0].origin.body)
    else Awaited(n, pipe[1..], left - 1)
  }

  predicate AllWellFormed(pipe: seq<InFlight>) {
    forall i | 0 <= i < |pipe| :: WellFormed(pipe[i])
  }

  lemma {:induction false} LoopReadsOrigins(n: nat, pipe: seq<InFlight>, left: nat)
    requires AllWellFormed(pipe)
    ensures AwaitReply(n % TWO_16, ReadsOf(pipe), left) == Awaited(n, pipe, left)
    decreases left
  {
    if left > 0 && pipe != [] {
      assert WellFormed(pipe[0]);
      ReadByOrigin(pipe[0], n);
      assert ReadsOf(pipe)[1..] == ReadsOf(pipe[1..]);
      LoopReadsOrigins(n, pipe[1..], left - 1);
    }
  }

  lemma {:induction false} AwaitPast(n: nat, ahead: seq<InFlight>, reply: InFlight, rest: seq<InFlight>, left: nat)
    requires forall i | 0 <= i < |ahead| :: !Answers(ahead[i], n)
    requires reply.origin.Answer? && reply.origin.cmd == n
    ensures Awaited(n, ahead + [reply] + rest, left) == if |ahead| < left then Ok(reply.origin.body) else Err(NoReply)
  {
    if left > 0 && ahead != [] {
      assert (ahead + [reply] + rest)[1..] == ahead[1..] + [reply] + rest;
      AwaitPast(n, ahead[1..], reply, rest, left - 1);
    }
  }

  /**
   * A command whose answer stands behind other packets returns it exactly when at most fifteen
   * packets are ahead of it; with sixteen the command gives up.
   */
  lemma {:induction false} DeliveredExactlyWithinSixteen(s: State, ahead: seq<InFlight>, reply: InFlight,
                                                         rest: seq<InFlight>)
    requires Invariant(s) && s.pipe == ahead + [reply] + rest
    requires reply.origin.Answer? && reply.origin.cmd == s.issued
    requires forall i | 0 <= i < |ahead| && ahead[i].origin.Answer? :: ahead[i].origin.cmd != s.issued
    ensures AwaitReply(s.issued % TWO_16, ReadsOf(s.pipe), REPLY_READS) ==
            if |ahead| <= 15 then Ok(reply.origin.body) else Err(NoReply)
  {
    forall i | 0 <= i < |ahead|
      ensures !Answers(ahead[i], s.issued)
    {
      assert s.pipe[i] == ahead[i];
      if Answers(ahead[i], s.issued) {
        WireNumbersAgree(ahead[i].origin.cmd, s.issued);
      }
    }
    LoopReadsOrigins(s.issued, s.pipe, REPLY_READS);
    AwaitPast(s.issued, ahead, reply, rest, REPLY_READS);
  }

  /** Reading the pipe step by step while nothing else happens. */
  function ReadOn(s: State): State
    requires s.phase.Waiting? ==> s.phase.left > 0
    requires forall i | 0 <= i < |s.pipe| :: WellFormed(s.pipe[i])
    decreases |s.pipe|
  {
    if s.phase.Waiting? && s.pipe != [] then
      assert WellFormed(s.pipe[0]);
      var t := Next(s, HostReads);
      assert forall i | 0 <= i < |t.pipe| :: t.pipe[i] == s.pipe[i + 1];
      ReadOn(t)
    else s
  }

  /** The steps of the state machine and the loop of the driver agree on what a command returns. */
  lemma {:induction false} StepsAgreeWithLoop(s: State)
    requires s.phase.Waiting? && s.phase.left > 0
    requires forall i | 0 <= i < |s.pipe| :: WellFormed(s.pipe[i])
    ensures var r := AwaitReply(s.issued % TWO_16, ReadsOf(s.pipe), s.phase.left);
            var t := ReadOn(s);
            && (r.Ok? ==> t.phase.Idle? && |t.delivered| == |s.delivered| + 1
                          && t.delivered[|s.delivered|].cmd == s.issued && t.delivered[|s.delivered|].body == r.value)
            && (r.Err? ==> t.delivered == s.delivered)
    decreases |s.pipe|
  {
    if s.pipe != [] {
      assert WellFormed(s.pipe[0]);
      ReadByOrigin(s.pipe[0], s.issued);
      var t := Next(s, HostReads);
      assert ReadsOf(s.pipe)[1..] == ReadsOf(s.pipe[1..]);
      if t.phase.Waiting? {
        assert forall i | 0 <= i < |t.pipe| :: t.pipe[i] == s.pipe[i + 1];
        StepsAgreeWithLoop(t);
      }
    }
  }
}
