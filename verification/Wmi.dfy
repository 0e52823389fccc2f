/** WMI commands over HTC: one command in flight, its reply matched on the echoed sequence number. */
module Wmi {
  import opened Prelude
  import opened Bytes
  import opened Htc

  const WMI_HDR_LEN: nat := 4
  /** Ids from here on are asynchronous events, not replies. */
  const WMI_EVENT_BASE: nat := 0x1001
  /** Frames read before a command is given up. */
  const REPLY_READS: nat := 16

  function Command(cmd: nat, seqNo: nat, payload: seq<Byte>): (r: seq<Byte>)
    ensures |r| == WMI_HDR_LEN + |payload|
  {
    Be16(cmd) + Be16(seqNo) + payload
  }

  /** A command is its identifier and its number, high byte first, and its payload. */
  lemma CommandBytes(cmd: nat, seqNo: nat, payload: seq<Byte>)
    requires cmd < TWO_16 && seqNo < TWO_16
    ensures var c := Command(cmd, seqNo, payload);
            && 256 * c[0] as int + c[1] as int == cmd && 256 * c[2] as int + c[3] as int == seqNo
            && c[4..] == payload
  {
    var c := Command(cmd, seqNo, payload);
    assert c[0..2] == Be16(cmd) && c[2..4] == Be16(seqNo);
    U16At(c, 0, cmd);
    U16At(c, 2, seqNo);
  }

  datatype Verdict = Skip | Match(body: seq<Byte>)

  /** Whether a received payload is the reply to the command numbered `seqNo`. */
  function Classify(resp: seq<Byte>, seqNo: nat): Verdict {
    if |resp| < WMI_HDR_LEN then Skip
    else if U16(resp, 0) >= WMI_EVENT_BASE then Skip
    else if U16(resp, 2) == seqNo then Match(resp[WMI_HDR_LEN..])
    else Skip
  }

  /** One read of the register-in pipe: the bytes of a packet, or a USB error or time-out. */
  datatype Read = Packet(raw: seq<Byte>) | Failed

  /** The reads a command makes, at most `n` of them; a pipe that yields nothing more times out. */
  function AwaitReply(seqNo: nat, arrivals: seq<Read>, n: nat): Result<seq<Byte>, Error> {
    if n == 0 then Err(NoReply)
    else if arrivals == [] || arrivals[0].Failed? then Err(UsbError)
    else
      match Receive(arrivals[0].raw)
      case Err(e) => Err(e)
      case Ok((_, resp)) =>
        match Classify(resp, seqNo)
        case Match(body) => Ok(body)
        case Skip => AwaitReply(seqNo, arrivals[1..], n - 1)
  }

  /** A read the loop passes over: an event, a runt, or the reply to another command. */
  predicate PassedOver(read: Read, seqNo: nat) {
    && read.Packet? && Receive(read.raw).Ok?
    && var resp := Receive(read.raw).value.1;
       |resp| < 4 || 256 * resp[0] as int + resp[1] as int >= 0x1001 || 256 * resp[2] as int + resp[3] as int != seqNo
  }

  /** Classification by the bytes of the header. */
  lemma ClassifiesByHeader(read: Read, seqNo: nat)
    requires read.Packet? && Receive(read.raw).Ok?
    ensures var resp := Receive(read.raw).value.1;
            Classify(resp, seqNo) == if PassedOver(read, seqNo) then Skip else Match(resp[4..])
  {
  }

  /** The first read that is not passed over decides; sixteen that are, or none, end the command without a reply. */
  lemma {:induction false} FirstReadDecides(seqNo: nat, arrivals: seq<Read>, n: nat, k: nat)
    requires k <= n && k <= |arrivals|
    requires forall i | 0 <= i < k :: PassedOver(arrivals[i], seqNo)
    ensures k == n ==> AwaitReply(seqNo, arrivals, n) == Err(NoReply)
    ensures k < n && k == |arrivals| ==> AwaitReply(seqNo, arrivals, n) == Err(UsbError)
    ensures k < n && k < |arrivals| && !PassedOver(arrivals[k], seqNo) ==>
              AwaitReply(seqNo, arrivals, n)
              == match arrivals[k] {
                   case Failed => Err(UsbError)
                   case Packet(raw) =>
                     match Receive(raw)
                     case Err(e) => Err(e)
                     case Ok((_, resp)) => Ok(resp[4..])
                 }
    decreases k
  {
    if arrivals != [] && arrivals[0].Packet? && Receive(arrivals[0].raw).Ok? {
      ClassifiesByHeader(arrivals[0], seqNo);
    }
    if k > 0 {
      assert PassedOver(arrivals[0], seqNo);
      assert forall i | 0 <= i < k - 1 :: PassedOver(arrivals[1..][i], seqNo);
      FirstReadDecides(seqNo, arrivals[1..], n - 1, k - 1);
    }
  }

  class Host {
    /** The 16-bit sequence counter; the target echoes it. */
    var seqNo: nat
    var endpoint: Byte

    ghost predicate Valid()
      reads this
    {
      seqNo < TWO_16
    }

    constructor (endpoint: Byte)
      ensures Valid() && seqNo == 0 && this.endpoint == endpoint
    {
      seqNo, this.endpoint := 0, endpoint;
    }

    /** Sends one command; `arrivals` is what the pipe then yields, read by read. */
    method WmiCmd(cmd: nat, payload: seq<Byte>, arrivals: seq<Read>)
      returns (sent: Result<seq<Byte>, Error>, r: Result<seq<Byte>, Error>)
      requires Valid()
      modifies this`seqNo
      ensures Valid() && seqNo == (old(seqNo) + 1) % TWO_16
      ensures sent == SendFrame(endpoint, Command(cmd, seqNo, payload))
      ensures r == if sent.Err? then Err(sent.error) else AwaitReply(seqNo, arrivals, REPLY_READS)
    {
      seqNo := (seqNo + 1) % TWO_16;
      sent := SendFrame(endpoint, Command(cmd, seqNo, payload));
      if sent.Err? {
        return sent, Err(sent.error);
      }
      var left: nat := REPLY_READS;
      var i := 0;
      assert arrivals[0..] == arrivals;
      while left > 0
        invariant 0 <= i <= |arrivals| && left + i == REPLY_READS
        invariant AwaitReply(seqNo, arrivals, REPLY_READS) == AwaitReply(seqNo, arrivals[i..], left)
      {
        if i == |arrivals| || arrivals[i].Failed? {
          return sent, Err(UsbError);
        }
        var got := Receive(arrivals[i].raw);
        if got.Err? {
          return sent, Err(got.error);
        }
        var verdict := Classify(got.value.1, seqNo);
        if verdict.Match? {
          return sent, Ok(verdict.body);
        }
        assert arrivals[i..][1..] == arrivals[i + 1..];
        i, left := i + 1, left - 1;
      }
      r := Err(NoReply);
    }
  }
}
