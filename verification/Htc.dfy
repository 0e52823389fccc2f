/**
 * HTC framing on the register pipes: an eight-byte header, and on receive an optional trailer that
 * the header's length includes.
 */
module Htc {
  import opened Prelude
  import opened Bytes

  const HTC_HDR_LEN: nat := 8
  /** Hard ceiling on one packet of the register-in pipe. */
  const REG_PIPE_MAX: nat := 64
  /** Ceiling on an outgoing message, which the bus may split into packets. */
  const HTC_MSG_MAX: nat := 512
  const HTC_FLAGS_RECV_TRAILER: Byte := 2

  datatype Error =
    | MessageTooLong(total: nat)
    | UsbError
    | Runt(n: nat)
    | ShortPayload(claimed: nat, arrived: nat)
    | TrailerTooLong(trailer: nat, payload: nat)
    | NoReply

  function SendFrame(endpoint: Byte, payload: seq<Byte>): Result<seq<Byte>, Error> {
    if HTC_HDR_LEN + |payload| > HTC_MSG_MAX then Err(MessageTooLong(HTC_HDR_LEN + |payload|))
    else Ok([endpoint, 0] + Be16(|payload|) + [0, 0, 0, 0] + payload)
  }

  /** A frame is its endpoint, no flags, the payload's length with the high byte first, four zero bytes, the payload. */
  lemma SentFrameBytes(endpoint: Byte, payload: seq<Byte>)
    ensures SendFrame(endpoint, payload).Ok? <==> |payload| <= 504
    ensures SendFrame(endpoint, payload).Ok? ==>
              var f := SendFrame(endpoint, payload).value;
              && |f| == 8 + |payload| && f[0] == endpoint && f[1] == 0
              && 256 * f[2] as int + f[3] as int == |payload|
              && f[4..8] == [0, 0, 0, 0] && f[8..] == payload
  {
    if SendFrame(endpoint, payload).Ok? {
      var f := SendFrame(endpoint, payload).value;
      assert f[2..4] == Be16(|payload|);
      U16At(f, 2, |payload|);
    }
  }

  predicate HasTrailer(flags: Byte) {
    flags / HTC_FLAGS_RECV_TRAILER % 2 == 1
  }

  /** What one read of the register-in pipe means: the endpoint and the payload without its trailer. */
  function Receive(raw: seq<Byte>): (r: Result<(Byte, seq<Byte>), Error>)
    ensures r.Ok? ==> |r.value.1| + HTC_HDR_LEN <= |raw|
  {
    if |raw| < HTC_HDR_LEN then Err(Runt(|raw|))
    else
      var len, avail := U16(raw, 2), |raw| - HTC_HDR_LEN;
      if len > avail then Err(ShortPayload(len, avail))
      else if HasTrailer(raw[1]) then
        var trailer := raw[4];
        if trailer > len then Err(TrailerTooLong(trailer, len))
        else Ok((raw[0], raw[HTC_HDR_LEN..HTC_HDR_LEN + len - trailer]))
      else Ok((raw[0], raw[HTC_HDR_LEN..HTC_HDR_LEN + len]))
  }

  /** Every read by its bytes: length high byte first, the trailer flag in bit 1, the trailer's length in the first
      control byte. */
  lemma ReceivesExactly(raw: seq<Byte>)
    ensures |raw| < 8 ==> Receive(raw) == Err(Runt(|raw|))
    ensures |raw| >= 8 ==>
              var len := 256 * raw[2] as int + raw[3] as int;
              var trailer := if raw[1] % 4 >= 2 then raw[4] as int else 0;
              Receive(raw) == if 8 + len > |raw| then Err(ShortPayload(len, |raw| - 8))
                              else if trailer > len then Err(TrailerTooLong(trailer, len))
                              else Ok((raw[0], raw[8..8 + len - trailer]))
  {
    if |raw| >= 8 {
      assert HasTrailer(raw[1]) <==> raw[1] % 4 >= 2;
    }
  }

  /** A target that reads the header as the host does gets the endpoint and the payload back. */
  lemma SentFrameReadsBack(endpoint: Byte, payload: seq<Byte>)
    requires SendFrame(endpoint, payload).Ok?
    ensures Receive(SendFrame(endpoint, payload).value) == Ok((endpoint, payload))
  {
    var f := SendFrame(endpoint, payload).value;
    SentFrameBytes(endpoint, payload);
    assert f[8..8 + |payload|] == f[8..];
  }

  /** A frame as the target builds it, with or without a receive trailer. */
  function TargetFrame(endpoint: Byte, payload: seq<Byte>, trailer: Option<seq<Byte>>): seq<Byte>
    requires trailer.Some? ==> |trailer.value| < 256
  {
    var t := if trailer.Some? then trailer.value else [];
    [endpoint, if trailer.Some? then HTC_FLAGS_RECV_TRAILER else 0] + Be16(|payload| + |t|)
    + [|t|, 0, 0, 0] + payload + t
  }

  /** Receiving gives back exactly the payload the target framed, whatever trailer it glued on. */
  lemma {:induction false} TrailerIsStripped(endpoint: Byte, payload: seq<Byte>, trailer: Option<seq<Byte>>)
    requires trailer.Some? ==> |trailer.value| < 256
    requires |TargetFrame(endpoint, payload, trailer)| <= REG_PIPE_MAX
    ensures Receive(TargetFrame(endpoint, payload, trailer)) == Ok((endpoint, payload))
  {
    var t := if trailer.Some? then trailer.value else [];
    var raw := TargetFrame(endpoint, payload, trailer);
    assert raw[2..4] == Be16(|payload| + |t|);
    U16At(raw, 2, |payload| + |t|);
    assert raw[4] == |t| && raw[HTC_HDR_LEN..HTC_HDR_LEN + |payload|] == payload;
  }
}
