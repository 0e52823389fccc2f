/** The injected frame as it is laid out for the bulk transmit pipe. */
module TxFrame {
  import opened Prelude
  import opened Bytes
  import opened Htc

  const TX_MGMT_HDR_SIZE: nat := 8
  const STREAM_TAG: nat := 0x697e
  const U16_MAX: nat := 0xFFFF

  function Le16(n: nat): (r: seq<Byte>)
    ensures |r| == 2
  {
    [n % 256, n / 256 % 256]
  }

  /** The target's reading of a little-endian field. */
  function U16Le(s: seq<Byte>, i: nat): nat
    requires i + 2 <= |s|
  {
    s[i] as int + s[i + 1] as int * 0x100
  }

  datatype Knob = Knob(endpoint: Byte, power: Byte, rateFlags: Byte, rateCode: Byte)

  /** Stream header, frame header, management header, 802.11 frame; refused when the payload outgrows its field. */
  function BuildTxFrame(k: Knob, dot11: seq<Byte>): Result<seq<Byte>, nat> {
    var payloadLen := TX_MGMT_HDR_SIZE + |dot11|;
    if payloadLen > U16_MAX then Err(payloadLen)
    else
      var frameLen := HTC_HDR_LEN + payloadLen;
      Ok(Le16(frameLen) + Le16(STREAM_TAG)
         + [k.endpoint, 0] + Be16(payloadLen) + [0, 0, 0, 0]
         + [0, 0, k.power, 0, k.rateFlags, 0xff, 0, k.rateCode]
         + dot11)
  }

  lemma U16LeOfLe16(n: nat)
    ensures U16Le(Le16(n), 0) == n % TWO_16
  {
  }

  /** What the target reads back from an accepted frame.  The frame header always tells the payload's length; the
      stream header tells the frame's length exactly when the payload is at most 65527 bytes, although frames of
      up to 65535 are accepted. */
  lemma StreamLengthIsRightExactly(k: Knob, dot11: seq<Byte>)
    requires BuildTxFrame(k, dot11).Ok?
    ensures var b := BuildTxFrame(k, dot11).value;
            && |b| == 4 + 8 + 8 + |dot11| && b[20..] == dot11
            && U16(b, 6) == TX_MGMT_HDR_SIZE + |dot11| == |b| - 12
            && (U16Le(b, 0) == |b| - 4 <==> TX_MGMT_HDR_SIZE + |dot11| <= 65527)
            && b[4] == k.endpoint && b[14] == k.power && b[16] == k.rateFlags && b[19] == k.rateCode
  {
    var b := BuildTxFrame(k, dot11).value;
    var payloadLen := TX_MGMT_HDR_SIZE + |dot11|;
    assert b[6..8] == Be16(payloadLen);
    U16At(b, 6, payloadLen);
    assert b[0] == Le16(payloadLen + 8)[0] && b[1] == Le16(payloadLen + 8)[1];
    U16LeOfLe16(payloadLen + 8);
  }

  lemma FrameParts(pre: seq<Byte>, zeros: seq<Byte>, knobs: seq<Byte>, dot11: seq<Byte>)
    requires |pre| == 8 && |zeros| == 4 && |knobs| == 8
    ensures var b := pre + zeros + knobs + dot11;
            b[..8] == pre && b[8..12] == zeros && b[12..20] == knobs && b[20..] == dot11
  {
  }

  /** Both lengths, the tag and the endpoint: the bytes before the control bytes. */
  function Headers(k: Knob, n: nat): (r: seq<Byte>)
    ensures |r| == 8
  {
    Le16(n + 8) + Le16(STREAM_TAG) + [k.endpoint, 0] + Be16(n)
  }

  lemma HeaderBytes(k: Knob, n: nat)
    requires n < TWO_16
    ensures var b := Headers(k, n);
            && b[0] as int + 256 * b[1] as int == (n + 8) % 65536 && b[2] == 0x7e && b[3] == 0x69
            && b[4] == k.endpoint && b[5] == 0 && 256 * b[6] as int + b[7] as int == n
  {
    U16LeOfLe16(n + 8);
    U16OfBe16(n);
  }

  lemma HeaderPrefix(b: seq<Byte>, h: seq<Byte>)
    requires |h| == 8 && |b| >= 8 && b[..8] == h
    ensures forall i | 0 <= i < 8 :: b[i] == h[i]
  {
    assert forall i | 0 <= i < 8 :: b[i] == b[..8][i];
  }

  /** An accepted frame byte by byte; payloads beyond sixteen bits are refused. */
  lemma FrameBytes(k: Knob, dot11: seq<Byte>)
    ensures BuildTxFrame(k, dot11) == Err(8 + |dot11|) <==> |dot11| > 65527
    ensures BuildTxFrame(k, dot11).Ok? ==>
              var b := BuildTxFrame(k, dot11).value;
              && |b| == 20 + |dot11| && b[20..] == dot11
              && b[0] as int + 256 * b[1] as int == (16 + |dot11|) % 65536 && b[2] == 0x7e && b[3] == 0x69
              && b[4] == k.endpoint && b[5] == 0 && 256 * b[6] as int + b[7] as int == 8 + |dot11|
              && b[8..12] == [0, 0, 0, 0]
              && b[12..20] == [0, 0, k.power, 0, k.rateFlags, 0xff, 0, k.rateCode]
  {
    if BuildTxFrame(k, dot11).Ok? {
      var h := Headers(k, 8 + |dot11|);
      var b := BuildTxFrame(k, dot11).value;
      FrameParts(h, [0, 0, 0, 0], [0, 0, k.power, 0, k.rateFlags, 0xff, 0, k.rateCode], dot11);
      HeaderPrefix(b, h);
      HeaderBytes(k, 8 + |dot11|);
    }
  }

  /** The accepted frame whose stream header wraps to zero. */
  lemma WrappedStreamLength(k: Knob)
    ensures var r := BuildTxFrame(k, seq<Byte>(65520, _ => 0)); r.Ok? && U16Le(r.value, 0) == 0
  {
    var dot11 := seq<Byte>(65520, _ => 0);
    assert BuildTxFrame(k, dot11).Ok?;
    var b := BuildTxFrame(k, dot11).value;
    assert b[0] == Le16(65536)[0] && b[1] == Le16(65536)[1];
  }
}
