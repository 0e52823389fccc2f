/** De-aggregation of a batched receive transfer into frames. */
module RxDeagg {
  import opened Prelude
  import opened Bytes
  import opened Htc

  const RX_PREFIX_LEN: nat := 12
  const HTC_RX_STATUS_LEN: nat := 40
  const UNIT_MIN: nat := 52
  const AR9271_NF_DBM_2GHZ: int := 95

  /** The 802.11 decoder: payload, signal, modulation and time of arrival to a captured frame, or nothing. */
  type Decoder<!F> = (seq<Byte>, int, Option<nat>, nat) -> Option<F>

  function Be64(n: nat): (r: seq<Byte>)
    ensures |r| == 8
  {
    Be32(n / TWO_32) + Be32(n)
  }

  function U64(s: seq<Byte>, i: nat): nat
    requires i + 8 <= |s|
  {
    U32(s, i) * TWO_32 + U32(s, i + 4)
  }

  function Signed(b: Byte): int {
    if b < 128 then b else b - 256
  }

  /** Signal strength over the nominal noise floor, kept in a signed byte. */
  function Rssi(b: Byte): int {
    Clamp(Signed(b) - AR9271_NF_DBM_2GHZ, -128, 127)
  }

  function Mcs(rate: Byte): Option<nat> {
    if rate >= 128 then Some(rate % 128) else None
  }

  function RoundUp4(n: nat): nat {
    (n + 3) / 4 * 4
  }

  /** The way from one unit to the next, by the frame header's length unless that is too short to be true. */
  function Advance(raw: seq<Byte>, at: nat): (advance: nat)
    requires at + UNIT_MIN <= |raw|
    ensures advance >= UNIT_MIN
  {
    var payloadLen := U16(raw, at + 2);
    var unit := if payloadLen >= 4 + HTC_RX_STATUS_LEN then HTC_HDR_LEN + payloadLen
                else RX_PREFIX_LEN + HTC_RX_STATUS_LEN + U16(raw, at + RX_PREFIX_LEN + 8);
    Max(RoundUp4(unit), RX_PREFIX_LEN + HTC_RX_STATUS_LEN)
  }

  /** The frame of one unit: nothing for an empty or flagged one. */
  function Captured<F>(decode: Decoder<F>, raw: seq<Byte>, at: nat): Option<F>
    requires at + UNIT_MIN <= |raw|
  {
    var s := at + RX_PREFIX_LEN;
    var start := s + HTC_RX_STATUS_LEN;
    var end := Min(start + U16(raw, s + 8), |raw|);
    if end <= start || raw[s + 10] % 16 != 0 then None
    else decode(raw[start..end], Rssi(raw[s + 12]), Mcs(raw[s + 20]), U64(raw, s))
  }

  /** One unit at `at`: the frame it delivers, if any, and the way to the next unit. */
  function ParseRxUnit<F>(decode: Decoder<F>, raw: seq<Byte>, at: nat): (r: Option<(Option<F>, nat)>)
    ensures r.None? <==> at + UNIT_MIN > |raw|
    ensures r.Some? ==> r.value.1 >= UNIT_MIN
  {
    if at + RX_PREFIX_LEN + HTC_RX_STATUS_LEN > |raw| then None
    else Some((Captured(decode, raw, at), Advance(raw, at)))
  }

  /** Signal and rate byte by byte: a signed byte less 95, at the bottom of its range from -33 down, and an HT rate from
      128 up. */
  lemma SignalAndRate(b: Byte)
    ensures b <= 127 ==> Rssi(b) == b - 95
    ensures 128 <= b <= 222 ==> Rssi(b) == -128
    ensures b >= 223 ==> Rssi(b) == b - 351
    ensures Mcs(b) == if b < 128 then None else Some(b - 128)
  {
  }

  /** The big-endian value of a string of bytes. */
  function BigEndian(s: seq<Byte>): nat {
    if s == [] then 0 else 256 * BigEndian(s[..|s| - 1]) + s[|s| - 1]
  }

  lemma BigEndianSnoc(s: seq<Byte>, i: nat, j: nat)
    requires i < j <= |s|
    ensures BigEndian(s[i..j]) == 256 * BigEndian(s[i..j - 1]) + s[j - 1]
  {
    assert s[i..j][..j - i - 1] == s[i..j - 1] && s[i..j][j - i - 1] == s[j - 1];
  }

  lemma {:induction false} BigEndianFields(s: seq<Byte>, i: nat)
    ensures i + 2 <= |s| ==> U16(s, i) == BigEndian(s[i..i + 2])
    ensures i + 4 <= |s| ==> U32(s, i) == BigEndian(s[i..i + 4])
  {
    if i + 2 <= |s| {
      BigEndianSnoc(s, i, i + 2);
      BigEndianSnoc(s, i, i + 1);
      assert s[i..i] == [];
    }
    if i + 4 <= |s| {
      BigEndianSnoc(s, i, i + 4);
      BigEndianSnoc(s, i, i + 3);
    }
  }

  lemma {:induction false} BigEndianStamp(s: seq<Byte>, i: nat)
    requires i + 8 <= |s|
    ensures U64(s, i) == BigEndian(s[i..i + 8])
  {
    BigEndianFields(s, i);
    BigEndianSnoc(s, i, i + 8);
    BigEndianSnoc(s, i, i + 7);
    BigEndianSnoc(s, i, i + 6);
    BigEndianSnoc(s, i, i + 5);
  }

  /**
   * One unit by the places of its bytes: the MPDU, cut off at the end of the transfer, is delivered when it is not
   * empty and the low four status bits are clear; the next unit starts at the first multiple of four past the end of
   * this one, 52 bytes on at the least.
   */
  lemma UnitInBytes<F>(decode: Decoder<F>, raw: seq<Byte>, at: nat)
    requires at + 52 <= |raw|
    ensures var length := BigEndian(raw[at + 20..at + 22]);
            var end := Min(at + 52 + length, |raw|);
            var announced := BigEndian(raw[at + 2..at + 4]);
            var unit := if announced >= 44 then 8 + announced else 52 + length;
            && ParseRxUnit(decode, raw, at).Some?
            && ParseRxUnit(decode, raw, at).value.0
               == (if end == at + 52 || raw[at + 22] % 16 != 0 then None
                   else decode(raw[at + 52..end], Rssi(raw[at + 24]), Mcs(raw[at + 32]),
                               BigEndian(raw[at + 12..at + 20])))
            && var advance := ParseRxUnit(decode, raw, at).value.1;
            && advance % 4 == 0 && unit <= advance && 52 <= advance < Max(unit + 4, 53)
  {
    BigEndianFields(raw, at + 2);
    BigEndianFields(raw, at + 20);
    BigEndianStamp(raw, at + 12);
  }

  /** The frames of the units from `off` on, and how many units there were: one at most per 52 bytes. */
  function Walk<F>(decode: Decoder<F>, buf: seq<Byte>, off: nat): (r: (seq<F>, nat))
    ensures |r.0| <= r.1 && UNIT_MIN * r.1 <= Max(0, |buf| - off)
    decreases |buf| - off
  {
    match ParseRxUnit(decode, buf, off)
    case None => ([], 0)
    case Some((frame, advance)) =>
      var rest := Walk(decode, buf, off + advance);
      (Listed(frame) + rest.0, 1 + rest.1)
  }

  function Listed<F>(frame: Option<F>): seq<F> {
    if frame.Some? then [frame.value] else []
  }

  /** Taking one unit moves its frame from the walk ahead to the frames behind. */
  lemma WalkStep<F>(decode: Decoder<F>, buf: seq<Byte>, off: nat, out: seq<F>)
    ensures match ParseRxUnit(decode, buf, off)
            case None => out + Walk(decode, buf, off).0 == out && Walk(decode, buf, off).1 == 0
            case Some((frame, advance)) =>
              var rest := Walk(decode, buf, off + advance);
              && Walk(decode, buf, off).1 == 1 + rest.1
              && out + Walk(decode, buf, off).0 == (if frame.Some? then out + [frame.value] else out) + rest.0
  {
    var unit := ParseRxUnit(decode, buf, off);
    if unit.Some? {
      Regroup(out, unit.value.0, Walk(decode, buf, off + unit.value.1).0);
    }
  }

  lemma Regroup<F>(out: seq<F>, frame: Option<F>, rest: seq<F>)
    ensures out + (Listed(frame) + rest) == (if frame.Some? then out + [frame.value] else out) + rest
  {
  }

  /** What the pump has pushed, and pulled, before reaching `off`, out of a whole. */
  ghost predicate Reached<F>(whole: (seq<F>, nat), decode: Decoder<F>, buf: seq<Byte>, off: nat, out: seq<F>,
                             raw: nat) {
    whole == (out + Walk(decode, buf, off).0, raw + Walk(decode, buf, off).1)
  }

  lemma ReachedStep<F>(whole: (seq<F>, nat), decode: Decoder<F>, buf: seq<Byte>, off: nat, out: seq<F>, raw: nat)
    requires Reached(whole, decode, buf, off, out, raw)
    ensures match ParseRxUnit(decode, buf, off)
            case None => whole == (out, raw)
            case Some((None, advance)) => Reached(whole, decode, buf, off + advance, out, raw + 1)
            case Some((Some(frame), advance)) => Reached(whole, decode, buf, off + advance, out + [frame], raw + 1)
  {
    WalkStep(decode, buf, off, out);
  }

  /** One turn of the pump: parses the unit at `off` and pushes its frame. */
  method PullUnit<F>(ghost whole: (seq<F>, nat), decode: Decoder<F>, buf: seq<Byte>, off: nat, out: seq<F>,
                     ghost raw: nat)
      returns (more: bool, pushed: seq<F>, advance: nat)
    requires Reached(whole, decode, buf, off, out, raw)
    ensures more <==> off + UNIT_MIN <= |buf|
    ensures !more ==> whole == (out, raw)
    ensures more ==> advance >= UNIT_MIN && Reached(whole, decode, buf, off + advance, pushed, raw + 1)
  {
    ReachedStep(whole, decode, buf, off, out, raw);
    var unit := ParseRxUnit(decode, buf, off);
    if unit.None? {
      return false, out, 0;
    }
    var (decoded, length) := unit.value;
    more, pushed, advance := true, out, length;
    if decoded.Some? {
      pushed := pushed + [decoded.value];
    }
  }

  /** The pump's walk over one transfer: on any bytes it stops, and pulls at most one unit per 52 bytes. */
  method ParseTransfer<F>(decode: Decoder<F>, buf: seq<Byte>) returns (out: seq<F>, raw: nat)
    ensures (out, raw) == Walk(decode, buf, 0)
    ensures |out| <= raw && UNIT_MIN * raw <= |buf|
  {
    out, raw := [], 0;
    var off := 0;
    ghost var whole := Walk(decode, buf, 0);
    WalkStarts(decode, buf);
    while true
      invariant Reached(whole, decode, buf, off, out, raw)
      decreases |buf| - off
    {
      var more, pushed, advance := PullUnit(whole, decode, buf, off, out, raw);
      if !more {
        break;
      }
      out, raw := pushed, raw + 1;
      if advance == 0 {
        break;
      }
      off := off + advance;
      if off + RX_PREFIX_LEN + HTC_RX_STATUS_LEN > |buf| {
        ReachedStep(whole, decode, buf, off, out, raw);
        break;
      }
    }
  }

  lemma WalkStarts<F>(decode: Decoder<F>, buf: seq<Byte>)
    ensures Reached(Walk(decode, buf, 0), decode, buf, 0, [], 0)
  {
    assert [] + Walk(decode, buf, 0).0 == Walk(decode, buf, 0).0;
  }

  // ---- what the target sends --------------------------------------------------------------------------------

  /** A receive unit as the target fills it in; the bytes the driver never looks at are free. */
  datatype RxUnit = RxUnit(head: seq<Byte>, control: seq<Byte>, stamp: nat, status: Byte, b11: Byte, rssi: Byte,
                           antennas: seq<Byte>, rate: Byte, rest: seq<Byte>, mpdu: seq<Byte>, pad: seq<Byte>)

  predicate Consistent(u: RxUnit) {
    && |u.head| == 2 && |u.control| == 8 && |u.antennas| == 7 && |u.rest| == 19
    && u.stamp < TWO_32 * TWO_32 && 44 + |u.mpdu| < TWO_16
    && |u.pad| == RoundUp4(|u.mpdu|) - |u.mpdu|
  }

  function Status(u: RxUnit): seq<Byte> {
    Be64(u.stamp) + Be16(|u.mpdu|) + [u.status, u.b11, u.rssi] + u.antennas + [u.rate] + u.rest
  }

  function Serialise(u: RxUnit): seq<Byte> {
    u.head + Be16(44 + |u.mpdu|) + u.control + Status(u) + u.mpdu + u.pad
  }

  function SerialiseAll(us: seq<RxUnit>): seq<Byte> {
    if us == [] then [] else Serialise(us[0]) + SerialiseAll(us[1..])
  }

  /** What a unit is worth: its frame when it is error-free and not empty. */
  function Delivered<F>(decode: Decoder<F>, u: RxUnit): Option<F> {
    if |u.mpdu| == 0 || u.status % 16 != 0 then None
    else decode(u.mpdu, Rssi(u.rssi), Mcs(u.rate), u.stamp)
  }

  function AllDelivered<F>(decode: Decoder<F>, us: seq<RxUnit>): seq<F> {
    if us == [] then [] else Listed(Delivered(decode, us[0])) + AllDelivered(decode, us[1..])
  }

  // ---- the round trip ---------------------------------------------------------------------------------------

  lemma U64OfBe64(n: nat)
    requires n < TWO_32 * TWO_32
    ensures U64(Be64(n), 0) == n
  {
    var b := Be64(n);
    assert b[0..4] == Be32(n / TWO_32) && b[4..8] == Be32(n);
    U32At(b, 0, n / TWO_32);
    U32OfBe32(n);
    assert forall i :: 0 <= i < 4 ==> b[4 + i] == Be32(n)[i];
  }

  lemma HeaderReads(u: RxUnit)
    requires Consistent(u)
    ensures U16(Serialise(u), 2) == 44 + |u.mpdu|
    ensures |Serialise(u)| == UNIT_MIN + RoundUp4(|u.mpdu|)
    ensures Serialise(u)[12..52] == Status(u) && Serialise(u)[52..52 + |u.mpdu|] == u.mpdu
  {
    var b := Serialise(u);
    assert b[2..4] == Be16(44 + |u.mpdu|);
    U16At(b, 2, 44 + |u.mpdu|);
  }

  lemma StatusReads(u: RxUnit)
    requires Consistent(u)
    ensures var s := Status(u);
            && |s| == HTC_RX_STATUS_LEN && U64(s, 0) == u.stamp && U16(s, 8) == |u.mpdu|
            && s[10] == u.status && s[12] == u.rssi && s[20] == u.rate
  {
    var s := Status(u);
    assert s[8..10] == Be16(|u.mpdu|);
    U16At(s, 8, |u.mpdu|);
    U64OfBe64(u.stamp);
    assert forall i :: 0 <= i < 8 ==> s[i] == Be64(u.stamp)[i];
  }

  /** A unit parses to what it is worth wherever in a transfer it stands, and is as long as it was written. */
  lemma UnitParses<F>(decode: Decoder<F>, buf: seq<Byte>, at: nat, u: RxUnit)
    requires Consistent(u)
    requires at + |Serialise(u)| <= |buf| && buf[at..at + |Serialise(u)|] == Serialise(u)
    ensures ParseRxUnit(decode, buf, at) == Some((Delivered(decode, u), |Serialise(u)|))
  {
    UnitAdvances(buf, at, u);
    UnitIsCaptured(decode, buf, at, u);
  }

  lemma SliceOfSlice(buf: seq<Byte>, at: nat, b: seq<Byte>, i: nat, j: nat)
    requires at + |b| <= |buf| && buf[at..at + |b|] == b && i <= j <= |b|
    ensures buf[at + i..at + j] == b[i..j]
  {
    forall k | 0 <= k < j - i
      ensures buf[at + i..at + j][k] == b[i..j][k]
    {
      assert b[i + k] == buf[at..at + |b|][i + k] == buf[at + (i + k)];
    }
  }

  lemma FieldsAt(buf: seq<Byte>, at: nat, u: RxUnit)
    requires Consistent(u)
    requires at + |Serialise(u)| <= |buf| && buf[at..at + |Serialise(u)|] == Serialise(u)
    ensures |Serialise(u)| == UNIT_MIN + RoundUp4(|u.mpdu|)
    ensures U16(buf, at + 2) == 44 + |u.mpdu|
    ensures buf[at + 12..at + 52] == Status(u) && buf[at + 52..at + 52 + |u.mpdu|] == u.mpdu
  {
    var b := Serialise(u);
    HeaderReads(u);
    assert buf[at + 2] == b[2] && buf[at + 3] == b[3];
    SliceOfSlice(buf, at, b, 12, 52);
    SliceOfSlice(buf, at, b, 52, 52 + |u.mpdu|);
  }

  lemma StatusAt(buf: seq<Byte>, at: nat, u: RxUnit)
    requires Consistent(u) && at + 40 <= |buf| && buf[at..at + 40] == Status(u)
    ensures U64(buf, at) == u.stamp && U16(buf, at + 8) == |u.mpdu|
    ensures buf[at + 10] == u.status && buf[at + 12] == u.rssi && buf[at + 20] == u.rate
  {
    StatusReads(u);
    assert forall j :: 0 <= j < 40 ==> buf[at + j] == Status(u)[j];
  }

  lemma UnitAdvances(buf: seq<Byte>, at: nat, u: RxUnit)
    requires Consistent(u)
    requires at + |Serialise(u)| <= |buf| && buf[at..at + |Serialise(u)|] == Serialise(u)
    ensures at + UNIT_MIN <= |buf| && Advance(buf, at) == |Serialise(u)|
  {
    FieldsAt(buf, at, u);
  }

  lemma UnitIsCaptured<F>(decode: Decoder<F>, buf: seq<Byte>, at: nat, u: RxUnit)
    requires Consistent(u)
    requires at + |Serialise(u)| <= |buf| && buf[at..at + |Serialise(u)|] == Serialise(u)
    ensures at + UNIT_MIN <= |buf| && Captured(decode, buf, at) == Delivered(decode, u)
  {
    FieldsAt(buf, at, u);
    StatusAt(buf, at + 12, u);
  }

  lemma FrontAndRest(buf: seq<Byte>, at: nat, b: seq<Byte>, tail: seq<Byte>)
    requires at <= |buf| && buf[at..] == b + tail
    ensures at + |b| <= |buf| && buf[at..at + |b|] == b && buf[at + |b|..] == tail
  {
    assert buf[at..at + |b|] == buf[at..][..|b|];
    assert buf[at + |b|..] == buf[at..][|b|..];
  }

  lemma SerialisedFront(us: seq<RxUnit>, scrap: seq<Byte>)
    requires us != []
    ensures SerialiseAll(us) + scrap == Serialise(us[0]) + (SerialiseAll(us[1..]) + scrap)
  {
  }

  /**
   * De-aggregating any list of consistent units, wherever in a transfer it stands and with any scrap too
   * short to be a unit behind it, yields exactly the error-free units' frames, in order, each with its own
   * stamp, signal and rate.
   */
  lemma {:induction false} DeaggregationUndoesBatching<F>(decode: Decoder<F>, buf: seq<Byte>, at: nat,
                                                          us: seq<RxUnit>, scrap: seq<Byte>)
    requires at <= |buf| && buf[at..] == SerialiseAll(us) + scrap && |scrap| < UNIT_MIN
    requires forall u :: u in us ==> Consistent(u)
    ensures Walk(decode, buf, at) == (AllDelivered(decode, us), |us|)
    decreases |us|
  {
    if us == [] {
      assert |buf[at..]| == |scrap|;
    } else {
      var b := Serialise(us[0]);
      assert us[0] in us;
      SerialisedFront(us, scrap);
      FrontAndRest(buf, at, b, SerialiseAll(us[1..]) + scrap);
      UnitParses(decode, buf, at, us[0]);
      DeaggregationUndoesBatching(decode, buf, at + |b|, us[1..], scrap);
    }
  }
}
