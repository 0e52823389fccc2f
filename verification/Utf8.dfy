/**
 * Lossy decoding of UTF-8, on the bytes of the text it yields: every maximal ill-formed sequence,
 * of one to three bytes, becomes the three bytes of U+FFFD.
 */
module Utf8 {
  import opened Prelude

  const REPLACEMENT: seq<Byte> := [0xEF, 0xBF, 0xBD]

  /** The byte at a position, zero past the end. */
  function At(s: seq<Byte>, i: nat): Byte {
    if i < |s| then s[i] else 0
  }

  predicate Continues(b: Byte) {
    0x80 <= b <= 0xBF
  }

  /** Which second bytes may follow the first of a three- or four-byte character. */
  predicate SecondFits(a: Byte, b: Byte) {
    if a == 0xE0 then 0xA0 <= b <= 0xBF
    else if a == 0xED then 0x80 <= b <= 0x9F
    else if a == 0xF0 then 0x90 <= b <= 0xBF
    else if a == 0xF4 then 0x80 <= b <= 0x8F
    else Continues(b)
  }

  /** The length of the well-formed character at the start, or zero. */
  function CharLen(s: seq<Byte>): (n: nat)
    requires s != []
    ensures n <= |s| && n <= 4
  {
    var a := s[0];
    if a < 0x80 then 1
    else if 0xC2 <= a <= 0xDF then if Continues(At(s, 1)) then 2 else 0
    else if 0xE0 <= a <= 0xEF then if SecondFits(a, At(s, 1)) && Continues(At(s, 2)) then 3 else 0
    else if 0xF0 <= a <= 0xF4 then
      if SecondFits(a, At(s, 1)) && Continues(At(s, 2)) && Continues(At(s, 3)) then 4 else 0
    else 0
  }

  /** The code points a character can stand for: all but the surrogates. */
  type Scalar = c: int | 0 <= c < 0xD800 || 0xE000 <= c < 0x11_0000

  /** The bytes of a character, six bits to each byte after the first. */
  function Encode(c: Scalar): seq<Byte> {
    if c < 0x80 then [c]
    else if c < 0x800 then [0xC0 + c / 64, 0x80 + c % 64]
    else if c < 0x1_0000 then [0xE0 + c / 4096, 0x80 + c / 64 % 64, 0x80 + c % 64]
    else [0xF0 + c / 0x4_0000, 0x80 + c / 4096 % 64, 0x80 + c / 64 % 64, 0x80 + c % 64]
  }

  /** The code point of the well-formed character at the start. */
  function Decode(s: seq<Byte>): Scalar
    requires s != [] && CharLen(s) > 0
  {
    match CharLen(s)
    case 1 => s[0]
    case 2 => (s[0] as int - 0xC0) * 64 + (s[1] as int - 0x80)
    case 3 => (s[0] as int - 0xE0) * 4096 + (s[1] as int - 0x80) * 64 + (s[2] as int - 0x80)
    case _ =>
      (s[0] as int - 0xF0) * 0x4_0000 + (s[1] as int - 0x80) * 4096 + (s[2] as int - 0x80) * 64 + (s[3] as int - 0x80)
  }

  /** The length of the ill-formed sequence at the start, where there is no well-formed character. */
  function ErrorLen(s: seq<Byte>): (n: nat)
    requires s != []
    ensures 1 <= n <= 3 && n <= |s|
  {
    if !(0xE0 <= s[0] <= 0xF4) || !SecondFits(s[0], At(s, 1)) then 1
    else if s[0] >= 0xF0 && Continues(At(s, 2)) then 3
    else 2
  }

  function Lossy(s: seq<Byte>): seq<Byte> {
    if s == [] then []
    else if CharLen(s) > 0 then s[..CharLen(s)] + Lossy(s[CharLen(s)..])
    else REPLACEMENT + Lossy(s[ErrorLen(s)..])
  }

  /** Well-formed characters and nothing else. */
  predicate WellFormed(s: seq<Byte>) {
    s == [] || (CharLen(s) > 0 && WellFormed(s[CharLen(s)..]))
  }

  /** No ill-formed sequence shorter than its replacement. */
  predicate NoShortError(s: seq<Byte>) {
    s == [] || (if CharLen(s) > 0 then NoShortError(s[CharLen(s)..])
                else ErrorLen(s) == 3 && NoShortError(s[ErrorLen(s)..]))
  }

  /** A character is recognised by its own bytes. */
  lemma CharIsLocal(s: seq<Byte>, t: seq<Byte>)
    requires s != [] && CharLen(s) > 0 && CharLen(s) <= |t| && t[..CharLen(s)] == s[..CharLen(s)]
    ensures CharLen(t) == CharLen(s)
  {
    forall i | 0 <= i < CharLen(s)
      ensures At(t, i) == At(s, i)
    {
      assert t[i] == t[..CharLen(s)][i] == s[i];
    }
    assert At(t, 0) == At(s, 0);
  }

  lemma CharThenText(head: seq<Byte>, rest: seq<Byte>)
    requires head != [] && CharLen(head) == |head| && WellFormed(rest)
    ensures WellFormed(head + rest)
  {
    CharIsLocal(head, head + rest);
    assert (head + rest)[|head|..] == rest;
  }

  /** Whatever the bytes, the decoded text is well-formed. */
  lemma {:induction false} LossyIsWellFormed(s: seq<Byte>)
    ensures WellFormed(Lossy(s))
    decreases |s|
  {
    if s != [] {
      var c := CharLen(s);
      if c > 0 {
        LossyIsWellFormed(s[c..]);
        CharIsLocal(s, s[..c]);
        CharThenText(s[..c], Lossy(s[c..]));
      } else {
        LossyIsWellFormed(s[ErrorLen(s)..]);
        CharThenText(REPLACEMENT, Lossy(s[ErrorLen(s)..]));
      }
    }
  }

  /** Decoding changes nothing exactly on well-formed text. */
  lemma {:induction false} LossyIsIdentityExactly(s: seq<Byte>)
    ensures Lossy(s) == s <==> WellFormed(s)
  {
    LossyIsWellFormed(s);
    if WellFormed(s) {
      LossyKeeps(s);
    }
  }

  lemma {:induction false} LossyKeeps(s: seq<Byte>)
    requires WellFormed(s)
    ensures Lossy(s) == s
    decreases |s|
  {
    if s != [] {
      LossyKeeps(s[CharLen(s)..]);
      assert s == s[..CharLen(s)] + s[CharLen(s)..];
    }
  }

  /** Decoding never shrinks text, and keeps its length exactly when no ill-formed sequence is short. */
  lemma {:induction false} LossyLength(s: seq<Byte>)
    ensures |s| <= |Lossy(s)| <= 3 * |s|
    ensures |Lossy(s)| == |s| <==> NoShortError(s)
    decreases |s|
  {
    if s != [] {
      LossyLength(if CharLen(s) > 0 then s[CharLen(s)..] else s[ErrorLen(s)..]);
    }
  }

  lemma {:induction false} WellFormedHasNoError(s: seq<Byte>)
    requires WellFormed(s)
    ensures NoShortError(s)
    decreases |s|
  {
    if s != [] {
      WellFormedHasNoError(s[CharLen(s)..]);
    }
  }

  lemma CutConcat(a: seq<Byte>, b: seq<Byte>, n: nat)
    requires n <= |a|
    ensures (a + b)[..n] == a[..n] && (a + b)[n..] == a[n..] + b && a[..n] + (a[n..] + b) == a + b
  {
  }

  lemma {:induction false} LossyOfConcat(text: seq<Byte>, s: seq<Byte>)
    requires WellFormed(text)
    ensures Lossy(text + s) == text + Lossy(s)
    decreases |text|
  {
    if text == [] {
      assert text + s == s && text + Lossy(s) == Lossy(s);
    } else {
      var n := CharLen(text);
      CutConcat(text, s, n);
      CutConcat(text, Lossy(s), n);
      CharIsLocal(text, text + s);
      LossyOfConcat(text[n..], s);
    }
  }

  /** After any text, one replacement stands for one ill-formed sequence, and decoding goes on behind it. */
  lemma LossyAfterText(text: seq<Byte>, s: seq<Byte>)
    requires WellFormed(text) && s != [] && CharLen(s) == 0
    ensures Lossy(text + s) == text + ([0xEF, 0xBF, 0xBD] + Lossy(s[ErrorLen(s)..]))
  {
    LossyOfConcat(text, s);
  }

  // ---- the characters behind the bytes ----------------------------------------------------------------------

  /** A code point in base 64, and its digits back. */
  lemma Sextets(c: nat, w: nat, x: nat, y: nat, z: nat)
    requires x < 64 && y < 64 && z < 64 && c == 0x4_0000 * w + 4096 * x + 64 * y + z
    ensures c % 64 == z && c / 64 % 64 == y && c / 4096 % 64 == x && c / 0x4_0000 == w
    ensures c / 64 == 4096 * w + 64 * x + y && c / 4096 == 64 * w + x
  {
    assert c == 64 * (4096 * w + 64 * x + y) + z;
    assert c == 4096 * (64 * w + x) + (64 * y + z);
  }

  lemma SextetsOf(c: nat) returns (w: nat, x: nat, y: nat, z: nat)
    ensures x < 64 && y < 64 && z < 64 && c == 0x4_0000 * w + 4096 * x + 64 * y + z
    ensures c % 64 == z && c / 64 % 64 == y && c / 4096 % 64 == x && c / 0x4_0000 == w
    ensures c / 64 == 4096 * w + 64 * x + y && c / 4096 == 64 * w + x
  {
    z, y, x, w := c % 64, c / 64 % 64, c / 64 / 64 % 64, c / 64 / 64 / 64;
    Sextets(c, w, x, y, z);
  }

  /** The encoding, digit by digit. */
  function Encoded(w: nat, x: nat, y: nat, z: nat): (r: seq<Byte>)
    requires w < 5 && x < 64 && y < 64 && z < 64
  {
    if w == 0 && x == 0 && y < 2 then [64 * y + z]
    else if w == 0 && x == 0 && y < 32 then [0xC0 + y, 0x80 + z]
    else if w == 0 && x < 16 then [0xE0 + x, 0x80 + y, 0x80 + z]
    else [0xF0 + w, 0x80 + x, 0x80 + y, 0x80 + z]
  }

  lemma EncodeIsEncoded(c: Scalar, w: nat, x: nat, y: nat, z: nat)
    requires x < 64 && y < 64 && z < 64 && c == 0x4_0000 * w + 4096 * x + 64 * y + z
    ensures w < 5 && Encode(c) == Encoded(w, x, y, z)
  {
    Sextets(c, w, x, y, z);
  }

  /** The encoding of every scalar value is one character, and gives the value back. */
  lemma EncodingIsAChar(c: Scalar)
    ensures Encode(c) != [] && CharLen(Encode(c)) == |Encode(c)| && Decode(Encode(c)) == c
  {
    var w, x, y, z := SextetsOf(c);
    EncodeIsEncoded(c, w, x, y, z);
  }

  /** Every character is the encoding of the scalar value it decodes to. */
  lemma CharIsAnEncoding(s: seq<Byte>)
    requires s != [] && CharLen(s) > 0
    ensures Encode(Decode(s)) == s[..CharLen(s)]
  {
    match CharLen(s)
    case 1 =>
    case 2 => EncodeIsEncoded(Decode(s), 0, 0, s[0] - 0xC0, s[1] - 0x80);
    case 3 => EncodeIsEncoded(Decode(s), 0, s[0] - 0xE0, s[1] - 0x80, s[2] - 0x80);
    case _ => EncodeIsEncoded(Decode(s), s[0] - 0xF0, s[1] - 0x80, s[2] - 0x80, s[3] - 0x80);
  }

  function EncodeText(cs: seq<Scalar>): seq<Byte> {
    if cs == [] then [] else Encode(cs[0]) + EncodeText(cs[1..])
  }

  lemma {:induction false} EncodedTextIsWellFormed(cs: seq<Scalar>)
    ensures WellFormed(EncodeText(cs))
  {
    if cs != [] {
      EncodedTextIsWellFormed(cs[1..]);
      EncodingIsAChar(cs[0]);
      CharThenText(Encode(cs[0]), EncodeText(cs[1..]));
    }
  }

  lemma EncodeTextCons(c: Scalar, cs: seq<Scalar>)
    ensures EncodeText([c] + cs) == Encode(c) + EncodeText(cs)
  {
    assert ([c] + cs)[1..] == cs;
  }

  lemma {:induction false} DecodeText(s: seq<Byte>) returns (cs: seq<Scalar>)
    requires WellFormed(s)
    ensures EncodeText(cs) == s
    decreases |s|
  {
    cs := [];
    if s != [] {
      var n := CharLen(s);
      var rest := DecodeText(s[n..]);
      cs := [Decode(s)] + rest;
      CharIsAnEncoding(s);
      EncodeTextCons(Decode(s), rest);
      assert s == s[..n] + s[n..];
    }
  }

  /** The text starts with the first character and goes on with the others. */
  lemma FirstChar(c: Scalar, rest: seq<Byte>)
    ensures CharLen(Encode(c) + rest) == |Encode(c)| && (Encode(c) + rest)[..|Encode(c)|] == Encode(c)
    ensures (Encode(c) + rest)[|Encode(c)|..] == rest
  {
    EncodingIsAChar(c);
    CharIsLocal(Encode(c), Encode(c) + rest);
  }

  lemma {:induction false} EncodeTextIsInjective(a: seq<Scalar>, b: seq<Scalar>)
    requires EncodeText(a) == EncodeText(b)
    ensures a == b
    decreases |a|
  {
    if a != [] {
      EncodingIsAChar(a[0]);
    }
    if b != [] {
      EncodingIsAChar(b[0]);
    }
    if a != [] && b != [] {
      FirstChar(a[0], EncodeText(a[1..]));
      FirstChar(b[0], EncodeText(b[1..]));
      EncodeTextIsInjective(a[1..], b[1..]);
      assert a == [a[0]] + a[1..] && b == [b[0]] + b[1..];
    }
  }

  /** Well-formed text is the encoding of scalar values, each text of one list of them. */
  lemma WellFormedIsEncodedText(s: seq<Byte>)
    ensures WellFormed(s) <==> exists cs :: EncodeText(cs) == s
    ensures forall a, b :: EncodeText(a) == s && EncodeText(b) == s ==> a == b
  {
    if WellFormed(s) {
      var cs := DecodeText(s);
    }
    forall cs | EncodeText(cs) == s
      ensures WellFormed(s)
    {
      EncodedTextIsWellFormed(cs);
    }
    forall a, b | EncodeText(a) == s && EncodeText(b) == s
      ensures a == b
    {
      EncodeTextIsInjective(a, b);
    }
  }

  /** Bytes with which some character begins. */
  ghost predicate Begins(p: seq<Byte>) {
    exists c :: p <= Encode(c)
  }

  /** A beginning of a character, cut off by the end or not, is never shorter than the ill-formed sequence there. */
  lemma BeginningIsWithinError(s: seq<Byte>, m: nat, c: Scalar)
    requires s != [] && CharLen(s) == 0 && 0 < m <= |s| && s[..m] <= Encode(c)
    ensures m <= ErrorLen(s)
  {
    var e := Encode(c);
    EncodingIsAChar(c);
    assert s[..m] == e[..m];
    if m == |e| {
      CharIsLocal(e, s);
      assert false;
    }
    CutCharIsOneError(e, m);
    assert s[0] == s[..m][0] == e[0];
    assert m > 1 ==> s[1] == s[..m][1] == e[1];
    assert m > 2 ==> s[2] == s[..m][2] == e[2];
  }

  /** Continuation bytes complete a character that was cut off. */
  lemma CompleteChar(s: seq<Byte>) returns (c: Scalar)
    requires s != [] && CharLen(s) == 0 && ErrorLen(s) > 1
    ensures s[..ErrorLen(s)] <= Encode(c)
  {
    var n := ErrorLen(s);
    var t := s[..n] + [0x80, 0x80];
    assert t[0] == s[0] && t[1] == s[1] && (n > 2 ==> t[2] == s[2]) && t[n] == 0x80 && t[n + 1] == 0x80;
    assert CharLen(t) > n;
    c := Decode(t);
    CharIsAnEncoding(t);
    assert t[..CharLen(t)][..n] == s[..n];
  }

  /** Only a sequence that no character begins with is ill-formed, one byte at the least and as long as a character
      may begin so (section 3.9 of the Unicode Standard). */
  lemma ErrorIsMaximal(s: seq<Byte>)
    requires s != [] && CharLen(s) == 0
    ensures ErrorLen(s) == 1 || Begins(s[..ErrorLen(s)])
    ensures forall m | ErrorLen(s) < m <= |s| :: !Begins(s[..m])
  {
    if ErrorLen(s) > 1 {
      var c := CompleteChar(s);
    }
    forall m | ErrorLen(s) < m <= |s|
      ensures !Begins(s[..m])
    {
      if c :| s[..m] <= Encode(c) {
        BeginningIsWithinError(s, m, c);
      }
    }
  }

  /** Cutting well-formed text spoils at most its last character. */
  lemma {:induction false} CutTextGrowsByTwo(s: seq<Byte>, n: nat)
    requires WellFormed(s) && n <= |s|
    ensures |Lossy(s[..n])| <= n + 2
    decreases |s|
  {
    if n > 0 {
      var c, t := CharLen(s), s[..n];
      if n >= c {
        assert t[..c] == s[..c];
        CharIsLocal(s, t);
        CutTextGrowsByTwo(s[c..], n - c);
        assert t[c..] == s[c..][..n - c];
      } else {
        CutCharIsOneError(s, n);
        assert t[n..] == [] && Lossy([]) == [];
      }
    }
  }

  /** A byte that begins no character. */
  lemma StrayByte()
    ensures Lossy([0xFF]) == REPLACEMENT
  {
    var s: seq<Byte> := [0xFF];
    assert CharLen(s) == 0 && ErrorLen(s) == 1 && s[1..] == [];
  }

  lemma CutCharIsOneError(s: seq<Byte>, n: nat)
    requires s != [] && 0 < n < CharLen(s)
    ensures CharLen(s[..n]) == 0 && ErrorLen(s[..n]) == n
  {
    var t := s[..n];
    assert At(t, 0) == At(s, 0);
    assert At(t, 1) == if n > 1 then At(s, 1) else 0;
    assert At(t, 2) == if n > 2 then At(s, 2) else 0;
    assert At(t, 3) == 0;
  }
}
