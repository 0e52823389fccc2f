/** Big-endian integers on the wire.  Encoding keeps the low bits only, as a narrowing cast does. */
module Bytes {
  import opened Prelude
  import DivMod

  const TWO_16: nat := 0x1_0000
  const TWO_32: nat := 0x1_0000_0000

  function Be16(n: nat): (r: seq<Byte>)
    ensures |r| == 2
  {
    [n / 0x100 % 256, n % 256]
  }

  function Be32(n: nat): (r: seq<Byte>)
    ensures |r| == 4
  {
    [n / 0x100_0000 % 256, n / 0x1_0000 % 256, n / 0x100 % 256, n % 256]
  }

  function U16(s: seq<Byte>, i: nat): (n: nat)
    requires i + 2 <= |s|
    ensures n < TWO_16
  {
    s[i] as int * 0x100 + s[i + 1] as int
  }

  function U32(s: seq<Byte>, i: nat): (n: nat)
    requires i + 4 <= |s|
    ensures n < TWO_32
  {
    s[i] as int * 0x100_0000 + s[i + 1] as int * 0x1_0000 + s[i + 2] as int * 0x100 + s[i + 3] as int
  }

  /** The byte worth `b` and everything below it. */
  lemma SplitByte(n: nat, b: nat)
    requires b > 0
    ensures n % (256 * b) == (n / b % 256) * b + n % b
  {
    DivMod.Split(n, b);
    var q := n / b;
    DivMod.Split(q, 256);
    assert n == b * (256 * (q / 256) + q % 256) + n % b;
    assert b * (256 * (q / 256) + q % 256) == (256 * b) * (q / 256) + b * (q % 256);
    DivMod.Monotone(b, q % 256, 255);
    DivMod.Unique(n, 256 * b, q / 256, b * (q % 256) + n % b);
  }

  lemma U16OfBe16(n: nat)
    ensures U16(Be16(n), 0) == n % TWO_16
  {
    SplitByte(n, 0x100);
  }

  lemma U32OfBe32(n: nat)
    ensures U32(Be32(n), 0) == n % TWO_32
  {
    SplitByte(n, 0x100);
    SplitByte(n, 0x1_0000);
    SplitByte(n, 0x100_0000);
  }

  /** A field reads the same wherever in a message it stands. */
  lemma U16At(s: seq<Byte>, i: nat, n: nat)
    requires i + 2 <= |s| && s[i..i + 2] == Be16(n) && n < TWO_16
    ensures U16(s, i) == n
  {
    U16OfBe16(n);
    assert s[i] == s[i..i + 2][0] && s[i + 1] == s[i..i + 2][1];
  }

  lemma U32At(s: seq<Byte>, i: nat, n: nat)
    requires i + 4 <= |s| && s[i..i + 4] == Be32(n) && n < TWO_32
    ensures U32(s, i) == n
  {
    U32OfBe32(n);
    var t := s[i..i + 4];
    assert s[i] == t[0] && s[i + 1] == t[1] && s[i + 2] == t[2] && s[i + 3] == t[3];
  }
}
