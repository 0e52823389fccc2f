/**
 * The NDN packet encoder and parser, for the type-length-value coding of the NDN Packet Format
 * Specification v0.3, section "Variable Size Encoding for type (T) and length (L)".  A name
 * component is a string, told by its UTF-8 bytes; the parser decodes components lossily.
 */
module NdnTlv {
  import opened Prelude
  import opened Bytes
  import Utf8

  const T_INTEREST: Byte := 0x05
  const T_DATA: Byte := 0x06
  const T_NAME: Byte := 0x07
  const T_COMPONENT: Byte := 0x08
  const T_NONCE: Byte := 0x0a
  const T_CONTENT: Byte := 0x15

  // ---- encoding ------------------------------------------------------------------------------------------

  /** One byte below 253, else a marker and two bytes; the casts to a byte drop all higher bits. */
  function VarNum(n: nat): seq<Byte> {
    if n < 253 then [n] else [0xfd, n / 256 % 256, n % 256]
  }

  function Tlv(t: Byte, v: seq<Byte>): (r: seq<Byte>)
    ensures |r| >= 2 + |v|
  {
    [t] + VarNum(|v|) + v
  }

  function Components(parts: seq<seq<Byte>>): seq<Byte> {
    if parts == [] then [] else Tlv(T_COMPONENT, parts[0]) + Components(parts[1..])
  }

  function NameTlv(parts: seq<seq<Byte>>): seq<Byte> {
    Tlv(T_NAME, Components(parts))
  }

  function Interest(parts: seq<seq<Byte>>, seqNo: nat): seq<Byte> {
    Tlv(T_INTEREST, NameTlv(parts) + Tlv(T_NONCE, Be32(seqNo)))
  }

  function Data(parts: seq<seq<Byte>>, content: seq<Byte>): seq<Byte> {
    Tlv(T_DATA, NameTlv(parts) + Tlv(T_CONTENT, content))
  }

  method AppendVarNum(n: nat, o: seq<Byte>) returns (r: seq<Byte>)
    ensures r == o + VarNum(n)
  {
    if n < 253 {
      r := o + [n];
    } else {
      r := o + [0xfd];
      r := r + [n / 256 % 256];
      r := r + [n % 256];
    }
  }

  method BuildTlv(t: Byte, v: seq<Byte>) returns (o: seq<Byte>)
    ensures o == Tlv(t, v)
  {
    o := AppendVarNum(|v|, [t]);
    o := o + v;
  }

  lemma Regroup(a: seq<Byte>, b: seq<Byte>, c: seq<Byte>)
    ensures (a + b) + c == a + (b + c)
  {
  }

  lemma {:induction false} ComponentsSnoc(parts: seq<seq<Byte>>, p: seq<Byte>)
    ensures Components(parts + [p]) == Components(parts) + Tlv(T_COMPONENT, p)
  {
    if parts == [] {
      assert [] + [p] == [p] && [p][1..] == [];
    } else {
      ComponentsSnoc(parts[1..], p);
      assert (parts + [p])[1..] == parts[1..] + [p];
      Regroup(Tlv(T_COMPONENT, parts[0]), Components(parts[1..]), Tlv(T_COMPONENT, p));
    }
  }

  method BuildName(parts: seq<seq<Byte>>) returns (o: seq<Byte>)
    ensures o == NameTlv(parts)
  {
    var nv: seq<Byte> := [];
    for i := 0 to |parts|
      invariant nv == Components(parts[..i])
    {
      ComponentsSnoc(parts[..i], parts[i]);
      assert parts[..i + 1] == parts[..i] + [parts[i]];
      var c := BuildTlv(T_COMPONENT, parts[i]);
      nv := nv + c;
    }
    assert parts[..|parts|] == parts;
    o := BuildTlv(T_NAME, nv);
  }

  method BuildInterest(parts: seq<seq<Byte>>, seqNo: nat) returns (o: seq<Byte>)
    ensures o == Interest(parts, seqNo)
  {
    var b := BuildName(parts);
    var nonce := BuildTlv(T_NONCE, Be32(seqNo));
    o := BuildTlv(T_INTEREST, b + nonce);
  }

  method BuildData(parts: seq<seq<Byte>>, content: seq<Byte>) returns (o: seq<Byte>)
    ensures o == Data(parts, content)
  {
    var b := BuildName(parts);
    var c := BuildTlv(T_CONTENT, content);
    o := BuildTlv(T_DATA, b + c);
  }

  // ---- what a packet carries -------------------------------------------------------------------------------

  /** Where an element with value `v` ends that begins at `at`. */
  function ElementEnd(at: nat, v: seq<Byte>): nat {
    at + (if |v| < 253 then 2 else 4) + |v|
  }

  /** At `at` stands an element of type `t` with value `v`: a byte, or a marker and two bytes, of length. */
  predicate IsElement(b: seq<Byte>, at: nat, t: int, v: seq<Byte>) {
    && ElementEnd(at, v) <= |b| && b[at] == t
    && (if |v| < 253 then b[at + 1] == |v| && b[at + 2..at + 2 + |v|] == v
        else b[at + 1] == 253 && 256 * b[at + 2] as int + b[at + 3] as int == |v| && b[at + 4..at + 4 + |v|] == v)
  }

  /** From `at` to the end stand just these components. */
  predicate ListsComponents(b: seq<Byte>, at: nat, parts: seq<seq<Byte>>)
    decreases |parts|
  {
    if parts == [] then at == |b|
    else IsElement(b, at, 0x08, parts[0]) && ListsComponents(b, ElementEnd(at, parts[0]), parts[1..])
  }

  /** A packet of type `kind` that consists of a name and then one element of type `t`. */
  ghost predicate Carries(pkt: seq<Byte>, kind: int, parts: seq<seq<Byte>>, t: int, v: seq<Byte>) {
    exists body, name ::
      && IsElement(pkt, 0, kind, body) && |pkt| == ElementEnd(0, body)
      && IsElement(body, 0, 0x07, name) && ListsComponents(name, 0, parts)
      && IsElement(body, ElementEnd(0, name), t, v) && |body| == ElementEnd(ElementEnd(0, name), v)
  }

  lemma TlvIsElement(a: seq<Byte>, t: Byte, v: seq<Byte>, rest: seq<Byte>)
    requires |v| < 65536
    ensures IsElement(a + Tlv(t, v) + rest, |a|, t, v) && ElementEnd(|a|, v) == |a + Tlv(t, v)|
  {
    var b, l := a + Tlv(t, v) + rest, VarNum(|v|);
    assert b == a + ([t] + (l + (v + rest)));
    assert b[|a| + 1 + |l|..|a| + 1 + |l| + |v|] == v;
    assert forall i | 0 <= i < |l| :: b[|a| + 1 + i] == l[i];
  }

  lemma FirstIsElement(t: Byte, v: seq<Byte>, rest: seq<Byte>)
    requires |v| < 65536
    ensures IsElement(Tlv(t, v) + rest, 0, t, v) && ElementEnd(0, v) == |Tlv(t, v)|
  {
    TlvIsElement([], t, v, rest);
    assert [] + Tlv(t, v) + rest == Tlv(t, v) + rest && [] + Tlv(t, v) == Tlv(t, v);
  }

  lemma {:induction false} ComponentsAreListed(before: seq<Byte>, parts: seq<seq<Byte>>)
    requires |Components(parts)| < 65536
    ensures ListsComponents(before + Components(parts), |before|, parts)
    decreases |parts|
  {
    if parts == [] {
      assert before + [] == before;
    } else {
      var head, rest := Tlv(T_COMPONENT, parts[0]), Components(parts[1..]);
      TlvIsElement(before, T_COMPONENT, parts[0], rest);
      assert before + Components(parts) == before + head + rest;
      ComponentsAreListed(before + head, parts[1..]);
    }
  }

  lemma PacketCarries(kind: Byte, parts: seq<seq<Byte>>, t: Byte, v: seq<Byte>)
    requires |NameTlv(parts)| + |Tlv(t, v)| < 65536
    ensures Carries(Tlv(kind, NameTlv(parts) + Tlv(t, v)), kind, parts, t, v)
  {
    var body, name := NameTlv(parts) + Tlv(t, v), Components(parts);
    FirstIsElement(kind, body, []);
    assert Tlv(kind, body) + [] == Tlv(kind, body);
    FirstIsElement(T_NAME, name, Tlv(t, v));
    assert ListsComponents(name, 0, parts) by {
      ComponentsAreListed([], parts);
      assert [] + name == name;
    }
    assert IsElement(body, ElementEnd(0, name), t, v) && |body| == ElementEnd(ElementEnd(0, name), v) by {
      TlvIsElement(NameTlv(parts), t, v, []);
      assert body + [] == body;
    }
  }

  /** A Data packet is its name and, right behind it, the content. */
  lemma DataCarriesContent(parts: seq<seq<Byte>>, content: seq<Byte>)
    requires |NameTlv(parts)| + |Tlv(T_CONTENT, content)| < 65536
    ensures Carries(Data(parts, content), 0x06, parts, 0x15, content)
  {
    PacketCarries(T_DATA, parts, T_CONTENT, content);
  }

  /** An Interest is its name and a nonce of four bytes, the sequence number modulo 2^32, highest byte first. */
  lemma InterestCarriesNonce(parts: seq<seq<Byte>>, seqNo: nat) returns (nonce: seq<Byte>)
    requires |NameTlv(parts)| + 6 < 65536
    ensures Carries(Interest(parts, seqNo), 0x05, parts, 0x0a, nonce) && |nonce| == 4
    ensures nonce[0] as int * 0x100_0000 + nonce[1] as int * 0x1_0000 + nonce[2] as int * 0x100 + nonce[3] as int
            == seqNo % 0x1_0000_0000
  {
    nonce := Be32(seqNo);
    U32OfBe32(seqNo);
    PacketCarries(T_INTEREST, parts, T_NONCE, nonce);
  }

  // ---- parsing ---------------------------------------------------------------------------------------------

  /** The number read at position `i` and the position after it. */
  function ReadNum(b: seq<Byte>, i: nat): (r: Option<(nat, nat)>)
    ensures r.Some? ==> i < r.value.1 <= |b| && r.value.0 < 65536
  {
    if i >= |b| then None
    else if b[i] < 253 then Some((b[i], i + 1))
    else if b[i] == 253 && i + 2 < |b| then Some((U16(b, i + 1), i + 3))
    else None
  }

  /** The bytes from `i` for `n`, if they are there. */
  function Slice(b: seq<Byte>, i: nat, n: nat): (r: Option<seq<Byte>>)
    ensures r.Some? ==> i + n <= |b| && r.value == b[i..i + n]
  {
    if i + n <= |b| then Some(b[i..i + n]) else None
  }

  datatype Element = Element(t: nat, value: seq<Byte>, next: nat)

  /** One type, length and value at position `i`. */
  function ReadElement(b: seq<Byte>, i: nat): (r: Option<Element>)
    ensures r.Some? ==> i + 2 + |r.value.value| <= r.value.next <= |b|
    ensures r.Some? ==> |r.value.value| < 65536
    ensures r.Some? && |r.value.value| >= 253 ==> i + 4 + |r.value.value| <= r.value.next
  {
    var t := ReadNum(b, i);
    if t.None? then None
    else
      var l := ReadNum(b, t.value.1);
      if l.None? then None
      else
        var v := Slice(b, l.value.1, l.value.0);
        if v.None? then None else Some(Element(t.value.0, v.value, l.value.1 + l.value.0))
  }

  function Before(v: seq<Byte>, rest: Option<seq<seq<Byte>>>): Option<seq<seq<Byte>>> {
    if rest.None? then None else Some([v] + rest.value)
  }

  /** Every value from position `m` to the end; any type is taken for a component. */
  function ReadComponents(sub: seq<Byte>, m: nat): Option<seq<seq<Byte>>>
    decreases |sub| - m
  {
    if m >= |sub| then Some([])
    else
      var e := ReadElement(sub, m);
      if e.None? then None
      else Before(e.value.value, ReadComponents(sub, e.value.next))
  }

  /** The components of the first name element from position `j` on. */
  function FindName(val: seq<Byte>, j: nat): Option<seq<seq<Byte>>>
    decreases |val| - j
  {
    if j >= |val| then None
    else
      var e := ReadElement(val, j);
      if e.None? then None
      else if e.value.t == T_NAME as nat then ReadComponents(e.value.value, 0)
      else FindName(val, e.value.next)
  }

  /** Packet kind and the bytes of the name components. */
  function ParseRaw(pkt: seq<Byte>): Option<(Byte, seq<seq<Byte>>)> {
    if pkt == [] || (pkt[0] != T_INTEREST && pkt[0] != T_DATA) then None
    else
      var e := ReadElement(pkt, 0);
      if e.None? then None
      else
        var name := FindName(e.value.value, 0);
        if name.None? then None else Some((pkt[0], name.value))
  }

  function Decoded(raw: seq<seq<Byte>>): (r: seq<seq<Byte>>)
    ensures |r| == |raw|
  {
    seq(|raw|, i requires 0 <= i < |raw| => Utf8.Lossy(raw[i]))
  }

  /** Packet kind and name components, as the strings the parser returns. */
  function Parse(pkt: seq<Byte>): Option<(Byte, seq<seq<Byte>>)> {
    var raw := ParseRaw(pkt);
    if raw.None? then None else Some((raw.value.0, Decoded(raw.value.1)))
  }

  /** The cursor form of `ReadNum`: the position moves only on success. */
  method Rd(b: seq<Byte>, i: nat) returns (v: Option<nat>, i': nat)
    ensures ReadNum(b, i) == if v.Some? then Some((v.value, i')) else None
    ensures v.None? ==> i' == i
  {
    i' := i;
    if i >= |b| {
      return None, i;
    }
    var x := b[i];
    if x < 253 {
      v, i' := Some(x), i + 1;
    } else if x == 253 {
      if i + 2 >= |b| {
        return None, i;
      }
      v, i' := Some(U16(b, i + 1)), i + 3;
    } else {
      v := None;
    }
  }

  /** Type, length and value, by the cursor. */
  method RdElement(b: seq<Byte>, i: nat) returns (e: Option<Element>)
    ensures e == ReadElement(b, i)
  {
    var t, i1 := Rd(b, i);
    if t.None? { return None; }
    var l, i2 := Rd(b, i1);
    if l.None? { return None; }
    var v := Slice(b, i2, l.value);
    if v.None? { return None; }
    e := Some(Element(t.value, v.value, i2 + l.value));
  }

  function DecodedName(raw: Option<seq<seq<Byte>>>): Option<seq<seq<Byte>>> {
    if raw.None? then None else Some(Decoded(raw.value))
  }

  /** Taking one element moves its value from the bytes ahead to the components behind. */
  lemma ComponentStep(sub: seq<Byte>, m: nat, before: seq<seq<Byte>>)
    requires m < |sub|
    ensures var e := ReadElement(sub, m);
            if e.None? then ReadComponents(sub, m) == None
            else
              var rest := ReadComponents(sub, e.value.next);
              if rest.None? then ReadComponents(sub, m) == None
              else ReadComponents(sub, m).Some?
                   && before + ReadComponents(sub, m).value == before + [e.value.value] + rest.value
  {
    var e := ReadElement(sub, m);
    if e.Some? && ReadComponents(sub, e.value.next).Some? {
      assert before + ([e.value.value] + ReadComponents(sub, e.value.next).value)
          == before + [e.value.value] + ReadComponents(sub, e.value.next).value;
    }
  }

  lemma DecodedSnoc(raw: seq<seq<Byte>>, v: seq<Byte>)
    ensures Decoded(raw + [v]) == Decoded(raw) + [Utf8.Lossy(v)]
  {
  }

  /** The inner loop over a name's components: each is decoded as it is pushed. */
  method ParseComponents(sub: seq<Byte>) returns (cs: Option<seq<seq<Byte>>>)
    ensures cs == DecodedName(ReadComponents(sub, 0))
  {
    var m := 0;
    var acc: seq<seq<Byte>> := [];
    ghost var raw: seq<seq<Byte>> := [];
    assert ReadComponents(sub, 0).Some? ==> raw + ReadComponents(sub, 0).value == ReadComponents(sub, 0).value;
    while m < |sub|
      invariant acc == Decoded(raw)
      invariant ReadComponents(sub, 0) ==
                if ReadComponents(sub, m).None? then None else Some(raw + ReadComponents(sub, m).value)
      decreases |sub| - m
    {
      ComponentStep(sub, m, raw);
      var e := RdElement(sub, m);
      if e.None? {
        return None;
      }
      DecodedSnoc(raw, e.value.value);
      acc := acc + [Utf8.Lossy(e.value.value)];
      raw := raw + [e.value.value];
      m := e.value.next;
    }
    assert raw + [] == raw;
    cs := Some(acc);
  }

  /** The loop over a packet's elements, up to the first name. */
  method ParseBody(val: seq<Byte>) returns (cs: Option<seq<seq<Byte>>>)
    ensures cs == DecodedName(FindName(val, 0))
  {
    var j := 0;
    while j < |val|
      invariant FindName(val, 0) == FindName(val, j)
      decreases |val| - j
    {
      var e := RdElement(val, j);
      if e.None? { return None; }
      if e.value.t == T_NAME as nat {
        cs := ParseComponents(e.value.value);
        return;
      }
      j := e.value.next;
    }
    cs := None;
  }

  /** The whole parser: total on every byte string, and never out of bounds. */
  method ParsePacket(pkt: seq<Byte>) returns (r: Option<(Byte, seq<seq<Byte>>)>)
    ensures r == Parse(pkt)
  {
    if |pkt| == 0 || (pkt[0] != T_INTEREST && pkt[0] != T_DATA) {
      return None;
    }
    var e := RdElement(pkt, 0);
    if e.None? { return None; }
    var cs := ParseBody(e.value.value);
    r := if cs.None? then None else Some((pkt[0], cs.value));
  }

  // ---- parsing undoes encoding --------------------------------------------------------------------------------

  lemma VarNumReadsBack(n: nat, rest: seq<Byte>)
    ensures ReadNum(VarNum(n) + rest, 0) == Some((if n < 253 then n else n % 65536, |VarNum(n)|))
  {
    assert n / 256 % 256 * 256 + n % 256 == n % 65536;
  }

  /** Reading does not depend on what lies before the position. */
  lemma ReadNumShift(s: seq<Byte>, off: nat, b: seq<Byte>, i: nat)
    requires off <= |s| && s[off..] == b
    ensures ReadNum(s, off + i) ==
            if ReadNum(b, i).None? then None else Some((ReadNum(b, i).value.0, off + ReadNum(b, i).value.1))
  {
    assert forall k | 0 <= k < |b| :: b[k] == s[off + k];
  }

  lemma SliceShift(s: seq<Byte>, off: nat, b: seq<Byte>, i: nat, n: nat)
    requires off <= |s| && s[off..] == b
    ensures Slice(s, off + i, n) == Slice(b, i, n)
  {
    if i + n <= |b| {
      assert s[off + i..off + i + n] == b[i..i + n];
    }
  }

  /** The same element, found `off` further on. */
  function Moved(e: Option<Element>, off: nat): Option<Element> {
    if e.None? then None else Some(e.value.(next := off + e.value.next))
  }

  lemma ReadElementShift(s: seq<Byte>, off: nat, b: seq<Byte>, i: nat)
    requires off <= |s| && s[off..] == b
    ensures ReadElement(s, off + i) == Moved(ReadElement(b, i), off)
  {
    ReadNumShift(s, off, b, i);
    var t := ReadNum(b, i);
    if t.Some? {
      ReadNumShift(s, off, b, t.value.1);
      var l := ReadNum(b, t.value.1);
      if l.Some? {
        SliceShift(s, off, b, l.value.1, l.value.0);
      }
    }
  }

  lemma ComponentsStep(s: seq<Byte>, off: nat, b: seq<Byte>, m: nat, e: Option<Element>)
    requires m < |b| && |s| == off + |b|
    requires ReadElement(b, m) == e && ReadElement(s, off + m) == Moved(e, off)
    requires e.Some? ==> ReadComponents(s, off + e.value.next) == ReadComponents(b, e.value.next)
    ensures ReadComponents(s, off + m) == ReadComponents(b, m)
  {
  }

  lemma {:induction false} ReadComponentsShift(s: seq<Byte>, off: nat, b: seq<Byte>, m: nat)
    requires off <= |s| && s[off..] == b
    ensures ReadComponents(s, off + m) == ReadComponents(b, m)
    decreases |b| - m
  {
    if m < |b| {
      ReadElementShift(s, off, b, m);
      var e := ReadElement(b, m);
      if e.Some? {
        ReadComponentsShift(s, off, b, e.value.next);
      }
      ComponentsStep(s, off, b, m, e);
    }
  }

  /** The length an element is read back with: 16 bits of the true one. */
  function Stored(n: nat): nat {
    if n < 253 then n else n % 65536
  }

  /** A well-sized element reads back whole; a longer one as a truncated value, if the bytes are there. */
  lemma TlvReadsBack(t: Byte, v: seq<Byte>, rest: seq<Byte>)
    requires t < 253
    ensures ReadElement(Tlv(t, v) + rest, 0) ==
            Some(Element(t, v[..Stored(|v|)], 1 + |VarNum(|v|)| + Stored(|v|)))
  {
    var b, l := Tlv(t, v) + rest, VarNum(|v|);
    assert ReadNum(b, 0) == Some((t, 1));
    assert ReadNum(b, 1) == Some((Stored(|v|), 1 + |l|)) by {
      assert b[1..] == l + (v + rest);
      ReadNumShift(b, 1, l + (v + rest), 0);
      VarNumReadsBack(|v|, v + rest);
    }
    assert b == ([t] + l) + v + rest;
    MiddleSlice([t] + l, v, rest, Stored(|v|));
    ElementFrom(b, t, 1, Stored(|v|), 1 + |l|);
  }

  lemma MiddleSlice(a: seq<Byte>, v: seq<Byte>, rest: seq<Byte>, n: nat)
    requires n <= |v|
    ensures (a + v + rest)[|a|..|a| + n] == v[..n]
  {
  }

  lemma ElementFrom(b: seq<Byte>, t: nat, i: nat, n: nat, j: nat)
    requires ReadNum(b, 0) == Some((t, i)) && ReadNum(b, i) == Some((n, j)) && j + n <= |b|
    ensures ReadElement(b, 0) == Some(Element(t, b[j..j + n], j + n))
  {
  }

  /** What follows an element that ends early is of no account. */
  lemma ReadElementPrefix(b: seq<Byte>, n: nat, i: nat)
    requires n <= |b|
    ensures ReadElement(b, i).Some? && ReadElement(b, i).value.next <= n ==> ReadElement(b[..n], i) == ReadElement(b, i)
    ensures ReadElement(b[..n], i).Some? ==> ReadElement(b[..n], i) == ReadElement(b, i)
  {
    ReadNumPrefix(b, n, i);
    if ReadNum(b, i).Some? {
      ReadNumPrefix(b, n, ReadNum(b, i).value.1);
      var l := ReadNum(b, ReadNum(b, i).value.1);
      if l.Some? && l.value.1 + l.value.0 <= n {
        assert b[..n][l.value.1..l.value.1 + l.value.0] == b[l.value.1..l.value.1 + l.value.0];
      }
    }
  }

  lemma ReadNumPrefix(b: seq<Byte>, n: nat, i: nat)
    requires n <= |b|
    ensures ReadNum(b, i).Some? && ReadNum(b, i).value.1 <= n ==> ReadNum(b[..n], i) == ReadNum(b, i)
    ensures ReadNum(b[..n], i).Some? ==> ReadNum(b[..n], i) == ReadNum(b, i)
  {
  }

  lemma StoredSmall(n: nat)
    requires n < 65536
    ensures Stored(n) == n
  {
  }

  lemma StoredIsLess(n: nat)
    requires n >= 65536
    ensures Stored(n) + 65536 <= n
  {
  }

  lemma SmallTlvReadsBack(t: Byte, v: seq<Byte>, rest: seq<Byte>)
    requires t < 253 && |v| < 65536
    ensures ReadElement(Tlv(t, v) + rest, 0) == Some(Element(t, v, |Tlv(t, v)|))
  {
    TlvReadsBack(t, v, rest);
    StoredSmall(|v|);
    assert v[..|v|] == v;
  }

  lemma ComponentsAfterFirst(b: seq<Byte>, e: Element, rest: seq<Byte>)
    requires ReadElement(b, 0) == Some(e) && e.next <= |b| && b[e.next..] == rest
    ensures ReadComponents(b, 0) == Before(e.value, ReadComponents(rest, 0))
  {
    assert ReadComponents(b, e.next) == ReadComponents(rest, 0) by {
      ReadComponentsShift(b, e.next, rest, 0);
    }
  }

  lemma FirstComponentReadsBack(p: seq<Byte>, rest: seq<Byte>)
    requires |p| < 65536
    ensures ReadComponents(Tlv(T_COMPONENT, p) + rest, 0) == Before(p, ReadComponents(rest, 0))
  {
    var n := |Tlv(T_COMPONENT, p)|;
    var b := Tlv(T_COMPONENT, p) + rest;
    SmallTlvReadsBack(T_COMPONENT, p, rest);
    assert b[n..] == rest;
    ComponentsAfterFirst(b, Element(T_COMPONENT, p, n), rest);
  }

  lemma {:induction false} ComponentsReadBack(parts: seq<seq<Byte>>)
    requires |Components(parts)| < 65536
    ensures ReadComponents(Components(parts), 0) == Some(parts)
  {
    if parts != [] {
      ComponentsReadBack(parts[1..]);
      FirstComponentReadsBack(parts[0], Components(parts[1..]));
      assert [parts[0]] + parts[1..] == parts;
    }
  }

  /** The fewest bytes that can hold these components. */
  function LeastSize(cs: seq<seq<Byte>>): nat {
    if cs == [] then 0 else 1 + |VarNum(|cs[0]|)| + |cs[0]| + LeastSize(cs[1..])
  }

  lemma {:induction false} ComponentsSize(parts: seq<seq<Byte>>)
    ensures |Components(parts)| == LeastSize(parts)
  {
    if parts != [] {
      ComponentsSize(parts[1..]);
    }
  }

  /** Parsed components never need more room than the bytes they were parsed from. */
  lemma {:induction false} ReadComponentsFit(sub: seq<Byte>, m: nat)
    requires m <= |sub| && ReadComponents(sub, m).Some?
    ensures LeastSize(ReadComponents(sub, m).value) <= |sub| - m
    decreases |sub| - m
  {
    if m < |sub| {
      ReadComponentsFit(sub, ReadElement(sub, m).value.next);
    }
  }

  lemma LongNameIsCut(parts: seq<seq<Byte>>, sub: seq<Byte>)
    requires |sub| < |Components(parts)|
    ensures ReadComponents(sub, 0) != Some(parts)
  {
    if ReadComponents(sub, 0).Some? {
      ReadComponentsFit(sub, 0);
    }
    ComponentsSize(parts);
  }

  /** A name is parsed back exactly when its components together stay below 65536 bytes. */
  lemma {:induction false} NameReadsBackExactly(parts: seq<seq<Byte>>)
    ensures var nv := Components(parts);
            ReadComponents(nv[..Stored(|nv|)], 0) == Some(parts) <==> |nv| < 65536
  {
    var nv := Components(parts);
    if |nv| < 65536 {
      StoredSmall(|nv|);
      assert nv[..|nv|] == nv;
      ComponentsReadBack(parts);
    } else {
      StoredIsLess(|nv|);
      LongNameIsCut(parts, nv[..Stored(|nv|)]);
    }
  }

  /** Where the name's own element ends inside the packet body. */
  function NameEnd(parts: seq<seq<Byte>>): nat {
    var n := |Components(parts)|;
    1 + |VarNum(n)| + Stored(n)
  }

  /** The name at the front of a body is found when the part that arrived holds all of it. */
  lemma NameIsFound(parts: seq<seq<Byte>>, more: seq<Byte>, n: nat)
    requires n <= |NameTlv(parts) + more|
    ensures var nv := Components(parts);
            FindName((NameTlv(parts) + more)[..n], 0) ==
              if NameEnd(parts) <= n then ReadComponents(nv[..Stored(|nv|)], 0) else None
  {
    TlvReadsBack(T_NAME, Components(parts), more);
    ReadElementPrefix(NameTlv(parts) + more, n, 0);
  }

  /** A packet `[kind][length][name ++ more]`, parsed as far as its stored length reaches. */
  lemma ParseOfPacket(kind: Byte, parts: seq<seq<Byte>>, more: seq<Byte>)
    requires kind == T_INTEREST || kind == T_DATA
    ensures var body := NameTlv(parts) + more;
            var nv := Components(parts);
            var name := ReadComponents(nv[..Stored(|nv|)], 0);
            ParseRaw(Tlv(kind, body)) ==
              if NameEnd(parts) <= Stored(|body|) && name.Some? then Some((kind, name.value)) else None
  {
    var body := NameTlv(parts) + more;
    TlvReadsBack(kind, body, []);
    assert Tlv(kind, body) + [] == Tlv(kind, body);
    NameIsFound(parts, more, Stored(|body|));
  }

  predicate AllText(parts: seq<seq<Byte>>) {
    forall i | 0 <= i < |parts| :: Utf8.WellFormed(parts[i])
  }

  /** Decoding leaves a list of components alone exactly when all of them are text. */
  lemma {:induction false} DecodedIsIdentityExactly(parts: seq<seq<Byte>>)
    ensures Decoded(parts) == parts <==> AllText(parts)
    ensures AllText(Decoded(parts))
  {
    forall i | 0 <= i < |parts|
      ensures Decoded(parts)[i] == parts[i] <==> Utf8.WellFormed(parts[i])
      ensures Utf8.WellFormed(Decoded(parts)[i])
    {
      Utf8.LossyIsIdentityExactly(parts[i]);
      Utf8.LossyIsWellFormed(parts[i]);
    }
    if Decoded(parts) == parts {
      forall i | 0 <= i < |parts|
        ensures Utf8.WellFormed(parts[i])
      {
        assert Decoded(parts)[i] == parts[i];
      }
    }
  }

  /** A component too long for its length field decodes to something shorter. */
  lemma LongComponentDiffers(p: seq<Byte>)
    requires Utf8.WellFormed(p) && |p| >= 65536
    ensures Utf8.Lossy(p[..Stored(|p|)]) != p
  {
    StoredIsLess(|p|);
    var n := Stored(|p|);
    assert |Utf8.Lossy(p[..n])| <= n + 2 by {
      Utf8.CutTextGrowsByTwo(p, n);
    }
  }

  lemma FirstOfCut(p: seq<Byte>, rest: seq<Byte>, n: nat)
    requires n <= |Tlv(T_COMPONENT, p) + rest|
    requires ReadElement((Tlv(T_COMPONENT, p) + rest)[..n], 0).Some?
    ensures var e := ReadElement((Tlv(T_COMPONENT, p) + rest)[..n], 0).value;
            e.value == p[..Stored(|p|)] && (|p| < 65536 ==> e.value == p && e.next == |Tlv(T_COMPONENT, p)| <= n)
  {
    TlvReadsBack(T_COMPONENT, p, rest);
    ReadElementPrefix(Tlv(T_COMPONENT, p) + rest, n, 0);
    if |p| < 65536 {
      SmallTlvReadsBack(T_COMPONENT, p, rest);
    }
  }

  lemma CutTail(head: seq<Byte>, rest: seq<Byte>, n: nat)
    requires |head| <= n <= |head + rest|
    ensures ReadComponents((head + rest)[..n], |head|) == ReadComponents(rest[..n - |head|], 0)
  {
    var s := (head + rest)[..n];
    assert s[|head|..] == rest[..n - |head|];
    ReadComponentsShift(s, |head|, rest[..n - |head|], 0);
  }

  /** Cut short, the encoding of a name of text is never decoded to that name. */
  lemma {:induction false} CutNameDiffers(parts: seq<seq<Byte>>, n: nat)
    requires AllText(parts) && n < |Components(parts)|
    ensures DecodedName(ReadComponents(Components(parts)[..n], 0)) != Some(parts)
    decreases |parts|
  {
    var sub := Components(parts)[..n];
    var p, rest := parts[0], Components(parts[1..]);
    assert Components(parts) == Tlv(T_COMPONENT, p) + rest;
    if n > 0 && ReadElement(sub, 0).Some? {
      var e := ReadElement(sub, 0).value;
      FirstOfCut(p, rest, n);
      if |p| >= 65536 {
        LongComponentDiffers(p);
      } else {
        CutTail(Tlv(T_COMPONENT, p), rest, n);
        CutNameDiffers(parts[1..], n - |Tlv(T_COMPONENT, p)|);
        TailDecoded(sub, parts);
      }
    }
  }

  lemma TailDecoded(sub: seq<Byte>, parts: seq<seq<Byte>>)
    requires sub != [] && parts != [] && ReadElement(sub, 0).Some?
    ensures DecodedName(ReadComponents(sub, 0)) == Some(parts) ==>
              DecodedName(ReadComponents(sub, ReadElement(sub, 0).value.next)) == Some(parts[1..])
  {
    var e := ReadElement(sub, 0).value;
    var tail := ReadComponents(sub, e.next);
    if tail.Some? {
      assert Decoded([e.value] + tail.value)[1..] == Decoded(tail.value);
    }
  }

  /** The encoding of components as a name decodes to them exactly when they are text and fit 16 bits of length. */
  lemma {:induction false} NameDecodesExactly(parts: seq<seq<Byte>>)
    ensures var nv := Components(parts);
            DecodedName(ReadComponents(nv[..Stored(|nv|)], 0)) == Some(parts) <==> AllText(parts) && |nv| < 65536
  {
    var nv := Components(parts);
    var raw := ReadComponents(nv[..Stored(|nv|)], 0);
    if AllText(parts) {
      DecodedIsIdentityExactly(parts);
      if |nv| < 65536 {
        NameReadsBackExactly(parts);
      } else {
        CutNameDiffers(parts, Stored(|nv|));
      }
    } else if raw.Some? {
      DecodedIsIdentityExactly(raw.value);
    }
  }

  /**
   * Parsing a packet returns its kind and exactly its components if and only if the components are
   * text, fit in 16 bits of length, and the name ends within the 16 bits the packet's own length
   * keeps.
   */
  lemma {:induction false} ParseUndoesExactly(kind: Byte, parts: seq<seq<Byte>>, more: seq<Byte>)
    requires kind == T_INTEREST || kind == T_DATA
    ensures var body := NameTlv(parts) + more;
            Parse(Tlv(kind, body)) == Some((kind, parts)) <==>
              AllText(parts) && |Components(parts)| < 65536 && NameEnd(parts) <= Stored(|body|)
  {
    ParseOfPacket(kind, parts, more);
    NameDecodesExactly(parts);
  }

  lemma ParseUndoesSmall(kind: Byte, parts: seq<seq<Byte>>, more: seq<Byte>)
    requires kind == T_INTEREST || kind == T_DATA
    requires AllText(parts) && |NameTlv(parts)| + |more| < 65536
    ensures Parse(Tlv(kind, NameTlv(parts) + more)) == Some((kind, parts))
  {
    ParseUndoesExactly(kind, parts, more);
    StoredSmall(|NameTlv(parts) + more|);
    NameEndSmall(parts);
  }

  lemma NameEndSmall(parts: seq<seq<Byte>>)
    requires |NameTlv(parts)| < 65536
    ensures NameEnd(parts) == |NameTlv(parts)| && |Components(parts)| < 65536
  {
    StoredSmall(|Components(parts)|);
  }

  /** For names of text and lengths below 65536 parsing undoes both encoders. */
  lemma {:induction false} ParseUndoesInterest(parts: seq<seq<Byte>>, seqNo: nat)
    requires AllText(parts) && |NameTlv(parts)| + 6 < 65536
    ensures Parse(Interest(parts, seqNo)) == Some((T_INTEREST, parts))
  {
    ParseUndoesSmall(T_INTEREST, parts, Tlv(T_NONCE, Be32(seqNo)));
  }

  lemma {:induction false} ParseUndoesData(parts: seq<seq<Byte>>, content: seq<Byte>)
    requires AllText(parts) && |NameTlv(parts)| + |Tlv(T_CONTENT, content)| < 65536
    ensures Parse(Data(parts, content)) == Some((T_DATA, parts))
  {
    ParseUndoesSmall(T_DATA, parts, Tlv(T_CONTENT, content));
  }

  /** Different names have different encodings. */
  lemma {:induction false} NameEncodingIsInjective(a: seq<seq<Byte>>, b: seq<seq<Byte>>)
    requires |Components(a)| < 65536 && |Components(b)| < 65536
    requires NameTlv(a) == NameTlv(b)
    ensures a == b
  {
    NameReadsBackExactly(a);
    NameReadsBackExactly(b);
    TlvReadsBack(T_NAME, Components(a), []);
    TlvReadsBack(T_NAME, Components(b), []);
  }

  // ---- room ----------------------------------------------------------------------------------------------------

  lemma HeadersGrow(m: nat, l: nat)
    requires m <= l < 65536
    ensures 1 + |VarNum(m)| + m <= 2 + l + (if l >= 253 then 2 else 0)
  {
  }

  lemma NameSize(cs: seq<seq<Byte>>)
    ensures |NameTlv(cs)| == 1 + |VarNum(LeastSize(cs))| + LeastSize(cs)
  {
    ComponentsSize(cs);
  }

  /** The bytes of a name found in a packet, encoded again, need no more room than they took. */
  lemma {:induction false} FoundNameFits(val: seq<Byte>, j: nat)
    requires j <= |val| && FindName(val, j).Some?
    ensures |NameTlv(FindName(val, j).value)| <= |val| - j
    decreases |val| - j
  {
    var e := ReadElement(val, j).value;
    if e.t == T_NAME as nat {
      ReadComponentsFit(e.value, 0);
      var cs := ReadComponents(e.value, 0).value;
      NameSize(cs);
      HeadersGrow(LeastSize(cs), |e.value|);
    } else {
      FoundNameFits(val, e.next);
    }
  }

  lemma {:induction false} RawNameFitsPacket(pkt: seq<Byte>)
    requires ParseRaw(pkt).Some?
    ensures |Tlv(ParseRaw(pkt).value.0, NameTlv(ParseRaw(pkt).value.1))| <= |pkt|
    ensures |NameTlv(ParseRaw(pkt).value.1)| < 65536 && ParseRaw(pkt).value.0 in {T_INTEREST, T_DATA}
  {
    var e := ReadElement(pkt, 0).value;
    FoundNameFits(e.value, 0);
    HeadersGrow(|NameTlv(ParseRaw(pkt).value.1)|, |e.value|);
  }

  /** No ill-formed sequence of a component is shorter than its replacement. */
  predicate NoShortErrors(raw: seq<seq<Byte>>) {
    forall i | 0 <= i < |raw| :: Utf8.NoShortError(raw[i])
  }

  lemma {:induction false} DecodedSize(raw: seq<seq<Byte>>)
    ensures LeastSize(raw) <= LeastSize(Decoded(raw))
    ensures LeastSize(raw) == LeastSize(Decoded(raw)) <==> NoShortErrors(raw)
  {
    if raw != [] {
      Utf8.LossyLength(raw[0]);
      DecodedSize(raw[1..]);
      assert Decoded(raw)[0] == Utf8.Lossy(raw[0]) && Decoded(raw)[1..] == Decoded(raw[1..]);
      assert NoShortErrors(raw) <==> Utf8.NoShortError(raw[0]) && NoShortErrors(raw[1..]) by {
        assert forall i | 0 < i < |raw| :: raw[i] == raw[1..][i - 1];
      }
    }
  }

  /** The parsed name, encoded again as a packet of its own, needs no more room than the packet it came in. */
  predicate NameFits(pkt: seq<Byte>)
    requires Parse(pkt).Some?
  {
    |Tlv(Parse(pkt).value.0, NameTlv(Parse(pkt).value.1))| <= |pkt|
  }

  /** On any bytes, a parsed name without a short ill-formed sequence fits the packet it came in. */
  lemma ParsedNameFitsPacket(pkt: seq<Byte>)
    requires ParseRaw(pkt).Some? && NoShortErrors(ParseRaw(pkt).value.1)
    ensures NameFits(pkt)
  {
    var raw := ParseRaw(pkt).value.1;
    RawNameFitsPacket(pkt);
    DecodedSize(raw);
    NameSize(raw);
    NameSize(Decoded(raw));
  }

  /** A packet that is nothing but the name. */
  lemma TightPacketParses(raw: seq<seq<Byte>>)
    requires |NameTlv(raw)| < 65536
    ensures ParseRaw(Tlv(T_INTEREST, NameTlv(raw))) == Some((T_INTEREST, raw))
  {
    ParseOfPacket(T_INTEREST, raw, []);
    assert NameTlv(raw) + [] == NameTlv(raw);
    NameEndSmall(raw);
    StoredSmall(|NameTlv(raw)|);
    NameReadsBackExactly(raw);
  }

  /**
   * The component bytes whose decoded name fits every packet that carries them are exactly those
   * without a short ill-formed sequence, and those too long for any packet to carry.
   */
  lemma {:induction false} ParsedNameFitsExactly(raw: seq<seq<Byte>>)
    ensures (forall pkt | ParseRaw(pkt).Some? && ParseRaw(pkt).value.1 == raw :: NameFits(pkt))
       <==> NoShortErrors(raw) || |NameTlv(raw)| >= 65536
  {
    if |NameTlv(raw)| >= 65536 {
      forall pkt | ParseRaw(pkt).Some?
        ensures ParseRaw(pkt).value.1 != raw
      {
        RawNameFitsPacket(pkt);
      }
    } else if NoShortErrors(raw) {
      forall pkt | ParseRaw(pkt).Some? && ParseRaw(pkt).value.1 == raw
        ensures NameFits(pkt)
      {
        ParsedNameFitsPacket(pkt);
      }
    } else {
      var pkt := Tlv(T_INTEREST, NameTlv(raw));
      TightPacketParses(raw);
      DecodedSize(raw);
      NameSize(raw);
      NameSize(Decoded(raw));
      assert !NameFits(pkt);
    }
  }

  /** Text fits: a name the encoders were given is never too long for its packet. */
  lemma TextFits(pkt: seq<Byte>)
    requires ParseRaw(pkt).Some? && AllText(ParseRaw(pkt).value.1)
    ensures Parse(pkt) == ParseRaw(pkt) && NameFits(pkt)
  {
    var raw := ParseRaw(pkt).value.1;
    DecodedIsIdentityExactly(raw);
    forall i | 0 <= i < |raw|
      ensures Utf8.NoShortError(raw[i])
    {
      Utf8.WellFormedHasNoError(raw[i]);
    }
    ParsedNameFitsPacket(pkt);
  }

  const STRAY: seq<seq<Byte>> := [[0xFF]]

  lemma StrayPacket()
    ensures NameTlv(STRAY) == [0x07, 0x03, 0x08, 0x01, 0xFF]
    ensures Tlv(T_INTEREST, NameTlv(STRAY)) == [0x05, 0x05, 0x07, 0x03, 0x08, 0x01, 0xFF]
  {
    assert Components(STRAY) == [0x08, 0x01, 0xFF] by {
      assert STRAY[1..] == [];
    }
  }

  lemma StrayName()
    ensures Decoded(STRAY) == [Utf8.REPLACEMENT] && |NameTlv([Utf8.REPLACEMENT])| == 7
  {
    Utf8.StrayByte();
    assert Decoded(STRAY)[0] == Utf8.Lossy([0xFF]);
    NameSize([Utf8.REPLACEMENT]);
    assert [Utf8.REPLACEMENT][1..] == [];
  }

  /** Seven bytes that parse to a name that needs nine. */
  lemma OneStrayByteOutgrowsItsPacket()
    ensures var pkt: seq<Byte> := [0x05, 0x05, 0x07, 0x03, 0x08, 0x01, 0xFF];
            Parse(pkt) == Some((T_INTEREST, [Utf8.REPLACEMENT])) && !NameFits(pkt)
  {
    StrayPacket();
    TightPacketParses(STRAY);
    StrayName();
  }

  // ---- request and response ----------------------------------------------------------------------------------------

  predicate UnderPrefix(name: seq<seq<Byte>>, prefix: seq<seq<Byte>>) {
    |name| >= |prefix| && forall i | 0 <= i < |prefix| :: name[i] == prefix[i]
  }

  /** What a producer of `prefix` sends for a packet it hears. */
  function Serve(pkt: seq<Byte>, prefix: seq<seq<Byte>>, content: seq<Byte>): Option<seq<Byte>> {
    var heard := Parse(pkt);
    if heard.Some? && heard.value.0 == T_INTEREST && UnderPrefix(heard.value.1, prefix)
    then Some(Data(heard.value.1, content)) else None
  }

  /** An Interest is answered exactly when its name is under the prefix, and by Data of that name. */
  lemma {:induction false} RequestReachesResponse(parts: seq<seq<Byte>>, seqNo: nat, prefix: seq<seq<Byte>>,
                                                  content: seq<Byte>)
    requires AllText(parts) && |NameTlv(parts)| + 6 < 65536
    requires |NameTlv(parts)| + |Tlv(T_CONTENT, content)| < 65536
    ensures var answer := Serve(Interest(parts, seqNo), prefix, content);
            && (answer.Some? <==> UnderPrefix(parts, prefix))
            && (answer.Some? ==>
                  Parse(answer.value) == Some((T_DATA, parts)) && Carries(answer.value, 0x06, parts, 0x15, content))
    ensures Serve(Data(parts, content), prefix, content) == None
  {
    ParseUndoesInterest(parts, seqNo);
    ParseUndoesData(parts, content);
    DataCarriesContent(parts, content);
  }
}
