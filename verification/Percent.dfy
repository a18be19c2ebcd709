/** Percent-encoding of a component, section 2.1 of RFC 3986. */
module Percent {
  import opened Basics

  const PERCENT: byte := 0x25
  const PLUS: byte := 0x2B
  const SPACE: byte := 0x20
  const AMP: byte := 0x26
  const EQUALS: byte := 0x3D
  const QUESTION: byte := 0x3F

  /** ASCII letters and digits, and `-_.~`. */
  predicate IsUnreserved(b: byte) {
    || 0x30 <= b <= 0x39 || 0x41 <= b <= 0x5A || 0x61 <= b <= 0x7A
    || b == 0x2D || b == 0x5F || b == 0x2E || b == 0x7E
  }

  function HexDigit(n: nat): byte
    requires n < 16
  {
    if n < 10 then (0x30 + n) as byte else (0x41 + (n - 10)) as byte
  }

  function HexValue(b: byte): Option<nat> {
    if 0x30 <= b <= 0x39 then Some(b as int - 0x30)
    else if 0x41 <= b <= 0x46 then Some(b as int - 0x41 + 10)
    else if 0x61 <= b <= 0x66 then Some(b as int - 0x61 + 10)
    else None
  }

  function EncodeByte(b: byte): Bytes {
    if IsUnreserved(b) then [b] else [PERCENT, HexDigit(b as int / 16), HexDigit(b as int % 16)]
  }

  function Encode(s: Bytes): Bytes {
    if s == [] then [] else EncodeByte(s[0]) + Encode(s[1..])
  }

  /** A `%` without two hexadecimal digits after it stands for itself. */
  function Decode(s: Bytes): Bytes {
    if s == [] then []
    else if s[0] == PERCENT && |s| >= 3 && HexValue(s[1]).Some? && HexValue(s[2]).Some? then
      HexesBelow256(s[1], s[2]);
      [(16 * HexValue(s[1]).value + HexValue(s[2]).value) as byte] + Decode(s[3..])
    else [s[0]] + Decode(s[1..])
  }

  lemma HexesBelow256(a: byte, b: byte)
    requires HexValue(a).Some? && HexValue(b).Some?
    ensures 16 * HexValue(a).value + HexValue(b).value < 256
  {
  }

  lemma HexRoundTrip(n: nat)
    requires n < 16
    ensures HexValue(HexDigit(n)) == Some(n)
  {
  }

  /** Decoding undoes encoding, for every byte string and whatever follows. */
  lemma {:induction false} DecodeEncode(s: Bytes, rest: Bytes)
    ensures Decode(Encode(s) + rest) == s + Decode(rest)
  {
    if s == [] {
      assert Encode(s) + rest == rest;
    } else {
      EncodeStep(s, rest);
      DecodeByte(s[0], Encode(s[1..]) + rest);
      DecodeEncode(s[1..], rest);
      HeadFirst(s, Decode(rest));
    }
  }

  lemma EncodeStep(s: Bytes, rest: Bytes)
    requires s != []
    ensures Encode(s) + rest == EncodeByte(s[0]) + (Encode(s[1..]) + rest)
  {
  }

  lemma HeadFirst(s: Bytes, rest: Bytes)
    requires s != []
    ensures [s[0]] + (s[1..] + rest) == s + rest
  {
  }

  lemma DecodeByte(b: byte, tail: Bytes)
    ensures Decode(EncodeByte(b) + tail) == [b] + Decode(tail)
  {
    var text := EncodeByte(b) + tail;
    if IsUnreserved(b) {
      assert text[1..] == tail;
    } else {
      HexRoundTrip(b as int / 16);
      HexRoundTrip(b as int % 16);
      assert text[3..] == tail;
    }
  }

  lemma DecodeEncodeIsIdentity(s: Bytes)
    ensures Decode(Encode(s)) == s
  {
    DecodeEncode(s, []);
    assert Encode(s) + [] == Encode(s);
    assert s + Decode([]) == s;
  }

  /** Encoded text is unreserved characters and `%` only, so no delimiter survives in it. */
  lemma {:induction false} EncodedIsPlain(s: Bytes)
    ensures forall i :: 0 <= i < |Encode(s)| ==> Encode(s)[i] == PERCENT || IsUnreserved(Encode(s)[i])
    ensures AMP !in Encode(s) && EQUALS !in Encode(s) && PLUS !in Encode(s) && QUESTION !in Encode(s)
  {
    if s != [] {
      EncodedIsPlain(s[1..]);
      var head := EncodeByte(s[0]);
      assert forall i :: 0 <= i < |head| ==> head[i] == PERCENT || IsUnreserved(head[i]);
    }
  }

  function PlusToSpace(s: Bytes): Bytes {
    seq(|s|, i requires 0 <= i < |s| => if s[i] == PLUS then SPACE else s[i])
  }

  /** One form token: `+` is a space, then percent-decoding. */
  function FormDecode(s: Bytes): Bytes { Decode(PlusToSpace(s)) }

  lemma FormDecodeEncode(s: Bytes)
    ensures FormDecode(Encode(s)) == s
  {
    EncodedIsPlain(s);
    assert PlusToSpace(Encode(s)) == Encode(s);
    DecodeEncodeIsIdentity(s);
  }
}
