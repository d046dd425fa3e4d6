/** Strict UTF-8, as Python's `bytes.decode('utf8')` applies it to the
    request line: overlong forms, encoded surrogates, values above U+10FFFF,
    stray continuation bytes and truncated sequences are all rejected. */
module Utf8 {
  import opened Text

  /** A continuation byte, `10xxxxxx`. */
  predicate IsCont(b: byte)
  {
    0x80 <= b as int < 0xC0
  }

  /** The six payload bits of a continuation byte. */
  function Payload(b: byte): (p: int)
    requires IsCont(b)
    ensures 0 <= p < 64
  {
    b as int - 0x80
  }

  /** The character encoded at the start of `b` and the number of bytes
      its encoding takes, or None when `b` does not start with a
      well-formed sequence. */
  function DecodeFirst(b: Bytes): (r: Option<(char, nat)>)
    requires |b| > 0
    ensures r.Some? ==> 1 <= r.value.1 <= |b| && r.value.1 <= 4
    ensures r.Some? ==> (r.value.1 == 1 <==> b[0] < 0x80)
    ensures b[0] < 0x80 ==> r == Some((b[0] as int as char, 1))
  {
    var b0 := b[0] as int;
    if b0 < 0x80 then Some((b0 as char, 1))
    else if 0xC2 <= b0 < 0xE0 then
      if |b| >= 2 && IsCont(b[1]) then
        Some((((b0 - 0xC0) * 64 + Payload(b[1])) as char, 2))
      else None
    else if 0xE0 <= b0 < 0xF0 then
      var lo := if b0 == 0xE0 then 0xA0 else 0x80;
      var hi := if b0 == 0xED then 0xA0 else 0xC0;
      if |b| >= 3 && lo <= b[1] as int < hi && IsCont(b[2]) then
        Some(((((b0 - 0xE0) * 64 + Payload(b[1])) * 64 + Payload(b[2])) as char, 3))
      else None
    else if 0xF0 <= b0 < 0xF5 then
      var lo := if b0 == 0xF0 then 0x90 else 0x80;
      var hi := if b0 == 0xF4 then 0x90 else 0xC0;
      if |b| >= 4 && lo <= b[1] as int < hi && IsCont(b[2]) && IsCont(b[3]) then
        Some((((((b0 - 0xF0) * 64 + Payload(b[1])) * 64 + Payload(b[2])) * 64 + Payload(b[3])) as char, 4))
      else None
    else None
  }

  /** `b.decode('utf8')`, or None where Python raises UnicodeDecodeError. */
  function Decode(b: Bytes): (r: Option<string>)
    decreases |b|
  {
    if b == [] then Some([])
    else
      match DecodeFirst(b)
      case None => None
      case Some((c, n)) =>
        match Decode(b[n..])
        case None => None
        case Some(rest) => Some([c] + rest)
  }

  /** The encoding of one character: one byte below U+0080, two below
      U+0800, three below U+10000, four above. */
  function EncodeChar(c: char): (b: Bytes)
    ensures 1 <= |b| <= 4
    ensures |b| == 1 <==> c as int < 0x80
  {
    var cp := c as int;
    if cp < 0x80 then [cp as byte]
    else if cp < 0x800 then [(0xC0 + cp / 64) as byte, (0x80 + cp % 64) as byte]
    else if cp < 0x1_0000 then
      [(0xE0 + cp / 4096) as byte, (0x80 + cp / 64 % 64) as byte, (0x80 + cp % 64) as byte]
    else
      [(0xF0 + cp / 0x4_0000) as byte, (0x80 + cp / 4096 % 64) as byte,
       (0x80 + cp / 64 % 64) as byte, (0x80 + cp % 64) as byte]
  }

  /** `s.encode('utf8')`. */
  function Encode(s: string): (b: Bytes)
    ensures |b| >= |s|
  {
    if s == [] then [] else EncodeChar(s[0]) + Encode(s[1..])
  }

  /** A character's encoding decodes back to it, whatever follows. */
  lemma DecodeFirstEncodeChar(c: char, rest: Bytes)
    ensures DecodeFirst(EncodeChar(c) + rest) == Some((c, |EncodeChar(c)|))
  {
    var cp := c as int;
    if cp < 0x80 {
    } else if cp < 0x800 {
      DecodeFirstTwo(c, rest);
    } else if cp < 0x1_0000 {
      DecodeFirstThree(c, rest);
    } else {
      DecodeFirstFour(c, rest);
    }
  }

  lemma DecodeFirstTwo(c: char, rest: Bytes)
    requires 0x80 <= c as int < 0x800
    ensures DecodeFirst(EncodeChar(c) + rest) == Some((c, 2))
  {
    var cp := c as int;
    var d0, d1 := cp / 64, cp % 64;
    assert cp == d0 * 64 + d1;
    var b := EncodeChar(c) + rest;
    assert b[0] as int == 0xC0 + d0 && b[1] as int == 0x80 + d1;
    assert Payload(b[1]) == d1;
  }

  lemma DecodeFirstThree(c: char, rest: Bytes)
    requires 0x800 <= c as int < 0x1_0000
    ensures DecodeFirst(EncodeChar(c) + rest) == Some((c, 3))
  {
    var cp := c as int;
    var d0, d1, d2 := cp / 4096, cp / 64 % 64, cp % 64;
    assert cp / 64 == d0 * 64 + d1;
    assert cp == (d0 * 64 + d1) * 64 + d2;
    var b := EncodeChar(c) + rest;
    assert b[0] as int == 0xE0 + d0 && b[1] as int == 0x80 + d1 && b[2] as int == 0x80 + d2;
    assert Payload(b[1]) == d1 && Payload(b[2]) == d2;
  }

  lemma DecodeFirstFour(c: char, rest: Bytes)
    requires 0x1_0000 <= c as int
    ensures DecodeFirst(EncodeChar(c) + rest) == Some((c, 4))
  {
    var cp := c as int;
    var d0, d1, d2, d3 := cp / 0x4_0000, cp / 4096 % 64, cp / 64 % 64, cp % 64;
    assert cp / 4096 == d0 * 64 + d1;
    assert cp / 64 == (d0 * 64 + d1) * 64 + d2;
    assert cp == ((d0 * 64 + d1) * 64 + d2) * 64 + d3;
    var b := EncodeChar(c) + rest;
    assert b[0] as int == 0xF0 + d0 && b[1] as int == 0x80 + d1;
    assert b[2] as int == 0x80 + d2 && b[3] as int == 0x80 + d3;
    assert Payload(b[1]) == d1 && Payload(b[2]) == d2 && Payload(b[3]) == d3;
  }

  /** A well-formed sequence is the encoding of the character it decodes
      to: there is only one way to write each character. */
  lemma EncodeCharDecodeFirst(b: Bytes)
    requires |b| > 0 && DecodeFirst(b).Some?
    ensures EncodeChar(DecodeFirst(b).value.0) == b[..DecodeFirst(b).value.1]
  {
    var n := DecodeFirst(b).value.1;
    if n == 1 {
    } else if n == 2 {
      EncodeTwo(b);
    } else if n == 3 {
      EncodeThree(b);
    } else {
      EncodeFour(b);
    }
  }

  lemma EncodeTwo(b: Bytes)
    requires |b| > 0 && DecodeFirst(b).Some? && DecodeFirst(b).value.1 == 2
    ensures EncodeChar(DecodeFirst(b).value.0) == b[..2]
  {
    var cp := DecodeFirst(b).value.0 as int;
    var d0, d1 := b[0] as int - 0xC0, Payload(b[1]);
    assert cp == d0 * 64 + d1;
    assert cp / 64 == d0 && cp % 64 == d1;
    var e := EncodeChar(DecodeFirst(b).value.0);
    assert e[0] == b[0] && e[1] == b[1];
  }

  lemma EncodeThree(b: Bytes)
    requires |b| > 0 && DecodeFirst(b).Some? && DecodeFirst(b).value.1 == 3
    ensures EncodeChar(DecodeFirst(b).value.0) == b[..3]
  {
    var cp := DecodeFirst(b).value.0 as int;
    var d0, d1, d2 := b[0] as int - 0xE0, Payload(b[1]), Payload(b[2]);
    assert cp == (d0 * 64 + d1) * 64 + d2;
    assert cp / 64 == d0 * 64 + d1 && cp % 64 == d2;
    assert cp / 4096 == d0 && cp / 64 % 64 == d1;
    var e := EncodeChar(DecodeFirst(b).value.0);
    assert e[0] == b[0] && e[1] == b[1] && e[2] == b[2];
  }

  lemma EncodeFour(b: Bytes)
    requires |b| > 0 && DecodeFirst(b).Some? && DecodeFirst(b).value.1 == 4
    ensures EncodeChar(DecodeFirst(b).value.0) == b[..4]
  {
    var cp := DecodeFirst(b).value.0 as int;
    var d0, d1, d2, d3 := b[0] as int - 0xF0, Payload(b[1]), Payload(b[2]), Payload(b[3]);
    assert cp == ((d0 * 64 + d1) * 64 + d2) * 64 + d3;
    assert cp / 64 == (d0 * 64 + d1) * 64 + d2 && cp % 64 == d3;
    assert cp / 4096 == d0 * 64 + d1 && cp / 64 % 64 == d2;
    assert cp / 0x4_0000 == d0 && cp / 4096 % 64 == d1;
    var e := EncodeChar(DecodeFirst(b).value.0);
    assert e[0] == b[0] && e[1] == b[1] && e[2] == b[2] && e[3] == b[3];
  }

  /** Every string survives encoding and decoding. */
  lemma {:induction false} DecodeEncode(s: string)
    ensures Decode(Encode(s)) == Some(s)
  {
    if s != [] {
      var e := EncodeChar(s[0]);
      var b := Encode(s);
      assert b == e + Encode(s[1..]);
      DecodeFirstEncodeChar(s[0], Encode(s[1..]));
      assert b[|e|..] == Encode(s[1..]);
      DecodeEncode(s[1..]);
      assert [s[0]] + s[1..] == s;
    }
  }

  /** Bytes that decode are the encoding of what they decode to, so two
      different byte strings never decode to the same text. */
  lemma {:induction false} EncodeDecode(b: Bytes)
    requires Decode(b).Some?
    ensures Encode(Decode(b).value) == b
    decreases |b|
  {
    if b != [] {
      var c := DecodeFirst(b).value.0;
      var n := DecodeFirst(b).value.1;
      EncodeCharDecodeFirst(b);
      EncodeDecode(b[n..]);
      var s := Decode(b).value;
      assert s == [c] + Decode(b[n..]).value;
      assert s[0] == c && s[1..] == Decode(b[n..]).value;
      assert b == b[..n] + b[n..];
    }
  }

  /** ASCII bytes decode one character per byte, each the byte's own code:
      the same text as the Latin-1 decoding. */
  lemma {:induction false} DecodeAscii(b: Bytes)
    requires forall k :: 0 <= k < |b| ==> b[k] < 0x80
    ensures Decode(b) == Some(Latin1Decode(b))
    decreases |b|
  {
    if b != [] {
      assert forall k :: 0 <= k < |b[1..]| ==> b[1..][k] == b[k + 1];
      DecodeAscii(b[1..]);
      assert Latin1Decode(b) == [b[0] as int as char] + Latin1Decode(b[1..]);
    }
  }

  /** A byte that no well-formed sequence starts with makes the whole
      decoding fail: a stray continuation byte, the overlong leads 0xC0 and
      0xC1, and 0xF5 to 0xFF. */
  lemma InvalidLeadRejected(b: Bytes)
    requires |b| > 0 && (0x80 <= b[0] < 0xC2 || b[0] >= 0xF5)
    ensures Decode(b).None?
  {
  }

  /** The text has at most as many characters as the bytes, and exactly as
      many only when every byte is ASCII. */
  lemma {:induction false} DecodeLength(b: Bytes)
    requires Decode(b).Some?
    ensures |Decode(b).value| <= |b|
    ensures |Decode(b).value| == |b| <==> forall k :: 0 <= k < |b| ==> b[k] < 0x80
    decreases |b|
  {
    if b != [] {
      var n := DecodeFirst(b).value.1;
      DecodeLength(b[n..]);
      if n == 1 {
        assert forall k :: 1 <= k < |b| ==> b[k] == b[1..][k - 1];
      }
    }
  }
}
