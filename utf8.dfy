/**
 * UTF-8 encoding of strings, as `Buffer.from(s, 'utf-8')` performs it before
 * the string-to-sign is handed to the HMAC, and as Node converts a string HMAC
 * key. A character is a Unicode scalar value; the decoder is the partner that
 * shows the encoding loses nothing, so the signed bytes determine the string.
 */
module Utf8 {
  import opened Wrappers
  import opened Bytes

  /** The one to four bytes of one scalar value (RFC 3629, section 3). */
  function EncodeChar(c: char): (r: seq<byte>)
    ensures 1 <= |r| <= 4
    ensures (c as int < 0x80) <==> |r| == 1
    ensures |r| == 1 ==> r[0] as int == c as int
  {
    var cp := c as int;
    if cp < 0x80 then
      [cp as byte]
    else if cp < 0x800 then
      [(0xC0 + cp / 0x40) as byte, (0x80 + cp % 0x40) as byte]
    else if cp < 0x1_0000 then
      [(0xE0 + cp / 0x1000) as byte, (0x80 + cp / 0x40 % 0x40) as byte, (0x80 + cp % 0x40) as byte]
    else
      [(0xF0 + cp / 0x4_0000) as byte, (0x80 + cp / 0x1000 % 0x40) as byte,
       (0x80 + cp / 0x40 % 0x40) as byte, (0x80 + cp % 0x40) as byte]
  }

  function Encode(s: string): (r: seq<byte>)
    ensures |r| >= |s|
  {
    if |s| == 0 then [] else EncodeChar(s[0]) + Encode(s[1..])
  }

  predicate IsContinuation(b: byte) { 0x80 <= b < 0xC0 }

  predicate IsScalar(cp: int) { 0 <= cp < 0xD800 || 0xE000 <= cp < 0x11_0000 }

  /** The first character of `b` and the number of bytes it takes, if `b` starts with one. */
  function DecodeFirst(b: seq<byte>): (r: Option<(char, nat)>)
    ensures r.Some? ==> 1 <= r.value.1 <= |b|
  {
    if |b| == 0 then None
    else if b[0] < 0x80 then Some((b[0] as int as char, 1))
    else if 0xC0 <= b[0] < 0xE0 && |b| >= 2 && IsContinuation(b[1]) then
      var cp := (b[0] as int - 0xC0) * 0x40 + (b[1] as int - 0x80);
      if IsScalar(cp) then Some((cp as char, 2)) else None
    else if 0xE0 <= b[0] < 0xF0 && |b| >= 3 && IsContinuation(b[1]) && IsContinuation(b[2]) then
      var cp := (b[0] as int - 0xE0) * 0x1000 + (b[1] as int - 0x80) * 0x40 + (b[2] as int - 0x80);
      if IsScalar(cp) then Some((cp as char, 3)) else None
    else if 0xF0 <= b[0] < 0xF8 && |b| >= 4 && IsContinuation(b[1]) && IsContinuation(b[2])
            && IsContinuation(b[3]) then
      var cp := (b[0] as int - 0xF0) * 0x4_0000 + (b[1] as int - 0x80) * 0x1000
                + (b[2] as int - 0x80) * 0x40 + (b[3] as int - 0x80);
      if IsScalar(cp) then Some((cp as char, 4)) else None
    else None
  }

  function Decode(b: seq<byte>): (r: Option<string>)
    decreases |b|
  {
    if |b| == 0 then Some("")
    else match DecodeFirst(b)
      case None => None
      case Some((c, n)) =>
        match Decode(b[n..])
        case None => None
        case Some(rest) => Some([c] + rest)
  }

  /** Decoding the bytes of one character, whatever follows them, gives that character back. */
  lemma DecodeFirstOfEncodeChar(c: char, rest: seq<byte>)
    ensures DecodeFirst(EncodeChar(c) + rest) == Some((c, |EncodeChar(c)|))
  {
    var cp := c as int;
    if cp < 0x80 {
    } else if cp < 0x800 {
      DecodeTwoBytes(c, rest);
    } else if cp < 0x1_0000 {
      DecodeThreeBytes(c, rest);
    } else {
      DecodeFourBytes(c, rest);
    }
  }

  lemma DecodeTwoBytes(c: char, rest: seq<byte>)
    requires 0x80 <= c as int < 0x800
    ensures DecodeFirst(EncodeChar(c) + rest) == Some((c, 2))
  {
    var cp := c as int;
    var b := EncodeChar(c) + rest;
    assert b[0] as int == 0xC0 + cp / 0x40 && b[1] as int == 0x80 + cp % 0x40;
    assert (b[0] as int - 0xC0) * 0x40 + (b[1] as int - 0x80) == cp;
  }

  lemma DecodeThreeBytes(c: char, rest: seq<byte>)
    requires 0x800 <= c as int < 0x1_0000
    ensures DecodeFirst(EncodeChar(c) + rest) == Some((c, 3))
  {
    var cp := c as int;
    var b := EncodeChar(c) + rest;
    var hi, mid, lo := cp / 0x1000, cp / 0x40 % 0x40, cp % 0x40;
    assert b[0] as int == 0xE0 + hi && b[1] as int == 0x80 + mid && b[2] as int == 0x80 + lo;
    assert hi * 0x40 + mid == cp / 0x40;
    assert hi * 0x1000 + mid * 0x40 + lo == cp;
  }

  /** A code point is its four 6-bit-or-less pieces recombined. */
  lemma FourPieces(cp: int)
    requires 0 <= cp
    ensures cp / 0x4_0000 * 0x4_0000 + cp / 0x1000 % 0x40 * 0x1000 + cp / 0x40 % 0x40 * 0x40 + cp % 0x40 == cp
  {
    var q := cp / 0x40;
    assert cp == q * 0x40 + cp % 0x40;
    var r := q / 0x40;
    assert q == r * 0x40 + q % 0x40;
    assert r == cp / 0x1000;
    assert r == r / 0x40 * 0x40 + r % 0x40;
    assert r / 0x40 == cp / 0x4_0000;
  }

  lemma DecodeFourBytes(c: char, rest: seq<byte>)
    requires 0x1_0000 <= c as int
    ensures DecodeFirst(EncodeChar(c) + rest) == Some((c, 4))
  {
    var cp := c as int;
    var b := EncodeChar(c) + rest;
    var top, hi, mid, lo := cp / 0x4_0000, cp / 0x1000 % 0x40, cp / 0x40 % 0x40, cp % 0x40;
    assert b[0] as int == 0xF0 + top && b[1] as int == 0x80 + hi;
    assert b[2] as int == 0x80 + mid && b[3] as int == 0x80 + lo;
    FourPieces(cp);
  }

  /** Decoding undoes encoding. */
  lemma {:induction false} DecodeEncode(s: string)
    ensures Decode(Encode(s)) == Some(s)
    decreases |s|
  {
    if |s| > 0 {
      var head := EncodeChar(s[0]);
      var b := Encode(s);
      DecodeFirstOfEncodeChar(s[0], Encode(s[1..]));
      assert b[|head|..] == Encode(s[1..]);
      DecodeEncode(s[1..]);
      assert [s[0]] + s[1..] == s;
    }
  }

  /** Different strings give different bytes, so the HMAC input pins down the string. */
  lemma EncodeInjective(s: string, t: string)
    requires Encode(s) == Encode(t)
    ensures s == t
  {
    DecodeEncode(s);
    DecodeEncode(t);
  }
}
