/**
 * `TextEncoder.encode` and `new TextDecoder('utf-8').decode`: UTF-8 as RFC 3629 section 3 defines it,
 * and the Encoding Standard's UTF-8 decoder in replacement mode, which also drops a leading
 * byte order mark (the decoder's `ignoreBOM` option is false by default).
 */
module Utf8 {
  import opened Bytes

  /** The UTF-8 form of one scalar value: 1 to 4 bytes by the size of the code point. */
  function EncodeScalar(c: char): (r: seq<byte>)
    ensures 1 <= |r| <= 4
  {
    var cp := c as int;
    if cp < 0x80 then [cp]
    else if cp < 0x800 then [0xC0 + cp / 64, 0x80 + cp % 64]
    else if cp < 0x10000 then [0xE0 + cp / 4096, 0x80 + cp / 64 % 64, 0x80 + cp % 64]
    else [0xF0 + cp / 262144, 0x80 + cp / 4096 % 64, 0x80 + cp / 64 % 64, 0x80 + cp % 64]
  }

  /** `TextEncoder.encode`: the scalar values' UTF-8 forms, concatenated in order. */
  function Encode(s: string): (r: seq<byte>)
    ensures |s| <= |r| <= 4 * |s|
  {
    if s == [] then [] else EncodeScalar(s[0]) + Encode(s[1..])
  }

  const Replacement: char := '\U{FFFD}'
  const ByteOrderMark: char := '\U{FEFF}'

  /**
   * One code point out of the decoder: the scalar value that starts `b`, or U+FFFD for a malformed
   * sequence, and the number of bytes that make up that value or that malformed prefix. Leading bytes
   * and the ranges allowed for the byte after them follow the Encoding Standard's UTF-8 decoder,
   * which rejects overlong forms, surrogates and values above U+10FFFF; a byte outside the expected
   * range ends the malformed prefix without being consumed.
   */
  function DecodeNext(b: seq<byte>): (r: (char, nat))
    requires |b| > 0
    ensures 1 <= r.1 <= |b|
  {
    var b0: int := b[0];
    if b0 < 0x80 then (b0 as char, 1)
    else if 0xC2 <= b0 <= 0xDF then
      if |b| < 2 || !(0x80 <= b[1] <= 0xBF) then (Replacement, 1)
      else
        var b1: int := b[1];
        (((b0 - 0xC0) * 64 + (b1 - 0x80)) as char, 2)
    else if 0xE0 <= b0 <= 0xEF then
      var lower := if b0 == 0xE0 then 0xA0 else 0x80;
      var upper := if b0 == 0xED then 0x9F else 0xBF;
      if |b| < 2 || !(lower <= b[1] <= upper) then (Replacement, 1)
      else if |b| < 3 || !(0x80 <= b[2] <= 0xBF) then (Replacement, 2)
      else
        var b1: int, b2: int := b[1], b[2];
        (((b0 - 0xE0) * 4096 + (b1 - 0x80) * 64 + (b2 - 0x80)) as char, 3)
    else if 0xF0 <= b0 <= 0xF4 then
      var lower := if b0 == 0xF0 then 0x90 else 0x80;
      var upper := if b0 == 0xF4 then 0x8F else 0xBF;
      if |b| < 2 || !(lower <= b[1] <= upper) then (Replacement, 1)
      else if |b| < 3 || !(0x80 <= b[2] <= 0xBF) then (Replacement, 2)
      else if |b| < 4 || !(0x80 <= b[3] <= 0xBF) then (Replacement, 3)
      else
        var b1: int, b2: int, b3: int := b[1], b[2], b[3];
        (((b0 - 0xF0) * 262144 + (b1 - 0x80) * 4096 + (b2 - 0x80) * 64 + (b3 - 0x80)) as char, 4)
    else (Replacement, 1)
  }

  /** The decoder's whole output, before the byte order mark is considered: at most one code point per byte. */
  function DecodeAll(b: seq<byte>): (r: string)
    ensures |r| <= |b|
    decreases |b|
  {
    if b == [] then []
    else
      var (c, n) := DecodeNext(b);
      [c] + DecodeAll(b[n..])
  }

  /** `new TextDecoder('utf-8').decode(b)`: a leading U+FEFF is dropped. */
  function Decode(b: seq<byte>): (r: string)
  {
    var s := DecodeAll(b);
    if |s| > 0 && s[0] == ByteOrderMark then s[1..] else s
  }

  lemma DecodeOneByte(c: char, rest: seq<byte>)
    requires c as int < 0x80
    ensures DecodeNext(EncodeScalar(c) + rest) == (c, 1)
  {
  }

  lemma DecodeTwoBytes(c: char, rest: seq<byte>)
    requires 0x80 <= c as int < 0x800
    ensures DecodeNext(EncodeScalar(c) + rest) == (c, 2)
  {
    var cp := c as int;
    assert cp == (cp / 64) * 64 + cp % 64;
  }

  lemma DecodeThreeBytes(c: char, rest: seq<byte>)
    requires 0x800 <= c as int < 0x10000
    ensures DecodeNext(EncodeScalar(c) + rest) == (c, 3)
  {
    var cp := c as int;
    var hi, mid, lo := cp / 4096, cp / 64 % 64, cp % 64;
    assert cp == hi * 4096 + mid * 64 + lo;
    assert hi == 0 ==> mid >= 0x20;
    assert hi == 0xD ==> mid < 0x20;
    var e := EncodeScalar(c) + rest;
    assert e[0] == 0xE0 + hi && e[1] == 0x80 + mid && e[2] == 0x80 + lo;
  }

  /** The digits of a supplementary code point in base 64, as the four-byte form stores them. */
  lemma FourByteDigits(cp: int, b0: int, b1: int, b2: int, b3: int)
    requires 0x10000 <= cp < 0x110000
    requires b0 == cp / 262144 && b1 == cp / 4096 % 64 && b2 == cp / 64 % 64 && b3 == cp % 64
    ensures cp == b0 * 262144 + b1 * 4096 + b2 * 64 + b3
    ensures 0 <= b0 <= 4 && 0 <= b1 < 64 && 0 <= b2 < 64 && 0 <= b3 < 64
    ensures b0 == 0 ==> b1 >= 0x10
    ensures b0 == 4 ==> b1 < 0x10
  {
    var q := cp / 64;
    var r := q / 64;
    assert cp == q * 64 + b3;
    assert r == cp / 4096;
    assert q == r * 64 + b2;
    assert r == b0 * 64 + b1;
  }

  lemma DecodeFourBytes(c: char, rest: seq<byte>)
    requires 0x10000 <= c as int
    ensures DecodeNext(EncodeScalar(c) + rest) == (c, 4)
  {
    var cp := c as int;
    var b0, b1, b2, b3 := cp / 262144, cp / 4096 % 64, cp / 64 % 64, cp % 64;
    FourByteDigits(cp, b0, b1, b2, b3);
    var e := EncodeScalar(c) + rest;
    assert e[0] == 0xF0 + b0 && e[1] == 0x80 + b1 && e[2] == 0x80 + b2 && e[3] == 0x80 + b3;
  }

  /** The decoder reads back exactly the scalar value at the front of an encoding. */
  lemma DecodeNextEncodeScalar(c: char, rest: seq<byte>)
    ensures DecodeNext(EncodeScalar(c) + rest) == (c, |EncodeScalar(c)|)
  {
    var cp := c as int;
    if cp < 0x80 {
      DecodeOneByte(c, rest);
    } else if cp < 0x800 {
      DecodeTwoBytes(c, rest);
    } else if cp < 0x10000 {
      DecodeThreeBytes(c, rest);
    } else {
      DecodeFourBytes(c, rest);
    }
  }

  /** Decoding inverts encoding, code point by code point. */
  lemma {:induction false} DecodeAllEncode(s: string)
    ensures DecodeAll(Encode(s)) == s
  {
    if s != [] {
      var e := EncodeScalar(s[0]);
      DecodeNextEncodeScalar(s[0], Encode(s[1..]));
      assert (e + Encode(s[1..]))[|e|..] == Encode(s[1..]);
      DecodeAllEncode(s[1..]);
    }
  }

  /** `decode(encode(s)) == s`, unless `s` starts with U+FEFF. */
  lemma DecodeEncode(s: string)
    requires s == [] || s[0] != ByteOrderMark
    ensures Decode(Encode(s)) == s
  {
    DecodeAllEncode(s);
  }

  /** A leading U+FEFF does not survive the round trip (only the first one is dropped). */
  lemma DecodeEncodeDropsByteOrderMark(s: string)
    ensures Decode(Encode([ByteOrderMark] + s)) == s
  {
    DecodeAllEncode([ByteOrderMark] + s);
    assert ([ByteOrderMark] + s)[1..] == s;
  }
}
