/**
 * `btoa` and `atob` on binary strings (strings whose code points are all below 256):
 * base64 with the standard alphabet and `=` padding of RFC 4648 section 4 on the encoding side,
 * and the HTML standard's "forgiving-base64 decode" on the decoding side.
 */
module Base64 {
  import opened Wrappers
  import opened Bytes

  /** The 64 characters of the standard alphabet (RFC 4648 section 4, table 1). */
  predicate IsAlphabet(c: char) {
    'A' <= c <= 'Z' || 'a' <= c <= 'z' || '0' <= c <= '9' || c == '+' || c == '/'
  }

  predicate AllAlphabet(s: string) {
    forall i :: 0 <= i < |s| ==> IsAlphabet(s[i])
  }

  function CharOf(v: int): (c: char)
    requires 0 <= v < 64
    ensures IsAlphabet(c)
  {
    if v < 26 then ('A' as int + v) as char
    else if v < 52 then ('a' as int + v - 26) as char
    else if v < 62 then ('0' as int + v - 52) as char
    else if v == 62 then '+'
    else '/'
  }

  function ValueOf(c: char): (v: int)
    requires IsAlphabet(c)
    ensures 0 <= v < 64
  {
    if 'A' <= c <= 'Z' then c as int - 'A' as int
    else if 'a' <= c <= 'z' then c as int - 'a' as int + 26
    else if '0' <= c <= '9' then c as int - '0' as int + 52
    else if c == '+' then 62
    else 63
  }

  lemma ValueOfCharOf(v: int)
    requires 0 <= v < 64
    ensures ValueOf(CharOf(v)) == v
  {
  }

  /** A six-bit value: one character of the alphabet. */
  type sextet = x: int | 0 <= x < 64

  /** The six-bit values for `b`, with no padding: 4 per full group of 3 bytes, then 2 or 3 for a
      final group of 1 or 2 bytes, whose unused low bits are zero. */
  function SextetsOf(b: seq<byte>): (r: seq<sextet>)
    ensures |r| == (4 * |b| + 2) / 3
    decreases |b|
  {
    if |b| == 0 then []
    else if |b| == 1 then [b[0] / 4, b[0] % 4 * 16]
    else if |b| == 2 then [b[0] / 4, b[0] % 4 * 16 + b[1] / 16, b[1] % 16 * 4]
    else [b[0] / 4, b[0] % 4 * 16 + b[1] / 16, b[1] % 16 * 4 + b[2] / 64, b[2] % 64] + SextetsOf(b[3..])
  }

  /** The alphabet characters of a sequence of six-bit values. */
  function CharsOf(v: seq<sextet>): (r: string)
    ensures |r| == |v| && AllAlphabet(r)
    ensures forall i :: 0 <= i < |v| ==> ValueOf(r[i]) == v[i]
  {
    seq(|v|, i requires 0 <= i < |v| => CharOf(v[i]))
  }

  /** The six-bit values of a string of alphabet characters. */
  function ValuesOf(s: string): (v: seq<sextet>)
    requires AllAlphabet(s)
    ensures |v| == |s|
  {
    seq(|s|, i requires 0 <= i < |s| => ValueOf(s[i]))
  }

  lemma ValuesOfCharsOf(v: seq<sextet>)
    ensures ValuesOf(CharsOf(v)) == v
  {
  }

  /** The `=` characters that complete the final quantum. */
  function Padding(n: nat): (r: string) {
    if n % 3 == 1 then "==" else if n % 3 == 2 then "=" else ""
  }

  /** Base64 encoding of RFC 4648 section 4; the output length is `4 * ceil(|b| / 3)`. */
  function Encode(b: seq<byte>): (r: string)
    ensures |r| == 4 * ((|b| + 2) / 3)
    ensures forall i :: 0 <= i < |r| ==> IsAlphabet(r[i]) || r[i] == '='
  {
    PaddedLength(|b|);
    CharsOf(SextetsOf(b)) + Padding(|b|)
  }

  /** Padding completes the last group of four characters. */
  lemma PaddedLength(n: nat)
    ensures (4 * n + 2) / 3 + |Padding(n)| == 4 * ((n + 2) / 3)
  {
    var k := n / 3;
    if n % 3 == 0 {
      assert (4 * n + 2) / 3 == 4 * k && (n + 2) / 3 == k;
    } else if n % 3 == 1 {
      assert (4 * n + 2) / 3 == 4 * k + 2 && (n + 2) / 3 == k + 1;
    } else {
      assert (4 * n + 2) / 3 == 4 * k + 3 && (n + 2) / 3 == k + 1;
    }
  }

  /** ASCII whitespace as the HTML standard defines it: tab, line feed, form feed, carriage return, space. */
  predicate IsAsciiWhitespace(c: char) {
    c == '\t' || c == '\n' || c == '\U{000C}' || c == '\r' || c == ' '
  }

  /** Step 1 of forgiving-base64 decode: drop every ASCII whitespace character, keeping the order of the rest. */
  function RemoveAsciiWhitespace(s: string): (r: string)
    ensures forall i :: 0 <= i < |r| ==> !IsAsciiWhitespace(r[i])
  {
    if s == [] then []
    else (if IsAsciiWhitespace(s[0]) then [] else [s[0]]) + RemoveAsciiWhitespace(s[1..])
  }

  /** Step 2: when the length is a multiple of 4, one or two trailing `=` are removed. */
  function StripPadding(s: string): (r: string) {
    if |s| % 4 == 0 && |s| >= 2 && s[|s| - 2..] == "==" then s[..|s| - 2]
    else if |s| % 4 == 0 && |s| >= 1 && s[|s| - 1] == '=' then s[..|s| - 1]
    else s
  }

  /** Steps 5 to 9: the six-bit values in order, eight bits per output byte; leftover bits are discarded. */
  function DecodeSextets(v: seq<sextet>): (r: seq<byte>)
    requires |v| % 4 != 1
    decreases |v|
  {
    if |v| == 0 then []
    else
      var v0: int, v1: int := v[0], v[1];
      if |v| == 2 then [v0 * 4 + v1 / 16]
      else
        var v2: int := v[2];
        if |v| == 3 then [v0 * 4 + v1 / 16, v1 % 16 * 16 + v2 / 4]
        else
          var v3: int := v[3];
          [v0 * 4 + v1 / 16, v1 % 16 * 16 + v2 / 4, v2 % 4 * 64 + v3] + DecodeSextets(v[4..])
  }

  /** Forgiving-base64 decode; `None` is its failure (a length of 1 modulo 4, or a character outside the alphabet). */
  function ForgivingDecode(s: string): (r: Option<seq<byte>>)
  {
    DecodeStripped(RemoveAsciiWhitespace(s))
  }

  /** Steps 2 to 9 of forgiving-base64 decode, on input that holds no whitespace. */
  function DecodeStripped(s: string): (r: Option<seq<byte>>)
  {
    var d := StripPadding(s);
    if |d| % 4 == 1 || !AllAlphabet(d) then None else Some(DecodeSextets(ValuesOf(d)))
  }

  /** A string `atob` and `btoa` accept: each code point fits in one byte. */
  predicate IsBinary(s: string) {
    forall i :: 0 <= i < |s| ==> s[i] as int < 256
  }

  /** The bytes a binary string stands for (`charCodeAt`). */
  function BytesOf(s: string): (b: seq<byte>)
    requires IsBinary(s)
    ensures |b| == |s|
  {
    seq(|s|, i requires 0 <= i < |s| => s[i] as int)
  }

  /** The binary string of a byte sequence (`String.fromCharCode`). */
  function BinaryOf(b: seq<byte>): (s: string)
    ensures |s| == |b| && IsBinary(s)
  {
    seq(|b|, i requires 0 <= i < |b| => b[i] as char)
  }

  lemma BytesOfBinaryOf(b: seq<byte>)
    ensures BytesOf(BinaryOf(b)) == b
  {
  }

  /** `btoa`: fails (`InvalidCharacterError`) on a code point above 255. */
  function Btoa(s: string): (r: Option<string>)
    ensures r.Some? <==> IsBinary(s)
  {
    if IsBinary(s) then Some(Encode(BytesOf(s))) else None
  }

  /** `atob`: fails (`InvalidCharacterError`) where forgiving-base64 decode fails. */
  function Atob(s: string): (r: Option<string>)
    ensures r.Some? ==> IsBinary(r.value)
  {
    match ForgivingDecode(s)
    case None => None
    case Some(b) => Some(BinaryOf(b))
  }

  lemma SextetsOfOne(b: seq<byte>)
    requires |b| == 1
    ensures var v := SextetsOf(b); |v| == 2 && v[0] == b[0] / 4 && v[1] == b[0] % 4 * 16
  {
  }

  lemma SextetsOfTwo(b: seq<byte>)
    requires |b| == 2
    ensures var v := SextetsOf(b);
      |v| == 3 && v[0] == b[0] / 4 && v[1] == b[0] % 4 * 16 + b[1] / 16 && v[2] == b[1] % 16 * 4
  {
  }

  lemma SextetsOfGroup(b: seq<byte>)
    requires |b| >= 3
    ensures var v := SextetsOf(b);
      && |v| >= 4 && v[0] == b[0] / 4 && v[1] == b[0] % 4 * 16 + b[1] / 16
      && v[2] == b[1] % 16 * 4 + b[2] / 64 && v[3] == b[2] % 64
      && v[4..] == SextetsOf(b[3..])
  {
  }

  lemma DecodeSextetsTwo(v: seq<sextet>)
    requires |v| == 2
    ensures DecodeSextets(v) == [v[0] as int * 4 + v[1] as int / 16]
  {
  }

  lemma DecodeSextetsThree(v: seq<sextet>)
    requires |v| == 3
    ensures DecodeSextets(v) == [v[0] as int * 4 + v[1] as int / 16, v[1] as int % 16 * 16 + v[2] as int / 4]
  {
  }

  lemma DecodeSextetsGroup(v: seq<sextet>)
    requires |v| >= 4 && |v| % 4 != 1
    ensures DecodeSextets(v) == [v[0] as int * 4 + v[1] as int / 16, v[1] as int % 16 * 16 + v[2] as int / 4,
                                 v[2] as int % 4 * 64 + v[3] as int] + DecodeSextets(v[4..])
  {
  }

  /** The byte of a one-byte group survives encoding to two sextets and back. */
  lemma OneByteArithmetic(x: int, v0: int, v1: int)
    requires 0 <= x < 256 && v0 == x / 4 && v1 == x % 4 * 16
    ensures v0 * 4 + v1 / 16 == x
  {
  }

  /** The bytes of a two-byte group survive encoding to three sextets and back. */
  lemma TwoBytesArithmetic(x: int, y: int, v0: int, v1: int, v2: int)
    requires 0 <= x < 256 && 0 <= y < 256
    requires v0 == x / 4 && v1 == x % 4 * 16 + y / 16 && v2 == y % 16 * 4
    ensures v0 * 4 + v1 / 16 == x
    ensures v1 % 16 * 16 + v2 / 4 == y
  {
  }

  /** The bytes of a full group survive encoding to four sextets and back. */
  lemma GroupArithmetic(x: int, y: int, z: int, v0: int, v1: int, v2: int, v3: int)
    requires 0 <= x < 256 && 0 <= y < 256 && 0 <= z < 256
    requires v0 == x / 4 && v1 == x % 4 * 16 + y / 16 && v2 == y % 16 * 4 + z / 64 && v3 == z % 64
    ensures v0 * 4 + v1 / 16 == x
    ensures v1 % 16 * 16 + v2 / 4 == y
    ensures v2 % 4 * 64 + v3 == z
  {
  }

  lemma DecodeOneByte(b: seq<byte>)
    requires |b| == 1
    ensures DecodeSextets(SextetsOf(b)) == b
  {
    var v := SextetsOf(b);
    SextetsOfOne(b);
    DecodeSextetsTwo(v);
    var d := DecodeSextets(v);
    OneByteArithmetic(b[0], v[0], v[1]);
    assert |d| == 1 && d[0] == b[0];
  }

  lemma DecodeTwoBytes(b: seq<byte>)
    requires |b| == 2
    ensures DecodeSextets(SextetsOf(b)) == b
  {
    var v := SextetsOf(b);
    SextetsOfTwo(b);
    DecodeSextetsThree(v);
    var d := DecodeSextets(v);
    TwoBytesArithmetic(b[0], b[1], v[0], v[1], v[2]);
    assert |d| == 2 && d[0] == b[0] && d[1] == b[1];
  }

  lemma ModFourStep(n: int)
    requires n % 4 != 1
    ensures (n + 4) % 4 != 1
  {
  }

  lemma DecodeFullGroup(b: seq<byte>)
    requires |b| >= 3
    requires |SextetsOf(b[3..])| % 4 != 1
    ensures |SextetsOf(b)| % 4 != 1
    ensures var d := DecodeSextets(SextetsOf(b));
      |d| >= 3 && d[0] == b[0] && d[1] == b[1] && d[2] == b[2] && d[3..] == DecodeSextets(SextetsOf(b[3..]))
  {
    var v := SextetsOf(b);
    SextetsOfGroup(b);
    ModFourStep(|SextetsOf(b[3..])|);
    DecodeSextetsGroup(v);
    GroupArithmetic(b[0], b[1], b[2], v[0], v[1], v[2], v[3]);
  }

  /** Decoding the six-bit values of `b` gives back `b`. */
  lemma {:induction false} DecodeSextetsOf(b: seq<byte>)
    ensures |SextetsOf(b)| % 4 != 1
    ensures DecodeSextets(SextetsOf(b)) == b
    decreases |b|
  {
    if |b| == 1 {
      DecodeOneByte(b);
    } else if |b| == 2 {
      DecodeTwoBytes(b);
    } else if |b| >= 3 {
      DecodeSextetsOf(b[3..]);
      DecodeFullGroup(b);
      var d := DecodeSextets(SextetsOf(b));
      forall i | 0 <= i < |b| ensures d[i] == b[i] {
        if i >= 3 {
          assert d[i] == d[3..][i - 3];
          assert b[i] == b[3..][i - 3];
        }
      }
    }
  }

  lemma SextetsLength(b: seq<byte>)
    ensures |b| % 3 == 0 ==> |SextetsOf(b)| % 4 == 0
    ensures |b| % 3 == 1 ==> |SextetsOf(b)| % 4 == 2
    ensures |b| % 3 == 2 ==> |SextetsOf(b)| % 4 == 3
  {
    var n := |b|;
    assert |SextetsOf(b)| == (4 * n + 2) / 3;
    EncodedLength(n);
  }

  lemma EncodedLength(n: nat)
    ensures n % 3 == 0 ==> ((4 * n + 2) / 3) % 4 == 0
    ensures n % 3 == 1 ==> ((4 * n + 2) / 3) % 4 == 2
    ensures n % 3 == 2 ==> ((4 * n + 2) / 3) % 4 == 3
  {
    var k := n / 3;
    if n % 3 == 0 {
      assert (4 * n + 2) / 3 == 4 * k;
    } else if n % 3 == 1 {
      assert (4 * n + 2) / 3 == 4 * k + 2;
    } else {
      assert (4 * n + 2) / 3 == 4 * k + 3;
    }
  }

  /** A string of alphabet characters whose length is a multiple of 4 has no padding to strip. */
  lemma StripPaddingNone(s: string)
    requires AllAlphabet(s)
    ensures StripPadding(s) == s
  {
    if |s| >= 1 {
      assert IsAlphabet(s[|s| - 1]);
      if |s| >= 2 {
        assert s[|s| - 2..][1] == s[|s| - 1];
      }
    }
  }

  lemma StripPaddingTwo(s: string)
    requires AllAlphabet(s) && |s| % 4 == 2
    ensures StripPadding(s + "==") == s
  {
    var e := s + "==";
    assert e[|e| - 2..] == "==";
    assert e[..|e| - 2] == s;
  }

  lemma StripPaddingOne(s: string)
    requires AllAlphabet(s) && |s| % 4 == 3
    ensures StripPadding(s + "=") == s
  {
    var e := s + "=";
    assert IsAlphabet(s[|s| - 1]);
    assert e[|e| - 2..][0] == s[|s| - 1];
    assert e[..|e| - 1] == s;
  }

  /** Removing the padding that `Encode` added gives back exactly the sextets' characters. */
  lemma StripPaddingOfEncode(b: seq<byte>)
    ensures StripPadding(Encode(b)) == CharsOf(SextetsOf(b))
  {
    var s := CharsOf(SextetsOf(b));
    SextetsLength(b);
    if |b| % 3 == 0 {
      assert Encode(b) == s;
      StripPaddingNone(s);
    } else if |b| % 3 == 1 {
      assert Encode(b) == s + "==";
      StripPaddingTwo(s);
    } else {
      assert Encode(b) == s + "=";
      StripPaddingOne(s);
    }
  }

  /** Decoding inverts encoding: `atob` gives back the bytes `btoa` was given. */
  lemma DecodeEncode(b: seq<byte>)
    ensures ForgivingDecode(Encode(b)) == Some(b)
  {
    var e := Encode(b);
    assert forall i :: 0 <= i < |e| ==> !IsAsciiWhitespace(e[i]);
    RemoveAsciiWhitespaceNone(e);
    StripPaddingOfEncode(b);
    SextetsLength(b);
    ValuesOfCharsOf(SextetsOf(b));
    DecodeSextetsOf(b);
  }

  /** `atob(btoa(s)) == s` for every binary string. */
  lemma AtobBtoa(s: string)
    requires IsBinary(s)
    ensures Btoa(s).Some? && Atob(Btoa(s).value) == Some(s)
  {
    var b := BytesOf(s);
    DecodeEncode(b);
    assert BinaryOf(b) == s;
  }

  /** Text without whitespace is left as it is. */
  lemma {:induction false} RemoveAsciiWhitespaceNone(s: string)
    requires forall i :: 0 <= i < |s| ==> !IsAsciiWhitespace(s[i])
    ensures RemoveAsciiWhitespace(s) == s
  {
    if s != [] {
      RemoveAsciiWhitespaceNone(s[1..]);
    }
  }

  /** `RemoveAsciiWhitespace` distributes over concatenation. */
  lemma {:induction false} RemoveAsciiWhitespaceAppend(s: string, t: string)
    ensures RemoveAsciiWhitespace(s + t) == RemoveAsciiWhitespace(s) + RemoveAsciiWhitespace(t)
    decreases |s|
  {
    if s == [] {
      assert s + t == t;
    } else {
      assert (s + t)[0] == s[0];
      assert (s + t)[1..] == s[1..] + t;
      RemoveAsciiWhitespaceAppend(s[1..], t);
    }
  }

  lemma RemoveAsciiWhitespaceInsert(a: string, b: string, w: char)
    requires IsAsciiWhitespace(w)
    ensures RemoveAsciiWhitespace(a + [w] + b) == RemoveAsciiWhitespace(a + b)
  {
    assert RemoveAsciiWhitespace([w]) == [] by {
      assert [w][1..] == [];
    }
    RemoveAsciiWhitespaceAppend(a + [w], b);
    RemoveAsciiWhitespaceAppend(a, [w]);
    assert RemoveAsciiWhitespace(a) + [] == RemoveAsciiWhitespace(a);
    RemoveAsciiWhitespaceAppend(a, b);
  }

  /** `atob` ignores ASCII whitespace wherever it is inserted. */
  lemma ForgivingDecodeIgnoresWhitespace(s: string, i: nat, w: char)
    requires i <= |s| && IsAsciiWhitespace(w)
    ensures ForgivingDecode(s[..i] + [w] + s[i..]) == ForgivingDecode(s)
  {
    RemoveAsciiWhitespaceInsert(s[..i], s[i..], w);
    assert s[..i] + s[i..] == s;
  }
}
