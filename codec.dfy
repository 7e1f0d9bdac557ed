/**
 * The worker's "UTF-8 safe" base64 helpers `base64ToUtf8` and `utf8ToBase64`: base64 text to a
 * string and back, through the bytes of the UTF-8 form.
 */
module Codec {
  import opened Wrappers
  import opened Bytes
  import Base64
  import Utf8
  import GitHubContents

  /** `s.replace(/\n/g, '')`: every line feed removed, the other characters kept in order. */
  function RemoveNewlines(s: string): (r: string)
    ensures forall i :: 0 <= i < |r| ==> r[i] != '\n'
  {
    if s == [] then [] else (if s[0] == '\n' then [] else [s[0]]) + RemoveNewlines(s[1..])
  }

  /** What `base64ToUtf8` computes; `None` where `atob` throws. */
  function DecodeText(base64: string): (r: Option<string>)
  {
    match Base64.Atob(RemoveNewlines(base64))
    case None => None
    case Some(binary) => Some(Utf8.Decode(Base64.BytesOf(binary)))
  }

  /** What `utf8ToBase64` computes. */
  function EncodeText(s: string): (r: string)
  {
    Base64.Encode(Utf8.Encode(s))
  }

  /** `base64ToUtf8`: strips line feeds, decodes with `atob`, copies the binary string into a byte
      array one code unit at a time, then decodes the bytes as UTF-8. */
  method Base64ToUtf8(base64: string) returns (r: Option<string>)
    ensures r == DecodeText(base64)
  {
    var decoded := Base64.Atob(RemoveNewlines(base64));
    if decoded.None? {
      return None;
    }
    var binary := decoded.value;
    var bytes := new byte[|binary|];
    for i := 0 to |binary|
      invariant forall k :: 0 <= k < i ==> bytes[k] == binary[k] as int
    {
      bytes[i] := binary[i] as int;
    }
    assert bytes[..] == Base64.BytesOf(binary);
    r := Some(Utf8.Decode(bytes[..]));
  }

  /** `utf8ToBase64`: encodes the string as UTF-8, builds the binary string one byte at a time with
      `String.fromCharCode`, then encodes it with `btoa`, which cannot fail on such a string. */
  method Utf8ToBase64(s: string) returns (r: string)
    ensures r == EncodeText(s)
  {
    var bytes := Utf8.Encode(s);
    var binary: string := "";
    for i := 0 to |bytes|
      invariant |binary| == i
      invariant forall k :: 0 <= k < i ==> binary[k] as int == bytes[k]
    {
      binary := binary + [bytes[i] as char];
    }
    assert Base64.IsBinary(binary);
    assert Base64.BytesOf(binary) == bytes;
    var encoded := Base64.Btoa(binary);
    r := encoded.value;
  }

  /** The decoder reads back every string the encoder writes, unless it starts with U+FEFF,
      which `TextDecoder` drops. */
  lemma DecodeEncodeText(s: string)
    requires s == [] || s[0] != Utf8.ByteOrderMark
    ensures DecodeText(EncodeText(s)) == Some(s)
  {
    var e := EncodeText(s);
    RemoveNewlinesNone(e);
    Base64.DecodeEncode(Utf8.Encode(s));
    Base64.BytesOfBinaryOf(Utf8.Encode(s));
    Utf8.DecodeEncode(s);
  }

  /** A string that starts with U+FEFF comes back without it. */
  lemma DecodeEncodeTextDropsByteOrderMark(s: string)
    ensures DecodeText(EncodeText([Utf8.ByteOrderMark] + s)) == Some(s)
  {
    var t := [Utf8.ByteOrderMark] + s;
    RemoveNewlinesNone(EncodeText(t));
    Base64.DecodeEncode(Utf8.Encode(t));
    Base64.BytesOfBinaryOf(Utf8.Encode(t));
    Utf8.DecodeEncodeDropsByteOrderMark(s);
  }

  /** The encoded text has length `4 * ceil(n / 3)` for the `n` bytes of the UTF-8 form, and holds
      only alphabet characters and `=`. */
  lemma EncodeTextShape(s: string)
    ensures |EncodeText(s)| == 4 * ((|Utf8.Encode(s)| + 2) / 3)
    ensures forall i :: 0 <= i < |EncodeText(s)| ==> Base64.IsAlphabet(EncodeText(s)[i]) || EncodeText(s)[i] == '='
  {
  }

  lemma {:induction false} RemoveNewlinesNone(s: string)
    requires forall i :: 0 <= i < |s| ==> s[i] != '\n'
    ensures RemoveNewlines(s) == s
  {
    if s != [] {
      RemoveNewlinesNone(s[1..]);
    }
  }

  lemma {:induction false} RemoveNewlinesAppend(s: string, t: string)
    ensures RemoveNewlines(s + t) == RemoveNewlines(s) + RemoveNewlines(t)
    decreases |s|
  {
    if s == [] {
      assert s + t == t;
    } else {
      assert (s + t)[0] == s[0];
      assert (s + t)[1..] == s[1..] + t;
      RemoveNewlinesAppend(s[1..], t);
    }
  }

  lemma RemoveNewlinesInsert(a: string, b: string)
    ensures RemoveNewlines(a + "\n" + b) == RemoveNewlines(a + b)
  {
    var n := "\n";
    assert RemoveNewlines(n) == [] by {
      assert n[1..] == [];
    }
    RemoveNewlinesAppend(a + n, b);
    RemoveNewlinesAppend(a, n);
    RemoveNewlinesAppend(a, b);
    assert RemoveNewlines(a) + [] == RemoveNewlines(a);
  }

  /** A line feed inserted anywhere in the base64 text (as the content API wraps its lines)
      does not change what is decoded. */
  lemma DecodeTextIgnoresNewline(s: string, i: nat)
    requires i <= |s|
    ensures DecodeText(s[..i] + "\n" + s[i..]) == DecodeText(s)
  {
    RemoveNewlinesInsert(s[..i], s[i..]);
    assert s[..i] + s[i..] == s;
  }

  /** Removing the line feeds from the served, line-broken form gives what removing them from the
      text as written gives. */
  lemma {:induction false} RemoveNewlinesWrap(s: string, width: nat)
    requires width > 0
    ensures RemoveNewlines(GitHubContents.Wrap(s, width)) == RemoveNewlines(s)
    decreases |s|
  {
    var n := "\n";
    assert RemoveNewlines(n) == [] by {
      assert n[1..] == [];
    }
    if s == [] {
    } else if |s| <= width {
      RemoveNewlinesAppend(s, n);
      assert RemoveNewlines(s) + [] == RemoveNewlines(s);
    } else {
      var line, rest := s[..width], s[width..];
      RemoveNewlinesAppend(line + n, GitHubContents.Wrap(rest, width));
      RemoveNewlinesAppend(line, n);
      assert RemoveNewlines(line) + [] == RemoveNewlines(line);
      RemoveNewlinesWrap(rest, width);
      RemoveNewlinesAppend(line, rest);
      assert line + rest == s;
    }
  }

  /** `base64ToUtf8` decodes the content the API serves, line feeds and all, as it decodes the text written. */
  lemma DecodeTextWrap(s: string, width: nat)
    requires width > 0
    ensures DecodeText(GitHubContents.Wrap(s, width)) == DecodeText(s)
  {
    RemoveNewlinesWrap(s, width);
  }
}
