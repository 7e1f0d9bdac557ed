/**
 * The persisted form of the artist list: `JSON.stringify(artists, null, 2)` and `JSON.parse`,
 * restricted to arrays of strings (RFC 8259 section 5 for arrays, section 7 for strings).
 */
module JsonArtists {
  import opened Wrappers

  /** A lower-case hexadecimal digit, as `JSON.stringify` writes them. */
  function HexDigit(v: int): (c: char)
    requires 0 <= v < 16
  {
    if v < 10 then ('0' as int + v) as char else ('a' as int + v - 10) as char
  }

  /** One code point inside a JSON string literal: the two-character escapes for `"`, `\`, backspace,
      form feed, line feed, carriage return and tab, `\u00XX` for the other control characters,
      and the code point itself otherwise. */
  function EscapeChar(c: char): (r: string)
    ensures 1 <= |r|
  {
    if c == '"' then "\\\""
    else if c == '\\' then "\\\\"
    else if c == '\U{0008}' then "\\b"
    else if c == '\U{000C}' then "\\f"
    else if c == '\n' then "\\n"
    else if c == '\r' then "\\r"
    else if c == '\t' then "\\t"
    else if c < ' ' then "\\u00" + [HexDigit(c as int / 16), HexDigit(c as int % 16)]
    else [c]
  }

  function EscapeString(s: string): (r: string)
  {
    if s == [] then [] else EscapeChar(s[0]) + EscapeString(s[1..])
  }

  /** A JSON string literal. */
  function Quote(s: string): (r: string)
  {
    "\"" + EscapeString(s) + "\""
  }

  /** The elements after the first, each on its own line, indented by two spaces. */
  function MoreElements(list: seq<string>): (r: string)
  {
    if list == [] then [] else ",\n  " + Quote(list[0]) + MoreElements(list[1..])
  }

  /** `JSON.stringify(list, null, 2)`: `[]` when empty, otherwise one element per line. */
  function Stringify(list: seq<string>): (r: string)
    ensures |r| >= 2 && r[0] == '['
  {
    if list == [] then "[]" else "[\n  " + Quote(list[0]) + MoreElements(list[1..]) + "\n]"
  }

  /** Insignificant whitespace of RFC 8259 section 2. */
  predicate IsJsonWhitespace(c: char) {
    c == ' ' || c == '\t' || c == '\n' || c == '\r'
  }

  function SkipWhitespace(t: string): (r: string)
    ensures |r| <= |t|
    ensures r == [] || !IsJsonWhitespace(r[0])
  {
    if t != [] && IsJsonWhitespace(t[0]) then SkipWhitespace(t[1..]) else t
  }

  function HexValue(c: char): (r: Option<int>)
    ensures r.Some? ==> 0 <= r.value < 16
  {
    if '0' <= c <= '9' then Some(c as int - '0' as int)
    else if 'a' <= c <= 'f' then Some(c as int - 'a' as int + 10)
    else if 'A' <= c <= 'F' then Some(c as int - 'A' as int + 10)
    else None
  }

  /** Four hexadecimal digits, of either case, as a UTF-16 code unit. */
  function Hex4(t: string): (r: Option<int>)
    requires |t| == 4
    ensures r.Some? ==> 0 <= r.value < 0x10000
  {
    match (HexValue(t[0]), HexValue(t[1]), HexValue(t[2]), HexValue(t[3]))
    case (Some(a), Some(b), Some(c), Some(d)) => Some(((a * 16 + b) * 16 + c) * 16 + d)
    case _ => None
  }

  /** The escape after a backslash: the code point it denotes and the text after it. A high-surrogate
      `\u` escape must be followed by a low-surrogate one, and the pair denotes one code point. */
  function ParseEscape(t: string): (r: Option<(char, string)>)
    ensures r.Some? ==> |r.value.1| < |t|
  {
    if t == [] then None
    else if t[0] == '"' then Some(('"', t[1..]))
    else if t[0] == '\\' then Some(('\\', t[1..]))
    else if t[0] == '/' then Some(('/', t[1..]))
    else if t[0] == 'b' then Some(('\U{0008}', t[1..]))
    else if t[0] == 'f' then Some(('\U{000C}', t[1..]))
    else if t[0] == 'n' then Some(('\n', t[1..]))
    else if t[0] == 'r' then Some(('\r', t[1..]))
    else if t[0] == 't' then Some(('\t', t[1..]))
    else if t[0] == 'u' && |t| >= 5 then
      match Hex4(t[1..5])
      case None => None
      case Some(u) =>
        if 0xD800 <= u < 0xDC00 then
          if |t| >= 11 && t[5] == '\\' && t[6] == 'u' then
            match Hex4(t[7..11])
            case None => None
            case Some(l) =>
              if 0xDC00 <= l < 0xE000 then Some(((0x10000 + (u - 0xD800) * 0x400 + (l - 0xDC00)) as char, t[11..]))
              else None
          else None
        else if 0xDC00 <= u < 0xE000 then None
        else Some((u as char, t[5..]))
    else None
  }

  /** The body of a string literal up to and including its closing quote: the string and the text after it.
      Control characters must be escaped. */
  function ParseChars(t: string): (r: Option<(string, string)>)
    ensures r.Some? ==> |r.value.1| < |t|
    decreases |t|
  {
    if t == [] then None
    else if t[0] == '"' then Some(([], t[1..]))
    else if t[0] == '\\' then
      match ParseEscape(t[1..])
      case None => None
      case Some((c, rest)) => Prepend1(c, ParseChars(rest))
    else if t[0] < ' ' then None
    else Prepend1(t[0], ParseChars(t[1..]))
  }

  /** The code point `c` in front of the string read after it. */
  function Prepend1(c: char, r: Option<(string, string)>): (p: Option<(string, string)>)
    ensures p.Some? <==> r.Some?
    ensures p.Some? ==> p.value == ([c] + r.value.0, r.value.1)
  {
    match r
    case None => None
    case Some((s, after)) => Some(([c] + s, after))
  }

  /** One or more string elements separated by commas, up to and including the closing bracket. */
  function ParseElements(t: string): (r: Option<(seq<string>, string)>)
    ensures r.Some? ==> |r.value.1| < |t|
    decreases |t|
  {
    if t == [] || t[0] != '"' then None
    else
      match ParseChars(t[1..])
      case None => None
      case Some((s, rest)) => ParseAfterElement(s, rest)
  }

  /** What may follow the element `s`: the closing bracket, or a comma and more elements. */
  function ParseAfterElement(s: string, rest: string): (r: Option<(seq<string>, string)>)
    ensures r.Some? ==> |r.value.1| < |rest|
    decreases |rest|
  {
    var u := SkipWhitespace(rest);
    if u == [] then None
    else if u[0] == ']' then Some(([s], u[1..]))
    else if u[0] == ',' then Prepend(s, ParseElements(SkipWhitespace(u[1..])))
    else None
  }

  /** The element `s` in front of the elements read after it. */
  function Prepend(s: string, r: Option<(seq<string>, string)>): (p: Option<(seq<string>, string)>)
    ensures p.Some? <==> r.Some?
    ensures p.Some? ==> p.value == ([s] + r.value.0, r.value.1)
  {
    match r
    case None => None
    case Some((more, after)) => Some(([s] + more, after))
  }

  /** `JSON.parse` of a text that must be one array of strings, with whitespace around any token. */
  function Parse(text: string): (r: Option<seq<string>>)
  {
    var t := SkipWhitespace(text);
    if t == [] || t[0] != '[' then None
    else
      var u := SkipWhitespace(t[1..]);
      if u != [] && u[0] == ']' then
        if SkipWhitespace(u[1..]) == [] then Some([]) else None
      else
        match ParseElements(u)
        case None => None
        case Some((list, rest)) => if SkipWhitespace(rest) == [] then Some(list) else None
  }

  lemma HexDigitValue(v: int)
    requires 0 <= v < 16
    ensures HexValue(HexDigit(v)) == Some(v)
  {
  }

  /** A control character without a short escape is read back from its `\u00XX` escape. */
  lemma ParseControlEscape(c: char, rest: string)
    requires c < ' ' && c != '\U{0008}' && c != '\U{000C}' && c != '\n' && c != '\r' && c != '\t'
    ensures ParseEscape(EscapeChar(c)[1..] + rest) == Some((c, rest))
  {
    var hi, lo := c as int / 16, c as int % 16;
    HexDigitValue(hi);
    HexDigitValue(lo);
    var d := [HexDigit(hi), HexDigit(lo)];
    assert EscapeChar(c) == "\\u00" + d;
    var t := EscapeChar(c)[1..] + rest;
    assert t == ['u', '0', '0', d[0], d[1]] + rest;
    assert t[1..5] == ['0', '0', d[0], d[1]];
    assert Hex4(t[1..5]) == Some(c as int);
    assert t[5..] == rest;
  }

  /** The escaped form of one code point is read back as that code point. */
  lemma ParseEscapedChar(c: char, rest: string)
    ensures ParseChars(EscapeChar(c) + rest) == Prepend1(c, ParseChars(rest))
  {
    var e := EscapeChar(c);
    if c < ' ' && c != '\U{0008}' && c != '\U{000C}' && c != '\n' && c != '\r' && c != '\t' {
      ParseControlEscape(c, rest);
      assert (e + rest)[1..] == e[1..] + rest;
    } else if |e| == 2 {
      assert (e + rest)[2..] == rest;
    } else {
      assert (e + rest)[1..] == rest;
    }
  }

  /** A quoted string's body is read back as the string, leaving what follows the closing quote. */
  lemma {:induction false} ParseCharsEscapeString(s: string, rest: string)
    ensures ParseChars(EscapeString(s) + "\"" + rest) == Some((s, rest))
  {
    if s == [] {
      assert EscapeString(s) + "\"" + rest == "\"" + rest;
    } else {
      var tail := EscapeString(s[1..]) + "\"" + rest;
      assert EscapeString(s) + "\"" + rest == EscapeChar(s[0]) + tail;
      ParseEscapedChar(s[0], tail);
      ParseCharsEscapeString(s[1..], rest);
      assert [s[0]] + s[1..] == s;
    }
  }

  lemma ParseQuote(s: string, rest: string)
    ensures ParseChars((Quote(s) + rest)[1..]) == Some((s, rest))
    ensures (Quote(s) + rest)[0] == '"'
  {
    assert (Quote(s) + rest)[1..] == EscapeString(s) + "\"" + rest;
    ParseCharsEscapeString(s, rest);
  }

  lemma {:induction false} SkipWhitespaceOver(w: string, t: string)
    requires forall i :: 0 <= i < |w| ==> IsJsonWhitespace(w[i])
    requires t == [] || !IsJsonWhitespace(t[0])
    ensures SkipWhitespace(w + t) == t
  {
    if w == [] {
      assert w + t == t;
    } else {
      assert (w + t)[1..] == w[1..] + t;
      SkipWhitespaceOver(w[1..], t);
    }
  }

  /** An element is read as its string, then what follows it. */
  lemma ParseElement(x: string, rest: string)
    ensures ParseElements(Quote(x) + rest) == ParseAfterElement(x, rest)
  {
    ParseQuote(x, rest);
  }

  /** The last element, then the line break and the closing bracket. */
  lemma ParseLastElement(x: string)
    ensures ParseElements(Quote(x) + "\n]") == Some(([x], []))
  {
    ParseElement(x, "\n]");
    SkipWhitespaceOver("\n", "]");
    assert "\n" + "]" == "\n]";
  }

  /** A comma, a line break and the indentation lead to the next element. */
  lemma ParseAfterComma(x: string, next: string)
    requires next != [] && next[0] == '"'
    ensures ParseAfterElement(x, ",\n  " + next) == Prepend(x, ParseElements(next))
  {
    var rest := ",\n  " + next;
    SkipWhitespaceOver([], rest);
    assert rest[1..] == "\n  " + next;
    SkipWhitespaceOver("\n  ", next);
  }

  /** An element, then a comma, a line break, the indentation and the next element. */
  lemma ParseNextElement(x: string, next: string)
    requires next != [] && next[0] == '"'
    ensures ParseElements(Quote(x) + ",\n  " + next) == Prepend(x, ParseElements(next))
  {
    assert Quote(x) + ",\n  " + next == Quote(x) + (",\n  " + next);
    ParseElement(x, ",\n  " + next);
    ParseAfterComma(x, next);
  }

  /** A string literal starts with its opening quote. */
  lemma QuoteStart(s: string, rest: string)
    ensures Quote(s) + rest != [] && (Quote(s) + rest)[0] == '"'
  {
  }

  /** The text of `more` after the first element, through the closing bracket. */
  function ElementsText(x: string, more: seq<string>): (r: string)
    ensures r != [] && r[0] == '"'
  {
    QuoteStart(x, MoreElements(more) + "\n]");
    Quote(x) + (MoreElements(more) + "\n]")
  }

  lemma ElementsTextStep(x: string, more: seq<string>)
    requires more != []
    ensures ElementsText(x, more) == Quote(x) + ",\n  " + ElementsText(more[0], more[1..])
  {
  }

  lemma ParseElementsTextStep(x: string, more: seq<string>)
    requires more != []
    requires ParseElements(ElementsText(more[0], more[1..])) == Some((more, []))
    ensures ParseElements(ElementsText(x, more)) == Some(([x] + more, []))
  {
    ElementsTextStep(x, more);
    ParseNextElement(x, ElementsText(more[0], more[1..]));
  }

  /** The elements written after the opening bracket are read back, through the closing bracket. */
  lemma {:induction false} ParseElementsStringify(x: string, more: seq<string>)
    ensures ParseElements(ElementsText(x, more)) == Some(([x] + more, []))
    decreases |more|
  {
    if more == [] {
      assert ElementsText(x, more) == Quote(x) + "\n]";
      ParseLastElement(x);
      assert [x] + more == [x];
    } else {
      ParseElementsStringify(more[0], more[1..]);
      assert [more[0]] + more[1..] == more;
      ParseElementsTextStep(x, more);
    }
  }

  lemma StringifyText(list: seq<string>)
    requires list != []
    ensures Stringify(list) == "[\n  " + ElementsText(list[0], list[1..])
  {
  }

  /** An opening bracket, then the elements on their own lines. */
  lemma ParseBracketed(e: string, list: seq<string>)
    requires e != [] && e[0] == '"'
    requires ParseElements(e) == Some((list, []))
    ensures Parse("[\n  " + e) == Some(list)
  {
    var text := "[\n  " + e;
    SkipWhitespaceOver([], text);
    assert text[1..] == "\n  " + e;
    SkipWhitespaceOver("\n  ", e);
  }

  /** Parsing the pretty-printed form gives back the same names in the same order. */
  lemma ParseStringify(list: seq<string>)
    ensures Parse(Stringify(list)) == Some(list)
  {
    if list != [] {
      StringifyText(list);
      ParseElementsStringify(list[0], list[1..]);
      assert [list[0]] + list[1..] == list;
      ParseBracketed(ElementsText(list[0], list[1..]), list);
    } else {
      assert Stringify(list)[1..] == "]";
    }
  }
}
