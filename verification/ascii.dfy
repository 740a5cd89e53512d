/**
 The ASCII sanitiser `remove_non_ascii` and the metadata cell text
 `str(remove_non_ascii(x).encode('ascii'))`, which is Python's bytes
 literal notation `b'...'` for the sanitised field, together with a
 decoder for that notation.
 */
module Ascii {
  import opened Wrappers
  import opened Text

  predicate IsAsciiChar(c: char) {
    (c as int) < 128
  }

  predicate IsAscii(s: string) {
    forall i :: 0 <= i < |s| ==> IsAsciiChar(s[i])
  }

  /** Printable ASCII: space through '~'. */
  predicate IsPrintable(s: string) {
    forall i :: 0 <= i < |s| ==> ' ' <= s[i] <= '~'
  }

  /**
   Drops every character whose code point is 128 or more and keeps the rest
   in order; ASCII input comes back unchanged.
   */
  function RemoveNonAscii(s: string): (r: string)
    ensures IsAscii(r)
    ensures IsSubsequence(r, s)
    ensures forall c :: multiset(r)[c] == if IsAsciiChar(c) then multiset(s)[c] else 0
    ensures IsAscii(s) ==> r == s
  {
    FilterIsSubsequence(s, IsAsciiChar);
    Filter(s, IsAsciiChar)
  }

  lemma RemoveNonAsciiIdempotent(s: string)
    ensures RemoveNonAscii(RemoveNonAscii(s)) == RemoveNonAscii(s)
  {
  }

  /** A trailing non-ASCII character after ASCII text is dropped. */
  lemma DropsTrailing(a: string, c: char)
    requires IsAscii(a) && !IsAsciiChar(c)
    ensures RemoveNonAscii(a + [c]) == a
  {
    FilterAppend(a, [c], IsAsciiChar);
    FilterOne(c, IsAsciiChar);
  }

  /** The accented letter of "café" is dropped, not transliterated. */
  lemma RemoveNonAsciiCafe()
    ensures RemoveNonAscii("caf\U{E9}") == "caf"
  {
    assert "caf\U{E9}" == "caf" + ['\U{E9}'];
    DropsTrailing("caf", '\U{E9}');
  }

  // ---------------------------------------------------------------------------
  // Python's bytes repr, for byte strings whose bytes are all below 128

  const HexDigits: string := "0123456789abcdef"

  /**
   CPython's choice of delimiter: single quotes by default, double quotes only
   when that spares escaping. The delimiter itself occurs in the text only
   when both quote kinds do, so it needs escaping only then.
   */
  function QuoteFor(s: string): (q: char)
    ensures q == '\'' || q == '"'
    ensures q in s ==> '\'' in s && '"' in s
    ensures '\'' !in s || '"' in s ==> q == '\''
  {
    if '\'' in s && '"' !in s then '"' else '\''
  }

  /** How one byte is written inside the quotes. */
  function EscapeChar(c: char, q: char): (r: string)
    requires IsAsciiChar(c) && (q == '\'' || q == '"')
    ensures 1 <= |r| <= 4
    ensures IsPrintable(r)
    ensures |r| == 1 <==> r == [c]
  {
    if c == q || c == '\\' then ['\\', c]
    else if c == '\t' then "\\t"
    else if c == '\n' then "\\n"
    else if c == '\r' then "\\r"
    else if c < ' ' || c as int >= 0x7f then ['\\', 'x', HexDigits[c as int / 16], HexDigits[c as int % 16]]
    else [c]
  }

  function EscapeBody(s: string, q: char): (r: string)
    requires IsAscii(s) && (q == '\'' || q == '"')
    ensures |s| <= |r| <= 4 * |s|
    ensures IsPrintable(r)
  {
    if s == [] then [] else EscapeChar(s[0], q) + EscapeBody(s[1..], q)
  }

  /**
   `str(b)` for the bytes `b` of an ASCII string: the letter b, a quote, the
   escaped bytes and the same quote again; every character is printable.
   */
  function BytesRepr(s: string): (r: string)
    requires IsAscii(s)
    ensures |r| >= 3 + |s|
    ensures r[0] == 'b' && (r[1] == '\'' || r[1] == '"') && r[|r| - 1] == r[1]
    ensures IsPrintable(r)
  {
    var q := QuoteFor(s);
    ['b', q] + EscapeBody(s, q) + [q]
  }

  /** The text written for one metadata field (and for the review body). */
  function MetaCell(field: string): (r: string)
    ensures |r| >= 3
    ensures r[0] == 'b' && (r[1] == '\'' || r[1] == '"')
    ensures IsPrintable(r)
  {
    BytesRepr(RemoveNonAscii(field))
  }

  // ---------------------------------------------------------------------------
  // Reading the notation back

  function HexValue(c: char): (v: Option<nat>)
    ensures v.Some? ==> v.value < 16
  {
    if '0' <= c <= '9' then Some(c as int - '0' as int)
    else if 'a' <= c <= 'f' then Some(c as int - 'a' as int + 10)
    else None
  }

  function Prepend(p: string, o: Option<string>): Option<string> {
    match o
    case None => None
    case Some(x) => Some(p + x)
  }

  /** Decodes the text between the quotes; an unescaped closing quote or a bad escape fails. */
  function UnescapeBody(t: string, q: char): Option<string>
    decreases |t|
  {
    if t == [] then Some([])
    else if t[0] == q then None
    else if t[0] != '\\' then Prepend([t[0]], UnescapeBody(t[1..], q))
    else if |t| < 2 then None
    else if t[1] == 't' then Prepend("\t", UnescapeBody(t[2..], q))
    else if t[1] == 'n' then Prepend("\n", UnescapeBody(t[2..], q))
    else if t[1] == 'r' then Prepend("\r", UnescapeBody(t[2..], q))
    else if t[1] == '\\' || t[1] == '\'' || t[1] == '"' then Prepend([t[1]], UnescapeBody(t[2..], q))
    else if t[1] == 'x' && |t| >= 4 && HexValue(t[2]).Some? && HexValue(t[3]).Some? then
      Prepend([(HexValue(t[2]).value * 16 + HexValue(t[3]).value) as char], UnescapeBody(t[4..], q))
    else None
  }

  /** Parses `b'...'` or `b"..."` back to the text of its bytes. */
  function DecodeBytesRepr(r: string): Option<string> {
    if |r| >= 3 && r[0] == 'b' && (r[1] == '\'' || r[1] == '"') && r[|r| - 1] == r[1] then
      UnescapeBody(r[2..|r| - 1], r[1])
    else None
  }

  lemma HexDigitValue(d: nat)
    requires d < 16
    ensures HexValue(HexDigits[d]) == Some(d)
  {
  }

  /** Decoding the escape of one character gives that character and goes on after it. */
  lemma UnescapeOne(c: char, q: char, rest: string)
    requires IsAsciiChar(c) && (q == '\'' || q == '"')
    ensures UnescapeBody(EscapeChar(c, q) + rest, q) == Prepend([c], UnescapeBody(rest, q))
  {
    if c == q || c == '\\' || c == '\t' || c == '\n' || c == '\r' {
      UnescapeShort(c, q, rest);
    } else if c < ' ' || c as int >= 0x7f {
      UnescapeHex(c, q, rest);
    } else {
      var t := EscapeChar(c, q) + rest;
      assert t[0] == c && t[1..] == rest;
    }
  }

  lemma UnescapeShort(c: char, q: char, rest: string)
    requires q == '\'' || q == '"'
    requires c == q || c == '\\' || c == '\t' || c == '\n' || c == '\r'
    ensures UnescapeBody(EscapeChar(c, q) + rest, q) == Prepend([c], UnescapeBody(rest, q))
  {
    var e := EscapeChar(c, q);
    var t := e + rest;
    assert |e| == 2 && e[0] == '\\';
    assert t[0] == '\\' && t[1] == e[1] && t[2..] == rest;
  }

  lemma UnescapeHex(c: char, q: char, rest: string)
    requires IsAsciiChar(c) && (q == '\'' || q == '"')
    requires c != '\t' && c != '\n' && c != '\r' && (c < ' ' || c as int >= 0x7f)
    ensures UnescapeBody(EscapeChar(c, q) + rest, q) == Prepend([c], UnescapeBody(rest, q))
  {
    var hi := c as int / 16;
    var lo := c as int % 16;
    var e := EscapeChar(c, q);
    assert e == ['\\', 'x', HexDigits[hi], HexDigits[lo]];
    var t := e + rest;
    assert t[0] == '\\' && t[1] == 'x' && t[2] == HexDigits[hi] && t[3] == HexDigits[lo] && t[4..] == rest;
    HexDigitValue(hi);
    HexDigitValue(lo);
    assert (hi * 16 + lo) as char == c;
  }

  lemma {:induction false} UnescapeEscapeBody(s: string, q: char)
    requires IsAscii(s) && (q == '\'' || q == '"')
    ensures UnescapeBody(EscapeBody(s, q), q) == Some(s)
    decreases |s|
  {
    if s != [] {
      UnescapeOne(s[0], q, EscapeBody(s[1..], q));
      UnescapeEscapeBody(s[1..], q);
      HeadTail(s);
    }
  }

  /** The bytes notation is lossless on ASCII text: decoding it gives the text back. */
  lemma BytesReprRoundTrip(s: string)
    requires IsAscii(s)
    ensures DecodeBytesRepr(BytesRepr(s)) == Some(s)
  {
    var q := QuoteFor(s);
    var r := BytesRepr(s);
    assert r[2..|r| - 1] == EscapeBody(s, q);
    UnescapeEscapeBody(s, q);
  }

  /** A metadata cell decodes to exactly the sanitised field. */
  lemma MetaCellRoundTrip(field: string)
    ensures DecodeBytesRepr(MetaCell(field)) == Some(RemoveNonAscii(field))
  {
    BytesReprRoundTrip(RemoveNonAscii(field));
  }

  /** Two fields give the same cell only when they agree once sanitised. */
  lemma MetaCellInjective(x: string, y: string)
    ensures MetaCell(x) == MetaCell(y) <==> RemoveNonAscii(x) == RemoveNonAscii(y)
  {
    MetaCellRoundTrip(x);
    MetaCellRoundTrip(y);
  }

  lemma BytesReprEmpty()
    ensures BytesRepr("") == "b''"
  {
    assert EscapeBody("", '\'') == [];
  }

  /** A single quote inside switches the delimiters to double quotes. */
  lemma BytesReprApostrophe()
    ensures BytesRepr("it's") == "b\"it's\""
  {
    var s := "it's";
    assert QuoteFor(s) == '"';
    EscapePlain(s, '"');
    assert BytesRepr(s) == ['b', '"'] + s + ['"'];
    ApostropheLiteral();
  }

  lemma ApostropheLiteral()
    ensures ['b', '"'] + "it's" + ['"'] == "b\"it's\""
  {
  }

  /** Printable text without a backslash or the chosen quote is written as it is. */
  lemma {:induction false} EscapePlain(s: string, q: char)
    requires IsAscii(s) && (q == '\'' || q == '"')
    requires forall i :: 0 <= i < |s| ==> ' ' <= s[i] && s[i] as int < 0x7f && s[i] != q && s[i] != '\\'
    ensures EscapeBody(s, q) == s
    decreases |s|
  {
    if s != [] {
      EscapePlain(s[1..], q);
      HeadTail(s);
    }
  }

  /** With both quote characters inside, the single quote is escaped. */
  lemma BytesReprBothQuotes()
    ensures BytesRepr("a'\"") == "b'a\\'\"'"
  {
    assert EscapeBody("a'\"", '\'') == "a\\'\"";
  }
}
