/**
  What Python's `json.dumps` produces for a `str` and for a one-entry dict
  of strings under its defaults: `ensure_ascii=True` (every character
  outside printable ASCII becomes a `\uXXXX` escape with lower-case hex
  digits, and characters beyond U+FFFF a UTF-16 surrogate pair of them),
  the two-character escapes for quote, backslash and the five control
  characters that have one, and `": "` between key and value. A decoder
  for the escaped text, in the manner of section 7 of RFC 8259, is the
  partner that shows no information is lost.
*/
module JsonText {
  import opened Wrappers

  /** Characters the encoder copies unchanged: printable ASCII except `"` and `\`. */
  predicate IsVerbatim(c: char) {
    ' ' <= c <= '~' && c != '"' && c != '\\'
  }

  /** Printable ASCII, the only characters an `ensure_ascii` encoding contains. */
  predicate IsPrintableAscii(c: char) {
    ' ' <= c <= '~'
  }

  predicate AllPrintableAscii(s: string) {
    forall i :: 0 <= i < |s| ==> IsPrintableAscii(s[i])
  }

  function Pow16(k: nat): (r: nat)
    ensures r >= 1
  {
    if k == 0 then 1 else 16 * Pow16(k - 1)
  }

  /** The digits `Hex` writes: `0`-`9` and lower-case `a`-`f`. */
  predicate IsLowerHexDigit(c: char) {
    '0' <= c <= '9' || 'a' <= c <= 'f'
  }

  /** One lower-case hexadecimal digit. */
  function HexDigit(d: nat): (c: char)
    requires d < 16
    ensures IsLowerHexDigit(c) && IsPrintableAscii(c)
  {
    if d < 10 then ('0' as int + d) as char else ('a' as int + d - 10) as char
  }

  /** The value of a hexadecimal digit of either case, as a JSON decoder accepts it. */
  function HexValue(c: char): (r: Option<nat>)
    ensures r.Some? ==> r.value < 16
  {
    if '0' <= c <= '9' then Some(c as int - '0' as int)
    else if 'a' <= c <= 'f' then Some(c as int - 'a' as int + 10)
    else if 'A' <= c <= 'F' then Some(c as int - 'A' as int + 10)
    else None
  }

  /** `n` in `width` lower-case hexadecimal digits, most significant first. */
  function Hex(n: nat, width: nat): (r: string)
    ensures |r| == width && AllPrintableAscii(r)
    ensures forall i :: 0 <= i < |r| ==> IsLowerHexDigit(r[i])
  {
    if width == 0 then [] else Hex(n / 16, width - 1) + [HexDigit(n % 16)]
  }

  /** The number a string of hexadecimal digits denotes. */
  function ParseHex(s: string): (r: Option<nat>)
    ensures r.Some? ==> r.value < Pow16(|s|)
  {
    if s == [] then Some(0)
    else match (ParseHex(s[..|s| - 1]), HexValue(s[|s| - 1]))
      case (Some(high), Some(low)) => Some(16 * high + low)
      case _ => None
  }

  /** Reading a digit back gives its value. */
  lemma HexValueOfDigit(d: nat)
    requires d < 16
    ensures HexValue(HexDigit(d)) == Some(d)
  {
  }

  /** Printing a number in hexadecimal and reading it back gives the number. */
  lemma {:induction false} ParseHexOfHex(n: nat, width: nat)
    requires n < Pow16(width)
    ensures ParseHex(Hex(n, width)) == Some(n)
  {
    if width > 0 {
      ParseHexOfHex(n / 16, width - 1);
      var s := Hex(n, width);
      assert s[..|s| - 1] == Hex(n / 16, width - 1);
      HexValueOfDigit(n % 16);
    }
  }

  /** `\uXXXX` for a UTF-16 code unit. */
  function UnicodeEscape(unit: nat): (r: string)
    requires unit < 0x10000
    ensures |r| == 6 && AllPrintableAscii(r)
    ensures r[..2] == "\\u" && forall i :: 2 <= i < 6 ==> IsLowerHexDigit(r[i])
  {
    "\\u" + Hex(unit, 4)
  }

  /**
    The encoding of one character. A character beyond U+FFFF is written as
    its UTF-16 surrogate pair; the encoder computes the halves as
    `0xd800 | ((n >> 10) & 0x3ff)` and `0xdc00 | (n & 0x3ff)` with
    `n = c - 0x10000 < 0x100000`, which are the sums below.
  */
  function EscapeChar(c: char): (r: string)
    ensures 1 <= |r| && AllPrintableAscii(r)
    ensures |r| == 1 <==> IsVerbatim(c)
  {
    if IsVerbatim(c) then [c]
    else if c == '"' then "\\\""
    else if c == '\\' then "\\\\"
    else if c == '\n' then "\\n"
    else if c == '\r' then "\\r"
    else if c == '\t' then "\\t"
    else if c as int == 0x08 then "\\b"
    else if c as int == 0x0C then "\\f"
    else if c as int < 0x10000 then UnicodeEscape(c as int)
    else
      var v := c as int - 0x10000;
      UnicodeEscape(0xD800 + v / 0x400) + UnicodeEscape(0xDC00 + v % 0x400)
  }

  /**
    The body of the JSON string for `s`: printable ASCII only, and `s`
    itself when every character of `s` is copied verbatim.
  */
  function Escape(s: string): (r: string)
    ensures AllPrintableAscii(r)
    ensures (forall i :: 0 <= i < |s| ==> IsVerbatim(s[i])) ==> r == s
  {
    if s == [] then [] else EscapeChar(s[0]) + Escape(s[1..])
  }

  /** Strings are encoded character by character. */
  lemma {:induction false} EscapeAppend(a: string, b: string)
    ensures Escape(a + b) == Escape(a) + Escape(b)
  {
    if a == [] {
      assert a + b == b;
    } else {
      var ab := a + b;
      assert ab[0] == a[0] && ab[1..] == a[1..] + b;
      EscapeAppend(a[1..], b);
      calc {
        Escape(ab);
        EscapeChar(a[0]) + Escape(a[1..] + b);
        EscapeChar(a[0]) + (Escape(a[1..]) + Escape(b));
        (EscapeChar(a[0]) + Escape(a[1..])) + Escape(b);
      }
    }
  }

  /** `json.dumps(s)` for a `str`. */
  function DumpString(s: string): (r: string)
    ensures |r| >= 2 && r[0] == '"' && r[|r| - 1] == '"'
    ensures AllPrintableAscii(r)
  {
    "\"" + Escape(s) + "\""
  }

  /** `json.dumps({key: value})` for a `str` key and a `str` value. */
  function DumpPair(key: string, value: string): (r: string)
    ensures |r| >= 2 && r[0] == '{' && r[|r| - 1] == '}'
    ensures AllPrintableAscii(r)
  {
    "{" + DumpString(key) + ": " + DumpString(value) + "}"
  }

  /** A surrogate code unit, which cannot stand for a character by itself. */
  predicate IsSurrogate(n: int) {
    0xD800 <= n < 0xE000
  }

  /** Decodes a `\uXXXX` escape or a surrogate pair of them starting at `s[0]`. */
  function DecodeUnicodeEscape(s: string): (r: Option<(char, nat)>)
    requires |s| >= 2 && s[0] == '\\' && s[1] == 'u'
    ensures r.Some? ==> 1 <= r.value.1 <= |s|
  {
    assert Pow16(4) == 0x10000;
    if |s| < 6 then None
    else match ParseHex(s[2..6])
      case None => None
      case Some(high) =>
        if 0xD800 <= high < 0xDC00 then
          if |s| < 12 || s[6] != '\\' || s[7] != 'u' then None
          else match ParseHex(s[8..12])
            case Some(low) =>
              if 0xDC00 <= low < 0xE000 then
                Some(((0x10000 + (high - 0xD800) * 0x400 + (low - 0xDC00)) as char, 12))
              else None
            case None => None
        else if IsSurrogate(high) then None
        else Some((high as char, 6))
  }

  /** Decodes the one character whose encoding starts at `s[0]`; the length used comes with it. */
  function DecodeOne(s: string): (r: Option<(char, nat)>)
    requires s != []
    ensures r.Some? ==> 1 <= r.value.1 <= |s|
  {
    if s[0] == '"' || s[0] < ' ' then None
    else if s[0] != '\\' then Some((s[0], 1))
    else if |s| < 2 then None
    else match s[1]
      case '"' => Some(('"', 2))
      case '\\' => Some(('\\', 2))
      case '/' => Some(('/', 2))
      case 'b' => Some((0x08 as char, 2))
      case 'f' => Some((0x0C as char, 2))
      case 'n' => Some(('\n', 2))
      case 'r' => Some(('\r', 2))
      case 't' => Some(('\t', 2))
      case 'u' => DecodeUnicodeEscape(s)
      case _ => None
  }

  /** Decodes the body of a JSON string; `None` for a malformed one. */
  function Unescape(s: string): Option<string>
    decreases |s|
  {
    if s == [] then Some([])
    else match DecodeOne(s)
      case None => None
      case Some((c, used)) =>
        match Unescape(s[used..])
        case None => None
        case Some(tail) => Some([c] + tail)
  }

  /** A `\uXXXX` escape of a code unit that is not a surrogate decodes to that character. */
  lemma DecodeSingleEscape(c: char, rest: string)
    requires c as int < 0x10000
    ensures DecodeOne(UnicodeEscape(c as int) + rest) == Some((c, 6))
  {
    var s := UnicodeEscape(c as int) + rest;
    ParseHexOfHex(c as int, 4);
    assert s[2..6] == Hex(c as int, 4);
  }

  /** The surrogate pair of a character beyond U+FFFF decodes to that character. */
  lemma DecodeSurrogatePair(c: char, rest: string)
    requires c as int >= 0x10000
    ensures var v := c as int - 0x10000;
      DecodeOne(UnicodeEscape(0xD800 + v / 0x400) + UnicodeEscape(0xDC00 + v % 0x400) + rest)
      == Some((c, 12))
  {
    var v := c as int - 0x10000;
    var high, low := 0xD800 + v / 0x400, 0xDC00 + v % 0x400;
    var s := UnicodeEscape(high) + UnicodeEscape(low) + rest;
    ParseHexOfHex(high, 4);
    ParseHexOfHex(low, 4);
    assert s[2..6] == Hex(high, 4);
    assert s[6] == '\\' && s[7] == 'u';
    assert s[8..12] == Hex(low, 4);
    assert 0x10000 + (high - 0xD800) * 0x400 + (low - 0xDC00) == c as int;
  }

  /** The decoder reads the encoding of `c` back as `c`, whatever follows it. */
  lemma DecodeEscapeChar(c: char, rest: string)
    ensures DecodeOne(EscapeChar(c) + rest) == Some((c, |EscapeChar(c)|))
  {
    if !IsVerbatim(c) && c != '"' && c != '\\' && c != '\n' && c != '\r' && c != '\t'
       && c as int != 0x08 && c as int != 0x0C {
      if c as int < 0x10000 {
        DecodeSingleEscape(c, rest);
      } else {
        DecodeSurrogatePair(c, rest);
        var v := c as int - 0x10000;
        assert EscapeChar(c) + rest
          == UnicodeEscape(0xD800 + v / 0x400) + UnicodeEscape(0xDC00 + v % 0x400) + rest;
      }
    }
  }

  /** Decoding the encoding of any string gives the string back. */
  lemma {:induction false} UnescapeEscape(s: string)
    ensures Unescape(Escape(s)) == Some(s)
  {
    if s != [] {
      var e := Escape(s);
      DecodeEscapeChar(s[0], Escape(s[1..]));
      assert e[|EscapeChar(s[0])|..] == Escape(s[1..]);
      UnescapeEscape(s[1..]);
      assert s == [s[0]] + s[1..];
    }
  }

  /** Different strings have different JSON encodings. */
  lemma DumpStringInjective(s: string, t: string)
    requires DumpString(s) == DumpString(t)
    ensures s == t
  {
    var a, b := DumpString(s), DumpString(t);
    assert a[1..|a| - 1] == Escape(s);
    assert b[1..|b| - 1] == Escape(t);
    UnescapeEscape(s);
    UnescapeEscape(t);
  }
}
