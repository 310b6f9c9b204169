/** String literals of test/util/cJSON.c: printing, parsing and \u escapes.

    A `char` below 256 stands for an unsigned char; a C string is a `string`
    without NUL, and a parse buffer is the string followed by its NUL. */
module JsonStrings {
  import opened Common

  const NUL: char := '\0'

  /** `text` stands in `s` at position `i`. */
  predicate At(s: string, i: nat, text: string) {
    i + |text| <= |s| && s[i..i + |text|] == text
  }

  lemma AtConcat(s: string, i: nat, a: string, b: string)
    ensures At(s, i, a + b) <==> At(s, i, a) && At(s, i + |a|, b)
  {
    if At(s, i, a) && At(s, i + |a|, b) {
      assert s[i..i + |a + b|] == s[i..i + |a|] + s[i + |a|..i + |a| + |b|];
    }
    if At(s, i, a + b) {
      assert s[i..i + |a|] == (a + b)[..|a|];
      assert s[i + |a|..i + |a| + |b|] == (a + b)[|a|..];
    }
  }

  lemma AtChar(s: string, i: nat, text: string, k: nat)
    requires At(s, i, text) && k < |text|
    ensures i + k < |s| && s[i + k] == text[k]
  {
    assert s[i..i + |text|][k] == text[k];
  }

  // ---------- printing ----------

  function HexDigit(d: nat): (c: char)
    requires d < 16
  {
    if d < 10 then '0' + d as char else 'a' + (d - 10) as char
  }

  /** What print_string_ptr writes for one character. */
  function EscapeChar(c: char): string {
    if c == '\"' then "\\\""
    else if c == '\\' then "\\\\"
    else if c as int == 8 then "\\b"
    else if c as int == 12 then "\\f"
    else if c as int == 10 then "\\n"
    else if c as int == 13 then "\\r"
    else if c as int == 9 then "\\t"
    else if c as int < 32 then "\\u00" + [HexDigit(c as int / 16), HexDigit(c as int % 16)]
    else [c]
  }

  function EscapeBody(t: string): string {
    if t == "" then "" else EscapeChar(t[0]) + EscapeBody(t[1..])
  }

  /** The whole output of print_string_ptr. */
  function PrintString(t: string): string { "\"" + EscapeBody(t) + "\"" }

  // ---------- \u escapes ----------

  function HexValue(c: char): int {
    if '0' <= c <= '9' then c as int - '0' as int
    else if 'A' <= c <= 'F' then 10 + c as int - 'A' as int
    else if 'a' <= c <= 'f' then 10 + c as int - 'a' as int
    else -1
  }

  /** parse_hex4: 0 as soon as one of the four characters is not a hex digit */
  function ParseHex4(s: string, i: nat): (h: nat)
    requires i + 4 <= |s|
    ensures h < 0x10000
  {
    var a, b, c, d := HexValue(s[i]), HexValue(s[i + 1]), HexValue(s[i + 2]), HexValue(s[i + 3]);
    if a < 0 || b < 0 || c < 0 || d < 0 then 0
    else ((a * 16 + b) * 16 + c) * 16 + d
  }

  /** The UTF-8 encoding of a code point (RFC 3629, section 3). */
  function Utf8(cp: nat): string
    requires cp <= 0x10FFFF
  {
    if cp < 0x80 then [cp as char]
    else if cp < 0x800 then [(0xC0 + cp / 0x40) as char, (0x80 + cp % 0x40) as char]
    else if cp < 0x10000 then
      [(0xE0 + cp / 0x1000) as char, (0x80 + cp / 0x40 % 0x40) as char, (0x80 + cp % 0x40) as char]
    else
      [(0xF0 + cp / 0x40000) as char, (0x80 + cp / 0x1000 % 0x40) as char,
       (0x80 + cp / 0x40 % 0x40) as char, (0x80 + cp % 0x40) as char]
  }

  predicate Continuation(c: char) { 0x80 <= c as int < 0xC0 }

  /** Decoding by the table of RFC 3629, section 3: the code point and the
      number of bytes, or None for a sequence the table does not allow. */
  function DecodeUtf8(s: string): Option<(nat, nat)> {
    if |s| == 0 then None
    else
      var b := s[0] as int;
      if b < 0x80 then Some((b, 1))
      else if 0xC0 <= b < 0xE0 && |s| >= 2 && Continuation(s[1]) then
        var cp := (b - 0xC0) * 0x40 + (s[1] as int - 0x80);
        if cp < 0x80 then None else Some((cp, 2))
      else if 0xE0 <= b < 0xF0 && |s| >= 3 && Continuation(s[1]) && Continuation(s[2]) then
        var cp := ((b - 0xE0) * 0x40 + (s[1] as int - 0x80)) * 0x40 + (s[2] as int - 0x80);
        if cp < 0x800 || 0xD800 <= cp < 0xE000 then None else Some((cp, 3))
      else if 0xF0 <= b < 0xF8 && |s| >= 4
              && Continuation(s[1]) && Continuation(s[2]) && Continuation(s[3]) then
        var cp := (((b - 0xF0) * 0x40 + (s[1] as int - 0x80)) * 0x40 + (s[2] as int - 0x80)) * 0x40
                  + (s[3] as int - 0x80);
        if cp < 0x10000 || cp > 0x10FFFF then None else Some((cp, 4))
      else None
  }

  /** The base-64 digits that the continuation bytes carry. */
  lemma Sextets(cp: nat)
    requires cp <= 0x10FFFF
    ensures cp == (cp / 0x40) * 0x40 + cp % 0x40
    ensures cp / 0x40 == cp / 0x1000 * 0x40 + cp / 0x40 % 0x40
    ensures cp / 0x1000 == cp / 0x40000 * 0x40 + cp / 0x1000 % 0x40
    ensures cp / 0x40000 <= 4
  {
  }

  /** The bytes of the encoding decode to the code point they came from. */
  lemma Utf8RoundTrip(cp: nat, rest: string)
    requires cp <= 0x10FFFF && !(0xD800 <= cp < 0xE000)
    ensures DecodeUtf8(Utf8(cp) + rest) == Some((cp, |Utf8(cp)|))
    ensures 1 <= |Utf8(cp)| <= 4 && forall k :: 0 <= k < |Utf8(cp)| ==> Utf8(cp)[k] as int < 256
  {
    Sextets(cp);
    var u, s := Utf8(cp), Utf8(cp) + rest;
    assert s[0] == u[0];
    if cp >= 0x10000 {
      assert s[1] == u[1] && s[2] == u[2] && s[3] == u[3];
    } else if cp >= 0x800 {
      assert s[1] == u[1] && s[2] == u[2];
    } else if cp >= 0x80 {
      assert s[1] == u[1];
    }
  }

  /** utf16_literal_to_utf8: the bytes written and the characters consumed for
      the literal at `i`, None if it fails.  `x % 0x400` is the code's
      `x & 0x3FF`; or-ing it below a value shifted left by 10 is adding. */
  function Utf16Literal(s: string, i: nat, end: nat): Option<(string, nat)>
    requires i <= end <= |s|
  {
    if end - i < 6 then None
    else
      var first := ParseHex4(s, i + 2);
      if 0xDC00 <= first <= 0xDFFF then None
      else if 0xD800 <= first <= 0xDBFF then
        if end - (i + 6) < 6 then None
        else if s[i + 6] != '\\' || s[i + 7] != 'u' then None
        else
          var second := ParseHex4(s, i + 8);
          if second < 0xDC00 || second > 0xDFFF then None
          else Some((Utf8(0x10000 + (first % 0x400 * 0x400 + second % 0x400)), 12))
      else Some((Utf8(first), 6))
  }

  /** UTF-16 (section 2.2 of RFC 2781): the code point that a literal with code
      units `first` and, after a high surrogate, `second` stands for. */
  function CodePointOf(first: nat, second: Option<nat>): Option<nat> {
    if first < 0xD800 || first > 0xDFFF then Some(first)
    else if first > 0xDBFF || second.None? || second.value < 0xDC00 || second.value > 0xDFFF then None
    else Some((first - 0xD800) * 0x400 + (second.value - 0xDC00) + 0x10000)
  }

  /** The second code unit of a literal, if another \u escape follows. */
  function SecondUnit(s: string, i: nat, end: nat): Option<nat>
    requires i <= end <= |s|
  {
    if end - i >= 12 && s[i + 6] == '\\' && s[i + 7] == 'u' then Some(ParseHex4(s, i + 8)) else None
  }

  /** A \u escape, or a surrogate pair of two, becomes the UTF-8 encoding of
      the code point it stands for; everything else is rejected. */
  lemma LiteralSpec(s: string, i: nat, end: nat)
    requires i + 6 <= end <= |s|
    ensures var first := ParseHex4(s, i + 2);
            var cp := CodePointOf(first, SecondUnit(s, i, end));
            Utf16Literal(s, i, end) ==
              if cp.None? then None
              else Some((Utf8(cp.value), if 0xD800 <= first <= 0xDBFF then 12 else 6))
  {
    hide Utf8;
    var first := ParseHex4(s, i + 2);
    if 0xD800 <= first <= 0xDBFF {
      Low10(first);
      if end - i >= 12 {
        var second := ParseHex4(s, i + 8);
        hide ParseHex4;
        if 0xDC00 <= second <= 0xDFFF { Low10(second); }
      }
    }
  }

  lemma Low10(unit: nat)
    requires 0xD800 <= unit <= 0xDFFF
    ensures unit % 0x400 == if unit < 0xDC00 then unit - 0xD800 else unit - 0xDC00
  {
  }

  /** The code point can be decoded again from what the literal became. */
  lemma LiteralDecodesBack(s: string, i: nat, end: nat, rest: string)
    requires i + 6 <= end <= |s| && Utf16Literal(s, i, end).Some?
    ensures var u := Utf16Literal(s, i, end).value.0;
            var cp := CodePointOf(ParseHex4(s, i + 2), SecondUnit(s, i, end));
            cp.Some? && DecodeUtf8(u + rest) == Some((cp.value, |u|))
  {
    LiteralSpec(s, i, end);
    hide Utf16Literal, DecodeUtf8, Utf8, ParseHex4;
    var cp := CodePointOf(ParseHex4(s, i + 2), SecondUnit(s, i, end));
    Utf8RoundTrip(cp.value, rest);
  }

  // ---------- parsing ----------

  /** The first loop of parse_string: the index of the closing quote. */
  function ScanString(s: string, i: nat): (e: Option<nat>)
    requires i <= |s|
    ensures e.Some? ==> i <= e.value < |s| && s[e.value] == '\"'
    decreases |s| - i
  {
    if i >= |s| then None
    else if s[i] == '\"' then Some(i)
    else if s[i] == '\\' then
      if i + 1 >= |s| then None else ScanString(s, i + 2)
    else ScanString(s, i + 1)
  }

  /** The one-character escapes of parse_string. */
  function Unescape(c: char): Option<char> {
    if c == 'b' then Some(8 as char)
    else if c == 'f' then Some(12 as char)
    else if c == 'n' then Some(10 as char)
    else if c == 'r' then Some(13 as char)
    else if c == 't' then Some(9 as char)
    else if c == '\"' || c == '\\' || c == '/' then Some(c)
    else None
  }

  /** The second loop of parse_string, from `i` up to the closing quote. */
  function DecodeString(s: string, i: nat, end: nat): Option<string>
    requires end < |s|
    decreases end - i
  {
    if i >= end then Some("")
    else if s[i] != '\\' then
      var rest := DecodeString(s, i + 1, end);
      if rest.None? then None else Some([s[i]] + rest.value)
    else if s[i + 1] == 'u' then
      var u := Utf16Literal(s, i, end);
      if u.None? then None
      else
        var rest := DecodeString(s, i + u.value.1, end);
        if rest.None? then None else Some(u.value.0 + rest.value)
    else
      var c := Unescape(s[i + 1]);
      if c.None? then None
      else
        var rest := DecodeString(s, i + 2, end);
        if rest.None? then None else Some([c.value] + rest.value)
  }

  datatype Parsed<T> = Fail | Ok(value: T, next: nat)

  /** parse_string at offset `i` */
  function ParseString(s: string, i: nat): (r: Parsed<string>)
    requires i < |s|
    ensures r.Ok? ==> i < r.next <= |s|
  {
    if s[i] != '\"' then Fail
    else
      var end := ScanString(s, i + 1);
      if end.None? then Fail
      else
        var t := DecodeString(s, i + 1, end.value);
        if t.None? then Fail else Ok(t.value, end.value + 1)
  }

  // ---------- round trip ----------

  /** Each escape is one plain character, or a backslash and a character that
      the scanner skips, followed by plain characters only. */
  lemma EscapeShape(c: char)
    ensures var e := EscapeChar(c);
            && 1 <= |e| && (|e| == 1 ==> e[0] == c && c != '\"' && c != '\\')
            && (|e| > 1 ==> e[0] == '\\')
            && forall k :: 2 <= k < |e| ==> e[k] != '\"' && e[k] != '\\'
  {
  }

  lemma {:induction false} ScanPlain(s: string, i: nat, n: nat)
    requires i + n <= |s|
    requires forall k :: i <= k < i + n ==> s[k] != '\"' && s[k] != '\\'
    ensures ScanString(s, i) == ScanString(s, i + n)
    decreases n
  {
    if n > 0 { ScanPlain(s, i + 1, n - 1); }
  }

  lemma {:induction false} ScanPrinted(s: string, i: nat, t: string)
    requires At(s, i, EscapeBody(t) + "\"")
    ensures ScanString(s, i) == Some(i + |EscapeBody(t)|)
    decreases |t|
  {
    AtConcat(s, i, EscapeBody(t), "\"");
    if t == "" {
      AtChar(s, i, "\"", 0);
    } else {
      var e := EscapeChar(t[0]);
      hide EscapeChar, At, ScanString;
      assert EscapeBody(t) + "\"" == e + (EscapeBody(t[1..]) + "\"");
      AtConcat(s, i, e, EscapeBody(t[1..]) + "\"");
      ScanOne(s, i, t[0]);
      ScanPrinted(s, i + |e|, t[1..]);
    }
  }

  lemma ScanOne(s: string, i: nat, c: char)
    requires At(s, i, EscapeChar(c))
    ensures i + |EscapeChar(c)| <= |s| && ScanString(s, i) == ScanString(s, i + |EscapeChar(c)|)
  {
    var e := EscapeChar(c);
    EscapeShape(c);
    assert i + |e| <= |s|;
    hide EscapeChar, At;
    forall k | 0 <= k < |e| ensures s[i + k] == e[k] { AtChar(s, i, e, k); }
    assert s[i] == e[0];
    if |e| > 1 {
      assert forall k :: i + 2 <= k < i + |e| ==> s[k] == e[k - i];
      ScanPlain(s, i + 2, |e| - 2);
    }
  }

  /** One printed character decodes to itself, wherever the string goes on. */
  lemma DecodeOne(s: string, i: nat, c: char, end: nat)
    requires At(s, i, EscapeChar(c)) && i + |EscapeChar(c)| <= end < |s|
    ensures var rest := DecodeString(s, i + |EscapeChar(c)|, end);
            DecodeString(s, i, end) == if rest.None? then None else Some([c] + rest.value)
  {
    var e := EscapeChar(c);
    EscapeShape(c);
    forall k | 0 <= k < |e| ensures s[i + k] == e[k] { AtChar(s, i, e, k); }
    assert s[i] == e[0];
    if |e| > 1 {
      assert s[i + 1] == e[1];
      if e[1] == 'u' {
        assert s[i + 2] == e[2] && s[i + 3] == e[3] && s[i + 4] == e[4] && s[i + 5] == e[5];
        HexPair(c as int);
        assert ParseHex4(s, i + 2) == c as int;
        assert Utf8(c as int) == [c];
      }
    }
  }

  lemma HexPair(n: nat)
    requires n < 32
    ensures HexValue('0') == 0
    ensures HexValue(HexDigit(n / 16)) == n / 16 && HexValue(HexDigit(n % 16)) == n % 16
  {
  }

  lemma {:induction false} DecodePrinted(s: string, i: nat, t: string, end: nat)
    requires At(s, i, EscapeBody(t)) && end == i + |EscapeBody(t)| < |s|
    ensures DecodeString(s, i, end) == Some(t)
    decreases |t|
  {
    hide At, EscapeChar, Utf16Literal, Unescape;
    if t != "" {
      AtConcat(s, i, EscapeChar(t[0]), EscapeBody(t[1..]));
      DecodeOne(s, i, t[0], end);
      DecodePrinted(s, i + |EscapeChar(t[0])|, t[1..], end);
      assert t == [t[0]] + t[1..];
    }
  }

  /** parse_string undoes print_string_ptr, wherever the literal stands. */
  lemma ParsePrintedString(s: string, i: nat, t: string)
    requires At(s, i, PrintString(t))
    ensures i < |s| && ParseString(s, i) == Ok(t, i + |PrintString(t)|)
  {
    hide EscapeBody, DecodeString, ScanString;
    assert PrintString(t) == "\"" + (EscapeBody(t) + "\"");
    AtConcat(s, i, "\"", EscapeBody(t) + "\"");
    AtChar(s, i, "\"", 0);
    AtConcat(s, i + 1, EscapeBody(t), "\"");
    ScanPrinted(s, i + 1, t);
    DecodePrinted(s, i + 1, t, i + 1 + |EscapeBody(t)|);
  }

  /** The length that print_string_ptr computes before it writes. */
  function ExtraLength(c: char): nat {
    if c == '\"' || c == '\\' || c as int in {8, 9, 10, 12, 13} then 1
    else if c as int < 32 then 5
    else 0
  }

  function EscapeCount(t: string): nat {
    if t == "" then 0 else ExtraLength(t[0]) + EscapeCount(t[1..])
  }

  lemma {:induction false} PrintedLength(t: string)
    ensures |EscapeBody(t)| == |t| + EscapeCount(t)
    ensures EscapeCount(t) == 0 ==> EscapeBody(t) == t
  {
    if t != "" {
      PrintedLength(t[1..]);
      assert t == [t[0]] + t[1..];
    }
  }

  lemma {:induction false} EscapeBodyConcat(a: string, b: string)
    ensures EscapeBody(a + b) == EscapeBody(a) + EscapeBody(b)
  {
    if a == "" {
      assert a + b == b;
    } else {
      assert (a + b)[1..] == a[1..] + b;
      EscapeBodyConcat(a[1..], b);
    }
  }

  predicate NulFree(t: string) { forall k :: 0 <= k < |t| ==> t[k] != NUL }

  /** The printed literal is itself a C string. */
  lemma {:induction false} EscapeBodyNulFree(t: string)
    requires NulFree(t)
    ensures NulFree(EscapeBody(t))
  {
    if t != "" {
      assert NulFree(t[1..]);
      EscapeBodyNulFree(t[1..]);
      assert NulFree(EscapeChar(t[0]));
    }
  }
}
