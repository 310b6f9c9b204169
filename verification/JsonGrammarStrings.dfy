/** The string literals and numbers of the grammar, read by the parser. */
module JsonGrammarStrings {
  import opened Common
  import opened JsonStrings
  import opened JsonValues
  import opened JsonRoundTrip
  import opened JsonMinify
  import opened JsonMinified
  import opened JsonGrammar

  // ---------- hexadecimal digits ----------

  lemma HexDigitIs(d: nat, upper: bool)
    requires d < 16
    ensures var c := Hex(d, upper);
            HexValue(c) == d && c != '\"' && c != '\\' && c > ' '
  {
  }

  lemma FourDigits(h: nat)
    requires h < 0x10000
    ensures h == ((h / 0x1000 * 16 + h / 0x100 % 16) * 16 + h / 0x10 % 16) * 16 + h % 16
    ensures h / 0x1000 < 16
  {
  }

  /** parse_hex4 on the four digits of a number, each in either case, gives the
      number. */
  lemma ParseHex4Is(s: string, i: nat, h: nat, upper: seq<bool>)
    requires h < 0x10000 && |upper| == 4 && At(s, i, FourHex(h, upper))
    ensures i + 4 <= |s| && ParseHex4(s, i) == h
  {
    var t := FourHex(h, upper);
    FourDigits(h);
    HexDigitIs(h / 0x1000, upper[0]);
    HexDigitIs(h / 0x100 % 16, upper[1]);
    HexDigitIs(h / 0x10 % 16, upper[2]);
    HexDigitIs(h % 16, upper[3]);
    hide Hex, HexValue, At;
    AtChar(s, i, t, 0);
    AtChar(s, i, t, 1);
    AtChar(s, i, t, 2);
    AtChar(s, i, t, 3);
  }

  // ---------- one character of a string ----------

  lemma ScanEscape(s: string, i: nat, h: nat, upper: seq<bool>)
    requires h < 0x10000 && |upper| == 4 && At(s, i, "\\u" + FourHex(h, upper))
    ensures i + 6 <= |s| && ScanString(s, i) == ScanString(s, i + 6)
    ensures s[i] == '\\' && s[i + 1] == 'u' && ParseHex4(s, i + 2) == h
  {
    var t := FourHex(h, upper);
    AtConcat(s, i, "\\u", t);
    AtChar(s, i, "\\u", 0);
    AtChar(s, i, "\\u", 1);
    ParseHex4Is(s, i + 2, h, upper);
    FourPlain(h, upper);
    hide At, FourHex, ParseHex4;
    forall k | i + 2 <= k < i + 6 ensures s[k] != '\"' && s[k] != '\\' { AtChar(s, i + 2, t, k - i - 2); }
    ScanPlain(s, i + 2, 4);
  }

  lemma FourPlain(h: nat, upper: seq<bool>)
    requires h < 0x10000 && |upper| == 4
    ensures var t := FourHex(h, upper); forall k :: 0 <= k < 4 ==> t[k] != '\"' && t[k] != '\\' && t[k] > ' '
  {
    FourDigits(h);
    HexDigitIs(h / 0x1000, upper[0]);
    HexDigitIs(h / 0x100 % 16, upper[1]);
    HexDigitIs(h / 0x10 % 16, upper[2]);
    HexDigitIs(h % 16, upper[3]);
    hide Hex;
  }

  lemma ScanPiece(s: string, i: nat, p: Piece)
    requires PieceOk(p) && At(s, i, PieceText(p))
    ensures i + |PieceText(p)| <= |s| && ScanString(s, i) == ScanString(s, i + |PieceText(p)|)
  {
    hide FourHex;
    match p
    case Bare(c) => AtChar(s, i, [c], 0);
    case Short(c) =>
      AtChar(s, i, "\\" + [c], 0);
    case Unit(code, upper) =>
      ScanEscape(s, i, code, upper);
    case Pair(code, upper, upper') =>
      var x := code - 0x10000;
      var a, b := "\\u" + FourHex(0xD800 + x / 0x400, upper), "\\u" + FourHex(0xDC00 + x % 0x400, upper');
      AtConcat(s, i, a, b);
      ScanEscape(s, i, 0xD800 + x / 0x400, upper);
      ScanEscape(s, i + 6, 0xDC00 + x % 0x400, upper');
  }

  lemma Surrogates(code: nat)
    requires 0x10000 <= code <= 0x10FFFF
    ensures var x := code - 0x10000;
            var hi, lo := 0xD800 + x / 0x400, 0xDC00 + x % 0x400;
            && 0xD800 <= hi <= 0xDBFF && 0xDC00 <= lo <= 0xDFFF
            && 0x10000 + (hi % 0x400 * 0x400 + lo % 0x400) == code
  {
    var x := code - 0x10000;
    Low(x / 0x400, 54);
    Low(x % 0x400, 55);
  }

  lemma Low(x: nat, q: nat)
    requires x < 0x400
    ensures (q * 0x400 + x) % 0x400 == x
  {
  }

  lemma DecodePiece(s: string, i: nat, p: Piece, end: nat)
    requires PieceOk(p) && At(s, i, PieceText(p)) && i + |PieceText(p)| <= end < |s|
    ensures var rest := DecodeString(s, i + |PieceText(p)|, end);
            DecodeString(s, i, end) == if rest.None? then None else Some(PieceValue(p) + rest.value)
  {
    hide Utf8, FourHex, At, ParseHex4;
    match p
    case Bare(c) => AtChar(s, i, [c], 0);
    case Short(c) =>
      AtChar(s, i, "\\" + [c], 0);
      AtChar(s, i, "\\" + [c], 1);
      ShortIs(c);
    case Unit(code, upper) => DecodeUnit(s, i, code, upper, end);
    case Pair(code, upper, upper') => DecodePair(s, i, code, upper, upper', end);
  }

  lemma DecodeUnit(s: string, i: nat, code: nat, upper: seq<bool>, end: nat)
    requires code < 0x10000 && !(0xD800 <= code <= 0xDFFF) && |upper| == 4
    requires At(s, i, "\\u" + FourHex(code, upper)) && i + 6 <= end < |s|
    ensures var rest := DecodeString(s, i + 6, end);
            DecodeString(s, i, end) == if rest.None? then None else Some(Utf8(code) + rest.value)
  {
    hide FourHex, Utf8, ParseHex4, At;
    ScanEscape(s, i, code, upper);
    hide ScanString;
    assert Utf16Literal(s, i, end) == Some((Utf8(code), 6));
  }

  lemma DecodePair(s: string, i: nat, code: nat, upper: seq<bool>, upper': seq<bool>, end: nat)
    requires 0x10000 <= code <= 0x10FFFF && |upper| == 4 && |upper'| == 4
    requires var x := code - 0x10000;
             At(s, i, "\\u" + FourHex(0xD800 + x / 0x400, upper) + ("\\u" + FourHex(0xDC00 + x % 0x400, upper')))
    requires i + 12 <= end < |s|
    ensures var rest := DecodeString(s, i + 12, end);
            DecodeString(s, i, end) == if rest.None? then None else Some(Utf8(code) + rest.value)
  {
    hide FourHex, Utf8, ParseHex4, At, ScanString;
    var x := code - 0x10000;
    var hi, lo := 0xD800 + x / 0x400, 0xDC00 + x % 0x400;
    Surrogates(code);
    AtConcat(s, i, "\\u" + FourHex(hi, upper), "\\u" + FourHex(lo, upper'));
    ScanEscape(s, i, hi, upper);
    ScanEscape(s, i + 6, lo, upper');
    PairLiteral(s, i, end, hi, lo, code);
  }

  lemma PairLiteral(s: string, i: nat, end: nat, hi: nat, lo: nat, code: nat)
    requires i + 12 <= end <= |s| && ParseHex4(s, i + 2) == hi && ParseHex4(s, i + 8) == lo
    requires s[i + 6] == '\\' && s[i + 7] == 'u'
    requires 0xD800 <= hi <= 0xDBFF && 0xDC00 <= lo <= 0xDFFF && code <= 0x10FFFF
    requires 0x10000 + (hi % 0x400 * 0x400 + lo % 0x400) == code
    ensures Utf16Literal(s, i, end) == Some((Utf8(code), 12))
  {
    hide Utf8, ParseHex4;
  }

  lemma ShortIs(c: char)
    requires c in "\"\\/bfnrt"
    ensures c != 'u' && Unescape(c) == Some(ShortValue(c))
  {
  }

  // ---------- strings ----------

  lemma {:induction false} ScanPieces(s: string, i: nat, ps: seq<Piece>)
    requires PiecesOk(ps) && At(s, i, PiecesText(ps) + "\"")
    ensures ScanString(s, i) == Some(i + |PiecesText(ps)|)
    decreases |ps|
  {
    hide At, PieceText, ScanString;
    var text := PiecesText(ps);
    AtConcat(s, i, text, "\"");
    if ps == [] {
      AtChar(s, i, "\"", 0);
      ScanQuote(s, i);
    } else {
      AtConcat(s, i, PieceText(ps[0]), PiecesText(ps[1..]));
      AtConcat(s, i + |PieceText(ps[0])|, PiecesText(ps[1..]), "\"");
      ScanPiece(s, i, ps[0]);
      ScanPieces(s, i + |PieceText(ps[0])|, ps[1..]);
    }
  }

  lemma ScanQuote(s: string, i: nat)
    requires i < |s| && s[i] == '\"'
    ensures ScanString(s, i) == Some(i)
  {
  }

  lemma {:induction false} DecodePieces(s: string, i: nat, ps: seq<Piece>, end: nat)
    requires PiecesOk(ps) && At(s, i, PiecesText(ps)) && i + |PiecesText(ps)| == end < |s|
    ensures DecodeString(s, i, end) == Some(PiecesValue(ps))
    decreases |ps|
  {
    if ps != [] {
      PiecesUnfold(ps);
      hide At, PieceText, PieceValue, DecodeString, PiecesText, PiecesValue, PiecesOk, PieceOk;
      AtConcat(s, i, PieceText(ps[0]), PiecesText(ps[1..]));
      DecodePiece(s, i, ps[0], end);
      DecodePieces(s, i + |PieceText(ps[0])|, ps[1..], end);
    }
  }

  lemma PiecesUnfold(ps: seq<Piece>)
    requires PiecesOk(ps) && ps != []
    ensures PieceOk(ps[0]) && PiecesOk(ps[1..])
    ensures PiecesText(ps) == PieceText(ps[0]) + PiecesText(ps[1..])
    ensures PiecesValue(ps) == PieceValue(ps[0]) + PiecesValue(ps[1..])
  {
    hide PieceText, PieceValue, PieceOk;
  }

  /** The parser reads a string of the grammar as the characters it stands for. */
  lemma StringReads(ps: seq<Piece>)
    requires PiecesOk(ps)
    ensures StringParses(StringText(ps), PiecesValue(ps))
  {
    var out := StringText(ps);
    hide At, PiecesText, PiecesValue, PiecesOk, ParseString;
    assert out[0] == '\"';
    hide StringText;
    forall m: string, j: nat | Terminated(m) && At(m, j, out)
      ensures j < |m| && ParseString(m, j) == Ok(PiecesValue(ps), j + |out|)
    {
      StringRead(m, j, ps);
    }
  }

  lemma StringRead(m: string, j: nat, ps: seq<Piece>)
    requires PiecesOk(ps) && At(m, j, StringText(ps))
    ensures j < |m| && ParseString(m, j) == Ok(PiecesValue(ps), j + |StringText(ps)|)
  {
    hide At, PiecesText, PiecesValue, ScanString, DecodeString, PiecesOk;
    var body := PiecesText(ps);
    assert StringText(ps) == "\"" + (body + "\"");
    AtConcat(m, j, "\"", body + "\"");
    AtConcat(m, j + 1, body, "\"");
    AtChar(m, j, "\"", 0);
    AtChar(m, j + 1 + |body|, "\"", 0);
    ScanPieces(m, j + 1, ps);
    DecodePieces(m, j + 1, ps, j + 1 + |body|);
  }

  // ---------- the strings that are printed ----------

  /** How a printer that wants few characters writes one: as it is where the
      grammar lets it, else with the short escape if there is one, else by its
      number in lower case. */
  function Sparing(c: char): Piece {
    if c >= ' ' && c != '\"' && c != '\\' then Bare(c)
    else if ShortFor(c).Some? then Short(ShortFor(c).value)
    else Unit(c as nat, [false, false, false, false])
  }

  /** The letter of the short escape for a character. */
  function ShortFor(c: char): (r: Option<char>)
    ensures r.Some? ==> PieceOk(Short(r.value)) && ShortValue(r.value) == c
    ensures r.None? ==> forall x: char :: x in "\"\\/bfnrt" ==> ShortValue(x) != c
  {
    if c == '\"' || c == '\\' || c == '/' then Some(c)
    else if c as int == 8 then Some('b')
    else if c as int == 9 then Some('t')
    else if c as int == 10 then Some('n')
    else if c as int == 12 then Some('f')
    else if c as int == 13 then Some('r')
    else None
  }

  function Sparingly(t: string): (ps: seq<Piece>)
    ensures |ps| == |t| && forall k :: 0 <= k < |t| ==> ps[k] == Sparing(t[k])
  {
    seq(|t|, k requires 0 <= k < |t| => Sparing(t[k]))
  }

  /** print_string_ptr writes each character sparingly. */
  lemma PrintedSparingly(t: string)
    ensures PiecesOk(Sparingly(t)) && PrintString(t) == StringText(Sparingly(t))
  {
    SparingOk(t);
    hide EscapeBody, PiecesText, PiecesOk;
    BodySparing(t);
  }

  lemma {:induction false} BodySparing(t: string)
    ensures PiecesOk(Sparingly(t)) && EscapeBody(t) == PiecesText(Sparingly(t))
    decreases |t|
  {
    SparingOk(t);
    if t != "" {
      hide EscapeChar, PieceText, Sparing, PieceOk;
      BodySparing(t[1..]);
      assert Sparingly(t)[1..] == Sparingly(t[1..]);
      PrintedPiece(t[0]);
    }
  }

  lemma SparingOk(t: string)
    ensures PiecesOk(Sparingly(t))
  {
  }

  lemma PrintedPiece(c: char)
    ensures PieceOk(Sparing(c)) && PieceText(Sparing(c)) == EscapeChar(c)
  {
    if c < ' ' && ShortFor(c).None? {
      Controls(c as nat);
    }
  }

  lemma Controls(h: nat)
    requires h < 0x20
    ensures FourHex(h, [false, false, false, false]) == "00" + [HexDigit(h / 16), HexDigit(h % 16)]
  {
    assert h / 0x1000 == 0 && h / 0x100 % 16 == 0 && h / 0x10 % 16 == h / 16;
  }

  // ---------- numbers ----------

  lemma {:induction false} DigitsRun(t: string, i: nat, n: nat)
    requires i + n <= |t| && (forall k :: i <= k < i + n ==> '0' <= t[k] <= '9')
    requires i + n < |t| ==> !('0' <= t[i + n] <= '9')
    ensures Digits(t, i) == n
    decreases n
  {
    if n > 0 { DigitsRun(t, i + 1, n - 1); }
  }

  function Sign(n: Numeral): string { if n.minus then "-" else "" }

  function FractionText(n: Numeral): string { if n.fraction.Some? then "." + n.fraction.value else "" }

  function ExponentText(n: Numeral): string {
    if n.exponent.Some? then [n.exponent.value.letter] + n.exponent.value.sign + n.exponent.value.digits else ""
  }

  lemma NumeralParts(n: Numeral)
    ensures NumeralText(n) == Sign(n) + n.whole + (FractionText(n) + ExponentText(n))
  {
    var a, f, e := Sign(n) + n.whole, FractionText(n), ExponentText(n);
    assert NumeralText(n) == a + f + e;
  }

  /** What follows the whole part, and what follows the fraction. */
  lemma RestHeads(n: Numeral)
    requires NumeralOk(n)
    ensures var rest := FractionText(n) + ExponentText(n);
            && (rest != "" && rest[0] == '.' <==> n.fraction.Some?)
            && (rest != "" ==> !('0' <= rest[0] <= '9'))
    ensures var e := ExponentText(n);
            && (e == "" <==> n.exponent.None?)
            && (e != "" ==> e[0] == 'e' || e[0] == 'E')
  {
    hide AllDigits;
  }

  lemma Positions(a: string, b: string, c: string)
    ensures var t := a + b + c;
            && |t| == |a| + |b| + |c|
            && (forall k :: |a| <= k < |a| + |b| ==> t[k] == b[k - |a|])
            && (c != "" ==> t[|a| + |b|] == c[0])
            && (a != "" ==> t[0] == a[0])
            && (a == "" && b != "" ==> t[0] == b[0])
  {
  }

  lemma DigitsInside(a: string, b: string, c: string)
    requires AllDigits(b) && (c != "" ==> !('0' <= c[0] <= '9'))
    ensures |a| + |b| <= |a + b + c| && Digits(a + b + c, |a|) == |b|
  {
    hide Digits;
    Positions(a, b, c);
    DigitsRun(a + b + c, |a|, |b|);
  }

  /** What strtod sees at the end of the whole part, of the fraction and of the
      exponent. */
  lemma WholePart(n: Numeral)
    requires NumeralOk(n)
    ensures var t, i := NumeralText(n), |Sign(n)|;
            && i + |n.whole| <= |t| && 0 < |n.whole| && '0' <= t[i] <= '9'
            && i == (if t[0] == '-' || t[0] == '+' then 1 else 0) && Digits(t, i) == |n.whole|
            && (t[0] == '-' || '0' <= t[0] <= '9')
  {
    var rest := FractionText(n) + ExponentText(n);
    RestHeads(n);
    NumeralParts(n);
    hide Digits, NumeralText, FractionText, ExponentText;
    Positions(Sign(n), n.whole, rest);
    DigitsInside(Sign(n), n.whole, rest);
  }

  lemma FractionPart(n: Numeral)
    requires NumeralOk(n)
    ensures var t, j := NumeralText(n), |Sign(n)| + |n.whole|;
            && (j < |t| && t[j] == '.' <==> n.fraction.Some?)
            && (n.fraction.Some? ==> Digits(t, j + 1) == |n.fraction.value|)
  {
    RestHeads(n);
    NumeralParts(n);
    hide Digits, NumeralText, ExponentText;
    Positions(Sign(n), n.whole, FractionText(n) + ExponentText(n));
    if n.fraction.Some? {
      var f := n.fraction.value;
      BeforeDigits(Sign(n) + n.whole, ".", f, ExponentText(n));
      hide FractionText, Sign;
      DigitsInside(Sign(n) + n.whole + ".", f, ExponentText(n));
    }
  }

  lemma BeforeDigits(a: string, b: string, c: string, d: string)
    ensures a + ((b + c) + d) == (a + b) + c + d
  {
  }

  lemma ExponentPart(n: Numeral)
    requires NumeralOk(n)
    ensures var t, k := NumeralText(n), |Sign(n)| + |n.whole| + |FractionText(n)|;
            && (k < |t| <==> n.exponent.Some?)
            && (k < |t| ==>
                  var m := if k + 1 < |t| && (t[k + 1] == '-' || t[k + 1] == '+') then k + 2 else k + 1;
                  && (t[k] == 'e' || t[k] == 'E') && m <= |t| && Digits(t, m) == |t| - m > 0)
  {
    ExponentLast(n);
    if n.exponent.Some? {
      var e, front := n.exponent.value, Sign(n) + n.whole + FractionText(n);
      assert NumeralText(n) == front + ([e.letter] + e.sign + e.digits);
      hide NumeralText, Sign, FractionText;
      ExponentSeen(front, e.letter, e.sign, e.digits);
    }
  }

  lemma ExponentLast(n: Numeral)
    ensures NumeralText(n) == (Sign(n) + n.whole + FractionText(n)) + ExponentText(n)
  {
  }

  lemma ExponentSeen(front: string, letter: char, sign: string, digits: string)
    requires (letter == 'e' || letter == 'E') && (sign == "" || sign == "+" || sign == "-") && AllDigits(digits)
    ensures var t, k := front + ([letter] + sign + digits), |front|;
            && k < |t| && t[k] == letter
            && var m := if k + 1 < |t| && (t[k + 1] == '-' || t[k + 1] == '+') then k + 2 else k + 1;
               m <= |t| && Digits(t, m) == |t| - m > 0
  {
    hide Digits;
    var t, a := front + ([letter] + sign + digits), front + [letter] + sign;
    assert t == a + digits + "";
    assert t[|front|] == letter && t[|front| + 1] == (sign + digits)[0];
    assert AllDigits(digits) && '0' <= digits[0] <= '9';
    DigitsInside(a, digits, "");
  }

  /** strtod consumes a number of the grammar whole. */
  lemma NumeralWhole(n: Numeral)
    requires NumeralOk(n)
    ensures StrtodLength(NumeralText(n)) == |NumeralText(n)|
  {
    hide Digits, NumeralText;
    NumeralParts(n);
    WholePart(n);
    FractionPart(n);
    ExponentPart(n);
  }

  lemma NumeralChars(n: Numeral)
    requires NumeralOk(n)
    ensures var t := NumeralText(n);
            t != "" && (t[0] == '-' || '0' <= t[0] <= '9') && forall k :: 0 <= k < |t| ==> NumberChar(t[k])
  {
    WholePart(n);
    NumeralParts(n);
    hide NumeralText;
  }

  lemma NumeralReads(n: Numeral, depth: nat)
    requires NumeralOk(n) && |NumeralText(n)| <= 63
    ensures ValueParses(NumeralText(n), Number(NumeralText(n)), depth)
  {
    hide ValueParses, NumeralText, NumeralOk, StrtodLength, NumberChar;
    NumeralWhole(n);
    NumeralChars(n);
    NumberParses(NumeralText(n), depth);
  }

  // ---------- numbers that are too long ----------

  /** `out`, wherever it stands, does not parse to a value that ends where the
      parser could go on. */
  ghost predicate ValueFails(out: string, depth: nat) {
    forall m: string, j: nat ::
      Terminated(m) && At(m, j, out) && j < j + |out| < |m| && !NumberChar(m[j + |out|]) ==>
        var r := ParseValue(m, j, depth);
        r.Fail? || NumberChar(m[r.next])
  }

  lemma {:induction false} FullText(m: string, j: nat, t: string, room: nat)
    requires At(m, j, t) && room <= |t| && forall k :: 0 <= k < |t| ==> NumberChar(t[k])
    ensures NumberText(m, j, room) == t[..room]
    decreases room
  {
    if room > 0 {
      AtChar(m, j, t, 0);
      assert t == [t[0]] + t[1..];
      AtConcat(m, j, [t[0]], t[1..]);
      FullText(m, j + 1, t[1..], room - 1);
    }
  }

  lemma PrefixReads(n: Numeral, room: nat)
    requires NumeralOk(n) && 2 <= room <= |NumeralText(n)|
    ensures StrtodLength(NumeralText(n)[..room]) > 0
  {
    hide NumeralText, StrtodLength, NumeralOk;
    WholePart(n);
    hide Sign;
    var t := NumeralText(n);
    assert t[..room][0] == t[0];
    StartsDigits(t[..room], |Sign(n)|);
  }

  lemma StartsDigits(t: string, i: nat)
    requires t != "" && i == (if t[0] == '-' || t[0] == '+' then 1 else 0) && i < |t| && '0' <= t[i] <= '9'
    ensures StrtodLength(t) > 0
  {
    assert Digits(t, i) > 0;
  }

  lemma LongFails(n: Numeral, depth: nat)
    requires NumeralOk(n) && |NumeralText(n)| > 63
    ensures ValueFails(NumeralText(n), depth)
  {
    var t := NumeralText(n);
    NumeralChars(n);
    PrefixReads(n, 63);
    hide NumeralText, StrtodLength, NumeralOk, At, ParseValue, NumberChar;
    forall m: string, j: nat | Terminated(m) && At(m, j, t) && j < j + |t| < |m|
      ensures var r := ParseValue(m, j, depth); r.Fail? || NumberChar(m[r.next])
    {
      LongRead(m, j, t, depth);
    }
  }

  lemma LongRead(m: string, j: nat, t: string, depth: nat)
    requires Terminated(m) && At(m, j, t) && |t| > 63 && j + |t| < |m| && (t[0] == '-' || '0' <= t[0] <= '9')
    requires StrtodLength(t[..63]) > 0 && forall k :: 0 <= k < |t| ==> NumberChar(t[k])
    ensures var r := ParseValue(m, j, depth); r.Fail? || NumberChar(m[r.next])
  {
    hide StrtodLength, At, NumberText;
    FullText(m, j, t, 63);
    AtChar(m, j, t, 0);
    NotAt(m, j, "null");
    NotAt(m, j, "false");
    NotAt(m, j, "true");
    var k := StrtodLength(t[..63]);
    AtChar(m, j, t, k);
    assert ParseNumber(m, j) == Ok(Number(t[..63][..k]), j + k);
  }
}
