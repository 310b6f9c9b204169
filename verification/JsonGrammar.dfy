/** JSON texts by the grammar of RFC 8259, with a value for each of them, and
    what the parser of test/util/cJSON.c makes of them.

    A text is given by a tree that says everything about it: white space, how
    each character of a string is written, and the parts of a number.  Two things
    the grammar does not have can be said too: comments, for cJSON_Minify, and a
    comma behind the last element. */
module JsonGrammar {
  import opened Common
  import opened JsonStrings
  import opened JsonValues
  import opened JsonRoundTrip
  import opened JsonMinify
  import opened JsonMinified

  // ---------- the grammar ----------

  /** White space (section 2), or a comment. */
  datatype Filler = Space(c: char) | LineComment(body: string) | BlockComment(body: string)

  /** One character of a string (section 7), as it is, or escaped; `upper` says
      which of the four hexadecimal digits are upper case. */
  datatype Piece =
    | Bare(c: char)
    | Short(c: char)
    | Unit(code: nat, upper: seq<bool>)
    | Pair(code: nat, upper: seq<bool>, upper': seq<bool>)

  /** A number (section 6). */
  datatype Numeral = Numeral(minus: bool, whole: string, fraction: Option<string>, exponent: Option<Exponent>)
  datatype Exponent = Exponent(letter: char, sign: string, digits: string)

  /** A value (section 3); `comma` is the filler behind a comma too many. */
  datatype Tree =
    | TNull | TFalse | TTrue
    | TNumber(n: Numeral)
    | TString(pieces: seq<Piece>)
    | TArray(inside: seq<Filler>, elems: seq<Elem>, comma: Option<seq<Filler>>)
    | TObject(inside: seq<Filler>, fields: seq<Field>, comma: Option<seq<Filler>>)

  datatype Elem = Elem(before: seq<Filler>, value: Tree, after: seq<Filler>)
  datatype Field = Field(before: seq<Filler>, name: seq<Piece>, after: seq<Filler>, elem: Elem)

  // ---------- what is well formed ----------

  predicate Rfc(c: char) { c == ' ' || c == '\t' || c == '\n' || c == '\r' }

  predicate FillerOk(f: Filler) {
    match f
    case Space(c) => Rfc(c)
    case LineComment(body) => forall k :: 0 <= k < |body| ==> body[k] != '\n' && body[k] != NUL
    case BlockComment(body) => NulFree(body) && EndsOnce(body)
  }

  /** The comment is not closed earlier, reading from the first star on. */
  predicate EndsOnce(body: string) {
    var t := "*" + body + "*";
    forall k :: 0 <= k < |t| - 1 ==> !(t[k] == '*' && t[k + 1] == '/')
  }

  predicate GapOk(g: seq<Filler>) { forall k :: 0 <= k < |g| ==> FillerOk(g[k]) }

  predicate PieceOk(p: Piece) {
    match p
    case Bare(c) => c >= ' ' && c != '\"' && c != '\\'
    case Short(c) => c in "\"\\/bfnrt"
    case Unit(code, upper) => code < 0x10000 && !(0xD800 <= code <= 0xDFFF) && |upper| == 4
    case Pair(code, upper, upper') => 0x10000 <= code <= 0x10FFFF && |upper| == 4 && |upper'| == 4
  }

  predicate PiecesOk(ps: seq<Piece>) { forall k :: 0 <= k < |ps| ==> PieceOk(ps[k]) }

  predicate AllDigits(t: string) { t != "" && forall k :: 0 <= k < |t| ==> '0' <= t[k] <= '9' }

  predicate NumeralOk(n: Numeral) {
    && AllDigits(n.whole) && (n.whole[0] == '0' ==> |n.whole| == 1)
    && (n.fraction.Some? ==> AllDigits(n.fraction.value))
    && (n.exponent.Some? ==>
          var e := n.exponent.value;
          && (e.letter == 'e' || e.letter == 'E') && (e.sign == "" || e.sign == "+" || e.sign == "-")
          && AllDigits(e.digits))
  }

  predicate TreeOk(t: Tree)
    decreases t, 1
  {
    match t
    case TNull => true
    case TFalse => true
    case TTrue => true
    case TNumber(n) => NumeralOk(n)
    case TString(ps) => PiecesOk(ps)
    case TArray(inside, elems, comma) =>
      GapOk(inside) && ElemsOk(elems) && (comma.Some? ==> elems != [] && GapOk(comma.value))
    case TObject(inside, fields, comma) =>
      GapOk(inside) && FieldsOk(fields) && (comma.Some? ==> fields != [] && GapOk(comma.value))
  }

  predicate ElemOk(e: Elem)
    decreases e, 0
  {
    GapOk(e.before) && TreeOk(e.value) && GapOk(e.after)
  }

  predicate ElemsOk(elems: seq<Elem>)
    decreases elems, 0
  {
    elems == [] || (ElemOk(elems[0]) && ElemsOk(elems[1..]))
  }

  predicate FieldOk(f: Field)
    decreases f, 0
  {
    GapOk(f.before) && PiecesOk(f.name) && GapOk(f.after) && ElemOk(f.elem)
  }

  predicate FieldsOk(fields: seq<Field>)
    decreases fields, 0
  {
    fields == [] || (FieldOk(fields[0]) && FieldsOk(fields[1..]))
  }

  // ---------- the text ----------

  function FillerText(f: Filler): string {
    match f
    case Space(c) => [c]
    case LineComment(body) => "//" + body + "\n"
    case BlockComment(body) => "/*" + body + "*/"
  }

  /** The fillers, or nothing. */
  function GapText(g: seq<Filler>, gaps: bool): string {
    if g == [] || !gaps then "" else FillerText(g[0]) + GapText(g[1..], gaps)
  }

  function Hex(d: nat, upper: bool): char
    requires d < 16
  {
    if d < 10 then '0' + d as char else if upper then 'A' + (d - 10) as char else 'a' + (d - 10) as char
  }

  function FourHex(h: nat, upper: seq<bool>): (t: string)
    requires h < 0x10000 && |upper| == 4
    ensures |t| == 4
  {
    [Hex(h / 0x1000, upper[0]), Hex(h / 0x100 % 16, upper[1]), Hex(h / 0x10 % 16, upper[2]), Hex(h % 16, upper[3])]
  }

  function PieceText(p: Piece): string
    requires PieceOk(p)
  {
    match p
    case Bare(c) => [c]
    case Short(c) => "\\" + [c]
    case Unit(code, upper) => "\\u" + FourHex(code, upper)
    case Pair(code, upper, upper') =>
      var x := code - 0x10000;
      "\\u" + FourHex(0xD800 + x / 0x400, upper) + ("\\u" + FourHex(0xDC00 + x % 0x400, upper'))
  }

  function PiecesText(ps: seq<Piece>): string
    requires PiecesOk(ps)
  {
    if ps == [] then "" else PieceText(ps[0]) + PiecesText(ps[1..])
  }

  function StringText(ps: seq<Piece>): string
    requires PiecesOk(ps)
  {
    "\"" + PiecesText(ps) + "\""
  }

  function NumeralText(n: Numeral): string {
    (if n.minus then "-" else "") + n.whole
    + (if n.fraction.Some? then "." + n.fraction.value else "")
    + (if n.exponent.Some? then [n.exponent.value.letter] + n.exponent.value.sign + n.exponent.value.digits else "")
  }

  function Text(t: Tree, gaps: bool): string
    requires TreeOk(t)
    decreases t, 1
  {
    match t
    case TNull => "null"
    case TFalse => "false"
    case TTrue => "true"
    case TNumber(n) => NumeralText(n)
    case TString(ps) => StringText(ps)
    case TArray(inside, elems, comma) =>
      "[" + if elems == [] then GapText(inside, gaps) + "]" else ElemsText(elems, comma, gaps)
    case TObject(inside, fields, comma) =>
      "{" + if fields == [] then GapText(inside, gaps) + "}" else FieldsText(fields, comma, gaps)
  }

  function ElemText(e: Elem, gaps: bool): string
    requires ElemOk(e)
    decreases e, 0
  {
    GapText(e.before, gaps) + (Text(e.value, gaps) + GapText(e.after, gaps))
  }

  /** From the first element to the closing bracket. */
  function ElemsText(elems: seq<Elem>, comma: Option<seq<Filler>>, gaps: bool): string
    requires elems != [] && ElemsOk(elems)
    decreases elems, 0
  {
    var first := ElemText(elems[0], gaps);
    if |elems| > 1 then first + "," + ElemsText(elems[1..], comma, gaps)
    else if comma.None? then first + "]"
    else first + "," + (GapText(comma.value, gaps) + "]")
  }

  function FieldText(f: Field, gaps: bool): string
    requires FieldOk(f)
    decreases f, 0
  {
    GapText(f.before, gaps) + (StringText(f.name) + (GapText(f.after, gaps) + (":" + ElemText(f.elem, gaps))))
  }

  /** From the first member to the closing brace. */
  function FieldsText(fields: seq<Field>, comma: Option<seq<Filler>>, gaps: bool): string
    requires fields != [] && FieldsOk(fields)
    decreases fields, 0
  {
    var first := FieldText(fields[0], gaps);
    if |fields| > 1 then first + "," + FieldsText(fields[1..], comma, gaps)
    else if comma.None? then first + "}"
    else first + "," + (GapText(comma.value, gaps) + "}")
  }

  // ---------- the value ----------

  function ShortValue(c: char): char {
    match c
    case 'b' => 8 as char
    case 'f' => 12 as char
    case 'n' => 10 as char
    case 'r' => 13 as char
    case 't' => 9 as char
    case _ => c
  }

  /** The characters that a string stands for, in UTF-8. */
  function PieceValue(p: Piece): string
    requires PieceOk(p)
  {
    match p
    case Bare(c) => [c]
    case Short(c) => [ShortValue(c)]
    case Unit(code, _) => Utf8(code)
    case Pair(code, _, _) => Utf8(code)
  }

  function PiecesValue(ps: seq<Piece>): string
    requires PiecesOk(ps)
  {
    if ps == [] then "" else PieceValue(ps[0]) + PiecesValue(ps[1..])
  }

  function Value(t: Tree): Json
    requires TreeOk(t)
    decreases t, 1
  {
    match t
    case TNull => Null
    case TFalse => False
    case TTrue => True
    case TNumber(n) => Number(NumeralText(n))
    case TString(ps) => Str(PiecesValue(ps))
    case TArray(_, elems, _) => Array(Values(elems))
    case TObject(_, fields, _) => Object(Members(fields))
  }

  function ElemValue(e: Elem): Json
    requires ElemOk(e)
    decreases e, 0
  {
    Value(e.value)
  }

  function Values(elems: seq<Elem>): seq<Json>
    requires ElemsOk(elems)
    decreases elems, 0
  {
    if elems == [] then [] else [ElemValue(elems[0])] + Values(elems[1..])
  }

  function FieldValue(f: Field): Member
    requires FieldOk(f)
    decreases f, 0
  {
    Member(PiecesValue(f.name), ElemValue(f.elem))
  }

  function Members(fields: seq<Field>): seq<Member>
    requires FieldsOk(fields)
    decreases fields, 0
  {
    if fields == [] then [] else [FieldValue(fields[0])] + Members(fields[1..])
  }

  /** No comma too many, and no number of more than the 63 characters that
      parse_number looks at. */
  predicate Regular(t: Tree)
    decreases t, 1
  {
    match t
    case TNumber(n) => |NumeralText(n)| <= 63
    case TArray(_, elems, comma) => comma.None? && RegularElems(elems)
    case TObject(_, fields, comma) => comma.None? && RegularFields(fields)
    case _ => true
  }

  predicate RegularElems(elems: seq<Elem>)
    decreases elems, 0
  {
    elems == [] || (Regular(elems[0].value) && RegularElems(elems[1..]))
  }

  predicate RegularFields(fields: seq<Field>)
    decreases fields, 0
  {
    fields == [] || (Regular(fields[0].elem.value) && RegularFields(fields[1..]))
  }
}
