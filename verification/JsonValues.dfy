/** cJSON items as values, what the two printers write for them and what the
    parser reads (test/util/cJSON.c).

    A number is kept as the text that print_number writes and parse_number
    consumes; its conversion to and from double is outside the model. */
module JsonValues {
  import opened Common
  import opened JsonStrings

  datatype Json =
    | Null | False | True
    | Number(text: string)
    | Str(text: string)
    | Array(items: seq<Json>)
    | Object(members: seq<Member>)

  datatype Member = Member(name: string, value: Json)

  // ---------- printing ----------

  function Tabs(n: nat): (t: string)
    ensures |t| == n && forall k :: 0 <= k < n ==> t[k] == '\t'
  {
    seq(n, _ => '\t')
  }

  /** print_value at nesting depth `d`; `fmt` for the formatted printer */
  function Print(v: Json, fmt: bool, d: nat): string
    decreases v, 1
  {
    match v
    case Null => "null"
    case False => "false"
    case True => "true"
    case Number(t) => t
    case Str(t) => PrintString(t)
    case Array(items) => "[" + PrintItems(items, fmt, d + 1) + "]"
    case Object(members) =>
      "{" + (if fmt then "\n" else "") + PrintMembers(members, fmt, d + 1)
      + (if fmt then Tabs(d) else "") + "}"
  }

  function PrintItems(items: seq<Json>, fmt: bool, d: nat): string
    decreases items, 0
  {
    if items == [] then ""
    else Print(items[0], fmt, d)
         + (if |items| == 1 then "" else if fmt then ", " else ",")
         + PrintItems(items[1..], fmt, d)
  }

  function PrintMember(m: Member, fmt: bool, d: nat, last: bool): string
    decreases m, 0
  {
    (if fmt then Tabs(d) else "") + PrintString(m.name) + (if fmt then ":\t" else ":")
    + Print(m.value, fmt, d)
    + (if last then "" else ",") + (if fmt then "\n" else "")
  }

  function PrintMembers(members: seq<Member>, fmt: bool, d: nat): string
    decreases members, 0
  {
    if members == [] then ""
    else PrintMember(members[0], fmt, d, |members| == 1) + PrintMembers(members[1..], fmt, d)
  }

  // ---------- which items print to JSON ----------

  /** The characters parse_number collects. */
  predicate NumberChar(c: char) {
    '0' <= c <= '9' || c == '+' || c == '-' || c == 'e' || c == 'E' || c == '.'
  }

  function Digits(t: string, i: nat): (n: nat)
    requires i <= |t|
    ensures i + n <= |t|
    decreases |t| - i
  {
    if i < |t| && '0' <= t[i] <= '9' then 1 + Digits(t, i + 1) else 0
  }

  /** How much of `t` strtod consumes, for texts of number characters: a sign,
      digits with a decimal point, and an exponent if it has digits. */
  function StrtodLength(t: string): (n: nat)
    ensures n <= |t|
  {
    var i := if t != "" && (t[0] == '-' || t[0] == '+') then 1 else 0;
    var whole := Digits(t, i);
    var j := i + whole;
    var fraction := if j < |t| && t[j] == '.' then Digits(t, j + 1) else 0;
    if whole + fraction == 0 then 0
    else
      var k := if j < |t| && t[j] == '.' then j + 1 + fraction else j;
      if k < |t| && (t[k] == 'e' || t[k] == 'E') then
        var m := if k + 1 < |t| && (t[k + 1] == '-' || t[k + 1] == '+') then k + 2 else k + 1;
        var exponent := Digits(t, m);
        if exponent == 0 then k else m + exponent
      else k
  }

  predicate NumberToken(t: string) {
    && 0 < |t| <= 25
    && (t[0] == '-' || '0' <= t[0] <= '9')
    && (forall k :: 0 <= k < |t| ==> NumberChar(t[k]))
    && StrtodLength(t) == |t|
  }

  /** Strings are C strings and numbers are what print_number can write. */
  predicate Printable(v: Json) {
    match v
    case Null => true
    case False => true
    case True => true
    case Number(t) => NumberToken(t)
    case Str(t) => NulFree(t)
    case Array(items) => forall k :: 0 <= k < |items| ==> Printable(items[k])
    case Object(members) =>
      forall k :: 0 <= k < |members| ==> NulFree(members[k].name) && Printable(members[k].value)
  }

  /** How deep arrays and objects are nested in an item. */
  function Nesting(v: Json): nat
    decreases v, 1
  {
    match v
    case Array(items) => 1 + NestingOfItems(items)
    case Object(members) => 1 + NestingOfMembers(members)
    case _ => 0
  }

  function NestingOfItems(items: seq<Json>): nat
    decreases items, 0
  {
    if items == [] then 0 else Max(Nesting(items[0]), NestingOfItems(items[1..]))
  }

  function NestingOfMembers(members: seq<Member>): nat
    decreases members, 0
  {
    if members == [] then 0 else Max(Nesting(members[0].value), NestingOfMembers(members[1..]))
  }

  function Max(a: nat, b: nat): nat { if a >= b then a else b }

  // ---------- parsing ----------

  const NESTING_LIMIT: nat := 1000

  /** A parse buffer: the text and its terminating NUL, and no other. */
  predicate Terminated(s: string) {
    s != "" && s[|s| - 1] == NUL && NulFree(s[..|s| - 1])
  }

  /** buffer_skip_whitespace: the NUL counts as white space, and running past
      the end steps back onto it. */
  function Skip(s: string, i: nat): (j: nat)
    requires s != "" && i <= |s|
    ensures j < |s| && (i < |s| ==> i <= j)
    decreases |s| - i
  {
    if i == |s| then |s| - 1
    else if s[i] <= ' ' then Skip(s, i + 1)
    else i
  }

  /** The number characters at `i`, at most 63 of them. */
  function NumberText(s: string, i: nat, room: nat): (t: string)
    requires i <= |s|
    ensures |t| <= room && At(s, i, t)
    ensures forall k :: 0 <= k < |t| ==> NumberChar(t[k])
    decreases room
  {
    if room == 0 || i == |s| || !NumberChar(s[i]) then "" else [s[i]] + NumberText(s, i + 1, room - 1)
  }

  /** Text without a NUL ends before the terminating one. */
  lemma Inside(s: string, i: nat, text: string)
    requires Terminated(s) && At(s, i, text) && NulFree(text) && i < |s|
    ensures i + |text| < |s|
  {
    if i + |text| == |s| && text != "" {
      AtChar(s, i, text, |text| - 1);
    }
  }

  /** parse_value at offset `i`, inside `depth` open arrays and objects */
  function ParseValue(s: string, i: nat, depth: nat): (r: Parsed<Json>)
    requires Terminated(s) && i < |s|
    ensures r.Ok? ==> i < r.next < |s|
    decreases |s| - i, 2
  {
    if At(s, i, "null") then Inside(s, i, "null"); Ok(Null, i + 4)
    else if At(s, i, "false") then Inside(s, i, "false"); Ok(False, i + 5)
    else if At(s, i, "true") then Inside(s, i, "true"); Ok(True, i + 4)
    else if s[i] == '\"' then
      var t := ParseString(s, i);
      if t.Fail? then Fail else Ok(Str(t.value), t.next)
    else if s[i] == '-' || '0' <= s[i] <= '9' then
      ParseNumber(s, i)
    else if s[i] == '[' then ParseArray(s, i, depth)
    else if s[i] == '{' then ParseObject(s, i, depth)
    else Fail
  }

  /** parse_number */
  function ParseNumber(s: string, i: nat): (r: Parsed<Json>)
    requires Terminated(s) && i < |s|
    ensures r.Ok? ==> i < r.next < |s|
  {
    var t := NumberText(s, i, 63);
    var n := StrtodLength(t);
    Inside(s, i, t);
    if n == 0 then Fail else Ok(Number(t[..n]), i + n)
  }

  /** parse_array */
  function ParseArray(s: string, i: nat, depth: nat): (r: Parsed<Json>)
    requires Terminated(s) && i < |s| && s[i] == '['
    ensures r.Ok? ==> i < r.next < |s|
    decreases |s| - i, 1
  {
    if depth >= NESTING_LIMIT then Fail
    else
      var j := Skip(s, i + 1);
      if s[j] == ']' then Ok(Array([]), j + 1)
      else
        var r := ParseItems(s, j, depth + 1);
        if r.Fail? then Fail else Ok(Array(r.value), r.next)
  }

  /** The loop of parse_array, from just behind a bracket or comma on. */
  function ParseItems(s: string, k: nat, depth: nat): (r: Parsed<seq<Json>>)
    requires Terminated(s) && k < |s|
    ensures r.Ok? ==> k < r.next < |s|
    decreases |s| - k, 3
  {
    var v := ParseValue(s, Skip(s, k), depth);
    if v.Fail? then Fail
    else
      var e := Skip(s, v.next);
      if s[e] == ',' then
        var rest := ParseItems(s, e + 1, depth);
        if rest.Fail? then Fail else Ok([v.value] + rest.value, rest.next)
      else if s[e] == ']' then Ok([v.value], e + 1)
      else Fail
  }

  /** parse_object */
  function ParseObject(s: string, i: nat, depth: nat): (r: Parsed<Json>)
    requires Terminated(s) && i < |s| && s[i] == '{'
    ensures r.Ok? ==> i < r.next < |s|
    decreases |s| - i, 1
  {
    if depth >= NESTING_LIMIT then Fail
    else
      var j := Skip(s, i + 1);
      if s[j] == '}' then Ok(Object([]), j + 1)
      else
        var r := ParseMembers(s, j, depth + 1);
        if r.Fail? then Fail else Ok(Object(r.value), r.next)
  }

  /** One member of an object: the name, a colon, the value; `next` is behind
      the value and the white space after it. */
  function ParseMember(s: string, k: nat, depth: nat): (r: Parsed<Member>)
    requires Terminated(s) && k < |s|
    ensures r.Ok? ==> k < r.next < |s|
    decreases |s| - k, 3
  {
    var name := ParseString(s, Skip(s, k));
    if name.Fail? then Fail
    else
      var c := Skip(s, name.next);
      if s[c] != ':' then Fail
      else
        var v := ParseValue(s, Skip(s, c + 1), depth);
        if v.Fail? then Fail else Ok(Member(name.value, v.value), Skip(s, v.next))
  }

  /** The loop of parse_object. */
  function ParseMembers(s: string, k: nat, depth: nat): (r: Parsed<seq<Member>>)
    requires Terminated(s) && k < |s|
    ensures r.Ok? ==> k < r.next < |s|
    decreases |s| - k, 4
  {
    var m := ParseMember(s, k, depth);
    if m.Fail? then Fail
    else if s[m.next] == ',' then
      var rest := ParseMembers(s, m.next + 1, depth);
      if rest.Fail? then Fail else Ok([m.value] + rest.value, rest.next)
    else if s[m.next] == '}' then Ok([m.value], m.next + 1)
    else Fail
  }

  /** The UTF-8 byte order mark. */
  const BOM: string := [0xEF as char, 0xBB as char, 0xBF as char]

  /** skip_utf8_bom */
  function SkipBom(s: string): (i: nat)
    requires s != ""
    ensures i < |s|
  {
    if 4 < |s| && At(s, 0, BOM) then 3 else 0
  }

  /** cJSON_ParseWithOpts on a C string; cJSON_Parse is the case without
      `requireEnd`. */
  function ParseDocument(text: string, requireEnd: bool): Option<Json>
    requires NulFree(text)
  {
    var s := text + [NUL];
    assert s[..|s| - 1] == text;
    var r := ParseValue(s, Skip(s, SkipBom(s)), 0);
    if r.Fail? then None
    else if requireEnd && s[Skip(s, r.next)] != NUL then None
    else Some(r.value)
  }
}
