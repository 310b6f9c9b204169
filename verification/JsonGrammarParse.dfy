/** What the parser makes of the texts of the grammar: the value of each that
    has no comma too many, no number longer than 63 characters and no more than
    1000 levels of nesting, and nothing of all others. */
module JsonGrammarParse {
  import opened Common
  import opened JsonStrings
  import opened JsonValues
  import opened JsonRoundTrip
  import opened JsonMinify
  import opened JsonMinified
  import opened JsonGrammar
  import opened JsonGrammarStrings

  // ---------- texts without comments ----------

  predicate Spaces(g: seq<Filler>) { forall k :: 0 <= k < |g| ==> g[k].Space? }

  predicate NoComments(t: Tree)
    decreases t, 1
  {
    match t
    case TArray(inside, elems, comma) =>
      Spaces(inside) && ElemsPlain(elems) && (comma.Some? ==> Spaces(comma.value))
    case TObject(inside, fields, comma) =>
      Spaces(inside) && FieldsPlain(fields) && (comma.Some? ==> Spaces(comma.value))
    case _ => true
  }

  predicate ElemPlain(e: Elem)
    decreases e, 0
  {
    Spaces(e.before) && NoComments(e.value) && Spaces(e.after)
  }

  predicate ElemsPlain(elems: seq<Elem>)
    decreases elems, 0
  {
    elems == [] || (ElemPlain(elems[0]) && ElemsPlain(elems[1..]))
  }

  predicate FieldPlain(f: Field)
    decreases f, 0
  {
    Spaces(f.before) && Spaces(f.after) && ElemPlain(f.elem)
  }

  predicate FieldsPlain(fields: seq<Field>)
    decreases fields, 0
  {
    fields == [] || (FieldPlain(fields[0]) && FieldsPlain(fields[1..]))
  }

  lemma {:induction false} GapWhite(g: seq<Filler>, gaps: bool)
    requires GapOk(g) && (gaps ==> Spaces(g))
    ensures White(GapText(g, gaps))
    decreases |g|
  {
    if g != [] && gaps {
      assert g[0].Space? && FillerOk(g[0]);
      GapWhite(g[1..], gaps);
    }
  }

  // ---------- how values begin ----------

  predicate Begins(text: string) { Starts(text) && text[0] != ']' && text[0] != '}' }

  // ---------- lists of elements that fail ----------

  ghost predicate ItemsFail(out: string, depth: nat) {
    forall m: string, j: nat :: Terminated(m) && At(m, j, out) && j < j + |out| < |m| ==>
      ParseItems(m, j, depth).Fail?
  }

  /** In another text, where a value stands and what is behind it. */
  lemma ValuePlace(m: string, j: nat, w: string, text: string, w': string, tail: string)
    requires Terminated(m) && At(m, j, w + (text + w') + tail) && White(w) && White(w') && Begins(text)
    requires tail != "" && (tail[0] == ',' || tail[0] == ']' || tail[0] == '}')
    ensures var p := j + |w|;
            && Skip(m, j) == p < p + |text| < |m| && At(m, p, text) && m[p] == text[0] && !NumberChar(m[p + |text|])
  {
    hide At, Skip;
    assert w + (text + w') + tail == w + (text + (w' + tail));
    AtConcat(m, j, w, text + (w' + tail));
    var p := j + |w|;
    AtConcat(m, p, text, w' + tail);
    AtChar(m, p, text, 0);
    AtChar(m, p + |text|, w' + tail, 0);
    SkipWhite(m, j, w);
  }

  lemma FailedItem(w: string, text: string, w': string, tail: string, depth: nat)
    requires White(w) && White(w') && Begins(text) && ValueFails(text, depth)
    requires tail != "" && (tail[0] == ',' || tail[0] == ']')
    ensures ItemsFail(w + (text + w') + tail, depth)
  {
    hide At, ParseValue, White;
    var out := w + (text + w') + tail;
    forall m: string, j: nat | Terminated(m) && At(m, j, out) && j < j + |out| < |m|
      ensures ParseItems(m, j, depth).Fail?
    {
      ValuePlace(m, j, w, text, w', tail);
      StuckItems(m, j, depth);
    }
  }

  /** Behind a value that ends inside a number no list goes on. */
  lemma StuckItems(m: string, j: nat, depth: nat)
    requires Terminated(m) && j < |m|
    requires var r := ParseValue(m, Skip(m, j), depth); r.Fail? || NumberChar(m[r.next])
    ensures ParseItems(m, j, depth).Fail?
  {
    hide ParseValue;
  }

  lemma FailedTail(w: string, text: string, w': string, rest: string, v: Json, depth: nat)
    requires White(w) && White(w') && ValueParses(text, v, depth) && Starts(text)
    requires ItemsFail(rest, depth) && rest != ""
    ensures ItemsFail(w + (text + w') + "," + rest, depth)
  {
    hide ParseValue, ValueParses, White, At, Skip;
    var front := w + (text + w') + ",";
    var out := front + rest;
    Grouped(w, text, w', ",");
    forall m: string, j: nat | Terminated(m) && At(m, j, out) && j < j + |out| < |m|
      ensures ParseItems(m, j, depth).Fail?
    {
      AtConcat(m, j, front, rest);
      ValueBetween(m, j, w, text, w', ',', v, depth);
    }
  }

  /** A closing bracket behind a comma. */
  lemma EarlyBracket(w: string, depth: nat)
    requires White(w)
    ensures ItemsFail(w + "]", depth)
  {
    hide ParseItems, White, At, Skip;
    var out := w + "]";
    forall m: string, j: nat | Terminated(m) && At(m, j, out) && j < j + |out| < |m|
      ensures ParseItems(m, j, depth).Fail?
    {
      AtConcat(m, j, w, "]");
      AtChar(m, j + |w|, "]", 0);
      SkipWhite(m, j, w);
      NotClosed(m, j, depth);
    }
  }

  lemma FailedArray(w: string, text: string, tail: string, depth: nat)
    requires White(w) && Begins(text) && (depth < NESTING_LIMIT ==> ItemsFail(w + (text + tail), depth + 1))
    ensures ValueFails("[" + (w + (text + tail)), depth)
  {
    hide At, ParseItems, ParseValue, White, Skip;
    var inner := w + (text + tail);
    var out := "[" + inner;
    forall m: string, j: nat | Terminated(m) && At(m, j, out) && j < j + |out| < |m|
      ensures ParseValue(m, j, depth).Fail?
    {
      InnerPlace(m, j, "[", w, text, tail);
      OpensBracket(m, j, depth);
      SkipTwice(m, j + 1);
      SameItems(m, j + 1, Skip(m, j + 1), depth + 1);
    }
  }

  lemma InnerPlace(m: string, j: nat, open: string, w: string, text: string, tail: string)
    requires Terminated(m) && At(m, j, open + (w + (text + tail))) && White(w) && Begins(text) && |open| == 1
    ensures j + 1 < |m| && m[j] == open[0] && At(m, j + 1, w + (text + tail)) && m[Skip(m, j + 1)] == text[0]
  {
    hide At, Skip;
    var inner := w + (text + tail);
    AtConcat(m, j, open, inner);
    AtChar(m, j, open, 0);
    AtConcat(m, j + 1, w, text + tail);
    AtConcat(m, j + 1 + |w|, text, tail);
    AtChar(m, j + 1 + |w|, text, 0);
    SkipWhite(m, j + 1, w);
  }

  // ---------- lists of members that fail ----------

  ghost predicate MemberFails(out: string, depth: nat) {
    forall m: string, j: nat ::
      Terminated(m) && At(m, j, out) && j < j + |out| < |m| && (m[j + |out|] == ',' || m[j + |out|] == '}') ==>
        var r := ParseMember(m, j, depth);
        r.Fail? || NumberChar(m[r.next])
  }

  ghost predicate MembersFail(out: string, depth: nat) {
    forall m: string, j: nat :: Terminated(m) && At(m, j, out) && j < j + |out| < |m| ==>
      ParseMembers(m, j, depth).Fail?
  }

  lemma FailedMember(w: string, literal: string, w': string, name: string,
                     before: string, text: string, after: string, depth: nat)
    requires White(w) && White(w') && White(before) && White(after)
    requires StringParses(literal, name) && ValueFails(text, depth) && Begins(text)
    ensures MemberFails(w + (literal + (w' + (":" + (before + (text + after))))), depth)
  {
    var value := before + (text + after);
    var out := w + (literal + (w' + (":" + value)));
    hide White, At, ParseValue, ParseString;
    forall m: string, j: nat |
      Terminated(m) && At(m, j, out) && j < j + |out| < |m| && (m[j + |out|] == ',' || m[j + |out|] == '}')
      ensures var r := ParseMember(m, j, depth); r.Fail? || NumberChar(m[r.next])
    {
      NameAgain(m, j, w, literal, w', value, name);
      var k := j + |w| + |literal| + |w'| + 1;
      FailedValue(m, k, before, text, after, depth);
      StuckMember(m, j, k - 1, depth);
    }
  }

  lemma FailedValue(m: string, k: nat, before: string, text: string, after: string, depth: nat)
    requires Terminated(m) && White(before) && White(after) && ValueFails(text, depth) && Begins(text)
    requires var value := before + (text + after);
             At(m, k, value) && k + |value| < |m| && (m[k + |value|] == ',' || m[k + |value|] == '}')
    ensures var r := ParseValue(m, Skip(m, k), depth); r.Fail? || NumberChar(m[r.next])
  {
    hide White, At, ParseValue;
    var value := before + (text + after);
    WithTail(m, k, value);
    ValuePlace(m, k, before, text, after, [m[k + |value|]]);
  }

  lemma WithTail(m: string, k: nat, value: string)
    requires At(m, k, value) && k + |value| < |m|
    ensures At(m, k, value + [m[k + |value|]])
  {
  }

  lemma StuckMember(m: string, j: nat, c: nat, depth: nat)
    requires Terminated(m) && j < c && c + 1 < |m| && m[c] == ':'
    requires var name := ParseString(m, Skip(m, j)); name.Ok? && Skip(m, name.next) == c
    requires var r := ParseValue(m, Skip(m, c + 1), depth); r.Fail? || NumberChar(m[r.next])
    ensures var r := ParseMember(m, j, depth); r.Fail? || NumberChar(m[r.next])
  {
    hide ParseValue, ParseString;
  }

  lemma FailedFirst(first: string, tail: string, depth: nat)
    requires MemberFails(first, depth) && first != "" && tail != "" && (tail[0] == ',' || tail[0] == '}')
    ensures MembersFail(first + tail, depth)
  {
    hide At, ParseMember;
    var out := first + tail;
    forall m: string, j: nat | Terminated(m) && At(m, j, out) && j < j + |out| < |m|
      ensures ParseMembers(m, j, depth).Fail?
    {
      AtConcat(m, j, first, tail);
      AtChar(m, j + |first|, tail, 0);
    }
  }

  lemma FailedMembers(first: string, rest: string, v: Member, depth: nat)
    requires MemberParses(first, v, depth) && MembersFail(rest, depth) && first != "" && rest != ""
    ensures MembersFail(first + "," + rest, depth)
  {
    hide At, ParseMember;
    var out := first + "," + rest;
    forall m: string, j: nat | Terminated(m) && At(m, j, out) && j < j + |out| < |m|
      ensures ParseMembers(m, j, depth).Fail?
    {
      AtConcat(m, j, first + ",", rest);
      AtConcat(m, j, first, ",");
      AtChar(m, j + |first|, ",", 0);
    }
  }

  /** A closing brace behind a comma. */
  lemma EarlyBrace(w: string, depth: nat)
    requires White(w)
    ensures MembersFail(w + "}", depth)
  {
    hide ParseMembers, White, At, Skip;
    var out := w + "}";
    forall m: string, j: nat | Terminated(m) && At(m, j, out) && j < j + |out| < |m|
      ensures ParseMembers(m, j, depth).Fail?
    {
      AtConcat(m, j, w, "}");
      AtChar(m, j + |w|, "}", 0);
      SkipWhite(m, j, w);
      NotClosed(m, j, depth);
    }
  }

  lemma FailedObject(w: string, text: string, tail: string, depth: nat)
    requires White(w) && Begins(text) && (depth < NESTING_LIMIT ==> MembersFail(w + (text + tail), depth + 1))
    ensures ValueFails("{" + (w + (text + tail)), depth)
  {
    hide At, ParseMembers, ParseValue, White, Skip;
    var inner := w + (text + tail);
    var out := "{" + inner;
    forall m: string, j: nat | Terminated(m) && At(m, j, out) && j < j + |out| < |m|
      ensures ParseValue(m, j, depth).Fail?
    {
      InnerPlace(m, j, "{", w, text, tail);
      OpensBracket(m, j, depth);
      SkipTwice(m, j + 1);
      SameMembers(m, j + 1, Skip(m, j + 1), depth + 1);
    }
  }

  /** Nothing is parsed beyond the limit, not even empty brackets. */
  lemma TooDeepFails(out: string, depth: nat)
    requires out != "" && (out[0] == '[' || out[0] == '{') && depth >= NESTING_LIMIT
    ensures ValueFails(out, depth)
  {
    hide ParseValue, At;
    forall m: string, j: nat | Terminated(m) && At(m, j, out) && j < j + |out| < |m|
      ensures ParseValue(m, j, depth).Fail?
    {
      AtChar(m, j, out, 0);
      OpensBracket(m, j, depth);
      TooDeep(m, j, depth);
    }
  }

  // ---------- trees ----------

  /** Within `depth` open brackets the parser takes the value. */
  predicate Good(t: Tree, depth: nat)
    requires TreeOk(t)
  {
    Regular(t) && depth + Nesting(Value(t)) <= NESTING_LIMIT
  }

  ghost predicate Reads(t: Tree, gaps: bool, depth: nat)
    requires TreeOk(t)
  {
    if Good(t, depth) then ValueParses(Text(t, gaps), Value(t), depth) else ValueFails(Text(t, gaps), depth)
  }

  /** A text of the grammar, with its white space or without, wherever it stands
      inside `depth` open brackets. */
  lemma {:induction false} TreeReads(t: Tree, gaps: bool, depth: nat)
    requires TreeOk(t) && (gaps ==> NoComments(t)) && depth <= NESTING_LIMIT
    ensures Begins(Text(t, gaps)) && Reads(t, gaps, depth)
    decreases t, 1
  {
    match t
    case TNull => ConstantReads(t, gaps, depth, "null", Null);
    case TFalse => ConstantReads(t, gaps, depth, "false", False);
    case TTrue => ConstantReads(t, gaps, depth, "true", True);
    case TNumber(n) => NumberReads(t, n, gaps, depth);
    case TString(ps) => StringTreeReads(t, ps, gaps, depth);
    case TArray(inside, elems, comma) => ArrayReads(t, inside, elems, comma, gaps, depth);
    case TObject(inside, fields, comma) => ObjectReads(t, inside, fields, comma, gaps, depth);
  }

  lemma ConstantReads(t: Tree, gaps: bool, depth: nat, text: string, v: Json)
    requires TreeOk(t) && Text(t, gaps) == text && Value(t) == v
    requires (text, v) in {("null", Null), ("false", False), ("true", True)}
    requires Regular(t) && Nesting(v) == 0 && depth <= NESTING_LIMIT
    ensures Begins(Text(t, gaps)) && Reads(t, gaps, depth)
  {
    var s := text + [NUL];
    assert s[..|text|] == text;
    assert At(s, 0, text);
    hide ValueParses;
    ConstantMinified(s, 0, depth, text, v);
  }

  lemma NumberReads(t: Tree, n: Numeral, gaps: bool, depth: nat)
    requires t == TNumber(n) && TreeOk(t) && depth <= NESTING_LIMIT
    ensures Begins(Text(t, gaps)) && Reads(t, gaps, depth)
  {
    hide ValueParses, ValueFails, NumeralText;
    NumeralChars(n);
    if |NumeralText(n)| <= 63 { NumeralReads(n, depth); } else { LongFails(n, depth); }
  }

  lemma StringTreeReads(t: Tree, ps: seq<Piece>, gaps: bool, depth: nat)
    requires t == TString(ps) && TreeOk(t) && depth <= NESTING_LIMIT
    ensures Begins(Text(t, gaps)) && Reads(t, gaps, depth)
  {
    hide ValueParses, ValueFails, StringParses, StringText, PiecesValue, PiecesOk;
    StringReads(ps);
    StringValue(StringText(ps), PiecesValue(ps), depth);
  }

  // ---------- arrays ----------

  predicate GoodElems(elems: seq<Elem>, comma: Option<seq<Filler>>, depth: nat)
    requires ElemsOk(elems)
  {
    comma.None? && RegularElems(elems) && depth + NestingOfItems(Values(elems)) <= NESTING_LIMIT
  }

  ghost predicate ElemsRead(elems: seq<Elem>, comma: Option<seq<Filler>>, gaps: bool, depth: nat)
    requires elems != [] && ElemsOk(elems)
  {
    if GoodElems(elems, comma, depth) then ItemsParse(ElemsText(elems, comma, gaps), Values(elems), depth)
    else ItemsFail(ElemsText(elems, comma, gaps), depth)
  }

  /** An element, as the lists are made of them. */
  lemma ElemParts(e: Elem, gaps: bool, depth: nat)
    requires ElemOk(e) && (gaps ==> ElemPlain(e)) && depth <= NESTING_LIMIT
    ensures White(GapText(e.before, gaps)) && White(GapText(e.after, gaps))
    ensures TreeOk(e.value) && Begins(Text(e.value, gaps)) && Reads(e.value, gaps, depth)
    ensures ElemText(e, gaps) == GapText(e.before, gaps) + (Text(e.value, gaps) + GapText(e.after, gaps))
    ensures ElemText(e, gaps) != "" && ElemValue(e) == Value(e.value)
    decreases e, 0
  {
    hide Reads, White, Spaces;
    GapWhite(e.before, gaps);
    GapWhite(e.after, gaps);
    TreeReads(e.value, gaps, depth);
  }

  lemma ElemsUnfold(elems: seq<Elem>, comma: Option<seq<Filler>>, gaps: bool, depth: nat)
    requires elems != [] && ElemsOk(elems)
    ensures ElemOk(elems[0]) && ElemsOk(elems[1..]) && TreeOk(elems[0].value)
    ensures gaps && ElemsPlain(elems) ==> ElemPlain(elems[0]) && ElemsPlain(elems[1..])
    ensures ElemsText(elems, comma, gaps) == ElemText(elems[0], gaps) +
              if |elems| > 1 then "," + ElemsText(elems[1..], comma, gaps)
              else if comma.None? then "]"
              else "," + (GapText(comma.value, gaps) + "]")
    ensures Values(elems) == [Value(elems[0].value)] + Values(elems[1..])
    ensures GoodElems(elems, comma, depth) <==> Good(elems[0].value, depth) && GoodElems(elems[1..], comma, depth)
  {
    ElemsHead(elems, gaps);
    ElemsTextIs(elems, comma, gaps);
    ElemsGood(elems, comma, depth);
  }

  lemma ElemsHead(elems: seq<Elem>, gaps: bool)
    requires elems != [] && ElemsOk(elems)
    ensures ElemOk(elems[0]) && ElemsOk(elems[1..]) && TreeOk(elems[0].value)
    ensures gaps && ElemsPlain(elems) ==> ElemPlain(elems[0]) && ElemsPlain(elems[1..])
  {
    hide GapOk, Spaces;
    assert ElemOk(elems[0]) && ElemsOk(elems[1..]);
    OneElem(elems[0]);
  }

  lemma ElemsTextIs(elems: seq<Elem>, comma: Option<seq<Filler>>, gaps: bool)
    requires elems != [] && ElemsOk(elems)
    ensures ElemsOk(elems[1..]) && ElemOk(elems[0])
    ensures ElemsText(elems, comma, gaps) == ElemText(elems[0], gaps) +
              if |elems| > 1 then "," + ElemsText(elems[1..], comma, gaps)
              else if comma.None? then "]"
              else "," + (GapText(comma.value, gaps) + "]")
  {
    hide ElemText, GapText;
    var first := ElemText(elems[0], gaps);
    if |elems| > 1 {
      Associate(first, ",", ElemsText(elems[1..], comma, gaps));
    } else if comma.Some? {
      Associate(first, ",", GapText(comma.value, gaps) + "]");
    }
  }

  lemma ElemsGood(elems: seq<Elem>, comma: Option<seq<Filler>>, depth: nat)
    requires elems != [] && ElemsOk(elems)
    ensures ElemsOk(elems[1..]) && TreeOk(elems[0].value)
    ensures Values(elems) == [Value(elems[0].value)] + Values(elems[1..])
    ensures GoodElems(elems, comma, depth) <==> Good(elems[0].value, depth) && GoodElems(elems[1..], comma, depth)
  {
    hide Value, Regular, Nesting;
    ElemsHead(elems, false);
    OneElem(elems[0]);
    hide ElemValue;
    var v, rest := Value(elems[0].value), Values(elems[1..]);
    assert Values(elems) == [v] + rest;
    assert ([v] + rest)[1..] == rest;
  }

  lemma OneElem(e: Elem)
    requires ElemOk(e)
    ensures TreeOk(e.value) && ElemValue(e) == Value(e.value)
  {
  }

  lemma Associate(a: string, b: string, c: string)
    ensures a + b + c == a + (b + c)
  {
  }

  lemma ElemsReads(elems: seq<Elem>, comma: Option<seq<Filler>>, gaps: bool, depth: nat)
    requires elems != [] && ElemsOk(elems) && (comma.Some? ==> GapOk(comma.value)) && depth <= NESTING_LIMIT
    requires gaps ==> ElemsPlain(elems) && (comma.Some? ==> Spaces(comma.value))
    ensures ElemsRead(elems, comma, gaps, depth) && ElemsText(elems, comma, gaps) != ""
    decreases elems, 2
  {
    hide ValueParses, ValueFails, ItemsParse, ItemsFail, White, Begins, GoodElems, Good, Text, GapOk, Spaces;
    ElemsUnfold(elems, comma, gaps, depth);
    ElemParts(elems[0], gaps, depth);
    var e := elems[0];
    var w, text, w' := GapText(e.before, gaps), Text(e.value, gaps), GapText(e.after, gaps);
    var v := Value(e.value);
    BeginsStarts(text);
    if |elems| > 1 {
      ElemsReads(elems[1..], comma, gaps, depth);
      var rest := ElemsText(elems[1..], comma, gaps);
      Associate(w + (text + w'), ",", rest);
      if !Good(e.value, depth) {
        FailedItem(w, text, w', "," + rest, depth);
      } else if GoodElems(elems[1..], comma, depth) {
        MoreItems(w, text, w', rest, v, Values(elems[1..]), depth);
      } else {
        FailedTail(w, text, w', rest, v, depth);
      }
    } else if comma.None? {
      NoElems(elems[1..], comma, depth);
      assert [v] + [] == [v];
      if Good(e.value, depth) { LastItem(w, text, w', v, depth); } else { FailedItem(w, text, w', "]", depth); }
    } else {
      NoElems(elems[1..], comma, depth);
      var g := GapText(comma.value, gaps);
      GapWhite(comma.value, gaps);
      Associate(w + (text + w'), ",", g + "]");
      if Good(e.value, depth) {
        EarlyBracket(g, depth);
        FailedTail(w, text, w', g + "]", v, depth);
      } else {
        FailedItem(w, text, w', "," + (g + "]"), depth);
      }
    }
  }

  lemma NoElems(elems: seq<Elem>, comma: Option<seq<Filler>>, depth: nat)
    requires elems == [] && depth <= NESTING_LIMIT
    ensures GoodElems(elems, comma, depth) <==> comma.None?
    ensures Values(elems) == []
  {
  }

  lemma BeginsStarts(text: string)
    ensures Begins(text) ==> Starts(text) && text != ""
  {
  }

  lemma ArrayReads(t: Tree, inside: seq<Filler>, elems: seq<Elem>, comma: Option<seq<Filler>>, gaps: bool, depth: nat)
    requires t == TArray(inside, elems, comma)
    requires TreeOk(t) && (gaps ==> NoComments(t)) && depth <= NESTING_LIMIT
    ensures Begins(Text(t, gaps)) && Reads(t, gaps, depth)
    decreases t, 0
  {
    hide ValueParses, ValueFails, ItemsParse, ItemsFail, White, GapText, ElemsText, Spaces, GapOk;
    ArrayGood(t, inside, elems, comma, gaps, depth);
    if depth >= NESTING_LIMIT {
      TooDeepFails(Text(t, gaps), depth);
    } else if elems == [] {
      GapWhite(inside, gaps);
      EmptyArray(GapText(inside, gaps), depth);
    } else {
      ElemsReads(elems, comma, gaps, depth + 1);
      if GoodElems(elems, comma, depth + 1) {
        FullArray(ElemsText(elems, comma, gaps), Values(elems), depth);
      } else {
        var w, text, tail := ElemsBegin(elems, comma, gaps);
        FailedArray(w, text, tail, depth);
      }
    }
  }

  lemma ArrayGood(t: Tree, inside: seq<Filler>, elems: seq<Elem>, comma: Option<seq<Filler>>, gaps: bool, depth: nat)
    requires t == TArray(inside, elems, comma) && TreeOk(t)
    ensures Text(t, gaps) == "[" + if elems == [] then GapText(inside, gaps) + "]" else ElemsText(elems, comma, gaps)
    ensures Value(t) == Array(Values(elems)) && (elems == [] ==> comma.None? && Values(elems) == [])
    ensures Good(t, depth) <==> depth < NESTING_LIMIT && GoodElems(elems, comma, depth + 1)
    ensures elems == [] && depth < NESTING_LIMIT ==> GoodElems(elems, comma, depth + 1)
    ensures gaps && NoComments(t) ==> Spaces(inside) && ElemsPlain(elems) && (comma.Some? ==> Spaces(comma.value))
  {
    hide GapText, ElemsText, Spaces, GapOk;
  }

  /** The first element of a list, in front of everything else. */
  lemma ElemsBegin(elems: seq<Elem>, comma: Option<seq<Filler>>, gaps: bool)
    returns (w: string, text: string, tail: string)
    requires elems != [] && ElemsOk(elems) && (gaps ==> ElemsPlain(elems))
    ensures ElemsText(elems, comma, gaps) == w + (text + tail) && White(w) && Begins(text)
    decreases elems, 2
  {
    hide Reads, White, Begins, GapText;
    ElemsUnfold(elems, comma, gaps, 0);
    ElemParts(elems[0], gaps, 0);
    var e := elems[0];
    w, text := GapText(e.before, gaps), Text(e.value, gaps);
    var w' := GapText(e.after, gaps);
    var behind := if |elems| > 1 then "," + ElemsText(elems[1..], comma, gaps)
                  else if comma.None? then "]"
                  else "," + (GapText(comma.value, gaps) + "]");
    tail := w' + behind;
    Grouped(w, text, w', behind);
  }

  // ---------- objects ----------

  predicate GoodFields(fields: seq<Field>, comma: Option<seq<Filler>>, depth: nat)
    requires FieldsOk(fields)
  {
    comma.None? && RegularFields(fields) && depth + NestingOfMembers(Members(fields)) <= NESTING_LIMIT
  }

  ghost predicate FieldsRead(fields: seq<Field>, comma: Option<seq<Filler>>, gaps: bool, depth: nat)
    requires fields != [] && FieldsOk(fields)
  {
    if GoodFields(fields, comma, depth) then MembersParse(FieldsText(fields, comma, gaps), Members(fields), depth)
    else MembersFail(FieldsText(fields, comma, gaps), depth)
  }

  ghost predicate FieldRead(f: Field, gaps: bool, depth: nat)
    requires FieldOk(f) && TreeOk(f.elem.value)
  {
    if Good(f.elem.value, depth) then MemberParses(FieldText(f, gaps), FieldValue(f), depth)
    else MemberFails(FieldText(f, gaps), depth)
  }

  lemma FieldReads(f: Field, gaps: bool, depth: nat)
    requires FieldOk(f) && (gaps ==> FieldPlain(f)) && depth <= NESTING_LIMIT
    ensures TreeOk(f.elem.value) && FieldRead(f, gaps, depth) && FieldText(f, gaps) != ""
    decreases f, 1
  {
    hide ValueParses, ValueFails, MemberParses, MemberFails, StringParses, White, GapOk, Spaces, PiecesOk, Good,
         Begins, GapText, StringText, PiecesValue;
    FieldParts(f, gaps);
    GapWhite(f.before, gaps);
    GapWhite(f.after, gaps);
    StringReads(f.name);
    ElemParts(f.elem, gaps, depth);
    var w, literal, w' := GapText(f.before, gaps), StringText(f.name), GapText(f.after, gaps);
    var e := f.elem;
    var before, text, after := GapText(e.before, gaps), Text(e.value, gaps), GapText(e.after, gaps);
    BeginsStarts(text);
    if Good(e.value, depth) {
      MemberAgain(w, literal, w', PiecesValue(f.name), before, text, after, Value(e.value), depth);
    } else {
      FailedMember(w, literal, w', PiecesValue(f.name), before, text, after, depth);
    }
  }

  lemma FieldParts(f: Field, gaps: bool)
    requires FieldOk(f)
    ensures GapOk(f.before) && PiecesOk(f.name) && GapOk(f.after) && ElemOk(f.elem)
    ensures FieldText(f, gaps) == GapText(f.before, gaps) + (StringText(f.name) + (GapText(f.after, gaps)
                                  + (":" + ElemText(f.elem, gaps))))
    ensures FieldText(f, gaps) != ""
    ensures FieldValue(f) == Member(PiecesValue(f.name), ElemValue(f.elem))
    ensures gaps && FieldPlain(f) ==> Spaces(f.before) && Spaces(f.after) && ElemPlain(f.elem)
  {
  }

  lemma FieldsUnfold(fields: seq<Field>, comma: Option<seq<Filler>>, gaps: bool, depth: nat)
    requires fields != [] && FieldsOk(fields)
    ensures FieldOk(fields[0]) && FieldsOk(fields[1..]) && TreeOk(fields[0].elem.value)
    ensures gaps && FieldsPlain(fields) ==> FieldPlain(fields[0]) && FieldsPlain(fields[1..])
    ensures FieldsText(fields, comma, gaps) == FieldText(fields[0], gaps) +
              if |fields| > 1 then "," + FieldsText(fields[1..], comma, gaps)
              else if comma.None? then "}"
              else "," + (GapText(comma.value, gaps) + "}")
    ensures Members(fields) == [FieldValue(fields[0])] + Members(fields[1..])
    ensures GoodFields(fields, comma, depth) <==>
              Good(fields[0].elem.value, depth) && GoodFields(fields[1..], comma, depth)
  {
    FieldsHead(fields, gaps);
    FieldsTextIs(fields, comma, gaps);
    FieldsGood(fields, comma, depth);
  }

  lemma FieldsHead(fields: seq<Field>, gaps: bool)
    requires fields != [] && FieldsOk(fields)
    ensures FieldOk(fields[0]) && FieldsOk(fields[1..]) && TreeOk(fields[0].elem.value)
    ensures gaps && FieldsPlain(fields) ==> FieldPlain(fields[0]) && FieldsPlain(fields[1..])
  {
    hide GapOk, Spaces, PiecesOk;
    assert FieldOk(fields[0]) && FieldsOk(fields[1..]);
    OneField(fields[0]);
  }

  lemma FieldsTextIs(fields: seq<Field>, comma: Option<seq<Filler>>, gaps: bool)
    requires fields != [] && FieldsOk(fields)
    ensures FieldsOk(fields[1..]) && FieldOk(fields[0])
    ensures FieldsText(fields, comma, gaps) == FieldText(fields[0], gaps) +
              if |fields| > 1 then "," + FieldsText(fields[1..], comma, gaps)
              else if comma.None? then "}"
              else "," + (GapText(comma.value, gaps) + "}")
  {
    hide FieldText, GapText;
    var first := FieldText(fields[0], gaps);
    if |fields| > 1 {
      Associate(first, ",", FieldsText(fields[1..], comma, gaps));
    } else if comma.Some? {
      Associate(first, ",", GapText(comma.value, gaps) + "}");
    }
  }

  lemma FieldsGood(fields: seq<Field>, comma: Option<seq<Filler>>, depth: nat)
    requires fields != [] && FieldsOk(fields)
    ensures FieldsOk(fields[1..]) && FieldOk(fields[0]) && TreeOk(fields[0].elem.value)
    ensures Members(fields) == [FieldValue(fields[0])] + Members(fields[1..])
    ensures GoodFields(fields, comma, depth) <==>
              Good(fields[0].elem.value, depth) && GoodFields(fields[1..], comma, depth)
  {
    hide Value, Regular, Nesting;
    FieldsHead(fields, false);
    OneField(fields[0]);
    hide FieldValue;
    var v, rest := FieldValue(fields[0]), Members(fields[1..]);
    assert Members(fields) == [v] + rest;
    assert ([v] + rest)[1..] == rest;
  }

  lemma OneField(f: Field)
    requires FieldOk(f)
    ensures TreeOk(f.elem.value) && FieldValue(f).value == Value(f.elem.value)
  {
    OneElem(f.elem);
  }

  lemma NoFields(fields: seq<Field>, comma: Option<seq<Filler>>, depth: nat)
    requires fields == [] && depth <= NESTING_LIMIT
    ensures GoodFields(fields, comma, depth) <==> comma.None?
    ensures Members(fields) == []
  {
  }

  lemma FieldsReads(fields: seq<Field>, comma: Option<seq<Filler>>, gaps: bool, depth: nat)
    requires fields != [] && FieldsOk(fields) && (comma.Some? ==> GapOk(comma.value)) && depth <= NESTING_LIMIT
    requires gaps ==> FieldsPlain(fields) && (comma.Some? ==> Spaces(comma.value))
    ensures FieldsRead(fields, comma, gaps, depth) && FieldsText(fields, comma, gaps) != ""
    decreases fields, 2
  {
    hide MemberParses, MemberFails, MembersParse, MembersFail, White, GoodFields, Good, FieldText, GapOk, Spaces;
    FieldsUnfold(fields, comma, gaps, depth);
    FieldReads(fields[0], gaps, depth);
    var f := fields[0];
    var first, v := FieldText(f, gaps), FieldValue(f);
    if |fields| > 1 {
      FieldsReads(fields[1..], comma, gaps, depth);
      var rest := FieldsText(fields[1..], comma, gaps);
      Associate(first, ",", rest);
      if !Good(f.elem.value, depth) {
        FailedFirst(first, "," + rest, depth);
      } else if GoodFields(fields[1..], comma, depth) {
        MoreMembers(first, rest, v, Members(fields[1..]), depth);
      } else {
        FailedMembers(first, rest, v, depth);
      }
    } else if comma.None? {
      NoFields(fields[1..], comma, depth);
      assert [v] + [] == [v];
      if Good(f.elem.value, depth) { LastMember(first, v, depth); } else { FailedFirst(first, "}", depth); }
    } else {
      NoFields(fields[1..], comma, depth);
      var g := GapText(comma.value, gaps);
      GapWhite(comma.value, gaps);
      Associate(first, ",", g + "}");
      if Good(f.elem.value, depth) {
        EarlyBrace(g, depth);
        FailedMembers(first, g + "}", v, depth);
      } else {
        FailedFirst(first, "," + (g + "}"), depth);
      }
    }
  }

  lemma ObjectReads(t: Tree, inside: seq<Filler>, fields: seq<Field>, comma: Option<seq<Filler>>,
                    gaps: bool, depth: nat)
    requires t == TObject(inside, fields, comma)
    requires TreeOk(t) && (gaps ==> NoComments(t)) && depth <= NESTING_LIMIT
    ensures Begins(Text(t, gaps)) && Reads(t, gaps, depth)
    decreases t, 0
  {
    hide ValueParses, ValueFails, MembersParse, MembersFail, White, GapText, FieldsText, Spaces, GapOk;
    ObjectGood(t, inside, fields, comma, gaps, depth);
    if depth >= NESTING_LIMIT {
      TooDeepFails(Text(t, gaps), depth);
    } else if fields == [] {
      GapWhite(inside, gaps);
      EmptyObject(GapText(inside, gaps), depth);
    } else {
      FieldsReads(fields, comma, gaps, depth + 1);
      if GoodFields(fields, comma, depth + 1) {
        FullObject(FieldsText(fields, comma, gaps), Members(fields), depth);
      } else {
        var w, text, tail := FieldsBegin(fields, comma, gaps);
        FailedObject(w, text, tail, depth);
      }
    }
  }

  lemma ObjectGood(t: Tree, inside: seq<Filler>, fields: seq<Field>, comma: Option<seq<Filler>>,
                   gaps: bool, depth: nat)
    requires t == TObject(inside, fields, comma) && TreeOk(t)
    ensures Text(t, gaps) == "{" + if fields == [] then GapText(inside, gaps) + "}" else FieldsText(fields, comma, gaps)
    ensures Value(t) == Object(Members(fields)) && (fields == [] ==> comma.None? && Members(fields) == [])
    ensures Good(t, depth) <==> depth < NESTING_LIMIT && GoodFields(fields, comma, depth + 1)
    ensures fields == [] && depth < NESTING_LIMIT ==> GoodFields(fields, comma, depth + 1)
    ensures gaps && NoComments(t) ==> Spaces(inside) && FieldsPlain(fields) && (comma.Some? ==> Spaces(comma.value))
  {
    hide GapText, FieldsText, Spaces, GapOk;
  }

  /** The first name of a list of members, in front of everything else. */
  lemma FieldsBegin(fields: seq<Field>, comma: Option<seq<Filler>>, gaps: bool)
    returns (w: string, text: string, tail: string)
    requires fields != [] && FieldsOk(fields) && (gaps ==> FieldsPlain(fields))
    ensures FieldsText(fields, comma, gaps) == w + (text + tail) && White(w) && Begins(text)
  {
    hide White, GapText, StringText, PiecesOk, GapOk, Spaces;
    FieldsUnfold(fields, comma, gaps, 0);
    var f := fields[0];
    FieldParts(f, gaps);
    GapWhite(f.before, gaps);
    w, text := GapText(f.before, gaps), StringText(f.name);
    var w' := GapText(f.after, gaps) + (":" + ElemText(f.elem, gaps));
    var behind := if |fields| > 1 then "," + FieldsText(fields[1..], comma, gaps)
                  else if comma.None? then "}"
                  else "," + (GapText(comma.value, gaps) + "}");
    tail := w' + behind;
    StringBegins(f.name);
    Grouped(w, text, w', behind);
  }

  lemma StringBegins(ps: seq<Piece>)
    requires PiecesOk(ps)
    ensures Begins(StringText(ps))
  {
  }

  // ---------- whole documents ----------

  /** A document: a byte order mark, white space, a value, white space. */
  function Document(mark: bool, before: seq<Filler>, t: Tree, after: seq<Filler>, gaps: bool): string
    requires TreeOk(t)
  {
    (if mark then BOM else "") + (GapText(before, gaps) + (Text(t, gaps) + GapText(after, gaps)))
  }

  /** cJSON_ParseWithOpts, asked to read to the end, returns the value of every
      document of the grammar that has no comma behind a last element, no number
      longer than 63 characters and at most 1000 levels of nesting, and NULL for
      every other one; without `gaps` nothing stands between the tokens. */
  lemma DocumentReads(mark: bool, before: seq<Filler>, t: Tree, after: seq<Filler>, gaps: bool)
    requires TreeOk(t) && GapOk(before) && GapOk(after)
    requires gaps ==> NoComments(t) && Spaces(before) && Spaces(after)
    ensures NulFree(Document(mark, before, t, after, gaps))
    ensures ParseDocument(Document(mark, before, t, after, gaps), true)
         == if Regular(t) && Nesting(Value(t)) <= 1000 then Some(Value(t)) else None
  {
    hide White, Reads, Begins, Spaces, GapOk, Text, GapText, NulFree;
    DocumentNulFree(mark, before, t, after, gaps);
    GapWhite(before, gaps);
    GapWhite(after, gaps);
    TreeReads(t, gaps, 0);
    var w, text, w' := GapText(before, gaps), Text(t, gaps), GapText(after, gaps);
    BeginsStarts(text);
    OneDocument(if mark then BOM else "", w, text, w', t, gaps);
  }

  /** With more behind the document, it is accepted exactly if the caller does
      not ask to read to the end. */
  lemma MoreBehind(before: seq<Filler>, t: Tree, after: seq<Filler>, more: string, requireEnd: bool)
    requires TreeOk(t) && NoComments(t) && GapOk(before) && Spaces(before) && GapOk(after) && Spaces(after)
    requires Regular(t) && Nesting(Value(t)) <= NESTING_LIMIT
    requires more != "" && NulFree(more) && more[0] > ' ' && !NumberChar(more[0])
    ensures NulFree(Document(false, before, t, after, true) + more)
    ensures ParseDocument(Document(false, before, t, after, true) + more, requireEnd)
         == if requireEnd then None else Some(Value(t))
  {
    hide White, Begins, Spaces, GapOk, Text, GapText, NulFree, Reads, Regular;
    DocumentNulFree(false, before, t, after, true);
    NulFreeConcat(Document(false, before, t, after, true), more);
    GapWhite(before, true);
    GapWhite(after, true);
    TreeReads(t, true, 0);
    assert Good(t, 0);
    GoodReads(t, true, 0);
    hide Good;
    BehindReads(GapText(before, true), Text(t, true), GapText(after, true), more, Value(t), requireEnd);
  }

  lemma GoodReads(t: Tree, gaps: bool, depth: nat)
    requires TreeOk(t) && Good(t, depth) && Reads(t, gaps, depth)
    ensures ValueParses(Text(t, gaps), Value(t), depth)
  {
  }

  lemma BehindReads(w: string, text: string, w': string, more: string, v: Json, requireEnd: bool)
    requires White(w) && White(w') && Begins(text) && ValueParses(text, v, 0)
    requires more != "" && more[0] > ' ' && !NumberChar(more[0])
    requires NulFree("" + (w + (text + w')) + more)
    ensures ParseDocument("" + (w + (text + w')) + more, requireEnd) == if requireEnd then None else Some(v)
  {
    hide ParseValue, ValueParses, White, At, SkipBom, Skip, Begins, NumberChar, NulFree;
    var out := "" + (w + (text + w')) + more;
    var m := out + [NUL];
    Terminates(out);
    AllTogether(w, text, w', more);
    BeginsStarts(text);
    SameMark(m, "", w, text, w' + (more + [NUL]));
    AtEnd("", w + (text + (w' + (more + [NUL]))));
    MorePlace(m, w, text, w', more);
    UseParses(m, |w|, text, v);
  }

  lemma Terminates(out: string)
    requires NulFree(out)
    ensures Terminated(out + [NUL])
  {
    assert (out + [NUL])[..|out|] == out;
  }

  lemma AllTogether(a: string, b: string, c: string, d: string)
    ensures "" + (a + (b + c)) + d + [NUL] == "" + (a + (b + (c + (d + [NUL]))))
  {
  }

  lemma MorePlace(m: string, w: string, text: string, w': string, more: string)
    requires Terminated(m) && At(m, 0, w + (text + (w' + (more + [NUL])))) && White(w) && White(w') && Begins(text)
    requires more != "" && more[0] > ' ' && !NumberChar(more[0])
    ensures var p := |w|;
            var e := p + |text| + |w'|;
            && Skip(m, 0) == p < p + |text| <= e < |m| && At(m, p, text) && !NumberChar(m[p + |text|])
            && Skip(m, p + |text|) == e && m[e] == more[0]
  {
    hide At, Skip;
    AtConcat(m, 0, w, text + (w' + (more + [NUL])));
    AtConcat(m, |w|, text, w' + (more + [NUL]));
    var k := |w| + |text|;
    AtConcat(m, k, w', more + [NUL]);
    AtChar(m, |w|, text, 0);
    AtChar(m, k, w' + (more + [NUL]), 0);
    AtChar(m, k + |w'|, more + [NUL], 0);
    SkipWhite(m, 0, w);
    SkipWhite(m, k, w');
  }

  lemma UseParses(m: string, j: nat, text: string, v: Json)
    requires Terminated(m) && ValueParses(text, v, 0) && At(m, j, text)
    requires j < j + |text| < |m| && !NumberChar(m[j + |text|])
    ensures ParseValue(m, j, 0) == Ok(v, j + |text|)
  {
    hide ParseValue;
  }

  // ---------- no NUL in a text ----------

  lemma DocumentNulFree(mark: bool, before: seq<Filler>, t: Tree, after: seq<Filler>, gaps: bool)
    requires TreeOk(t) && GapOk(before) && GapOk(after)
    ensures NulFree(Document(mark, before, t, after, gaps))
  {
    var b, w, text, w' := if mark then BOM else "", GapText(before, gaps), Text(t, gaps), GapText(after, gaps);
    assert NulFree(b);
    hide NulFree, Text, GapText;
    GapNulFree(before, gaps);
    GapNulFree(after, gaps);
    TreeNulFree(t, gaps);
    NulFreeConcat(text, w');
    NulFreeConcat(w, text + w');
    NulFreeConcat(b, w + (text + w'));
  }

  lemma {:induction false} GapNulFree(g: seq<Filler>, gaps: bool)
    requires GapOk(g)
    ensures NulFree(GapText(g, gaps))
    decreases |g|
  {
    if g != [] && gaps {
      assert FillerOk(g[0]);
      assert NulFree(FillerText(g[0]));
      hide FillerOk, FillerText;
      GapNulFree(g[1..], gaps);
      NulFreeConcat(FillerText(g[0]), GapText(g[1..], gaps));
    }
  }

  lemma {:induction false} PiecesNulFree(ps: seq<Piece>)
    requires PiecesOk(ps)
    ensures NulFree(PiecesText(ps))
    decreases |ps|
  {
    if ps != [] {
      PieceNulFree(ps[0]);
      hide PieceText, PieceOk, NulFree;
      PiecesNulFree(ps[1..]);
      NulFreeConcat(PieceText(ps[0]), PiecesText(ps[1..]));
    }
  }

  lemma PieceNulFree(p: Piece)
    requires PieceOk(p)
    ensures NulFree(PieceText(p))
  {
    match p
    case Bare(_) =>
    case Short(_) =>
    case Unit(code, upper) => FourPlain(code, upper);
    case Pair(code, upper, upper') =>
      var x := code - 0x10000;
      FourPlain(0xD800 + x / 0x400, upper);
      FourPlain(0xDC00 + x % 0x400, upper');
  }

  lemma TextNulFree(ps: seq<Piece>)
    requires PiecesOk(ps)
    ensures NulFree(StringText(ps))
  {
    PiecesNulFree(ps);
    hide PiecesText, PiecesOk;
  }

  lemma {:induction false} TreeNulFree(t: Tree, gaps: bool)
    requires TreeOk(t)
    ensures NulFree(Text(t, gaps))
    decreases t, 1
  {
    hide GapText, GapOk;
    match t
    case TNull =>
    case TFalse =>
    case TTrue =>
    case TNumber(n) => NumeralChars(n);
    case TString(ps) => TextNulFree(ps);
    case TArray(inside, elems, comma) =>
      hide NulFree;
      if elems == [] { GapNulFree(inside, gaps); } else { ElemsNulFree(elems, comma, gaps); }
      TokenNulFree("[");
      TokenNulFree("]");
      NulFreeConcat(GapText(inside, gaps), "]");
      NulFreeConcat("[", if elems == [] then GapText(inside, gaps) + "]" else ElemsText(elems, comma, gaps));
    case TObject(inside, fields, comma) =>
      hide NulFree;
      if fields == [] { GapNulFree(inside, gaps); } else { FieldsNulFree(fields, comma, gaps); }
      TokenNulFree("{");
      TokenNulFree("}");
      NulFreeConcat(GapText(inside, gaps), "}");
      NulFreeConcat("{", if fields == [] then GapText(inside, gaps) + "}" else FieldsText(fields, comma, gaps));
  }

  lemma TokenNulFree(token: string)
    requires token in {"[", "]", "{", "}", ",", ":"}
    ensures NulFree(token)
  {
  }

  lemma ElemNulFree(e: Elem, gaps: bool)
    requires ElemOk(e)
    ensures NulFree(ElemText(e, gaps))
    decreases e, 0
  {
    hide NulFree, GapText, GapOk;
    GapNulFree(e.before, gaps);
    GapNulFree(e.after, gaps);
    TreeNulFree(e.value, gaps);
    NulFreeConcat(Text(e.value, gaps), GapText(e.after, gaps));
    NulFreeConcat(GapText(e.before, gaps), Text(e.value, gaps) + GapText(e.after, gaps));
  }

  lemma BehindNulFree(comma: Option<seq<Filler>>, close: string, gaps: bool)
    requires (comma.Some? ==> GapOk(comma.value)) && (close == "]" || close == "}")
    ensures NulFree(close) && (comma.Some? ==> NulFree("," + (GapText(comma.value, gaps) + close)))
  {
    hide NulFree, GapText, GapOk;
    TokenNulFree(close);
    TokenNulFree(",");
    if comma.Some? {
      GapNulFree(comma.value, gaps);
      NulFreeConcat(GapText(comma.value, gaps), close);
      NulFreeConcat(",", GapText(comma.value, gaps) + close);
    }
  }

  lemma ElemsNulFree(elems: seq<Elem>, comma: Option<seq<Filler>>, gaps: bool)
    requires elems != [] && ElemsOk(elems) && (comma.Some? ==> GapOk(comma.value))
    ensures NulFree(ElemsText(elems, comma, gaps))
    decreases elems, 0
  {
    hide NulFree, GapText, GapOk, ElemText;
    ElemsTextIs(elems, comma, gaps);
    ElemNulFree(elems[0], gaps);
    BehindNulFree(comma, "]", gaps);
    if |elems| > 1 {
      ElemsNulFree(elems[1..], comma, gaps);
      TokenNulFree(",");
      NulFreeConcat(",", ElemsText(elems[1..], comma, gaps));
    }
    NulFreeConcat(ElemText(elems[0], gaps),
                  if |elems| > 1 then "," + ElemsText(elems[1..], comma, gaps)
                  else if comma.None? then "]" else "," + (GapText(comma.value, gaps) + "]"));
  }

  lemma FieldNulFree(f: Field, gaps: bool)
    requires FieldOk(f)
    ensures NulFree(FieldText(f, gaps))
    decreases f, 1
  {
    hide NulFree, GapText, GapOk, StringText, PiecesOk, ElemText;
    FieldParts(f, gaps);
    GapNulFree(f.before, gaps);
    TextNulFree(f.name);
    GapNulFree(f.after, gaps);
    TokenNulFree(":");
    ElemNulFree(f.elem, gaps);
    var w, literal, w' := GapText(f.before, gaps), StringText(f.name), GapText(f.after, gaps);
    var e := ElemText(f.elem, gaps);
    NulFreeConcat(":", e);
    NulFreeConcat(w', ":" + e);
    NulFreeConcat(literal, w' + (":" + e));
    NulFreeConcat(w, literal + (w' + (":" + e)));
  }

  lemma FieldsNulFree(fields: seq<Field>, comma: Option<seq<Filler>>, gaps: bool)
    requires fields != [] && FieldsOk(fields) && (comma.Some? ==> GapOk(comma.value))
    ensures NulFree(FieldsText(fields, comma, gaps))
    decreases fields, 0
  {
    hide NulFree, GapText, GapOk, FieldText;
    FieldsTextIs(fields, comma, gaps);
    FieldNulFree(fields[0], gaps);
    BehindNulFree(comma, "}", gaps);
    if |fields| > 1 {
      FieldsNulFree(fields[1..], comma, gaps);
      TokenNulFree(",");
      NulFreeConcat(",", FieldsText(fields[1..], comma, gaps));
    }
    NulFreeConcat(FieldText(fields[0], gaps),
                  if |fields| > 1 then "," + FieldsText(fields[1..], comma, gaps)
                  else if comma.None? then "}" else "," + (GapText(comma.value, gaps) + "}"));
  }

  lemma OneDocument(mark: string, w: string, text: string, w': string, t: Tree, gaps: bool)
    requires mark == BOM || mark == ""
    requires NulFree(mark + (w + (text + w'))) && White(w) && White(w') && Begins(text)
    requires TreeOk(t) && text == Text(t, gaps) && Reads(t, gaps, 0)
    ensures ParseDocument(mark + (w + (text + w')), true)
         == if Regular(t) && Nesting(Value(t)) <= NESTING_LIMIT then Some(Value(t)) else None
  {
    hide White, ValueParses, ValueFails, Begins, Text, Starts;
    BeginsStarts(text);
    if Good(t, 0) {
      DocumentAgain(mark, w, text, w', Value(t));
    } else {
      DocumentFails(mark, w, text, w');
    }
  }

  lemma DocumentFails(mark: string, w: string, text: string, w': string)
    requires NulFree(mark + (w + (text + w'))) && (mark == BOM || mark == "")
    requires White(w) && White(w') && Begins(text) && ValueFails(text, 0)
    ensures ParseDocument(mark + (w + (text + w')), true) == None
  {
    hide ParseValue, White, At, SkipBom, Skip, Begins;
    var out := mark + (w + (text + w'));
    var m := out + [NUL];
    assert m[..|m| - 1] == out;
    Ended(mark, w, text, w');
    var tail := w + (text + (w' + [NUL]));
    BeginsStarts(text);
    SameMark(m, mark, w, text, w' + [NUL]);
    AtEnd(mark, tail);
    EndPlace(m, |mark|, w, text, w');
    StuckDocument(m, |mark| + |w|);
  }

  lemma EndPlace(m: string, j: nat, w: string, text: string, w': string)
    requires Terminated(m) && At(m, j, w + (text + (w' + [NUL]))) && White(w) && White(w') && Begins(text)
    ensures var p := j + |w|;
            && Skip(m, j) == p < p + |text| < |m| && At(m, p, text) && !NumberChar(m[p + |text|])
  {
    hide At, Skip;
    AtConcat(m, j, w, text + (w' + [NUL]));
    var p := j + |w|;
    AtConcat(m, p, text, w' + [NUL]);
    AtChar(m, p, text, 0);
    AtChar(m, p + |text|, w' + [NUL], 0);
    SkipWhite(m, j, w);
  }

  lemma StuckDocument(m: string, p: nat)
    requires Terminated(m) && p < |m|
    requires var r := ParseValue(m, p, 0); r.Fail? || NumberChar(m[r.next])
    ensures var r := ParseValue(m, p, 0); r.Ok? ==> m[Skip(m, r.next)] != NUL
  {
    hide ParseValue;
  }
}
