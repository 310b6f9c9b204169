/** What cJSON_Minify leaves of a text of the grammar, with comments or without:
    the same text with nothing between its tokens. */
module JsonGrammarMinify {
  import opened Common
  import opened JsonStrings
  import opened JsonValues
  import opened JsonRoundTrip
  import opened JsonMinify
  import opened JsonMinified
  import opened JsonGrammar
  import opened JsonGrammarStrings
  import opened JsonGrammarParse

  // ---------- white space and comments ----------

  lemma {:induction false} LineSkipped(s: string, i: nat, n: nat)
    requires Terminated(s) && i + n < |s| && s[i + n] == '\n'
    requires forall k :: i <= k < i + n ==> s[k] != '\n' && s[k] != NUL
    ensures LineEnd(s, i) == i + n
    decreases n
  {
    if n > 0 { LineSkipped(s, i + 1, n - 1); }
  }

  lemma {:induction false} BlockSkipped(s: string, i: nat, n: nat)
    requires Terminated(s) && i + n + 1 < |s| && s[i + n] == '*' && s[i + n + 1] == '/'
    requires forall k :: i <= k < i + n ==> s[k] != NUL && !(s[k] == '*' && s[k + 1] == '/')
    ensures CommentEnd(s, i) == i + n
    decreases n
  {
    if n > 0 { BlockSkipped(s, i + 1, n - 1); }
  }

  lemma LineVanishes(s: string, i: nat, body: string)
    requires Terminated(s) && FillerOk(LineComment(body))
    requires var text := "//" + body + "\n"; At(s, i, text) && i + |text| < |s|
    ensures Becomes(s, i, "//" + body + "\n", "")
  {
    var text := "//" + body + "\n";
    assert text == "/" + ("/" + body + "\n") && text[0] == '/' && text[1] == '/' && text[|body| + 2] == '\n';
    forall k | 0 <= k < |text| ensures s[i + k] == text[k] { AtChar(s, i, text, k); }
    forall k | i + 1 <= k < i + 2 + |body| ensures s[k] != '\n' && s[k] != NUL {
      assert s[i + (k - i)] == text[k - i];
      assert k > i + 1 ==> text[k - i] == body[k - i - 2];
    }
    LineSkipped(s, i + 1, |body| + 1);
    assert s[i] == text[0] && s[i + 1] == text[1] && s[i + (|body| + 2)] == '\n';
    KeepNothing(Minify(s, i));
  }

  lemma BlockVanishes(s: string, i: nat, body: string)
    requires Terminated(s) && FillerOk(BlockComment(body))
    requires var text := "/*" + body + "*/"; At(s, i, text) && i + |text| < |s|
    ensures Becomes(s, i, "/*" + body + "*/", "")
  {
    var text, t := "/*" + body + "*/", "*" + body + "*";
    assert text == "/" + t + "/";
    forall k | 0 <= k < |text| ensures s[i + k] == text[k] { AtChar(s, i, text, k); }
    forall k | i + 1 <= k < i + 2 + |body| ensures s[k] != NUL && !(s[k] == '*' && s[k + 1] == '/') {
      assert s[i + (k - i)] == text[k - i] == t[k - i - 1];
      assert s[i + (k + 1 - i)] == text[k + 1 - i] == t[k - i];
      assert k > i + 1 ==> t[k - i - 1] == body[k - i - 2];
    }
    assert s[i + 0] == '/' && s[i + 1] == '*' && s[i + (|body| + 2)] == '*' && s[i + (|body| + 3)] == '/';
    BlockSkipped(s, i + 1, |body| + 1);
    KeepNothing(Minify(s, i));
  }

  lemma {:induction false} GapVanishes(s: string, i: nat, g: seq<Filler>)
    requires Terminated(s) && GapOk(g) && At(s, i, GapText(g, true)) && i + |GapText(g, true)| < |s|
    ensures Becomes(s, i, GapText(g, true), "") && GapText(g, false) == ""
    decreases |g|
  {
    hide Minify, Becomes, At, Terminated, FillerOk;
    if g == [] {
      NothingVanishes(s, i);
    } else {
      var a, b := FillerText(g[0]), GapText(g[1..], true);
      AtConcat(s, i, a, b);
      FillerVanishes(s, i, g[0]);
      GapVanishes(s, i + |a|, g[1..]);
      BecomesConcat(s, i, a, b, "", "");
      assert "" + "" == "";
    }
  }

  lemma NothingVanishes(s: string, i: nat)
    requires Terminated(s) && i < |s|
    ensures Becomes(s, i, "", "")
  {
    KeepNothing(Minify(s, i));
  }

  lemma FillerVanishes(s: string, i: nat, f: Filler)
    requires Terminated(s) && FillerOk(f) && At(s, i, FillerText(f)) && i + |FillerText(f)| < |s|
    ensures Becomes(s, i, FillerText(f), "")
  {
    hide Minify, Becomes, At;
    match f
    case Space(c) => BlanksVanish(s, i, [c]);
    case LineComment(body) => LineVanishes(s, i, body);
    case BlockComment(body) => BlockVanishes(s, i, body);
  }

  // ---------- literals ----------

  lemma LiteralStays(s: string, i: nat, ps: seq<Piece>)
    requires Terminated(s) && PiecesOk(ps) && At(s, i, StringText(ps)) && i + |StringText(ps)| < |s|
    ensures Becomes(s, i, StringText(ps), StringText(ps))
  {
    hide Minify, At, PiecesText, PiecesOk, QuoteEnd, ScanString;
    var body := PiecesText(ps);
    assert StringText(ps) == "\"" + (body + "\"");
    AtConcat(s, i, "\"", body + "\"");
    AtChar(s, i, "\"", 0);
    ScanPieces(s, i + 1, ps);
    QuoteScanned(s, i + 1);
    LiteralLeft(s, i, i + 1 + |body|);
    Standing(s, i, StringText(ps));
  }

  lemma Standing(s: string, i: nat, text: string)
    requires At(s, i, text)
    ensures s[i..i + |text|] == text
  {
  }

  lemma NumeralStays(s: string, i: nat, n: Numeral)
    requires Terminated(s) && NumeralOk(n) && At(s, i, NumeralText(n)) && i + |NumeralText(n)| < |s|
    ensures Becomes(s, i, NumeralText(n), NumeralText(n))
  {
    hide Minify, At, NumeralText, NumeralOk, Becomes, Terminated;
    NumeralChars(n);
    PlainStays(s, i, NumeralText(n));
  }

  // ---------- values ----------

  /** The text with what is between its tokens becomes the text without. */
  lemma {:induction false} TreeMinified(t: Tree, s: string, i: nat)
    requires Terminated(s) && TreeOk(t) && At(s, i, Text(t, true)) && i + |Text(t, true)| < |s|
    ensures Becomes(s, i, Text(t, true), Text(t, false))
    decreases t, 1
  {
    hide Becomes, At, Terminated, Minify;
    match t
    case TNull => PlainStays(s, i, "null");
    case TFalse => PlainStays(s, i, "false");
    case TTrue => PlainStays(s, i, "true");
    case TNumber(n) => NumeralStays(s, i, n);
    case TString(ps) => LiteralStays(s, i, ps);
    case TArray(inside, elems, comma) => ArrayShrinks(t, inside, elems, comma, s, i);
    case TObject(inside, fields, comma) => ObjectShrinks(t, inside, fields, comma, s, i);
  }

  lemma ElemShrinks(e: Elem, s: string, i: nat)
    requires Terminated(s) && ElemOk(e) && At(s, i, ElemText(e, true)) && i + |ElemText(e, true)| < |s|
    ensures Becomes(s, i, ElemText(e, true), ElemText(e, false))
    decreases e, 0
  {
    hide Becomes, At, Terminated, Minify, GapText, GapOk;
    var w, text, w' := GapText(e.before, true), Text(e.value, true), GapText(e.after, true);
    var text' := Text(e.value, false);
    AtConcat(s, i, w, text + w');
    AtConcat(s, i + |w|, text, w');
    GapVanishes(s, i, e.before);
    TreeMinified(e.value, s, i + |w|);
    GapVanishes(s, i + |w| + |text|, e.after);
    BecomesConcat(s, i + |w|, text, w', text', "");
    BecomesConcat(s, i, w, text + w', "", text' + "");
  }

  /** What stands behind the first element or member. */
  function Behind(comma: Option<seq<Filler>>, close: string, gaps: bool): string {
    if comma.None? then close else "," + (GapText(comma.value, gaps) + close)
  }

  lemma BehindShrinks(comma: Option<seq<Filler>>, close: string, s: string, i: nat)
    requires Terminated(s) && (comma.Some? ==> GapOk(comma.value)) && (close == "]" || close == "}")
    requires At(s, i, Behind(comma, close, true)) && i + |Behind(comma, close, true)| < |s|
    ensures Becomes(s, i, Behind(comma, close, true), Behind(comma, close, false))
  {
    hide Becomes, At, Terminated, Minify, GapText, GapOk;
    if comma.None? {
      PlainStays(s, i, close);
    } else {
      var g := GapText(comma.value, true);
      AtConcat(s, i, ",", g + close);
      AtConcat(s, i + 1, g, close);
      PlainStays(s, i, ",");
      GapVanishes(s, i + 1, comma.value);
      PlainStays(s, i + 1 + |g|, close);
      BecomesConcat(s, i + 1, g, close, "", close);
      BecomesConcat(s, i, ",", g + close, ",", "" + close);
    }
  }

  lemma ElemsShrink(elems: seq<Elem>, comma: Option<seq<Filler>>, s: string, i: nat)
    requires Terminated(s) && elems != [] && ElemsOk(elems) && (comma.Some? ==> GapOk(comma.value))
    requires At(s, i, ElemsText(elems, comma, true)) && i + |ElemsText(elems, comma, true)| < |s|
    ensures Becomes(s, i, ElemsText(elems, comma, true), ElemsText(elems, comma, false))
    decreases elems, 0
  {
    hide Becomes, At, Terminated, Minify, GapText, GapOk, ElemText;
    ElemsTextIs(elems, comma, true);
    ElemsTextIs(elems, comma, false);
    var first, first' := ElemText(elems[0], true), ElemText(elems[0], false);
    if |elems| > 1 {
      hide ElemsText;
      var rest, rest' := ElemsText(elems[1..], comma, true), ElemsText(elems[1..], comma, false);
      AtConcat(s, i, first, "," + rest);
      AtConcat(s, i + |first|, ",", rest);
      ElemShrinks(elems[0], s, i);
      PlainStays(s, i + |first|, ",");
      ElemsShrink(elems[1..], comma, s, i + |first| + 1);
      BecomesConcat(s, i + |first|, ",", rest, ",", rest');
      BecomesConcat(s, i, first, "," + rest, first', "," + rest');
    } else {
      hide ElemsText;
      var end, end' := Behind(comma, "]", true), Behind(comma, "]", false);
      AtConcat(s, i, first, end);
      ElemShrinks(elems[0], s, i);
      BehindShrinks(comma, "]", s, i + |first|);
      BecomesConcat(s, i, first, end, first', end');
    }
  }

  lemma ArrayShrinks(t: Tree, inside: seq<Filler>, elems: seq<Elem>, comma: Option<seq<Filler>>, s: string, i: nat)
    requires t == TArray(inside, elems, comma)
    requires Terminated(s) && TreeOk(t) && At(s, i, Text(t, true)) && i + |Text(t, true)| < |s|
    ensures Becomes(s, i, Text(t, true), Text(t, false))
    decreases t, 0
  {
    hide Becomes, At, Terminated, Minify, GapText, GapOk, ElemsText;
    var inner := if elems == [] then GapText(inside, true) + "]" else ElemsText(elems, comma, true);
    var inner' := if elems == [] then GapText(inside, false) + "]" else ElemsText(elems, comma, false);
    AtConcat(s, i, "[", inner);
    PlainStays(s, i, "[");
    if elems == [] {
      EmptyShrinks(inside, "]", s, i + 1);
    } else {
      ElemsShrink(elems, comma, s, i + 1);
    }
    BecomesConcat(s, i, "[", inner, "[", inner');
  }

  lemma EmptyShrinks(inside: seq<Filler>, close: string, s: string, i: nat)
    requires Terminated(s) && GapOk(inside) && (close == "]" || close == "}")
    requires At(s, i, GapText(inside, true) + close) && i + |GapText(inside, true) + close| < |s|
    ensures Becomes(s, i, GapText(inside, true) + close, GapText(inside, false) + close)
  {
    hide Becomes, At, Terminated, Minify, GapText, GapOk;
    var g := GapText(inside, true);
    AtConcat(s, i, g, close);
    GapVanishes(s, i, inside);
    PlainStays(s, i + |g|, close);
    BecomesConcat(s, i, g, close, "", close);
  }

  lemma FieldShrinks(f: Field, s: string, i: nat)
    requires Terminated(s) && FieldOk(f) && At(s, i, FieldText(f, true)) && i + |FieldText(f, true)| < |s|
    ensures Becomes(s, i, FieldText(f, true), FieldText(f, false))
    decreases f, 1
  {
    hide Becomes, At, Terminated, Minify, GapText, GapOk, StringText, PiecesOk, ElemText;
    FieldParts(f, true);
    FieldParts(f, false);
    var w, literal, w' := GapText(f.before, true), StringText(f.name), GapText(f.after, true);
    var e, e' := ElemText(f.elem, true), ElemText(f.elem, false);
    var j := i + |w|;
    AtConcat(s, i, w, literal + (w' + (":" + e)));
    AtConcat(s, j, literal, w' + (":" + e));
    AtConcat(s, j + |literal|, w', ":" + e);
    AtConcat(s, j + |literal| + |w'|, ":", e);
    GapVanishes(s, i, f.before);
    LiteralStays(s, j, f.name);
    GapVanishes(s, j + |literal|, f.after);
    PlainStays(s, j + |literal| + |w'|, ":");
    ElemShrinks(f.elem, s, j + |literal| + |w'| + 1);
    BecomesConcat(s, j + |literal| + |w'|, ":", e, ":", e');
    BecomesConcat(s, j + |literal|, w', ":" + e, "", ":" + e');
    BecomesConcat(s, j, literal, w' + (":" + e), literal, "" + (":" + e'));
    BecomesConcat(s, i, w, literal + (w' + (":" + e)), "", literal + ("" + (":" + e')));
  }

  lemma FieldsShrink(fields: seq<Field>, comma: Option<seq<Filler>>, s: string, i: nat)
    requires Terminated(s) && fields != [] && FieldsOk(fields) && (comma.Some? ==> GapOk(comma.value))
    requires At(s, i, FieldsText(fields, comma, true)) && i + |FieldsText(fields, comma, true)| < |s|
    ensures Becomes(s, i, FieldsText(fields, comma, true), FieldsText(fields, comma, false))
    decreases fields, 0
  {
    hide Becomes, At, Terminated, Minify, GapText, GapOk, FieldText;
    FieldsTextIs(fields, comma, true);
    FieldsTextIs(fields, comma, false);
    var first, first' := FieldText(fields[0], true), FieldText(fields[0], false);
    hide FieldsText;
    if |fields| > 1 {
      var rest, rest' := FieldsText(fields[1..], comma, true), FieldsText(fields[1..], comma, false);
      AtConcat(s, i, first, "," + rest);
      AtConcat(s, i + |first|, ",", rest);
      FieldShrinks(fields[0], s, i);
      PlainStays(s, i + |first|, ",");
      FieldsShrink(fields[1..], comma, s, i + |first| + 1);
      BecomesConcat(s, i + |first|, ",", rest, ",", rest');
      BecomesConcat(s, i, first, "," + rest, first', "," + rest');
    } else {
      var end, end' := Behind(comma, "}", true), Behind(comma, "}", false);
      AtConcat(s, i, first, end);
      FieldShrinks(fields[0], s, i);
      BehindShrinks(comma, "}", s, i + |first|);
      BecomesConcat(s, i, first, end, first', end');
    }
  }

  lemma ObjectShrinks(t: Tree, inside: seq<Filler>, fields: seq<Field>, comma: Option<seq<Filler>>,
                      s: string, i: nat)
    requires t == TObject(inside, fields, comma)
    requires Terminated(s) && TreeOk(t) && At(s, i, Text(t, true)) && i + |Text(t, true)| < |s|
    ensures Becomes(s, i, Text(t, true), Text(t, false))
    decreases t, 0
  {
    hide Becomes, At, Terminated, Minify, GapText, GapOk, FieldsText;
    var inner := if fields == [] then GapText(inside, true) + "}" else FieldsText(fields, comma, true);
    var inner' := if fields == [] then GapText(inside, false) + "}" else FieldsText(fields, comma, false);
    AtConcat(s, i, "{", inner);
    PlainStays(s, i, "{");
    if fields == [] {
      EmptyShrinks(inside, "}", s, i + 1);
    } else {
      FieldsShrink(fields, comma, s, i + 1);
    }
    BecomesConcat(s, i, "{", inner, "{", inner');
  }

  /** cJSON_Minify leaves of a document of the grammar exactly its tokens,
      whatever white space and comments stand between them; and the parser takes
      the result for the value of the document. */
  lemma DocumentMinified(mark: bool, before: seq<Filler>, t: Tree, after: seq<Filler>)
    requires TreeOk(t) && GapOk(before) && GapOk(after)
    ensures var text, bare := Document(mark, before, t, after, true), Document(mark, [], t, [], false);
            && NulFree(text) && Terminated(text + [NUL]) && Minify(text + [NUL], 0) == Some(bare)
            && NulFree(bare)
            && ParseDocument(bare, true)
               == if Regular(t) && Nesting(Value(t)) <= 1000 then Some(Value(t)) else None
  {
    hide Minify, Terminated, NulFree, Document, Value, Regular;
    DocumentNulFree(mark, before, t, after, true);
    DocumentReads(mark, [], t, [], false);
    var text := Document(mark, before, t, after, true);
    Ending(text);
    DocumentShrinks(mark, before, t, after, text + [NUL]);
    WholeText(text + [NUL], text, Document(mark, [], t, [], false));
  }

  lemma Ending(text: string)
    requires NulFree(text)
    ensures var s := text + [NUL]; Terminated(s) && At(s, 0, text) && Minify(s, |text|) == Some("")
  {
    var s := text + [NUL];
    assert s[..|s| - 1] == text;
  }

  lemma DocumentShrinks(mark: bool, before: seq<Filler>, t: Tree, after: seq<Filler>, s: string)
    requires TreeOk(t) && GapOk(before) && GapOk(after)
    requires var text := Document(mark, before, t, after, true); Terminated(s) && At(s, 0, text) && |text| < |s|
    ensures Becomes(s, 0, Document(mark, before, t, after, true), Document(mark, [], t, [], false))
  {
    hide Becomes, At, Terminated, GapText, GapOk, Text, ElemText;
    var b := if mark then BOM else "";
    MarkPlain(b);
    AsElem(mark, before, t, after);
    PartsShrink(b, Elem(before, t, after), s);
  }

  lemma AsElem(mark: bool, before: seq<Filler>, t: Tree, after: seq<Filler>)
    requires TreeOk(t) && GapOk(before) && GapOk(after)
    ensures var b, e := if mark then BOM else "", Elem(before, t, after);
            && ElemOk(e)
            && Document(mark, before, t, after, true) == b + ElemText(e, true)
            && Document(mark, [], t, [], false) == b + ElemText(e, false)
  {
  }

  predicate AllPlain(b: string) { forall k :: 0 <= k < |b| ==> Plain(b[k]) }

  lemma PartsShrink(b: string, e: Elem, s: string)
    requires ElemOk(e) && AllPlain(b)
    requires Terminated(s) && At(s, 0, b + ElemText(e, true)) && |b + ElemText(e, true)| < |s|
    ensures Becomes(s, 0, b + ElemText(e, true), b + ElemText(e, false))
  {
    hide Becomes, At, Terminated, ElemText, ElemOk;
    AtConcat(s, 0, b, ElemText(e, true));
    PlainStays(s, 0, b);
    ElemShrinks(e, s, |b|);
    BecomesConcat(s, 0, b, ElemText(e, true), b, ElemText(e, false));
  }

  lemma MarkPlain(b: string)
    requires b == "" || b == BOM
    ensures AllPlain(b)
  {
  }

  lemma WholeText(s: string, text: string, out: string)
    requires s == text + [NUL] && Becomes(s, 0, text, out) && Minify(s, |text|) == Some("")
    ensures Minify(s, 0) == Some(out)
  {
    hide Minify;
    assert out + "" == out;
  }
}
