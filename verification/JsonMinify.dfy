/** cJSON_Minify of test/util/cJSON.c: what it leaves of a text, its rewriting
    in place, and that it turns the formatted print of an item into the
    unformatted one. */
module JsonMinify {
  import opened Common
  import opened JsonStrings
  import opened JsonValues
  import opened JsonRoundTrip

  /** The end of a double-slash comment: the line break, or the end. */
  function LineEnd(s: string, i: nat): (j: nat)
    requires Terminated(s) && i < |s|
    ensures i <= j < |s|
    decreases |s| - i
  {
    if s[i] == NUL || s[i] == '\n' then i else LineEnd(s, i + 1)
  }

  /** The star of the end of a slash-star comment, or the end of the text. */
  function CommentEnd(s: string, i: nat): (j: nat)
    requires Terminated(s) && i < |s|
    ensures i <= j < |s| && (s[j] != NUL ==> s[j] == '*' && j + 2 < |s| && s[j + 1] == '/')
    decreases |s| - i
  {
    if s[i] == NUL || (s[i] == '*' && s[i + 1] == '/') then i else CommentEnd(s, i + 1)
  }

  /** The closing quote of a literal whose contents begin at `i`, with a
      backslash taking the next character along; None if the copy loop would
      run over the end of the text. */
  function QuoteEnd(s: string, i: nat): (e: Option<nat>)
    requires Terminated(s) && i < |s|
    ensures e.Some? ==> i <= e.value < |s| - 1 && s[e.value] == '\"'
    decreases |s| - i
  {
    if s[i] == NUL then None
    else if s[i] == '\"' then Some(i)
    else if s[i] == '\\' then (if s[i + 1] == NUL then None else QuoteEnd(s, i + 2))
    else QuoteEnd(s, i + 1)
  }

  /** What cJSON_Minify writes for the text from `i` on; None where it would
      read behind the end: an unclosed literal or slash-star comment. */
  function Minify(s: string, i: nat): Option<string>
    requires Terminated(s) && i < |s|
    decreases |s| - i
  {
    if s[i] == NUL then Some("")
    else if s[i] == ' ' || s[i] == '\t' || s[i] == '\r' || s[i] == '\n' then Minify(s, i + 1)
    else if s[i] == '/' && s[i + 1] == '/' then Minify(s, LineEnd(s, i + 1))
    else if s[i] == '/' && s[i + 1] == '*' then
      var j := CommentEnd(s, i + 1);
      if s[j] == NUL then None else Minify(s, j + 2)
    else if s[i] == '\"' then
      var e := QuoteEnd(s, i + 1);
      if e.None? then None else Keep(s[i..e.value + 1], Minify(s, e.value + 1))
    else Keep([s[i]], Minify(s, i + 1))
  }

  function Keep(front: string, rest: Option<string>): Option<string> {
    if rest.None? then None else Some(front + rest.value)
  }

  // ---------- which texts it leaves ----------

  /** Where a character of a text stands: between tokens, or inside a literal
      or a comment. */
  datatype Place = Outside | Literal | Line | Block

  /** One pass over the text from `i` on: it does not end inside a literal or a
      slash-star comment. */
  predicate Closed(s: string, i: nat, place: Place)
    requires Terminated(s) && i < |s|
    decreases |s| - i
  {
    if s[i] == NUL then place == Outside || place == Line
    else match place
    case Outside =>
      if s[i] == '\"' then Closed(s, i + 1, Literal)
      else if s[i] == '/' && s[i + 1] == '/' then Closed(s, i + 1, Line)
      else if s[i] == '/' && s[i + 1] == '*' then Closed(s, i + 1, Block)
      else Closed(s, i + 1, Outside)
    case Literal =>
      if s[i] == '\"' then Closed(s, i + 1, Outside)
      else if s[i] == '\\' then s[i + 1] != NUL && Closed(s, i + 2, Literal)
      else Closed(s, i + 1, Literal)
    case Line => Closed(s, i + 1, if s[i] == '\n' then Outside else Line)
    case Block =>
      if s[i] == '*' && s[i + 1] == '/' then Closed(s, i + 2, Outside)
      else Closed(s, i + 1, Block)
  }

  lemma {:induction false} ClosedLine(s: string, i: nat)
    requires Terminated(s) && i < |s|
    ensures Closed(s, i, Line) == Closed(s, LineEnd(s, i), Outside)
    decreases |s| - i
  {
    if s[i] != NUL && s[i] != '\n' { ClosedLine(s, i + 1); }
  }

  lemma {:induction false} ClosedBlock(s: string, i: nat)
    requires Terminated(s) && i < |s|
    ensures var j := CommentEnd(s, i);
            Closed(s, i, Block) == (s[j] != NUL && Closed(s, j + 2, Outside))
    decreases |s| - i
  {
    if s[i] != NUL && !(s[i] == '*' && s[i + 1] == '/') { ClosedBlock(s, i + 1); }
  }

  lemma {:induction false} ClosedLiteral(s: string, i: nat)
    requires Terminated(s) && i < |s|
    ensures var e := QuoteEnd(s, i);
            Closed(s, i, Literal) == (e.Some? && Closed(s, e.value + 1, Outside))
    decreases |s| - i
  {
    if s[i] == '\\' {
      if s[i + 1] != NUL { ClosedLiteral(s, i + 2); }
    } else if s[i] != NUL && s[i] != '\"' {
      ClosedLiteral(s, i + 1);
    }
  }

  /** cJSON_Minify stays inside a text exactly if the text is closed. */
  lemma {:induction false} MinifyClosedIff(s: string, i: nat)
    requires Terminated(s) && i < |s|
    ensures Minify(s, i).Some? <==> Closed(s, i, Outside)
    decreases |s| - i
  {
    if s[i] == NUL {
    } else if s[i] == '/' && s[i + 1] == '/' {
      ClosedLine(s, i + 1);
      MinifyClosedIff(s, LineEnd(s, i + 1));
    } else if s[i] == '/' && s[i + 1] == '*' {
      ClosedBlock(s, i + 1);
      var j := CommentEnd(s, i + 1);
      if s[j] != NUL { MinifyClosedIff(s, j + 2); }
    } else if s[i] == '\"' {
      ClosedLiteral(s, i + 1);
      var e := QuoteEnd(s, i + 1);
      if e.Some? { MinifyClosedIff(s, e.value + 1); }
    } else {
      MinifyClosedIff(s, i + 1);
    }
  }

  // ---------- the formatted print becomes the unformatted one ----------

  /** Minifying from `i` on keeps `out` and goes on behind `text`. */
  ghost predicate Becomes(s: string, i: nat, text: string, out: string) {
    && Terminated(s) && i + |text| < |s|
    && Minify(s, i) == Keep(out, Minify(s, i + |text|))
  }

  lemma BecomesConcat(s: string, i: nat, a: string, b: string, a': string, b': string)
    requires Becomes(s, i, a, a') && Becomes(s, i + |a|, b, b')
    ensures Becomes(s, i, a + b, a' + b')
  {
    hide Minify;
    var rest := Minify(s, i + |a| + |b|);
    assert rest.Some? ==> a' + (b' + rest.value) == (a' + b') + rest.value;
  }

  predicate Blank(c: char) { c == ' ' || c == '\t' || c == '\r' || c == '\n' }

  lemma {:induction false} BlanksVanish(s: string, i: nat, text: string)
    requires Terminated(s) && At(s, i, text) && i + |text| < |s|
    requires forall k :: 0 <= k < |text| ==> Blank(text[k])
    ensures Becomes(s, i, text, "")
    decreases |text|
  {
    if text == "" {
      KeepNothing(Minify(s, i));
    } else {
      AtChar(s, i, text, 0);
      assert text == [text[0]] + text[1..];
      AtConcat(s, i, [text[0]], text[1..]);
      BlanksVanish(s, i + 1, text[1..]);
    }
  }

  lemma KeepNothing(rest: Option<string>)
    ensures Keep("", rest) == rest
  {
    assert rest.Some? ==> "" + rest.value == rest.value;
  }

  /** Characters that mean nothing special to cJSON_Minify. */
  predicate Plain(c: char) { !Blank(c) && c != '/' && c != '\"' && c != NUL }

  lemma {:induction false} PlainStays(s: string, i: nat, text: string)
    requires Terminated(s) && At(s, i, text) && i + |text| < |s|
    requires forall k :: 0 <= k < |text| ==> Plain(text[k])
    ensures Becomes(s, i, text, text)
    decreases |text|
  {
    if text == "" {
      KeepNothing(Minify(s, i));
    } else {
      AtChar(s, i, text, 0);
      assert text == [text[0]] + text[1..];
      AtConcat(s, i, [text[0]], text[1..]);
      PlainStays(s, i + 1, text[1..]);
      var rest := Minify(s, i + |text|);
      assert rest.Some? ==> [text[0]] + (text[1..] + rest.value) == text + rest.value;
    }
  }

  // ---------- literals are kept ----------

  lemma {:induction false} QuotePlain(s: string, i: nat, n: nat)
    requires Terminated(s) && i + n < |s|
    requires forall k :: i <= k < i + n ==> s[k] != '\"' && s[k] != '\\' && s[k] != NUL
    ensures QuoteEnd(s, i) == QuoteEnd(s, i + n)
    decreases n
  {
    if n > 0 { QuotePlain(s, i + 1, n - 1); }
  }

  lemma QuoteOne(s: string, i: nat, c: char)
    requires Terminated(s) && c != NUL && At(s, i, EscapeChar(c)) && i + |EscapeChar(c)| < |s|
    ensures QuoteEnd(s, i) == QuoteEnd(s, i + |EscapeChar(c)|)
  {
    var e := EscapeChar(c);
    EscapeShape(c);
    assert NulFree(e);
    hide EscapeChar, At, Terminated;
    forall k | 0 <= k < |e| ensures s[i + k] == e[k] { AtChar(s, i, e, k); }
    assert s[i] == e[0];
    if |e| > 1 {
      assert s[i + 1] == e[1];
      assert forall k :: i + 2 <= k < i + |e| ==> s[k] == e[k - i];
      QuotePlain(s, i + 2, |e| - 2);
    }
  }

  lemma {:induction false} QuotePrinted(s: string, i: nat, t: string)
    requires Terminated(s) && NulFree(t) && At(s, i, EscapeBody(t) + "\"")
    ensures i < |s| && QuoteEnd(s, i) == Some(i + |EscapeBody(t)|)
    decreases |t|
  {
    hide At, EscapeChar, Terminated;
    AtConcat(s, i, EscapeBody(t), "\"");
    AtChar(s, i + |EscapeBody(t)|, "\"", 0);
    if t != "" {
      var e := EscapeChar(t[0]);
      assert EscapeBody(t) + "\"" == e + (EscapeBody(t[1..]) + "\"");
      AtConcat(s, i, e, EscapeBody(t[1..]) + "\"");
      QuotePrinted(s, i + |e|, t[1..]);
      QuoteOne(s, i, t[0]);
    }
  }

  lemma StringStays(s: string, i: nat, t: string)
    requires Terminated(s) && NulFree(t) && At(s, i, PrintString(t)) && i + |PrintString(t)| < |s|
    ensures Becomes(s, i, PrintString(t), PrintString(t))
  {
    hide EscapeBody;
    assert PrintString(t) == "\"" + (EscapeBody(t) + "\"");
    AtConcat(s, i, "\"", EscapeBody(t) + "\"");
    AtChar(s, i, "\"", 0);
    QuotePrinted(s, i + 1, t);
    assert s[i..i + |PrintString(t)|] == PrintString(t);
  }

  // ---------- items ----------

  lemma {:induction false} MinifyPrinted(v: Json, d: nat, s: string, i: nat)
    requires Terminated(s) && Printable(v)
    requires At(s, i, Print(v, true, d)) && i + |Print(v, true, d)| < |s|
    ensures Becomes(s, i, Print(v, true, d), Print(v, false, d))
    decreases v, 1
  {
    match v
    case Null => PlainStays(s, i, "null");
    case False => PlainStays(s, i, "false");
    case True => PlainStays(s, i, "true");
    case Number(t) => NumberPlain(t); PlainStays(s, i, t);
    case Str(t) => StringStays(s, i, t);
    case Array(items) => MinifyArray(items, d, s, i);
    case Object(members) => MinifyObject(members, d, s, i);
  }

  lemma NumberPlain(t: string)
    requires NumberToken(t)
    ensures forall k :: 0 <= k < |t| ==> Plain(t[k])
  {
  }

  lemma MinifyArray(items: seq<Json>, d: nat, s: string, i: nat)
    requires Terminated(s) && Printable(Array(items))
    requires At(s, i, Print(Array(items), true, d)) && i + |Print(Array(items), true, d)| < |s|
    ensures Becomes(s, i, Print(Array(items), true, d), Print(Array(items), false, d))
    decreases items, 1
  {
    ItemsPrintable(items);
    var body, body' := PrintItems(items, true, d + 1), PrintItems(items, false, d + 1);
    assert Print(Array(items), true, d) == "[" + (body + "]");
    assert Print(Array(items), false, d) == "[" + (body' + "]");
    hide Print, PrintItems, Printable, At, Becomes;
    AtConcat(s, i, "[", body + "]");
    AtConcat(s, i + 1, body, "]");
    PlainStays(s, i, "[");
    MinifyItems(items, d + 1, s, i + 1);
    PlainStays(s, i + 1 + |body|, "]");
    BecomesConcat(s, i + 1, body, "]", body', "]");
    BecomesConcat(s, i, "[", body + "]", "[", body' + "]");
  }

  lemma MinifyItems(items: seq<Json>, d: nat, s: string, i: nat)
    requires Terminated(s) && forall j :: 0 <= j < |items| ==> Printable(items[j])
    requires At(s, i, PrintItems(items, true, d)) && i + |PrintItems(items, true, d)| < |s|
    ensures Becomes(s, i, PrintItems(items, true, d), PrintItems(items, false, d))
    decreases items, 0
  {
    hide Print, PrintItems, Printable, At, Becomes, Terminated;
    if items == [] {
      NoItems(true, d);
      NoItems(false, d);
      BlanksVanish(s, i, "");
    } else {
      ItemsText(items, true, d);
      ItemsText(items, false, d);
      var text, text' := Print(items[0], true, d), Print(items[0], false, d);
      var sep, sep' := Separator(true, |items| == 1), Separator(false, |items| == 1);
      var tail, tail' := PrintItems(items[1..], true, d), PrintItems(items[1..], false, d);
      AtConcat(s, i, text, sep + tail);
      AtConcat(s, i + |text|, sep, tail);
      MinifyPrinted(items[0], d, s, i);
      MinifySeparator(|items| == 1, s, i + |text|);
      MinifyItems(items[1..], d, s, i + |text| + |sep|);
      BecomesConcat(s, i + |text|, sep, tail, sep', tail');
      BecomesConcat(s, i, text, sep + tail, text', sep' + tail');
    }
  }

  lemma MinifySeparator(last: bool, s: string, i: nat)
    requires Terminated(s) && At(s, i, Separator(true, last)) && i + |Separator(true, last)| < |s|
    ensures Becomes(s, i, Separator(true, last), Separator(false, last))
  {
    if last {
      BlanksVanish(s, i, "");
    } else {
      assert ", " == "," + " " && "," == "," + "";
      AtConcat(s, i, ",", " ");
      PlainStays(s, i, ",");
      BlanksVanish(s, i + 1, " ");
      BecomesConcat(s, i, ",", " ", ",", "");
    }
  }

  lemma MinifyObject(members: seq<Member>, d: nat, s: string, i: nat)
    requires Terminated(s) && Printable(Object(members))
    requires At(s, i, Print(Object(members), true, d)) && i + |Print(Object(members), true, d)| < |s|
    ensures Becomes(s, i, Print(Object(members), true, d), Print(Object(members), false, d))
    decreases members, 1
  {
    hide Print, PrintMembers, Printable, At, Becomes, Terminated, Closing;
    MembersPrintable(members);
    ObjectText(members, true, d);
    ObjectText(members, false, d);
    var body, body' := PrintMembers(members, true, d + 1), PrintMembers(members, false, d + 1);
    AtConcat(s, i, "{\n", body + Closing(true, d));
    AtConcat(s, i + 2, body, Closing(true, d));
    MinifyOpening(s, i);
    MinifyMembers(members, d + 1, s, i + 2);
    MinifyClosing(d, s, i + 2 + |body|);
    BecomesConcat(s, i + 2, body, Closing(true, d), body', Closing(false, d));
    BecomesConcat(s, i, "{\n", body + Closing(true, d), "{", body' + Closing(false, d));
  }

  lemma MinifyOpening(s: string, i: nat)
    requires Terminated(s) && At(s, i, "{\n") && i + 2 < |s|
    ensures Becomes(s, i, "{\n", "{")
  {
    assert "{\n" == "{" + "\n" && "{" == "{" + "";
    AtConcat(s, i, "{", "\n");
    PlainStays(s, i, "{");
    BlanksVanish(s, i + 1, "\n");
    BecomesConcat(s, i, "{", "\n", "{", "");
  }

  lemma MinifyClosing(d: nat, s: string, i: nat)
    requires Terminated(s) && At(s, i, Closing(true, d)) && i + |Closing(true, d)| < |s|
    ensures Becomes(s, i, Closing(true, d), Closing(false, d))
  {
    AtConcat(s, i, Tabs(d), "}");
    BlanksVanish(s, i, Tabs(d));
    PlainStays(s, i + d, "}");
    BecomesConcat(s, i, Tabs(d), "}", "", "}");
  }

  lemma MinifyMembers(members: seq<Member>, d: nat, s: string, i: nat)
    requires Terminated(s)
    requires forall j :: 0 <= j < |members| ==> NulFree(members[j].name) && Printable(members[j].value)
    requires At(s, i, PrintMembers(members, true, d)) && i + |PrintMembers(members, true, d)| < |s|
    ensures Becomes(s, i, PrintMembers(members, true, d), PrintMembers(members, false, d))
    decreases members, 0
  {
    if members == [] {
      BlanksVanish(s, i, "");
    } else {
      var m, last := members[0], |members| == 1;
      var text, text' := PrintMember(m, true, d, last), PrintMember(m, false, d, last);
      var tail, tail' := PrintMembers(members[1..], true, d), PrintMembers(members[1..], false, d);
      assert PrintMembers(members, true, d) == text + tail;
      assert PrintMembers(members, false, d) == text' + tail';
      hide PrintMember, PrintMembers, Printable, At, Becomes, Terminated, NulFree;
      AtConcat(s, i, text, tail);
      MinifyMember(m, d, last, s, i);
      MinifyMembers(members[1..], d, s, i + |text|);
      BecomesConcat(s, i, text, tail, text', tail');
    }
  }

  lemma MinifyMember(m: Member, d: nat, last: bool, s: string, i: nat)
    requires Terminated(s) && NulFree(m.name) && Printable(m.value)
    requires At(s, i, PrintMember(m, true, d, last)) && i + |PrintMember(m, true, d, last)| < |s|
    ensures Becomes(s, i, PrintMember(m, true, d, last), PrintMember(m, false, d, last))
    decreases m, 0
  {
    hide Print, PrintString, PrintMember, Printable, At, Becomes, Terminated, NulFree;
    MemberText(m, true, d, last);
    MemberText(m, false, d, last);
    var name, text, text' := PrintString(m.name), Print(m.value, true, d), Print(m.value, false, d);
    var comma := if last then "" else ",";
    var post, post' := comma + "\n", comma + "";
    var a, a' := text + post, text' + post';
    var b, b' := ":\t" + a, ":" + a';
    var c, c' := name + b, name + b';
    AtConcat(s, i, Tabs(d), c);
    var j := i + d;
    AtConcat(s, j, name, b);
    AtConcat(s, j + |name|, ":\t", a);
    AtConcat(s, j + |name| + 2, text, post);
    BlanksVanish(s, i, Tabs(d));
    StringStays(s, j, m.name);
    MinifyColon(s, j + |name|);
    MinifyPrinted(m.value, d, s, j + |name| + 2);
    MinifyPost(comma, s, j + |name| + 2 + |text|);
    BecomesConcat(s, j + |name| + 2, text, post, text', post');
    BecomesConcat(s, j + |name|, ":\t", a, ":", a');
    BecomesConcat(s, j, name, b, name, b');
    BecomesConcat(s, i, Tabs(d), c, "", c');
    assert "" + c' == PrintMember(m, false, d, last);
  }

  lemma MinifyColon(s: string, i: nat)
    requires Terminated(s) && At(s, i, ":\t") && i + 2 < |s|
    ensures Becomes(s, i, ":\t", ":")
  {
    assert ":\t" == ":" + "\t" && ":" == ":" + "";
    AtConcat(s, i, ":", "\t");
    PlainStays(s, i, ":");
    BlanksVanish(s, i + 1, "\t");
    BecomesConcat(s, i, ":", "\t", ":", "");
  }

  lemma MinifyPost(comma: string, s: string, i: nat)
    requires Terminated(s) && At(s, i, comma + "\n") && i + |comma| + 1 < |s|
    requires comma == "" || comma == ","
    ensures Becomes(s, i, comma + "\n", comma + "")
  {
    AtConcat(s, i, comma, "\n");
    PlainStays(s, i, comma);
    BlanksVanish(s, i + |comma|, "\n");
    BecomesConcat(s, i, comma, "\n", comma, "");
  }

  /** cJSON_Minify applied to what the formatted printer writes leaves, byte for
      byte, what the unformatted printer writes. */
  lemma MinifyFormatted(v: Json)
    requires Printable(v)
    ensures NulFree(Print(v, true, 0)) && Terminated(Print(v, true, 0) + [NUL])
    ensures Minify(Print(v, true, 0) + [NUL], 0) == Some(Print(v, false, 0))
  {
    hide Print, Printable;
    PrintNulFree(v, true, 0);
    var t := Print(v, true, 0);
    var s := t + [NUL];
    assert s[..|s| - 1] == t && At(s, 0, t);
    MinifyPrinted(v, 0, s, 0);
    assert Minify(s, |t|) == Some("");
    assert Print(v, false, 0) + "" == Print(v, false, 0);
  }

  // ---------- in place ----------

  /** The state between two steps: `into` characters are final, and the text
      from `from` on has not been touched. */
  ghost predicate Between(json: array<char>, s: string, into: nat, from: nat)
    reads json
  {
    && Terminated(s) && json.Length == |s| && into <= from < |s|
    && json[from..] == s[from..]
    && Minify(s, 0) == Keep(json[..into], Minify(s, from))
  }

  lemma KeepKeep(a: string, b: string, rest: Option<string>)
    ensures Keep(a, Keep(b, rest)) == Keep(a + b, rest)
  {
    assert rest.Some? ==> a + (b + rest.value) == (a + b) + rest.value;
  }

  /** cJSON_Minify.  The walk stops where the next read is behind the
      terminating NUL, which happens exactly for an unclosed text. */
  method MinifyInPlace(json: array<char>) returns (inside: bool)
    requires Terminated(json[..])
    modifies json
    ensures inside <==> Closed(old(json[..]), 0, Outside)
    ensures inside ==>
              var r := Minify(old(json[..]), 0);
              r.Some? && |r.value| < json.Length && json[..|r.value|] == r.value && json[|r.value|] == NUL
  {
    ghost var s := json[..];
    var i: nat, into: nat := 0, 0;
    KeepNothing(Minify(s, 0));
    MinifyClosedIff(s, 0);
    assert Between(json, s, into, i);
    hide Minify, Between, Terminated, Keep, Closed;
    while i < json.Length && json[i] != NUL
      invariant Reached(json, s, into, i)
      decreases |s| - i
    {
      BetweenBounds(json, s, into, i);
      if json[i] == ' ' {
        BlankStep(json, s, into, i);
        i := i + 1;
      } else if json[i] == '\t' {
        BlankStep(json, s, into, i);
        i := i + 1;
      } else if json[i] == '\r' {
        BlankStep(json, s, into, i);
        i := i + 1;
      } else if json[i] == '\n' {
        BlankStep(json, s, into, i);
        i := i + 1;
      } else if json[i] == '/' && json[i + 1] == '/' {
        i := SkipLine(json, s, into, i);
      } else if json[i] == '/' && json[i + 1] == '*' {
        i := SkipComment(json, s, into, i);
      } else if json[i] == '\"' {
        i, into := CopyLiteral(json, s, i, into);
      } else {
        CopyOne(json, s, i, into);
        i, into := i + 1, into + 1;
      }
    }
    inside := i < json.Length;
    if inside {
      Finished(json, s, into, i);
      ghost var r := json[..into];
      json[into] := NUL;
      assert json[..into] == r;
    }
  }

  /** After a step: still inside the text, or behind the end of an unclosed one. */
  ghost predicate Reached(json: array<char>, s: string, into: nat, i: nat)
    reads json
  {
    && Terminated(s) && json.Length == |s|
    && if i < |s| then Between(json, s, into, i) else Minify(s, 0).None?
  }

  lemma BetweenBounds(json: array<char>, s: string, into: nat, i: nat)
    requires Between(json, s, into, i)
    ensures into <= i < json.Length == |s| && Terminated(s)
    ensures json[i] == s[i] && (json[i] != NUL ==> i + 1 < |s| && json[i + 1] == s[i + 1])
    ensures Minify(s, 0).Some? <==> Minify(s, i).Some?
  {
    Readable(json, s, i);
  }

  lemma BlankStep(json: array<char>, s: string, into: nat, i: nat)
    requires Between(json, s, into, i) && Blank(s[i])
    ensures Between(json, s, into, i + 1)
  {
    assert json[i + 1..] == json[i..][1..];
  }

  lemma Finished(json: array<char>, s: string, into: nat, i: nat)
    requires Between(json, s, into, i) && s[i] == NUL
    ensures into < json.Length && Minify(s, 0) == Some(json[..into])
  {
    assert json[..into] + "" == json[..into];
  }

  /** Moving on in the text without writing. */
  lemma Moved(json: array<char>, s: string, into: nat, i: nat, j: nat)
    requires Between(json, s, into, i) && i <= j < |s| && Minify(s, j) == Minify(s, i)
    ensures Between(json, s, into, j)
  {
    assert json[j..] == json[i..][j - i..];
    assert s[j..] == s[i..][j - i..];
  }

  /** Skip a double-slash comment, up to the line break. */
  method SkipLine(json: array<char>, ghost s: string, ghost into: nat, start: nat) returns (i: nat)
    requires Between(json, s, into, start)
    requires start + 1 < |s| && s[start] == '/' && s[start + 1] == '/'
    ensures start < i < |s| && Between(json, s, into, i)
  {
    i := start;
    while json[i] != NUL && json[i] != '\n'
      invariant start <= i < |s|
      invariant if i == start then true else LineEnd(s, start + 1) == LineEnd(s, i)
      decreases |s| - i
    {
      assert json[i] == json[start..][i - start];
      i := i + 1;
    }
    assert json[i] == json[start..][i - start];
    assert i > start;
    Moved(json, s, into, start, i);
  }

  /** Skip a slash-star comment, up to behind its end; an unclosed one leads
      behind the text. */
  method SkipComment(json: array<char>, ghost s: string, ghost into: nat, start: nat) returns (i: nat)
    requires Between(json, s, into, start)
    requires start + 1 < |s| && s[start] == '/' && s[start + 1] == '*'
    ensures start < i && Reached(json, s, into, i)
  {
    i := start;
    while json[i] != NUL && !(json[i] == '*' && json[i + 1] == '/')
      invariant start <= i < |s|
      invariant if i == start then true else CommentEnd(s, start + 1) == CommentEnd(s, i)
      decreases |s| - i
    {
      assert json[i] == json[start..][i - start] && json[i + 1] == json[start..][i + 1 - start];
      i := i + 1;
    }
    assert json[i] == json[start..][i - start];
    assert i > start;
    i := i + 2;
    if i < |s| { Moved(json, s, into, start, i); }
  }

  /** The character and the next one are still those of the original text. */
  lemma Readable(json: array<char>, s: string, i: nat)
    requires Terminated(s) && json.Length == |s| && i < |s| && json[i..] == s[i..]
    ensures json[i] == s[i] && (json[i] != NUL ==> i + 1 < |s| && json[i + 1] == s[i + 1])
  {
    assert json[i] == json[i..][0];
    if json[i] != NUL {
      assert json[i + 1] == json[i..][1];
    }
  }

  /** `done` is final, and the text from `start` up to `from` has been copied
      behind it. */
  ghost predicate Copied(json: array<char>, s: string, done: string, start: nat, from: nat, into: nat)
    reads json
  {
    && json.Length == |s| && into <= from <= |s| && start <= from
    && json[from..] == s[from..] && json[..into] == done + s[start..from]
  }

  /** One `*into++ = *json++`. */
  method Copy(json: array<char>, ghost s: string, ghost done: string, ghost start: nat, i: nat, into: nat)
    requires Copied(json, s, done, start, i, into) && i < |s|
    modifies json
    ensures Copied(json, s, done, start, i + 1, into + 1)
  {
    assert json[i] == json[i..][0];
    ghost var before := json[..into];
    json[into] := json[i];
    assert s[start..i + 1] == s[start..i] + [s[i]];
    assert json[..into + 1] == before + [s[i]];
    assert json[i + 1..] == s[i..][1..];
  }

  lemma MinifyLiteral(s: string, start: nat)
    requires Terminated(s) && start < |s| && s[start] == '\"'
    ensures start + 1 < |s|
    ensures var e := QuoteEnd(s, start + 1);
            Minify(s, start) == if e.None? then None
                                else Keep(s[start..e.value + 1], Minify(s, e.value + 1))
  {
  }

  /** One turn of the loop over the contents of a literal: a character, or a
      backslash and the character behind it. */
  method CopyTurn(json: array<char>, ghost s: string, ghost done: string, ghost start: nat, i0: nat, into0: nat)
    returns (i: nat, into: nat)
    requires Copied(json, s, done, start, i0, into0) && Terminated(s)
    requires i0 < json.Length && json[i0] != NUL && json[i0] != '\"'
    modifies json
    ensures i0 < i && Copied(json, s, done, start, i, into)
    ensures QuoteEnd(s, i0) == if i < |s| then QuoteEnd(s, i) else None
  {
    hide QuoteEnd, Copied, Terminated;
    i, into := i0, into0;
    CopiedBounds(json, s, done, start, i, into);
    QuoteStep(s, i);
    if json[i] == '\\' {
      Copy(json, s, done, start, i, into);
      i, into := i + 1, into + 1;
    }
    CopiedBounds(json, s, done, start, i, into);
    Copy(json, s, done, start, i, into);
    i, into := i + 1, into + 1;
    CopiedBounds(json, s, done, start, i, into);
  }

  /** The literal whose opening quote stands at `start`, backslash pairs and all;
      an unclosed one leads behind the text. */
  method CopyLiteral(json: array<char>, ghost s: string, start: nat, begin: nat)
    returns (i: nat, into: nat)
    requires Between(json, s, begin, start) && s[start] == '\"'
    modifies json
    ensures i > start && Reached(json, s, into, i)
  {
    hide Minify, Keep, Between, Copied, QuoteEnd, Terminated;
    LiteralStart(json, s, start, begin);
    ghost var done := json[..begin];
    ghost var end := QuoteEnd(s, start + 1);
    i, into := start, begin;
    Copy(json, s, done, start, i, into);
    i, into := i + 1, into + 1;
    CopiedBounds(json, s, done, start, i, into);
    while i < json.Length && json[i] != NUL && json[i] != '\"'
      invariant start < i && Copied(json, s, done, start, i, into)
      invariant end == if i < |s| then QuoteEnd(s, i) else None
      decreases |s| - i
    {
      i, into := CopyTurn(json, s, done, start, i, into);
    }
    CopiedBounds(json, s, done, start, i, into);
    if i < json.Length {
      QuoteStep(s, i);
      Copy(json, s, done, start, i, into);
      i, into := i + 1, into + 1;
    }
    LiteralDone(json, s, done, start, i, into, end);
  }

  lemma LiteralStart(json: array<char>, s: string, start: nat, begin: nat)
    requires Between(json, s, begin, start) && s[start] == '\"'
    ensures begin <= start && Terminated(s) && Copied(json, s, json[..begin], start, start, begin)
    ensures Minify(s, 0) == Keep(json[..begin], Minify(s, start))
    ensures start + 1 < |s| == json.Length
    ensures var e := QuoteEnd(s, start + 1);
            Minify(s, start) == if e.None? then None
                                else Keep(s[start..e.value + 1], Minify(s, e.value + 1))
  {
    MinifyLiteral(s, start);
    assert json[..begin] + s[start..start] == json[..begin];
  }

  lemma CopiedBounds(json: array<char>, s: string, done: string, start: nat, i: nat, into: nat)
    requires Copied(json, s, done, start, i, into)
    ensures json.Length == |s| && into <= i <= |s|
    ensures i < |s| ==> json[i] == s[i]
  {
    assert i < |s| ==> json[i] == json[i..][0];
  }

  /** One turn of the loop over the contents of a literal. */
  lemma QuoteStep(s: string, i: nat)
    requires Terminated(s) && i < |s|
    ensures s[i] == NUL <==> i + 1 == |s|
    ensures if s[i] == NUL then QuoteEnd(s, i) == None
            else if s[i] == '\"' then QuoteEnd(s, i) == Some(i)
            else if s[i] != '\\' then QuoteEnd(s, i) == QuoteEnd(s, i + 1)
            else QuoteEnd(s, i) == if i + 2 < |s| then QuoteEnd(s, i + 2) else None
  {
  }

  lemma LiteralDone(
    json: array<char>, s: string, done: string, start: nat, i: nat, into: nat, end: Option<nat>)
    requires Terminated(s) && Copied(json, s, done, start, i, into) && start < |s|
    requires Minify(s, 0) == Keep(done, Minify(s, start))
    requires end.Some? ==> end.value + 1 == i < |s| && Minify(s, start) == Keep(s[start..i], Minify(s, i))
    requires end.None? ==> i == |s| && Minify(s, start) == None
    ensures Reached(json, s, into, i)
  {
    if end.Some? {
      KeepKeep(done, s[start..i], Minify(s, i));
    }
  }

  method CopyOne(json: array<char>, ghost s: string, i: nat, into: nat)
    requires Between(json, s, into, i) && !Blank(s[i]) && s[i] != NUL && s[i] != '\"'
    requires i + 1 < |s| && !(s[i] == '/' && (s[i + 1] == '/' || s[i + 1] == '*'))
    modifies json
    ensures Between(json, s, into + 1, i + 1)
  {
    ghost var done := json[..into];
    assert json[i] == s[i];
    json[into] := json[i];
    assert json[..into + 1] == done + [s[i]];
    KeepKeep(done, [s[i]], Minify(s, i + 1));
  }
}
