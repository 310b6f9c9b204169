/** How the formatted printer of test/util/cJSON.c lays an item out: its output is
    that of a formatter which reads the unformatted text once, from left to right,
    and knows nothing but the brackets that are open. */
module JsonLayout {
  import opened Common
  import opened JsonStrings
  import opened JsonValues
  import opened JsonRoundTrip

  /** Without the last character */
  function Pop(open: string): (r: string)
    ensures open != "" ==> open == r + [open[|open| - 1]]
  {
    if open == "" then "" else open[..|open| - 1]
  }

  /** The rest of the text, formatted.  A member begins a line, with a tab for
      each open bracket; a brace that closes one stands on a line of its own; a
      colon is followed by a tab, a comma in an array by a space. */
  function Format(c: string, i: nat, open: string): string
    requires i <= |c|
    decreases |c| - i
  {
    if i == |c| then ""
    else if c[i] == '\"' then
      var e := ScanString(c, i + 1);
      if e.None? then c[i..] else c[i..e.value + 1] + Format(c, e.value + 1, open)
    else if c[i] == '[' then "[" + Format(c, i + 1, open + "[")
    else if c[i] == ']' then "]" + Format(c, i + 1, Pop(open))
    else if c[i] == '{' then
      (if i + 1 < |c| && c[i + 1] == '}' then "{\n" else "{\n" + Tabs(|open| + 1)) + Format(c, i + 1, open + "{")
    else if c[i] == '}' then
      (if i > 0 && c[i - 1] == '{' then "" else "\n") + Tabs(|Pop(open)|) + "}" + Format(c, i + 1, Pop(open))
    else if c[i] == ',' then
      (if open != "" && open[|open| - 1] == '{' then ",\n" + Tabs(|open|) else ", ") + Format(c, i + 1, open)
    else if c[i] == ':' then ":\t" + Format(c, i + 1, open)
    else [c[i]] + Format(c, i + 1, open)
  }

  /** From `i` on the text is formatted as `out`, and then goes on. */
  ghost predicate Lays(c: string, i: nat, open: string, text: string, open': string, out: string) {
    i + |text| <= |c| && Format(c, i, open) == out + Format(c, i + |text|, open')
  }

  lemma LaysConcat(c: string, i: nat, o: string, a: string, o': string, x: string, b: string, o'': string, y: string)
    requires Lays(c, i, o, a, o', x) && Lays(c, i + |a|, o', b, o'', y)
    ensures Lays(c, i, o, a + b, o'', x + y)
  {
    hide Format;
    var rest := Format(c, i + |a| + |b|, o'');
    assert x + (y + rest) == (x + y) + rest;
  }

  lemma ThreeLay(c: string, i: nat, o: string, a: string, o': string, x: string,
                 b: string, o'': string, y: string, e: string, o3: string, z: string)
    requires Lays(c, i, o, a, o', x) && Lays(c, i + |a|, o', b, o'', y) && Lays(c, i + |a| + |b|, o'', e, o3, z)
    ensures Lays(c, i, o, a + (b + e), o3, x + (y + z))
  {
    hide Lays;
    LaysConcat(c, i + |a|, o', b, o'', y, e, o3, z);
    LaysConcat(c, i, o, a, o', x, b + e, o3, y + z);
  }

  predicate Ordinary(ch: char) { ch !in "\"[]{},:" }

  lemma {:induction false} OrdinaryLays(c: string, i: nat, open: string, text: string)
    requires At(c, i, text) && forall k :: 0 <= k < |text| ==> Ordinary(text[k])
    ensures Lays(c, i, open, text, open, text)
    decreases |text|
  {
    if text != "" {
      AtChar(c, i, text, 0);
      assert text == [text[0]] + text[1..];
      AtConcat(c, i, [text[0]], text[1..]);
      OrdinaryLays(c, i + 1, open, text[1..]);
      assert Ordinary(text[0]);
      assert Lays(c, i, open, [text[0]], open, [text[0]]);
      LaysConcat(c, i, open, [text[0]], open, [text[0]], text[1..], open, text[1..]);
    }
  }

  lemma StringLays(c: string, i: nat, open: string, t: string)
    requires At(c, i, PrintString(t))
    ensures Lays(c, i, open, PrintString(t), open, PrintString(t))
  {
    hide EscapeBody, At, ScanString;
    assert PrintString(t) == "\"" + (EscapeBody(t) + "\"");
    AtConcat(c, i, "\"", EscapeBody(t) + "\"");
    AtChar(c, i, "\"", 0);
    ScanPrinted(c, i + 1, t);
    Standing(c, i, PrintString(t));
  }

  lemma Standing(c: string, i: nat, text: string)
    requires At(c, i, text)
    ensures c[i..i + |text|] == text
  {
  }

  lemma TokenLays(c: string, i: nat, open: string, token: char)
    requires i < |c| && c[i] == token
    ensures token == '[' ==> Lays(c, i, open, "[", open + "[", "[")
    ensures token == ']' ==> Lays(c, i, open, "]", Pop(open), "]")
    ensures token == ':' ==> Lays(c, i, open, ":", open, ":\t")
    ensures token == ',' && open != "" ==>
              Lays(c, i, open, ",", open, if open[|open| - 1] == '{' then ",\n" + Tabs(|open|) else ", ")
    ensures token == '{' && i + 1 < |c| ==>
              Lays(c, i, open, "{", open + "{", if c[i + 1] == '}' then "{\n" else "{\n" + Tabs(|open| + 1))
    ensures token == '}' && i > 0 ==>
              Lays(c, i, open, "}", Pop(open), (if c[i - 1] == '{' then "" else "\n") + Tabs(|Pop(open)|) + "}")
  {
  }

  lemma PopPushed(open: string, ch: char)
    ensures Pop(open + [ch]) == open && |open + [ch]| == |open| + 1 && (open + [ch])[|open|] == ch
  {
  }

  // ---------- items ----------

  /** What is printed does not end in an opening brace. */
  lemma LastChar(v: Json, d: nat)
    requires Printable(v)
    ensures var t := Print(v, false, d); t != "" && t[|t| - 1] != '{'
  {
  }

  lemma {:induction false} ItemLays(v: Json, open: string, c: string, i: nat)
    requires Printable(v) && At(c, i, Print(v, false, |open|))
    ensures Lays(c, i, open, Print(v, false, |open|), open, Print(v, true, |open|))
    decreases v, 3
  {
    match v
    case Null => OrdinaryLays(c, i, open, "null");
    case False => OrdinaryLays(c, i, open, "false");
    case True => OrdinaryLays(c, i, open, "true");
    case Number(t) => NumberOrdinary(t); OrdinaryLays(c, i, open, t);
    case Str(t) => StringLays(c, i, open, t);
    case Array(items) => ArrayLays(items, open, c, i);
    case Object(members) => ObjectLays(members, open, c, i);
  }

  lemma NumberOrdinary(t: string)
    requires NumberToken(t)
    ensures forall k :: 0 <= k < |t| ==> Ordinary(t[k])
  {
  }

  lemma ArrayLays(items: seq<Json>, open: string, c: string, i: nat)
    requires Printable(Array(items)) && At(c, i, Print(Array(items), false, |open|))
    ensures Lays(c, i, open, Print(Array(items), false, |open|), open, Print(Array(items), true, |open|))
    decreases items, 1
  {
    hide Print, PrintItems, Printable, At, Lays, Pop;
    ItemsPrintable(items);
    PopPushed(open, '[');
    var d, inner := |open|, open + "[";
    ArrayTexts(items, d);
    var body, body' := PrintItems(items, false, d + 1), PrintItems(items, true, d + 1);
    AtConcat(c, i, "[", body + "]");
    AtConcat(c, i + 1, body, "]");
    AtChar(c, i, "[", 0);
    AtChar(c, i + 1 + |body|, "]", 0);
    TokenLays(c, i, open, '[');
    ItemsLay(items, inner, c, i + 1);
    TokenLays(c, i + 1 + |body|, inner, ']');
    LaysConcat(c, i + 1, inner, body, inner, body', "]", open, "]");
    LaysConcat(c, i, open, "[", inner, "[", body + "]", open, body' + "]");
  }

  lemma ArrayTexts(items: seq<Json>, d: nat)
    ensures Print(Array(items), false, d) == "[" + (PrintItems(items, false, d + 1) + "]")
    ensures Print(Array(items), true, d) == "[" + (PrintItems(items, true, d + 1) + "]")
  {
    hide PrintItems;
    Together("[", PrintItems(items, false, d + 1), "]");
    Together("[", PrintItems(items, true, d + 1), "]");
  }

  lemma ItemsLay(items: seq<Json>, open: string, c: string, i: nat)
    requires open != "" && open[|open| - 1] == '[' && forall j :: 0 <= j < |items| ==> Printable(items[j])
    requires At(c, i, PrintItems(items, false, |open|))
    ensures Lays(c, i, open, PrintItems(items, false, |open|), open, PrintItems(items, true, |open|))
    decreases items, 0
  {
    hide Print, PrintItems, Printable, At, Lays, Separator;
    var d := |open|;
    if items == [] {
      NoItems(false, d);
      NoItems(true, d);
      OrdinaryLays(c, i, open, "");
    } else {
      ItemsText(items, false, d);
      ItemsText(items, true, d);
      var text, text' := Print(items[0], false, d), Print(items[0], true, d);
      var sep, sep' := Separator(false, |items| == 1), Separator(true, |items| == 1);
      var tail, tail' := PrintItems(items[1..], false, d), PrintItems(items[1..], true, d);
      AtConcat(c, i, text, sep + tail);
      AtConcat(c, i + |text|, sep, tail);
      ItemLays(items[0], open, c, i);
      SeparatorLays(|items| == 1, open, c, i + |text|);
      ItemsLay(items[1..], open, c, i + |text| + |sep|);
      ThreeLay(c, i, open, text, open, text', sep, open, sep', tail, open, tail');
    }
  }

  lemma SeparatorLays(last: bool, open: string, c: string, i: nat)
    requires open != "" && open[|open| - 1] == '[' && At(c, i, Separator(false, last))
    ensures Lays(c, i, open, Separator(false, last), open, Separator(true, last))
  {
    if last {
      OrdinaryLays(c, i, open, "");
    } else {
      AtChar(c, i, ",", 0);
      TokenLays(c, i, open, ',');
    }
  }

  // ---------- objects ----------

  lemma ObjectLays(members: seq<Member>, open: string, c: string, i: nat)
    requires Printable(Object(members)) && At(c, i, Print(Object(members), false, |open|))
    ensures Lays(c, i, open, Print(Object(members), false, |open|), open, Print(Object(members), true, |open|))
    decreases members, 2
  {
    hide Print, PrintMembers, Printable, At, Lays;
    MembersPrintable(members);
    if members == [] {
      ObjectTexts(members, |open|);
      NoMembers(|open| + 1);
      assert "{" + ("" + "}") == "{" + "}";
      EmptyLays(open, c, i);
      EmptyLaid(|open|);
    } else {
      FullLays(members, open, c, i);
    }
  }

  lemma ObjectTexts(members: seq<Member>, d: nat)
    ensures Print(Object(members), false, d) == "{" + (PrintMembers(members, false, d + 1) + "}")
    ensures Print(Object(members), true, d) == "{\n" + (PrintMembers(members, true, d + 1) + Closing(true, d))
  {
    ObjectText(members, false, d);
    ObjectText(members, true, d);
    hide Print, PrintMembers;
    assert Closing(false, d) == "}";
  }

  lemma EmptyLays(open: string, c: string, i: nat)
    requires At(c, i, "{" + "}")
    ensures Lays(c, i, open, "{" + "}", open, "{\n" + ("" + Tabs(|open|) + "}"))
  {
    hide Lays, At, Pop;
    PopPushed(open, '{');
    AtConcat(c, i, "{", "}");
    AtChar(c, i, "{", 0);
    AtChar(c, i + 1, "}", 0);
    TokenLays(c, i, open, '{');
    TokenLays(c, i + 1, open + "{", '}');
    LaysConcat(c, i, open, "{", open + "{", "{\n", "}", open, "" + Tabs(|open|) + "}");
  }

  lemma FullLays(members: seq<Member>, open: string, c: string, i: nat)
    requires members != [] && forall j :: 0 <= j < |members| ==> NulFree(members[j].name) && Printable(members[j].value)
    requires At(c, i, Print(Object(members), false, |open|))
    ensures Lays(c, i, open, Print(Object(members), false, |open|), open, Print(Object(members), true, |open|))
    decreases members, 1, 1
  {
    hide Print, PrintMembers, Printable, At, Lays, NulFree, Closing, Lined, FirstLine, LastLine;
    hide Braced;
    var body := PrintMembers(members, false, |open| + 1);
    CompactBraced(members, |open|);
    BodyPlace(c, i, body);
    var out := InnerLay(members, open, c, i + 1);
    FullLaid(members, |open|, out);
    Enclosed(open, body, out, c, i);
  }

  function Braced(first: string, body: string, last: string): string { first + (body + last) }

  lemma CompactBraced(members: seq<Member>, d: nat)
    ensures Print(Object(members), false, d) == Braced("{", PrintMembers(members, false, d + 1), "}")
  {
    hide Print, PrintMembers;
    ObjectTexts(members, d);
  }

  lemma InnerLay(members: seq<Member>, open: string, c: string, i: nat) returns (out: string)
    requires members != [] && forall j :: 0 <= j < |members| ==> NulFree(members[j].name) && Printable(members[j].value)
    requires At(c, i, PrintMembers(members, false, |open| + 1))
    ensures var t := PrintMembers(members, false, |open| + 1);
            && Lays(c, i, open + "{", t, open + "{", out) && Lined(members, |open| + 1, out)
            && t != "" && t[0] == '\"' && t[|t| - 1] != '{'
    decreases members, 1, 0
  {
    hide Print, PrintMembers, Printable, At, Lays, NulFree, Lined;
    Pushed(open);
    out := MembersLay(members, open + "{", c, i);
  }

  lemma BodyPlace(c: string, i: nat, body: string)
    requires At(c, i, Braced("{", body, "}"))
    ensures At(c, i, "{") && At(c, i + 1, body) && At(c, i + 1 + |body|, "}")
  {
    hide At;
    AtConcat(c, i, "{", body + "}");
    AtConcat(c, i + 1, body, "}");
  }

  lemma Pushed(open: string)
    ensures var inner := open + "{"; inner != "" && inner[|inner| - 1] == '{' && |inner| == |open| + 1
  {
  }

  lemma Enclosed(open: string, body: string, out: string, c: string, i: nat)
    requires At(c, i, "{") && At(c, i + 1, body) && At(c, i + 1 + |body|, "}")
    requires body != "" && body[0] == '\"' && body[|body| - 1] != '{'
    requires Lays(c, i + 1, open + "{", body, open + "{", out)
    ensures Lays(c, i, open, Braced("{", body, "}"), open, Braced(FirstLine(|open|), out, LastLine(|open|)))
  {
    hide At, Lays, FirstLine, LastLine;
    BracesLay(open, body, c, i);
    ThreeLay(c, i, open, "{", open + "{", FirstLine(|open|), body, open + "{", out, "}", open, LastLine(|open|));
  }

  /** The lines of an object's braces, at nesting depth d. */
  function FirstLine(d: nat): string { "{\n" + Tabs(d + 1) }

  function LastLine(d: nat): string { "\n" + Tabs(d) + "}" }

  lemma BracesLay(open: string, body: string, c: string, i: nat)
    requires At(c, i, "{") && At(c, i + 1, body) && At(c, i + 1 + |body|, "}")
    requires body != "" && body[0] == '\"' && body[|body| - 1] != '{'
    ensures Lays(c, i, open, "{", open + "{", FirstLine(|open|))
    ensures Lays(c, i + 1 + |body|, open + "{", "}", open, LastLine(|open|))
  {
    hide Lays, At, Pop;
    PopPushed(open, '{');
    AtChar(c, i, "{", 0);
    AtChar(c, i + 1 + |body|, "}", 0);
    AtChar(c, i + 1, body, 0);
    AtChar(c, i + 1, body, |body| - 1);
    TokenLays(c, i, open, '{');
    TokenLays(c, i + 1 + |body|, open + "{", '}');
  }

  lemma NoMembers(d: nat)
    ensures PrintMembers([], false, d) == "" && PrintMembers([], true, d) == ""
  {
  }

  lemma EmptyLaid(d: nat)
    ensures "{\n" + ("" + Tabs(d) + "}") == "{\n" + ("" + Closing(true, d))
  {
  }

  /** `out` is the formatted members without the tabs of the first line and the
      end of the last. */
  ghost predicate Lined(members: seq<Member>, d: nat, out: string) {
    Tabs(d) + out + "\n" == PrintMembers(members, true, d)
  }

  lemma FullLaid(members: seq<Member>, d: nat, out: string)
    requires Lined(members, d + 1, out)
    ensures Braced(FirstLine(d), out, LastLine(d)) == Print(Object(members), true, d)
  {
    hide Print, PrintMembers;
    ObjectTexts(members, d);
    var a, b, z := "{\n", Tabs(d + 1), Tabs(d) + "}";
    assert "\n" + Tabs(d) + "}" == "\n" + z;
    assert a + b + (out + ("\n" + z)) == a + ((b + out + "\n") + z);
  }

  /** The members, from the first name to the last value. */
  lemma MembersLay(members: seq<Member>, open: string, c: string, i: nat) returns (out: string)
    requires members != [] && forall j :: 0 <= j < |members| ==> NulFree(members[j].name) && Printable(members[j].value)
    requires open != "" && open[|open| - 1] == '{' && At(c, i, PrintMembers(members, false, |open|))
    ensures Lays(c, i, open, PrintMembers(members, false, |open|), open, out)
    ensures Lined(members, |open|, out)
    ensures var t := PrintMembers(members, false, |open|); t != "" && t[0] == '\"' && t[|t| - 1] != '{'
    decreases members, 0
  {
    hide Print, PrintString, PrintMember, Printable, At, Lays, NulFree;
    var d, m, last := |open|, members[0], |members| == 1;
    MemberTexts(members, d);
    var name, val, val' := PrintString(m.name), Print(m.value, false, d), Print(m.value, true, d);
    StringStart(m.name);
    LastChar(m.value, d);
    if last {
      MemberLays(m, open, "", c, i);
      LaysNothing(c, i + |name + (":" + val)|, open);
      out := name + (":\t" + val');
      LaysConcat(c, i, open, name + (":" + val), open, out, "", open, "");
      LastText(name, val, val', d);
    } else {
      hide PrintMembers;
      var tail := PrintMembers(members[1..], false, d);
      MemberLays(m, open, "," + tail, c, i);
      var k := i + |name + (":" + val)|;
      AtConcat(c, k, ",", tail);
      AtChar(c, k, ",", 0);
      TokenLays(c, k, open, ',');
      var rest := MembersLay(members[1..], open, c, k + 1);
      LaysConcat(c, k, open, ",", open, ",\n" + Tabs(d), tail, open, rest);
      LaysConcat(c, i, open, name + (":" + val), open, name + (":\t" + val'), "," + tail, open, ",\n" + Tabs(d) + rest);
      out := name + (":\t" + val') + (",\n" + Tabs(d) + rest);
      MoreText(name, val, val', d, tail, rest, PrintMembers(members[1..], true, d));
    }
  }

  lemma LaysNothing(c: string, i: nat, open: string)
    requires i <= |c|
    ensures Lays(c, i, open, "", open, "")
  {
  }

  lemma MemberTexts(members: seq<Member>, d: nat)
    requires members != []
    ensures var m := members[0];
            var name, val, val' := PrintString(m.name), Print(m.value, false, d), Print(m.value, true, d);
            && PrintMembers(members, false, d) ==
                 name + (":" + val) + (if |members| == 1 then "" else "," + PrintMembers(members[1..], false, d))
            && PrintMembers(members, true, d) ==
                 Tabs(d) + (name + (":\t" + (val' + (if |members| == 1 then "\n" else ",\n"))))
                 + PrintMembers(members[1..], true, d)
            && (|members| == 1 ==> PrintMembers(members[1..], true, d) == "")
  {
    hide Print, PrintString, PrintMember;
    var m, last := members[0], |members| == 1;
    MemberCompact(m, d, last);
    MemberFormatted(m, d, last);
    var front, tail := PrintString(m.name) + (":" + Print(m.value, false, d)), PrintMembers(members[1..], false, d);
    Together(front, if last then "" else ",", tail);
    assert last ==> "" + tail == "";
  }

  lemma MemberCompact(m: Member, d: nat, last: bool)
    ensures PrintMember(m, false, d, last)
         == PrintString(m.name) + (":" + Print(m.value, false, d)) + (if last then "" else ",")
  {
    MemberText(m, false, d, last);
    hide Print, PrintString, PrintMember;
    Empties(PrintString(m.name), ":", Print(m.value, false, d), if last then "" else ",");
  }

  lemma Empties(a: string, b: string, c: string, e: string)
    ensures "" + (a + (b + (c + (e + "")))) == a + (b + c) + e
  {
  }

  lemma MemberFormatted(m: Member, d: nat, last: bool)
    ensures PrintMember(m, true, d, last)
         == Tabs(d) + (PrintString(m.name) + (":\t" + (Print(m.value, true, d) + (if last then "\n" else ",\n"))))
  {
    MemberText(m, true, d, last);
    hide Print, PrintString, PrintMember;
    assert "" + "\n" == "\n" && "," + "\n" == ",\n";
  }

  lemma Inside(c: string, i: nat, text: string)
    requires At(c, i, text)
    ensures i + |text| <= |c|
  {
  }

  lemma Together(a: string, b: string, c: string)
    ensures a + b + c == a + (b + c)
  {
  }

  lemma MemberLays(m: Member, open: string, behind: string, c: string, i: nat)
    requires NulFree(m.name) && Printable(m.value) && open != ""
    requires At(c, i, PrintString(m.name) + (":" + Print(m.value, false, |open|)) + behind)
    ensures var name, val := PrintString(m.name), Print(m.value, false, |open|);
            && Lays(c, i, open, name + (":" + val), open, name + (":\t" + Print(m.value, true, |open|)))
            && i + |name + (":" + val)| <= |c| && At(c, i + |name + (":" + val)|, behind)
    decreases m, 0
  {
    hide Print, PrintString, Printable, At, Lays, NulFree;
    var name, val, val' := PrintString(m.name), Print(m.value, false, |open|), Print(m.value, true, |open|);
    AtConcat(c, i, name + (":" + val), behind);
    Inside(c, i, name + (":" + val));
    AtConcat(c, i, name, ":" + val);
    AtConcat(c, i + |name|, ":", val);
    AtChar(c, i + |name|, ":", 0);
    StringLays(c, i, open, m.name);
    TokenLays(c, i + |name|, open, ':');
    ItemLays(m.value, open, c, i + |name| + 1);
    LaysConcat(c, i + |name|, open, ":", open, ":\t", val, open, val');
    LaysConcat(c, i, open, name, open, name, ":" + val, open, ":\t" + val');
  }

  lemma LastText(name: string, val: string, val': string, d: nat)
    requires val != ""
    ensures Tabs(d) + (name + (":\t" + val')) + "\n" == Tabs(d) + (name + (":\t" + (val' + "\n"))) + ""
    ensures var t := name + (":" + val) + ""; t == name + (":" + val) && t[|t| - 1] == val[|val| - 1]
    ensures name + (":\t" + val') + "" == name + (":\t" + val')
  {
  }

  lemma MoreText(name: string, val: string, val': string, d: nat, tail: string, rest: string, tail': string)
    requires Tabs(d) + rest + "\n" == tail' && tail != "" && tail[|tail| - 1] != '{'
    ensures Tabs(d) + (name + (":\t" + val') + (",\n" + Tabs(d) + rest)) + "\n"
         == Tabs(d) + (name + (":\t" + (val' + ",\n"))) + tail'
    ensures var t := name + (":" + val) + ("," + tail); t[|t| - 1] != '{'
  {
    var a := Tabs(d);
    assert a + (name + (":\t" + val') + (",\n" + a + rest)) + "\n"
        == a + (name + (":\t" + (val' + ",\n"))) + (a + rest + "\n");
  }

  /** The formatted print of an item is the unformatted print, formatted. */
  lemma FormattedLayout(v: Json)
    requires Printable(v)
    ensures Print(v, true, 0) == Format(Print(v, false, 0), 0, "")
  {
    hide Print, Printable, Format;
    var c := Print(v, false, 0);
    Whole(c);
    ItemLays(v, "", c, 0);
    Ended(c);
    assert Print(v, true, 0) + "" == Print(v, true, 0);
  }

  lemma Whole(c: string)
    ensures At(c, 0, c)
  {
  }

  lemma Ended(c: string)
    ensures Format(c, |c|, "") == ""
  {
  }
}
