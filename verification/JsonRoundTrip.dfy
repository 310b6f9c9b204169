/** Parsing undoes printing: for every printable item, the parser of
    test/util/cJSON.c reads what either printer writes back as the same item,
    up to its nesting limit and exactly up to there. */
module JsonRoundTrip {
  import opened Common
  import opened JsonStrings
  import opened JsonValues

  lemma {:induction false} SkipTo(s: string, i: nat, j: nat)
    requires s != "" && i <= j < |s| && s[j] > ' '
    requires forall k :: i <= k < j ==> s[k] <= ' '
    ensures Skip(s, i) == j
    decreases j - i
  {
    if i < j { SkipTo(s, i + 1, j); }
  }

  lemma {:induction false} SkipTwice(s: string, i: nat)
    requires s != "" && i <= |s|
    ensures Skip(s, Skip(s, i)) == Skip(s, i)
    decreases |s| - i
  {
    if i < |s| && s[i] <= ' ' { SkipTwice(s, i + 1); }
  }

  /** What is printed for an item begins with a character that is not white
      space and closes nothing. */
  lemma FirstChar(v: Json, fmt: bool, d: nat)
    requires Printable(v)
    ensures var t := Print(v, fmt, d); t != "" && t[0] > ' ' && t[0] != ']' && t[0] != '}' && t[0] != ','
  {
  }

  // ---------- numbers ----------

  lemma {:induction false} NumberTextIs(s: string, i: nat, t: string, room: nat)
    requires At(s, i, t) && |t| <= room && i + |t| < |s| && !NumberChar(s[i + |t|])
    requires forall k :: 0 <= k < |t| ==> NumberChar(t[k])
    ensures NumberText(s, i, room) == t
    decreases |t|
  {
    if t != "" {
      AtChar(s, i, t, 0);
      assert t == [t[0]] + t[1..];
      AtConcat(s, i, [t[0]], t[1..]);
      NumberTextIs(s, i + 1, t[1..], room - 1);
    }
  }

  lemma ParsePrintedNumber(s: string, i: nat, t: string)
    requires Terminated(s) && NumberToken(t) && At(s, i, t)
    requires i + |t| < |s| && !NumberChar(s[i + |t|])
    ensures ParseNumber(s, i) == Ok(Number(t), i + |t|)
  {
    NumberTextIs(s, i, t, 63);
    assert t[..|t|] == t;
  }

  // ---------- items ----------

  /** Text that fits at `i` and is followed by something that is not part of a
      number: where the parser stops after a value. */
  ghost predicate Bounded(s: string, i: nat, text: string) {
    At(s, i, text) && i + |text| < |s| && !NumberChar(s[i + |text|])
  }

  lemma ParsePrintedLeaf(v: Json, fmt: bool, d: nat, s: string, i: nat, depth: nat)
    requires Terminated(s) && Printable(v) && Bounded(s, i, Print(v, fmt, d))
    requires !v.Array? && !v.Object?
    requires depth <= NESTING_LIMIT
    ensures ParseValue(s, i, depth) == Expected(v, Nesting(v), depth, i + |Print(v, fmt, d)|)
  {
    hide ParseString, PrintString, NumberToken, ParseNumber;
    var t := Print(v, fmt, d);
    FirstChar(v, fmt, d);
    AtChar(s, i, t, 0);
    match v
    case Null => assert At(s, i, "null");
    case False => assert At(s, i, "false"); NotAt(s, i, "null");
    case True => assert At(s, i, "true"); NotAt(s, i, "null"); NotAt(s, i, "false");
    case Number(x) =>
      NumberStart(x);
      NotAt(s, i, "null"); NotAt(s, i, "false"); NotAt(s, i, "true");
      ParsePrintedNumber(s, i, x);
    case Str(x) =>
      StringStart(x);
      NotAt(s, i, "null"); NotAt(s, i, "false"); NotAt(s, i, "true");
      ParsePrintedString(s, i, x);
  }

  lemma NumberStart(t: string)
    requires NumberToken(t)
    ensures t != "" && (t[0] == '-' || '0' <= t[0] <= '9')
  {
  }

  lemma StringStart(t: string)
    ensures PrintString(t) != "" && PrintString(t)[0] == '\"'
  {
  }

  lemma NotAt(s: string, i: nat, word: string)
    requires i < |s| && word != "" && s[i] != word[0]
    ensures !At(s, i, word)
  {
    FirstAt(s, i, word);
  }

  lemma FirstAt(s: string, i: nat, word: string)
    requires word != ""
    ensures At(s, i, word) ==> i < |s| && s[i] == word[0]
  {
    if At(s, i, word) { AtChar(s, i, word, 0); }
  }

  /** What parsing a printed item inside `depth` open brackets must return. */
  ghost function Expected<T>(v: T, nesting: nat, depth: nat, next: nat): Parsed<T> {
    if depth + nesting <= NESTING_LIMIT then Ok(v, next) else Fail
  }

  lemma {:induction false} ParsePrinted(v: Json, fmt: bool, d: nat, s: string, i: nat, depth: nat)
    requires Terminated(s) && Printable(v) && Bounded(s, i, Print(v, fmt, d)) && depth <= NESTING_LIMIT
    ensures ParseValue(s, i, depth) == Expected(v, Nesting(v), depth, i + |Print(v, fmt, d)|)
    decreases v, 1
  {
    hide Print, Printable, Nesting, ParseValue, Bounded, Terminated, Expected;
    match v
    case Array(items) => ParsePrintedArray(items, fmt, d, s, i, depth);
    case Object(members) => ParsePrintedObject(members, fmt, d, s, i, depth);
    case _ => ParsePrintedLeaf(v, fmt, d, s, i, depth);
  }

  lemma OpensBracket(s: string, i: nat, depth: nat)
    requires Terminated(s) && i < |s| && (s[i] == '[' || s[i] == '{')
    ensures ParseValue(s, i, depth) == if s[i] == '[' then ParseArray(s, i, depth) else ParseObject(s, i, depth)
  {
    NotAt(s, i, "null");
    NotAt(s, i, "false");
    NotAt(s, i, "true");
  }

  /** Where the parts of a printed array stand. */
  lemma ArrayLayout(items: seq<Json>, fmt: bool, d: nat, s: string, i: nat)
    requires Printable(Array(items)) && At(s, i, Print(Array(items), fmt, d))
    ensures var body := PrintItems(items, fmt, d + 1);
            && |Print(Array(items), fmt, d)| == |body| + 2
            && s[i] == '[' && At(s, i + 1, body) && At(s, i + 1 + |body|, "]")
            && s[i + 1 + |body|] == ']'
            && (items == [] ==> |body| == 0)
            && (items != [] ==> s[i + 1] > ' ' && s[i + 1] != ']')
  {
    hide At;
    var body := PrintItems(items, fmt, d + 1);
    assert Print(Array(items), fmt, d) == "[" + (body + "]");
    if items != [] {
      FirstOfItems(items, fmt, d + 1);
    }
    hide Print, Printable, PrintItems;
    AtConcat(s, i, "[", body + "]");
    AtConcat(s, i + 1, body, "]");
    AtChar(s, i, "[", 0);
    AtChar(s, i + 1 + |body|, "]", 0);
    if items != [] {
      AtChar(s, i + 1, body, 0);
    }
  }

  lemma ItemsPrintable(items: seq<Json>)
    ensures Printable(Array(items)) <==> forall j :: 0 <= j < |items| ==> Printable(items[j])
  {
  }

  lemma FirstOfItems(items: seq<Json>, fmt: bool, d: nat)
    requires items != [] && Printable(items[0])
    ensures var t := PrintItems(items, fmt, d); t != "" && t[0] > ' ' && t[0] != ']'
  {
    FirstChar(items[0], fmt, d);
  }

  lemma ParsePrintedArray(items: seq<Json>, fmt: bool, d: nat, s: string, i: nat, depth: nat)
    requires Terminated(s) && Printable(Array(items)) && Bounded(s, i, Print(Array(items), fmt, d))
    requires depth <= NESTING_LIMIT
    ensures ParseValue(s, i, depth)
         == Expected(Array(items), Nesting(Array(items)), depth, i + |Print(Array(items), fmt, d)|)
    decreases items, 1
  {
    hide ParseItems, PrintItems, Print, Printable, ParseValue, ParseArray, Terminated, Expected, At;
    ArrayLayout(items, fmt, d, s, i);
    ItemsPrintable(items);
    OpensBracket(s, i, depth);
    if items == [] {
      ArrayEmpty(s, i, depth);
    } else if depth < NESTING_LIMIT {
      ParsePrintedItems(items, fmt, d + 1, s, i + 1, depth + 1);
      ArrayFull(s, i, depth, items, NestingOfItems(items), i + |PrintItems(items, fmt, d + 1)| + 2);
    } else {
      TooDeep(s, i, depth);
      Deeper(Array(items), NestingOfItems(items), depth, i + |Print(Array(items), fmt, d)|);
    }
  }

  lemma ArrayEmpty(s: string, i: nat, depth: nat)
    requires Terminated(s) && i + 1 < |s| && s[i] == '[' && s[i + 1] == ']'
    ensures ParseArray(s, i, depth) == Expected(Array([]), 1, depth, i + 2)
  {
    SkipTo(s, i + 1, i + 1);
  }

  lemma ArrayFull(s: string, i: nat, depth: nat, vs: seq<Json>, m: nat, q: nat)
    requires Terminated(s) && i + 1 < |s| && s[i] == '[' && s[i + 1] > ' ' && s[i + 1] != ']'
    requires ParseItems(s, i + 1, depth + 1) == Expected(vs, m, depth + 1, q)
    ensures ParseArray(s, i, depth) == Expected(Array(vs), 1 + m, depth, q)
  {
    hide ParseItems;
    SkipTo(s, i + 1, i + 1);
  }

  lemma TooDeep(s: string, i: nat, depth: nat)
    requires Terminated(s) && i < |s| && depth >= NESTING_LIMIT
    ensures s[i] == '[' ==> ParseArray(s, i, depth) == Fail
    ensures s[i] == '{' ==> ParseObject(s, i, depth) == Fail
  {
  }

  lemma Deeper(v: Json, n: nat, depth: nat, q: nat)
    requires depth >= NESTING_LIMIT
    ensures Expected(v, 1 + n, depth, q) == Fail
  {
  }

  lemma NoItems(fmt: bool, d: nat)
    ensures PrintItems([], fmt, d) == ""
  {
  }

  function Separator(fmt: bool, last: bool): string {
    if last then "" else if fmt then ", " else ","
  }

  lemma ItemsText(items: seq<Json>, fmt: bool, d: nat)
    requires items != [] && (forall j :: 0 <= j < |items| ==> Printable(items[j]))
    ensures PrintItems(items, fmt, d)
         == Print(items[0], fmt, d) + (Separator(fmt, |items| == 1) + PrintItems(items[1..], fmt, d))
    ensures var text := Print(items[0], fmt, d); text != "" && text[0] > ' '
    ensures var tail := PrintItems(items[1..], fmt, d);
            if |items| == 1 then tail == "" else tail != "" && tail[0] > ' '
  {
    FirstChar(items[0], fmt, d);
    if |items| > 1 {
      FirstOfItems(items[1..], fmt, d);
    }
  }

  /** Where the parts of printed items stand: the first item up to `e`, and the
      others from `p` on. */
  lemma ItemsLayout(items: seq<Json>, fmt: bool, d: nat, s: string, k: nat)
    requires items != [] && (forall j :: 0 <= j < |items| ==> Printable(items[j]))
    requires At(s, k, PrintItems(items, fmt, d)) && At(s, k + |PrintItems(items, fmt, d)|, "]")
    ensures var text, tail := Print(items[0], fmt, d), PrintItems(items[1..], fmt, d);
            var e := k + |text|;
            var p := if fmt then e + 2 else e + 1;
            && Bounded(s, k, text) && k < e && s[k] > ' '
            && (|items| == 1 ==> |PrintItems(items, fmt, d)| == |text| && s[e] == ']')
            && (|items| > 1 ==>
                  && s[e] == ',' && p < |s| && s[p] > ' ' && (fmt ==> s[e + 1] == ' ')
                  && |PrintItems(items, fmt, d)| == p - k + |tail|
                  && At(s, p, tail) && At(s, p + |tail|, "]"))
  {
    hide At, Print, PrintItems, Printable;
    ItemsText(items, fmt, d);
    var text, tail := Print(items[0], fmt, d), PrintItems(items[1..], fmt, d);
    var sep := Separator(fmt, |items| == 1);
    AtConcat(s, k, text, sep + tail);
    AtConcat(s, k + |text|, sep, tail);
    AtChar(s, k, text, 0);
    var e := k + |text|;
    if |items| == 1 {
      AtChar(s, e, "]", 0);
    } else {
      AtChar(s, e, sep, 0);
      if fmt { AtChar(s, e, sep, 1); }
      AtChar(s, e + |sep|, tail, 0);
    }
  }

  lemma ItemsLast(s: string, k: nat, e: nat, v: Json, n: nat, depth: nat)
    requires Terminated(s) && k < e < |s| && s[k] > ' ' && s[e] == ']'
    requires ParseValue(s, k, depth) == Expected(v, n, depth, e)
    ensures ParseItems(s, k, depth) == Expected([v], n, depth, e + 1)
  {
    hide ParseValue;
    SkipTo(s, k, k);
    SkipTo(s, e, e);
  }

  lemma ItemsCons(s: string, k: nat, e: nat, v: Json, n: nat, vs: seq<Json>, m: nat, depth: nat, q: nat)
    requires Terminated(s) && k < e < |s| && s[k] > ' ' && s[e] == ','
    requires ParseValue(s, k, depth) == Expected(v, n, depth, e)
    requires e + 1 < |s| && ParseItems(s, e + 1, depth) == Expected(vs, m, depth, q)
    ensures ParseItems(s, k, depth) == Expected([v] + vs, Max(n, m), depth, q)
  {
    hide ParseValue;
    SkipTo(s, k, k);
    SkipTo(s, e, e);
  }

  lemma ParsePrintedItems(items: seq<Json>, fmt: bool, d: nat, s: string, k: nat, depth: nat)
    requires Terminated(s) && items != [] && (forall j :: 0 <= j < |items| ==> Printable(items[j]))
    requires At(s, k, PrintItems(items, fmt, d)) && At(s, k + |PrintItems(items, fmt, d)|, "]")
    requires depth <= NESTING_LIMIT
    ensures k < |s|
    ensures ParseItems(s, k, depth)
         == Expected(items, NestingOfItems(items), depth, k + |PrintItems(items, fmt, d)| + 1)
    decreases items, 0
  {
    hide Print, PrintItems, Printable, ParseValue, ParseItems, Nesting, Skip, At, Terminated;
    var v := items[0];
    ItemsLayout(items, fmt, d, s, k);
    ParsePrinted(v, fmt, d, s, k, depth);
    var e := k + |Print(v, fmt, d)|;
    if |items| == 1 {
      ItemsLast(s, k, e, v, Nesting(v), depth);
      assert items == [v] && NestingOfItems(items[1..]) == 0;
    } else {
      var p := if fmt then e + 2 else e + 1;
      var rest := items[1..];
      ParsePrintedItems(rest, fmt, d, s, p, depth);
      SkipTo(s, e + 1, p);
      SkipTo(s, p, p);
      SameItems(s, e + 1, p, depth);
      ItemsCons(s, k, e, v, Nesting(v), rest, NestingOfItems(rest), depth,
                p + |PrintItems(rest, fmt, d)| + 1);
      assert items == [v] + rest;
    }
  }

  /** White space in front of an item makes no difference. */
  lemma SameItems(s: string, k: nat, k': nat, depth: nat)
    requires Terminated(s) && k < |s| && k' < |s| && Skip(s, k) == Skip(s, k')
    ensures ParseItems(s, k, depth) == ParseItems(s, k', depth)
  {
  }

  // ---------- objects ----------

  function Closing(fmt: bool, d: nat): string { (if fmt then Tabs(d) else "") + "}" }

  lemma MembersPrintable(members: seq<Member>)
    ensures Printable(Object(members)) <==>
            forall j :: 0 <= j < |members| ==> NulFree(members[j].name) && Printable(members[j].value)
  {
  }

  /** Tabs in front of a character that is not white space are skipped. */
  lemma SkipTabs(s: string, i: nat, n: nat, c: char, rest: string)
    requires s != "" && At(s, i, Tabs(n) + ([c] + rest)) && c > ' '
    ensures i + n < |s| && s[i + n] == c && Skip(s, i) == i + n
  {
    hide At;
    AtConcat(s, i, Tabs(n), [c] + rest);
    AtConcat(s, i + n, [c], rest);
    AtChar(s, i + n, [c], 0);
    forall k | i <= k < i + n ensures s[k] <= ' ' {
      AtChar(s, i, Tabs(n), k - i);
    }
    SkipTo(s, i, i + n);
  }

  /** The closing of a printed object, with the line break of the formatted
      printer in front of it. */
  lemma SkipClosing(s: string, i: nat, fmt: bool, d: nat)
    requires s != "" && At(s, i, (if fmt then "\n" else "") + Closing(fmt, d))
    ensures var e := i + (if fmt then 1 + d else 0);
            e < |s| && s[e] == '}' && Skip(s, i) == e && !NumberChar(s[i])
  {
    hide At;
    if fmt {
      assert Closing(fmt, d) == Tabs(d) + (['}'] + "");
      AtConcat(s, i, "\n", Closing(fmt, d));
      AtChar(s, i, "\n", 0);
      SkipTabs(s, i + 1, d, '}', "");
    } else {
      assert "" + Closing(fmt, d) == Tabs(0) + (['}'] + "");
      SkipTabs(s, i, 0, '}', "");
    }
  }

  /** A printed member: where its name, its value and what follows stand. */
  lemma MemberLayout(m: Member, fmt: bool, d: nat, last: bool, s: string, p: nat)
    requires Printable(m.value) && At(s, p, PrintMember(m, fmt, d, last)) && s != ""
    ensures var q := p + (if fmt then d else 0);
            var name, text := PrintString(m.name), Print(m.value, fmt, d);
            var c := q + |name|;
            var w := c + (if fmt then 2 else 1);
            var e := w + |text|;
            && q < |s| && s[q] == '\"' && Skip(s, p) == q && At(s, q, name)
            && c < |s| && s[c] == ':' && (fmt ==> c + 1 < |s| && s[c + 1] == '\t')
            && At(s, w, text) && w < e <= |s| && s[w] > ' '
            && At(s, e, (if last then "" else ",") + (if fmt then "\n" else ""))
            && |PrintMember(m, fmt, d, last)| == e - p + (if last then 0 else 1) + (if fmt then 1 else 0)
  {
    hide Print, PrintString, PrintMember, Printable, At, Skip, NulFree;
    MemberText(m, fmt, d, last);
    StringStart(m.name);
    FirstChar(m.value, fmt, d);
    assert Tabs(0) == "";
    MemberParts(s, p, if fmt then d else 0, PrintString(m.name), fmt, Print(m.value, fmt, d),
                (if last then "" else ",") + (if fmt then "\n" else ""));
  }

  lemma MemberParts(s: string, p: nat, n: nat, name: string, fmt: bool, text: string, post: string)
    requires At(s, p, Tabs(n) + (name + ((if fmt then ":\t" else ":") + (text + post)))) && s != ""
    requires name != "" && name[0] == '\"' && text != "" && text[0] > ' '
    ensures var q := p + n;
            var c := q + |name|;
            var w := c + (if fmt then 2 else 1);
            var e := w + |text|;
            && q < |s| && s[q] == '\"' && Skip(s, p) == q && At(s, q, name)
            && c < |s| && s[c] == ':' && (fmt ==> c + 1 < |s| && s[c + 1] == '\t')
            && At(s, w, text) && w < e <= |s| && s[w] > ' '
            && At(s, e, post)
  {
    hide At, Skip;
    var colon := if fmt then ":\t" else ":";
    var q := p + n;
    AtConcat(s, p, Tabs(n), name + (colon + (text + post)));
    AtConcat(s, q, name, colon + (text + post));
    AtConcat(s, q + |name|, colon, text + post);
    AtConcat(s, q + |name| + |colon|, text, post);
    AtChar(s, q, name, 0);
    AtChar(s, q + |name|, colon, 0);
    if fmt { AtChar(s, q + |name|, colon, 1); }
    AtChar(s, q + |name| + |colon|, text, 0);
    AtChar(s, q + |name| + |colon|, text, |text| - 1);
    assert name + (colon + (text + post)) == [name[0]] + (name[1..] + (colon + (text + post)));
    SkipTabs(s, p, n, name[0], name[1..] + (colon + (text + post)));
  }

  lemma MemberText(m: Member, fmt: bool, d: nat, last: bool)
    ensures PrintMember(m, fmt, d, last)
         == (if fmt then Tabs(d) else "")
            + (PrintString(m.name) + ((if fmt then ":\t" else ":")
            + (Print(m.value, fmt, d) + ((if last then "" else ",") + (if fmt then "\n" else "")))))
  {
  }

  lemma MemberParse(s: string, p: nat, q: nat, c: nat, w: nat, e: nat, m: Member, n: nat, depth: nat)
    requires Terminated(s) && p <= q < c < w < e < |s|
    requires Skip(s, p) == q && At(s, q, PrintString(m.name)) && c == q + |PrintString(m.name)|
    requires s[c] == ':' && Skip(s, c + 1) == w
    requires ParseValue(s, w, depth) == Expected(m.value, n, depth, e)
    ensures ParseMember(s, p, depth) == Expected(m, n, depth, Skip(s, e))
  {
    hide ParseValue, ParseString, PrintString, Skip, At;
    ParsePrintedString(s, q, m.name);
    SkipTo(s, c, c);
  }

  lemma SameMembers(s: string, k: nat, k': nat, depth: nat)
    requires Terminated(s) && k < |s| && k' < |s| && Skip(s, k) == Skip(s, k')
    ensures ParseMembers(s, k, depth) == ParseMembers(s, k', depth)
  {
  }

  lemma MembersLast(s: string, p: nat, m: Member, n: nat, depth: nat, x: nat)
    requires Terminated(s) && p < x < |s| && s[x] == '}'
    requires ParseMember(s, p, depth) == Expected(m, n, depth, x)
    ensures ParseMembers(s, p, depth) == Expected([m], n, depth, x + 1)
  {
    hide ParseMember;
  }

  lemma MembersCons(s: string, p: nat, m: Member, n: nat, depth: nat, x: nat, ms: seq<Member>, k: nat, q: nat)
    requires Terminated(s) && p < x && x + 1 < |s| && s[x] == ','
    requires ParseMember(s, p, depth) == Expected(m, n, depth, x)
    requires ParseMembers(s, x + 1, depth) == Expected(ms, k, depth, q)
    ensures ParseMembers(s, p, depth) == Expected([m] + ms, Max(n, k), depth, q)
  {
    hide ParseMember;
  }

  /** A printed member is read back; the parser stops at `x`, in front of the
      comma or the closing brace. */
  lemma ParsePrintedMember(m: Member, fmt: bool, d: nat, last: bool, s: string, p: nat, depth: nat)
    requires Terminated(s) && NulFree(m.name) && Printable(m.value) && depth <= NESTING_LIMIT && d > 0
    requires At(s, p, PrintMember(m, fmt, d, last))
    requires last ==> At(s, p + |PrintMember(m, fmt, d, last)|, Closing(fmt, d - 1))
    ensures var end := p + |PrintMember(m, fmt, d, last)|;
            var x := if last then end + |Closing(fmt, d - 1)| - 1 else if fmt then end - 2 else end - 1;
            && p < x < |s|
            && ParseMember(s, p, depth) == Expected(m, Nesting(m.value), depth, x)
            && (last ==> s[x] == '}')
            && (!last ==> s[x] == ',' && (fmt ==> s[x + 1] == '\n'))
    decreases m, 1
  {
    hide Print, PrintString, PrintMember, Printable, ParseValue, ParseMember, At, Nesting, NulFree, Skip;
    MemberLayout(m, fmt, d, last, s, p);
    var q := p + (if fmt then d else 0);
    var c := q + |PrintString(m.name)|;
    var w := c + (if fmt then 2 else 1);
    var e := w + |Print(m.value, fmt, d)|;
    SkipTo(s, c + 1, w);
    MemberEnd(m, fmt, d, last, s, p, e);
    ParsePrinted(m.value, fmt, d, s, w, depth);
    StringStart(m.name);
    MemberParse(s, p, q, c, w, e, m, Nesting(m.value), depth);
  }

  lemma MemberEnd(m: Member, fmt: bool, d: nat, last: bool, s: string, p: nat, e: nat)
    requires s != "" && d > 0 && p < e <= |s|
    requires At(s, e, (if last then "" else ",") + (if fmt then "\n" else ""))
    requires |PrintMember(m, fmt, d, last)| == e - p + (if last then 0 else 1) + (if fmt then 1 else 0)
    requires last ==> At(s, p + |PrintMember(m, fmt, d, last)|, Closing(fmt, d - 1))
    ensures var end := p + |PrintMember(m, fmt, d, last)|;
            var x := if last then end + |Closing(fmt, d - 1)| - 1 else if fmt then end - 2 else end - 1;
            && e <= x < |s| && Skip(s, e) == x && !NumberChar(s[e])
            && (last ==> s[x] == '}')
            && (!last ==> s[x] == ',' && (fmt ==> x + 1 < |s| && s[x + 1] == '\n'))
  {
    hide At, PrintMember;
    if last {
      assert "" + (if fmt then "\n" else "") == if fmt then "\n" else "";
      AtConcat(s, e, if fmt then "\n" else "", Closing(fmt, d - 1));
      SkipClosing(s, e, fmt, d - 1);
    } else {
      var post := "," + (if fmt then "\n" else "");
      AtChar(s, e, post, 0);
      if fmt { AtChar(s, e, post, 1); }
      SkipTo(s, e, e);
    }
  }

  lemma ParsePrintedMembers(members: seq<Member>, fmt: bool, d: nat, s: string, p: nat, depth: nat)
    requires Terminated(s) && members != [] && d > 0 && depth <= NESTING_LIMIT
    requires forall j :: 0 <= j < |members| ==> NulFree(members[j].name) && Printable(members[j].value)
    requires At(s, p, PrintMembers(members, fmt, d))
    requires At(s, p + |PrintMembers(members, fmt, d)|, Closing(fmt, d - 1))
    ensures p < |s|
    ensures ParseMembers(s, p, depth)
         == Expected(members, NestingOfMembers(members), depth,
                     p + |PrintMembers(members, fmt, d)| + |Closing(fmt, d - 1)|)
    decreases members, 0
  {
    hide PrintMember, Printable, ParseMember, ParseMembers, At, Nesting, Terminated, NulFree, Skip, Print;
    var m, rest, last := members[0], members[1..], |members| == 1;
    assert members == [m] + rest;
    var text, tail := PrintMember(m, fmt, d, last), PrintMembers(rest, fmt, d);
    assert PrintMembers(members, fmt, d) == text + tail;
    AtConcat(s, p, text, tail);
    if last {
      assert rest == [] && tail == "" && text + tail == text;
      ParsePrintedMember(m, fmt, d, last, s, p, depth);
      MembersLast(s, p, m, Nesting(m.value), depth, p + |text| + |Closing(fmt, d - 1)| - 1);
      assert NestingOfMembers(rest) == 0 && NestingOfMembers(members) == Nesting(m.value);
      assert members == [m];
    } else {
      ParsePrintedMember(m, fmt, d, last, s, p, depth);
      var p' := p + |text|;
      ParsePrintedMembers(rest, fmt, d, s, p', depth);
      var x := if fmt then p' - 2 else p' - 1;
      if fmt { SkipStep(s, x + 1); }
      SameMembers(s, x + 1, p', depth);
      MembersCons(s, p, m, Nesting(m.value), depth, x, rest, NestingOfMembers(rest),
                  p' + |tail| + |Closing(fmt, d - 1)|);
    }
  }

  lemma SkipStep(s: string, i: nat)
    requires i < |s| && s[i] <= ' '
    ensures Skip(s, i) == Skip(s, i + 1)
  {
  }

  /** Where the parts of a printed object stand: the members from `p` on, the
      closing brace at `z`. */
  lemma ObjectLayout(members: seq<Member>, fmt: bool, d: nat, s: string, i: nat)
    requires At(s, i, Print(Object(members), fmt, d)) && s != ""
    ensures var body := PrintMembers(members, fmt, d + 1);
            var p := i + (if fmt then 2 else 1);
            && |Print(Object(members), fmt, d)| == p - i + |body| + |Closing(fmt, d)|
            && s[i] == '{' && p < |s| && (fmt ==> s[i + 1] == '\n')
            && At(s, p, body) && At(s, p + |body|, Closing(fmt, d))
            && (members == [] ==>
                  && |body| == 0
                  && p + |Closing(fmt, d)| - 1 < |s| && s[p + |Closing(fmt, d)| - 1] == '}'
                  && Skip(s, p) == p + |Closing(fmt, d)| - 1)
            && (members != [] ==>
                  && Skip(s, p) < |s| && s[Skip(s, p)] == '\"')
  {
    hide At, Skip, Print, PrintMembers, PrintString, PrintMember, Closing;
    var body, open := PrintMembers(members, fmt, d + 1), if fmt then "{\n" else "{";
    var close := Closing(fmt, d);
    ObjectText(members, fmt, d);
    ClosingText(fmt, d);
    AtConcat(s, i, open, body + close);
    var p := i + |open|;
    AtConcat(s, p, body, close);
    AtChar(s, i, open, 0);
    if fmt { AtChar(s, i, open, 1); }
    AtChar(s, p + |body|, close, |close| - 1);
    if members == [] {
      SkipTabs(s, p, if fmt then d else 0, '}', "");
    } else {
      MembersText(members, fmt, d + 1);
      var n := if fmt then d + 1 else 0;
      var x :| body == Tabs(n) + (['\"'] + x);
      SkipTabs(s, p, n, '\"', x);
    }
  }

  lemma ClosingText(fmt: bool, d: nat)
    ensures var n := if fmt then d else 0;
            Closing(fmt, d) == Tabs(n) + (['}'] + "") && |Closing(fmt, d)| == n + 1
            && Closing(fmt, d)[n] == '}'
  {
  }

  lemma ObjectText(members: seq<Member>, fmt: bool, d: nat)
    ensures Print(Object(members), fmt, d)
         == (if fmt then "{\n" else "{") + (PrintMembers(members, fmt, d + 1) + Closing(fmt, d))
    ensures members == [] ==> PrintMembers(members, fmt, d + 1) == ""
  {
  }

  lemma MembersText(members: seq<Member>, fmt: bool, d: nat)
    requires members != []
    ensures exists x :: PrintMembers(members, fmt, d) == Tabs(if fmt then d else 0) + (['\"'] + x)
  {
    hide PrintString, Print, PrintMember;
    var m := members[0];
    var name := PrintString(m.name);
    StringStart(m.name);
    MemberText(m, fmt, d, |members| == 1);
    var after := (if fmt then ":\t" else ":")
            + (Print(m.value, fmt, d) + ((if |members| == 1 then "" else ",") + (if fmt then "\n" else "")));
    var tail := PrintMembers(members[1..], fmt, d);
    PullFirst(if fmt then Tabs(d) else "", name, after, tail);
    assert Tabs(0) == "";
  }

  lemma PullFirst(pre: string, name: string, after: string, tail: string)
    requires name != ""
    ensures (pre + (name + after)) + tail == pre + ([name[0]] + (name[1..] + after + tail))
  {
  }

  lemma ObjectEmpty(s: string, i: nat, depth: nat, x: nat)
    requires Terminated(s) && i + 1 < |s| && s[i] == '{' && Skip(s, i + 1) == x && s[x] == '}'
    ensures ParseObject(s, i, depth) == Expected(Object([]), 1, depth, x + 1)
  {
    hide Skip;
  }

  lemma ObjectFull(s: string, i: nat, p: nat, depth: nat, ms: seq<Member>, m: nat, q: nat)
    requires Terminated(s) && i < p < |s| && s[i] == '{' && Skip(s, i + 1) == Skip(s, p) && s[Skip(s, p)] == '\"'
    requires ParseMembers(s, p, depth + 1) == Expected(ms, m, depth + 1, q)
    ensures ParseObject(s, i, depth) == Expected(Object(ms), 1 + m, depth, q)
  {
    SkipTwice(s, p);
    SameMembers(s, Skip(s, p), p, depth + 1);
    hide ParseMembers, Skip;
  }

  lemma ParsePrintedObject(members: seq<Member>, fmt: bool, d: nat, s: string, i: nat, depth: nat)
    requires Terminated(s) && Printable(Object(members)) && Bounded(s, i, Print(Object(members), fmt, d))
    requires depth <= NESTING_LIMIT
    ensures ParseValue(s, i, depth)
         == Expected(Object(members), Nesting(Object(members)), depth, i + |Print(Object(members), fmt, d)|)
    decreases members, 1
  {
    hide ParseMembers, PrintMembers, Print, Printable, ParseValue, ParseObject, Expected, At, Skip;
    ObjectLayout(members, fmt, d, s, i);
    MembersPrintable(members);
    OpensBracket(s, i, depth);
    var p := i + (if fmt then 2 else 1);
    if fmt { SkipStep(s, i + 1); }
    if members == [] {
      ObjectEmpty(s, i, depth, p + |Closing(fmt, d)| - 1);
    } else if depth < NESTING_LIMIT {
      ParsePrintedMembers(members, fmt, d + 1, s, p, depth + 1);
      ObjectFull(s, i, p, depth, members, NestingOfMembers(members),
                 p + |PrintMembers(members, fmt, d + 1)| + |Closing(fmt, d)|);
    } else {
      TooDeep(s, i, depth);
      Deeper(Object(members), NestingOfMembers(members), depth, i + |Print(Object(members), fmt, d)|);
    }
  }

  // ---------- whole documents ----------

  lemma NulFreeConcat(a: string, b: string)
    ensures NulFree(a + b) <==> NulFree(a) && NulFree(b)
  {
    assert forall k :: 0 <= k < |a| ==> (a + b)[k] == a[k];
    assert forall k :: 0 <= k < |b| ==> (a + b)[|a| + k] == b[k];
  }

  lemma StringNulFree(t: string)
    requires NulFree(t)
    ensures NulFree(PrintString(t))
  {
    EscapeBodyNulFree(t);
    hide EscapeBody;
    NulFreeConcat("\"", EscapeBody(t));
    NulFreeConcat("\"" + EscapeBody(t), "\"");
  }

  lemma {:induction false} PrintNulFree(v: Json, fmt: bool, d: nat)
    requires Printable(v)
    ensures NulFree(Print(v, fmt, d))
    decreases v, 1
  {
    match v
    case Null =>
    case False =>
    case True =>
    case Number(t) => assert NumberChar(NUL) == false;
    case Str(t) => StringNulFree(t);
    case Array(items) =>
      ItemsNulFree(items, fmt, d + 1);
      Wrapped("[", PrintItems(items, fmt, d + 1), "]");
    case Object(members) =>
      MembersNulFree(members, fmt, d + 1);
      ObjectText(members, fmt, d);
      Wrapped(if fmt then "{\n" else "{", PrintMembers(members, fmt, d + 1), Closing(fmt, d));
  }

  lemma Wrapped(a: string, b: string, c: string)
    requires NulFree(a) && NulFree(b) && NulFree(c)
    ensures NulFree(a + b + c) && NulFree(a + (b + c))
  {
    NulFreeConcat(a, b);
    NulFreeConcat(a + b, c);
    NulFreeConcat(b, c);
    NulFreeConcat(a, b + c);
  }

  lemma {:induction false} ItemsNulFree(items: seq<Json>, fmt: bool, d: nat)
    requires forall j :: 0 <= j < |items| ==> Printable(items[j])
    ensures NulFree(PrintItems(items, fmt, d))
    decreases items, 0
  {
    hide Print, Printable;
    if items != [] {
      PrintNulFree(items[0], fmt, d);
      ItemsNulFree(items[1..], fmt, d);
    }
  }

  lemma {:induction false} MembersNulFree(members: seq<Member>, fmt: bool, d: nat)
    requires forall j :: 0 <= j < |members| ==> NulFree(members[j].name) && Printable(members[j].value)
    ensures NulFree(PrintMembers(members, fmt, d))
    decreases members, 0
  {
    hide Print, Printable, PrintString, PrintMember;
    if members != [] {
      var m, last := members[0], |members| == 1;
      StringNulFree(m.name);
      PrintNulFree(m.value, fmt, d);
      MemberText(m, fmt, d, last);
      var post := (if last then "" else ",") + (if fmt then "\n" else "");
      Wrapped(if fmt then ":\t" else ":", Print(m.value, fmt, d), post);
      Wrapped(if fmt then Tabs(d) else "", PrintString(m.name),
              (if fmt then ":\t" else ":") + (Print(m.value, fmt, d) + post));
      MembersNulFree(members[1..], fmt, d);
      NulFreeConcat(PrintMember(m, fmt, d, last), PrintMembers(members[1..], fmt, d));
    }
  }

  /** Parsing the output of either printer returns an equal item if and only if
      the item is nested no deeper than the parser's limit; a deeper item is
      printed all the same, and its text is then rejected. */
  lemma DocumentRoundTrip(v: Json, fmt: bool, requireEnd: bool)
    requires Printable(v)
    ensures NulFree(Print(v, fmt, 0))
    ensures ParseDocument(Print(v, fmt, 0), requireEnd)
         == if Nesting(v) <= 1000 then Some(v) else None
  {
    hide Print, Printable, ParseValue;
    var t := Print(v, fmt, 0);
    PrintNulFree(v, fmt, 0);
    FirstChar(v, fmt, 0);
    var s := t + [NUL];
    assert s[..|s| - 1] == t;
    assert At(s, 0, t);
    NoBom(v, fmt, s);
    SkipTo(s, 0, 0);
    ParsePrinted(v, fmt, 0, s, 0, 0);
    SkipEnd(s, |t|);
  }

  lemma SkipEnd(s: string, i: nat)
    requires s != "" && i + 1 == |s| && s[i] == NUL
    ensures Skip(s, i) == i
  {
    assert Skip(s, i + 1) == i;
  }

  lemma NoBom(v: Json, fmt: bool, s: string)
    requires Printable(v) && At(s, 0, Print(v, fmt, 0))
    ensures s != "" && SkipBom(s) == 0
  {
    FirstChar(v, fmt, 0);
    AtChar(s, 0, Print(v, fmt, 0), 0);
    PlainFirst(v, fmt);
    NotAt(s, 0, BOM);
  }

  lemma PlainFirst(v: Json, fmt: bool)
    requires Printable(v)
    ensures var t := Print(v, fmt, 0); t != "" && t[0] != BOM[0]
  {
  }
}
