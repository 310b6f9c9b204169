/** What cJSON_Minify of test/util/cJSON.c leaves of a text that the parser
    accepts: another text that it accepts, with the same item. */
module JsonMinified {
  import opened Common
  import opened JsonStrings
  import opened JsonValues
  import opened JsonRoundTrip
  import opened JsonMinify

  // ---------- pieces of a text ----------

  /** From `i` up to `k` cJSON_Minify leaves `out`. */
  ghost predicate Leaves(s: string, i: nat, k: nat, out: string) {
    && Terminated(s) && i <= k < |s| && Minify(s, i) == Keep(out, Minify(s, k))
  }

  lemma LeavesConcat(s: string, i: nat, k: nat, l: nat, a: string, b: string)
    requires Leaves(s, i, k, a) && Leaves(s, k, l, b)
    ensures Leaves(s, i, l, a + b)
  {
    hide Minify, Terminated;
    KeepKeep(a, b, Minify(s, l));
  }

  /** A character with no special meaning stays. */
  lemma CharStays(s: string, i: nat)
    requires Terminated(s) && i < |s| && Plain(s[i])
    ensures Leaves(s, i, i + 1, [s[i]])
  {
  }

  lemma TextStays(s: string, i: nat, text: string)
    requires Terminated(s) && At(s, i, text) && i + |text| < |s|
    requires forall k :: 0 <= k < |text| ==> Plain(text[k])
    ensures Leaves(s, i, i + |text|, text)
  {
    hide Minify;
    PlainStays(s, i, text);
  }

  // ---------- white space ----------

  predicate White(w: string) { forall k :: 0 <= k < |w| ==> NUL < w[k] <= ' ' }

  /** Some of the white space that the parser skips is removed. */
  lemma {:induction false} SkipLeaves(s: string, i: nat) returns (w: string)
    requires Terminated(s) && i < |s|
    ensures White(w) && Leaves(s, i, Skip(s, i), w)
    decreases |s| - i
  {
    if s[i] > ' ' || s[i] == NUL {
      w := "";
      KeepNothing(Minify(s, i));
    } else {
      w := SkipLeaves(s, i + 1);
      if !Blank(s[i]) {
        CharStays(s, i);
        LeavesConcat(s, i, i + 1, Skip(s, i + 1), [s[i]], w);
        w := [s[i]] + w;
      }
    }
  }

  /** What comes behind white space. */
  predicate Solid(c: char) { c > ' ' || c == NUL }

  lemma SkipWhite(m: string, j: nat, w: string)
    requires Terminated(m) && At(m, j, w) && White(w) && j + |w| < |m| && Solid(m[j + |w|])
    ensures Skip(m, j) == j + |w|
  {
    forall k | j <= k < j + |w| ensures m[k] <= ' ' { AtChar(m, j, w, k - j); }
    SkipOver(m, j, j + |w|);
  }

  lemma {:induction false} SkipOver(m: string, j: nat, e: nat)
    requires Terminated(m) && j <= e < |m| && Solid(m[e])
    requires forall k :: j <= k < e ==> m[k] <= ' '
    ensures Skip(m, j) == e
    decreases e - j
  {
    if j < e { SkipOver(m, j + 1, e); }
  }

  // ---------- string literals ----------

  /** The same characters from `i` up to `end` and from `j` on. */
  predicate Alike(s: string, i: nat, m: string, j: nat, end: nat) {
    && i <= end < |s| && j + end - i < |m|
    && forall k :: i <= k <= end ==> s[k] == m[k - i + j]
  }

  lemma {:induction false} ScanAlike(s: string, i: nat, m: string, j: nat, end: nat)
    requires Alike(s, i, m, j, end) && ScanString(s, i) == Some(end)
    ensures ScanString(m, j) == Some(j + end - i)
    decreases |s| - i
  {
    assert s[i] == m[j];
    if s[i] != '\"' {
      ScanAlike(s, if s[i] == '\\' then i + 2 else i + 1, m, if s[i] == '\\' then j + 2 else j + 1, end);
    }
  }

  lemma HexAlike(s: string, i: nat, m: string, j: nat, end: nat, at: nat)
    requires Alike(s, i, m, j, end) && i + at + 3 <= end
    ensures ParseHex4(s, i + at) == ParseHex4(m, j + at)
  {
    assert s[i + at] == m[j + at] && s[i + at + 1] == m[j + at + 1];
    assert s[i + at + 2] == m[j + at + 2] && s[i + at + 3] == m[j + at + 3];
  }

  lemma LiteralAlike(s: string, i: nat, m: string, j: nat, end: nat)
    requires Alike(s, i, m, j, end)
    ensures Utf16Literal(s, i, end) == Utf16Literal(m, j, j + end - i)
  {
    hide ParseHex4, Utf8;
    if end - i >= 6 {
      HexAlike(s, i, m, j, end, 2);
      if end - i >= 12 {
        HexAlike(s, i, m, j, end, 8);
        assert s[i + 6] == m[j + 6] && s[i + 7] == m[j + 7];
      }
    }
  }

  lemma {:induction false} DecodeAlike(s: string, i: nat, m: string, j: nat, end: nat)
    requires Alike(s, i, m, j, end)
    ensures DecodeString(s, i, end) == DecodeString(m, j, j + end - i)
    decreases end - i
  {
    if i < end {
      assert s[i] == m[j] && s[i + 1] == m[j + 1];
      hide Utf16Literal, Unescape, Alike;
      if s[i] != '\\' {
        AlikeLater(s, i, m, j, end, 1);
        DecodeAlike(s, i + 1, m, j + 1, end);
      } else if s[i + 1] == 'u' {
        LiteralAlike(s, i, m, j, end);
        var u := Utf16Literal(s, i, end);
        if u.Some? {
          LiteralSize(s, i, end);
          AlikeLater(s, i, m, j, end, u.value.1);
          DecodeAlike(s, i + u.value.1, m, j + u.value.1, end);
        }
      } else if i + 2 <= end {
        AlikeLater(s, i, m, j, end, 2);
        DecodeAlike(s, i + 2, m, j + 2, end);
      }
    }
  }

  lemma AlikeLater(s: string, i: nat, m: string, j: nat, end: nat, d: nat)
    requires Alike(s, i, m, j, end) && i + d <= end
    ensures Alike(s, i + d, m, j + d, end)
  {
  }

  lemma LiteralSize(s: string, i: nat, end: nat)
    requires i <= end <= |s| && Utf16Literal(s, i, end).Some?
    ensures 0 < Utf16Literal(s, i, end).value.1 <= end - i
  {
    hide Utf8, ParseHex4;
  }

  /** The parser and the minifier agree on where a literal ends. */
  lemma {:induction false} QuoteScanned(s: string, i: nat)
    requires Terminated(s) && i < |s| && ScanString(s, i).Some?
    ensures QuoteEnd(s, i) == ScanString(s, i)
    decreases |s| - i
  {
    if s[i] == NUL {
      assert i + 1 == |s|;
    } else if s[i] == '\\' {
      QuoteScanned(s, i + 2);
    } else if s[i] != '\"' {
      QuoteScanned(s, i + 1);
    }
  }

  ghost predicate StringParses(out: string, t: string) {
    && out != "" && out[0] == '\"'
    && forall m: string, j: nat :: Terminated(m) && At(m, j, out) ==>
         j < |m| && ParseString(m, j) == Ok(t, j + |out|)
  }

  lemma StringMinified(s: string, i: nat)
    requires Terminated(s) && i < |s| && ParseString(s, i).Ok?
    ensures var r := ParseString(s, i);
            && r.next < |s| && Leaves(s, i, r.next, s[i..r.next]) && StringParses(s[i..r.next], r.value)
  {
    hide Minify, QuoteEnd, ScanString, DecodeString, Leaves, At;
    var r := ParseString(s, i);
    var end := r.next - 1;
    QuoteScanned(s, i + 1);
    LiteralLeft(s, i, end);
    var out := s[i..r.next];
    forall m: string, j: nat | Terminated(m) && At(m, j, out)
      ensures j < |m| && ParseString(m, j) == Ok(r.value, j + |out|)
    {
      LiteralAgain(s, i, end, m, j);
    }
  }

  lemma LiteralAgain(s: string, i: nat, end: nat, m: string, j: nat)
    requires i < end < |s| && s[i] == '\"' && ScanString(s, i + 1) == Some(end) && At(m, j, s[i..end + 1])
    ensures j < |m| && ScanString(m, j + 1) == Some(j + end - i) && m[j] == '\"'
    ensures DecodeString(m, j + 1, j + end - i) == DecodeString(s, i + 1, end)
  {
    hide ScanString, DecodeString, Alike, At;
    AtAlike(s, i, end, m, j);
    ScanAlike(s, i + 1, m, j + 1, end);
    DecodeAlike(s, i + 1, m, j + 1, end);
  }

  lemma AtAlike(s: string, i: nat, end: nat, m: string, j: nat)
    requires i < end < |s| && At(m, j, s[i..end + 1])
    ensures j + end - i < |m| && s[i] == m[j] && Alike(s, i + 1, m, j + 1, end)
  {
    var out := s[i..end + 1];
    hide At;
    AtChar(m, j, out, end - i);
    forall k | i <= k <= end ensures s[k] == m[k - i + j] { AtChar(m, j, out, k - i); }
    assert s[i] == m[i - i + j];
  }

  lemma LiteralLeft(s: string, i: nat, end: nat)
    requires Terminated(s) && i < |s| && s[i] == '\"' && i + 1 < |s| && QuoteEnd(s, i + 1) == Some(end)
    ensures Leaves(s, i, end + 1, s[i..end + 1])
  {
  }

  // ---------- values ----------

  /** `out`, anywhere in a text where the number characters stop behind it,
      parses to `v`. */
  ghost predicate ValueParses(out: string, v: Json, depth: nat) {
    forall m: string, j: nat ::
      Terminated(m) && At(m, j, out) && j < j + |out| < |m| && !NumberChar(m[j + |out|]) ==>
        ParseValue(m, j, depth) == Ok(v, j + |out|)
  }

  /** A value begins with a character of ASCII that is not white space. */
  predicate Starts(text: string) { text != "" && ' ' < text[0] <= '}' }

  /** Where the parser looks behind a value. */
  predicate Stop(c: char) { c == ',' || c == ']' || c == '}' || c == NUL }

  predicate Follows(s: string, k: nat)
    requires s != "" && k <= |s|
  {
    Stop(s[Skip(s, k)])
  }

  lemma ConstantMinified(s: string, i: nat, depth: nat, text: string, v: Json)
    requires (text, v) in {("null", Null), ("false", False), ("true", True)}
    requires Terminated(s) && At(s, i, text) && i + |text| < |s|
    ensures Leaves(s, i, i + |text|, text) && ValueParses(text, v, depth)
  {
    TextStays(s, i, text);
    forall m: string, j: nat | Terminated(m) && At(m, j, text) && j + |text| < |m|
      ensures ParseValue(m, j, depth) == Ok(v, j + |text|)
    {
      AtChar(m, j, text, 0);
    }
  }

  lemma NumberMinified(s: string, i: nat, depth: nat)
    requires Terminated(s) && i < |s| && (s[i] == '-' || '0' <= s[i] <= '9') && ParseNumber(s, i).Ok?
    requires Follows(s, ParseNumber(s, i).next)
    ensures var r := ParseNumber(s, i);
            var out := s[i..r.next];
            Leaves(s, i, r.next, out) && ValueParses(out, r.value, depth)
  {
    hide StrtodLength, Minify, Leaves, ParseValue, ValueParses, Follows, At, NumberText;
    var t := NumberText(s, i, 63);
    var n := StrtodLength(t);
    WholeNumber(s, i, 63, n);
    assert t[..n] == t;
    AtChar(s, i, t, 0);
    NumberParses(t, depth);
    hide NumberChar, Terminated;
    NumberStays(s, i, t);
  }

  lemma NumberStays(s: string, i: nat, t: string)
    requires Terminated(s) && At(s, i, t) && i + |t| < |s| && forall k :: 0 <= k < |t| ==> NumberChar(t[k])
    ensures Leaves(s, i, i + |t|, t)
  {
    hide Leaves, At, Terminated;
    TextStays(s, i, t);
  }

  lemma NumberParses(t: string, depth: nat)
    requires t != "" && StrtodLength(t) == |t| <= 63 && (t[0] == '-' || '0' <= t[0] <= '9')
    requires forall k :: 0 <= k < |t| ==> NumberChar(t[k])
    ensures ValueParses(t, Number(t), depth)
  {
    hide StrtodLength, ParseValue, At;
    forall m: string, j: nat |
      Terminated(m) && At(m, j, t) && j < j + |t| < |m| && !NumberChar(m[j + |t|])
      ensures ParseValue(m, j, depth) == Ok(Number(t), j + |t|)
    {
      NumberAgain(m, j, t, depth);
    }
  }

  lemma NumberAgain(m: string, j: nat, t: string, depth: nat)
    requires Terminated(m) && At(m, j, t) && j < j + |t| < |m| && !NumberChar(m[j + |t|])
    requires StrtodLength(t) == |t| <= 63 && (t[0] == '-' || '0' <= t[0] <= '9')
    requires forall k :: 0 <= k < |t| ==> NumberChar(t[k])
    ensures ParseValue(m, j, depth) == Ok(Number(t), j + |t|)
  {
    hide StrtodLength;
    AtChar(m, j, t, 0);
    NumberTextIs(m, j, t, 63);
    NotAt(m, j, "null");
    NotAt(m, j, "false");
    NotAt(m, j, "true");
    assert t[..|t|] == t;
  }

  /** A number that is not followed by more of its characters was consumed
      whole. */
  lemma WholeNumber(s: string, i: nat, room: nat, n: nat)
    requires Terminated(s) && i < |s| && n <= |NumberText(s, i, room)| && i + n <= |s| && Follows(s, i + n)
    ensures n == |NumberText(s, i, room)| && s[i..i + n] == NumberText(s, i, room)
  {
    var t := NumberText(s, i, room);
    if n < |t| {
      AtChar(s, i, t, n);
    }
  }

  lemma ValueMinified(s: string, i: nat, depth: nat) returns (out: string)
    requires Terminated(s) && i < |s| && ParseValue(s, i, depth).Ok? && Follows(s, ParseValue(s, i, depth).next)
    ensures var r := ParseValue(s, i, depth);
            && Leaves(s, i, r.next, out) && ValueParses(out, r.value, depth)
            && Starts(out)
    decreases |s| - i, 2
  {
    hide Leaves, ValueParses, Minify, ParseString, ParseNumber, ParseArray, ParseObject, Follows, At, StringParses;
    if At(s, i, "null") {
      Inside(s, i, "null");
      ConstantMinified(s, i, depth, "null", Null);
      out := "null";
    } else if At(s, i, "false") {
      Inside(s, i, "false");
      ConstantMinified(s, i, depth, "false", False);
      out := "false";
    } else if At(s, i, "true") {
      Inside(s, i, "true");
      ConstantMinified(s, i, depth, "true", True);
      out := "true";
    } else if s[i] == '\"' {
      var r := ParseString(s, i);
      out := s[i..r.next];
      StringMinified(s, i);
      StringValue(out, r.value, depth);
    } else if s[i] == '[' {
      out := ArrayMinified(s, i, depth);
    } else if s[i] == '{' {
      out := ObjectMinified(s, i, depth);
    } else {
      NumberMinified(s, i, depth);
      out := s[i..ParseNumber(s, i).next];
    }
  }

  lemma StringValue(out: string, t: string, depth: nat)
    requires StringParses(out, t)
    ensures ValueParses(out, Str(t), depth) && out != "" && out[0] == '\"'
  {
    hide ParseString;
    forall m: string, j: nat |
      Terminated(m) && At(m, j, out) && j < j + |out| < |m| && !NumberChar(m[j + |out|])
      ensures ParseValue(m, j, depth) == Ok(Str(t), j + |out|)
    {
      AtChar(m, j, out, 0);
      NotAt(m, j, "null");
      NotAt(m, j, "false");
      NotAt(m, j, "true");
    }
  }

  // ---------- values with what is around them ----------

  /** In another text, a value between white space, up to a stop. */
  lemma ValueBetween(m: string, j: nat, w: string, text: string, w': string, c: char, v: Json, depth: nat)
    requires Terminated(m) && At(m, j, w + (text + (w' + [c]))) && White(w) && White(w') && Stop(c)
    requires ValueParses(text, v, depth) && Starts(text)
    ensures var p := j + |w|;
            var e := p + |text| + |w'|;
            && j < |m| && e < |m| && m[e] == c
            && ParseValue(m, Skip(m, j), depth) == Ok(v, p + |text|) && Skip(m, p + |text|) == e
  {
    hide At, ParseValue, Skip;
    AtConcat(m, j, w, text + (w' + [c]));
    var p := j + |w|;
    AtConcat(m, p, text, w' + [c]);
    AtConcat(m, p + |text|, w', [c]);
    AtChar(m, p, text, 0);
    AtChar(m, p + |text| + |w'|, [c], 0);
    SkipWhite(m, j, w);
    SkipWhite(m, p + |text|, w');
    assert !NumberChar(m[p + |text|]) by {
      if w' != "" { AtChar(m, p + |text|, w', 0); }
    }
  }

  /** A value with the white space around it, from `k` up to the stop. */
  lemma AroundMinified(s: string, k: nat, depth: nat) returns (w: string, text: string, w': string)
    requires Terminated(s) && k < |s| && ParseValue(s, Skip(s, k), depth).Ok?
    requires Follows(s, ParseValue(s, Skip(s, k), depth).next)
    ensures var r := ParseValue(s, Skip(s, k), depth);
            Leaves(s, k, Skip(s, r.next), w + (text + w')) && ValueParses(text, r.value, depth)
    ensures White(w) && White(w') && Starts(text)
    decreases |s| - k, 3
  {
    hide Leaves, ValueParses, ParseValue, Follows;
    var i := Skip(s, k);
    var r := ParseValue(s, i, depth);
    w := SkipLeaves(s, k);
    text := ValueMinified(s, i, depth);
    w' := SkipLeaves(s, r.next);
    LeavesConcat(s, i, r.next, Skip(s, r.next), text, w');
    LeavesConcat(s, k, i, Skip(s, r.next), w, text + w');
  }

  // ---------- arrays ----------

  ghost predicate ItemsParse(out: string, vs: seq<Json>, depth: nat) {
    forall m: string, j: nat :: Terminated(m) && At(m, j, out) && j < j + |out| < |m| ==>
      ParseItems(m, j, depth) == Ok(vs, j + |out|)
  }

  lemma ItemsMinified(s: string, k: nat, depth: nat) returns (out: string)
    requires Terminated(s) && k < |s| && ParseItems(s, k, depth).Ok?
    ensures var r := ParseItems(s, k, depth); Leaves(s, k, r.next, out) && ItemsParse(out, r.value, depth) && out != ""
    decreases |s| - k, 4
  {
    hide Leaves, ValueParses, ItemsParse, ParseValue, White, Skip;
    var r := ParseItems(s, k, depth);
    var v := ParseValue(s, Skip(s, k), depth);
    var e := Skip(s, v.next);
    var w, text, w' := AroundMinified(s, k, depth);
    CharStays(s, e);
    LeavesConcat(s, k, e, e + 1, w + (text + w'), [s[e]]);
    var front := w + (text + w') + [s[e]];
    if s[e] == ',' {
      var rest := ItemsMinified(s, e + 1, depth);
      var tail := ParseItems(s, e + 1, depth);
      LeavesConcat(s, k, e + 1, tail.next, front, rest);
      out := front + rest;
      MoreItems(w, text, w', rest, v.value, tail.value, depth);
    } else {
      out := front;
      LastItem(w, text, w', v.value, depth);
    }
  }

  lemma LastItem(w: string, text: string, w': string, v: Json, depth: nat)
    requires White(w) && White(w') && ValueParses(text, v, depth) && Starts(text)
    ensures ItemsParse(w + (text + w') + "]", [v], depth)
  {
    hide ParseValue, ValueParses, White, At, Skip;
    var out := w + (text + w') + "]";
    Grouped(w, text, w', "]");
    forall m: string, j: nat | Terminated(m) && At(m, j, out) && j < j + |out| < |m|
      ensures ParseItems(m, j, depth) == Ok([v], j + |out|)
    {
      ValueBetween(m, j, w, text, w', ']', v, depth);
    }
  }

  lemma MoreItems(w: string, text: string, w': string, rest: string, v: Json, vs: seq<Json>, depth: nat)
    requires White(w) && White(w') && ValueParses(text, v, depth) && Starts(text)
    requires ItemsParse(rest, vs, depth) && rest != ""
    ensures ItemsParse(w + (text + w') + "," + rest, [v] + vs, depth)
  {
    hide ParseValue, ValueParses, White, At, Skip;
    var front := w + (text + w') + ",";
    var out := front + rest;
    Grouped(w, text, w', ",");
    forall m: string, j: nat | Terminated(m) && At(m, j, out) && j < j + |out| < |m|
      ensures ParseItems(m, j, depth) == Ok([v] + vs, j + |out|)
    {
      AtConcat(m, j, front, rest);
      ValueBetween(m, j, w, text, w', ',', v, depth);
    }
  }

  lemma Grouped(w: string, text: string, w': string, c: string)
    ensures w + (text + w') + c == w + (text + (w' + c))
  {
  }

  lemma ArrayMinified(s: string, i: nat, depth: nat) returns (out: string)
    requires Terminated(s) && i < |s| && s[i] == '[' && ParseArray(s, i, depth).Ok?
    ensures var r := ParseArray(s, i, depth); Leaves(s, i, r.next, out) && ValueParses(out, r.value, depth)
    ensures out != "" && out[0] == '['
    decreases |s| - i, 1
  {
    CharStays(s, i);
    var j := Skip(s, i + 1);
    hide Leaves, ValueParses, ItemsParse, ParseItems, Skip, White;
    var inner: string;
    if s[j] == ']' {
      var w := SkipLeaves(s, i + 1);
      CharStays(s, j);
      LeavesConcat(s, i + 1, j, j + 1, w, "]");
      LeavesConcat(s, i, i + 1, j + 1, "[", w + "]");
      inner := w + "]";
      EmptyArray(w, depth);
    } else {
      SkipTwice(s, i + 1);
      SameItems(s, i + 1, j, depth + 1);
      inner := ItemsMinified(s, i + 1, depth + 1);
      LeavesConcat(s, i, i + 1, ParseItems(s, i + 1, depth + 1).next, "[", inner);
      FullArray(inner, ParseItems(s, i + 1, depth + 1).value, depth);
    }
    out := "[" + inner;
  }

  lemma EmptyArray(w: string, depth: nat)
    requires White(w) && depth < NESTING_LIMIT
    ensures ValueParses("[" + (w + "]"), Array([]), depth)
  {
    hide White, At, Skip, ParseValue;
    var out := "[" + (w + "]");
    forall m: string, j: nat | Terminated(m) && At(m, j, out) && j < j + |out| < |m|
      ensures ParseValue(m, j, depth) == Ok(Array([]), j + |out|)
    {
      Opening(m, j, "[", w, "]");
      OpensBracket(m, j, depth);
    }
  }

  /** Where a bracket or brace and the one behind it stand. */
  lemma Opening(m: string, j: nat, open: string, w: string, close: string)
    requires Terminated(m) && At(m, j, open + (w + close)) && White(w) && |open| == 1
    requires close != "" && close[0] > ' '
    ensures j + 1 + |w| < |m| && m[j] == open[0] && m[j + 1 + |w|] == close[0] && Skip(m, j + 1) == j + 1 + |w|
  {
    hide White, At, Skip;
    AtConcat(m, j, open, w + close);
    AtConcat(m, j + 1, w, close);
    AtChar(m, j, open, 0);
    AtChar(m, j + 1 + |w|, close, 0);
    SkipWhite(m, j + 1, w);
  }

  lemma FullArray(inner: string, vs: seq<Json>, depth: nat)
    requires ItemsParse(inner, vs, depth + 1) && inner != "" && depth < NESTING_LIMIT
    ensures ValueParses("[" + inner, Array(vs), depth)
  {
    hide At, ParseItems, ParseValue;
    var out := "[" + inner;
    forall m: string, j: nat | Terminated(m) && At(m, j, out) && j < j + |out| < |m|
      ensures ParseValue(m, j, depth) == Ok(Array(vs), j + |out|)
    {
      AtConcat(m, j, "[", inner);
      AtChar(m, j, "[", 0);
      OpensBracket(m, j, depth);
      NotClosed(m, j + 1, depth + 1);
      SkipTwice(m, j + 1);
      SameItems(m, j + 1, Skip(m, j + 1), depth + 1);
    }
  }

  /** What begins with a value or a member does not begin with a closing. */
  lemma NotClosed(m: string, k: nat, depth: nat)
    requires Terminated(m) && k < |m|
    ensures ParseItems(m, k, depth).Ok? ==> m[Skip(m, k)] != ']'
    ensures ParseMembers(m, k, depth).Ok? ==> m[Skip(m, k)] == '\"'
  {
    ValueStart(m, Skip(m, k), depth);
    MemberStart(m, k, depth);
    hide Skip, ParseMember, ParseValue;
  }

  lemma ValueStart(m: string, i: nat, depth: nat)
    requires Terminated(m) && i < |m|
    ensures ParseValue(m, i, depth).Ok? ==> m[i] != ']'
  {
    if m[i] == ']' {
      NotAt(m, i, "null");
      NotAt(m, i, "false");
      NotAt(m, i, "true");
    }
  }

  lemma MemberStart(m: string, k: nat, depth: nat)
    requires Terminated(m) && k < |m|
    ensures ParseMember(m, k, depth).Ok? ==> m[Skip(m, k)] == '\"'
  {
    hide Skip, ParseValue;
  }

  // ---------- objects ----------

  ghost predicate MemberParses(out: string, v: Member, depth: nat) {
    forall m: string, j: nat ::
      Terminated(m) && At(m, j, out) && j < j + |out| < |m| && (m[j + |out|] == ',' || m[j + |out|] == '}') ==>
        ParseMember(m, j, depth) == Ok(v, j + |out|)
  }

  ghost predicate MembersParse(out: string, ms: seq<Member>, depth: nat) {
    forall m: string, j: nat :: Terminated(m) && At(m, j, out) && j < j + |out| < |m| ==>
      ParseMembers(m, j, depth) == Ok(ms, j + |out|)
  }

  lemma MemberMinified(s: string, k: nat, depth: nat) returns (out: string)
    requires Terminated(s) && k < |s| && ParseMember(s, k, depth).Ok?
    requires var c := s[ParseMember(s, k, depth).next]; c == ',' || c == '}'
    ensures var r := ParseMember(s, k, depth); Leaves(s, k, r.next, out) && MemberParses(out, r.value, depth)
    ensures out != ""
    decreases |s| - k, 3
  {
    hide Leaves, ValueParses, MemberParses, ParseValue, ParseString, White, Skip, StringParses;
    var i := Skip(s, k);
    var name := ParseString(s, i);
    var w := SkipLeaves(s, k);
    StringMinified(s, i);
    var literal := s[i..name.next];
    var c := Skip(s, name.next);
    var w' := SkipLeaves(s, name.next);
    CharStays(s, c);
    var before, text, after := AroundMinified(s, c + 1, depth);
    var e := ParseMember(s, k, depth).next;
    var v := before + (text + after);
    LeavesConcat(s, c, c + 1, e, ":", v);
    LeavesConcat(s, name.next, c, e, w', ":" + v);
    LeavesConcat(s, i, name.next, e, literal, w' + (":" + v));
    LeavesConcat(s, k, i, e, w, literal + (w' + (":" + v)));
    out := w + (literal + (w' + (":" + v)));
    MemberAgain(w, literal, w', name.value, before, text, after, ParseMember(s, k, depth).value.value, depth);
  }

  lemma MemberAgain(w: string, literal: string, w': string, name: string,
                    before: string, text: string, after: string, v: Json, depth: nat)
    requires White(w) && White(w') && White(before) && White(after)
    requires StringParses(literal, name) && ValueParses(text, v, depth) && Starts(text)
    ensures MemberParses(w + (literal + (w' + (":" + (before + (text + after))))), Member(name, v), depth)
  {
    var value := before + (text + after);
    var out := w + (literal + (w' + (":" + value)));
    hide White, At, Skip, ParseValue, ParseString, ValueParses;
    forall m: string, j: nat |
      Terminated(m) && At(m, j, out) && j < j + |out| < |m| && (m[j + |out|] == ',' || m[j + |out|] == '}')
      ensures ParseMember(m, j, depth) == Ok(Member(name, v), j + |out|)
    {
      NameAgain(m, j, w, literal, w', value, name);
      var k := j + |w| + |literal| + |w'| + 1;
      WithStop(m, k, before, text, after);
      ValueBetween(m, k, before, text, after, m[j + |out|], v, depth);
    }
  }

  lemma NameAgain(m: string, j: nat, w: string, literal: string, w': string, value: string, name: string)
    requires Terminated(m) && At(m, j, w + (literal + (w' + (":" + value))))
    requires White(w) && White(w') && StringParses(literal, name)
    ensures var i := j + |w|;
            var n := i + |literal|;
            && Skip(m, j) == i < n < |m| && ParseString(m, i) == Ok(name, n)
            && Skip(m, n) == n + |w'| < |m| && m[n + |w'|] == ':' && At(m, n + |w'| + 1, value)
  {
    hide White, At, Skip, ParseString;
    AtConcat(m, j, w, literal + (w' + (":" + value)));
    var i := j + |w|;
    AtConcat(m, i, literal, w' + (":" + value));
    AtChar(m, i, literal, 0);
    SkipWhite(m, j, w);
    var n := i + |literal|;
    AtConcat(m, n, w', ":" + value);
    AtConcat(m, n + |w'|, ":", value);
    AtChar(m, n + |w'|, ":", 0);
    SkipWhite(m, n, w');
  }

  lemma WithStop(m: string, k: nat, before: string, text: string, after: string)
    requires At(m, k, before + (text + after)) && k + |before + (text + after)| < |m|
    ensures var c := m[k + |before + (text + after)|]; At(m, k, before + (text + (after + [c])))
  {
    var c := m[k + |before + (text + after)|];
    assert before + (text + (after + [c])) == (before + (text + after)) + [c];
    AtConcat(m, k, before + (text + after), [c]);
  }

  lemma MembersMinified(s: string, k: nat, depth: nat) returns (out: string)
    requires Terminated(s) && k < |s| && ParseMembers(s, k, depth).Ok?
    ensures var r := ParseMembers(s, k, depth); Leaves(s, k, r.next, out) && MembersParse(out, r.value, depth)
    ensures out != ""
    decreases |s| - k, 4
  {
    hide Leaves, MemberParses, MembersParse, ParseMember;
    var member := ParseMember(s, k, depth);
    var e := member.next;
    var first := MemberMinified(s, k, depth);
    CharStays(s, e);
    LeavesConcat(s, k, e, e + 1, first, [s[e]]);
    if s[e] == ',' {
      var rest := MembersMinified(s, e + 1, depth);
      var tail := ParseMembers(s, e + 1, depth);
      LeavesConcat(s, k, e + 1, tail.next, first + ",", rest);
      out := first + "," + rest;
      MoreMembers(first, rest, member.value, tail.value, depth);
    } else {
      out := first + "}";
      LastMember(first, member.value, depth);
    }
  }

  lemma LastMember(first: string, v: Member, depth: nat)
    requires MemberParses(first, v, depth) && first != ""
    ensures MembersParse(first + "}", [v], depth)
  {
    hide At, ParseMember;
    var out := first + "}";
    forall m: string, j: nat | Terminated(m) && At(m, j, out) && j < j + |out| < |m|
      ensures ParseMembers(m, j, depth) == Ok([v], j + |out|)
    {
      AtConcat(m, j, first, "}");
      AtChar(m, j + |first|, "}", 0);
    }
  }

  lemma MoreMembers(first: string, rest: string, v: Member, vs: seq<Member>, depth: nat)
    requires MemberParses(first, v, depth) && MembersParse(rest, vs, depth) && first != "" && rest != ""
    ensures MembersParse(first + "," + rest, [v] + vs, depth)
  {
    hide At, ParseMember;
    var out := first + "," + rest;
    forall m: string, j: nat | Terminated(m) && At(m, j, out) && j < j + |out| < |m|
      ensures ParseMembers(m, j, depth) == Ok([v] + vs, j + |out|)
    {
      AtConcat(m, j, first + ",", rest);
      AtConcat(m, j, first, ",");
      AtChar(m, j + |first|, ",", 0);
    }
  }

  lemma ObjectMinified(s: string, i: nat, depth: nat) returns (out: string)
    requires Terminated(s) && i < |s| && s[i] == '{' && ParseObject(s, i, depth).Ok?
    ensures var r := ParseObject(s, i, depth); Leaves(s, i, r.next, out) && ValueParses(out, r.value, depth)
    ensures out != "" && out[0] == '{'
    decreases |s| - i, 1
  {
    CharStays(s, i);
    var j := Skip(s, i + 1);
    hide Leaves, ValueParses, MembersParse, ParseMembers, Skip, White;
    var inner: string;
    if s[j] == '}' {
      var w := SkipLeaves(s, i + 1);
      CharStays(s, j);
      LeavesConcat(s, i + 1, j, j + 1, w, "}");
      LeavesConcat(s, i, i + 1, j + 1, "{", w + "}");
      inner := w + "}";
      EmptyObject(w, depth);
    } else {
      SkipTwice(s, i + 1);
      SameMembers(s, i + 1, j, depth + 1);
      inner := MembersMinified(s, i + 1, depth + 1);
      LeavesConcat(s, i, i + 1, ParseMembers(s, i + 1, depth + 1).next, "{", inner);
      FullObject(inner, ParseMembers(s, i + 1, depth + 1).value, depth);
    }
    out := "{" + inner;
  }

  lemma EmptyObject(w: string, depth: nat)
    requires White(w) && depth < NESTING_LIMIT
    ensures ValueParses("{" + (w + "}"), Object([]), depth)
  {
    hide White, At, Skip, ParseValue;
    var out := "{" + (w + "}");
    forall m: string, j: nat | Terminated(m) && At(m, j, out) && j < j + |out| < |m|
      ensures ParseValue(m, j, depth) == Ok(Object([]), j + |out|)
    {
      Opening(m, j, "{", w, "}");
      OpensBracket(m, j, depth);
    }
  }

  lemma FullObject(inner: string, ms: seq<Member>, depth: nat)
    requires MembersParse(inner, ms, depth + 1) && inner != "" && depth < NESTING_LIMIT
    ensures ValueParses("{" + inner, Object(ms), depth)
  {
    hide At, ParseMembers, ParseValue;
    var out := "{" + inner;
    forall m: string, j: nat | Terminated(m) && At(m, j, out) && j < j + |out| < |m|
      ensures ParseValue(m, j, depth) == Ok(Object(ms), j + |out|)
    {
      AtConcat(m, j, "{", inner);
      AtChar(m, j, "{", 0);
      OpensBracket(m, j, depth);
      NotClosed(m, j + 1, depth + 1);
      SkipTwice(m, j + 1);
      SameMembers(m, j + 1, Skip(m, j + 1), depth + 1);
    }
  }

  // ---------- whole documents ----------

  lemma {:induction false} MinifyNulFree(s: string, i: nat)
    requires Terminated(s) && i < |s| && Minify(s, i).Some?
    ensures NulFree(Minify(s, i).value)
    decreases |s| - i
  {
    if s[i] == NUL {
    } else if Blank(s[i]) {
      MinifyNulFree(s, i + 1);
    } else if s[i] == '/' && s[i + 1] == '/' {
      MinifyNulFree(s, LineEnd(s, i + 1));
    } else if s[i] == '/' && s[i + 1] == '*' {
      MinifyNulFree(s, CommentEnd(s, i + 1) + 2);
    } else if s[i] == '\"' {
      var e := QuoteEnd(s, i + 1).value;
      MinifyNulFree(s, e + 1);
      forall k | i <= k <= e ensures s[k] != NUL { NoNul(s, k); }
    } else {
      MinifyNulFree(s, i + 1);
    }
  }

  lemma NoNul(s: string, k: nat)
    requires Terminated(s) && k < |s| - 1
    ensures s[k] != NUL
  {
    assert s[..|s| - 1][k] == s[k];
  }

  /** What the byte order mark and the value, with white space, leave. */
  lemma DocumentLeaves(s: string) returns (mark: string, w: string, text: string, w': string)
    requires Terminated(s) && ParseValue(s, Skip(s, SkipBom(s)), 0).Ok?
    requires s[Skip(s, ParseValue(s, Skip(s, SkipBom(s)), 0).next)] == NUL
    ensures mark == (if SkipBom(s) == 3 then BOM else "")
    ensures Minify(s, 0) == Some(mark + (w + (text + w')))
    ensures ValueParses(text, ParseValue(s, Skip(s, SkipBom(s)), 0).value, 0)
    ensures White(w) && White(w') && Starts(text)
  {
    var b := SkipBom(s);
    var r := ParseValue(s, Skip(s, b), 0);
    var e := Skip(s, r.next);
    if b == 3 {
      mark := BOM;
      TextStays(s, 0, BOM);
    } else {
      mark := "";
      KeepNothing(Minify(s, 0));
    }
    assert Minify(s, e) == Some("");
    hide Minify, ParseValue, ValueParses, White, At, SkipBom;
    w, text, w' := AroundMinified(s, b, 0);
    var out := w + (text + w');
    LeavesConcat(s, 0, b, e, mark, out);
    assert mark + out + "" == mark + out;
  }

  lemma SameMark(m: string, mark: string, w: string, text: string, tail: string)
    requires m == mark + (w + (text + tail)) && White(w) && Starts(text) && tail != ""
    requires mark == BOM || mark == ""
    ensures SkipBom(m) == |mark|
  {
    if mark == BOM {
      assert m[0..3] == BOM;
    } else {
      assert m[0] == if w == "" then text[0] else w[0];
      NotAt(m, 0, BOM);
    }
  }

  /** What cJSON_Minify leaves of a text that the parser accepts to its end is a
      text that it accepts to its end, with the same item; and there is no
      unclosed literal or comment for cJSON_Minify to overrun. */
  lemma MinifiedParses(text: string, v: Json)
    requires NulFree(text) && ParseDocument(text, true) == Some(v)
    ensures Terminated(text + [NUL]) && Closed(text + [NUL], 0, Outside)
    ensures var r := Minify(text + [NUL], 0);
            r.Some? && NulFree(r.value) && ParseDocument(r.value, true) == Some(v)
  {
    hide Minify, ParseValue, ValueParses, White, At, SkipBom, Closed, Skip, Starts;
    var s := text + [NUL];
    assert s[..|s| - 1] == text;
    var mark, w, value, w' := DocumentLeaves(s);
    MinifyClosedIff(s, 0);
    MinifyNulFree(s, 0);
    DocumentAgain(mark, w, value, w', v);
  }

  lemma DocumentAgain(mark: string, w: string, value: string, w': string, v: Json)
    requires var out := mark + (w + (value + w')); NulFree(out)
    requires White(w) && White(w') && Starts(value) && ValueParses(value, v, 0) && (mark == BOM || mark == "")
    ensures ParseDocument(mark + (w + (value + w')), true) == Some(v)
  {
    hide ParseValue, ValueParses, White, At, SkipBom, Skip, Starts;
    var out := mark + (w + (value + w'));
    var m := out + [NUL];
    assert m[..|m| - 1] == out;
    Ended(mark, w, value, w');
    var tail := w + (value + (w' + [NUL]));
    SameMark(m, mark, w, value, w' + [NUL]);
    AtEnd(mark, tail);
    ValueBetween(m, |mark|, w, value, w', NUL, v, 0);
  }

  lemma Ended(a: string, b: string, c: string, d: string)
    ensures a + (b + (c + d)) + [NUL] == a + (b + (c + (d + [NUL])))
  {
  }

  lemma AtEnd(a: string, b: string)
    ensures At(a + b, |a|, b)
  {
  }
}
