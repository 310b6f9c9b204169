/** The parser of test/util/cJSON.c: a buffer with an offset and a depth that
    the parse functions advance, proved against the functions of JsonStrings
    and JsonValues. */
module JsonParser {
  import opened Common
  import opened JsonStrings
  import opened JsonValues

  // ---------- how much room the unescaped text needs ----------

  /** The escape pairs that the first loop of parse_string counts from `i` on. */
  ghost function PairCount(s: string, i: nat): nat
    requires i <= |s|
    decreases |s| - i
  {
    if i >= |s| || s[i] == '\"' then 0
    else if s[i] == '\\' then (if i + 1 >= |s| then 0 else 1 + PairCount(s, i + 2))
    else PairCount(s, i + 1)
  }

  /** The second loop is at `p`, and the first loop, which takes a backslash and
      its successor together, also stops at `sync`: at `p` or the next position.
      Invalid \u digits can make the two fall out of step. */
  ghost predicate InStep(s: string, p: nat, sync: nat, end: nat) {
    && end < |s| && p <= sync <= p + 1 && sync <= end
    && ScanString(s, sync) == Some(end)
  }

  /** A bound on the characters still to be written. */
  ghost function Room(s: string, p: nat, sync: nat, end: nat): int
    requires InStep(s, p, sync, end)
  {
    end - p - PairCount(s, sync)
  }

  lemma {:induction false} RoomLeft(s: string, p: nat, sync: nat, end: nat)
    requires InStep(s, p, sync, end)
    ensures Room(s, p, sync, end) >= 0
    decreases |s| - sync
  {
    PairsFit(s, sync, end);
  }

  lemma {:induction false} PairsFit(s: string, i: nat, end: nat)
    requires i <= |s| && ScanString(s, i) == Some(end)
    ensures i <= end && 2 * PairCount(s, i) <= end - i
    decreases |s| - i
  {
    if s[i] == '\"' {
    } else if s[i] == '\\' {
      PairsFit(s, i + 2, end);
    } else {
      PairsFit(s, i + 1, end);
    }
  }

  /** Moving on by one character uses up one character of room, except at the
      backslash of a pair. */
  lemma StepOne(s: string, p: nat, sync: nat, end: nat) returns (sync': nat)
    requires InStep(s, p, sync, end) && p < end
    ensures InStep(s, p + 1, sync', end)
    ensures Room(s, p + 1, sync', end) ==
            Room(s, p, sync, end) - if sync == p && s[p] == '\\' then 0 else 1
    ensures sync == p && s[p] == '\\' ==> sync' == p + 2
  {
    if sync == p {
      PairsFit(s, sync, end);
      sync' := if s[p] == '\\' then p + 2 else p + 1;
      PairsFit(s, sync', end);
    } else {
      sync' := sync;
    }
  }

  lemma StepTwo(s: string, p: nat, sync: nat, end: nat) returns (sync': nat)
    requires InStep(s, p, sync, end) && p + 2 <= end
    ensures InStep(s, p + 2, sync', end)
    ensures Room(s, p + 2, sync', end) <= Room(s, p, sync, end) - 1
  {
    var mid := StepOne(s, p, sync, end);
    sync' := StepOne(s, p + 1, mid, end);
  }

  lemma {:induction false} StepMany(s: string, p: nat, sync: nat, end: nat, n: nat) returns (sync': nat)
    requires InStep(s, p, sync, end) && p + 2 * n <= end
    ensures InStep(s, p + 2 * n, sync', end)
    ensures Room(s, p + 2 * n, sync', end) <= Room(s, p, sync, end) - n
    decreases n
  {
    if n == 0 {
      sync' := sync;
    } else {
      var mid := StepTwo(s, p, sync, end);
      sync' := StepMany(s, p + 2, mid, end, n - 1);
    }
  }

  // ---------- \u escapes ----------

  /** The bytes utf16_literal_to_utf8 writes: `(x | 0x80) & 0xBF` sets bit 7 and
      clears bit 6 of the low byte, which is 0x80 plus the low six bits. */
  function ContinuationByte(codepoint: nat): char { (0x80 + codepoint % 0x40) as char }

  /** utf16_literal_to_utf8 at `i`: writes the bytes from `at` on and returns
      the number of characters consumed, 0 on failure. */
  method Utf16LiteralToUtf8(s: string, i: nat, end: nat, output: array<char>, at: nat)
    returns (sequenceLength: nat, utf8Length: nat)
    requires i <= end <= |s|
    requires Utf16Literal(s, i, end).Some? ==> at + |Utf16Literal(s, i, end).value.0| <= output.Length
    modifies output
    ensures var u := Utf16Literal(s, i, end);
            && (u.None? <==> sequenceLength == 0)
            && (u.Some? ==>
                  && sequenceLength == u.value.1 && utf8Length == |u.value.0|
                  && output[at..at + utf8Length] == u.value.0)
    ensures forall k :: 0 <= k < output.Length && (sequenceLength == 0 || !(at <= k < at + utf8Length)) ==>
              output[k] == old(output[k])
  {
    utf8Length := 0;
    if end - i < 6 {
      return 0, 0;
    }
    var firstCode := ParseHex4(s, i + 2);
    if 0xDC00 <= firstCode <= 0xDFFF {
      return 0, 0;
    }
    var codepoint: nat;
    if 0xD800 <= firstCode <= 0xDBFF {
      sequenceLength := 12;
      if end - (i + 6) < 6 {
        return 0, 0;
      }
      if s[i + 6] != '\\' || s[i + 7] != 'u' {
        return 0, 0;
      }
      var secondCode := ParseHex4(s, i + 8);
      if secondCode < 0xDC00 || secondCode > 0xDFFF {
        return 0, 0;
      }
      codepoint := 0x10000 + (firstCode % 0x400 * 0x400 + secondCode % 0x400);
    } else {
      sequenceLength := 6;
      codepoint := firstCode;
    }
    utf8Length := WriteUtf8(codepoint, output, at);
  }

  /** The encoding loop: from the last byte back to the first. */
  method WriteUtf8(cp: nat, output: array<char>, at: nat) returns (utf8Length: nat)
    requires cp <= 0x10FFFF && at + |Utf8(cp)| <= output.Length
    modifies output
    ensures utf8Length == |Utf8(cp)| && output[at..at + utf8Length] == Utf8(cp)
    ensures forall k :: 0 <= k < output.Length && !(at <= k < at + utf8Length) ==> output[k] == old(output[k])
  {
    Utf8Length(cp);
    hide Utf8, Shifted;
    var codepoint, firstByteMark := cp, 0;
    if codepoint < 0x80 {
      utf8Length := 1;
    } else if codepoint < 0x800 {
      utf8Length := 2;
      firstByteMark := 0xC0;
    } else if codepoint < 0x10000 {
      utf8Length := 3;
      firstByteMark := 0xE0;
    } else {
      utf8Length := 4;
      firstByteMark := 0xF0;
    }
    ghost var u := Utf8(cp);
    var position := utf8Length - 1;
    ShiftedNone(cp);
    while position > 0
      invariant 0 <= position < utf8Length
      invariant codepoint == Shifted(cp, utf8Length - 1 - position)
      invariant forall k :: position < k < utf8Length ==> output[at + k] == u[k]
      invariant forall k :: 0 <= k < output.Length && !(at <= k < at + utf8Length) ==> output[k] == old(output[k])
    {
      output[at + position] := ContinuationByte(codepoint);
      ShiftedByte(cp, utf8Length, position);
      ShiftedMore(cp, utf8Length - 1 - position);
      codepoint := codepoint / 0x40;
      position := position - 1;
    }
    ShiftedByte(cp, utf8Length, 0);
    if utf8Length > 1 {
      output[at] := (codepoint + firstByteMark) as char;
    } else {
      output[at] := (codepoint % 0x80) as char;
    }
    forall k | 0 <= k < utf8Length ensures output[at..at + utf8Length][k] == u[k] {
      assert output[at..at + utf8Length][k] == output[at + k];
    }
  }

  lemma Utf8Length(cp: nat)
    requires cp <= 0x10FFFF
    ensures |Utf8(cp)| == if cp < 0x80 then 1 else if cp < 0x800 then 2 else if cp < 0x10000 then 3 else 4
  {
  }

  lemma ShiftedNone(cp: nat)
    ensures Shifted(cp, 0) == cp
  {
  }

  lemma ShiftedMore(cp: nat, n: nat)
    ensures Shifted(cp, n + 1) == Shifted(cp, n) / 0x40
  {
  }

  /** `codepoint >>= 6`, `n` times */
  ghost function Shifted(cp: nat, n: nat): nat {
    if n == 0 then cp else Shifted(cp, n - 1) / 0x40
  }

  /** Each byte of the encoding, from the shifted code point. */
  lemma ShiftedByte(cp: nat, length: nat, position: nat)
    requires cp <= 0x10FFFF && length == |Utf8(cp)| && position < length
    ensures var c := Shifted(cp, length - 1 - position);
            && (position > 0 ==> Utf8(cp)[position] == ContinuationByte(c))
            && (position == 0 ==>
                  var mark := if length == 1 then 0 else if length == 2 then 0xC0
                               else if length == 3 then 0xE0 else 0xF0;
                  c + mark < 0x100 && Utf8(cp)[0] == (c + mark) as char && (length == 1 ==> c < 0x80))
  {
    Sextets(cp);
    assert Shifted(cp, 1) == cp / 0x40;
    assert Shifted(cp, 2) == Shifted(cp, 1) / 0x40 == cp / 0x1000;
    assert Shifted(cp, 3) == Shifted(cp, 2) / 0x40 == cp / 0x40000;
  }

  // ---------- the parse buffer ----------

  /** What is known of a whole result once a part and the rest are known. */
  ghost function Prefixed<T>(part: seq<T>, rest: Option<seq<T>>): Option<seq<T>> {
    if rest.None? then None else Some(part + rest.value)
  }

  ghost function Before<T>(part: seq<T>, rest: Parsed<seq<T>>): Parsed<seq<T>> {
    if rest.Fail? then Fail else Ok(part + rest.value, rest.next)
  }

  lemma PrefixedTwice<T>(a: seq<T>, b: seq<T>, rest: Option<seq<T>>)
    ensures Prefixed(a, Prefixed(b, rest)) == Prefixed(a + b, rest)
  {
    if rest.Some? { assert a + (b + rest.value) == a + b + rest.value; }
  }

  lemma PrefixedNone<T>(rest: Option<seq<T>>)
    ensures Prefixed([], rest) == rest
  {
    if rest.Some? { assert [] + rest.value == rest.value; }
  }

  lemma BeforeNone<T>(rest: Parsed<seq<T>>)
    ensures Before([], rest) == rest
  {
    if rest.Ok? { assert [] + rest.value == rest.value; }
  }

  lemma BeforeTwice<T>(a: seq<T>, b: seq<T>, rest: Parsed<seq<T>>)
    ensures Before(a, Before(b, rest)) == Before(a + b, rest)
  {
    if rest.Ok? { assert a + (b + rest.value) == a + b + rest.value; }
  }

  /** One turn of the decoding loop of parse_string: what is written and how
      far the input pointer moves; None on a bad escape. */
  ghost function DecodeStep(s: string, p: nat, end: nat): (r: Option<(string, nat)>)
    requires p < end < |s|
    ensures DecodeString(s, p, end) ==
            if r.None? then None else Prefixed(r.value.0, DecodeString(s, p + r.value.1, end))
  {
    if s[p] != '\\' then Some(([s[p]], 1))
    else if s[p + 1] == 'u' then Utf16Literal(s, p, end)
    else if Unescape(s[p + 1]).None? then None
    else Some(([Unescape(s[p + 1]).value], 2))
  }

  lemma NoStep(s: string, p: nat, end: nat, written: string)
    requires p < end < |s| && DecodeStep(s, p, end).None?
    ensures Prefixed(written, DecodeString(s, p, end)).None?
  {
  }

  lemma DecodedAll(s: string, p: nat, end: nat, written: string)
    requires p >= end && end < |s|
    ensures Prefixed(written, DecodeString(s, p, end)) == Some(written)
  {
    assert written + "" == written;
  }

  lemma StartInStep(s: string, start: nat, end: nat)
    requires end < |s| && start <= end && ScanString(s, start) == Some(end)
    ensures InStep(s, start, start, end)
    ensures Room(s, start, start, end) == end - start - PairCount(s, start) >= 0
  {
    PairsFit(s, start, end);
  }

  /** The characters of a \u escape fit into the room its text frees. */
  lemma LiteralFits(s: string, p: nat, sync: nat, end: nat)
    returns (sync': nat)
    requires InStep(s, p, sync, end) && p < end && Utf16Literal(s, p, end).Some?
    ensures var u := Utf16Literal(s, p, end).value;
            && p + u.1 <= end && InStep(s, p + u.1, sync', end)
            && |u.0| + Room(s, p + u.1, sync', end) <= Room(s, p, sync, end)
  {
    var u := Utf16Literal(s, p, end).value;
    assert u.1 == 6 || u.1 == 12;
    LiteralSpec(s, p, end);
    assert u.1 == 6 ==> |u.0| <= 3;
    assert |u.0| <= 4;
    sync' := StepMany(s, p, sync, end, u.1 / 2);
  }

  /** Only the last character is NUL. */
  lemma NotLast(s: string, i: nat)
    requires Terminated(s) && i < |s| && s[i] != NUL
    ensures i + 1 < |s|
  {
  }

  /** One turn of the loop of parse_array. */
  lemma ItemsStep(s: string, k: nat, depth: nat)
    requires Terminated(s) && k < |s|
    ensures var v := ParseValue(s, Skip(s, k), depth);
            ParseItems(s, k, depth) ==
              if v.Fail? then Fail
              else
                var e := Skip(s, v.next);
                if s[e] == ',' && e + 1 < |s| then Before([v.value], ParseItems(s, e + 1, depth))
                else if s[e] == ']' then Ok([v.value], e + 1)
                else Fail
  {
    hide Skip, ParseValue;
    var v := ParseValue(s, Skip(s, k), depth);
    if v.Ok? && s[Skip(s, v.next)] == ',' {
      NotLast(s, Skip(s, v.next));
    }
  }

  /** The collected characters are the longest run that fits. */
  lemma {:induction false} CollectedNumber(s: string, i: nat, room: nat, n: nat)
    requires n <= room && i + n <= |s| && forall k :: i <= k < i + n ==> NumberChar(s[k])
    requires n == room || i + n == |s| || !NumberChar(s[i + n])
    ensures NumberText(s, i, room) == s[i..i + n]
    decreases n
  {
    if n > 0 {
      CollectedNumber(s, i + 1, room - 1, n - 1);
    }
  }

  /** One turn of the loop of parse_object. */
  lemma MembersStep(s: string, k: nat, depth: nat)
    requires Terminated(s) && k < |s|
    ensures var m := ParseMember(s, k, depth);
            ParseMembers(s, k, depth) ==
              if m.Fail? then Fail
              else if s[m.next] == ',' && m.next + 1 < |s| then
                Before([m.value], ParseMembers(s, m.next + 1, depth))
              else if s[m.next] == '}' then Ok([m.value], m.next + 1)
              else Fail
  {
    hide ParseMember;
    var m := ParseMember(s, k, depth);
    if m.Ok? && s[m.next] == ',' {
      NotLast(s, m.next);
    }
  }

  class ParseBuffer {
    const content: string
    var offset: nat
    var depth: nat

    constructor (content: string)
      ensures this.content == content && offset == 0 && depth == 0
    {
      this.content := content;
      offset := 0;
      depth := 0;
    }

    ghost predicate Valid()
      reads this
    {
      Terminated(content) && offset < |content|
    }

    /** buffer_skip_whitespace */
    method SkipWhitespace()
      requires content != "" && offset <= |content|
      modifies this`offset
      ensures offset == Skip(content, old(offset))
    {
      while offset < |content| && content[offset] <= ' '
        invariant offset <= |content|
        invariant Skip(content, offset) == Skip(content, old(offset))
      {
        offset := offset + 1;
      }
      if offset == |content| {
        offset := offset - 1;
      }
    }

    /** The first loop of parse_string: the closing quote and the number of
        escape pairs before it. */
    method FindStringEnd() returns (inputEnd: nat, skippedBytes: nat, found: bool)
      requires Valid()
      ensures found <==> ScanString(content, offset + 1).Some?
      ensures found ==> ScanString(content, offset + 1) == Some(inputEnd)
      ensures found ==> skippedBytes == PairCount(content, offset + 1)
    {
      inputEnd, skippedBytes := offset + 1, 0;
      while inputEnd < |content| && content[inputEnd] != '\"'
        invariant offset + 1 <= inputEnd <= |content|
        invariant ScanString(content, inputEnd) == ScanString(content, offset + 1)
        invariant skippedBytes + PairCount(content, inputEnd) == PairCount(content, offset + 1)
      {
        if content[inputEnd] == '\\' {
          if inputEnd + 1 >= |content| {
            return inputEnd, skippedBytes, false;
          }
          skippedBytes := skippedBytes + 1;
          inputEnd := inputEnd + 1;
        }
        inputEnd := inputEnd + 1;
      }
      found := inputEnd < |content|;
    }

    /** The second loop of parse_string.  `output` has room for what the first
        loop measured and the terminating NUL. */
    method Decode(start: nat, end: nat, output: array<char>) returns (n: nat, ok: bool)
      requires end < |content| && start <= end && ScanString(content, start) == Some(end)
      requires output.Length == end - start - PairCount(content, start) + 2
      modifies output
      ensures ok <==> DecodeString(content, start, end).Some?
      ensures ok ==> n + 1 < output.Length && output[..n] == DecodeString(content, start, end).value
    {
      hide ScanString, DecodeString, Utf16Literal, ParseHex4, Utf8, Room, InStep, PairCount, Unescape, Prefixed;
      n := 0;
      var p := start;
      ghost var sync := start;
      StartInStep(content, start, end);
      PrefixedNone(DecodeString(content, start, end));
      while p < end
        invariant start <= p <= end + 1
        invariant n + 2 <= output.Length
        invariant p <= end ==> InStep(content, p, sync, end) && n + Room(content, p, sync, end) + 2 <= output.Length
        invariant DecodeString(content, start, end) == Prefixed(output[..n], DecodeString(content, p, end))
        decreases end - p
      {
        ghost var before := output[..n];
        ghost var step := DecodeStep(content, p, end);
        RoomLeft(content, p, sync, end);
        if content[p] != '\\' {
          sync := StepOne(content, p, sync, end);
          RoomLeft(content, p + 1, sync, end);
          output[n] := content[p];
          n, p := n + 1, p + 1;
        } else if content[p + 1] == 'u' {
          if Utf16Literal(content, p, end).Some? {
            sync := LiteralFits(content, p, sync, end);
            RoomLeft(content, p + Utf16Literal(content, p, end).value.1, sync, end);
          }
          var sequenceLength, utf8Length := Utf16LiteralToUtf8(content, p, end, output, n);
          if sequenceLength == 0 {
            NoStep(content, p, end, before);
            return n, false;
          }
          n, p := n + utf8Length, p + sequenceLength;
        } else {
          var c := Unescape(content[p + 1]);
          if c.None? {
            NoStep(content, p, end, before);
            return n, false;
          }
          if p + 2 <= end {
            sync := StepTwo(content, p, sync, end);
            RoomLeft(content, p + 2, sync, end);
          } else {
            LastPair(content, p, sync, end);
          }
          output[n] := c.value;
          n, p := n + 1, p + 2;
        }
        assert output[..n] == before + step.value.0;
        PrefixedTwice(before, step.value.0, DecodeString(content, p, end));
      }
      DecodedAll(content, p, end, output[..n]);
      ok := true;
    }

    /** parse_string: the scanned text is unescaped into a buffer whose size
        the scan determined, and never beyond it. */
    method ParseStringLiteral() returns (text: Option<string>)
      requires Valid()
      modifies this`offset
      ensures text.Some? <==> ParseString(content, old(offset)).Ok?
      ensures text.Some? ==> ParseString(content, old(offset)) == Ok(text.value, offset)
    {
      if content[offset] != '\"' {
        offset := offset + 1;
        return None;
      }
      var inputEnd, skippedBytes, found := FindStringEnd();
      if !found {
        offset := offset + 1;
        return None;
      }
      PairsFit(content, offset + 1, inputEnd);
      var allocationLength := inputEnd - offset - skippedBytes;
      var output := new char[allocationLength + 1];
      var n, ok := Decode(offset + 1, inputEnd, output);
      if !ok {
        return None;
      }
      output[n] := NUL;
      text := Some(output[..n]);
      offset := inputEnd + 1;
    }

    /** The copying loop of parse_number: the characters collected for strtod,
        at most 63 of them and a NUL. */
    method CopyNumber() returns (number: string)
      requires Valid()
      ensures number == NumberText(content, offset, 63)
    {
      hide NumberText;
      var buffer := new char[64];
      var i := 0;
      while i < 63 && offset + i < |content| && NumberChar(content[offset + i])
        invariant 0 <= i <= 63 && offset + i <= |content|
        invariant forall k :: 0 <= k < i ==> buffer[k] == content[offset + k]
        invariant forall k :: offset <= k < offset + i ==> NumberChar(content[k])
      {
        buffer[i] := content[offset + i];
        i := i + 1;
      }
      CollectedNumber(content, offset, 63, i);
      buffer[i] := NUL;
      number := buffer[..i];
    }

    /** parse_number */
    method ParseNumberText() returns (item: Option<Json>)
      requires Valid()
      modifies this`offset
      ensures Agrees(item, ParseNumber(content, old(offset)))
    {
      var number := CopyNumber();
      var length := StrtodLength(number);
      if length == 0 {
        return None;
      }
      item := Some(Number(number[..length]));
      offset := offset + length;
    }

    /** A parse method's result is what the specification gives, and the offset
        stands behind what was read. */
    ghost predicate Agrees<T>(item: Option<T>, spec: Parsed<T>)
      reads this
    {
      match item
      case None => spec.Fail?
      case Some(v) => spec == Ok(v, offset)
    }

    /** parse_value */
    method ParseItem() returns (item: Option<Json>)
      requires Valid()
      modifies this
      ensures Agrees(item, ParseValue(content, old(offset), old(depth)))
      ensures item.Some? ==> Valid() && depth == old(depth)
      decreases |content| - offset, 2
    {
      if At(content, offset, "null") {
        Inside(content, offset, "null");
        offset := offset + 4;
        item := Some(Null);
      } else if At(content, offset, "false") {
        Inside(content, offset, "false");
        offset := offset + 5;
        item := Some(False);
      } else if At(content, offset, "true") {
        Inside(content, offset, "true");
        offset := offset + 4;
        item := Some(True);
      } else if content[offset] == '\"' {
        var text := ParseStringLiteral();
        item := if text.Some? then Some(Str(text.value)) else None;
      } else if content[offset] == '-' || '0' <= content[offset] <= '9' {
        item := ParseNumberText();
      } else if content[offset] == '[' {
        item := ParseArrayItems();
      } else if content[offset] == '{' {
        item := ParseObjectMembers();
      } else {
        item := None;
      }
    }

    /** parse_array */
    method ParseArrayItems() returns (item: Option<Json>)
      requires Valid() && content[offset] == '['
      modifies this
      ensures Agrees(item, ParseArray(content, old(offset), old(depth)))
      ensures item.Some? ==> Valid() && depth == old(depth)
      decreases |content| - offset, 1
    {
      hide ParseItems, ParseValue, Skip;
      if depth >= NESTING_LIMIT {
        return None;
      }
      depth := depth + 1;
      NotLast(content, offset);
      offset := offset + 1;
      SkipWhitespace();
      if content[offset] == ']' {
        NotLast(content, offset);
        depth := depth - 1;
        offset := offset + 1;
        return Some(Array([]));
      }
      ghost var spec := ParseItems(content, offset, depth);
      offset := offset - 1;
      var items: seq<Json> := [];
      BeforeNone(spec);
      while true
        invariant old(offset) <= offset && offset + 1 < |content| && depth == old(depth) + 1
        invariant spec == Before(items, ParseItems(content, offset + 1, depth))
        decreases |content| - offset
      {
        ghost var k := offset + 1;
        offset := offset + 1;
        SkipWhitespace();
        ItemsStep(content, k, depth);
        var v := ParseItem();
        if v.None? {
          return None;
        }
        SkipWhitespace();
        if content[offset] == ',' {
          NotLast(content, offset);
          BeforeTwice(items, [v.value], ParseItems(content, offset + 1, depth));
        }
        items := items + [v.value];
        if content[offset] != ',' {
          break;
        }
      }
      if content[offset] != ']' {
        return None;
      }
      depth := depth - 1;
      offset := offset + 1;
      item := Some(Array(items));
    }

    /** parse_object */
    method ParseObjectMembers() returns (item: Option<Json>)
      requires Valid() && content[offset] == '{'
      modifies this
      ensures Agrees(item, ParseObject(content, old(offset), old(depth)))
      ensures item.Some? ==> Valid() && depth == old(depth)
      decreases |content| - offset, 1
    {
      hide ParseMembers, ParseMember, ParseValue, Skip;
      if depth >= NESTING_LIMIT {
        return None;
      }
      depth := depth + 1;
      NotLast(content, offset);
      offset := offset + 1;
      SkipWhitespace();
      if content[offset] == '}' {
        NotLast(content, offset);
        depth := depth - 1;
        offset := offset + 1;
        return Some(Object([]));
      }
      ghost var spec := ParseMembers(content, offset, depth);
      offset := offset - 1;
      var members: seq<Member> := [];
      BeforeNone(spec);
      while true
        invariant old(offset) <= offset && offset + 1 < |content| && depth == old(depth) + 1
        invariant spec == Before(members, ParseMembers(content, offset + 1, depth))
        decreases |content| - offset
      {
        offset := offset + 1;
        MembersStep(content, offset, depth);
        var m := ParseObjectMember();
        if m.None? {
          return None;
        }
        if content[offset] == ',' {
          NotLast(content, offset);
          BeforeTwice(members, [m.value], ParseMembers(content, offset + 1, depth));
        }
        members := members + [m.value];
        if content[offset] != ',' {
          break;
        }
      }
      if content[offset] != '}' {
        return None;
      }
      depth := depth - 1;
      offset := offset + 1;
      item := Some(Object(members));
    }

    /** The body of the loop of parse_object. */
    method ParseObjectMember() returns (member: Option<Member>)
      requires Valid()
      modifies this
      ensures Agrees(member, ParseMember(content, old(offset), old(depth)))
      ensures member.Some? ==> Valid() && depth == old(depth)
      decreases |content| - offset, 3
    {
      hide ParseValue, ParseString;
      SkipWhitespace();
      var name := ParseStringLiteral();
      if name.None? {
        return None;
      }
      SkipWhitespace();
      if content[offset] != ':' {
        return None;
      }
      NotLast(content, offset);
      offset := offset + 1;
      SkipWhitespace();
      var value := ParseItem();
      if value.None? {
        return None;
      }
      SkipWhitespace();
      member := Some(Member(name.value, value.value));
    }
  }

  /** A pair that straddles the closing quote still has room for one character. */
  lemma LastPair(s: string, p: nat, sync: nat, end: nat)
    requires InStep(s, p, sync, end) && p < end && p + 2 > end && s[p] == '\\'
    ensures Room(s, p, sync, end) == 1
  {
    if sync == p {
      PairsFit(s, p, end);
    }
  }

  /** cJSON_ParseWithOpts */
  method ParseWithOpts(text: string, requireNullTerminated: bool) returns (item: Option<Json>)
    requires NulFree(text)
    ensures item == ParseDocument(text, requireNullTerminated)
  {
    var buffer := new ParseBuffer(text + [NUL]);
    assert buffer.content[..|text|] == text;
    if 4 < |buffer.content| && At(buffer.content, 0, BOM) {
      buffer.offset := 3;
    }
    buffer.SkipWhitespace();
    item := buffer.ParseItem();
    if item.None? {
      return;
    }
    if requireNullTerminated {
      buffer.SkipWhitespace();
      if buffer.content[buffer.offset] != NUL {
        return None;
      }
    }
  }
}
