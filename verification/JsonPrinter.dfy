/** The printers of test/util/cJSON.c: a buffer that grows, into which the
    print functions write in place, proved against the functions of
    JsonStrings and JsonValues.  An allocation is taken to succeed. */
module JsonPrinter {
  import opened Common
  import opened JsonStrings
  import opened JsonValues
  import opened JsonRoundTrip

  const DEFAULT_BUFFER_SIZE: nat := 256

  /** `after` starts with `before`, then `text` and the terminating NUL. */
  ghost predicate Extends(before: string, text: string, after: string) {
    && |before| + |text| < |after|
    && after[..|before|] == before
    && after[|before|..|before| + |text|] == text
    && after[|before| + |text|] == NUL
  }

  /** strlen does not stop inside the text. */
  lemma NoNulInside(before: string, text: string, after: string)
    requires Extends(before, text, after) && NulFree(text)
    ensures forall k :: |before| <= k < |before| + |text| ==> after[k] != NUL
  {
    var t := after[|before|..|before| + |text|];
    forall k | |before| <= k < |before| + |text| ensures after[k] != NUL {
      assert after[k] == t[k - |before|];
    }
  }

  class PrintBuffer {
    var buffer: array<char>
    var offset: nat
    var depth: nat
    const noalloc: bool
    const format: bool
    const reallocate: bool
    /** Whether `ensure` has copied from outside the buffer. */
    var outside: bool

    constructor (buffer: array<char>, noalloc: bool, format: bool, reallocate: bool)
      requires buffer.Length <= INT_MAX
      ensures this.buffer == buffer && offset == 0 && depth == 0 && !outside && Valid()
      ensures this.noalloc == noalloc && this.format == format && this.reallocate == reallocate
    {
      this.buffer := buffer;
      offset := 0;
      depth := 0;
      outside := false;
      this.noalloc := noalloc;
      this.format := format;
      this.reallocate := reallocate;
    }

    ghost predicate Valid()
      reads this
    {
      && buffer.Length <= INT_MAX
      && (offset < buffer.Length || (buffer.Length == 0 && offset == 0))
    }

    /** When growing by hand copies from outside the buffer: it copies one
        character more than have been written, even out of an empty buffer. */
    ghost predicate Overreads(needed: nat)
      reads this
    {
      buffer.Length == 0 && !noalloc && !reallocate && needed < INT_MAX
    }

    /** How large the buffer can become. */
    ghost function Limit(): nat
      reads this
    {
      if noalloc then buffer.Length else INT_MAX
    }

    /** ensure: room for `needed` characters behind the offset and one more. */
    method Ensure(needed: nat) returns (ok: bool)
      requires Valid()
      modifies this`buffer, this`outside
      ensures outside == old(outside || Overreads(needed))
      ensures ok <==> offset + needed + 1 <= old(Limit())
      ensures var room := offset + needed + 1;
              buffer.Length == if room <= old(buffer.Length) || !ok then old(buffer.Length)
                               else if room > INT_MAX / 2 then INT_MAX else room * 2
      ensures ok ==> offset + needed + 1 <= buffer.Length
      ensures Valid() && Limit() == old(Limit())
      ensures buffer == old(buffer) || (!noalloc && fresh(buffer))
      ensures buffer[..offset] == old(buffer[..offset])
    {
      if buffer.Length > 0 && offset >= buffer.Length {
        return false;
      }
      if needed > INT_MAX {
        return false;
      }
      var required := needed + offset + 1;
      if required <= buffer.Length {
        return true;
      }
      if noalloc {
        return false;
      }
      var newsize: nat;
      if required > INT_MAX / 2 {
        if required <= INT_MAX {
          newsize := INT_MAX;
        } else {
          return false;
        }
      } else {
        newsize := required * 2;
      }
      var newbuffer := new char[newsize];
      var copied := if reallocate then buffer.Length else offset + 1;
      if copied > buffer.Length {
        outside := true;
        copied := buffer.Length;
      }
      forall k | 0 <= k < copied {
        newbuffer[k] := buffer[k];
      }
      buffer := newbuffer;
      ok := true;
    }

    /** update_offset: behind the text that was written last. */
    method UpdateOffset(ghost text: string, ghost before: string)
      requires Valid() && Extends(before, text, buffer[..]) && NulFree(text)
      requires |before| <= offset <= |before| + |text|
      modifies this`offset
      ensures offset == |before| + |text| && Valid()
      ensures buffer[..offset] == before + text
    {
      var length := 0;
      while buffer[offset + length] != NUL
        invariant offset + length <= |before| + |text|
        decreases |before| + |text| - length
      {
        assert offset + length < |before| + |text| by {
          assert buffer[..][|before| + |text|] == NUL;
        }
        length := length + 1;
      }
      NoNulInside(before, text, buffer[..]);
      offset := offset + length;
      assert buffer[..offset] == buffer[..][..|before|] + buffer[..][|before|..|before| + |text|];
    }

    /** strcpy of a constant at the offset. */
    method CopyText(text: string)
      requires Valid() && offset + |text| < buffer.Length
      modifies buffer
      ensures Extends(old(buffer[..offset]), text, buffer[..])
    {
      ghost var before := buffer[..offset];
      var i := 0;
      while i < |text|
        invariant 0 <= i <= |text|
        invariant buffer[..offset] == before
        invariant buffer[offset..offset + i] == text[..i]
      {
        buffer[offset + i] := text[i];
        assert buffer[offset..offset + i + 1] == text[..i] + [text[i]];
        i := i + 1;
      }
      buffer[offset + i] := NUL;
      assert buffer[offset..offset + i] == text[..i] == text;
    }

    /** Reserve room for a text with its NUL, and copy it there. */
    method PrintLiteral(text: string) returns (ok: bool)
      requires Valid()
      modifies this`outside, this`buffer, buffer
      ensures outside == old(outside || Overreads(|text| + 1))
      ensures ok <==> offset + |text| + 2 <= old(Limit())
      ensures ok ==> Extends(old(buffer[..offset]), text, buffer[..])
      ensures Valid() && Limit() == old(Limit())
      ensures buffer == old(buffer) || (!noalloc && fresh(buffer))
    {
      ok := Ensure(|text| + 1);
      if ok {
        CopyText(text);
      }
    }

    /** print_number, for a number as sprintf rendered it into a buffer of 26
        characters. */
    method PrintNumber(text: string) returns (ok: bool)
      requires Valid()
      modifies this`outside, this`buffer, this`offset, buffer
      ensures outside == old(outside || (|text| <= 25 && Overreads(|text| + 1)))
      ensures ok <==> |text| <= 25 && old(offset) + |text| + 2 <= old(Limit())
      ensures ok ==> Extends(old(buffer[..offset]), text, buffer[..]) && offset == old(offset) + |text|
      ensures ok ==> Valid()
      ensures Limit() == old(Limit())
      ensures buffer == old(buffer) || (!noalloc && fresh(buffer))
    {
      if |text| > 25 {
        return false;
      }
      ok := Ensure(|text| + 1);
      if ok {
        CopyText(text);
        offset := offset + |text|;
      }
    }

    /** The counting loop of print_string_ptr. */
    method CountEscapes(input: string) returns (escapeCharacters: nat)
      ensures escapeCharacters == EscapeCount(input)
    {
      escapeCharacters := 0;
      var i := 0;
      while i < |input|
        invariant 0 <= i <= |input|
        invariant escapeCharacters + EscapeCount(input[i..]) == EscapeCount(input)
      {
        var c := input[i];
        if c == '\"' || c == '\\' || c as int in {8, 9, 10, 12, 13} {
          escapeCharacters := escapeCharacters + 1;
        } else if c as int < 32 {
          escapeCharacters := escapeCharacters + 5;
        }
        i := i + 1;
      }
    }

    /** print_string_ptr: the length is computed first, and then exactly that
        many characters are written. */
    method PrintStringPtr(input: string) returns (ok: bool)
      requires Valid() && NulFree(input)
      modifies this`outside, this`buffer, buffer
      ensures outside == old(outside || Overreads(|PrintString(input)| + 1))
      ensures ok <==> offset + |PrintString(input)| + 2 <= old(Limit())
      ensures ok ==> Extends(old(buffer[..offset]), PrintString(input), buffer[..])
      ensures Valid() && Limit() == old(Limit())
      ensures buffer == old(buffer) || (!noalloc && fresh(buffer))
    {
      hide EscapeBody, EscapeCount, NulFree;
      var escapeCharacters := CountEscapes(input);
      PrintedLength(input);
      ok := Ensure(|input| + escapeCharacters + 3);
      if ok {
        WriteQuoted(input, escapeCharacters);
      }
    }

    method WriteQuoted(input: string, escapeCharacters: nat)
      requires |EscapeBody(input)| == |input| + escapeCharacters
      requires escapeCharacters == 0 ==> EscapeBody(input) == input
      requires offset + |input| + escapeCharacters + 3 <= buffer.Length
      modifies buffer
      ensures Extends(old(buffer[..offset]), PrintString(input), buffer[..])
    {
      hide EscapeBody, Extends;
      var outputLength := |input| + escapeCharacters;
      ghost var before := buffer[..offset];
      buffer[offset] := '\"';
      assert buffer[..offset] == before;
      if escapeCharacters == 0 {
        CopyAll(input, offset + 1);
      } else {
        CopyEscaped(input, offset + 1);
      }
      assert buffer[..offset] == buffer[..offset + 1][..offset] == before;
      ghost var body := EscapeBody(input);
      buffer[offset + outputLength + 1] := '\"';
      buffer[offset + outputLength + 2] := NUL;
      assert buffer[offset + 1..offset + 1 + |body|] == body;
      Quoted(before, body, buffer[..]);
    }

    /** memcpy into the buffer. */
    method CopyAll(input: string, at: nat)
      requires at + |input| <= buffer.Length
      modifies buffer
      ensures buffer[..at] == old(buffer[..at])
      ensures buffer[at..at + |input|] == input
    {
      ghost var before := buffer[..at];
      var i := 0;
      while i < |input|
        invariant 0 <= i <= |input|
        invariant buffer[..at] == before
        invariant buffer[at..at + i] == input[..i]
      {
        buffer[at + i] := input[i];
        assert buffer[at..at + i + 1] == input[..i] + [input[i]];
        i := i + 1;
      }
    }

    /** The writing loop of print_string_ptr. */
    method CopyEscaped(input: string, at: nat)
      requires at + |EscapeBody(input)| <= buffer.Length
      modifies buffer
      ensures buffer[..at] == old(buffer[..at])
      ensures buffer[at..at + |EscapeBody(input)|] == EscapeBody(input)
    {
      hide EscapeBody, EscapeChar;
      ghost var before := buffer[..at];
      var i, o := 0, at;
      NothingEscaped(input);
      while i < |input|
        invariant 0 <= i <= |input|
        invariant o == at + |EscapeBody(input[..i])|
        invariant buffer[..at] == before
        invariant at + |EscapeBody(input)| <= buffer.Length
        invariant o <= buffer.Length && buffer[at..o] == EscapeBody(input[..i])
      {
        NextEscaped(input, i);
        ghost var e := EscapeBody(input[..i]);
        var n := WriteEscaped(input[i], o);
        assert buffer[at..o + n] == e + EscapeChar(input[i]);
        i, o := i + 1, o + n;
      }
      assert input[..i] == input;
    }

    /** One turn of that loop: the character itself, a backslash and a letter,
        or a \u escape. */
    method WriteEscaped(c: char, o: nat) returns (n: nat)
      requires o + |EscapeChar(c)| <= buffer.Length
      modifies buffer
      ensures n == |EscapeChar(c)| && buffer[..o] == old(buffer[..o])
      ensures buffer[o..o + n] == EscapeChar(c)
    {
      if c as int > 31 && c != '\"' && c != '\\' {
        buffer[o] := c;
        n := 1;
      } else {
        buffer[o] := '\\';
        n := 2;
        match c as int
        case 92 => buffer[o + 1] := '\\';
        case 34 => buffer[o + 1] := '\"';
        case 8 => buffer[o + 1] := 'b';
        case 12 => buffer[o + 1] := 'f';
        case 10 => buffer[o + 1] := 'n';
        case 13 => buffer[o + 1] := 'r';
        case 9 => buffer[o + 1] := 't';
        case _ =>
          buffer[o + 1] := 'u';
          buffer[o + 2] := '0';
          buffer[o + 3] := '0';
          buffer[o + 4] := HexDigit(c as int / 16);
          buffer[o + 5] := HexDigit(c as int % 16);
          n := 6;
      }
    }

    /** Reserve `needed` characters, write `text` there and step behind it. */
    method Put(text: string, needed: nat) returns (ok: bool)
      requires Valid() && |text| <= needed
      modifies this`outside, this`buffer, this`offset, buffer
      ensures outside == old(outside || Overreads(needed))
      ensures ok <==> old(offset) + needed + 1 <= old(Limit())
      ensures Valid() && Limit() == old(Limit())
      ensures ok ==> offset == old(offset) + |text| && buffer[..offset] == old(buffer[..offset]) + text
      ensures buffer == old(buffer) || (!noalloc && fresh(buffer))
    {
      ghost var before := buffer[..offset];
      ok := Ensure(needed);
      if ok {
        CopyAll(text, offset);
        offset := offset + |text|;
        assert buffer[..offset] == before + text;
      }
    }

    /** Reserve room for `text` and a NUL, write both and step onto the NUL. */
    method PutTerminated(text: string) returns (ok: bool)
      requires Valid()
      modifies this`outside, this`buffer, this`offset, buffer
      ensures outside == old(outside || Overreads(|text| + 1))
      ensures ok <==> old(offset) + |text| + 2 <= old(Limit())
      ensures Valid() && Limit() == old(Limit())
      ensures ok ==> offset == old(offset) + |text| && buffer[..offset] == old(buffer[..offset]) + text
      ensures buffer == old(buffer) || (!noalloc && fresh(buffer))
    {
      ghost var before := buffer[..offset];
      ok := PrintLiteral(text);
      if ok {
        offset := offset + |text|;
        assert buffer[..offset] == buffer[..][..|before|] + buffer[..][|before|..|before| + |text|];
      }
    }

    /** print_value: writes the text of the item and a NUL, unless the text and
        two more characters do not fit under the limit.  The offset may stay
        anywhere in the text, for update_offset to move on. */
    method PrintValue(item: Json) returns (ok: bool)
      requires Valid() && Printable(item)
      modifies this`outside, this`buffer, this`offset, this`depth, buffer
      ensures outside == old(outside || Overreads(FirstNeed(item, format)))
      ensures ok <==> Fits(old(offset), Print(item, format, old(depth)), old(Limit()))
      ensures ok ==> Done(old(buffer[..offset]), Print(item, format, old(depth))) && depth == old(depth)
      ensures Limit() == old(Limit()) && (buffer == old(buffer) || (!noalloc && fresh(buffer)))
      decreases item, 1
    {
      match item
      case Null => ok := PrintLiteral("null");
      case False => ok := PrintLiteral("false");
      case True => ok := PrintLiteral("true");
      case Number(text) => ok := PrintNumber(text);
      case Str(text) => ok := PrintStringPtr(text);
      case Array(items) => ok := PrintArray(items);
      case Object(members) => ok := PrintObject(members);
    }

    static ghost predicate Fits(at: nat, text: string, limit: nat) {
      at + |text| + 2 <= limit
    }

    ghost predicate Done(before: string, text: string)
      reads this, buffer
    {
      && Valid() && Extends(before, text, buffer[..])
      && |before| <= offset <= |before| + |text|
    }

    /** print_array */
    method PrintArray(items: seq<Json>) returns (ok: bool)
      requires Valid() && Printable(Array(items))
      modifies this`outside, this`buffer, this`offset, this`depth, buffer
      ensures outside == old(outside || Overreads(1))
      ensures ok <==> Fits(old(offset), Print(Array(items), format, old(depth)), old(Limit()))
      ensures ok ==> Done(old(buffer[..offset]), Print(Array(items), format, old(depth))) && depth == old(depth)
      ensures Limit() == old(Limit()) && (buffer == old(buffer) || (!noalloc && fresh(buffer)))
      decreases items, 0, 2
    {
      hide Print, PrintItems, Printable, Extends, NulFree;
      ghost var before := buffer[..offset];
      ArrayText(items, format, depth);
      ok := Put("[", 1);
      if !ok {
        return;
      }
      ok := PrintArrayRest(items);
      if ok {
        ArrayDone(before, PrintItems(items, format, depth + 1), buffer[..]);
      }
    }

    /** The elements and the closing bracket. */
    method PrintArrayRest(items: seq<Json>) returns (ok: bool)
      requires offset > 0 && Valid() && Printable(Array(items))
      modifies this`outside, this`buffer, this`offset, this`depth, buffer
      ensures outside == old(outside)
      ensures ok <==> Fits(old(offset), PrintItems(items, format, old(depth) + 1) + "]", old(Limit()))
      ensures ok ==> Valid() && depth == old(depth) && offset == old(offset) + |PrintItems(items, format, depth + 1)|
      ensures ok ==> Extends(old(buffer[..offset]) + PrintItems(items, format, depth + 1), "]", buffer[..])
      ensures Limit() == old(Limit()) && (buffer == old(buffer) || (!noalloc && fresh(buffer)))
      decreases items, 0, 1
    {
      hide Print, PrintItems, Printable, Extends, NulFree;
      depth := depth + 1;
      ok := PrintElements(items);
      if !ok {
        return;
      }
      ok := PrintLiteral("]");
      if !ok {
        return;
      }
      depth := depth - 1;
    }

    /** The loop of print_array. */
    method PrintElements(items: seq<Json>) returns (ok: bool)
      requires offset > 0 && Valid() && Printable(Array(items))
      modifies this`outside, this`buffer, this`offset, this`depth, buffer
      ensures outside == old(outside)
      ensures !ok ==> !Fits(old(offset), PrintItems(items, format, old(depth)), old(Limit()))
      ensures ok ==> Valid() && depth == old(depth)
      ensures ok ==> buffer[..offset] == old(buffer[..offset]) + PrintItems(items, format, depth)
      ensures Limit() == old(Limit()) && (buffer == old(buffer) || (!noalloc && fresh(buffer)))
      decreases items, 0, 0
    {
      hide Print, PrintItems, Printable, Extends, NulFree, ElementText;
      ghost var before, limit := buffer[..offset], Limit();
      ghost var text := PrintItems(items, format, depth);
      ghost var written := "";
      var k := 0;
      ItemsAll(items, format, depth);
      while k < |items|
        invariant 0 <= k <= |items| && Valid()
        invariant depth == old(depth) && Limit() == limit && outside == old(outside)
        invariant written + PrintItems(items[k..], format, depth) == text
        invariant buffer[..offset] == before + written
        invariant buffer == old(buffer) || (!noalloc && fresh(buffer))
      {
        ItemsNext(items, k, format, depth, written);
        ok := PrintElement(items[k], k + 1 == |items|);
        if !ok {
          return;
        }
        written := written + ElementText(items[k], format, depth, k + 1 == |items|);
        k := k + 1;
      }
      ItemsNone(items, format, depth);
      ok := true;
    }

    /** The body of the loop of print_array. */
    method PrintElement(item: Json, last: bool) returns (ok: bool)
      requires offset > 0 && Valid() && Printable(item)
      modifies this`outside, this`buffer, this`offset, this`depth, buffer
      ensures outside == old(outside)
      ensures ok <==> Fits(old(offset), ElementText(item, format, old(depth), last), old(Limit()))
      ensures ok ==> Valid() && depth == old(depth)
      ensures ok ==> buffer[..offset] == old(buffer[..offset]) + ElementText(item, format, depth, last)
      ensures Limit() == old(Limit()) && (buffer == old(buffer) || (!noalloc && fresh(buffer)))
      decreases item, 2
    {
      hide Print, Printable, Extends, NulFree;
      ghost var before := buffer[..offset];
      ghost var text := Print(item, format, depth);
      PrintNulFree(item, format, depth);
      ok := PrintValue(item);
      if !ok {
        return;
      }
      UpdateOffset(text, before);
      if !last {
        ok := PutTerminated(if format then ", " else ",");
        assert before + (text + Separator(format, last)) == before + text + Separator(format, last);
      }
    }

    /** print_object */
    method PrintObject(members: seq<Member>) returns (ok: bool)
      requires Valid() && Printable(Object(members))
      modifies this`outside, this`buffer, this`offset, this`depth, buffer
      ensures outside == old(outside || Overreads(if format then 3 else 2))
      ensures ok <==> Fits(old(offset), Print(Object(members), format, old(depth)), old(Limit()))
      ensures ok ==> Done(old(buffer[..offset]), Print(Object(members), format, old(depth))) && depth == old(depth)
      ensures Limit() == old(Limit()) && (buffer == old(buffer) || (!noalloc && fresh(buffer)))
      decreases members, 0, 2
    {
      hide Print, PrintMembers, Printable, Extends, NulFree, Closing;
      ghost var before := buffer[..offset];
      ObjectText(members, format, depth);
      var opening := if format then "{\n" else "{";
      ok := Put(opening, |opening| + 1);
      if !ok {
        return;
      }
      ok := PrintObjectRest(members);
      if ok {
        ObjectDone(before, opening, PrintMembers(members, format, depth + 1), Closing(format, depth), buffer[..]);
      }
    }

    /** The members and the closing brace. */
    method PrintObjectRest(members: seq<Member>) returns (ok: bool)
      requires offset > 0 && Valid() && Printable(Object(members))
      modifies this`outside, this`buffer, this`offset, this`depth, buffer
      ensures outside == old(outside)
      ensures ok <==> Fits(old(offset), PrintMembers(members, format, old(depth) + 1) + Closing(format, old(depth)),
                           old(Limit()))
      ensures ok ==> Valid() && depth == old(depth)
      ensures ok ==> offset == old(offset) + |PrintMembers(members, format, depth + 1)|
      ensures ok ==> Extends(old(buffer[..offset]) + PrintMembers(members, format, depth + 1),
                             Closing(format, depth), buffer[..])
      ensures Limit() == old(Limit()) && (buffer == old(buffer) || (!noalloc && fresh(buffer)))
      decreases members, 0, 1
    {
      hide Print, PrintMembers, Printable, Extends, NulFree, Closing;
      depth := depth + 1;
      ok := PrintAllMembers(members);
      if !ok {
        return;
      }
      ok := PrintLiteral(Closing(format, depth - 1));
      if !ok {
        return;
      }
      depth := depth - 1;
    }

    /** The loop of print_object. */
    method PrintAllMembers(members: seq<Member>) returns (ok: bool)
      requires offset > 0 && Valid() && Printable(Object(members))
      modifies this`outside, this`buffer, this`offset, this`depth, buffer
      ensures outside == old(outside)
      ensures !ok ==> !Fits(old(offset), PrintMembers(members, format, old(depth)), old(Limit()))
      ensures ok ==> Valid() && depth == old(depth)
      ensures ok ==> buffer[..offset] == old(buffer[..offset]) + PrintMembers(members, format, depth)
      ensures Limit() == old(Limit()) && (buffer == old(buffer) || (!noalloc && fresh(buffer)))
      decreases members, 0, 0
    {
      hide Print, PrintMembers, PrintMember, Printable, Extends, NulFree;
      ghost var before, limit := buffer[..offset], Limit();
      ghost var text := PrintMembers(members, format, depth);
      ghost var written := "";
      var k := 0;
      MembersAll(members, format, depth);
      while k < |members|
        invariant 0 <= k <= |members| && Valid()
        invariant depth == old(depth) && Limit() == limit && outside == old(outside)
        invariant written + PrintMembers(members[k..], format, depth) == text
        invariant buffer[..offset] == before + written
        invariant buffer == old(buffer) || (!noalloc && fresh(buffer))
      {
        MembersNext(members, k, format, depth, written);
        ok := PrintObjectMember(members[k], k + 1 == |members|);
        if !ok {
          return;
        }
        written := written + PrintMember(members[k], format, depth, k + 1 == |members|);
        k := k + 1;
      }
      MembersNone(members, format, depth);
      ok := true;
    }

    /** The body of the loop of print_object. */
    method PrintObjectMember(m: Member, last: bool) returns (ok: bool)
      requires offset > 0 && Valid() && NulFree(m.name) && Printable(m.value)
      modifies this`outside, this`buffer, this`offset, this`depth, buffer
      ensures outside == old(outside)
      ensures ok <==> Fits(old(offset), PrintMember(m, format, old(depth), last), old(Limit()))
      ensures ok ==> Valid() && depth == old(depth)
      ensures ok ==> buffer[..offset] == old(buffer[..offset]) + PrintMember(m, format, depth, last)
      ensures Limit() == old(Limit()) && (buffer == old(buffer) || (!noalloc && fresh(buffer)))
      decreases m, 2
    {
      hide Print, PrintMember, PrintString, Printable, Extends, NulFree, Tabs, NamePart;
      MemberJoined(buffer[..offset], m, format, depth, last);
      ok := PrintName(m.name);
      if !ok {
        return;
      }
      ghost var named := buffer[..offset];
      PrintNulFree(m.value, format, depth);
      ok := PrintValue(m.value);
      if !ok {
        return;
      }
      UpdateOffset(Print(m.value, format, depth), named);
      ok := PutTerminated((if last then "" else ",") + (if format then "\n" else ""));
    }

    /** The indentation, the key and the colon of a member. */
    method PrintName(name: string) returns (ok: bool)
      requires offset > 0 && Valid() && NulFree(name)
      modifies this`outside, this`buffer, this`offset, buffer
      ensures outside == old(outside)
      ensures !ok ==> old(offset) + |NamePart(name, format, depth)| + 1 > old(Limit())
      ensures ok ==> Valid() && buffer[..offset] == old(buffer[..offset]) + NamePart(name, format, depth)
      ensures Limit() == old(Limit()) && (buffer == old(buffer) || (!noalloc && fresh(buffer)))
    {
      hide PrintString, Extends, NulFree, Tabs;
      ghost var before := buffer[..offset];
      if format {
        ok := Put(Tabs(depth), depth);
        if !ok {
          return;
        }
      }
      ghost var indented := buffer[..offset];
      ok := PrintStringPtr(name);
      if !ok {
        return;
      }
      StringNulFree(name);
      UpdateOffset(PrintString(name), indented);
      var colon := if format then ":\t" else ":";
      ok := Put(colon, |colon|);
      NameJoined(before, if format then Tabs(depth) else "", PrintString(name), colon);
    }
  }

  /** The room that printing an item asks for first. */
  function FirstNeed(item: Json, fmt: bool): nat {
    match item
    case Array(_) => 1
    case Object(_) => if fmt then 3 else 2
    case Null => 5
    case True => 5
    case False => 6
    case Number(text) => |text| + 1
    case Str(text) => |PrintString(text)| + 1
  }

  /** What stands before a member's value. */
  ghost function NamePart(name: string, fmt: bool, d: nat): string {
    (if fmt then Tabs(d) else "") + PrintString(name) + (if fmt then ":\t" else ":")
  }

  lemma NameJoined(before: string, a: string, b: string, c: string)
    ensures before + a + b + c == before + (a + b + c) && before + "" == before
  {
  }

  lemma Quoted(before: string, body: string, after: string)
    requires |before| + |body| + 2 < |after| && after[..|before|] == before
    requires after[|before|] == '\"' && after[|before| + 1..|before| + 1 + |body|] == body
    requires after[|before| + 1 + |body|] == '\"' && after[|before| + 2 + |body|] == NUL
    ensures Extends(before, "\"" + body + "\"", after)
  {
    var n := |before|;
    assert after[n..n + |body| + 2] == [after[n]] + after[n + 1..n + 1 + |body|] + [after[n + 1 + |body|]];
  }

  lemma NothingEscaped(input: string)
    ensures EscapeBody(input[..0]) == ""
  {
  }

  lemma NextEscaped(input: string, i: nat)
    requires i < |input|
    ensures EscapeBody(input[..i + 1]) == EscapeBody(input[..i]) + EscapeChar(input[i])
    ensures |EscapeBody(input[..i])| + |EscapeChar(input[i])| <= |EscapeBody(input)|
  {
    assert input[..i + 1] == input[..i] + [input[i]];
    EscapeBodyConcat(input[..i], [input[i]]);
    assert EscapeBody([input[i]]) == EscapeChar(input[i]);
    assert input == input[..i + 1] + input[i + 1..];
    EscapeBodyConcat(input[..i + 1], input[i + 1..]);
  }

  // ---------- arrays ----------

  lemma ArrayText(items: seq<Json>, fmt: bool, d: nat)
    ensures Print(Array(items), fmt, d) == "[" + PrintItems(items, fmt, d + 1) + "]"
  {
  }

  lemma ItemsAll(items: seq<Json>, fmt: bool, d: nat)
    ensures "" + PrintItems(items[0..], fmt, d) == PrintItems(items, fmt, d)
  {
    assert items[0..] == items;
  }

  lemma ItemsNone(items: seq<Json>, fmt: bool, d: nat)
    ensures PrintItems(items[|items|..], fmt, d) == ""
  {
  }

  /** What one turn of the loop of print_array writes. */
  ghost function ElementText(item: Json, fmt: bool, d: nat, last: bool): string {
    Print(item, fmt, d) + Separator(fmt, last)
  }

  lemma ItemsNext(items: seq<Json>, k: nat, fmt: bool, d: nat, written: string)
    requires k < |items| && Printable(Array(items))
    ensures Printable(items[k])
    ensures written + PrintItems(items[k..], fmt, d)
         == written + ElementText(items[k], fmt, d, k + 1 == |items|) + PrintItems(items[k + 1..], fmt, d)
  {
    hide Print;
    assert items[k..][0] == items[k] && items[k..][1..] == items[k + 1..];
    var t := ElementText(items[k], fmt, d, k + 1 == |items|);
    var rest := PrintItems(items[k + 1..], fmt, d);
    assert written + (t + rest) == written + t + rest;
  }

  lemma ArrayDone(before: string, text: string, after: string)
    requires Extends(before + "[" + text, "]", after)
    ensures Extends(before, "[" + text + "]", after)
  {
    Regroup(before, "[", text, "]", after);
  }

  /** What was written in several steps stands there as one text. */
  lemma Regroup(before: string, a: string, b: string, c: string, after: string)
    requires Extends(before + a + b, c, after)
    ensures Extends(before, a + b + c, after)
  {
    var n, m := |before|, |a + b + c|;
    var whole := before + a + b;
    assert after[..n] == after[..|whole|][..n] == before;
    assert after[n..n + m] == after[..|whole|][n..] + after[|whole|..|whole| + |c|];
    assert whole[n..] == a + b;
  }

  // ---------- objects ----------

  lemma MembersAll(members: seq<Member>, fmt: bool, d: nat)
    ensures "" + PrintMembers(members[0..], fmt, d) == PrintMembers(members, fmt, d)
  {
    assert members[0..] == members;
  }

  lemma MembersNone(members: seq<Member>, fmt: bool, d: nat)
    ensures PrintMembers(members[|members|..], fmt, d) == ""
  {
  }

  lemma MembersNext(members: seq<Member>, k: nat, fmt: bool, d: nat, written: string)
    requires k < |members| && Printable(Object(members))
    ensures NulFree(members[k].name) && Printable(members[k].value)
    ensures written + PrintMembers(members[k..], fmt, d)
         == written + PrintMember(members[k], fmt, d, k + 1 == |members|) + PrintMembers(members[k + 1..], fmt, d)
  {
    hide PrintMember;
    assert members[k..][0] == members[k] && members[k..][1..] == members[k + 1..];
    var t := PrintMember(members[k], fmt, d, k + 1 == |members|);
    var rest := PrintMembers(members[k + 1..], fmt, d);
    assert written + (t + rest) == written + t + rest;
  }

  lemma ObjectDone(before: string, opening: string, text: string, closing: string, after: string)
    requires Extends(before + opening + text, closing, after)
    ensures Extends(before, opening + (text + closing), after)
  {
    Regroup(before, opening, text, closing, after);
    assert opening + text + closing == opening + (text + closing);
  }

  lemma MemberJoined(before: string, m: Member, fmt: bool, d: nat, last: bool)
    ensures before + PrintMember(m, fmt, d, last)
         == before + NamePart(m.name, fmt, d) + Print(m.value, fmt, d)
            + ((if last then "" else ",") + (if fmt then "\n" else ""))
  {
    MemberText(m, fmt, d, last);
    hide PrintMember, PrintString, Print;
    var a, b := (if fmt then Tabs(d) else ""), PrintString(m.name);
    var c, v := (if fmt then ":\t" else ":"), Print(m.value, fmt, d);
    var tail := (if last then "" else ",") + (if fmt then "\n" else "");
    assert before + (a + (b + (c + (v + tail)))) == before + (a + b + c) + v + tail;
  }

  // ---------- whole documents ----------

  /** print: cJSON_Print and cJSON_PrintUnformatted. */
  method PrintDocument(item: Json, format: bool, reallocate: bool) returns (printed: Option<string>)
    requires Printable(item)
    ensures printed == if |Print(item, format, 0)| + 2 <= INT_MAX then Some(Print(item, format, 0)) else None
  {
    hide Print, Printable, Extends;
    var storage := new char[DEFAULT_BUFFER_SIZE];
    var p := new PrintBuffer(storage, false, format, reallocate);
    var ok := p.PrintValue(item);
    if !ok {
      return None;
    }
    PrintNulFree(item, format, 0);
    p.UpdateOffset(Print(item, format, 0), "");
    var text := p.buffer[..p.offset];
    assert "" + Print(item, format, 0) == Print(item, format, 0);
    printed := Some(text);
  }

  /** cJSON_PrintBuffered.  It copies from outside the buffer exactly if it
      starts with an empty one, there is no realloc, and the first request for
      room is granted. */
  method PrintBuffered(item: Json, prebuffer: int, format: bool, reallocate: bool)
    returns (printed: Option<array<char>>, outside: bool)
    requires Printable(item) && prebuffer <= INT_MAX
    ensures printed.Some? <==> prebuffer >= 0 && |Print(item, format, 0)| + 2 <= INT_MAX
    ensures printed.Some? ==> Extends("", Print(item, format, 0), printed.value[..])
    ensures outside <==> prebuffer == 0 && !reallocate && FirstNeed(item, format) < INT_MAX
  {
    hide Print, Printable, Extends, FirstNeed;
    if prebuffer < 0 {
      return None, false;
    }
    var storage := new char[prebuffer];
    var p := new PrintBuffer(storage, false, format, reallocate);
    var ok := p.PrintValue(item);
    printed, outside := if ok then Some(p.buffer) else None, p.outside;
  }

  /** cJSON_PrintPreallocated: succeeds exactly when the buffer holds the text
      and two more characters. */
  method PrintPreallocated(item: Json, buffer: array<char>, format: bool) returns (ok: bool)
    requires Printable(item) && buffer.Length <= INT_MAX
    modifies buffer
    ensures ok <==> |Print(item, format, 0)| + 2 <= buffer.Length
    ensures ok ==> Extends("", Print(item, format, 0), buffer[..])
  {
    hide Print, Printable, Extends;
    var p := new PrintBuffer(buffer, true, format, true);
    ok := p.PrintValue(item);
  }
}
