/** The parser as it runs: a cursor in a NUL-terminated buffer, moved step by step. Each method computes
    the function of the same name in JsonText, and its offset. */
module ParseBuffer {
  import opened Basics
  import opened Decimal
  import opened Json
  import opened JsonText

  // ---------------------------------------------------------------- how much room a string needs

  /** Whether the scan for the closing quote, started at a, treats position i as the second character
      of an escape. */
  ghost predicate InPair(s: string, a: nat, i: nat)
    requires a <= i <= |s|
  {
    i > a && s[i - 1] == '\\' && !InPair(s, a, i - 1)
  }

  /** The backslashes that the scan has skipped before position i. */
  ghost function Skipped(s: string, a: nat, i: nat): nat
    requires a <= i <= |s|
  {
    if i == a then 0 else
      Skipped(s, a, i - 1) + (if s[i - 1] == '\\' && !InPair(s, a, i - 1) then 1 else 0)
  }

  /** Space for the output up to position i: characters less skipped backslashes, less one more
      in the middle of a pair. */
  ghost function Room(s: string, a: nat, i: nat): int
    requires a <= i <= |s|
  {
    i - a - Skipped(s, a, i) - (if InPair(s, a, i) then 1 else 0)
  }

  lemma RoomStep(s: string, a: nat, i: nat)
    requires a <= i < |s|
    ensures InPair(s, a, i) ==> Room(s, a, i + 1) == Room(s, a, i) + 2 && !InPair(s, a, i + 1)
    ensures !InPair(s, a, i) && s[i] == '\\' ==> Room(s, a, i + 1) == Room(s, a, i) - 1 && InPair(s, a, i + 1)
    ensures !InPair(s, a, i) && s[i] != '\\' ==> Room(s, a, i + 1) == Room(s, a, i) + 1 && !InPair(s, a, i + 1)
  {
  }

  /** Up to the closing quote, the room never has to be given back. */
  lemma {:induction false} RoomGrows(s: string, a: nat, i: nat, j: nat)
    requires a <= i <= j <= |s| && !InPair(s, a, j)
    ensures Room(s, a, i) <= Room(s, a, j)
    ensures InPair(s, a, i) ==> Room(s, a, i) + 2 <= Room(s, a, j)
    decreases j - i
  {
    hide InPair, Room;
    if i < j {
      RoomStep(s, a, i);
      RoomGrows(s, a, i + 1, j);
    }
  }

  lemma RoomEnds(s: string, a: nat, end: nat)
    requires a <= end <= |s| && !InPair(s, a, end)
    ensures Room(s, a, a) == 0 && Room(s, a, end) == end - a - Skipped(s, a, end)
  {
  }

  lemma HexHasNoBackslash(a: char, b: char, c: char, d: char)
    requires Hex4(a, b, c, d) != 0
    ensures a != '\\' && b != '\\' && c != '\\' && d != '\\'
  {
  }

  lemma FourMore(s: string, a: nat, i: nat)
    requires a <= i && i + 4 <= |s| && !InPair(s, a, i)
    ensures Room(s, a, i + 4) >= Room(s, a, i)
    ensures Hex4(s[i], s[i + 1], s[i + 2], s[i + 3]) != 0 ==>
              Room(s, a, i + 4) == Room(s, a, i) + 4 && !InPair(s, a, i + 4)
  {
    hide InPair, Room, Hex4;
    RoomStep(s, a, i);
    RoomStep(s, a, i + 1);
    RoomStep(s, a, i + 2);
    RoomStep(s, a, i + 3);
    if Hex4(s[i], s[i + 1], s[i + 2], s[i + 3]) != 0 {
      HexHasNoBackslash(s[i], s[i + 1], s[i + 2], s[i + 3]);
    }
  }

  lemma TwoMore(s: string, a: nat, i: nat)
    requires a <= i && i + 2 <= |s| && s[i] == '\\'
    ensures Room(s, a, i + 2) >= Room(s, a, i) + 1
    ensures s[i + 1] != '\\' ==> !InPair(s, a, i + 2)
  {
    hide InPair, Room;
    RoomStep(s, a, i);
    RoomStep(s, a, i + 1);
  }

  /** Whatever the scan makes of its characters, a converted unit fits in the room they leave. */
  lemma UnitFits(s: string, a: nat, i: nat, end: nat)
    requires a <= i < end < |s| && !InPair(s, a, end) && NextUnit(s, i, end).Unit?
    ensures var u := NextUnit(s, i, end);
            && i + u.size <= end + 1
            && Room(s, a, i) + |u.bytes| <= Room(s, a, if i + u.size <= end then i + u.size else end)
  {
    hide Room, InPair, Utf16;
    var u := NextUnit(s, i, end);
    RoomStep(s, a, i);
    if s[i] == '\\' {
      TwoMore(s, a, i);
      if u.size == 2 {
        if i + 1 == end { RoomStep(s, a, i); }
      } else {
        LiteralFits(s, a, i, end);
      }
    }
  }

  lemma LiteralFits(s: string, a: nat, i: nat, end: nat)
    requires a <= i < end < |s| && s[i] == '\\' && s[i + 1] == 'u' && Utf16(s, i, end).Unit?
    ensures var u := Utf16(s, i, end);
            i + u.size <= end && Room(s, a, i) + |u.bytes| <= Room(s, a, i + u.size)
  {
    hide Room, InPair, Hex4, Utf8;
    var u := Utf16(s, i, end);
    TwoMore(s, a, i);
    FourMore(s, a, i + 2);
    if u.size == 12 {
      TwoMore(s, a, i + 6);
      FourMore(s, a, i + 8);
    }
  }

  lemma {:induction false} UnescapedFits(s: string, a: nat, i: nat, end: nat)
    requires a <= i <= end < |s| && !InPair(s, a, end) && Unescape(s, i, end).Some?
    ensures Room(s, a, i) + |Unescape(s, i, end).value| <= Room(s, a, end)
    decreases end - i
  {
    hide InPair, Room, NextUnit;
    if i < end {
      var u := NextUnit(s, i, end);
      UnitFits(s, a, i, end);
      if i + u.size <= end {
        UnescapedFits(s, a, i + u.size, end);
      }
    }
  }

  lemma {:induction false} CloseIsNotInPair(s: string, a: nat, i: nat)
    requires a <= i <= |s| && !InPair(s, a, i) && ClosingQuote(s, i).Some?
    ensures !InPair(s, a, ClosingQuote(s, i).value)
    decreases |s| - i
  {
    if s[i] == '"' {
    } else if s[i] == '\\' {
      CloseIsNotInPair(s, a, i + 2);
    } else {
      CloseIsNotInPair(s, a, i + 1);
    }
  }

  /** The estimate is an upper bound, even where a bad \u sequence makes the two loops of parse_string
      disagree on which backslashes begin an escape. */
  lemma EstimateIsEnough(s: string, start: nat)
    requires start <= |s| && ClosingQuote(s, start).Some?
    ensures var end := ClosingQuote(s, start).value;
            Unescape(s, start, end).Some? ==>
              |Unescape(s, start, end).value| <= end - start - Skipped(s, start, end)
  {
    hide Unescape;
    var end := ClosingQuote(s, start).value;
    CloseIsNotInPair(s, start, start);
    RoomEnds(s, start, end);
    if Unescape(s, start, end).Some? {
      UnescapedFits(s, start, start, end);
    }
  }

  // ---------------------------------------------------------------- results so far

  ghost function Prepend(done: string, rest: Option<string>): (r: Option<string>)
    ensures done == [] ==> r == rest
  {
    if rest.None? then None else
      assert done == [] ==> done + rest.value == rest.value;
      Some(done + rest.value)
  }

  lemma PrependTwice(a: string, b: string, rest: Option<string>)
    ensures Prepend(a, Prepend(b, rest)) == Prepend(a + b, rest)
    ensures Prepend(a, Some([])) == Some(a) && Prepend(a, None) == None
  {
    if rest.Some? {
      assert a + (b + rest.value) == (a + b) + rest.value;
    }
    assert a + [] == a;
  }

  ghost function After<T>(done: seq<T>, rest: Parsed<seq<T>>): (r: Parsed<seq<T>>)
    ensures done == [] ==> r == rest
  {
    if !rest.Ok? then rest else
      assert done == [] ==> done + rest.value == rest.value;
      Ok(done + rest.value, rest.next)
  }

  lemma AfterTwice<T>(a: seq<T>, b: seq<T>, rest: Parsed<seq<T>>)
    ensures After(a, After(b, rest)) == After(a + b, rest)
  {
    if rest.Ok? {
      assert a + (b + rest.value) == (a + b) + rest.value;
    }
  }

  class ParseBuffer {
    const content: string
    var offset: nat
    var depth: nat

    ghost predicate Valid()
      reads this
    {
      Terminated(content) && offset < |content|
    }

    constructor (text: string)
      ensures Valid() && content == CString(text) + "\0" && offset == 0 && depth == 0
    {
      content := CString(text) + "\0";
      offset := 0;
      depth := 0;
    }

    /** buffer_skip_whitespace. */
    method SkipWhitespace()
      requires Valid()
      modifies this`offset
      ensures Valid() && offset == Skip(content, old(offset))
    {
      while offset < |content| && content[offset] <= ' '
        invariant offset <= |content|
        invariant Skip(content, old(offset)) == if offset < |content| then Skip(content, offset) else |content| - 1
        decreases |content| - offset
      {
        offset := offset + 1;
      }
      if offset == |content| {
        offset := offset - 1;
      }
    }

    // -------------------------------------------------------------- numbers

    static lemma OneMoreByte(a: string, c: char, b: string)
      ensures a + ([c] + b) == a + [c] + b
    {
    }

    /** The first loop of parse_number: a copy of at most 63 characters. */
    method CopyNumber() returns (copied: string)
      requires Valid()
      ensures copied == NumberText(content, offset, 63)
    {
      hide IsNumberChar, NumberText;
      var numberString := new char[64];
      var i := 0;
      while i < 63 && offset + i < |content| && IsNumberChar(content[offset + i])
        invariant i <= 63 && offset + i < |content|
        invariant NumberText(content, offset, 63)
               == numberString[..i] + NumberText(content, offset + i, 63 - i)
        decreases 63 - i
      {
        CopyStep(content, offset + i, 63 - i);
        ghost var before, rest := numberString[..i], NumberText(content, offset + i + 1, 62 - i);
        OneMoreByte(before, content[offset + i], rest);
        numberString[i] := content[offset + i];
        assert numberString[..i + 1] == before + [content[offset + i]];
        i := i + 1;
      }
      CopyStop(content, offset + i, 63 - i);
      copied := numberString[..i];
    }

    /** parse_number. */
    method ReadNumber() returns (r: Parsed<Json>)
      requires Valid()
      modifies this`offset
      ensures Valid() && r == ParseNumber(content, old(offset))
      ensures r.Ok? ==> offset == r.next
    {
      hide Strtod, NumberText;
      var numberString := CopyNumber();
      var number := Strtod(numberString);
      if number.Bad? { return Bad; }
      if number.NotModelled? { return NotModelled; }
      offset := offset + number.next;
      return Ok(Num(number.value), offset);
    }

    static lemma CopyStep(s: string, off: nat, limit: nat)
      requires Terminated(s) && off < |s| && limit > 0 && IsNumberChar(s[off])
      ensures IsNumberChar('\0') == false && off + 1 < |s|
      ensures NumberText(s, off, limit) == [s[off]] + NumberText(s, off + 1, limit - 1)
    {
    }

    static lemma CopyStop(s: string, off: nat, limit: nat)
      requires Terminated(s) && off < |s| && (limit == 0 || !IsNumberChar(s[off]))
      ensures NumberText(s, off, limit) == []
    {
    }

    // -------------------------------------------------------------- strings

    /** The first loop of parse_string: the end of the literal and the escapes skipped on the way. */
    method MeasureString(start: nat) returns (end: Option<nat>, skipped: nat)
      requires Terminated(content) && start <= |content|
      ensures end == ClosingQuote(content, start)
      ensures end.Some? ==>
                && start <= end.value < |content| && !InPair(content, start, end.value)
                && skipped == Skipped(content, start, end.value)
    {
      var i := start;
      skipped := 0;
      while i < |content| && content[i] != '"'
        invariant start <= i <= |content|
        invariant !InPair(content, start, i) && skipped == Skipped(content, start, i)
        invariant ClosingQuote(content, start) == ClosingQuote(content, i)
        decreases |content| - i
      {
        if content[i] == '\\' {
          if i + 1 >= |content| { return None, skipped; }
          skipped := skipped + 1;
          i := i + 1;
        }
        i := i + 1;
      }
      return if i == |content| then None else Some(i), skipped;
    }

    /** utf16_literal_to_utf8: writes the bytes at outLen, last byte first; 0 for a bad literal. */
    method ConvertLiteral(i: nat, end: nat, output: array<char>, outLen: nat) returns (size: nat, written: nat)
      requires i < end < |content| && outLen <= output.Length
      requires Utf16(content, i, end).Unit? ==> outLen + |Utf16(content, i, end).bytes| <= output.Length
      modifies output
      ensures size == 0 <==> Utf16(content, i, end).BadUnit?
      ensures size != 0 ==>
                && outLen + written <= output.Length
                && Unit(output[outLen..outLen + written], size) == Utf16(content, i, end)
      ensures output[..outLen] == old(output[..outLen])
    {
      hide Hex4;
      if end - i < 6 { return 0, 0; }
      var code := Hex4(content[i + 2], content[i + 3], content[i + 4], content[i + 5]);
      size := 6;
      if 0xDC00 <= code <= 0xDFFF { return 0, 0; }
      if 0xD800 <= code <= 0xDBFF {
        size := 12;
        if end - (i + 6) < 6 || content[i + 6] != '\\' || content[i + 7] != 'u' { return 0, 0; }
        var second := Hex4(content[i + 8], content[i + 9], content[i + 10], content[i + 11]);
        if second < 0xDC00 || second > 0xDFFF { return 0, 0; }
        code := 0x10000 + (code - 0xD800) * 0x400 + (second - 0xDC00);
      }
      written := Utf8Size(code);
      WriteUtf8(code, output, outLen);
    }

    /** The bytes of a code point, from the last to the first. */
    static method WriteUtf8(codepoint: nat, output: array<char>, outLen: nat)
      requires outLen + Utf8Size(codepoint) <= output.Length
      modifies output
      ensures output[outLen..outLen + Utf8Size(codepoint)] == Utf8(codepoint)
      ensures output[..outLen] == old(output[..outLen])
    {
      var size := Utf8Size(codepoint);
      var mark := FirstByteMark(size);
      var code, position := codepoint, size - 1;
      while position > 0
        invariant position < size
        invariant Utf8(codepoint) == Utf8Bytes(code, position, mark) + output[outLen + position + 1..outLen + size]
        invariant output[..outLen] == old(output[..outLen])
      {
        ghost var tail := output[outLen + position + 1..outLen + size];
        output[outLen + position] := (0x80 + code % 64) as char;
        assert output[outLen + position..outLen + size] == [(0x80 + code % 64) as char] + tail;
        code := code / 64;
        position := position - 1;
      }
      output[outLen] := ((code + mark) % 0x100) as char;
      assert output[outLen..outLen + size] == [output[outLen]] + output[outLen + 1..outLen + size];
    }

    /** One turn of the second loop of parse_string. */
    method ConvertUnit(i: nat, end: nat, output: array<char>, outLen: nat) returns (size: nat, written: nat)
      requires i < end < |content| && outLen <= output.Length
      requires NextUnit(content, i, end).Unit? ==> outLen + |NextUnit(content, i, end).bytes| <= output.Length
      modifies output
      ensures size == 0 <==> NextUnit(content, i, end).BadUnit?
      ensures size != 0 ==>
                && outLen + written <= output.Length
                && Unit(output[outLen..outLen + written], size) == NextUnit(content, i, end)
      ensures output[..outLen] == old(output[..outLen])
    {
      hide Utf16;
      if content[i] != '\\' {
        output[outLen] := content[i];
        assert output[outLen..outLen + 1] == [content[i]];
        return 1, 1;
      }
      if content[i + 1] == 'u' {
        size, written := ConvertLiteral(i, end, output, outLen);
        return;
      }
      size, written := 2, 1;
      var c := content[i + 1];
      if c == 'b' { output[outLen] := 8 as char; }
      else if c == 'f' { output[outLen] := 12 as char; }
      else if c == 'n' { output[outLen] := '\n'; }
      else if c == 'r' { output[outLen] := '\r'; }
      else if c == 't' { output[outLen] := '\t'; }
      else if c == '"' || c == '\\' || c == '/' { output[outLen] := c; }
      else { return 0, 0; }
      assert output[outLen..outLen + 1] == [output[outLen]];
    }

    /** parse_string: the output block holds the characters between the quotes and one more, less the
        skipped backslashes, and a terminating NUL. Every write below is inside it. */
    method ReadString() returns (r: Parsed<string>)
      requires Valid()
      modifies this`offset
      ensures Valid() && r == ParseString(content, old(offset))
      ensures r.Ok? ==> offset == r.next
    {
      hide ClosingQuote, Unescape, Skipped, NextUnit, InPair, Room, Prepend, CString;
      if content[offset] != '"' { return Bad; }
      var start := offset + 1;
      var close, skipped := MeasureString(start);
      if close.None? { return Bad; }
      var end := close.value;
      var allocationLength := end - offset - skipped;
      RoomEnds(content, start, end);
      RoomGrows(content, start, start, end);
      var output := new char[allocationLength + 1];
      var i: nat, outLen: nat := start, 0;
      while i < end
        invariant start <= i <= end + 1
        invariant outLen <= Room(content, start, if i <= end then i else end) && outLen < output.Length
        invariant Unescape(content, start, end) == Prepend(output[..outLen], Unescape(content, i, end))
        decreases end - i
      {
        var unit := NextUnit(content, i, end);
        UnescapeStep(content, i, end);
        if unit.Unit? {
          UnitFits(content, start, i, end);
          RoomGrows(content, start, if i + unit.size <= end then i + unit.size else end, end);
        }
        ghost var before := output[..outLen];
        var size, written := ConvertUnit(i, end, output, outLen);
        if size == 0 {
          PrependTwice(before, [], None);
          offset := i;
          return Bad;
        }
        assert output[..outLen + written] == before + unit.bytes;
        PrependTwice(before, unit.bytes, Unescape(content, i + size, end));
        i := i + size;
        outLen := outLen + written;
      }
      UnescapeStep(content, i, end);
      PrependTwice(output[..outLen], [], None);
      output[outLen] := '\0';
      offset := end + 1;
      return Ok(CString(output[..outLen]), offset);
    }

    static lemma UnescapeStep(s: string, i: nat, end: nat)
      requires end < |s|
      ensures i >= end ==> Unescape(s, i, end) == Some([])
      ensures i < end ==> Unescape(s, i, end) ==
                            var u := NextUnit(s, i, end);
                            if u.BadUnit? then None else Prepend(u.bytes, Unescape(s, i + u.size, end))
    {
      hide NextUnit;
    }

    // -------------------------------------------------------------- values

    /** parse_value. */
    method ReadValue() returns (r: Parsed<Json>)
      requires Valid()
      modifies this
      ensures Valid() && r == ParseValue(content, old(offset), old(depth))
      ensures r.Ok? ==> offset == r.next && depth == old(depth)
      decreases |content| - offset, 1
    {
      hide StartsWith, ParseString, ParseNumber, ParseArray, ParseObject;
      if StartsWith(content, offset, "null") {
        Word(content, offset, "null");
        offset := offset + 4;
        return Ok(Null, offset);
      }
      if StartsWith(content, offset, "false") {
        Word(content, offset, "false");
        offset := offset + 5;
        return Ok(False, offset);
      }
      if StartsWith(content, offset, "true") {
        Word(content, offset, "true");
        offset := offset + 4;
        return Ok(True, offset);
      }
      if content[offset] == '"' {
        var text := ReadString();
        r := match text { case Ok(t, next) => Ok(Str(t), next) case Bad => Bad case NotModelled => NotModelled };
      } else if content[offset] == '-' || IsDigit(content[offset]) {
        r := ReadNumber();
      } else if content[offset] == '[' {
        r := ReadArray();
      } else if content[offset] == '{' {
        r := ReadObject();
      } else {
        r := Bad;
      }
    }

    static lemma ItemsStep(s: string, off: nat, depth: nat)
      requires Terminated(s) && off < |s|
      ensures ParseItems(s, off, depth) ==
                match ParseValue(s, Skip(s, off), depth)
                case Bad => Bad
                case NotModelled => NotModelled
                case Ok(v, next) =>
                  var at := Skip(s, next);
                  if s[at] == ',' then After([v], ParseItems(s, at + 1, depth))
                  else if s[at] == ']' then Ok([v], at + 1)
                  else Bad
    {
      hide ParseValue, Skip;
    }

    /** One element, and the white space around it. */
    method ReadElement() returns (v: Parsed<Json>)
      requires Valid()
      modifies this
      ensures Valid() && v == ParseValue(content, Skip(content, old(offset)), old(depth))
      ensures v.Ok? ==> offset == Skip(content, v.next) && depth == old(depth)
      decreases |content| - offset, 2
    {
      hide Skip, ParseValue;
      SkipWhitespace();
      v := ReadValue();
      if v.Ok? { SkipWhitespace(); }
    }

    /** parse_array: the loop appends one element a turn. */
    method ReadArray() returns (r: Parsed<Json>)
      requires Valid() && content[offset] == '['
      modifies this
      ensures Valid() && r == ParseArray(content, old(offset), old(depth))
      ensures r.Ok? ==> offset == r.next && depth == old(depth)
      decreases |content| - offset, 0
    {
      hide Skip, ParseItems, ParseValue;
      if depth >= NESTING_LIMIT { return Bad; }
      depth := depth + 1;
      offset := offset + 1;
      SkipWhitespace();
      if content[offset] == ']' {
        depth := depth - 1;
        offset := offset + 1;
        return Ok(Arr([]), offset);
      }
      ghost var at := offset;
      offset := offset - 1;
      var items: seq<Json> := [];
      while true
        invariant old(offset) <= offset && offset + 1 < |content| && depth == old(depth) + 1
        invariant ParseItems(content, at, depth) == After(items, ParseItems(content, offset + 1, depth))
        decreases |content| - offset
      {
        ItemsStep(content, offset + 1, depth);
        offset := offset + 1;
        var v := ReadElement();
        if v.Bad? { return Bad; }
        if v.NotModelled? { return NotModelled; }
        if content[offset] != ',' {
          items := items + [v.value];
          break;
        }
        AfterTwice(items, [v.value], ParseItems(content, offset + 1, depth));
        items := items + [v.value];
      }
      if content[offset] != ']' { return Bad; }
      depth := depth - 1;
      offset := offset + 1;
      return Ok(Arr(items), offset);
    }

    static lemma MembersStep(s: string, off: nat, depth: nat)
      requires Terminated(s) && off < |s|
      ensures ParseMembers(s, off, depth) ==
                match ParseMember(s, off, depth)
                case Bad => Bad
                case NotModelled => NotModelled
                case Ok(m, next) =>
                  var at := Skip(s, next);
                  if s[at] == ',' then After([m], ParseMembers(s, at + 1, depth))
                  else if s[at] == '}' then Ok([m], at + 1)
                  else Bad
    {
      hide ParseMember, Skip;
    }

    /** The name and the value read in one turn of the loop of parse_object. */
    method ReadMember() returns (r: Parsed<Member>)
      requires Valid()
      modifies this
      ensures Valid() && r == ParseMember(content, old(offset), old(depth))
      ensures r.Ok? ==> offset == r.next && depth == old(depth)
      decreases |content| - offset, 2
    {
      hide Skip, ParseString, ParseValue;
      SkipWhitespace();
      var name := ReadString();
      if name.Bad? { return Bad; }
      if name.NotModelled? { return NotModelled; }
      SkipWhitespace();
      if content[offset] != ':' { return Bad; }
      offset := offset + 1;
      assert Terminated(content) && content[|content| - 1] == '\0';
      SkipWhitespace();
      var v := ReadValue();
      if v.Bad? { return Bad; }
      if v.NotModelled? { return NotModelled; }
      return Ok(Member(name.value, v.value), offset);
    }

    /** parse_object: the loop appends one member a turn. */
    method ReadObject() returns (r: Parsed<Json>)
      requires Valid() && content[offset] == '{'
      modifies this
      ensures Valid() && r == ParseObject(content, old(offset), old(depth))
      ensures r.Ok? ==> offset == r.next && depth == old(depth)
      decreases |content| - offset, 0
    {
      hide Skip, ParseMembers, ParseMember;
      if depth >= NESTING_LIMIT { return Bad; }
      depth := depth + 1;
      offset := offset + 1;
      SkipWhitespace();
      if content[offset] == '}' {
        depth := depth - 1;
        offset := offset + 1;
        return Ok(Obj([]), offset);
      }
      ghost var at := offset;
      offset := offset - 1;
      var members: seq<Member> := [];
      while true
        invariant old(offset) <= offset && offset + 1 < |content| && depth == old(depth) + 1
        invariant ParseMembers(content, at, depth) == After(members, ParseMembers(content, offset + 1, depth))
        decreases |content| - offset
      {
        MembersStep(content, offset + 1, depth);
        offset := offset + 1;
        var m := ReadMember();
        if m.Bad? { return Bad; }
        if m.NotModelled? { return NotModelled; }
        SkipWhitespace();
        if content[offset] != ',' {
          members := members + [m.value];
          break;
        }
        AfterTwice(members, [m.value], ParseMembers(content, offset + 1, depth));
        members := members + [m.value];
      }
      if content[offset] != '}' { return Bad; }
      depth := depth - 1;
      offset := offset + 1;
      return Ok(Obj(members), offset);
    }
  }

  /** cJSON_ParseWithOpts. */
  method ParseWithOpts(text: string, requireNullTerminated: bool) returns (r: Parsed<Json>)
    ensures r == ParseText(text, requireNullTerminated)
  {
    hide ParseValue, Skip;
    var buffer := new ParseBuffer(text);
    buffer.offset := SkipMark(buffer.content);
    buffer.SkipWhitespace();
    r := buffer.ReadValue();
    if r.Ok? && requireNullTerminated {
      buffer.SkipWhitespace();
      if buffer.content[buffer.offset] != '\0' { return Bad; }
      r := Ok(r.value, buffer.offset);
    }
  }
}
