/** The printer as it runs: bytes written into a buffer that grows when it is full, or into one of
    fixed size. Each method is proved against the text that module JsonText gives, and both buffers
    agree on it. */
module PrintBuffer {
  import opened Basics
  import opened Decimal
  import opened Json
  import opened JsonText
  import opened JsonReading
  import opened JsonRoundTrip

  const INT_MAX: nat := 0x7FFFFFFF

  // ---------------------------------------------------------------- texts taken from the front

  lemma {:induction false} EscapeAppend(a: string, c: char)
    ensures Escape(a + [c]) == Escape(a) + EscapeChar(c)
  {
    hide EscapeChar;
    if a == [] {
      assert [c][1..] == [];
    } else {
      assert (a + [c])[1..] == a[1..] + [c];
      EscapeAppend(a[1..], c);
    }
  }

  /** One element and what follows it. */
  function ItemText(items: seq<Json>, i: nat, format: bool, depth: nat): string
    requires i < |items|
  {
    Print(items[i], format, depth) + (if i + 1 < |items| then Comma(format) else [])
  }

  lemma ItemsFrom(items: seq<Json>, i: nat, format: bool, depth: nat)
    requires i < |items|
    ensures PrintItems(items[i..], format, depth)
         == ItemText(items, i, format, depth) + PrintItems(items[i + 1..], format, depth)
  {
    hide Print;
    var rest := items[i..];
    assert rest[1..] == items[i + 1..];
    if |rest| == 1 {
      assert items[i + 1..] == [];
    }
  }

  function MemberText(members: seq<Member>, i: nat, format: bool, depth: nat): string
    requires i < |members|
  {
    Indent(format, depth) + PrintString(members[i].key) + Colon(format)
    + Print(members[i].val, format, depth) + Separator(i + 1 < |members|, format)
  }

  lemma MembersFrom(members: seq<Member>, i: nat, format: bool, depth: nat)
    requires i < |members|
    ensures PrintMembers(members[i..], format, depth)
         == MemberText(members, i, format, depth) + PrintMembers(members[i + 1..], format, depth)
  {
    hide Print, Indent, PrintString, Colon, Separator;
    var rest := members[i..];
    assert rest[1..] == members[i + 1..];
    assert rest[0] == members[i];
  }

  class PrintBuffer {
    var buffer: array<char>
    var length: nat
    var offset: nat
    var depth: nat
    const noalloc: bool
    const format: bool

    /** The buffer may be replaced by a larger one unless noalloc is set. */
    function Capacity(): nat
      reads this
    {
      if noalloc then length else INT_MAX
    }

    ghost predicate Valid()
      reads this
    {
      && length <= buffer.Length
      && length <= INT_MAX
      && (offset < length || (noalloc && length == 0 && offset == 0))
    }

    constructor (block: array<char>, len: nat, fixed: bool, fmt: bool)
      requires len <= block.Length && len <= INT_MAX && (fixed || len > 0)
      ensures Valid() && buffer == block && length == len && offset == 0 && depth == 0
      ensures noalloc == fixed && format == fmt
    {
      buffer, length, offset, depth, noalloc, format := block, len, 0, 0, fixed, fmt;
    }

    /** What every printing step leaves alone. */
    twostate predicate Kept()
      reads this
    {
      && Valid()
      && (buffer == old(buffer) || fresh(buffer))
      && (noalloc ==> buffer == old(buffer) && length == old(length))
      && Capacity() == old(Capacity())
    }

    /** The text stands where the offset was, followed by a NUL; everything before is untouched. */
    twostate predicate Wrote(text: string)
      reads this, buffer
    {
      && Kept() && depth == old(depth)
      && old(Valid())
      && old(offset) <= offset <= old(offset) + |text| < length
      && buffer[..old(offset) + |text|] == old(buffer[..offset]) + text
      && buffer[old(offset) + |text|] == '\0'
    }

    /** The same with the offset moved behind the text. */
    twostate predicate Appended(text: string)
      reads this, buffer
    {
      && Kept() && depth == old(depth)
      && old(Valid())
      && offset == old(offset) + |text|
      && buffer[..offset] == old(buffer[..offset]) + text
    }

    /** ensure: room for `needed` bytes and one more. */
    method Ensure(needed: nat) returns (ok: bool)
      requires Valid()
      modifies this
      ensures ok <==> old(offset) + needed + 1 <= old(Capacity())
      ensures Kept() && offset == old(offset) && depth == old(depth)
      ensures ok ==> offset + needed + 1 <= length && buffer[..offset] == old(buffer[..offset])
      ensures !ok ==> buffer == old(buffer)
    {
      if length > 0 && offset >= length { return false; }
      if needed > INT_MAX { return false; }
      var total := needed + offset + 1;
      if total <= length { return true; }
      if noalloc { return false; }
      var newSize: nat;
      if total > INT_MAX / 2 {
        if total <= INT_MAX { newSize := INT_MAX; } else { return false; }
      } else {
        newSize := total * 2;
      }
      var newBuffer := new char[newSize];
      forall k | 0 <= k < offset + 1 {
        newBuffer[k] := buffer[k];
      }
      buffer := newBuffer;
      length := newSize;
      return true;
    }

    /** Bytes copied to a position inside the buffer. */
    method Put(at: nat, text: string)
      requires length <= buffer.Length && at + |text| <= length
      modifies buffer
      ensures buffer[..at + |text|] == old(buffer[..at]) + text
      ensures forall k :: at + |text| <= k < buffer.Length ==> buffer[k] == old(buffer[k])
    {
      forall k | 0 <= k < |text| {
        buffer[at + k] := text[k];
      }
    }

    /** update_offset: strlen from the current offset. */
    method UpdateOffset(ghost end: nat)
      requires offset <= end < length <= buffer.Length
      requires buffer[end] == '\0' && NulFree(buffer[offset..end])
      modifies this`offset
      ensures offset == end
    {
      ghost var start := offset;
      while buffer[offset] != '\0'
        invariant start <= offset <= end
        invariant forall k :: start <= k < end ==> buffer[start..end][k - start] == buffer[k]
        decreases end - offset
      {
        offset := offset + 1;
      }
    }

    /** Room for a text and its NUL, then the text, as print_value does for the three words. */
    method PrintText(text: string) returns (ok: bool)
      requires Valid()
      modifies this, buffer
      ensures ok <==> old(offset) + |text| + 2 <= old(Capacity())
      ensures ok ==> Wrote(text) && offset == old(offset)
    {
      ok := Ensure(|text| + 1);
      if ok {
        Put(offset, text + "\0");
        assert buffer[..offset + |text|] == old(buffer[..offset]) + text;
      }
    }

    // -------------------------------------------------------------- numbers and strings

    /** print_number: at most 25 characters. */
    method WriteNumber(n: int) returns (ok: bool)
      requires Valid() && -EXACT_LIMIT < n < EXACT_LIMIT
      modifies this, buffer
      ensures ok <==> old(offset) + |PrintNumber(n)| + 2 <= old(Capacity())
      ensures ok ==> Wrote(PrintNumber(n))
    {
      hide ToDecimal;
      var text := PrintNumber(n);
      FifteenDigits(if n < 0 then -n else n);
      if |text| > 25 { return false; }
      ok := PrintText(text);
      if ok {
        assert Wrote(text);
        offset := offset + |text|;
        assert Valid();
        assert Kept();
      }
    }

    /** The first pass of print_string_ptr: how many characters escaping adds. */
    static method CountEscapes(input: string) returns (escapes: nat)
      ensures |input| + escapes == |Escape(input)|
      ensures escapes == 0 ==> Escape(input) == input
    {
      escapes := 0;
      var i := 0;
      while i < |input|
        invariant i <= |input|
        invariant i + escapes == |Escape(input[..i])|
        invariant escapes == 0 ==> Escape(input[..i]) == input[..i]
      {
        var c := input[i];
        if c == '"' || c == '\\' || c == 8 as char || c == 12 as char || c == '\n' || c == '\r' || c == '\t' {
          escapes := escapes + 1;
        } else if c < ' ' {
          escapes := escapes + 5;
        }
        EscapeAppend(input[..i], c);
        assert input[..i + 1] == input[..i] + [c];
        i := i + 1;
      }
      assert input[..i] == input;
    }

    /** One character of the second pass; returns the position behind what was written. */
    method PutEscaped(c: char, at: nat) returns (next: nat)
      requires length <= buffer.Length && at + |EscapeChar(c)| <= length
      modifies buffer
      ensures next == at + |EscapeChar(c)|
      ensures buffer[..next] == old(buffer[..at]) + EscapeChar(c)
      ensures forall k :: next <= k < buffer.Length ==> buffer[k] == old(buffer[k])
    {
      if c > 31 as char && c != '"' && c != '\\' {
        buffer[at] := c;
        return at + 1;
      }
      buffer[at] := '\\';
      if c == '\\' { buffer[at + 1] := '\\'; }
      else if c == '"' { buffer[at + 1] := '"'; }
      else if c == 8 as char { buffer[at + 1] := 'b'; }
      else if c == 12 as char { buffer[at + 1] := 'f'; }
      else if c == '\n' { buffer[at + 1] := 'n'; }
      else if c == '\r' { buffer[at + 1] := 'r'; }
      else if c == '\t' { buffer[at + 1] := 't'; }
      else {
        buffer[at + 1], buffer[at + 2], buffer[at + 3] := 'u', '0', '0';
        buffer[at + 4], buffer[at + 5] := HexDigit(c as int / 16), HexDigit(c as int % 16);
        return at + 6;
      }
      return at + 2;
    }

    /** The second pass, which fills exactly the bytes that the first pass counted. */
    method PutAllEscaped(input: string, at: nat)
      requires length <= buffer.Length && at + |Escape(input)| <= length
      modifies buffer
      ensures buffer[..at + |Escape(input)|] == old(buffer[..at]) + Escape(input)
    {
      hide EscapeChar, Escape;
      var i, next := 0, at;
      EscapeNothing();
      assert input[..0] == [];
      while i < |input|
        invariant i <= |input|
        invariant next == at + |Escape(input[..i])| && next + |Escape(input[i..])| == at + |Escape(input)|
        invariant buffer[..next] == old(buffer[..at]) + Escape(input[..i])
      {
        var c := input[i];
        assert input[..i + 1] == input[..i] + [c];
        EscapeAppend(input[..i], c);
        EscapeFrom(input, i);
        next := PutEscaped(c, next);
        i := i + 1;
      }
      assert input[..i] == input;
    }

    static lemma EscapeNothing()
      ensures Escape([]) == []
    {
    }

    static lemma EscapeFrom(s: string, i: nat)
      requires i < |s|
      ensures Escape(s[i..]) == EscapeChar(s[i]) + Escape(s[i + 1..])
    {
      assert s[i..][1..] == s[i + 1..];
    }

    /** print_string_ptr. The offset stays in front of the literal. */
    method WriteString(input: string) returns (ok: bool)
      requires Valid()
      modifies this, buffer
      ensures ok <==> old(offset) + |PrintString(input)| + 2 <= old(Capacity())
      ensures ok ==> Wrote(PrintString(input)) && offset == old(offset)
    {
      hide Escape;
      var escapes := CountEscapes(input);
      var outputLength := |input| + escapes;
      ok := Ensure(outputLength + 3);
      if !ok { return; }
      FillLiteral(input, escapes);
    }

    /** The literal of a string whose escapes have been counted. */
    method FillLiteral(input: string, escapes: nat)
      requires length <= buffer.Length && offset + |PrintString(input)| + 1 <= length
      requires |input| + escapes == |Escape(input)| && (escapes == 0 ==> Escape(input) == input)
      modifies buffer
      ensures buffer[..offset + |PrintString(input)|] == old(buffer[..offset]) + PrintString(input)
      ensures buffer[offset + |PrintString(input)|] == '\0'
    {
      hide Escape;
      ghost var was := buffer[..offset];
      var outputLength := |input| + escapes;
      Put(offset, "\"");
      if escapes == 0 {
        Put(offset + 1, input);
      } else {
        PutAllEscaped(input, offset + 1);
      }
      assert buffer[..offset + 1 + outputLength] == was + "\"" + Escape(input);
      Put(offset + 1 + outputLength, "\"\0");
      Quoted(was, Escape(input), buffer[..offset + outputLength + 3]);
      assert buffer[..offset + outputLength + 3][..offset + outputLength + 2] == buffer[..offset + outputLength + 2];
    }

    /** What stands before the final NUL. */
    static lemma Quoted(was: string, body: string, all: string)
      requires all == was + "\"" + body + "\"\0"
      ensures |all| == |was| + |body| + 3 && all[|all| - 1] == '\0'
      ensures all[..|all| - 1] == was + ("\"" + body + "\"")
    {
    }

    // -------------------------------------------------------------- values

    /** Room for `needed` bytes, then a text no longer than that, and the offset behind it. */
    method AppendText(text: string, needed: nat) returns (ok: bool)
      requires Valid() && |text| <= needed
      modifies this, buffer
      ensures ok <==> old(offset) + needed + 1 <= old(Capacity())
      ensures ok ==> Appended(text)
    {
      ok := Ensure(needed);
      if ok {
        Put(offset, text);
        offset := offset + |text|;
      }
    }

    /** The indentation of print_object. */
    method AppendTabs() returns (ok: bool)
      requires Valid()
      modifies this, buffer
      ensures ok <==> old(offset) + old(depth) + 1 <= old(Capacity())
      ensures ok ==> Appended(Tabs(old(depth)))
    {
      ok := Ensure(depth);
      if !ok { return; }
      TabsAreWhite(depth);
      ghost var was := buffer[..offset];
      var i := 0;
      assert buffer[..offset] == was + Tabs(0);
      while i < depth
        invariant i <= depth
        invariant buffer[..offset + i] == was + Tabs(i)
        modifies buffer
      {
        OneMoreTab(i);
        buffer[offset + i] := '\t';
        i := i + 1;
      }
      offset := offset + depth;
    }

    static lemma {:induction false} OneMoreTab(n: nat)
      ensures Tabs(n + 1) == Tabs(n) + "\t"
    {
      if n > 0 {
        OneMoreTab(n - 1);
      }
    }

    /** print_value: the text of j, exactly when it fits with two bytes to spare. */
    method WriteValue(j: Json) returns (ok: bool)
      requires Valid() && Printable(j)
      modifies this, buffer
      ensures ok <==> old(offset) + |Print(j, format, old(depth))| + 2 <= old(Capacity())
      ensures ok ==> Wrote(Print(j, format, old(depth)))
      decreases j, 3
    {
      hide Wrote, PrintNumber, PrintString, Valid;
      match j
      case Null => ok := PrintText("null");
      case False => ok := PrintText("false");
      case True => ok := PrintText("true");
      case Num(n) => ok := WriteNumber(n);
      case Str(s) => ok := WriteString(s);
      case Arr(items) => ok := WriteArray(items);
      case Obj(members) => ok := WriteObject(members);
    }

    /** print_value and update_offset. */
    method AppendValue(j: Json) returns (ok: bool)
      requires Valid() && Printable(j)
      modifies this, buffer
      ensures ok <==> old(offset) + |Print(j, format, old(depth))| + 2 <= old(Capacity())
      ensures ok ==> Appended(Print(j, format, old(depth)))
      decreases j, 4
    {
      hide Print, Printable;
      ghost var start, text := offset, Print(j, format, depth);
      ok := WriteValue(j);
      if ok {
        PrintIsNulFree(j, format, depth);
        Suffix(buffer[..start + |text|], start, offset, text);
        UpdateOffset(start + |text|);
      }
    }

    static lemma Suffix(written: string, start: nat, from: nat, text: string)
      requires start <= from <= |written| && |written| == start + |text| && written[start..] == text && NulFree(text)
      ensures NulFree(written[from..])
    {
      assert written[from..] == text[from - start..];
    }

    /** One element and the comma after it. */
    method AppendItem(items: seq<Json>, i: nat) returns (ok: bool)
      requires Valid() && Printable(Arr(items)) && i < |items|
      modifies this, buffer
      ensures ok <==> old(offset) + |ItemText(items, i, format, old(depth))| + 2 <= old(Capacity())
      ensures ok ==> Appended(ItemText(items, i, format, old(depth)))
      decreases items, 0
    {
      hide Print, Comma;
      ok := AppendValue(items[i]);
      if ok && i + 1 < |items| {
        ok := AppendText(Comma(format), |Comma(format)| + 1);
      }
    }

    /** The loop of print_array. */
    method AppendItems(items: seq<Json>) returns (ok: bool)
      requires Valid() && Printable(Arr(items))
      modifies this, buffer
      ensures ok ==> Appended(PrintItems(items, format, old(depth)))
      ensures !ok ==> old(offset) + |PrintItems(items, format, old(depth))| + 2 > old(Capacity())
      decreases items, 1
    {
      hide Print, PrintItems, ItemText, Printable;
      ghost var start, was := offset, buffer[..offset];
      ghost var body := PrintItems(items, format, depth);
      var i := 0;
      assert items[0..] == items;
      while i < |items|
        invariant i <= |items| && Kept() && depth == old(depth)
        invariant offset + |PrintItems(items[i..], format, depth)| == start + |body|
        invariant buffer[..offset] + PrintItems(items[i..], format, depth) == was + body
      {
        ItemsFrom(items, i, format, depth);
        ghost var before := buffer[..offset];
        ok := AppendItem(items, i);
        if !ok { return; }
        Associate(before, ItemText(items, i, format, depth), PrintItems(items[i + 1..], format, depth));
        i := i + 1;
      }
      assert items[i..] == [];
      EmptyItems(format, depth);
      return true;
    }

    static lemma Associate(a: string, b: string, c: string)
      ensures (a + b) + c == a + (b + c)
    {
    }

    /** The opening bracket and the elements, one level deeper. */
    method OpenArray(items: seq<Json>) returns (ok: bool)
      requires Valid() && Printable(Arr(items))
      modifies this, buffer
      ensures var text := "[" + PrintItems(items, format, old(depth) + 1);
              if ok then
                && Kept() && depth == old(depth) + 1 && offset == old(offset) + |text|
                && buffer[..offset] == old(buffer[..offset]) + text
              else old(offset) + |text| + 2 > old(Capacity())
      decreases items, 2
    {
      hide Print, PrintItems, Printable;
      ghost var was, body := buffer[..offset], PrintItems(items, format, depth + 1);
      ok := AppendText("[", 1);
      if !ok { return; }
      depth := depth + 1;
      ok := AppendItems(items);
      Associate(was, "[", body);
    }

    /** print_array. */
    method WriteArray(items: seq<Json>) returns (ok: bool)
      requires Valid() && Printable(Arr(items))
      modifies this, buffer
      ensures ok <==> old(offset) + |Print(Arr(items), format, old(depth))| + 2 <= old(Capacity())
      ensures ok ==> Wrote(Print(Arr(items), format, old(depth)))
      decreases items, 3
    {
      hide Print, PrintItems, Printable;
      ArrayText(items, format, depth);
      ghost var was, start := buffer[..offset], "[" + PrintItems(items, format, depth + 1);
      ok := OpenArray(items);
      if !ok { return; }
      ok := PrintText("]");
      if ok { depth := depth - 1; }
      Associate(was, start, "]");
    }

    /** print_string_ptr and update_offset. */
    method AppendString(key: string) returns (ok: bool)
      requires Valid() && NulFree(key)
      modifies this, buffer
      ensures ok <==> old(offset) + |PrintString(key)| + 2 <= old(Capacity())
      ensures ok ==> Appended(PrintString(key))
    {
      hide PrintString;
      ghost var start := offset;
      ok := WriteString(key);
      if ok {
        LiteralIsNulFree(key);
        Suffix(buffer[..start + |PrintString(key)|], start, offset, PrintString(key));
        UpdateOffset(start + |PrintString(key)|);
      }
    }

    /** The name of a member: indentation, literal, colon. */
    method AppendKey(key: string) returns (ok: bool)
      requires Valid() && NulFree(key)
      modifies this, buffer
      ensures ok ==> Appended(Indent(format, old(depth)) + PrintString(key) + Colon(format))
      ensures !ok ==>
                old(offset) + |Indent(format, old(depth)) + PrintString(key) + Colon(format)| + 2 > old(Capacity())
    {
      hide PrintString, Tabs;
      TabsAreWhite(depth);
      ok := true;
      if format {
        ok := AppendTabs();
      }
      if ok {
        ok := AppendString(key);
        if ok {
          ok := AppendText(Colon(format), |Colon(format)|);
        }
      }
    }

    static lemma LiteralIsNulFree(s: string)
      requires NulFree(s)
      ensures NulFree(PrintString(s))
    {
      hide Escape;
      EscapeIsNulFree(s);
    }

    /** One turn of the loop of print_object. */
    method AppendMember(members: seq<Member>, i: nat) returns (ok: bool)
      requires Valid() && Printable(Obj(members)) && i < |members|
      modifies this, buffer
      ensures ok <==> old(offset) + |MemberText(members, i, format, old(depth))| + 2 <= old(Capacity())
      ensures ok ==> Appended(MemberText(members, i, format, old(depth)))
      decreases members, 0
    {
      hide Print, Indent, PrintString, Colon, Separator;
      var more := i + 1 < |members|;
      ok := AppendKey(members[i].key);
      if !ok { return; }
      ok := AppendValue(members[i].val);
      if !ok { return; }
      ok := AppendText(Separator(more, format), |Separator(more, format)| + 1);
    }

    /** The loop of print_object. */
    method AppendMembers(members: seq<Member>) returns (ok: bool)
      requires Valid() && Printable(Obj(members))
      modifies this, buffer
      ensures ok ==> Appended(PrintMembers(members, format, old(depth)))
      ensures !ok ==> old(offset) + |PrintMembers(members, format, old(depth))| + 2 > old(Capacity())
      decreases members, 1
    {
      hide Print, PrintMembers, MemberText, Printable;
      ghost var start, was := offset, buffer[..offset];
      ghost var body := PrintMembers(members, format, depth);
      var i := 0;
      assert members[0..] == members;
      while i < |members|
        invariant i <= |members| && Kept() && depth == old(depth)
        invariant offset + |PrintMembers(members[i..], format, depth)| == start + |body|
        invariant buffer[..offset] + PrintMembers(members[i..], format, depth) == was + body
      {
        MembersFrom(members, i, format, depth);
        ghost var before := buffer[..offset];
        ok := AppendMember(members, i);
        if !ok { return; }
        Associate(before, MemberText(members, i, format, depth), PrintMembers(members[i + 1..], format, depth));
        i := i + 1;
      }
      assert members[i..] == [];
      EmptyMembers(format, depth);
      return true;
    }

    /** The opening bracket and the members. */
    method OpenObject(members: seq<Member>) returns (ok: bool)
      requires Valid() && Printable(Obj(members))
      modifies this, buffer
      ensures ok ==> Appended(Open(format) + PrintMembers(members, format, old(depth) + 1))
      ensures !ok ==>
                old(offset) + |Open(format)| + |PrintMembers(members, format, old(depth) + 1)| + 2 > old(Capacity())
      decreases members, 2
    {
      hide Print, PrintMembers, Printable, Open;
      ghost var was, body := buffer[..offset], PrintMembers(members, format, depth + 1);
      ok := AppendText(Open(format), |Open(format)| + 1);
      if !ok { return; }
      depth := depth + 1;
      ok := AppendMembers(members);
      if !ok { return; }
      depth := depth - 1;
      Associate(was, Open(format), body);
    }

    /** print_object. */
    method WriteObject(members: seq<Member>) returns (ok: bool)
      requires Valid() && Printable(Obj(members))
      modifies this, buffer
      ensures ok <==> old(offset) + |Print(Obj(members), format, old(depth))| + 2 <= old(Capacity())
      ensures ok ==> Wrote(Print(Obj(members), format, old(depth)))
      decreases members, 3
    {
      hide Print, PrintMembers, Printable, Indent, Open;
      ObjectText(members, format, depth);
      ghost var was, start := buffer[..offset], Open(format) + PrintMembers(members, format, depth + 1);
      ok := OpenObject(members);
      if !ok { return; }
      ok := PrintText(Indent(format, depth) + "}");
      Associate(was, start, Indent(format, depth) + "}");
    }

    static lemma ObjectText(members: seq<Member>, format: bool, d: nat)
      ensures Print(Obj(members), format, d)
           == Open(format) + PrintMembers(members, format, d + 1) + (Indent(format, d) + "}")
    {
      Associate(Open(format) + PrintMembers(members, format, d + 1), Indent(format, d), "}");
    }
  }

  /** cJSON_PrintPreallocated: it succeeds exactly when the block holds the text and two more bytes (the
      documented margin is five), and then the block holds what cJSON_Print gives for the same format. */
  method PrintPreallocated(item: Json, buf: array<char>, len: int, fmt: bool) returns (ok: bool)
    requires Printable(item) && len <= buf.Length && len <= INT_MAX
    modifies buf
    ensures ok <==> |Print(item, fmt, 0)| + 2 <= len
    ensures ok ==> buf[..|Print(item, fmt, 0)|] == Print(item, fmt, 0) && buf[|Print(item, fmt, 0)|] == '\0'
  {
    hide Print, Printable;
    if len < 0 { return false; }
    var p := new PrintBuffer(buf, len, true, fmt);
    ok := p.WriteValue(item);
  }

  /** cJSON_Print and cJSON_PrintUnformatted. The result is the text and its NUL. */
  method PrintAll(item: Json, fmt: bool) returns (printed: array?<char>)
    requires Printable(item)
    ensures printed != null <==> |Print(item, fmt, 0)| + 2 <= INT_MAX
    ensures printed != null ==> printed[..] == Print(item, fmt, 0) + "\0"
  {
    hide Print, Printable;
    var block := new char[256];
    var p := new PrintBuffer(block, 256, false, fmt);
    var ok := p.AppendValue(item);
    if !ok { return null; }
    printed := new char[p.offset + 1];
    forall k | 0 <= k < p.offset {
      printed[k] := p.buffer[k];
    }
    printed[p.offset] := '\0';
    assert printed[..p.offset] == p.buffer[..p.offset];
    assert printed[..] == printed[..p.offset] + "\0";
  }

  /** Printing and parsing, as a caller sees them. */
  lemma PrintedTextParses(j: Json, fmt: bool)
    requires Printable(j) && Nesting(j) <= NESTING_LIMIT
    ensures ParseText(Print(j, fmt, 0) + "\0", true).Ok?
    ensures ParseText(Print(j, fmt, 0) + "\0", true).value == j
  {
    hide Print, ParseValue, Nesting, Printable;
    var text := Print(j, fmt, 0);
    PrintIsNulFree(j, fmt, 0);
    StopsAtNul(text);
    WholeString(text);
    PrintThenParse(j, fmt, true);
  }

  lemma {:induction false} StopsAtNul(t: string)
    requires NulFree(t)
    ensures CString(t + "\0") == t
  {
    if t != [] {
      assert t[0] in t;
      assert (t + "\0")[1..] == t[1..] + "\0";
      StopsAtNul(t[1..]);
    }
  }
}
