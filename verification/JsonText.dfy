/** JSON text: what the printer writes and what the parser accepts, as functions. Bytes are modelled as
    characters, and the end of a text as a NUL behind it. */
module JsonText {
  import opened Basics
  import opened Decimal
  import opened Json

  /** The deepest nesting the parser accepts (CJSON_NESTING_LIMIT). */
  const NESTING_LIMIT: nat := 1000

  /** Below this magnitude "%1.15g" prints an integer in full, and a double holds it exactly. */
  const EXACT_LIMIT: int := 1_000_000_000_000_000

  // ---------------------------------------------------------------- printing

  function HexDigit(d: nat): char
    requires d < 16
  {
    if d < 10 then ('0' as int + d) as char else ('a' as int + d - 10) as char
  }

  /** The letter of a two-character escape, or the character itself when there is none. */
  function EscapeLetter(c: char): char {
    if c == 8 as char then 'b'
    else if c == 12 as char then 'f'
    else if c == '\n' then 'n'
    else if c == '\r' then 'r'
    else if c == '\t' then 't'
    else c
  }

  function EscapeChar(c: char): string {
    if c == '"' || c == '\\' || EscapeLetter(c) != c then ['\\', EscapeLetter(c)]
    else if c < ' ' then ['\\', 'u', '0', '0', HexDigit(c as int / 16), HexDigit(c as int % 16)]
    else [c]
  }

  function Escape(s: string): string {
    if s == [] then [] else EscapeChar(s[0]) + Escape(s[1..])
  }

  function PrintString(s: string): string {
    "\"" + Escape(s) + "\""
  }

  function PrintNumber(n: int): string {
    if n < 0 then "-" + ToDecimal(-n) else ToDecimal(n)
  }

  function Tabs(n: nat): string {
    if n == 0 then [] else "\t" + Tabs(n - 1)
  }

  /** The text of a value. `depth` counts the arrays and objects around it; only formatted objects
      use it. */
  function Print(j: Json, format: bool, depth: nat): string {
    match j
    case Null => "null"
    case False => "false"
    case True => "true"
    case Num(n) => PrintNumber(n)
    case Str(s) => PrintString(s)
    case Arr(items) => "[" + PrintItems(items, format, depth + 1) + "]"
    case Obj(members) => Open(format) + PrintMembers(members, format, depth + 1) + Indent(format, depth) + "}"
  }

  function Comma(format: bool): string {
    if format then ", " else ","
  }

  function Open(format: bool): string {
    if format then "{\n" else "{"
  }

  function Indent(format: bool, depth: nat): string {
    if format then Tabs(depth) else []
  }

  function Colon(format: bool): string {
    if format then ":\t" else ":"
  }

  /** What stands between two members, or after the last. */
  function Separator(more: bool, format: bool): string {
    (if more then "," else []) + (if format then "\n" else [])
  }

  function PrintItems(items: seq<Json>, format: bool, depth: nat): string {
    if items == [] then []
    else if |items| == 1 then Print(items[0], format, depth)
    else Print(items[0], format, depth) + Comma(format) + PrintItems(items[1..], format, depth)
  }

  function PrintMembers(members: seq<Member>, format: bool, depth: nat): string {
    if members == [] then [] else
      Indent(format, depth) + PrintString(members[0].key) + Colon(format)
      + Print(members[0].val, format, depth) + Separator(|members| > 1, format)
      + PrintMembers(members[1..], format, depth)
  }

  // ---------------------------------------------------------------- parsing

  /** A text in a parse buffer: its last byte is the terminating NUL. */
  ghost predicate Terminated(s: string) {
    s != [] && s[|s| - 1] == '\0'
  }

  /** buffer_skip_whitespace: bytes up to 32 count as white space, but the end is stepped back from. */
  function Skip(s: string, off: nat): (r: nat)
    requires Terminated(s) && off < |s|
    ensures off <= r < |s|
    decreases |s| - off
  {
    if s[off] <= ' ' then (if off + 1 == |s| then off else Skip(s, off + 1)) else off
  }

  predicate StartsWith(s: string, off: nat, word: string) {
    off + |word| <= |s| && s[off..off + |word|] == word
  }

  /** Characters copied into the buffer that strtod is given. */
  predicate IsNumberChar(c: char) {
    IsDigit(c) || c == '+' || c == '-' || c == 'e' || c == 'E' || c == '.'
  }

  /** At most `limit` number characters from off. */
  function NumberText(s: string, off: nat, limit: nat): (t: string)
    requires Terminated(s) && off < |s|
    ensures |t| <= limit && off + |t| < |s|
    decreases limit
  {
    if limit == 0 || !IsNumberChar(s[off]) then [] else [s[off]] + NumberText(s, off + 1, limit - 1)
  }

  /** The length of a run of digits. */
  function DigitRun(s: string): (n: nat)
    ensures n <= |s| && AllDigits(s[..n])
  {
    if s == [] || !IsDigit(s[0]) then 0
    else
      var n := DigitRun(s[1..]);
      assert s[..n + 1] == [s[0]] + s[1..][..n];
      n + 1
  }

  /** NotModelled stands for numbers this model does not evaluate: fractions, exponents, minus zero,
      and integers beyond the exact range. */
  datatype Parsed<+T> = Ok(value: T, next: nat) | Bad | NotModelled

  /** strtod on a text of number characters: the value and how many characters it took. */
  function Strtod(text: string): (r: Parsed<int>)
    ensures r.Ok? ==> 0 < r.next <= |text|
  {
    if text != [] && text[0] == '-' then
      var r := Digits(text[1..]);
      if r.Ok? then (if r.value == 0 then NotModelled else Ok(-r.value, r.next + 1)) else r
    else Digits(text)
  }

  function Digits(text: string): (r: Parsed<int>)
    ensures r.Ok? ==> 0 < r.next <= |text|
  {
    var n := DigitRun(text);
    if n < |text| && (text[n] == '.' || (n > 0 && (text[n] == 'e' || text[n] == 'E'))) then NotModelled
    else if n == 0 then Bad
    else
      var v := FromDecimal(text[..n]);
      if v >= EXACT_LIMIT then NotModelled else Ok(v, n)
  }

  /** parse_number: at most 63 characters are handed to strtod. */
  function ParseNumber(s: string, off: nat): (r: Parsed<Json>)
    requires Terminated(s) && off < |s|
    ensures r.Ok? ==> off < r.next < |s|
  {
    match Strtod(NumberText(s, off, 63))
    case Ok(v, n) => Ok(Num(v), off + n)
    case Bad => Bad
    case NotModelled => NotModelled
  }

  /** The closing quote of the string literal whose content starts at i, if there is one. */
  function ClosingQuote(s: string, i: nat): (r: Option<nat>)
    requires i <= |s|
    ensures r.Some? ==> i <= r.value < |s| && s[r.value] == '"'
    decreases |s| - i
  {
    if i == |s| then None
    else if s[i] == '"' then Some(i)
    else if s[i] == '\\' then (if i + 1 == |s| then None else ClosingQuote(s, i + 2))
    else ClosingQuote(s, i + 1)
  }

  function HexValue(c: char): Option<nat> {
    if '0' <= c <= '9' then Some(c as int - '0' as int)
    else if 'A' <= c <= 'F' then Some(10 + c as int - 'A' as int)
    else if 'a' <= c <= 'f' then Some(10 + c as int - 'a' as int)
    else None
  }

  /** parse_hex4: 0 when any of the four characters is not a hexadecimal digit. */
  function Hex4(a: char, b: char, c: char, d: char): (h: nat)
    ensures h < 0x10000
  {
    var w, x, y, z := HexValue(a), HexValue(b), HexValue(c), HexValue(d);
    if w.None? || x.None? || y.None? || z.None? then 0
    else ((w.value * 16 + x.value) * 16 + y.value) * 16 + z.value
  }

  /** How many bytes UTF-8 takes. */
  function Utf8Size(code: nat): (n: nat)
    ensures 1 <= n <= 4
  {
    if code < 0x80 then 1 else if code < 0x800 then 2 else if code < 0x10000 then 3 else 4
  }

  function FirstByteMark(size: nat): nat {
    if size == 2 then 0xC0 else if size == 3 then 0xE0 else if size == 4 then 0xF0 else 0
  }

  /** A first byte with the mark, and n bytes of six bits each. */
  function Utf8Bytes(code: nat, n: nat, mark: nat): (bytes: string)
    ensures |bytes| == n + 1
  {
    if n == 0 then [((code + mark) % 0x100) as char]
    else Utf8Bytes(code / 64, n - 1, mark) + [(0x80 + code % 64) as char]
  }

  /** The UTF-8 bytes of a code point, one character per byte. */
  function Utf8(code: nat): (bytes: string)
    ensures |bytes| == Utf8Size(code)
  {
    Utf8Bytes(code, Utf8Size(code) - 1, FirstByteMark(Utf8Size(code)))
  }

  datatype Unit = Unit(bytes: string, size: nat) | BadUnit

  /** utf16_literal_to_utf8 for the literal at i, with the closing quote at end. */
  function Utf16(s: string, i: nat, end: nat): (u: Unit)
    requires i < end < |s|
    ensures u.Unit? ==> i + u.size <= end && (u.size == 6 || u.size == 12) && 1 <= |u.bytes| <= 4
  {
    if end - i < 6 then BadUnit else
      var first := Hex4(s[i + 2], s[i + 3], s[i + 4], s[i + 5]);
      if 0xDC00 <= first <= 0xDFFF then BadUnit
      else if 0xD800 <= first <= 0xDBFF then
        if end - i < 12 || s[i + 6] != '\\' || s[i + 7] != 'u' then BadUnit else
          var second := Hex4(s[i + 8], s[i + 9], s[i + 10], s[i + 11]);
          if second < 0xDC00 || second > 0xDFFF then BadUnit
          else Unit(Utf8(0x10000 + (first - 0xD800) * 0x400 + (second - 0xDC00)), 12)
      else Unit(Utf8(first), 6)
  }

  /** One character or escape sequence of the content at i. */
  function NextUnit(s: string, i: nat, end: nat): (u: Unit)
    requires i < end < |s|
    ensures u.Unit? ==> u.size > 0 && (u.size > 2 ==> i + u.size <= end)
  {
    if s[i] != '\\' then Unit([s[i]], 1) else
      var c := s[i + 1];
      if c == 'b' then Unit([8 as char], 2)
      else if c == 'f' then Unit([12 as char], 2)
      else if c == 'n' then Unit("\n", 2)
      else if c == 'r' then Unit("\r", 2)
      else if c == 't' then Unit("\t", 2)
      else if c == '"' || c == '\\' || c == '/' then Unit([c], 2)
      else if c == 'u' then Utf16(s, i, end)
      else BadUnit
  }

  function Unescape(s: string, i: nat, end: nat): Option<string>
    requires end < |s|
    decreases end - i
  {
    if i >= end then Some([]) else
      var u := NextUnit(s, i, end);
      if u.BadUnit? then None else
        var rest := Unescape(s, i + u.size, end);
        if rest.None? then None else Some(u.bytes + rest.value)
  }

  /** parse_string. */
  function ParseString(s: string, off: nat): (r: Parsed<string>)
    requires Terminated(s) && off < |s|
    ensures r.Ok? ==> off < r.next < |s|
  {
    if s[off] != '"' then Bad else
      var end := ClosingQuote(s, off + 1);
      if end.None? then Bad else
        var text := Unescape(s, off + 1, end.value);
        if text.None? then Bad else Ok(CString(text.value), end.value + 1)
  }

  /** parse_value. `depth` counts the arrays and objects that are open. */
  function ParseValue(s: string, off: nat, depth: nat): (r: Parsed<Json>)
    requires Terminated(s) && off < |s|
    ensures r.Ok? ==> off < r.next < |s|
    decreases |s| - off, 1
  {
    var c := s[off];
    if StartsWith(s, off, "null") then Word(s, off, "null"); Ok(Null, off + 4)
    else if StartsWith(s, off, "false") then Word(s, off, "false"); Ok(False, off + 5)
    else if StartsWith(s, off, "true") then Word(s, off, "true"); Ok(True, off + 4)
    else if c == '"' then
      (match ParseString(s, off)
       case Ok(text, next) => Ok(Str(text), next)
       case Bad => Bad
       case NotModelled => NotModelled)
    else if c == '-' || IsDigit(c) then ParseNumber(s, off)
    else if c == '[' then ParseArray(s, off, depth)
    else if c == '{' then ParseObject(s, off, depth)
    else Bad
  }

  /** parse_array. */
  function ParseArray(s: string, off: nat, depth: nat): (r: Parsed<Json>)
    requires Terminated(s) && off < |s| && s[off] == '['
    ensures r.Ok? ==> off < r.next < |s|
    decreases |s| - off, 0
  {
    if depth >= NESTING_LIMIT then Bad else
      var at := Skip(s, off + 1);
      if s[at] == ']' then Ok(Arr([]), at + 1) else
        match ParseItems(s, at, depth + 1)
        case Ok(items, next) => Ok(Arr(items), next)
        case Bad => Bad
        case NotModelled => NotModelled
  }

  /** parse_object. */
  function ParseObject(s: string, off: nat, depth: nat): (r: Parsed<Json>)
    requires Terminated(s) && off < |s| && s[off] == '{'
    ensures r.Ok? ==> off < r.next < |s|
    decreases |s| - off, 0
  {
    if depth >= NESTING_LIMIT then Bad else
      var at := Skip(s, off + 1);
      if s[at] == '}' then Ok(Obj([]), at + 1) else
        match ParseMembers(s, at, depth + 1)
        case Ok(members, next) => Ok(Obj(members), next)
        case Bad => Bad
        case NotModelled => NotModelled
  }

  /** A word without NUL does not reach the end of the buffer. */
  lemma Word(s: string, off: nat, word: string)
    requires Terminated(s) && StartsWith(s, off, word)
    requires word != [] && word[|word| - 1] != '\0'
    ensures off + |word| < |s|
  {
    assert word[|word| - 1] == s[off..off + |word|][|word| - 1] == s[off + |word| - 1];
  }

  /** The elements of an array up to and including the closing bracket. */
  function ParseItems(s: string, off: nat, depth: nat): (r: Parsed<seq<Json>>)
    requires Terminated(s) && off < |s|
    ensures r.Ok? ==> off < r.next < |s|
    decreases |s| - off, 2
  {
    match ParseValue(s, Skip(s, off), depth)
    case Bad => Bad
    case NotModelled => NotModelled
    case Ok(v, next) =>
      var at := Skip(s, next);
      if s[at] == ',' then
        match ParseItems(s, at + 1, depth)
        case Bad => Bad
        case NotModelled => NotModelled
        case Ok(vs, end) => Ok([v] + vs, end)
      else if s[at] == ']' then Ok([v], at + 1)
      else Bad
  }

  /** The members of an object up to and including the closing brace. */
  function ParseMembers(s: string, off: nat, depth: nat): (r: Parsed<seq<Member>>)
    requires Terminated(s) && off < |s|
    ensures r.Ok? ==> off < r.next < |s|
    decreases |s| - off, 2
  {
    match ParseMember(s, off, depth)
    case Bad => Bad
    case NotModelled => NotModelled
    case Ok(m, next) =>
      var at := Skip(s, next);
      if s[at] == ',' then
        match ParseMembers(s, at + 1, depth)
        case Bad => Bad
        case NotModelled => NotModelled
        case Ok(ms, end) => Ok([m] + ms, end)
      else if s[at] == '}' then Ok([m], at + 1)
      else Bad
  }

  /** A name, a colon and a value. */
  function ParseMember(s: string, off: nat, depth: nat): (r: Parsed<Member>)
    requires Terminated(s) && off < |s|
    ensures r.Ok? ==> off < r.next < |s|
    decreases |s| - off, 1
  {
    match ParseString(s, Skip(s, off))
    case Bad => Bad
    case NotModelled => NotModelled
    case Ok(key, next) =>
      var colon := Skip(s, next);
      if s[colon] != ':' then Bad else
        match ParseValue(s, Skip(s, colon + 1), depth)
        case Bad => Bad
        case NotModelled => NotModelled
        case Ok(v, end) => Ok(Member(key, v), end)
  }

  /** A byte order mark is skipped when at least two bytes follow it. */
  function SkipMark(s: string): (off: nat)
    requires s != []
    ensures off < |s|
  {
    if |s| > 4 && s[..3] == [0xEF as char, 0xBB as char, 0xBF as char] then 3 else 0
  }

  /** cJSON_ParseWithOpts on a C string: the tree, and where parsing stopped. */
  function ParseText(text: string, toTheEnd: bool): (r: Parsed<Json>)
    ensures r.Ok? ==> r.next <= |CString(text)|
  {
    var s := CString(text) + "\0";
    var r := ParseValue(s, Skip(s, SkipMark(s)), 0);
    if !r.Ok? then r
    else if toTheEnd then
      var end := Skip(s, r.next);
      if s[end] == '\0' then Ok(r.value, end) else Bad
    else r
  }
}
