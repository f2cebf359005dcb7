/** JSON string literals as section 7 of RFC 8259 has them, and the printer and the parser of cJSON. */
module JsonStrings {
  import opened Basics
  import opened JsonText
  import opened JsonReading

  // ---------------------------------------------------------------- the standard

  const LOWER_DIGITS := "0123456789abcdef"
  const UPPER_DIGITS := "0123456789ABCDEF"

  /** The characters that may follow a backslash, besides u, and what they stand for. */
  const LETTERS := "\"\\/bfnrt"
  const MEANT: string := ['"', '\\', '/', 8 as char, 12 as char, 10 as char, 13 as char, 9 as char]

  /** Where a character stands in a table, or the length of the table. */
  function PlaceIn(table: string, c: char): (p: nat)
    ensures p <= |table| && (p < |table| ==> table[p] == c) && c !in table[..p]
  {
    if table == [] || table[0] == c then 0 else 1 + PlaceIn(table[1..], c)
  }

  /** Hexadecimal digits of either case. */
  function Digit16(c: char): (d: Option<nat>)
    ensures d.Some? ==> d.value < 16
  {
    if PlaceIn(LOWER_DIGITS, c) < 16 then Some(PlaceIn(LOWER_DIGITS, c))
    else if PlaceIn(UPPER_DIGITS, c) < 16 then Some(PlaceIn(UPPER_DIGITS, c))
    else None
  }

  /** Four digits, the most significant first. */
  function Code16(a: char, b: char, c: char, d: char): (code: Option<nat>)
    ensures code.Some? ==> code.value < 0x10000
  {
    var w, x, y, z := Digit16(a), Digit16(b), Digit16(c), Digit16(d);
    if w.None? || x.None? || y.None? || z.None? then None
    else Some(0x1000 * w.value + 0x100 * x.value + 0x10 * y.value + z.value)
  }

  /** The table of section 3 of RFC 3629. */
  function Utf8Of(code: nat): string
    requires code < 0x110000
  {
    if code < 0x80 then [code as char]
    else if code < 0x800 then [(0xC0 + code / 0x40) as char, (0x80 + code % 0x40) as char]
    else if code < 0x10000 then
      [(0xE0 + code / 0x1000) as char, (0x80 + code / 0x40 % 0x40) as char, (0x80 + code % 0x40) as char]
    else
      [(0xF0 + code / 0x40000) as char, (0x80 + code / 0x1000 % 0x40) as char,
       (0x80 + code / 0x40 % 0x40) as char, (0x80 + code % 0x40) as char]
  }

  predicate IsHigh(code: nat) {
    0xD800 <= code < 0xDC00
  }

  predicate IsLow(code: nat) {
    0xDC00 <= code < 0xE000
  }

  /** What the first characters between the quotes stand for, and how many they are. */
  datatype First = First(text: string, size: nat) | Refused

  /** No control characters, no quotes, only the escapes of the table, and surrogates only in pairs. */
  function StrictFirst(body: string): (f: First)
    requires body != []
    ensures f.First? ==> 0 < f.size <= |body|
  {
    if body[0] < ' ' || body[0] == '"' then Refused
    else if body[0] != '\\' then First([body[0]], 1)
    else if |body| == 1 then Refused
    else if body[1] == 'u' then StrictCode(body)
    else
      var p := PlaceIn(LETTERS, body[1]);
      if p == |LETTERS| then Refused else First([MEANT[p]], 2)
  }

  /** The escapes with four digits. */
  function StrictCode(body: string): (f: First)
    ensures f.First? ==> 0 < f.size <= |body|
  {
    if |body| < 6 then Refused
    else
      var first := Code16(body[2], body[3], body[4], body[5]);
      if first.None? || IsLow(first.value) then Refused
      else if !IsHigh(first.value) then First(Utf8Of(first.value), 6)
      else if |body| < 12 || body[6] != '\\' || body[7] != 'u' then Refused
      else
        var second := Code16(body[8], body[9], body[10], body[11]);
        if second.None? || !IsLow(second.value) then Refused
        else First(Utf8Of(0x10000 + 0x400 * (first.value - 0xD800) + (second.value - 0xDC00)), 12)
  }

  /** The text of a literal, from what stands between its quotes. */
  function StrictRead(body: string): Option<string>
    decreases |body|
  {
    if body == [] then Some([]) else
      var f := StrictFirst(body);
      if f.Refused? then None else
        var rest := StrictRead(body[f.size..]);
        if rest.None? then None else Some(f.text + rest.value)
  }

  // ---------------------------------------------------------------- the parser reads what the standard says

  /** The only place of a character. */
  lemma {:induction false} PlaceIs(table: string, k: nat, c: char)
    requires k < |table| && table[k] == c && forall j :: 0 <= j < k ==> table[j] != c
    ensures PlaceIn(table, c) == k
  {
    if k > 0 { PlaceIs(table[1..], k - 1, c); }
  }

  /** The places of the digits in both tables. */
  lemma TablePlaces(k: nat)
    requires k < 16
    ensures LOWER_DIGITS[k] as int == if k < 10 then '0' as int + k else 'a' as int + k - 10
    ensures UPPER_DIGITS[k] as int == if k < 10 then '0' as int + k else 'A' as int + k - 10
  {
    assert k == 0 || k == 1 || k == 2 || k == 3 || k == 4 || k == 5 || k == 6 || k == 7 || k >= 8;
    assert k <= 8 || k == 9 || k == 10 || k == 11 || k == 12 || k == 13 || k == 14 || k == 15;
  }

  lemma DigitsApart(k: nat, c: char)
    requires k < 16
    ensures LOWER_DIGITS[k] == c ==>
              (forall j :: 0 <= j < k ==> LOWER_DIGITS[j] != c)
    ensures UPPER_DIGITS[k] == c ==>
              (forall j :: 0 <= j < k ==> UPPER_DIGITS[j] != c)
  {
    TablePlaces(k);
    forall j | 0 <= j < k ensures LOWER_DIGITS[j] != LOWER_DIGITS[k] && UPPER_DIGITS[j] != UPPER_DIGITS[k] {
      TablePlaces(j);
    }
  }

  lemma LowerPlace(c: char)
    ensures PlaceIn(LOWER_DIGITS, c) ==
            if '0' <= c <= '9' then c as int - '0' as int
            else if 'a' <= c <= 'f' then 10 + c as int - 'a' as int
            else 16
  {
    if '0' <= c <= '9' || 'a' <= c <= 'f' {
      var k: nat := if c <= '9' then c as int - '0' as int else 10 + c as int - 'a' as int;
      TablePlaces(k);
      DigitsApart(k, c);
      PlaceIs(LOWER_DIGITS, k, c);
    } else if PlaceIn(LOWER_DIGITS, c) < 16 {
      TablePlaces(PlaceIn(LOWER_DIGITS, c));
    }
  }

  lemma UpperPlace(c: char)
    ensures PlaceIn(UPPER_DIGITS, c) ==
            if '0' <= c <= '9' then c as int - '0' as int
            else if 'A' <= c <= 'F' then 10 + c as int - 'A' as int
            else 16
  {
    if '0' <= c <= '9' || 'A' <= c <= 'F' {
      var k: nat := if c <= '9' then c as int - '0' as int else 10 + c as int - 'A' as int;
      TablePlaces(k);
      DigitsApart(k, c);
      PlaceIs(UPPER_DIGITS, k, c);
    } else if PlaceIn(UPPER_DIGITS, c) < 16 {
      TablePlaces(PlaceIn(UPPER_DIGITS, c));
    }
  }

  /** The digits of the code are those of the tables. */
  lemma DigitIs(c: char)
    ensures HexValue(c) == Digit16(c)
  {
    LowerPlace(c);
    UpperPlace(c);
    hide PlaceIn;
  }

  lemma Hex4Is(a: char, b: char, c: char, d: char)
    ensures Code16(a, b, c, d) == None || Code16(a, b, c, d) == Some(Hex4(a, b, c, d))
  {
    hide HexValue, Digit16;
    DigitIs(a);
    DigitIs(b);
    DigitIs(c);
    DigitIs(d);
  }

  /** The bytes written for a code point are those of the table. */
  lemma Utf8Is(code: nat)
    requires code < 0x110000
    ensures Utf8(code) == Utf8Of(code)
  {
    hide Utf8Bytes;
    OneByte(code, 0);
    OneByte(code / 0x40, 0xC0);
    OneByte(code / 0x1000, 0xE0);
    OneByte(code / 0x40000, 0xF0);
    MoreBytes(code, 1, 0xC0);
    MoreBytes(code, 2, 0xE0);
    MoreBytes(code / 0x40, 1, 0xE0);
    MoreBytes(code, 3, 0xF0);
    MoreBytes(code / 0x40, 2, 0xF0);
    MoreBytes(code / 0x1000, 1, 0xF0);
    assert code / 0x40 / 0x40 == code / 0x1000 && code / 0x1000 / 0x40 == code / 0x40000;
  }

  lemma OneByte(code: nat, mark: nat)
    ensures code + mark < 0x100 ==> Utf8Bytes(code, 0, mark) == [(code + mark) as char]
  {
  }

  lemma MoreBytes(code: nat, n: nat, mark: nat)
    requires n > 0
    ensures Utf8Bytes(code, n, mark) == Utf8Bytes(code / 0x40, n - 1, mark) + [(0x80 + code % 0x40) as char]
  {
  }

  // ---------------------------------------------------------------- literals

  /** The escapes of two characters. */
  lemma LetterIs(c: char)
    ensures var p := PlaceIn(LETTERS, c);
            if p == 8 then c !in {'"', '\\', '/', 'b', 'f', 'n', 'r', 't'}
            else
              c != 'u' && MEANT[p] == (match c
                                      case 'b' => 8 as char
                                      case 'f' => 12 as char
                                      case 'n' => '\n'
                                      case 'r' => '\r'
                                      case 't' => '\t'
                                      case _ => c)
  {
    var p := PlaceIn(LETTERS, c);
    assert LETTERS[0] == '"' && LETTERS[1] == '\\' && LETTERS[2] == '/' && LETTERS[3] == 'b';
    assert LETTERS[4] == 'f' && LETTERS[5] == 'n' && LETTERS[6] == 'r' && LETTERS[7] == 't';
    if p == 8 {
      assert LETTERS[..8] == LETTERS;
      assert forall k :: 0 <= k < 8 ==> LETTERS[k] in LETTERS;
    } else {
      assert p == 0 || p == 1 || p == 2 || p == 3 || p == 4 || p == 5 || p == 6 || p == 7;
    }
  }

  /** Neither a quote nor the start of an escape. */
  predicate IsPlain(c: char) {
    c != '"' && c != '\\'
  }

  lemma {:induction false} PlainIsSkipped(s: string, i: nat, k: nat)
    requires i <= k <= |s| && forall j :: i <= j < k ==> IsPlain(s[j])
    ensures ClosingQuote(s, i) == ClosingQuote(s, k)
    decreases k - i
  {
    if i < k { PlainIsSkipped(s, i + 1, k); }
  }

  lemma DigitsArePlain(a: char, b: char, c: char, d: char)
    requires Code16(a, b, c, d).Some?
    ensures IsPlain(a) && IsPlain(b) && IsPlain(c) && IsPlain(d)
  {
    hide Digit16;
    DigitIs(a);
    DigitIs(b);
    DigitIs(c);
    DigitIs(d);
  }

  /** One character or escape that the standard allows is read as it says, and the search for the closing
      quote passes over it. */
  ghost predicate ReadAsAllowed(s: string, i: nat, end: nat)
    requires i < end < |s|
  {
    var f := StrictFirst(s[i..end]);
    && f.First? && NextUnit(s, i, end) == Unit(f.text, f.size)
    && ClosingQuote(s, i) == ClosingQuote(s, i + f.size)
  }

  lemma UnitStrict(s: string, i: nat, end: nat)
    requires i < end < |s| && StrictFirst(s[i..end]).First?
    ensures ReadAsAllowed(s, i, end)
  {
    hide ReadAsAllowed;
    EscapeIsWhole(s[i..end]);
    hide StrictFirst;
    if s[i] != '\\' {
      PlainStrict(s, i, end);
    } else if s[i + 1] == 'u' {
      CodeUnitStrict(s, i, end);
    } else {
      LetterStrict(s, i, end);
    }
  }

  lemma EscapeIsWhole(body: string)
    requires body != [] && StrictFirst(body).First?
    ensures body[0] == '\\' ==> |body| >= 2
  {
    hide StrictCode, PlaceIn;
  }

  lemma PlainStrict(s: string, i: nat, end: nat)
    requires i < end < |s| && StrictFirst(s[i..end]).First? && s[i] != '\\'
    ensures ReadAsAllowed(s, i, end)
  {
    hide StrictCode, PlaceIn, Utf16;
  }

  lemma LetterStrict(s: string, i: nat, end: nat)
    requires i + 1 < end < |s| && StrictFirst(s[i..end]).First? && s[i] == '\\' && s[i + 1] != 'u'
    ensures ReadAsAllowed(s, i, end)
  {
    LetterIs(s[i + 1]);
    SkipsTwo(s, i);
    hide StrictCode, Utf16, PlaceIn, ClosingQuote;
  }

  lemma CodeUnitStrict(s: string, i: nat, end: nat)
    requires i + 1 < end < |s| && StrictFirst(s[i..end]).First? && s[i] == '\\' && s[i + 1] == 'u'
    ensures ReadAsAllowed(s, i, end)
  {
    hide StrictCode, Utf16, PlaceIn, ClosingQuote;
    assert StrictFirst(s[i..end]) == StrictCode(s[i..end]);
    CodeStrict(s, i, end);
    SkipsTwo(s, i);
  }

  lemma SkipsTwo(s: string, i: nat)
    requires i + 1 < |s| && s[i] == '\\'
    ensures ClosingQuote(s, i) == ClosingQuote(s, i + 2)
  {
  }

  lemma CodeStrict(s: string, i: nat, end: nat)
    requires i < end < |s| && StrictCode(s[i..end]).First? && s[i] == '\\' && s[i + 1] == 'u'
    ensures var f := StrictCode(s[i..end]);
            Utf16(s, i, end) == Unit(f.text, f.size) && ClosingQuote(s, i + 2) == ClosingQuote(s, i + f.size)
  {
    hide Code16, Hex4, Utf8, Utf8Of;
    var body := s[i..end];
    var first := Code16(body[2], body[3], body[4], body[5]);
    Hex4Is(body[2], body[3], body[4], body[5]);
    DigitsArePlain(body[2], body[3], body[4], body[5]);
    PlainIsSkipped(s, i + 2, i + 6);
    if IsHigh(first.value) {
      Hex4Is(body[8], body[9], body[10], body[11]);
      DigitsArePlain(body[8], body[9], body[10], body[11]);
      PlainIsSkipped(s, i + 8, i + 12);
      var second := Code16(body[8], body[9], body[10], body[11]);
      Utf8Is(0x10000 + 0x400 * (first.value - 0xD800) + (second.value - 0xDC00));
    } else {
      Utf8Is(first.value);
    }
  }

  /** Behind the first character or escape. */
  lemma StrictStep(s: string, i: nat, end: nat)
    requires i < end <= |s| && StrictRead(s[i..end]).Some?
    ensures var f := StrictFirst(s[i..end]);
            && f.First? && i + f.size <= end && StrictRead(s[i + f.size..end]).Some?
            && StrictRead(s[i..end]).value == f.text + StrictRead(s[i + f.size..end]).value
  {
    hide StrictFirst;
    var f := StrictFirst(s[i..end]);
    assert s[i..end][f.size..] == s[i + f.size..end];
  }

  /** What the standard allows between quotes, the parser unescapes as it says. */
  lemma {:induction false} UnescapeStrict(s: string, i: nat, end: nat)
    requires i <= end < |s| && StrictRead(s[i..end]).Some?
    ensures Unescape(s, i, end) == StrictRead(s[i..end])
    decreases end - i
  {
    hide NextUnit, StrictRead, StrictFirst, ClosingQuote;
    if i < end {
      StrictStep(s, i, end);
      UnitStrict(s, i, end);
      UnescapeStrict(s, i + StrictFirst(s[i..end]).size, end);
    } else {
      assert s[i..end] == [];
      NothingStrict();
    }
  }

  lemma {:induction false} CloseStrict(s: string, i: nat, end: nat)
    requires i <= end < |s| && StrictRead(s[i..end]).Some? && s[end] == '"'
    ensures ClosingQuote(s, i) == Some(end)
    decreases end - i
  {
    if i < end {
      hide NextUnit, StrictRead, StrictFirst, ClosingQuote;
      StrictStep(s, i, end);
      UnitStrict(s, i, end);
      CloseStrict(s, i + StrictFirst(s[i..end]).size, end);
    }
  }

  /** Whatever literal the standard allows, the parser reads it, and as the standard says; as a C string it
      ends at its first NUL. */
  lemma ParsesStrictly(s: string, off: nat, end: nat)
    requires Terminated(s) && off < end < |s| && s[off] == '"' && s[end] == '"'
    requires StrictRead(s[off + 1..end]).Some?
    ensures ParseString(s, off) == Ok(CString(StrictRead(s[off + 1..end]).value), end + 1)
  {
    hide StrictRead;
    CloseStrict(s, off + 1, end);
    UnescapeStrict(s, off + 1, end);
  }

  /** A literal of one escape. */
  lemma OneUnit(body: string, code: nat)
    requires body != [] && code < 0x110000 && StrictFirst(body) == First(Utf8Of(code), |body|)
    ensures StrictRead(body) == Some(Utf8Of(code))
    ensures FromUtf8(Utf8Of(code), FirstByteMark(|Utf8Of(code)|)) == code
  {
    hide StrictFirst, FromUtf8, Utf8Of;
    assert body[|body|..] == [] && Utf8Of(code) + [] == Utf8Of(code);
    NothingStrict();
    Utf8Is(code);
    Utf8RoundTrip(code);
  }

  /** Every code point below 0x10000 outside the surrogates, by its four digits, whatever their case: the
      literal is read as the UTF-8 bytes of that code point. */
  lemma CodeIsRead(a: char, b: char, c: char, d: char)
    requires Code16(a, b, c, d).Some?
    requires !IsHigh(Code16(a, b, c, d).value) && !IsLow(Code16(a, b, c, d).value)
    ensures var code := Code16(a, b, c, d).value;
            var bytes := Utf8Of(code);
            && StrictRead(['\\', 'u', a, b, c, d]) == Some(bytes)
            && FromUtf8(bytes, FirstByteMark(|bytes|)) == code
  {
    hide Code16, Utf8Of, PlaceIn, StrictRead, FromUtf8;
    var body := ['\\', 'u', a, b, c, d];
    assert StrictFirst(body) == StrictCode(body);
    OneUnit(body, Code16(a, b, c, d).value);
  }

  /** Every code point from 0x10000 on, by its two surrogates. */
  lemma PairIsRead(a: char, b: char, c: char, d: char, e: char, f: char, g: char, h: char)
    requires Code16(a, b, c, d).Some? && IsHigh(Code16(a, b, c, d).value)
    requires Code16(e, f, g, h).Some? && IsLow(Code16(e, f, g, h).value)
    ensures var code := 0x10000 + 0x400 * (Code16(a, b, c, d).value - 0xD800) + (Code16(e, f, g, h).value - 0xDC00);
            && 0x10000 <= code < 0x110000
            && var bytes := Utf8Of(code);
               && StrictRead(['\\', 'u', a, b, c, d, '\\', 'u', e, f, g, h]) == Some(bytes)
               && FromUtf8(bytes, FirstByteMark(|bytes|)) == code
  {
    hide Code16, Utf8Of, PlaceIn, StrictRead, FromUtf8;
    var body := ['\\', 'u', a, b, c, d, '\\', 'u', e, f, g, h];
    assert StrictFirst(body) == StrictCode(body);
    OneUnit(body, 0x10000 + 0x400 * (Code16(a, b, c, d).value - 0xD800) + (Code16(e, f, g, h).value - 0xDC00));
  }

  /** Every number of sixteen bits has its four digits, in both cases. */
  lemma DigitsOfCode(code: nat)
    requires code < 0x10000
    ensures var w, x, y, z := code / 0x1000, code / 0x100 % 0x10, code / 0x10 % 0x10, code % 0x10;
            && Code16(LOWER_DIGITS[w], LOWER_DIGITS[x], LOWER_DIGITS[y], LOWER_DIGITS[z]) == Some(code)
            && Code16(UPPER_DIGITS[w], UPPER_DIGITS[x], UPPER_DIGITS[y], UPPER_DIGITS[z]) == Some(code)
  {
    hide Digit16, Code16;
    var w, x, y, z := code / 0x1000, code / 0x100 % 0x10, code / 0x10 % 0x10, code % 0x10;
    TableDigit(w);
    TableDigit(x);
    TableDigit(y);
    TableDigit(z);
    FourPlaces(code);
    CodeOfDigits(LOWER_DIGITS[w], LOWER_DIGITS[x], LOWER_DIGITS[y], LOWER_DIGITS[z], w, x, y, z);
    CodeOfDigits(UPPER_DIGITS[w], UPPER_DIGITS[x], UPPER_DIGITS[y], UPPER_DIGITS[z], w, x, y, z);
  }

  lemma CodeOfDigits(a: char, b: char, c: char, d: char, w: nat, x: nat, y: nat, z: nat)
    requires Digit16(a) == Some(w) && Digit16(b) == Some(x) && Digit16(c) == Some(y) && Digit16(d) == Some(z)
    ensures Code16(a, b, c, d) == Some(0x1000 * w + 0x100 * x + 0x10 * y + z)
  {
    hide Digit16;
  }

  lemma FourPlaces(code: nat)
    requires code < 0x10000
    ensures code == 0x1000 * (code / 0x1000) + 0x100 * (code / 0x100 % 0x10) + 0x10 * (code / 0x10 % 0x10) + code % 0x10
  {
    assert code / 0x10 / 0x10 == code / 0x100 && code / 0x100 / 0x10 == code / 0x1000;
  }

  lemma TableDigit(k: nat)
    requires k < 16
    ensures Digit16(LOWER_DIGITS[k]) == Some(k) && Digit16(UPPER_DIGITS[k]) == Some(k)
  {
    TablePlaces(k);
    LowerPlace(LOWER_DIGITS[k]);
    LowerPlace(UPPER_DIGITS[k]);
    UpperPlace(UPPER_DIGITS[k]);
    hide PlaceIn;
  }

  // ---------------------------------------------------------------- the printer writes what the standard allows

  /** Nothing below the space is ever printed. */
  lemma {:induction false} EscapeIsClean(s: string)
    ensures forall k :: 0 <= k < |Escape(s)| ==> Escape(s)[k] >= ' '
  {
    if s != [] {
      CharIsClean(s[0]);
      EscapeIsClean(s[1..]);
    }
  }

  lemma CharIsClean(c: char)
    ensures forall k :: 0 <= k < |EscapeChar(c)| ==> EscapeChar(c)[k] >= ' '
  {
  }

  /** One printed character is read back by the standard. */
  lemma CharStrict(c: char, rest: string)
    ensures StrictFirst(EscapeChar(c) + rest) == First([c], |EscapeChar(c)|)
    ensures (EscapeChar(c) + rest)[|EscapeChar(c)|..] == rest
  {
    EscapeShape(c);
    hide EscapeChar, StrictFirst;
    var e := EscapeChar(c);
    if |e| == 2 {
      LetterChar(c, rest);
    } else if |e| == 6 {
      ControlChar(c, rest);
    } else {
      PlainChar(c, rest);
    }
  }

  lemma PlainChar(c: char, rest: string)
    requires |EscapeChar(c)| == 1
    ensures StrictFirst(EscapeChar(c) + rest) == First([c], 1)
  {
    hide StrictCode, PlaceIn;
    assert (EscapeChar(c) + rest)[0] == c;
  }

  lemma LetterChar(c: char, rest: string)
    requires |EscapeChar(c)| == 2
    ensures StrictFirst(EscapeChar(c) + rest) == First([c], 2)
  {
    var e := EscapeChar(c);
    LetterIs(e[1]);
    hide PlaceIn, StrictCode;
    assert (e + rest)[0] == e[0] && (e + rest)[1] == e[1];
  }

  lemma ControlChar(c: char, rest: string)
    requires |EscapeChar(c)| == 6
    ensures StrictFirst(EscapeChar(c) + rest) == First([c], 6)
  {
    var e := EscapeChar(c);
    var body := e + rest;
    assert e == ['\\', 'u', '0', '0', HexDigit(c as int / 16), HexDigit(c as int % 16)] && c < ' ';
    hide EscapeChar, Code16, Utf8Of, HexDigit, PlaceIn;
    ControlCode(c);
    assert body[0] == e[0] && body[1] == e[1] && body[2] == e[2] && body[3] == e[3] && body[4] == e[4]
        && body[5] == e[5];
  }

  lemma ControlCode(c: char)
    requires c < ' '
    ensures Code16('0', '0', HexDigit(c as int / 16), HexDigit(c as int % 16)) == Some(c as nat)
    ensures Utf8Of(c as nat) == [c]
  {
    hide Digit16, HexDigit;
    PrintedDigit(0);
    PrintedDigit(c as int / 16);
    PrintedDigit(c as int % 16);
    assert HexDigit(0) == '0' by { ZeroDigit(); }
  }

  lemma ZeroDigit()
    ensures HexDigit(0) == '0'
  {
  }

  lemma PrintedDigit(d: nat)
    requires d < 16
    ensures Digit16(HexDigit(d)) == Some(d)
  {
    hide PlaceIn;
    LowerPlace(HexDigit(d));
  }

  /** The main theorem on printing: a printed literal is one that section 7 of RFC 8259 allows, and reads as
      the string it was printed for. */
  lemma {:induction false} PrintsStrictly(s: string)
    ensures StrictRead(Escape(s)) == Some(s)
  {
    if s != [] {
      hide EscapeChar, StrictFirst;
      CharStrict(s[0], Escape(s[1..]));
      PrintsStrictly(s[1..]);
      assert [s[0]] + s[1..] == s;
    }
  }

  lemma NothingStrict()
    ensures StrictRead([]) == Some([])
  {
  }
}
