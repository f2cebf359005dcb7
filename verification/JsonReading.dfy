/** Reading JSON text: which trees can be printed, texts at their place in a buffer, numbers and UTF-8. */
module JsonReading {
  import opened Basics
  import opened Decimal
  import opened Json
  import opened JsonText

  // ---------------------------------------------------------------- which trees

  predicate NulFree(s: string) {
    '\0' !in s
  }

  /** C strings, and integers that a double and "%1.15g" carry exactly. */
  predicate Printable(j: Json) {
    match j
    case Num(n) => -EXACT_LIMIT < n < EXACT_LIMIT
    case Str(s) => NulFree(s)
    case Arr(items) => forall i :: 0 <= i < |items| ==> Printable(items[i])
    case Obj(members) =>
      forall i :: 0 <= i < |members| ==> NulFree(members[i].key) && Printable(members[i].val)
    case _ => true
  }

  lemma FirstMemberPrintable(members: seq<Member>)
    requires Printable(Obj(members)) && members != []
    ensures NulFree(members[0].key) && Printable(members[0].val) && Printable(Obj(members[1..]))
  {
  }

  /** How many arrays and objects enclose the innermost one, itself included. */
  function Nesting(j: Json): nat {
    match j
    case Arr(items) => 1 + NestingOfItems(items)
    case Obj(members) => 1 + NestingOfMembers(members)
    case _ => 0
  }

  function Max(a: nat, b: nat): nat {
    if a < b then b else a
  }

  function NestingOfItems(items: seq<Json>): nat {
    if items == [] then 0 else Max(Nesting(items[0]), NestingOfItems(items[1..]))
  }

  function NestingOfMembers(members: seq<Member>): nat {
    if members == [] then 0 else Max(Nesting(members[0].val), NestingOfMembers(members[1..]))
  }

  // ---------------------------------------------------------------- texts in a buffer

  lemma TextSplit(s: string, off: nat, a: string, b: string)
    requires StartsWith(s, off, a + b)
    ensures StartsWith(s, off, a) && StartsWith(s, off + |a|, b)
  {
    assert s[off..off + |a|] == s[off..off + |a + b|][..|a|] == a;
    assert s[off + |a|..off + |a| + |b|] == s[off..off + |a + b|][|a|..] == b;
  }

  lemma TextChar(s: string, off: nat, a: string, k: nat)
    requires StartsWith(s, off, a) && k < |a|
    ensures off + k < |s| && s[off + k] == a[k]
  {
    assert s[off..off + |a|][k] == a[k];
  }

  predicate AllWhite(w: string) {
    forall i :: 0 <= i < |w| ==> w[i] <= ' '
  }

  lemma {:induction false} SkipsWhite(s: string, off: nat, w: string)
    requires Terminated(s) && StartsWith(s, off, w) && AllWhite(w) && off + |w| < |s|
    ensures Skip(s, off) == Skip(s, off + |w|)
    decreases w
  {
    if w != [] {
      TextChar(s, off, w, 0);
      assert w == w[..1] + w[1..];
      TextSplit(s, off, w[..1], w[1..]);
      SkipsWhite(s, off + 1, w[1..]);
    }
  }

  lemma SkipStays(s: string, off: nat)
    requires Terminated(s) && off < |s| && s[off] > ' '
    ensures Skip(s, off) == off
  {
  }

  lemma {:induction false} SkipTwice(s: string, off: nat)
    requires Terminated(s) && off < |s|
    ensures Skip(s, Skip(s, off)) == Skip(s, off)
    decreases |s| - off
  {
    if s[off] <= ' ' && off + 1 < |s| {
      SkipTwice(s, off + 1);
    }
  }

  lemma {:induction false} TabsAreWhite(n: nat)
    ensures AllWhite(Tabs(n)) && |Tabs(n)| == n
  {
    if n > 0 {
      TabsAreWhite(n - 1);
    }
  }

  lemma {:induction false} WholeString(t: string)
    requires NulFree(t)
    ensures CString(t) == t
  {
    if t != [] {
      assert t[0] in t;
      WholeString(t[1..]);
    }
  }

  // ---------------------------------------------------------------- numbers

  /** What follows a printed value is never part of a number. */
  predicate Ends(c: char) {
    c == ',' || c == ']' || c == '}' || c <= ' '
  }

  /** Followed by something that ends a value, a text of number characters is copied whole. */
  lemma {:induction false} NumberTextIs(s: string, off: nat, w: string, limit: nat)
    requires Terminated(s) && StartsWith(s, off, w) && |w| <= limit
    requires forall i :: 0 <= i < |w| ==> IsNumberChar(w[i])
    requires off + |w| < |s| && Ends(s[off + |w|])
    ensures NumberText(s, off, limit) == w
    decreases w
  {
    if w != [] {
      TextChar(s, off, w, 0);
      assert w == w[..1] + w[1..];
      TextSplit(s, off, w[..1], w[1..]);
      NumberTextIs(s, off + 1, w[1..], limit - 1);
    }
  }

  lemma {:induction false} RunIsAll(w: string)
    requires AllDigits(w)
    ensures DigitRun(w) == |w|
  {
    if w != [] {
      RunIsAll(w[1..]);
    }
  }

  lemma FifteenDigits(n: nat)
    requires n < EXACT_LIMIT
    ensures |ToDecimal(n)| <= 15
  {
    hide ToDecimal;
    WidthOfSmall(n);
    WidthOfSmall(n / 10000);
    WidthOfSmall(n / 10000 / 10000);
    WidthOfSmall(n / 10000 / 10000 / 10000);
  }

  lemma DigitsRoundTrip(n: nat)
    requires n < EXACT_LIMIT
    ensures Digits(ToDecimal(n)) == Ok(n, |ToDecimal(n)|)
  {
    hide ToDecimal, FromDecimal;
    var w := ToDecimal(n);
    RunIsAll(w);
    assert w[..|w|] == w;
    DecimalRoundTrip(n);
  }

  lemma StrtodRoundTrip(n: int)
    requires -EXACT_LIMIT < n < EXACT_LIMIT
    ensures Strtod(PrintNumber(n)) == Ok(n, |PrintNumber(n)|)
  {
    hide ToDecimal, Digits;
    if n < 0 {
      DigitsRoundTrip(-n);
      assert PrintNumber(n)[1..] == ToDecimal(-n);
    } else {
      DigitsRoundTrip(n);
      assert IsDigit(ToDecimal(n)[0]);
    }
  }

  lemma ReadNumber(s: string, off: nat, n: int)
    requires Terminated(s) && StartsWith(s, off, PrintNumber(n)) && -EXACT_LIMIT < n < EXACT_LIMIT
    requires off + |PrintNumber(n)| < |s| && Ends(s[off + |PrintNumber(n)|])
    ensures ParseNumber(s, off) == Ok(Num(n), off + |PrintNumber(n)|)
  {
    hide ToDecimal, Strtod;
    FifteenDigits(if n < 0 then -n else n);
    NumberTextIs(s, off, PrintNumber(n), 63);
    StrtodRoundTrip(n);
  }

  lemma NumberStart(n: int)
    ensures PrintNumber(n)[0] == '-' || IsDigit(PrintNumber(n)[0])
  {
  }

  lemma NumberIsNulFree(n: int)
    ensures NulFree(PrintNumber(n))
  {
    hide ToDecimal;
  }

  // ---------------------------------------------------------------- characters

  /** The three shapes of an escaped character. */
  lemma EscapeShape(c: char)
    ensures var e := EscapeChar(c);
            || (e == [c] && c != '"' && c != '\\')
            || (|e| == 2 && e[0] == '\\' && ' ' < e[1] != 'u')
            || (c < ' ' && e == ['\\', 'u', '0', '0', HexDigit(c as int / 16), HexDigit(c as int % 16)])
  {
  }

  lemma {:induction false} EscapeIsNulFree(t: string)
    requires NulFree(t)
    ensures NulFree(Escape(t))
  {
    hide EscapeChar;
    if t != [] {
      assert t[0] in t;
      EscapeShape(t[0]);
      EscapeIsNulFree(t[1..]);
    }
  }

  /** The code point that UTF-8 bytes stand for (section 3 of RFC 3629): six bits from every byte
      after the first. */
  function FromUtf8(b: string, mark: nat): int
    requires b != []
  {
    if |b| == 1 then b[0] as int - mark
    else FromUtf8(b[..|b| - 1], mark) * 64 + b[|b| - 1] as int - 0x80
  }

  predicate FirstByteFits(code: nat, n: nat, mark: nat) {
    if n == 0 then code + mark < 0x100 else FirstByteFits(code / 64, n - 1, mark)
  }

  lemma {:induction false} BytesDecode(code: nat, n: nat, mark: nat)
    requires FirstByteFits(code, n, mark)
    ensures FromUtf8(Utf8Bytes(code, n, mark), mark) == code
    ensures mark <= Utf8Bytes(code, n, mark)[0] as int
  {
    if n > 0 {
      BytesDecode(code / 64, n - 1, mark);
      var bytes := Utf8Bytes(code, n, mark);
      assert bytes[..|bytes| - 1] == Utf8Bytes(code / 64, n - 1, mark);
    }
  }

  lemma {:induction false} Utf8Continues(code: nat, n: nat, mark: nat, k: nat)
    requires 1 <= k <= n
    ensures 0x80 <= Utf8Bytes(code, n, mark)[k] as int < 0xC0
  {
    if k < n {
      Utf8Continues(code / 64, n - 1, mark, k);
    }
  }

  lemma FirstByte(code: nat)
    requires code < 0x110000
    ensures FirstByteFits(code, Utf8Size(code) - 1, FirstByteMark(Utf8Size(code)))
  {
    var n, mark := Utf8Size(code), FirstByteMark(Utf8Size(code));
    var a, b, c := code / 64, code / 64 / 64, code / 64 / 64 / 64;
    if n == 3 {
      assert FirstByteFits(a, 1, mark);
    } else if n == 4 {
      assert c < 8;
      assert FirstByteFits(c, 0, mark);
      assert FirstByteFits(b, 1, mark);
    }
  }

  /** The bytes written for a code point are its UTF-8 form, in the shortest length. */
  lemma Utf8RoundTrip(code: nat)
    requires code < 0x110000
    ensures FromUtf8(Utf8(code), FirstByteMark(|Utf8(code)|)) == code
    ensures forall k :: 1 <= k < |Utf8(code)| ==> 0x80 <= Utf8(code)[k] as int < 0xC0
  {
    hide FromUtf8;
    var n := Utf8Size(code);
    FirstByte(code);
    BytesDecode(code, n - 1, FirstByteMark(n));
    forall k | 1 <= k < n ensures 0x80 <= Utf8(code)[k] as int < 0xC0 {
      Utf8Continues(code, n - 1, FirstByteMark(n), k);
    }
  }

  // ---------------------------------------------------------------- values

  lemma ArrayText(items: seq<Json>, format: bool, d: nat)
    ensures Print(Arr(items), format, d) == "[" + PrintItems(items, format, d + 1) + "]"
  {
  }

  lemma EmptyItems(format: bool, d: nat)
    ensures PrintItems([], format, d) == [] && NestingOfItems([]) == 0
  {
  }

  lemma EmptyMembers(format: bool, d: nat)
    ensures PrintMembers([], format, d) == [] && NestingOfMembers([]) == 0
  {
  }

  lemma NotAWord(s: string, off: nat)
    requires off < |s|
    ensures StartsWith(s, off, "null") ==> s[off] == 'n'
    ensures StartsWith(s, off, "false") ==> s[off] == 'f'
    ensures StartsWith(s, off, "true") ==> s[off] == 't'
  {
    if StartsWith(s, off, "null") { TextChar(s, off, "null", 0); }
    if StartsWith(s, off, "false") { TextChar(s, off, "false", 0); }
    if StartsWith(s, off, "true") { TextChar(s, off, "true", 0); }
  }

  function Expected<T>(fits: bool, value: T, next: nat): Parsed<T> {
    if fits then Ok(value, next) else Bad
  }

  lemma Dispatch(s: string, off: nat, depth: nat)
    requires Terminated(s) && off < |s|
    ensures s[off] == '[' ==> ParseValue(s, off, depth) == ParseArray(s, off, depth)
    ensures s[off] == '{' ==> ParseValue(s, off, depth) == ParseObject(s, off, depth)
  {
    hide ParseArray, ParseObject, StartsWith;
    if s[off] == '[' || s[off] == '{' {
      NotAWord(s, off);
    }
  }
}
