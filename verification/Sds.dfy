/** Quoting of byte strings, and splitting a line into arguments. Bytes are modelled as characters. */
module Sds {
  import opened Basics

  // ---------------------------------------------------------------- quoting

  function HexChar(d: nat): char
    requires d < 16
  {
    if d < 10 then ('0' as int + d) as char else ('a' as int + d - 10) as char
  }

  /** isprint in the C locale. */
  predicate IsPrint(c: char) {
    ' ' <= c <= '~'
  }

  predicate IsByte(c: char) {
    c as int < 256
  }

  ghost predicate AllBytes(s: string) {
    forall i :: 0 <= i < |s| ==> IsByte(s[i])
  }

  /** What sdscatrepr writes for one byte. */
  function Quote(c: char): string
    requires IsByte(c)
  {
    if c == '\\' || c == '"' then ['\\', c]
    else if c == '\n' then "\\n"
    else if c == '\r' then "\\r"
    else if c == '\t' then "\\t"
    else if c == 7 as char then "\\a"
    else if c == 8 as char then "\\b"
    else if IsPrint(c) then [c]
    else ['\\', 'x', HexChar(c as int / 16), HexChar(c as int % 16)]
  }

  const DIGITS: string := "0123456789abcdef"

  /** Which bytes are written how. */
  lemma QuoteIs(c: char)
    requires IsByte(c)
    ensures ' ' <= c <= '~' && c != '"' && c != '\\' ==> Quote(c) == [c]
    ensures Quote('"') == "\\\"" && Quote('\\') == "\\\\"
    ensures Quote('\n') == "\\n" && Quote('\r') == "\\r" && Quote('\t') == "\\t"
    ensures Quote(7 as char) == "\\a" && Quote(8 as char) == "\\b"
    ensures (c < ' ' || c > '~') && c !in "\n\r\t" && c != 7 as char && c != 8 as char ==>
              Quote(c) == "\\x" + [DIGITS[c as int / 16], DIGITS[c as int % 16]]
  {
  }

  function QuoteAll(s: string): string
    requires AllBytes(s)
  {
    if s == [] then [] else Quote(s[0]) + QuoteAll(s[1..])
  }

  function Repr(s: string): string
    requires AllBytes(s)
  {
    "\"" + QuoteAll(s) + "\""
  }

  // ---------------------------------------------------------------- splitting

  /** The byte at p; past the end there is the terminating NUL. */
  function At(s: string, p: nat): char {
    if p < |s| then s[p] else '\0'
  }

  predicate IsSpace(c: char) {
    c == ' ' || ('\t' <= c <= '\r')
  }

  predicate IsHex(c: char) {
    '0' <= c <= '9' || 'a' <= c <= 'f' || 'A' <= c <= 'F'
  }

  function HexDigitToInt(c: char): (d: nat)
    ensures d < 16
  {
    if '0' <= c <= '9' then c as int - '0' as int
    else if 'a' <= c <= 'f' then c as int - 'a' as int + 10
    else if 'A' <= c <= 'F' then c as int - 'A' as int + 10
    else 0
  }

  /** The byte that a backslash and a letter stand for. */
  function Letter(c: char): char {
    if c == 'n' then '\n'
    else if c == 'r' then '\r'
    else if c == 't' then '\t'
    else if c == 'b' then 8 as char
    else if c == 'a' then 7 as char
    else c
  }

  datatype Mode = Bare | Quoted | Single

  /** One turn of the inner loop of sdssplitargs. */
  datatype Turn = More(added: string, next: nat, mode: Mode) | Done(next: nat) | Failed

  /** A closing quote is followed by a space or by nothing at all. */
  function Close(s: string, p: nat): Turn {
    if At(s, p + 1) != '\0' && !IsSpace(At(s, p + 1)) then Failed else Done(p + 1)
  }

  function Advance(s: string, p: nat, mode: Mode): (t: Turn)
    ensures t.More? ==> p < t.next <= |s|
    ensures t.Done? ==> p <= t.next && (p < |s| ==> t.next <= |s|)
    ensures t.Done? && t.next == p ==> At(s, p) == '\0' && mode.Bare?
  {
    var c := At(s, p);
    match mode
    case Quoted =>
      if c == '\\' && At(s, p + 1) == 'x' && IsHex(At(s, p + 2)) && IsHex(At(s, p + 3)) then
        More([(HexDigitToInt(At(s, p + 2)) * 16 + HexDigitToInt(At(s, p + 3))) as char], p + 4, Quoted)
      else if c == '\\' && At(s, p + 1) != '\0' then More([Letter(At(s, p + 1))], p + 2, Quoted)
      else if c == '"' then Close(s, p)
      else if c == '\0' then Failed
      else More([c], p + 1, Quoted)
    case Single =>
      if c == '\\' && At(s, p + 1) == '\'' then More(['\''], p + 2, Single)
      else if c == '\'' then Close(s, p)
      else if c == '\0' then Failed
      else More([c], p + 1, Single)
    case Bare =>
      if c == ' ' || c == '\n' || c == '\r' || c == '\t' then Done(p + 1)
      else if c == '\0' then Done(p)
      else if c == '"' then More([], p + 1, Quoted)
      else if c == '\'' then More([], p + 1, Single)
      else More([c], p + 1, Bare)
  }

  datatype Token = Token(text: string, next: nat) | NoToken

  function ReadToken(s: string, p: nat, mode: Mode): (t: Token)
    requires p <= |s|
    ensures t.Token? ==> p <= t.next && (t.next == p ==> At(s, p) == '\0')
    ensures t.Token? ==> t.next <= |s|
    decreases |s| - p
  {
    match Advance(s, p, mode)
    case Failed => NoToken
    case Done(next) => Token([], if next <= |s| then next else |s|)
    case More(added, next, m) =>
      var rest := ReadToken(s, next, m);
      if rest.NoToken? then NoToken else Token(added + rest.text, rest.next)
  }

  function SkipSpaces(s: string, p: nat): (q: nat)
    requires p <= |s|
    ensures p <= q <= |s| && !IsSpace(At(s, q))
    decreases |s| - p
  {
    if IsSpace(At(s, p)) then SkipSpaces(s, p + 1) else p
  }

  function Split(s: string, p: nat): Option<seq<string>>
    requires p <= |s|
    decreases |s| - p
  {
    var q := SkipSpaces(s, p);
    if At(s, q) == '\0' then Some([])
    else
      match ReadToken(s, q, Bare)
      case NoToken => None
      case Token(text, next) =>
        var rest := Split(s, next);
        if rest.None? then None else Some([text] + rest.value)
  }

  // ---------------------------------------------------------------- the round trip

  /** The text w stands at position p. */
  predicate Stands(s: string, p: nat, w: string) {
    p + |w| <= |s| && s[p..p + |w|] == w
  }

  lemma StandsAt(s: string, p: nat, w: string, k: nat)
    requires Stands(s, p, w) && k < |w|
    ensures At(s, p + k) == w[k]
  {
    assert s[p..p + |w|][k] == w[k];
  }

  lemma StandsSplit(s: string, p: nat, a: string, b: string)
    requires Stands(s, p, a + b)
    ensures Stands(s, p, a) && Stands(s, p + |a|, b)
  {
    assert s[p..p + |a|] == s[p..p + |a + b|][..|a|] == a;
    assert s[p + |a|..p + |a| + |b|] == s[p..p + |a + b|][|a|..] == b;
  }

  lemma HexRoundTrip(d: nat)
    requires d < 16
    ensures IsHex(HexChar(d)) && HexDigitToInt(HexChar(d)) == d
  {
  }

  /** Inside quotes, one quoted byte is read back. */
  lemma QuoteReads(s: string, p: nat, c: char)
    requires IsByte(c) && Stands(s, p, Quote(c))
    ensures Advance(s, p, Quoted) == More([c], p + |Quote(c)|, Quoted)
  {
    hide Stands;
    var w := Quote(c);
    StandsAt(s, p, w, 0);
    if |w| == 4 {
      StandsAt(s, p, w, 1);
      StandsAt(s, p, w, 2);
      StandsAt(s, p, w, 3);
      HexRoundTrip(c as int / 16);
      HexRoundTrip(c as int % 16);
    } else if |w| == 2 {
      StandsAt(s, p, w, 1);
    }
  }

  lemma {:induction false} QuotedReads(s: string, p: nat, a: string)
    requires AllBytes(a) && Stands(s, p, QuoteAll(a)) && Stands(s, p + |QuoteAll(a)|, "\"")
    requires var end := p + |QuoteAll(a)| + 1; At(s, end) == '\0' || IsSpace(At(s, end))
    ensures ReadToken(s, p, Quoted) == Token(a, p + |QuoteAll(a)| + 1)
    decreases a
  {
    hide Stands, Quote;
    if a == [] {
      StandsAt(s, p, "\"", 0);
      Within(s, p, "\"");
    } else {
      StandsSplit(s, p, Quote(a[0]), QuoteAll(a[1..]));
      QuoteReads(s, p, a[0]);
      QuotedReads(s, p + |Quote(a[0])|, a[1..]);
      assert [a[0]] + a[1..] == a;
    }
  }

  lemma Within(s: string, p: nat, w: string)
    requires Stands(s, p, w)
    ensures p + |w| <= |s|
  {
  }

  lemma ReprReads(s: string, p: nat, a: string)
    requires AllBytes(a) && Stands(s, p, Repr(a))
    requires At(s, p + |Repr(a)|) == '\0' || IsSpace(At(s, p + |Repr(a)|))
    ensures p + |Repr(a)| <= |s| && At(s, p) == '"' && ReadToken(s, p, Bare) == Token(a, p + |Repr(a)|)
  {
    hide Stands, QuoteAll;
    Within(s, p, Repr(a));
    StandsSplit(s, p, "\"" + QuoteAll(a), "\"");
    StandsSplit(s, p, "\"", QuoteAll(a));
    StandsAt(s, p, "\"", 0);
    QuotedReads(s, p + 1, a);
  }

  ghost predicate AllArguments(args: seq<string>) {
    forall i :: 0 <= i < |args| ==> AllBytes(args[i])
  }

  /** The quoted forms of the arguments, separated by single spaces. */
  function Line(args: seq<string>): string
    requires AllArguments(args)
  {
    if args == [] then []
    else if |args| == 1 then Repr(args[0])
    else Repr(args[0]) + " " + Line(args[1..])
  }

  lemma {:induction false} LineSplits(s: string, p: nat, args: seq<string>)
    requires AllArguments(args) && Stands(s, p, Line(args)) && p + |Line(args)| == |s|
    ensures Split(s, p) == Some(args)
    decreases args
  {
    hide Stands, Repr, Split, ReadToken;
    if args == [] {
      AtTheEnd(s);
    } else if |args| == 1 {
      ReprReads(s, p, args[0]);
      SplitStep(s, p, args[0], |s|);
      AtTheEnd(s);
      assert args == [args[0]] + [];
    } else {
      var end := p + |Repr(args[0])|;
      StandsSplit(s, p, Repr(args[0]) + " ", Line(args[1..]));
      StandsSplit(s, p, Repr(args[0]), " ");
      StandsAt(s, end, " ", 0);
      Within(s, end, " ");
      ReprReads(s, p, args[0]);
      SplitStep(s, p, args[0], end);
      LineSplits(s, end + 1, args[1..]);
      SpaceFirst(s, end);
      assert [args[0]] + args[1..] == args;
    }
  }

  lemma SplitStep(s: string, p: nat, text: string, next: nat)
    requires p <= |s| && !IsSpace(At(s, p)) && At(s, p) != '\0' && next <= |s|
    requires ReadToken(s, p, Bare) == Token(text, next)
    ensures Split(s, p) == var rest := Split(s, next); if rest.None? then None else Some([text] + rest.value)
  {
    hide ReadToken;
  }

  lemma AtTheEnd(s: string)
    ensures Split(s, |s|) == Some([])
  {
  }

  lemma SpaceFirst(s: string, p: nat)
    requires p < |s| && IsSpace(s[p])
    ensures Split(s, p) == Split(s, p + 1)
  {
  }

  /** The main theorem: splitting gives back every list of byte strings that was quoted and joined,
      whatever bytes they hold. */
  lemma QuotingRoundTrip(args: seq<string>)
    requires AllArguments(args)
    ensures Split(Line(args), 0) == Some(args)
  {
    hide Split, Line;
    var s := Line(args);
    assert s[0..|s|] == s;
    LineSplits(s, 0, args);
  }

  // ---------------------------------------------------------------- other ways to write an argument

  lemma HexTable(d: nat)
    requires d < 16
    ensures IsHex(DIGITS[d]) && HexDigitToInt(DIGITS[d]) == d
    ensures IsHex("0123456789ABCDEF"[d]) && HexDigitToInt("0123456789ABCDEF"[d]) == d
  {
  }

  /** Inside quotes, an escape with two hexadecimal digits of either case is the byte of that number. */
  lemma HexEscapeReads(s: string, p: nat, h: char, l: char, high: nat, low: nat)
    requires high < 16 && (h == DIGITS[high] || h == "0123456789ABCDEF"[high])
    requires low < 16 && (l == DIGITS[low] || l == "0123456789ABCDEF"[low])
    requires Stands(s, p, ['\\', 'x', h, l])
    ensures Advance(s, p, Quoted) == More([(16 * high + low) as char], p + 4, Quoted)
  {
    hide Stands, IsHex, HexDigitToInt;
    HexTable(high);
    HexTable(low);
    TwoDigits(s, p, h, l);
  }

  lemma TwoDigits(s: string, p: nat, h: char, l: char)
    requires Stands(s, p, ['\\', 'x', h, l])
    ensures p + 4 <= |s| && At(s, p) == '\\' && At(s, p + 1) == 'x' && At(s, p + 2) == h && At(s, p + 3) == l
  {
    var w := ['\\', 'x', h, l];
    Within(s, p, w);
    StandsAt(s, p, w, 0);
    StandsAt(s, p, w, 1);
    StandsAt(s, p, w, 2);
    StandsAt(s, p, w, 3);
  }

  lemma HexExactly(c: char)
    ensures IsHex(c) <==> c in DIGITS || c in "0123456789ABCDEF"
  {
    if '0' <= c <= '9' {
      assert DIGITS[c as int - '0' as int] == c;
    } else if 'a' <= c <= 'f' {
      assert DIGITS[c as int - 'a' as int + 10] == c;
    } else if 'A' <= c <= 'F' {
      assert "0123456789ABCDEF"[c as int - 'A' as int + 10] == c;
    }
  }

  /** Inside quotes, any other character behind a backslash is a control character or itself; so is an x that is
      not followed by two hexadecimal digits. */
  lemma OtherEscapeReads(s: string, p: nat)
    requires At(s, p) == '\\' && At(s, p + 1) != '\0'
    requires At(s, p + 1) == 'x' ==>
               !((At(s, p + 2) in DIGITS || At(s, p + 2) in "0123456789ABCDEF")
                 && (At(s, p + 3) in DIGITS || At(s, p + 3) in "0123456789ABCDEF"))
    ensures var c := At(s, p + 1);
            var meant := if c == 'n' then 10 else if c == 'r' then 13 else if c == 't' then 9
                         else if c == 'b' then 8 else if c == 'a' then 7 else c as int;
            Advance(s, p, Quoted) == More([meant as char], p + 2, Quoted)
  {
    hide IsHex, HexDigitToInt;
    HexExactly(At(s, p + 2));
    HexExactly(At(s, p + 3));
    assert '\n' as int == 10 && '\r' as int == 13 && '\t' as int == 9;
  }

  /** An argument that stands in the line as it is, between single quotes, or in its quoted form. */
  datatype Spelling = Naked(text: string) | SingleQuoted(text: string) | Escaped(text: string)

  /** Which texts can be written so: a naked one has no blank and no quote, and no NUL; one between single
      quotes has no NUL and does not end in a backslash, which would take the closing quote for itself. */
  ghost predicate Writable(sp: Spelling) {
    match sp
    case Naked(text) =>
      text != [] && forall i :: 0 <= i < |text| ==> !IsSpace(text[i]) && text[i] !in {'"', '\'', '\0'}
    case SingleQuoted(text) => '\0' !in text && (text == [] || text[|text| - 1] != '\\')
    case Escaped(text) => AllBytes(text)
  }

  function Apostrophes(text: string): string {
    if text == [] then [] else Apostrophe(text[0]) + Apostrophes(text[1..])
  }

  ghost function Spell(sp: Spelling): string
    requires Writable(sp)
  {
    match sp
    case Naked(text) => text
    case SingleQuoted(text) => "'" + Apostrophes(text) + "'"
    case Escaped(text) => Repr(text)
  }

  lemma {:induction false} NakedReads(s: string, p: nat, text: string)
    requires Stands(s, p, text) && (text == [] || Writable(Naked(text)))
    requires p + |text| == |s| || s[p + |text|] == ' '
    ensures ReadToken(s, p, Bare) == Token(text, if p + |text| == |s| then |s| else p + |text| + 1)
    decreases text
  {
    hide Stands;
    Within(s, p, text);
    if text != [] {
      StandsAt(s, p, text, 0);
      StandsSplit(s, p, [text[0]], text[1..]) by { assert [text[0]] + text[1..] == text; }
      NakedReads(s, p + 1, text[1..]);
      assert [text[0]] + text[1..] == text;
    }
  }

  function Apostrophe(c: char): string {
    if c == '\'' then "\\'" else [c]
  }

  lemma SingleStep(s: string, p: nat, c: char)
    requires c != '\0' && Stands(s, p, Apostrophe(c)) && (c == '\\' ==> At(s, p + 1) != '\'')
    ensures Advance(s, p, Single) == More([c], p + |Apostrophe(c)|, Single)
    ensures p + |Apostrophe(c)| <= |s|
  {
    hide Stands;
    Within(s, p, Apostrophe(c));
    StandsAt(s, p, Apostrophe(c), 0);
    if c == '\'' { StandsAt(s, p, Apostrophe(c), 1); }
  }

  lemma SingleEnds(s: string, p: nat)
    requires Stands(s, p, "'") && (At(s, p + 1) == '\0' || IsSpace(At(s, p + 1)))
    ensures p + 1 <= |s| && ReadToken(s, p, Single) == Token([], p + 1)
  {
    StandsAt(s, p, "'", 0);
  }

  lemma {:induction false} SingleReads(s: string, p: nat, text: string)
    requires Writable(SingleQuoted(text)) && Stands(s, p, Apostrophes(text)) && Stands(s, p + |Apostrophes(text)|, "'")
    requires var end := p + |Apostrophes(text)| + 1; At(s, end) == '\0' || IsSpace(At(s, end))
    ensures p + |Apostrophes(text)| + 1 <= |s|
    ensures ReadToken(s, p, Single) == Token(text, p + |Apostrophes(text)| + 1)
    decreases text
  {
    hide Stands, Advance, ReadToken, IsSpace, Apostrophe, Writable;
    Within(s, p + |Apostrophes(text)|, "'");
    if text == [] {
      SingleEnds(s, p);
    } else {
      var w := Apostrophe(text[0]);
      StandsSplit(s, p, w, Apostrophes(text[1..]));
      AfterBackslash(s, p, text);
      SingleStep(s, p, text[0]);
      ReadTokenStep(s, p, Single);
      SingleReads(s, p + |w|, text[1..]);
      assert [text[0]] + text[1..] == text;
    }
  }

  /** A backslash of the text is followed by another byte of the text, written so that it is no quote. */
  lemma AfterBackslash(s: string, p: nat, text: string)
    requires text != [] && Writable(SingleQuoted(text)) && Stands(s, p, Apostrophes(text))
    ensures Writable(SingleQuoted(text[1..])) && text[0] != '\0'
    ensures text[0] == '\\' ==> At(s, p + 1) != '\''
  {
    hide Stands;
    assert forall c :: c in text[1..] ==> c in text;
    assert text[0] in text;
    if text[0] == '\\' {
      assert |text| > 1;
      assert Apostrophes(text) == ['\\'] + Apostrophes(text[1..]);
      StandsAt(s, p, Apostrophes(text), 1);
    }
  }

  /** The end of a spelled argument: a naked one takes the blank behind it along. */
  ghost function Behind(s: string, p: nat, sp: Spelling): nat
    requires Writable(sp)
  {
    var end := p + |Spell(sp)|;
    if sp.Naked? && end < |s| then end + 1 else end
  }

  lemma SpellingReads(s: string, p: nat, sp: Spelling)
    requires Writable(sp) && Stands(s, p, Spell(sp))
    requires p + |Spell(sp)| == |s| || At(s, p + |Spell(sp)|) == ' '
    ensures p < p + |Spell(sp)| <= |s| && At(s, p) != '\0' && !IsSpace(At(s, p))
    ensures ReadToken(s, p, Bare) == Token(sp.text, Behind(s, p, sp))
  {
    hide Stands, ReadToken, Writable, Repr, Apostrophes;
    Within(s, p, Spell(sp));
    match sp
    case Naked(text) =>
      assert text != [] && !IsSpace(text[0]) && text[0] != '\0' by { NakedFirst(text); }
      StandsAt(s, p, text, 0);
      NakedReads(s, p, text);
    case SingleQuoted(text) => SingleQuotedReads(s, p, text);
    case Escaped(text) =>
      EscapedBytes(text);
      ReprReads(s, p, text);
      assert |Repr(text)| > 0 by { ReprLonger(text); }
  }

  lemma NakedFirst(text: string)
    requires Writable(Naked(text))
    ensures text != [] && !IsSpace(text[0]) && text[0] != '\0'
  {
  }

  lemma EscapedBytes(text: string)
    requires Writable(Escaped(text))
    ensures AllBytes(text)
  {
  }

  lemma ReprLonger(text: string)
    requires AllBytes(text)
    ensures |Repr(text)| > 0
  {
  }

  lemma SpaceIsSpace(c: char)
    requires c == ' ' || c == '\0'
    ensures c == '\0' || IsSpace(c)
  {
  }

  lemma Enclosed(s: string, p: nat, w: string)
    requires Stands(s, p, "'" + w + "'")
    ensures At(s, p) == '\'' && Stands(s, p + 1, w) && Stands(s, p + 1 + |w|, "'") && p + 2 + |w| <= |s|
  {
    hide Stands;
    var front := "'" + w;
    StandsSplit(s, p, front, "'");
    StandsSplit(s, p, "'", w);
    StandsAt(s, p, "'", 0);
    Within(s, p + |front|, "'");
  }

  lemma SingleQuotedReads(s: string, p: nat, text: string)
    requires var sp := SingleQuoted(text);
             && Writable(sp) && Stands(s, p, Spell(sp))
             && (p + |Spell(sp)| == |s| || At(s, p + |Spell(sp)|) == ' ')
    ensures At(s, p) == '\'' && ReadToken(s, p, Bare) == Token(text, p + |Apostrophes(text)| + 2)
  {
    hide Stands, Apostrophes, Writable, ReadToken, IsSpace;
    ReadTokenStep(s, p, Bare);
    Enclosed(s, p, Apostrophes(text));
    SpaceIsSpace(At(s, p + |Apostrophes(text)| + 2));
    SingleReads(s, p + 1, text);
  }

  ghost predicate AllWritable(spellings: seq<Spelling>) {
    forall i :: 0 <= i < |spellings| ==> Writable(spellings[i])
  }

  ghost function SpelledLine(spellings: seq<Spelling>): string
    requires AllWritable(spellings)
  {
    if spellings == [] then []
    else if |spellings| == 1 then Spell(spellings[0])
    else Spell(spellings[0]) + " " + SpelledLine(spellings[1..])
  }

  function Texts(spellings: seq<Spelling>): seq<string> {
    if spellings == [] then [] else [spellings[0].text] + Texts(spellings[1..])
  }

  lemma {:induction false} SpelledLineSplits(s: string, p: nat, spellings: seq<Spelling>)
    requires AllWritable(spellings) && Stands(s, p, SpelledLine(spellings)) && p + |SpelledLine(spellings)| == |s|
    ensures Split(s, p) == Some(Texts(spellings))
    decreases spellings
  {
    hide Stands, Spell, Split, ReadToken, Writable;
    AtTheEnd(s);
    if spellings != [] {
      var first, others := spellings[0], spellings[1..];
      var end := p + |Spell(first)|;
      if others == [] {
        SpellingReads(s, p, first);
        SplitStep(s, p, first.text, |s|);
        assert Texts(others) == [];
      } else {
        StandsSplit(s, p, Spell(first) + " ", SpelledLine(others));
        StandsSplit(s, p, Spell(first), " ");
        StandsAt(s, end, " ", 0);
        Within(s, end, " ");
        SpellingReads(s, p, first);
        SplitStep(s, p, first.text, Behind(s, p, first));
        SpelledLineSplits(s, end + 1, others);
        SpaceFirst(s, end);
      }
    }
  }

  /** Splitting gives back every list of arguments, however each of them was written. */
  lemma SpellingRoundTrip(spellings: seq<Spelling>)
    requires AllWritable(spellings)
    ensures Split(SpelledLine(spellings), 0) == Some(Texts(spellings))
  {
    hide Split, SpelledLine, Texts, Writable;
    var s := SpelledLine(spellings);
    assert s[0..|s|] == s;
    SpelledLineSplits(s, 0, spellings);
  }

  lemma {:induction false} QuotedOnly(s: string, p: nat, a: string)
    requires AllBytes(a) && Stands(s, p, QuoteAll(a))
    ensures p + |QuoteAll(a)| <= |s|
    ensures ReadToken(s, p + |QuoteAll(a)|, Quoted).NoToken? ==> ReadToken(s, p, Quoted).NoToken?
    decreases a
  {
    hide Stands, Quote;
    Within(s, p, QuoteAll(a));
    if a != [] {
      StandsSplit(s, p, Quote(a[0]), QuoteAll(a[1..]));
      QuoteReads(s, p, a[0]);
      QuotedOnly(s, p + |Quote(a[0])|, a[1..]);
    }
  }

  /** A quote that is not closed, or closed inside a word, refuses the line. */
  lemma UnbalancedIsRefused(a: string, c: char)
    requires AllBytes(a) && !IsSpace(c) && c != '\0'
    ensures Split("\"" + QuoteAll(a), 0) == None
    ensures Split(Repr(a) + [c], 0) == None
  {
    hide QuoteAll, ReadToken;
    var open, joined := "\"" + QuoteAll(a), Repr(a) + [c];
    assert open[1..1 + |QuoteAll(a)|] == QuoteAll(a) && joined[1..1 + |QuoteAll(a)|] == QuoteAll(a);
    QuotedOnly(open, 1, a);
    QuotedOnly(joined, 1, a);
    EndRefused(open);
    CloseRefused(joined, 1 + |QuoteAll(a)|);
    QuoteOpens(open);
    QuoteOpens(joined);
  }

  lemma EndRefused(s: string)
    ensures ReadToken(s, |s|, Quoted).NoToken?
  {
  }

  lemma CloseRefused(s: string, p: nat)
    requires p + 1 < |s| && s[p] == '"' && s[p + 1] != '\0' && !IsSpace(s[p + 1])
    ensures ReadToken(s, p, Quoted).NoToken?
  {
  }

  lemma QuoteOpens(s: string)
    requires s != [] && s[0] == '"' && ReadToken(s, 1, Quoted).NoToken?
    ensures ReadToken(s, 0, Bare).NoToken?
  {
  }

  // ---------------------------------------------------------------- the loops

  lemma {:induction false} QuoteAllAppend(a: string, c: char)
    requires AllBytes(a) && IsByte(c)
    ensures AllBytes(a + [c]) && QuoteAll(a + [c]) == QuoteAll(a) + Quote(c)
  {
    hide Quote;
    if a == [] {
      assert [c][1..] == [] && a + [c] == [c];
    } else {
      assert (a + [c])[1..] == a[1..] + [c];
      QuoteAllAppend(a[1..], c);
    }
  }

  /** One turn of the loop of sdscatrepr. */
  method CatQuoted(s: string, c: char) returns (r: string)
    requires IsByte(c)
    ensures r == s + Quote(c)
  {
    if c == '\\' || c == '"' { r := s + ['\\', c]; }
    else if c == '\n' { r := s + "\\n"; }
    else if c == '\r' { r := s + "\\r"; }
    else if c == '\t' { r := s + "\\t"; }
    else if c == 7 as char { r := s + "\\a"; }
    else if c == 8 as char { r := s + "\\b"; }
    else if IsPrint(c) { r := s + [c]; }
    else { r := s + ['\\', 'x', HexChar(c as int / 16), HexChar(c as int % 16)]; }
  }

  /** sdscatrepr. */
  method CatRepr(s: string, p: string) returns (r: string)
    requires AllBytes(p)
    ensures r == s + Repr(p)
  {
    r := s + "\"";
    var i := 0;
    while i < |p|
      invariant i <= |p| && r == s + "\"" + QuoteAll(p[..i])
    {
      hide QuoteAll, Quote;
      QuoteAllAppend(p[..i], p[i]);
      assert p[..i + 1] == p[..i] + [p[i]];
      r := CatQuoted(r, p[i]);
      i := i + 1;
    }
    assert p[..i] == p;
    r := r + "\"";
  }

  function Prefixed(done: string, rest: Token): (t: Token)
    ensures done == [] ==> t == rest
  {
    if rest.NoToken? then rest else
      assert done == [] ==> done + rest.text == rest.text;
      Token(done + rest.text, rest.next)
  }

  lemma PrefixedTwice(a: string, b: string, rest: Token)
    ensures Prefixed(a, Prefixed(b, rest)) == Prefixed(a + b, rest)
  {
    if rest.Token? {
      assert a + (b + rest.text) == (a + b) + rest.text;
    }
  }

  lemma ReadTokenStep(s: string, p: nat, mode: Mode)
    requires p <= |s|
    ensures ReadToken(s, p, mode) ==
              match Advance(s, p, mode)
              case Failed => NoToken
              case Done(next) => Token([], if next <= |s| then next else |s|)
              case More(added, next, m) => Prefixed(added, ReadToken(s, next, m))
  {
    hide Advance;
  }

  /** The inner loop of sdssplitargs, from a byte that is neither a space nor the end. */
  method SplitToken(line: string, start: nat) returns (ok: bool, current: string, p: nat)
    requires start < |line|
    ensures ok == ReadToken(line, start, Bare).Token?
    ensures ok ==> Token(current, p) == ReadToken(line, start, Bare)
    ensures p <= |line|
  {
    hide ReadToken, Prefixed;
    p, current := start, [];
    var inq, insq, done := false, false, false;
    PrefixedNothing(ReadToken(line, start, Bare));
    while !done
      invariant p <= |line| && !(inq && insq)
      invariant !done ==>
                  ReadToken(line, start, Bare)
                  == Prefixed(current, ReadToken(line, p, if inq then Quoted else if insq then Single else Bare))
      invariant done ==> ReadToken(line, start, Bare) == Token(current, p)
      decreases |line| - p, !done
    {
      ghost var mode, before, at := if inq then Quoted else if insq then Single else Bare, current, p;
      ReadTokenStep(line, p, mode);
      ghost var turn := Advance(line, p, mode);
      PrefixedEnds(current, if turn.Done? && turn.next <= |line| then turn.next else |line|);
      var c := At(line, p);
      if inq {
        if c == '\\' && At(line, p + 1) == 'x' && IsHex(At(line, p + 2)) && IsHex(At(line, p + 3)) {
          current := current + [(HexDigitToInt(At(line, p + 2)) * 16 + HexDigitToInt(At(line, p + 3))) as char];
          p := p + 3;
        } else if c == '\\' && At(line, p + 1) != '\0' {
          p := p + 1;
          current := current + [Letter(At(line, p))];
        } else if c == '"' {
          if At(line, p + 1) != '\0' && !IsSpace(At(line, p + 1)) { return false, current, p; }
          done := true;
        } else if c == '\0' {
          return false, current, p;
        } else {
          current := current + [c];
        }
      } else if insq {
        if c == '\\' && At(line, p + 1) == '\'' {
          p := p + 1;
          current := current + "'";
        } else if c == '\'' {
          if At(line, p + 1) != '\0' && !IsSpace(At(line, p + 1)) { return false, current, p; }
          done := true;
        } else if c == '\0' {
          return false, current, p;
        } else {
          current := current + [c];
        }
      } else {
        if c == ' ' || c == '\n' || c == '\r' || c == '\t' || c == '\0' {
          done := true;
        } else if c == '"' {
          inq := true;
        } else if c == '\'' {
          insq := true;
        } else {
          current := current + [c];
        }
      }
      if At(line, p) != '\0' { p := p + 1; }
      if turn.More? {
        PrefixedTwice(before, turn.added, ReadToken(line, turn.next, turn.mode));
      }
    }
    return true, current, p;
  }

  lemma PrefixedEnds(a: string, next: nat)
    ensures Prefixed(a, NoToken) == NoToken && Prefixed(a, Token([], next)) == Token(a, next)
  {
    assert a + [] == a;
  }

  lemma PrefixedNothing(t: Token)
    ensures Prefixed([], t) == t
  {
  }

  function Joined(vector: seq<string>, rest: Option<seq<string>>): (r: Option<seq<string>>)
    ensures vector == [] ==> r == rest
  {
    if rest.None? then None else
      assert vector == [] ==> vector + rest.value == rest.value;
      Some(vector + rest.value)
  }

  lemma JoinedStep(vector: seq<string>, text: string, rest: Option<seq<string>>)
    ensures Joined(vector, if rest.None? then None else Some([text] + rest.value)) == Joined(vector + [text], rest)
    ensures Joined(vector, None) == None && Joined(vector, Some([])) == Some(vector)
  {
    if rest.Some? {
      assert vector + ([text] + rest.value) == (vector + [text]) + rest.value;
    }
    assert vector + [] == vector;
  }

  lemma SplitSkips(s: string, p: nat, q: nat)
    requires p <= |s| && q == SkipSpaces(s, p)
    ensures Split(s, p) == Split(s, q) && (At(s, q) == '\0' ==> Split(s, q) == Some([]))
    ensures At(s, q) != '\0' && ReadToken(s, q, Bare).NoToken? ==> Split(s, q) == None
  {
    hide ReadToken;
    assert SkipSpaces(s, q) == q;
  }

  /** sdssplitargs: the arguments, or nothing when a quote is not closed properly. */
  method SplitArgs(line: string) returns (r: Option<seq<string>>)
    ensures r == Split(line, 0)
  {
    hide Split, ReadToken, SkipSpaces, Joined;
    var p: nat, vector: seq<string> := 0, [];
    while true
      invariant p <= |line| && Split(line, 0) == Joined(vector, Split(line, p))
      decreases |line| - p
    {
      ghost var from := p;
      while At(line, p) != '\0' && IsSpace(At(line, p))
        invariant from <= p <= |line| && SkipSpaces(line, from) == SkipSpaces(line, p)
        decreases |line| - p
      {
        OneSpace(line, p);
        p := p + 1;
      }
      OneSpace(line, p);
      SplitSkips(line, from, p);
      JoinedStep(vector, [], None);
      if At(line, p) == '\0' { return Some(vector); }
      var ok, current, next := SplitToken(line, p);
      if !ok { return None; }
      SplitStep(line, p, current, next);
      JoinedStep(vector, current, Split(line, next));
      vector := vector + [current];
      p := next;
    }
  }

  lemma OneSpace(s: string, p: nat)
    requires p <= |s|
    ensures SkipSpaces(s, p) == if IsSpace(At(s, p)) then SkipSpaces(s, p + 1) else p
  {
  }
}
