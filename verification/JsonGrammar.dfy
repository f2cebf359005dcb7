/** JSON texts by the grammar of RFC 8259, and the parser and the printer of cJSON. */
module JsonGrammar {
  import opened Basics
  import opened Decimal
  import opened Json
  import opened JsonText
  import opened JsonReading
  import opened JsonStrings

  // ---------------------------------------------------------------- the standard

  /** A written value: white space wherever the grammar allows it, and strings as they stand between their
      quotes. Numbers are integers; an array or an object without elements has only white space inside. */
  datatype Syntax =
    | NullWord
    | FalseWord
    | TrueWord
    | Integer(n: int)
    | Literal(body: string)
    | Brackets(blank: string, elements: seq<Element>)
    | Braces(blank: string, pairs: seq<Pair>)

  datatype Element = Element(before: string, val: Syntax, after: string)

  datatype Pair = Pair(before: string, key: string, behindKey: string, beforeValue: string, val: Syntax, after: string)

  function Spell(v: Syntax): string {
    match v
    case NullWord => "null"
    case FalseWord => "false"
    case TrueWord => "true"
    case Integer(n) => if n < 0 then "-" + ToDecimal(-n) else ToDecimal(n)
    case Literal(body) => "\"" + body + "\""
    case Brackets(blank, elements) => "[" + (if elements == [] then blank else SpellElements(elements)) + "]"
    case Braces(blank, pairs) => "{" + (if pairs == [] then blank else SpellPairs(pairs)) + "}"
  }

  function SpellElements(elements: seq<Element>): string {
    if elements == [] then [] else
      var e := elements[0];
      e.before + Spell(e.val) + e.after + (if |elements| == 1 then [] else "," + SpellElements(elements[1..]))
  }

  function SpellPairs(pairs: seq<Pair>): string {
    if pairs == [] then [] else
      var p := pairs[0];
      p.before + ("\"" + p.key + "\"") + p.behindKey + ":" + p.beforeValue + Spell(p.val) + p.after
      + (if |pairs| == 1 then [] else "," + SpellPairs(pairs[1..]))
  }

  /** White space of section 2. */
  predicate IsBlank(w: string) {
    forall i :: 0 <= i < |w| ==> w[i] in {' ', '\t', '\n', '\r'}
  }

  /** Allowed by the standard, with integers that a double holds exactly. */
  ghost predicate Proper(v: Syntax) {
    match v
    case Integer(n) => -EXACT_LIMIT < n < EXACT_LIMIT
    case Literal(body) => StrictRead(body).Some?
    case Brackets(blank, elements) =>
      IsBlank(blank) && forall i :: 0 <= i < |elements| ==> ProperElement(elements[i])
    case Braces(blank, pairs) => IsBlank(blank) && forall i :: 0 <= i < |pairs| ==> ProperPair(pairs[i])
    case _ => true
  }

  ghost predicate ProperElement(e: Element) {
    IsBlank(e.before) && IsBlank(e.after) && Proper(e.val)
  }

  ghost predicate ProperPair(p: Pair) {
    && IsBlank(p.before) && IsBlank(p.behindKey) && IsBlank(p.beforeValue) && IsBlank(p.after)
    && StrictRead(p.key).Some? && Proper(p.val)
  }

  /** The text of a literal as a C string: it ends at its first NUL. */
  function Meant(body: string): string {
    var text := StrictRead(body);
    if text.Some? then CString(text.value) else []
  }

  function Denoted(v: Syntax): Json {
    match v
    case NullWord => Null
    case FalseWord => False
    case TrueWord => True
    case Integer(n) => Num(n)
    case Literal(body) => Str(Meant(body))
    case Brackets(_, elements) => Arr(DenotedElements(elements))
    case Braces(_, pairs) => Obj(DenotedPairs(pairs))
  }

  function DenotedElements(elements: seq<Element>): seq<Json> {
    if elements == [] then [] else [Denoted(elements[0].val)] + DenotedElements(elements[1..])
  }

  function DenotedPairs(pairs: seq<Pair>): seq<Member> {
    if pairs == [] then []
    else [Member(Meant(pairs[0].key), Denoted(pairs[0].val))] + DenotedPairs(pairs[1..])
  }

  // ---------------------------------------------------------------- the parser reads every JSON text

  lemma BlankIsWhite(w: string)
    requires IsBlank(w)
    ensures AllWhite(w)
  {
  }

  /** White space is skipped up to what stands behind it. */
  lemma SkipsBlank(s: string, off: nat, w: string)
    requires Terminated(s) && IsBlank(w) && StartsWith(s, off, w) && off + |w| < |s| && s[off + |w|] > ' '
    ensures Skip(s, off) == off + |w|
  {
    hide StartsWith;
    BlankIsWhite(w);
    SkipsWhite(s, off, w);
    SkipStays(s, off + |w|);
  }

  /** A value starts with none of the characters that end one. */
  lemma SpellStarts(v: Syntax)
    ensures Spell(v) != [] && ' ' < Spell(v)[0] <= '~' && Spell(v)[0] !in {']', '}', ','}
  {
    hide ToDecimal;
    if v.Integer? && v.n >= 0 {
      assert IsDigit(ToDecimal(v.n)[0]);
    }
  }

  /** White space or what may follow a value ends a number. */
  lemma BlankEnds(s: string, at: nat, w: string)
    requires StartsWith(s, at, w) && IsBlank(w) && at + |w| < |s| && Ends(s[at + |w|])
    ensures at < |s| && Ends(s[at])
  {
    if w != [] { TextChar(s, at, w, 0); }
  }

  /** The spelled value at off, followed by something that ends it. */
  ghost predicate SpelledAt(v: Syntax, s: string, off: nat) {
    && StartsWith(s, off, Spell(v)) && off + |Spell(v)| < |s| && Ends(s[off + |Spell(v)|])
  }

  function Depth(v: Syntax): nat {
    match v
    case Brackets(_, elements) => 1 + DepthOfElements(elements)
    case Braces(_, pairs) => 1 + DepthOfPairs(pairs)
    case _ => 0
  }

  function DepthOfElements(elements: seq<Element>): nat {
    if elements == [] then 0 else Max(Depth(elements[0].val), DepthOfElements(elements[1..]))
  }

  function DepthOfPairs(pairs: seq<Pair>): nat {
    if pairs == [] then 0 else Max(Depth(pairs[0].val), DepthOfPairs(pairs[1..]))
  }

  lemma LiteralIsRead(body: string, s: string, off: nat)
    requires Terminated(s) && StrictRead(body).Some? && StartsWith(s, off, "\"" + body + "\"")
    ensures off < |s| && s[off] == '"' && ParseString(s, off) == Ok(Meant(body), off + |body| + 2)
  {
    hide StrictRead, ParseString, StartsWith;
    Enclosed(s, off, "\"", body, "\"");
    assert s[off + 1..off + 1 + |body|] == body by { Stands(s, off + 1, body); }
    ParsesStrictly(s, off, off + 1 + |body|);
  }

  lemma Stands(s: string, off: nat, w: string)
    requires StartsWith(s, off, w)
    ensures off + |w| <= |s| && s[off..off + |w|] == w
  {
  }

  lemma WordIsRead(v: Syntax, s: string, off: nat, depth: nat)
    requires Terminated(s) && (v.NullWord? || v.FalseWord? || v.TrueWord?) && StartsWith(s, off, Spell(v))
    ensures ParseValue(s, off, depth) == Ok(Denoted(v), off + |Spell(v)|)
  {
    hide ParseString, ParseNumber, ParseArray, ParseObject;
    TextChar(s, off, Spell(v), 0);
    NotAWord(s, off);
  }

  lemma IntegerIsRead(n: int, s: string, off: nat, depth: nat)
    requires Terminated(s) && Proper(Integer(n)) && SpelledAt(Integer(n), s, off)
    ensures ParseValue(s, off, depth) == Ok(Num(n), off + |Spell(Integer(n))|)
  {
    hide ToDecimal, ParseString, ParseNumber, ParseArray, ParseObject, StartsWith;
    assert Spell(Integer(n)) == PrintNumber(n);
    NumberStart(n);
    TextChar(s, off, PrintNumber(n), 0);
    NotAWord(s, off);
    ReadNumber(s, off, n);
  }

  lemma LeafIsRead(v: Syntax, s: string, off: nat, depth: nat)
    requires Terminated(s) && Proper(v) && !v.Brackets? && !v.Braces? && SpelledAt(v, s, off)
    ensures ParseValue(s, off, depth) == Ok(Denoted(v), off + |Spell(v)|) && Depth(v) == 0
  {
    hide ToDecimal, StrictRead, ParseString, ParseValue, StartsWith, Meant;
    match v
    case Integer(n) => IntegerIsRead(n, s, off, depth);
    case Literal(body) =>
      LiteralIsRead(body, s, off);
      QuoteDispatch(s, off, depth);
    case _ => WordIsRead(v, s, off, depth);
  }

  lemma QuoteDispatch(s: string, off: nat, depth: nat)
    requires Terminated(s) && off < |s| && s[off] == '"' && ParseString(s, off).Ok?
    ensures ParseValue(s, off, depth) == Ok(Str(ParseString(s, off).value), ParseString(s, off).next)
  {
    hide ParseString, ParseNumber, ParseArray, ParseObject, StartsWith;
    NotAWord(s, off);
  }

  /** Whatever the grammar allows is read, with the value it denotes, unless it is nested too deeply. */
  lemma {:induction false} SyntaxIsRead(v: Syntax, s: string, off: nat, depth: nat)
    requires Terminated(s) && Proper(v) && depth <= NESTING_LIMIT && SpelledAt(v, s, off)
    ensures ParseValue(s, off, depth) == Expected(depth + Depth(v) <= NESTING_LIMIT, Denoted(v), off + |Spell(v)|)
    decreases v, 2
  {
    hide ParseValue, Spell, StartsWith, Denoted, Ends;
    match v
    case Brackets(blank, elements) =>
      BracketsAreRead(blank, elements, s, off, depth);
      Dispatch(s, off, depth);
    case Braces(blank, pairs) =>
      BracesAreRead(blank, pairs, s, off, depth);
      Dispatch(s, off, depth);
    case _ => LeafIsRead(v, s, off, depth);
  }

  lemma BracketsAre(blank: string, elements: seq<Element>)
    ensures var v := Brackets(blank, elements);
            && Spell(v) == "[" + (if elements == [] then blank else SpellElements(elements)) + "]"
            && Denoted(v) == Arr(DenotedElements(elements)) && Depth(v) == 1 + DepthOfElements(elements)
  {
  }

  lemma BracesAre(blank: string, pairs: seq<Pair>)
    ensures var v := Braces(blank, pairs);
            && Spell(v) == "{" + (if pairs == [] then blank else SpellPairs(pairs)) + "}"
            && Denoted(v) == Obj(DenotedPairs(pairs)) && Depth(v) == 1 + DepthOfPairs(pairs)
  {
  }

  /** A text between two brackets. */
  lemma Enclosed(s: string, off: nat, left: string, body: string, right: string)
    requires |left| == |right| == 1 && StartsWith(s, off, left + body + right)
    ensures off + |body| + 1 < |s| && s[off] == left[0] && s[off + 1 + |body|] == right[0]
    ensures StartsWith(s, off + 1, body) && StartsWith(s, off + 1 + |body|, right)
  {
    hide StartsWith;
    TextSplit(s, off, left + body, right);
    TextSplit(s, off, left, body);
    TextChar(s, off, left, 0);
    TextChar(s, off + 1 + |body|, right, 0);
  }

  lemma ArrayOpens(s: string, off: nat, depth: nat)
    requires Terminated(s) && off + 1 < |s| && s[off] == '['
    ensures depth >= NESTING_LIMIT ==> ParseArray(s, off, depth) == Bad
    ensures depth < NESTING_LIMIT && s[Skip(s, off + 1)] == ']' ==>
              ParseArray(s, off, depth) == Ok(Arr([]), Skip(s, off + 1) + 1)
    ensures depth < NESTING_LIMIT && s[Skip(s, off + 1)] != ']' ==>
              forall fits, vs, next :: ParseItems(s, Skip(s, off + 1), depth + 1) == Expected(fits, vs, next) ==>
                ParseArray(s, off, depth) == Expected(fits, Arr(vs), next)
  {
    hide ParseItems, Skip;
  }

  lemma {:induction false} BracketsAreRead(blank: string, elements: seq<Element>, s: string, off: nat, depth: nat)
    requires Terminated(s) && Proper(Brackets(blank, elements)) && depth <= NESTING_LIMIT
    requires StartsWith(s, off, Spell(Brackets(blank, elements)))
    ensures off < |s| && s[off] == '['
    ensures var v := Brackets(blank, elements);
            ParseArray(s, off, depth) == Expected(depth + Depth(v) <= NESTING_LIMIT, Denoted(v), off + |Spell(v)|)
    decreases elements, 3
  {
    hide StartsWith, Skip, ParseItems, SpellElements, DenotedElements, DepthOfElements, IsBlank, ProperElement, Spell;
    hide Denoted, Depth, ParseArray, Terminated;
    BracketsAre(blank, elements);
    var body := if elements == [] then blank else SpellElements(elements);
    Enclosed(s, off, "[", body, "]");
    ArrayOpens(s, off, depth);
    if depth < NESTING_LIMIT {
      if elements == [] {
        NoElements();
        SkipsBlank(s, off + 1, blank);
      } else {
        ElementStarts(elements, s, off + 1);
        SkipTwice(s, off + 1);
        ElementsAreRead(elements, s, Skip(s, off + 1), off + 1, depth + 1);
      }
    }
  }

  lemma NoElements()
    ensures DenotedElements([]) == [] && DepthOfElements([]) == 0 && DenotedPairs([]) == [] && DepthOfPairs([]) == 0
  {
  }

  lemma ThreeParts(s: string, from: nat, a: string, b: string, c: string)
    requires StartsWith(s, from, a + b + c)
    ensures StartsWith(s, from, a) && StartsWith(s, from + |a|, b) && StartsWith(s, from + |a| + |b|, c)
  {
    hide StartsWith;
    TextSplit(s, from, a + b, c);
    TextSplit(s, from, a, b);
  }

  lemma CommaParts(s: string, from: nat, front: string, rest: string)
    requires StartsWith(s, from, front + ("," + rest))
    ensures StartsWith(s, from, front) && StartsWith(s, from + |front|, ",")
    ensures StartsWith(s, from + |front| + 1, rest)
  {
    hide StartsWith;
    TextSplit(s, from, front, "," + rest);
    TextSplit(s, from + |front|, ",", rest);
  }

  lemma FirstSpelled(elements: seq<Element>)
    requires elements != []
    ensures var front := elements[0].before + Spell(elements[0].val) + elements[0].after;
            SpellElements(elements) == if |elements| == 1 then front else front + ("," + SpellElements(elements[1..]))
  {
    hide Spell;
  }

  /** Where the parts of the first element are. */
  lemma ElementParts(elements: seq<Element>, s: string, from: nat)
    requires elements != [] && StartsWith(s, from, SpellElements(elements))
    ensures var e := elements[0];
            var at := from + |e.before|;
            var end := at + |Spell(e.val)|;
            && StartsWith(s, from, e.before) && StartsWith(s, at, Spell(e.val)) && StartsWith(s, end, e.after)
            && (|elements| == 1 ==> |SpellElements(elements)| == end + |e.after| - from)
            && (|elements| > 1 ==>
                  && StartsWith(s, end + |e.after|, ",")
                  && StartsWith(s, end + |e.after| + 1, SpellElements(elements[1..]))
                  && |SpellElements(elements)| == end + |e.after| + 1 + |SpellElements(elements[1..])| - from)
  {
    hide StartsWith, Spell, SpellElements;
    var e := elements[0];
    FirstSpelled(elements);
    if |elements| > 1 { CommaParts(s, from, e.before + Spell(e.val) + e.after, SpellElements(elements[1..])); }
    ThreeParts(s, from, e.before, Spell(e.val), e.after);
  }

  lemma ElementStarts(elements: seq<Element>, s: string, from: nat)
    requires Terminated(s) && elements != [] && ProperElement(elements[0])
    requires StartsWith(s, from, SpellElements(elements))
    ensures from + |elements[0].before| < |s| && Skip(s, from) == from + |elements[0].before|
    ensures s[Skip(s, from)] != ']'
  {
    hide StartsWith, Spell, SpellElements, Skip, IsBlank;
    ElementParts(elements, s, from);
    SpellStarts(elements[0].val);
    TextChar(s, from + |elements[0].before|, Spell(elements[0].val), 0);
    SkipsBlank(s, from, elements[0].before);
  }

  /** Behind the value of an element: white space, and then a comma or the closing bracket. */
  lemma ElementEnds(e: Element, s: string, end: nat)
    requires Terminated(s) && ProperElement(e) && StartsWith(s, end, e.after)
    requires end + |e.after| < |s| && s[end + |e.after|] in {',', ']', '}'}
    ensures end < |s| && Ends(s[end]) && Skip(s, end) == end + |e.after|
  {
    hide StartsWith, Skip, IsBlank;
    SkipsBlank(s, end, e.after);
    BlankEnds(s, end, e.after);
  }

  /** The elements are the last one, or one and the others. */
  lemma ItemsStep(s: string, off: nat, depth: nat, fits: bool, v: Json, end: nat, at: nat)
    requires Terminated(s) && off < |s| && end < |s| && at + 1 < |s|
    requires ParseValue(s, Skip(s, off), depth) == Expected(fits, v, end) && Skip(s, end) == at
    ensures s[at] == ']' ==> ParseItems(s, off, depth) == Expected(fits, [v], at + 1)
    ensures s[at] == ',' ==>
              forall more, vs, next :: ParseItems(s, at + 1, depth) == Expected(more, vs, next) ==>
                ParseItems(s, off, depth) == Expected(fits && more, [v] + vs, next)
  {
    hide ParseValue, Skip;
  }

  lemma FirstElement(elements: seq<Element>)
    requires elements != []
    ensures |elements| == 1 ==>
              && DenotedElements(elements) == [Denoted(elements[0].val)]
              && DepthOfElements(elements) == Depth(elements[0].val)
    ensures DenotedElements(elements) == [Denoted(elements[0].val)] + DenotedElements(elements[1..])
    ensures DepthOfElements(elements) == Max(Depth(elements[0].val), DepthOfElements(elements[1..]))
  {
    hide Denoted, Depth;
    NoElements();
    if |elements| == 1 { assert elements[1..] == []; }
  }

  /** Reading starts at off; it and the start of the elements lead to the same place behind white space. */
  lemma {:induction false} ElementsAreRead(elements: seq<Element>, s: string, off: nat, from: nat, depth: nat)
    requires Terminated(s) && elements != [] && depth <= NESTING_LIMIT
    requires forall i :: 0 <= i < |elements| ==> ProperElement(elements[i])
    requires off < |s| && from < |s| && Skip(s, off) == Skip(s, from)
    requires StartsWith(s, from, SpellElements(elements)) && StartsWith(s, from + |SpellElements(elements)|, "]")
    ensures from + |SpellElements(elements)| < |s|
    ensures ParseItems(s, off, depth)
         == Expected(depth + DepthOfElements(elements) <= NESTING_LIMIT, DenotedElements(elements),
                     from + |SpellElements(elements)| + 1)
    decreases elements, 2
  {
    hide StartsWith, Spell, SpellElements, Skip, ParseValue, ParseItems, Depth, Denoted, Proper, IsBlank, Ends;
    hide DenotedElements, DepthOfElements, Terminated;
    var e := elements[0];
    var end := from + |e.before| + |Spell(e.val)|;
    var at := end + |e.after|;
    ElementParts(elements, s, from);
    ElementStarts(elements, s, from);
    FirstElement(elements);
    CharBehind(s, at, if |elements| == 1 then "]" else ",");
    ElementEnds(e, s, end);
    SyntaxIsRead(e.val, s, from + |e.before|, depth);
    ItemsStep(s, off, depth, depth + Depth(e.val) <= NESTING_LIMIT, Denoted(e.val), end, at);
    if |elements| > 1 {
      ElementStarts(elements[1..], s, at + 1);
      ElementsAreRead(elements[1..], s, at + 1, at + 1, depth);
    }
  }

  /** A single character that is not the end of the text. */
  lemma CharBehind(s: string, at: nat, w: string)
    requires Terminated(s) && |w| == 1 && w[0] != '\0' && StartsWith(s, at, w)
    ensures at + 1 < |s| && s[at] == w[0]
  {
    TextChar(s, at, w, 0);
  }

  lemma ObjectOpens(s: string, off: nat, depth: nat)
    requires Terminated(s) && off + 1 < |s| && s[off] == '{'
    ensures depth >= NESTING_LIMIT ==> ParseObject(s, off, depth) == Bad
    ensures depth < NESTING_LIMIT && s[Skip(s, off + 1)] == '}' ==>
              ParseObject(s, off, depth) == Ok(Obj([]), Skip(s, off + 1) + 1)
    ensures depth < NESTING_LIMIT && s[Skip(s, off + 1)] != '}' ==>
              forall fits, ms, next :: ParseMembers(s, Skip(s, off + 1), depth + 1) == Expected(fits, ms, next) ==>
                ParseObject(s, off, depth) == Expected(fits, Obj(ms), next)
  {
    hide ParseMembers, Skip;
  }

  lemma {:induction false} BracesAreRead(blank: string, pairs: seq<Pair>, s: string, off: nat, depth: nat)
    requires Terminated(s) && Proper(Braces(blank, pairs)) && depth <= NESTING_LIMIT
    requires StartsWith(s, off, Spell(Braces(blank, pairs)))
    ensures off < |s| && s[off] == '{'
    ensures var v := Braces(blank, pairs);
            ParseObject(s, off, depth) == Expected(depth + Depth(v) <= NESTING_LIMIT, Denoted(v), off + |Spell(v)|)
    decreases pairs, 3
  {
    hide StartsWith, Skip, ParseMembers, SpellPairs, DenotedPairs, DepthOfPairs, IsBlank, ProperPair, Spell;
    hide Denoted, Depth, ParseObject, Terminated;
    BracesAre(blank, pairs);
    var body := if pairs == [] then blank else SpellPairs(pairs);
    Enclosed(s, off, "{", body, "}");
    ObjectOpens(s, off, depth);
    if depth < NESTING_LIMIT {
      if pairs == [] {
        NoElements();
        SkipsBlank(s, off + 1, blank);
      } else {
        PairStarts(pairs, s, off + 1);
        SkipTwice(s, off + 1);
        PairsAreRead(pairs, s, Skip(s, off + 1), off + 1, depth + 1);
      }
    }
  }

  /** The text of the first member up to its value. */
  function KeyText(p: Pair): string {
    p.before + ("\"" + p.key + "\"") + p.behindKey + ":" + p.beforeValue
  }

  lemma KeyParts(p: Pair, s: string, from: nat)
    requires StartsWith(s, from, KeyText(p))
    ensures var k := from + |p.before|;
            var q := k + |p.key| + 2;
            var colon := q + |p.behindKey|;
            && StartsWith(s, from, p.before) && StartsWith(s, k, "\"" + p.key + "\"")
            && StartsWith(s, q, p.behindKey) && StartsWith(s, colon, ":") && StartsWith(s, colon + 1, p.beforeValue)
            && from + |KeyText(p)| == colon + 1 + |p.beforeValue|
  {
    hide StartsWith;
    var quoted := "\"" + p.key + "\"";
    TextSplit(s, from, p.before + quoted + p.behindKey + ":", p.beforeValue);
    TextSplit(s, from, p.before + quoted + p.behindKey, ":");
    TextSplit(s, from, p.before + quoted, p.behindKey);
    TextSplit(s, from, p.before, quoted);
  }

  lemma PairParts(pairs: seq<Pair>, s: string, from: nat)
    requires pairs != [] && StartsWith(s, from, SpellPairs(pairs))
    ensures var p := pairs[0];
            var at := from + |KeyText(p)|;
            var end := at + |Spell(p.val)|;
            && StartsWith(s, from, KeyText(p)) && StartsWith(s, at, Spell(p.val)) && StartsWith(s, end, p.after)
            && (|pairs| == 1 ==> |SpellPairs(pairs)| == end + |p.after| - from)
            && (|pairs| > 1 ==>
                  && StartsWith(s, end + |p.after|, ",") && StartsWith(s, end + |p.after| + 1, SpellPairs(pairs[1..]))
                  && |SpellPairs(pairs)| == end + |p.after| + 1 + |SpellPairs(pairs[1..])| - from)
  {
    hide StartsWith, Spell, KeyText, SpellPairs;
    var p := pairs[0];
    FirstPair(pairs);
    if |pairs| > 1 { CommaParts(s, from, KeyText(p) + Spell(p.val) + p.after, SpellPairs(pairs[1..])); }
    ThreeParts(s, from, KeyText(p), Spell(p.val), p.after);
  }

  lemma FirstPair(pairs: seq<Pair>)
    requires pairs != []
    ensures var front := KeyText(pairs[0]) + Spell(pairs[0].val) + pairs[0].after;
            SpellPairs(pairs) == if |pairs| == 1 then front else front + ("," + SpellPairs(pairs[1..]))
  {
    hide Spell;
  }

  lemma PairStarts(pairs: seq<Pair>, s: string, from: nat)
    requires Terminated(s) && pairs != [] && ProperPair(pairs[0]) && StartsWith(s, from, SpellPairs(pairs))
    ensures from + |pairs[0].before| < |s| && Skip(s, from) == from + |pairs[0].before| && s[Skip(s, from)] == '"'
  {
    hide StartsWith, Spell, SpellPairs, Skip, IsBlank, KeyText;
    var p := pairs[0];
    PairParts(pairs, s, from);
    KeyParts(p, s, from);
    TextChar(s, from + |p.before|, "\"" + p.key + "\"", 0);
    SkipsBlank(s, from, p.before);
  }

  /** From the white space before a key to the end of its value. */
  lemma {:induction false} PairIsRead(p: Pair, s: string, off: nat, from: nat, depth: nat)
    requires Terminated(s) && ProperPair(p) && depth <= NESTING_LIMIT
    requires off < |s| && from < |s| && Skip(s, off) == Skip(s, from)
    requires StartsWith(s, from, KeyText(p)) && SpelledAt(p.val, s, from + |KeyText(p)|)
    ensures ParseMember(s, off, depth)
         == Expected(depth + Depth(p.val) <= NESTING_LIMIT, Member(Meant(p.key), Denoted(p.val)),
                     from + |KeyText(p)| + |Spell(p.val)|)
    decreases p, 2
  {
    hide StartsWith, Spell, Skip, ParseValue, ParseString, Depth, Denoted, Proper, IsBlank, Ends, KeyText, Meant;
    hide StrictRead;
    KeyParts(p, s, from);
    var k := from + |p.before|;
    LiteralIsRead(p.key, s, k);
    SkipsBlank(s, from, p.before);
    var colon := k + |p.key| + 2 + |p.behindKey|;
    TextChar(s, colon, ":", 0);
    SkipsBlank(s, k + |p.key| + 2, p.behindKey);
    SpellStarts(p.val);
    TextChar(s, from + |KeyText(p)|, Spell(p.val), 0);
    SkipsBlank(s, colon + 1, p.beforeValue);
    SyntaxIsRead(p.val, s, from + |KeyText(p)|, depth);
  }

  lemma PairEnds(p: Pair, s: string, end: nat)
    requires Terminated(s) && ProperPair(p) && StartsWith(s, end, p.after)
    requires end + |p.after| < |s| && s[end + |p.after|] in {',', ']', '}'}
    ensures end < |s| && Ends(s[end]) && Skip(s, end) == end + |p.after|
  {
    hide StartsWith, Skip, IsBlank;
    SkipsBlank(s, end, p.after);
    BlankEnds(s, end, p.after);
  }

  /** The members are the last one, or one and the others. */
  lemma MembersStep(s: string, off: nat, depth: nat, fits: bool, m: Member, end: nat, at: nat)
    requires Terminated(s) && off < |s| && end < |s| && at + 1 < |s|
    requires ParseMember(s, off, depth) == Expected(fits, m, end) && Skip(s, end) == at
    ensures s[at] == '}' ==> ParseMembers(s, off, depth) == Expected(fits, [m], at + 1)
    ensures s[at] == ',' ==>
              forall more, ms, next :: ParseMembers(s, at + 1, depth) == Expected(more, ms, next) ==>
                ParseMembers(s, off, depth) == Expected(fits && more, [m] + ms, next)
  {
    hide ParseMember, Skip;
  }

  lemma FirstOfPairs(pairs: seq<Pair>)
    requires pairs != []
    ensures var m := Member(Meant(pairs[0].key), Denoted(pairs[0].val));
            && (|pairs| == 1 ==> DenotedPairs(pairs) == [m] && DepthOfPairs(pairs) == Depth(pairs[0].val))
            && DenotedPairs(pairs) == [m] + DenotedPairs(pairs[1..])
    ensures DepthOfPairs(pairs) == Max(Depth(pairs[0].val), DepthOfPairs(pairs[1..]))
  {
    hide Denoted, Depth, Meant;
    NoElements();
    if |pairs| == 1 { assert pairs[1..] == []; }
  }

  lemma {:induction false} PairsAreRead(pairs: seq<Pair>, s: string, off: nat, from: nat, depth: nat)
    requires Terminated(s) && pairs != [] && depth <= NESTING_LIMIT
    requires forall i :: 0 <= i < |pairs| ==> ProperPair(pairs[i])
    requires off < |s| && from < |s| && Skip(s, off) == Skip(s, from)
    requires StartsWith(s, from, SpellPairs(pairs)) && StartsWith(s, from + |SpellPairs(pairs)|, "}")
    ensures from + |SpellPairs(pairs)| < |s|
    ensures ParseMembers(s, off, depth)
         == Expected(depth + DepthOfPairs(pairs) <= NESTING_LIMIT, DenotedPairs(pairs), from + |SpellPairs(pairs)| + 1)
    decreases pairs, 2
  {
    hide StartsWith, Spell, SpellPairs, Skip, ParseMember, ParseMembers, Depth, Denoted, ProperPair, Ends, KeyText;
    hide Meant, DenotedPairs, DepthOfPairs, Terminated;
    var p := pairs[0];
    var end := from + |KeyText(p)| + |Spell(p.val)|;
    var at := end + |p.after|;
    PairParts(pairs, s, from);
    FirstOfPairs(pairs);
    CharBehind(s, at, if |pairs| == 1 then "}" else ",");
    PairEnds(p, s, end);
    PairIsRead(p, s, off, from, depth);
    MembersStep(s, off, depth, depth + Depth(p.val) <= NESTING_LIMIT, Member(Meant(p.key), Denoted(p.val)), end, at);
    if |pairs| > 1 {
      PairStarts(pairs[1..], s, at + 1);
      PairsAreRead(pairs[1..], s, at + 1, at + 1, depth);
    }
  }

  // ---------------------------------------------------------------- whole texts

  lemma FirstIsPrintable(body: string)
    requires body != [] && StrictFirst(body).First?
    ensures forall i :: 0 <= i < StrictFirst(body).size ==> body[i] >= ' '
  {
    hide PlaceIn, Code16, Utf8Of;
    if body[0] == '\\' {
      if body[1] == 'u' {
        CodeIsPrintable(body, 2);
        if StrictFirst(body).size == 12 { CodeIsPrintable(body, 8); }
      } else if body[1] < ' ' {
        LetterIsPrintable(body[1]);
      }
    }
  }

  lemma LetterIsPrintable(c: char)
    requires c < ' '
    ensures PlaceIn(LETTERS, c) == |LETTERS|
  {
    assert forall i :: 0 <= i < |LETTERS| ==> LETTERS[i] > ' ';
  }

  lemma CodeIsPrintable(body: string, i: nat)
    requires i + 4 <= |body| && Code16(body[i], body[i + 1], body[i + 2], body[i + 3]).Some?
    ensures body[i] >= ' ' && body[i + 1] >= ' ' && body[i + 2] >= ' ' && body[i + 3] >= ' '
  {
    hide Digit16;
    DigitIsPrintable(body[i]);
    DigitIsPrintable(body[i + 1]);
    DigitIsPrintable(body[i + 2]);
    DigitIsPrintable(body[i + 3]);
  }

  lemma DigitIsPrintable(c: char)
    ensures Digit16(c).Some? ==> c >= ' '
  {
    if Digit16(c).Some? {
      TablePlaces(Digit16(c).value);
    }
  }

  lemma {:induction false} StrictIsPrintable(body: string)
    requires StrictRead(body).Some?
    ensures NulFree(body)
    decreases |body|
  {
    if body != [] {
      hide StrictFirst;
      var n := StrictFirst(body).size;
      FirstIsPrintable(body);
      StrictIsPrintable(body[n..]);
      assert body == body[..n] + body[n..];
    }
  }

  lemma BlankIsNulFree(w: string)
    requires IsBlank(w)
    ensures NulFree(w)
  {
  }

  /** A JSON text is a C string. */
  lemma {:induction false} SpellIsNulFree(v: Syntax)
    requires Proper(v)
    ensures NulFree(Spell(v))
    decreases v, 1
  {
    hide ToDecimal, SpellElements, SpellPairs, IsBlank, StrictRead, ProperElement, ProperPair;
    match v
    case Integer(n) => NumberIsNulFree(n);
    case Literal(body) => StrictIsPrintable(body);
    case Brackets(blank, elements) =>
      BlankIsNulFree(blank);
      ElementsAreNulFree(elements);
    case Braces(blank, pairs) =>
      BlankIsNulFree(blank);
      PairsAreNulFree(pairs);
    case _ =>
  }

  lemma {:induction false} ElementsAreNulFree(elements: seq<Element>)
    requires forall i :: 0 <= i < |elements| ==> ProperElement(elements[i])
    ensures NulFree(SpellElements(elements))
    decreases elements, 0
  {
    hide Spell, IsBlank;
    if elements != [] {
      var e := elements[0];
      BlankIsNulFree(e.before);
      SpellIsNulFree(e.val);
      BlankIsNulFree(e.after);
      ElementsAreNulFree(elements[1..]);
    }
  }

  lemma {:induction false} PairsAreNulFree(pairs: seq<Pair>)
    requires forall i :: 0 <= i < |pairs| ==> ProperPair(pairs[i])
    ensures NulFree(SpellPairs(pairs))
    decreases pairs, 0
  {
    hide Spell, IsBlank, StrictRead;
    if pairs != [] {
      var p := pairs[0];
      BlankIsNulFree(p.before);
      StrictIsPrintable(p.key);
      BlankIsNulFree(p.behindKey);
      BlankIsNulFree(p.beforeValue);
      SpellIsNulFree(p.val);
      BlankIsNulFree(p.after);
      PairsAreNulFree(pairs[1..]);
    }
  }

  const BYTE_ORDER_MARK: string := [0xEF as char, 0xBB as char, 0xBF as char]

  /** A text of section 2 of RFC 8259, with a byte order mark if need be. */
  function JsonTextOf(mark: bool, before: string, v: Syntax, after: string): string {
    (if mark then BYTE_ORDER_MARK else []) + before + Spell(v) + after
  }

  lemma MarkIsSkipped(mark: bool, before: string, v: Syntax, behind: string)
    requires IsBlank(before) && behind != []
    ensures SkipMark(JsonTextOf(mark, before, v, behind)) == if mark then 3 else 0
  {
    hide Spell;
    SpellStarts(v);
    var text := JsonTextOf(mark, before, v, behind);
    if mark {
      assert text[..3] == BYTE_ORDER_MARK;
    } else {
      assert text[0] == if before == [] then Spell(v)[0] else before[0];
    }
  }

  /** What is read of a text: the value is found and read where it stands. */
  lemma ValueOfText(mark: bool, before: string, v: Syntax, behind: string)
    requires Proper(v) && IsBlank(before) && Terminated(behind) && Ends(behind[0])
    ensures var s := JsonTextOf(mark, before, v, behind);
            && Terminated(s) && SkipMark(s) < |s| && |behind| <= |s|
            && ParseValue(s, Skip(s, SkipMark(s)), 0)
            == Expected(Depth(v) <= NESTING_LIMIT, Denoted(v), |s| - |behind|)
  {
    hide Spell, ParseValue, Skip, SkipMark, IsBlank, Depth, Denoted, Proper, Ends;
    var s := JsonTextOf(mark, before, v, behind);
    var from: nat := if mark then 3 else 0;
    MarkIsSkipped(mark, before, v, behind);
    SpellStarts(v);
    assert s[from..from + |before|] == before;
    assert s[from + |before|] == Spell(v)[0];
    SkipsBlank(s, from, before);
    assert s[from + |before|..from + |before| + |Spell(v)|] == Spell(v);
    assert s[from + |before| + |Spell(v)|] == behind[0];
    SyntaxIsRead(v, s, from + |before|, 0);
  }

  lemma {:induction false} AllSkipped(s: string, off: nat)
    requires Terminated(s) && off < |s| && AllWhite(s[off..])
    ensures Skip(s, off) == |s| - 1
    decreases |s| - off
  {
    if off + 1 < |s| {
      assert s[off + 1..] == s[off..][1..];
      AllSkipped(s, off + 1);
    }
  }

  lemma TextIsNulFree(mark: bool, before: string, v: Syntax, after: string)
    requires Proper(v) && IsBlank(before) && NulFree(after)
    ensures NulFree(JsonTextOf(mark, before, v, after))
    ensures JsonTextOf(mark, before, v, after) + "\0" == JsonTextOf(mark, before, v, after + "\0")
  {
    hide Spell, Proper, IsBlank;
    BlankIsNulFree(before);
    SpellIsNulFree(v);
  }

  lemma TextIsParsed(text: string, toTheEnd: bool, fits: bool, v: Json, next: nat)
    requires NulFree(text) && next <= |text|
    requires var s := text + "\0"; ParseValue(s, Skip(s, SkipMark(s)), 0) == Expected(fits, v, next)
    ensures var s := text + "\0";
            ParseText(text, toTheEnd) == if !fits then Bad
                                         else if !toTheEnd then Ok(v, next)
                                         else if s[Skip(s, next)] == '\0' then Ok(v, Skip(s, next))
                                         else Bad
  {
    hide ParseValue, Skip, SkipMark;
    WholeString(text);
  }

  lemma EndOfText(mark: bool, before: string, v: Syntax, behind: string)
    ensures var s := JsonTextOf(mark, before, v, behind);
            |behind| <= |s| && s[|s| - |behind|..] == behind
  {
    hide Spell;
  }

  /** The main theorem on parsing: every JSON text of RFC 8259, whatever its white space, is read as the value
      it denotes, unless it is nested too deeply. */
  lemma EveryTextIsRead(mark: bool, before: string, v: Syntax, after: string, toTheEnd: bool)
    requires Proper(v) && IsBlank(before) && IsBlank(after)
    ensures var text := JsonTextOf(mark, before, v, after);
            ParseText(text, toTheEnd)
            == Expected(Depth(v) <= 1000, Denoted(v), if toTheEnd then |text| else |text| - |after|)
  {
    hide Spell, ParseValue, ParseText, Skip, SkipMark, Depth, Denoted, Proper, JsonTextOf, NulFree;
    var text, behind := JsonTextOf(mark, before, v, after), after + "\0";
    BlankIsNulFree(after);
    TextIsNulFree(mark, before, v, after);
    ValueOfText(mark, before, v, behind);
    EndOfText(mark, before, v, behind);
    TextIsParsed(text, toTheEnd, Depth(v) <= NESTING_LIMIT, Denoted(v), |text| - |after|);
    BlankIsWhite(after);
    assert AllWhite(behind);
    AllSkipped(text + "\0", |text| - |after|);
  }

  /** Anything but white space behind the value is refused when the text has to end there. */
  lemma TrailingTextIsRefused(mark: bool, before: string, v: Syntax, after: string, more: string)
    requires Proper(v) && IsBlank(before) && IsBlank(after) && after != []
    requires more != [] && more[0] > ' ' && NulFree(more)
    ensures ParseText(JsonTextOf(mark, before, v, after + more), true) == Bad
  {
    hide Spell, ParseValue, ParseText, Skip, SkipMark, Depth, Denoted, Proper, JsonTextOf, NulFree, IsBlank, StartsWith;
    var rest := after + more;
    var text, behind := JsonTextOf(mark, before, v, rest), rest + "\0";
    BlankIsNulFree(after);
    BothNulFree(after, more);
    TextIsNulFree(mark, before, v, rest);
    FirstBlank(after);
    ValueOfText(mark, before, v, behind);
    EndOfText(mark, before, v, behind);
    TextIsParsed(text, true, Depth(v) <= NESTING_LIMIT, Denoted(v), |text| - |rest|);
    PartsBehind(text + "\0", |text| - |rest|, after, more);
    SkipsBlank(text + "\0", |text| - |rest|, after);
  }

  lemma BothNulFree(a: string, b: string)
    requires NulFree(a) && NulFree(b)
    ensures NulFree(a + b)
  {
  }

  lemma PartsBehind(s: string, end: nat, after: string, more: string)
    requires end <= |s| && more != [] && s[end..] == after + more + "\0"
    ensures StartsWith(s, end, after) && end + |after| < |s| && s[end + |after|] == more[0]
  {
    assert s[end..end + |after|] == s[end..][..|after|] == after;
    assert s[end + |after|] == s[end..][|after|] == more[0];
  }

  lemma FirstBlank(w: string)
    requires IsBlank(w) && w != []
    ensures Ends(w[0])
  {
  }

  /** In an array, white space behind an element is followed by a comma or a bracket, or the text is refused. */
  lemma ArrayNeedsCommas(e: Element, more: string, toTheEnd: bool)
    requires ProperElement(e) && e.after != [] && more != [] && more[0] > ' ' && more[0] !in {',', ']'} && NulFree(more)
    ensures ParseText("[" + (e.before + Spell(e.val) + e.after) + more, toTheEnd) == Bad
  {
    hide Spell, ParseValue, ParseItems, Skip, Depth, Denoted, Proper, IsBlank, StartsWith, Ends, NulFree, ParseText;
    var body := e.before + Spell(e.val) + e.after;
    var text := "[" + body + more;
    var s := text + "\0";
    ElementIsNulFree(e);
    NulFreeParts(body, more);
    ElementAt(e, more + "\0", s);
    var at := 1 + |e.before|;
    var end := at + |Spell(e.val)|;
    assert s[end + |e.after|] == more[0];
    FirstBlank(e.after);
    TextChar(s, end, e.after, 0);
    SkipsBlank(s, end, e.after);
    ElementFirst(e, s);
    SyntaxIsRead(e.val, s, at, 1);
    SkipTwice(s, 1);
    ItemsRefused(s, Skip(s, 1), 1, Depth(e.val) <= NESTING_LIMIT - 1, Denoted(e.val), end);
    ArrayRefused(text, toTheEnd);
  }

  lemma ElementIsNulFree(e: Element)
    requires ProperElement(e)
    ensures NulFree(e.before + Spell(e.val) + e.after)
  {
    hide Spell, IsBlank;
    BlankIsNulFree(e.before);
    SpellIsNulFree(e.val);
    BlankIsNulFree(e.after);
  }

  lemma NulFreeParts(body: string, more: string)
    requires NulFree(body) && NulFree(more)
    ensures NulFree("[" + body + more)
  {
  }

  /** The parts of the first element of an array at the start of a text. */
  lemma ElementAt(e: Element, behind: string, s: string)
    requires s == "[" + (e.before + Spell(e.val) + e.after) + behind
    ensures StartsWith(s, 1, e.before) && StartsWith(s, 1 + |e.before|, Spell(e.val))
    ensures StartsWith(s, 1 + |e.before| + |Spell(e.val)|, e.after)
  {
    hide Spell;
    var body := e.before + Spell(e.val) + e.after;
    assert s[1..1 + |body|] == body;
    ThreeParts(s, 1, e.before, Spell(e.val), e.after);
  }

  lemma ElementFirst(e: Element, s: string)
    requires Terminated(s) && ProperElement(e) && StartsWith(s, 1, e.before)
    requires StartsWith(s, 1 + |e.before|, Spell(e.val))
    ensures 1 + |e.before| < |s| && Skip(s, 1) == 1 + |e.before| && s[Skip(s, 1)] != ']'
  {
    hide Spell, Skip, IsBlank, StartsWith;
    SpellStarts(e.val);
    TextChar(s, 1 + |e.before|, Spell(e.val), 0);
    SkipsBlank(s, 1, e.before);
  }

  lemma ItemsRefused(s: string, off: nat, depth: nat, fits: bool, v: Json, end: nat)
    requires Terminated(s) && off < |s| && end < |s| && s[Skip(s, end)] !in {',', ']'}
    requires ParseValue(s, Skip(s, off), depth) == Expected(fits, v, end)
    ensures ParseItems(s, off, depth) == Bad
  {
    hide ParseValue, Skip;
  }

  lemma ArrayRefused(text: string, toTheEnd: bool)
    requires NulFree(text) && |text| > 1 && text[0] == '['
    requires var s := text + "\0"; s[Skip(s, 1)] != ']' && ParseItems(s, Skip(s, 1), 1) == Bad
    ensures ParseText(text, toTheEnd) == Bad
  {
    hide ParseItems, ParseValue, Skip, NulFree;
    var s := text + "\0";
    assert s[0] == '[';
    assert SkipMark(s) == 0;
    SkipStays(s, 0);
    Dispatch(s, 0, 0);
    ArrayOpens(s, 0, 0);
    TextIsParsed(text, toTheEnd, false, Null, 0);
  }

  // ---------------------------------------------------------------- the printer writes JSON texts

  /** The line break before a member, indented by as many tabs as there are values around it. */
  function Break(format: bool, depth: nat): string {
    if format then "\n" + seq(depth, _ => '\t') else ""
  }

  /** How the printer lays a value out. Formatted, every member has its own line and a tab before its value,
      and the elements of an array stand in one line. */
  function Layout(j: Json, format: bool, depth: nat): Syntax {
    match j
    case Null => NullWord
    case False => FalseWord
    case True => TrueWord
    case Num(n) => Integer(n)
    case Str(s) => Literal(Escape(s))
    case Arr(items) => Brackets("", LayoutItems(items, format, depth + 1, true))
    case Obj(members) => Braces(Break(format, depth), LayoutMembers(members, format, depth + 1))
  }

  function LayoutItems(items: seq<Json>, format: bool, depth: nat, first: bool): (elements: seq<Element>)
    ensures |elements| == |items|
  {
    if items == [] then [] else
      [Element(if format && !first then " " else "", Layout(items[0], format, depth), "")]
      + LayoutItems(items[1..], format, depth, false)
  }

  function LayoutMembers(members: seq<Member>, format: bool, depth: nat): (pairs: seq<Pair>)
    requires depth > 0
    ensures |pairs| == |members|
  {
    if members == [] then [] else
      [Pair(Break(format, depth), Escape(members[0].key), "", if format then "\t" else "",
            Layout(members[0].val, format, depth), if |members| == 1 then Break(format, depth - 1) else "")]
      + LayoutMembers(members[1..], format, depth)
  }

  lemma {:induction false} TabsAre(n: nat)
    ensures Tabs(n) == seq(n, _ => '\t')
  {
    if n > 0 {
      TabsAre(n - 1);
    }
  }

  lemma BreakIs(format: bool, depth: nat)
    ensures Break(format, depth) == (if format then "\n" else "") + Indent(format, depth)
    ensures IsBlank(Break(format, depth))
  {
    TabsAre(depth);
  }

  lemma ObjectLayout(members: seq<Member>, format: bool, depth: nat)
    requires var pairs := LayoutMembers(members, format, depth + 1);
             members != [] ==> SpellPairs(pairs) == (if format then "\n" else "")
                                 + (PrintMembers(members, format, depth + 1) + Indent(format, depth))
    ensures Print(Obj(members), format, depth) == Spell(Layout(Obj(members), format, depth))
  {
    hide PrintMembers, SpellPairs, LayoutMembers, Break, Indent;
    BreakIs(format, depth);
    NothingSpelled(format, depth + 1);
    Regrouped(if format then "\n" else "", "", "", PrintMembers(members, format, depth + 1), Indent(format, depth));
  }

  /** The text of a printed value is that of its layout. */
  lemma {:induction false} PrintIsLayout(j: Json, format: bool, depth: nat)
    ensures Print(j, format, depth) == Spell(Layout(j, format, depth))
    decreases j, 1
  {
    hide ToDecimal, Escape, PrintItems, PrintMembers, SpellElements, SpellPairs, LayoutItems, LayoutMembers;
    hide Break, Indent;
    match j
    case Arr(items) =>
      ItemsLayout(items, format, depth + 1, true);
      NothingSpelled(format, depth + 1);
    case Obj(members) =>
      if members != [] { MembersLayout(members, format, depth + 1); }
      ObjectLayout(members, format, depth);
    case _ =>
  }

  lemma NothingSpelled(format: bool, depth: nat)
    requires depth > 0
    ensures PrintItems([], format, depth) == [] && PrintMembers([], format, depth) == []
    ensures LayoutItems([], format, depth, true) == [] && LayoutMembers([], format, depth) == []
    ensures SpellElements([]) == []
  {
  }

  lemma {:induction false} ItemsLayout(items: seq<Json>, format: bool, depth: nat, first: bool)
    ensures SpellElements(LayoutItems(items, format, depth, first))
         == (if format && !first && items != [] then " " else "") + PrintItems(items, format, depth)
    decreases items, 0
  {
    hide Print, Spell, Layout;
    if items != [] {
      PrintIsLayout(items[0], format, depth);
      ItemsLayout(items[1..], format, depth, false);
      var elements := LayoutItems(items, format, depth, first);
      assert elements[1..] == LayoutItems(items[1..], format, depth, false);
      FirstSpelled(elements);
    }
  }

  /** One member, from the line break before it to its value. */
  lemma MemberLayout(m: Member, format: bool, depth: nat, after: string)
    ensures var p := Pair(Break(format, depth), Escape(m.key), "", if format then "\t" else "",
                          Layout(m.val, format, depth), after);
            KeyText(p) == (if format then "\n" else "") + (Indent(format, depth) + PrintString(m.key) + Colon(format))
  {
    hide Indent, Layout, Escape;
    BreakIs(format, depth);
  }

  lemma SeparatorMoved(text: string, comma: string, line: string, rest: string)
    ensures text + (comma + line) + rest == text + (comma + (line + rest))
  {
  }

  lemma PrintFirst(members: seq<Member>, format: bool, depth: nat)
    requires members != []
    ensures PrintMembers(members, format, depth)
         == Indent(format, depth) + PrintString(members[0].key) + Colon(format) + Print(members[0].val, format, depth)
            + ((if |members| > 1 then "," else "") + ((if format then "\n" else "")
            + PrintMembers(members[1..], format, depth)))
    ensures |members| == 1 ==> PrintMembers(members[1..], format, depth) == []
  {
    hide Indent, PrintString, Colon, Print;
    var line := if format then "\n" else "";
    var comma := if |members| > 1 then "," else "";
    assert Separator(|members| > 1, format) == comma + line;
    SeparatorMoved(Indent(format, depth) + PrintString(members[0].key) + Colon(format)
                   + Print(members[0].val, format, depth), comma, line, PrintMembers(members[1..], format, depth));
  }

  lemma Regrouped(line: string, a: string, v: string, rest: string, t: string)
    ensures (line + a) + v + (line + t) == line + ((a + v + ("" + (line + []))) + t)
    ensures (line + a) + v + [] + ("," + (line + (rest + t))) == line + ((a + v + ("," + (line + rest))) + t)
    ensures ("{" + line) + rest + t + "}" == "{" + (line + (rest + t)) + "}"
  {
  }

  lemma {:induction false} MembersLayout(members: seq<Member>, format: bool, depth: nat)
    requires depth > 0 && members != []
    ensures SpellPairs(LayoutMembers(members, format, depth))
         == (if format then "\n" else "") + (PrintMembers(members, format, depth) + Indent(format, depth - 1))
    decreases members, 0
  {
    hide Print, Spell, Layout, Break, Indent, Escape, SpellPairs, PrintMembers, KeyText, PrintString, Colon;
    PrintIsLayout(members[0].val, format, depth);
    var pairs := LayoutMembers(members, format, depth);
    FirstPair(pairs);
    MemberLayout(members[0], format, depth, pairs[0].after);
    PrintFirst(members, format, depth);
    Regrouped(if format then "\n" else "",
              Indent(format, depth) + PrintString(members[0].key) + Colon(format), Print(members[0].val, format, depth),
              PrintMembers(members[1..], format, depth), Indent(format, depth - 1));
    if |members| > 1 {
      assert pairs[1..] == LayoutMembers(members[1..], format, depth);
      MembersLayout(members[1..], format, depth);
    } else {
      BreakIs(format, depth - 1);
    }
  }

  /** The layout of a printable value is a JSON text, and denotes the value. */
  lemma {:induction false} LayoutIsProper(j: Json, format: bool, depth: nat)
    requires Printable(j)
    ensures Proper(Layout(j, format, depth)) && Denoted(Layout(j, format, depth)) == j
    decreases j, 1
  {
    hide Escape, StrictRead, Break, ProperElement, ProperPair, LayoutItems, LayoutMembers;
    hide DenotedElements, DenotedPairs;
    match j
    case Str(s) => EscapeDenotes(s);
    case Arr(items) => ItemsAreProper(items, format, depth + 1, true);
    case Obj(members) =>
      BreakIs(format, depth);
      MembersAreProper(members, format, depth + 1);
    case _ =>
  }

  lemma EscapeDenotes(s: string)
    requires NulFree(s)
    ensures StrictRead(Escape(s)).Some? && Meant(Escape(s)) == s
  {
    PrintsStrictly(s);
    WholeString(s);
  }

  lemma {:induction false} ItemsAreProper(items: seq<Json>, format: bool, depth: nat, first: bool)
    requires Printable(Arr(items))
    ensures var elements := LayoutItems(items, format, depth, first);
            (forall i :: 0 <= i < |elements| ==> ProperElement(elements[i])) && DenotedElements(elements) == items
    decreases items, 0
  {
    hide Layout, Denoted, Proper;
    if items != [] {
      LayoutIsProper(items[0], format, depth);
      assert Printable(Arr(items[1..]));
      ItemsAreProper(items[1..], format, depth, false);
      var elements := LayoutItems(items, format, depth, first);
      assert ProperElement(elements[0]) && elements[1..] == LayoutItems(items[1..], format, depth, false);
      assert [items[0]] + items[1..] == items;
    }
  }

  lemma PairIsProper(m: Member, format: bool, depth: nat, last: bool)
    requires NulFree(m.key) && Printable(m.val) && depth > 0
    requires Proper(Layout(m.val, format, depth))
    ensures var p := Pair(Break(format, depth), Escape(m.key), "", if format then "\t" else "",
                          Layout(m.val, format, depth), if last then Break(format, depth - 1) else "");
            ProperPair(p) && Meant(p.key) == m.key
  {
    hide Layout, Proper, Escape, StrictRead, Meant, Break, NulFree, Printable;
    EscapeDenotes(m.key);
    BreakIs(format, depth);
    BreakIs(format, depth - 1);
  }

  lemma {:induction false} MembersAreProper(members: seq<Member>, format: bool, depth: nat)
    requires Printable(Obj(members)) && depth > 0
    ensures var pairs := LayoutMembers(members, format, depth);
            (forall i :: 0 <= i < |pairs| ==> ProperPair(pairs[i])) && DenotedPairs(pairs) == members
    decreases members, 0
  {
    hide Layout, Denoted, Proper, Escape, StrictRead, Meant, Break, NulFree, ProperPair, Printable;
    if members != [] {
      FirstMemberPrintable(members);
      LayoutIsProper(members[0].val, format, depth);
      PairIsProper(members[0], format, depth, |members| == 1);
      MembersAreProper(members[1..], format, depth);
      var pairs := LayoutMembers(members, format, depth);
      assert ProperPair(pairs[0]) && pairs[1..] == LayoutMembers(members[1..], format, depth);
      assert [members[0]] + members[1..] == members;
    }
  }

  /** The main theorem on printing: what either printer writes for a printable value is a JSON text that
      denotes the value. */
  lemma PrintIsJsonText(j: Json, format: bool)
    requires Printable(j)
    ensures var v := Layout(j, format, 0);
            Print(j, format, 0) == JsonTextOf(false, "", v, "") && Proper(v) && Denoted(v) == j
  {
    hide Print, Spell, Layout, Proper, Denoted, Printable;
    PrintIsLayout(j, format, 0);
    LayoutIsProper(j, format, 0);
  }
}
