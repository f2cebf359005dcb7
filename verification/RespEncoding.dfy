/** Encoding reply trees, and the decoder as its inverse. */
module RespEncoding {
  import opened Decimal
  import opened Resp

  function SignedDecimal(v: int): Bytes {
    if v < 0 then "-" + ToDecimal(-v) else ToDecimal(v)
  }

  function Line(c: char, text: Bytes): Bytes {
    [c] + text + CRLF
  }

  function Bulk(text: Bytes): Bytes {
    Line('$', ToDecimal(|text|)) + text + CRLF
  }

  function Encode(r: Reply): Bytes {
    match r
    case Str(s) => Bulk(s)
    case Status(s) => Line('+', s)
    case Err(s) => Line('-', s)
    case Int(v) => Line(':', SignedDecimal(v))
    case Nil => Line('$', "-1")
    case Arr(_, items) => Line('*', ToDecimal(|items|)) + EncodeAll(items)
  }

  function EncodeAll(items: seq<Reply>): Bytes {
    if items == [] then [] else Encode(items[0]) + EncodeAll(items[1..])
  }

  /** The forms on the wire, byte for byte. */
  lemma WireForms(s: Bytes, v: int, items: seq<Reply>, n: int)
    ensures Encode(Status(s)) == "+" + s + "\r\n"
    ensures Encode(Err(s)) == "-" + s + "\r\n"
    ensures Encode(Int(v)) == ":" + (if v < 0 then "-" + ToDecimal(-v) else ToDecimal(v)) + "\r\n"
    ensures Encode(Str(s)) == "$" + ToDecimal(|s|) + "\r\n" + s + "\r\n"
    ensures Encode(Nil) == "$-1\r\n"
    ensures Encode(Arr(n, items)) == "*" + ToDecimal(|items|) + "\r\n" + EncodeAll(items)
  {
  }

  ghost predicate NoCrlf(s: Bytes) {
    forall i :: 0 <= i ==> !IsCrlf(s, i)
  }

  /** The trees the protocol can carry: one-line texts, 64-bit integers, counts that fit an `int`. */
  ghost predicate Encodable(r: Reply) {
    match r
    case Str(s) => |s| < TWO_TO_THE_63
    case Status(s) => NoCrlf(s)
    case Err(s) => NoCrlf(s)
    case Int(v) => -TWO_TO_THE_63 <= v < TWO_TO_THE_63
    case Nil => true
    case Arr(n, items) => n == |items| < TWO_TO_THE_31 && AllEncodable(items)
  }

  ghost predicate AllEncodable(items: seq<Reply>) {
    items == [] || (Encodable(items[0]) && AllEncodable(items[1..]))
  }

  /** How many arrays are nested inside each other. */
  function ArrayDepth(r: Reply): nat {
    if r.Arr? then 1 + MaxDepth(r.items) else 0
  }

  function MaxDepth(items: seq<Reply>): nat {
    if items == [] then 0 else
      var first, others := ArrayDepth(items[0]), MaxDepth(items[1..]);
      if first > others then first else others
  }

  // ---------------------------------------------------------------- numbers in lines

  lemma {:induction false} AccumulateDigits(line: Bytes, i: nat, start: nat)
    requires start <= i <= |line| && AllDigits(line[start..])
    ensures AllDigits(line[start..i])
    ensures Accumulate(line, i, Wrap64(FromDecimal(line[start..i]))) == Number(Wrap64(FromDecimal(line[start..])))
    decreases |line| - i
  {
    hide Wrap64;
    if i < |line| {
      assert line[i] == line[start..][i - start];
      assert line[start..i + 1][..i - start] == line[start..i];
      var v, d := FromDecimal(line[start..i]), DigitValue(line[i]);
      assert AllDigits(line[start..i + 1]);
      WrapStep(v, d);
      AccumulateDigits(line, i + 1, start);
    } else {
      assert line[start..i] == line[start..];
    }
  }

  lemma ReadsSignedDecimal(v: int)
    requires -TWO_TO_THE_63 <= v < TWO_TO_THE_63
    ensures ReadLongLong(SignedDecimal(v)) == v
  {
    var line := SignedDecimal(v);
    var start := if v < 0 then 1 else 0;
    var magnitude: nat := if v < 0 then -v else v;
    assert line[start..] == ToDecimal(magnitude);
    AccumulateDigits(line, start, start);
    assert line[start..start] == [];
    DecimalRoundTrip(magnitude);
    WrapStep(magnitude, 0);
  }

  /** A header line is read back whole: its text, and where it ends. */
  lemma LineIsFound(c: char, text: Bytes, tail: Bytes)
    requires NoCrlf(text)
    ensures var input := Line(c, text) + tail;
            FindCrlf(input, 1) == 1 + |text| && input[1..1 + |text|] == text
            && input[|text| + 3..] == tail && input[0] == c
  {
    var input := Line(c, text) + tail;
    forall i | 1 <= i < 1 + |text| ensures !IsCrlf(input, i) {
      assert !IsCrlf(text, i - 1);
    }
    FindCrlfIs(input, 1, 1 + |text|);
  }

  lemma DecimalHasNoCrlf(v: int)
    ensures NoCrlf(SignedDecimal(v))
  {
    forall i | 0 <= i ensures !IsCrlf(SignedDecimal(v), i) {
      if i < |SignedDecimal(v)| && v < 0 && i > 0 {
        assert IsDigit(ToDecimal(-v)[i - 1]);
      }
    }
  }

  // ---------------------------------------------------------------- one item of an encoding

  lemma HeaderIsRead(c: char, n: int, tail: Bytes)
    requires -1 <= n < TWO_TO_THE_63
    ensures var input := Line(c, SignedDecimal(n)) + tail;
            var end := FindCrlf(input, 1);
            end == 1 + |SignedDecimal(n)| && ReadLongLong(input[1..end]) == n
            && input[end + 2..] == tail && input[0] == c
  {
    DecimalHasNoCrlf(n);
    LineIsFound(c, SignedDecimal(n), tail);
    ReadsSignedDecimal(n);
  }

  lemma BulkIsRead(s: Bytes, tail: Bytes, depth: nat)
    requires |s| < TWO_TO_THE_63
    ensures ReadItem(Bulk(s) + tail, depth) == Got(Leaf(Str(s)), |Bulk(s)|)
  {
    hide ReadLongLong, ToDecimal, FindCrlf, Line;
    var input := Bulk(s) + tail;
    assert input == Line('$', SignedDecimal(|s|)) + (s + CRLF + tail);
    HeaderIsRead('$', |s|, s + CRLF + tail);
    var end := FindCrlf(input, 1);
    assert |input| == end + 2 + |s| + 2 + |tail|;
    assert input[end + 2..end + 2 + |s|] == input[end + 2..][..|s|] == s;
  }

  lemma LeafIsRead(r: Reply, tail: Bytes, depth: nat)
    requires Encodable(r) && !r.Arr?
    ensures ReadItem(Encode(r) + tail, depth) == Got(Leaf(r), |Encode(r)|)
    ensures (Encode(r) + tail)[|Encode(r)|..] == tail
  {
    hide ReadLongLong, FindCrlf;
    match r
    case Str(s) => BulkIsRead(s, tail, depth);
    case Status(s) => LineIsFound('+', s, tail);
    case Err(s) => LineIsFound('-', s, tail);
    case Int(v) => DecimalHasNoCrlf(v); LineIsFound(':', SignedDecimal(v), tail); ReadsSignedDecimal(v);
    case Nil =>
      assert ToDecimal(1) == "1";
      assert SignedDecimal(-1) == "-1";
      HeaderIsRead('$', -1, tail);
  }

  lemma ArrayHeaderIsRead(count: nat, tail: Bytes, depth: nat)
    requires count < TWO_TO_THE_31 && depth <= MAX_DEPTH
    ensures var header := Line('*', ToDecimal(count));
            (header + tail)[|header|..] == tail
            && ReadItem(header + tail, depth) ==
               if depth == MAX_DEPTH then Bad(TooDeep)
               else if count == 0 then Got(Leaf(Arr(0, [])), |header|)
               else Got(Open(count), |header|)
  {
    HeaderIsRead('*', count, tail);
  }

  // ---------------------------------------------------------------- whole trees

  /** Decoding an encoded tree gives the tree and stops at its end, unless arrays nest too deep. */
  lemma {:induction false} DecodeEncode(r: Reply, tail: Bytes, depth: nat)
    requires Encodable(r) && depth <= MAX_DEPTH
    ensures Decode(Encode(r) + tail, depth) ==
            if depth + ArrayDepth(r) <= MAX_DEPTH then Done(r, tail) else Refused(TooDeep)
    decreases r, 0
  {
    hide ReadItem;
    if r.Arr? {
      var header := Line('*', ToDecimal(|r.items|));
      assert Encode(r) + tail == header + (EncodeAll(r.items) + tail);
      ArrayHeaderIsRead(|r.items|, EncodeAll(r.items) + tail, depth);
      if depth < MAX_DEPTH {
        if r.items == [] {
          assert EncodeAll(r.items) + tail == tail;
        } else {
          DecodeEncodeAll(r.items, tail, depth + 1);
        }
      }
    } else {
      LeafIsRead(r, tail, depth);
    }
  }

  lemma {:induction false} DecodeEncodeAll(items: seq<Reply>, tail: Bytes, depth: nat)
    requires AllEncodable(items) && depth <= MAX_DEPTH
    ensures DecodeItems(|items|, EncodeAll(items) + tail, depth) ==
            if items == [] || depth + MaxDepth(items) <= MAX_DEPTH then DoneItems(items, tail)
            else RefusedItems(TooDeep)
    decreases items, 1
  {
    hide ReadItem;
    if items == [] {
      assert EncodeAll(items) + tail == tail;
    } else {
      var rest := EncodeAll(items[1..]) + tail;
      assert EncodeAll(items) + tail == Encode(items[0]) + rest;
      DecodeEncode(items[0], rest, depth);
      DecodeEncodeAll(items[1..], tail, depth);
    }
  }

  /** On a strict prefix of an encoding the reader emits nothing and reports no error. */
  lemma PrefixIsPartial(r: Reply, cut: nat)
    requires Encodable(r) && ArrayDepth(r) <= MAX_DEPTH && cut < |Encode(r)|
    ensures NextReply([], Encode(r)[..cut]).Wait?
  {
    var a, b := Encode(r)[..cut], Encode(r)[cut..];
    assert a + b == Encode(r) + [];
    DecodeEncode(r, [], 0);
    MachineRefinesDecoder(a + b);
    NextReplyExtends([], a, b);
  }

  /** Encoded replies sent in a row come back one by one, however the bytes are cut up. */
  lemma StreamRoundTrip(replies: seq<Reply>, chunks: seq<Bytes>)
    requires AllEncodable(replies) && MaxDepth(replies) <= MAX_DEPTH
    requires Concat(chunks) == EncodeAll(replies)
    ensures Session(Running([], []), chunks) == Drained(replies, Running([], []))
  {
    ChunkIndependence(Running([], []), chunks);
    assert [] + Concat(chunks) == Concat(chunks);
    DrainAll(replies);
  }

  lemma {:induction false} DrainAll(replies: seq<Reply>)
    requires AllEncodable(replies) && MaxDepth(replies) <= MAX_DEPTH
    ensures Drain(Running([], EncodeAll(replies))) == Drained(replies, Running([], []))
  {
    if replies != [] {
      hide ReadItem, NextReply, Decode;
      var rest := EncodeAll(replies[1..]);
      DecodeEncode(replies[0], rest, 0);
      MachineRefinesDecoder(Encode(replies[0]) + rest);
      DrainAll(replies[1..]);
    }
  }

  // ---------------------------------------------------------------- limits and errors

  function Nest(k: nat): (r: Reply)
    ensures k > 0 ==> r.Arr?
  {
    if k == 0 then Nil else Arr(1, [Nest(k - 1)])
  }

  lemma {:induction false} NestDepth(k: nat)
    ensures Encodable(Nest(k)) && ArrayDepth(Nest(k)) == k
  {
    if k > 0 {
      NestDepth(k - 1);
      assert Nest(k).items[1..] == [];
    }
  }

  /** Eight arrays inside each other are read, nine are not. */
  lemma NestingLimit(k: nat)
    ensures NextReply([], Encode(Nest(k))) == if k <= 8 then Emit(Nest(k), []) else Fail(TooDeep)
  {
    hide Decode, Encode, NextReply;
    NestDepth(k);
    DecodeEncode(Nest(k), [], 0);
    assert Encode(Nest(k)) + [] == Encode(Nest(k));
    MachineRefinesDecoder(Encode(Nest(k)));
  }

  /** A reply starts with one of five bytes. */
  lemma OtherBytesAreRefused(c: char, rest: Bytes)
    ensures c !in "+-:$*" ==> NextReply([], [c] + rest) == Fail(BadType(c))
    ensures NextReply([], []).Wait?
  {
    if c !in "+-:$*" {
      assert "+-:$*"[0] == '+' && "+-:$*"[1] == '-' && "+-:$*"[2] == ':' && "+-:$*"[3] == '$' && "+-:$*"[4] == '*';
      assert ([c] + rest)[0] == c;
      assert ReadItem([c] + rest, 0) == Bad(BadType(c));
    }
  }

  /** The two ways to say that there is nothing, and the empty array. */
  lemma NothingIsRead(tail: Bytes)
    ensures Decode("*-1\r\n" + tail, 0) == Done(Nil, tail) && Decode("$-1\r\n" + tail, 0) == Done(Nil, tail)
    ensures Decode("*0\r\n" + tail, 0) == Done(Arr(0, []), tail)
  {
    hide FindCrlf, ReadLongLong;
    assert SignedDecimal(-1) == "-1" && SignedDecimal(0) == "0";
    assert Line('*', "-1") == "*-1\r\n" && Line('$', "-1") == "$-1\r\n" && Line('*', "0") == "*0\r\n";
    HeaderIsRead('*', -1, tail);
    HeaderIsRead('$', -1, tail);
    HeaderIsRead('*', 0, tail);
  }

  lemma MagnitudeIsRead(line: Bytes, start: nat, n: nat)
    requires start == SignLength(line) && line[start..] == ToDecimal(n)
    ensures Accumulate(line, start, 0) == Number(Wrap64(n))
  {
    AccumulateDigits(line, start, start);
    assert line[start..start] == [];
    DecimalRoundTrip(n);
  }

  /** Numbers of any size, with or without a sign, are taken modulo two to the sixty-fourth. */
  lemma NumbersWrap(n: int)
    requires n >= 0
    ensures ReadLongLong(ToDecimal(n)) == Wrap64(n) && ReadLongLong("+" + ToDecimal(n)) == Wrap64(n)
    ensures ReadLongLong("-" + ToDecimal(n)) == Wrap64(-n)
    ensures (n - Wrap64(n)) % TWO_TO_THE_64 == 0 && (-n - Wrap64(-n)) % TWO_TO_THE_64 == 0
  {
    var digits := ToDecimal(n);
    assert IsDigit(digits[0]) && digits[0..] == digits;
    assert ("+" + digits)[1..] == digits && ("-" + digits)[1..] == digits;
    hide ToDecimal, Accumulate;
    MagnitudeIsRead(digits, 0, n);
    MagnitudeIsRead("+" + digits, 1, n);
    MagnitudeIsRead("-" + digits, 1, n);
    WrapStep(n, 0);
    WrapIs(n);
    WrapIs(-n);
  }

  lemma WrapIs(n: int)
    ensures (n - Wrap64(n)) % TWO_TO_THE_64 == 0
  {
    var k := (n + TWO_TO_THE_63) / TWO_TO_THE_64;
    assert n - Wrap64(n) == k * TWO_TO_THE_64;
    ModShift(0, k);
  }

  /** A byte that is no digit behind the sign makes the number -1. */
  lemma NoNumberIsMinusOne(sign: Bytes, digits: Bytes, c: char, rest: Bytes)
    requires sign in {"", "+", "-"} && AllDigits(digits) && !IsDigit(c) && c != '\r'
    requires sign == "" && digits == "" ==> c != '+' && c != '-'
    ensures ReadLongLong(sign + digits + [c] + rest) == -1
  {
    var line := sign + digits + [c] + rest;
    assert line[|sign|..|sign| + |digits|] == digits && line[|sign| + |digits|] == c;
    assert SignLength(line) == |sign| by {
      if digits != "" { assert line[|sign|] == digits[0]; }
    }
    StopsAtByte(line, |sign|, |sign| + |digits|, 0);
  }

  lemma {:induction false} StopsAtByte(line: Bytes, i: nat, e: nat, v: int)
    requires i <= e < |line| && AllDigits(line[i..e]) && !IsDigit(line[e]) && line[e] != '\r'
    ensures Accumulate(line, i, v) == NoNumber
    decreases e - i
  {
    if i < e {
      assert line[i] == line[i..e][0] && line[i + 1..e] == line[i..e][1..];
      StopsAtByte(line, i + 1, e, Wrap64(10 * v + DigitValue(line[i])));
    }
  }
}
