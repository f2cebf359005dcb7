/** The Redis reply protocol: a recursive decoder, and the reader's stack machine. */
module Resp {
  import opened Decimal

  type Bytes = string

  const CRLF: Bytes := "\r\n"
  /** Nine stack slots: an array header met at this depth is refused. */
  const MAX_DEPTH: nat := 8

  const TWO_TO_THE_31: int := 0x8000_0000
  const TWO_TO_THE_32: int := 0x1_0000_0000
  const TWO_TO_THE_63: int := 0x8000_0000_0000_0000
  const TWO_TO_THE_64: int := 0x1_0000_0000_0000_0000

  /** Two's complement wrap-around of `long long`. */
  function Wrap64(n: int): (r: int)
    ensures -TWO_TO_THE_63 <= r < TWO_TO_THE_63
    ensures -TWO_TO_THE_63 <= n < TWO_TO_THE_63 ==> r == n
  {
    (n + TWO_TO_THE_63) % TWO_TO_THE_64 - TWO_TO_THE_63
  }

  /** Storing a `long` in an `int`. */
  function Narrow32(n: int): (r: int)
    ensures -TWO_TO_THE_31 <= r < TWO_TO_THE_31
    ensures -TWO_TO_THE_31 <= n < TWO_TO_THE_31 ==> r == n
  {
    (n + TWO_TO_THE_31) % TWO_TO_THE_32 - TWO_TO_THE_31
  }

  lemma WrapStep(n: int, d: int)
    ensures Wrap64(10 * Wrap64(n) + d) == Wrap64(10 * n + d)
    ensures Wrap64(-Wrap64(n)) == Wrap64(-n)
  {
    var k := (n + TWO_TO_THE_63) / TWO_TO_THE_64;
    assert Wrap64(n) == n - k * TWO_TO_THE_64;
    ModShift(10 * n + d + TWO_TO_THE_63, -10 * k);
    ModShift(-n + TWO_TO_THE_63, k);
  }

  lemma ModShift(a: int, k: int)
    ensures (a + k * TWO_TO_THE_64) % TWO_TO_THE_64 == a % TWO_TO_THE_64
  {
    var q := a / TWO_TO_THE_64;
    var r := a % TWO_TO_THE_64;
    assert a + k * TWO_TO_THE_64 == (q + k) * TWO_TO_THE_64 + r;
  }

  /** A reply tree. An array remembers the element count it was created with; `items` are the
      elements that were filled in. */
  datatype Reply =
    | Str(text: Bytes)
    | Status(text: Bytes)
    | Err(text: Bytes)
    | Int(value: int)
    | Nil
    | Arr(elements: int, items: seq<Reply>)

  /** CountTooLarge is not reported by the C code: a positive count whose `int` value is not positive
      leads into the assert of moveToNextTask, so the model stops at the header. */
  datatype Error = BadType(c: char) | TooDeep | CountTooLarge

  // ---------------------------------------------------------------- lines and numbers

  predicate IsCrlf(s: Bytes, i: int) {
    0 <= i && i + 1 < |s| && s[i] == '\r' && s[i + 1] == '\n'
  }

  /** The first CR LF at or after `from`, or -1. */
  function FindCrlf(s: Bytes, from: nat): (r: int)
    ensures r == -1 || from <= r < |s| - 1
    decreases |s| - from
  {
    if from + 1 >= |s| then -1
    else if IsCrlf(s, from) then from
    else FindCrlf(s, from + 1)
  }

  lemma {:induction false} FindCrlfFindsFirst(s: Bytes, from: nat)
    ensures FindCrlf(s, from) == -1 ==> forall i :: from <= i ==> !IsCrlf(s, i)
    ensures FindCrlf(s, from) != -1 ==> IsCrlf(s, FindCrlf(s, from))
    ensures forall i :: from <= i < FindCrlf(s, from) ==> !IsCrlf(s, i)
    decreases |s| - from
  {
    if from + 1 < |s| && !IsCrlf(s, from) {
      FindCrlfFindsFirst(s, from + 1);
    }
  }

  /** The converse: an occurrence with none before it is the one found. */
  lemma {:induction false} FindCrlfIs(s: Bytes, from: nat, e: nat)
    requires from <= e && IsCrlf(s, e)
    requires forall i :: from <= i < e ==> !IsCrlf(s, i)
    ensures FindCrlf(s, from) == e
    decreases e - from
  {
    if from < e {
      FindCrlfIs(s, from + 1, e);
    }
  }

  function SignLength(line: Bytes): (n: nat)
    ensures n <= |line|
  {
    if line != [] && (line[0] == '-' || line[0] == '+') then 1 else 0
  }

  /** Digits from position i up to the first CR; anything else yields None. */
  datatype Number = NoNumber | Number(value: int)

  function Accumulate(line: Bytes, i: nat, v: int): Number
    requires i <= |line|
    decreases |line| - i
  {
    if i == |line| || line[i] == '\r' then Number(v)
    else if IsDigit(line[i]) then Accumulate(line, i + 1, Wrap64(10 * v + DigitValue(line[i])))
    else NoNumber
  }

  /** readLongLong on a line (without its CR LF): -1 on a non-digit, whatever the sign. */
  function ReadLongLong(line: Bytes): int {
    match Accumulate(line, SignLength(line), 0)
    case NoNumber => -1
    case Number(v) => if line != [] && line[0] == '-' then Wrap64(-v) else v
  }

  // ---------------------------------------------------------------- one item

  datatype Item = Leaf(reply: Reply) | Open(count: int)

  datatype ItemResult = Got(item: Item, size: nat) | More | Bad(error: Error)

  predicate IsTypeByte(c: char) {
    c == '-' || c == '+' || c == ':' || c == '$' || c == '*'
  }

  /** What the bytes at the head of the input denote for a task at the given stack depth. */
  function ReadItem(input: Bytes, depth: nat): (r: ItemResult)
    ensures r.Got? ==> 0 < r.size <= |input|
    ensures r.Got? && r.item.Open? ==> r.item.count > 0 && depth != MAX_DEPTH
  {
    if input == [] then More else
      var c := input[0];
      if !IsTypeByte(c) then Bad(BadType(c))
      else if c == '*' && depth == MAX_DEPTH then Bad(TooDeep)
      else
        var end := FindCrlf(input, 1);
        if end == -1 then More else
          var line := input[1..end];
          if c == '$' then BulkItem(ReadLongLong(line), input, end + 2)
          else if c == '*' then CountItem(ReadLongLong(line), end + 2)
          else Got(Leaf(LineReply(c, line)), end + 2)
  }

  function LineReply(c: char, line: Bytes): Reply {
    if c == '-' then Err(line) else if c == '+' then Status(line) else Int(ReadLongLong(line))
  }

  /** A bulk string of the announced length whose text starts at `start`; two more bytes are skipped. */
  function BulkItem(len: int, input: Bytes, start: nat): ItemResult
    requires start <= |input|
  {
    if len < 0 then Got(Leaf(Nil), start)
    else if start + len + 2 <= |input| then Got(Leaf(Str(input[start..start + len])), start + len + 2)
    else More
  }

  function CountItem(count: int, size: nat): ItemResult {
    if count == -1 then Got(Leaf(Nil), size)
    else if count <= 0 then Got(Leaf(Arr(Narrow32(count), [])), size)
    else if Narrow32(count) <= 0 then Bad(CountTooLarge)
    else Got(Open(Narrow32(count)), size)
  }

  lemma FindCrlfExtends(a: Bytes, b: Bytes, from: nat)
    requires FindCrlf(a, from) != -1
    ensures FindCrlf(a + b, from) == FindCrlf(a, from)
  {
    FindCrlfFindsFirst(a, from);
    var e := FindCrlf(a, from);
    forall i | from <= i < e ensures !IsCrlf(a + b, i) {
      assert !IsCrlf(a, i);
    }
    FindCrlfIs(a + b, from, e);
  }

  /** A verdict on a prefix stands, whatever follows. */
  lemma ReadItemExtends(a: Bytes, b: Bytes, depth: nat)
    requires !ReadItem(a, depth).More?
    ensures ReadItem(a + b, depth) == ReadItem(a, depth)
  {
    if FindCrlf(a, 1) != -1 {
      FindCrlfExtends(a, b, 1);
      var end := FindCrlf(a, 1);
      assert (a + b)[1..end] == a[1..end];
      var len := ReadLongLong(a[1..end]);
      if len >= 0 && end + 2 + len + 2 <= |a| {
        assert (a + b)[end + 2..end + 2 + len] == a[end + 2..end + 2 + len];
      }
    }
  }

  // ---------------------------------------------------------------- the stack machine

  /** An array being filled. */
  datatype Frame = Frame(count: int, items: seq<Reply>)

  type Stack = seq<Frame>

  ghost predicate ValidStack(stack: Stack) {
    |stack| <= MAX_DEPTH && forall i :: 0 <= i < |stack| ==> |stack[i].items| < stack[i].count
  }

  datatype Delivered = Finished(reply: Reply) | Unfinished(stack: Stack)

  /** Hands a finished reply to the innermost array, closing every array it completes. */
  function Deliver(stack: Stack, r: Reply): (d: Delivered)
    ensures ValidStack(stack) && d.Unfinished? ==> ValidStack(d.stack) && 0 < |d.stack|
    decreases |stack|
  {
    if stack == [] then Finished(r) else
      var outer := stack[..|stack| - 1];
      var top := stack[|stack| - 1];
      var items := top.items + [r];
      if |items| == top.count then Deliver(outer, Arr(top.count, items))
      else Unfinished(outer + [Frame(top.count, items)])
  }

  /** What one item does to the stack. */
  datatype Step =
    | Stuck
    | Broke(error: Error)
    | Completed(reply: Reply, rest: Bytes)
    | Advanced(stack: Stack, rest: Bytes)

  function StepItem(stack: Stack, input: Bytes): (s: Step)
    requires ValidStack(stack)
    ensures s.Completed? ==> |s.rest| < |input|
    ensures s.Advanced? ==> ValidStack(s.stack) && |s.rest| < |input|
  {
    match ReadItem(input, |stack|)
    case More => Stuck
    case Bad(e) => Broke(e)
    case Got(item, n) => ApplyItem(stack, item, input[n..])
  }

  function ApplyItem(stack: Stack, item: Item, rest: Bytes): (s: Step)
    requires ValidStack(stack) && (item.Open? ==> item.count > 0 && |stack| < MAX_DEPTH)
    ensures s.Advanced? ==> ValidStack(s.stack)
    ensures (s.Advanced? || s.Completed?) && s.rest == rest
  {
    match item
    case Open(count) => Advanced(stack + [Frame(count, [])], rest)
    case Leaf(r) =>
      match Deliver(stack, r)
      case Finished(reply) => Completed(reply, rest)
      case Unfinished(next) => Advanced(next, rest)
  }

  /** The outcome of asking for one reply. */
  datatype Outcome =
    | Emit(reply: Reply, rest: Bytes)
    | Wait(stack: Stack, rest: Bytes)
    | Fail(error: Error)

  function NextReply(stack: Stack, input: Bytes): (o: Outcome)
    requires ValidStack(stack)
    ensures o.Emit? ==> |o.rest| < |input|
    ensures o.Wait? ==> |o.rest| <= |input| && ValidStack(o.stack)
    decreases |input|
  {
    match StepItem(stack, input)
    case Stuck => Wait(stack, input)
    case Broke(e) => Fail(e)
    case Completed(reply, rest) => Emit(reply, rest)
    case Advanced(next, rest) => NextReply(next, rest)
  }

  // ---------------------------------------------------------------- the recursive decoder

  datatype Decoded = Done(reply: Reply, rest: Bytes) | Partial | Refused(error: Error)

  datatype DecodedItems = DoneItems(items: seq<Reply>, rest: Bytes) | PartialItems | RefusedItems(error: Error)

  /** The reference: one reply tree read by recursion on its nesting. */
  function Decode(input: Bytes, depth: nat): (d: Decoded)
    requires depth <= MAX_DEPTH
    ensures d.Done? ==> |d.rest| < |input|
    decreases |input|, 0
  {
    match ReadItem(input, depth)
    case More => Partial
    case Bad(e) => Refused(e)
    case Got(Leaf(r), n) => Done(r, input[n..])
    case Got(Open(count), n) =>
      match DecodeItems(count, input[n..], depth + 1)
      case PartialItems => Partial
      case RefusedItems(e) => Refused(e)
      case DoneItems(items, rest) => Done(Arr(count, items), rest)
  }

  /** k replies in a row. */
  function DecodeItems(k: nat, input: Bytes, depth: nat): (d: DecodedItems)
    requires depth <= MAX_DEPTH
    ensures d.DoneItems? ==> |d.rest| <= |input| && |d.items| == k
    decreases |input|, 1
  {
    if k == 0 then DoneItems([], input) else
      match Decode(input, depth)
      case Partial => PartialItems
      case Refused(e) => RefusedItems(e)
      case Done(r, rest) =>
        match DecodeItems(k - 1, rest, depth)
        case PartialItems => PartialItems
        case RefusedItems(e) => RefusedItems(e)
        case DoneItems(items, rest') => DoneItems([r] + items, rest')
  }

  // ---------------------------------------------------------------- machine against decoder

  /** What the machine does next once the reply it is working on is complete. */
  ghost function Resume(stack: Stack, r: Reply, rest: Bytes): Outcome
    requires ValidStack(stack)
  {
    match Deliver(stack, r)
    case Finished(reply) => Emit(reply, rest)
    case Unfinished(next) => NextReply(next, rest)
  }

  lemma {:induction false} MachineFollowsDecode(stack: Stack, input: Bytes)
    requires ValidStack(stack)
    ensures match Decode(input, |stack|)
            case Done(r, rest) => NextReply(stack, input) == Resume(stack, r, rest)
            case Partial => NextReply(stack, input).Wait?
            case Refused(e) => NextReply(stack, input) == Fail(e)
    decreases |input|, 0
  {
    hide ReadItem;
    match ReadItem(input, |stack|)
    case More =>
    case Bad(_) =>
    case Got(Leaf(_), _) =>
    case Got(Open(count), n) =>
      MachineFollowsItems(stack, count, [], input[n..]);
      match DecodeItems(count, input[n..], |stack| + 1)
      case DoneItems(items, _) => assert [] + items == items;
      case _ =>
  }

  lemma {:induction false} MachineFollowsItems(stack: Stack, count: int, got: seq<Reply>, input: Bytes)
    requires ValidStack(stack) && |stack| < MAX_DEPTH && |got| < count
    ensures var inner := stack + [Frame(count, got)];
            match DecodeItems(count - |got|, input, |stack| + 1)
            case DoneItems(items, rest) => NextReply(inner, input) == Resume(stack, Arr(count, got + items), rest)
            case PartialItems => NextReply(inner, input).Wait?
            case RefusedItems(e) => NextReply(inner, input) == Fail(e)
    decreases |input|, 1
  {
    hide ReadItem, StepItem;
    var inner := stack + [Frame(count, got)];
    MachineFollowsDecode(inner, input);
    match Decode(input, |stack| + 1)
    case Partial =>
    case Refused(_) =>
    case Done(r, rest) =>
      assert inner[..|stack|] == stack;
      if |got| + 1 == count {
        assert got + ([r] + []) == got + [r];
        assert DecodeItems(0, rest, |stack| + 1) == DoneItems([], rest);
      } else {
        MachineFollowsItems(stack, count, got + [r], rest);
        match DecodeItems(count - |got| - 1, rest, |stack| + 1)
        case DoneItems(items, _) => assert (got + [r]) + items == got + ([r] + items);
        case _ =>
      }
  }

  /** The explicit stack computes exactly the recursive decoder. */
  lemma MachineRefinesDecoder(input: Bytes)
    ensures match Decode(input, 0)
            case Done(r, rest) => NextReply([], input) == Emit(r, rest)
            case Partial => NextReply([], input).Wait?
            case Refused(e) => NextReply([], input) == Fail(e)
  {
    MachineFollowsDecode([], input);
  }

  // ---------------------------------------------------------------- chunk independence

  lemma {:induction false} NextReplyExtends(stack: Stack, a: Bytes, b: Bytes)
    requires ValidStack(stack)
    ensures match NextReply(stack, a)
            case Emit(r, rest) => NextReply(stack, a + b) == Emit(r, rest + b)
            case Wait(next, rest) => NextReply(stack, a + b) == NextReply(next, rest + b)
            case Fail(e) => NextReply(stack, a + b) == Fail(e)
    decreases |a|
  {
    match ReadItem(a, |stack|)
    case More =>
    case Bad(_) => ReadItemExtends(a, b, |stack|);
    case Got(item, n) =>
      ReadItemExtends(a, b, |stack|);
      assert (a + b)[n..] == a[n..] + b;
      match item
      case Open(count) => NextReplyExtends(stack + [Frame(count, [])], a[n..], b);
      case Leaf(r) =>
        match Deliver(stack, r)
        case Finished(_) =>
        case Unfinished(next) => NextReplyExtends(next, a[n..], b);
  }

  /** The reader between two calls. */
  datatype State = Running(stack: Stack, pending: Bytes) | Broken(error: Error)

  ghost predicate ValidState(s: State) {
    s.Running? ==> ValidStack(s.stack)
  }

  datatype Drained = Drained(replies: seq<Reply>, state: State)

  /** Asking for replies until there is none or an error. */
  function Drain(s: State): (d: Drained)
    requires ValidState(s)
    ensures ValidState(d.state)
    decreases if s.Running? then |s.pending| else 0
  {
    if s.Broken? then Drained([], s) else
      match NextReply(s.stack, s.pending)
      case Wait(stack, rest) => Drained([], Running(stack, rest))
      case Fail(e) => Drained([], Broken(e))
      case Emit(r, rest) =>
        var d := Drain(Running([], rest));
        Drained([r] + d.replies, d.state)
  }

  /** Feeding bytes: ignored after an error. */
  function Feed(s: State, chunk: Bytes): State {
    if s.Broken? then s else Running(s.stack, s.pending + chunk)
  }

  /** Feeding the chunks one after the other, draining after each. */
  function Session(s: State, chunks: seq<Bytes>): (d: Drained)
    requires ValidState(s)
    ensures ValidState(d.state)
    decreases |chunks|
  {
    if chunks == [] then Drained([], s) else
      var first := Drain(Feed(s, chunks[0]));
      var later := Session(first.state, chunks[1..]);
      Drained(first.replies + later.replies, later.state)
  }

  function Concat(chunks: seq<Bytes>): Bytes {
    if chunks == [] then [] else chunks[0] + Concat(chunks[1..])
  }

  /** Draining, feeding and draining again is feeding first and draining once. */
  lemma {:induction false} DrainThenFeed(s: State, b: Bytes)
    requires ValidState(s)
    ensures Drain(Feed(s, b)) ==
            var early := Drain(s);
            var late := Drain(Feed(early.state, b));
            Drained(early.replies + late.replies, late.state)
    decreases if s.Running? then |s.pending| else 0
  {
    hide NextReply;
    if s.Running? {
      NextReplyExtends(s.stack, s.pending, b);
      match NextReply(s.stack, s.pending)
      case Wait(_, _) =>
      case Fail(_) =>
      case Emit(r, rest) =>
        DrainThenFeed(Running([], rest), b);
        var early := Drain(Running([], rest));
        var late := Drain(Feed(early.state, b));
        assert [r] + (early.replies + late.replies) == ([r] + early.replies) + late.replies;
    }
  }

  /** However a byte stream is cut up, the replies and the final state are those of one feed. */
  lemma {:induction false} ChunkIndependence(s: State, chunks: seq<Bytes>)
    requires ValidState(s) && Drain(s) == Drained([], s)
    ensures Session(s, chunks) == Drain(Feed(s, Concat(chunks)))
    decreases |chunks|
  {
    hide Drain;
    if chunks == [] {
      if s.Running? { assert s.pending + [] == s.pending; }
    } else {
      var fed := Feed(s, chunks[0]);
      var first := Drain(fed);
      DrainIsStable(fed);
      ChunkIndependence(first.state, chunks[1..]);
      DrainThenFeed(fed, Concat(chunks[1..]));
      if s.Running? {
        assert s.pending + (chunks[0] + Concat(chunks[1..])) == s.pending + chunks[0] + Concat(chunks[1..]);
      }
    }
  }

  /** A drained reader has no reply left. */
  lemma {:induction false} DrainIsStable(s: State)
    requires ValidState(s)
    ensures Drain(Drain(s).state) == Drained([], Drain(s).state)
    decreases if s.Running? then |s.pending| else 0
  {
    hide NextReply;
    if s.Running? {
      NextReplyExtends(s.stack, s.pending, []);
      assert s.pending + [] == s.pending;
      match NextReply(s.stack, s.pending)
      case Wait(_, rest) => assert rest + [] == rest;
      case Fail(_) =>
      case Emit(_, rest) => DrainIsStable(Running([], rest));
    }
  }
}
