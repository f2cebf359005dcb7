/** The resumable reader as it runs: a byte buffer with a read position, a nine-slot task stack, and
    the loop that drives them. Each method is proved against the stack machine of module Resp. */
module Reader {
  import opened Basics
  import opened Decimal
  import opened Resp

  datatype ReplyStatus = OK | ERR

  datatype TaskType = Unread | ErrorTask | StatusTask | IntegerTask | StringTask | ArrayTask

  /** redisReadTask. `items` holds the elements an array task has received; the C code reaches the
      same reply objects through task pointers. */
  datatype Task = Task(kind: TaskType, elements: int, idx: int, items: seq<Reply>)

  function TypeByte(kind: TaskType): Bytes {
    match kind
    case Unread => ""
    case ErrorTask => "-"
    case StatusTask => "+"
    case IntegerTask => ":"
    case StringTask => "$"
    case ArrayTask => "*"
  }

  /** The slots below the current task are arrays being filled, and the index of each task is the
      number of elements its parent already has. */
  ghost predicate TasksOk(tasks: seq<Task>, ridx: int) {
    && |tasks| == MAX_DEPTH + 1
    && -1 <= ridx <= MAX_DEPTH
    && (forall i :: 0 <= i < ridx ==> tasks[i].kind == ArrayTask && |tasks[i].items| < tasks[i].elements)
    && (forall i :: 0 < i <= ridx ==> tasks[i].idx == |tasks[i - 1].items|)
  }

  ghost function FramesOf(tasks: seq<Task>, ridx: int): (stack: Stack)
    requires TasksOk(tasks, ridx)
    ensures ValidStack(stack) && |stack| == if ridx < 0 then 0 else ridx
  {
    seq(if ridx < 0 then 0 else ridx, i requires 0 <= i < ridx => Frame(tasks[i].elements, tasks[i].items))
  }

  /** One turn of moveToNextTask, on the stack alone. */
  lemma DeliverToTasks(tasks: seq<Task>, ridx: int, r: Reply)
    requires TasksOk(tasks, ridx) && ridx > 0
    ensures var prv := tasks[ridx - 1];
            var items := prv.items + [r];
            if |items| == prv.elements then
              Deliver(FramesOf(tasks, ridx), r) == Deliver(FramesOf(tasks, ridx - 1), Arr(prv.elements, items))
            else
              var next := tasks[ridx - 1 := prv.(items := items)][ridx := NextTask(tasks[ridx])];
              TasksOk(next, ridx) && Deliver(FramesOf(tasks, ridx), r) == Unfinished(FramesOf(next, ridx))
  {
    var stack := FramesOf(tasks, ridx);
    var prv := tasks[ridx - 1];
    var items := prv.items + [r];
    assert stack[..ridx - 1] == FramesOf(tasks, ridx - 1);
    if |items| != prv.elements {
      var next := tasks[ridx - 1 := prv.(items := items)][ridx := NextTask(tasks[ridx])];
      FramesAfterItem(tasks, ridx, prv.(items := items));
      assert Deliver(stack, r) == Unfinished(FramesOf(next, ridx)) by {
        hide FramesOf, TasksOk;
      }
    }
  }

  function NextTask(cur: Task): Task {
    Task(Unread, -1, cur.idx + 1, cur.items)
  }

  lemma FramesAfterItem(tasks: seq<Task>, ridx: int, parent: Task)
    requires TasksOk(tasks, ridx) && ridx > 0
    requires parent.kind == ArrayTask && parent.idx == tasks[ridx - 1].idx
    requires |parent.items| == tasks[ridx].idx + 1 && |parent.items| < parent.elements
    ensures var next := tasks[ridx - 1 := parent][ridx := NextTask(tasks[ridx])];
            TasksOk(next, ridx)
            && FramesOf(next, ridx) == FramesOf(tasks, ridx)[..ridx - 1] + [Frame(parent.elements, parent.items)]
  {
  }

  lemma FramesIgnoreKind(tasks: seq<Task>, ridx: int, kind: TaskType)
    requires TasksOk(tasks, ridx) && ridx >= 0
    ensures var next := tasks[ridx := tasks[ridx].(kind := kind)];
            TasksOk(next, ridx) && FramesOf(next, ridx) == FramesOf(tasks, ridx)
  {
  }

  /** The header of an array: its task is filled in, and a task for its first element put on top. */
  lemma OneMoreFrame(tasks: seq<Task>, ridx: int, count: int)
    requires TasksOk(tasks, ridx) && 0 <= ridx < MAX_DEPTH && tasks[ridx].kind == ArrayTask && count > 0
    ensures var header := tasks[ridx].(elements := count, items := []);
            var next := tasks[ridx := header][ridx + 1 := Task(Unread, -1, 0, [])];
            TasksOk(next, ridx + 1) && FramesOf(next, ridx + 1) == FramesOf(tasks, ridx) + [Frame(count, [])]
  {
  }

  lemma ShortInputWaits(stack: Stack, kind: TaskType)
    requires ValidStack(stack) && (kind == ArrayTask ==> |stack| < MAX_DEPTH)
    ensures NextReply(stack, TypeByte(kind)) == Wait(stack, TypeByte(kind))
  {
    ShortInputIsPartial(kind, |stack|);
    hide ReadItem, TypeByte, ApplyItem;
  }

  lemma ShortInputIsPartial(kind: TaskType, depth: nat)
    requires kind == ArrayTask ==> depth < MAX_DEPTH
    ensures ReadItem(TypeByte(kind), depth) == More
  {
    hide ReadLongLong, LineReply, BulkItem, CountItem;
  }

  /** The switch on the type byte. */
  function TypeOf(c: char): (kind: TaskType)
    ensures kind == Unread <==> !IsTypeByte(c)
    ensures kind != Unread ==> TypeByte(kind) == [c]
  {
    match c
    case '-' => ErrorTask
    case '+' => StatusTask
    case ':' => IntegerTask
    case '$' => StringTask
    case '*' => ArrayTask
    case _ => Unread
  }

  lemma DeliverToRoot(r: Reply)
    ensures Deliver([], r) == Finished(r)
  {
  }

  /** An item whose type byte was consumed earlier reads like one that starts with it. */
  lemma {:induction false} FindCrlfShift(c: char, s: Bytes, from: nat)
    ensures FindCrlf([c] + s, from + 1) == if FindCrlf(s, from) == -1 then -1 else FindCrlf(s, from) + 1
    decreases |s| - from
  {
    if from + 1 < |s| && !IsCrlf(s, from) {
      FindCrlfShift(c, s, from + 1);
    }
  }

  /** A typed item read from the bytes after its type byte. */
  lemma AfterType(kind: TaskType, rest: Bytes, depth: nat)
    requires kind != Unread && (kind == ArrayTask ==> depth < MAX_DEPTH)
    ensures var end := FindCrlf(rest, 0);
            var input := TypeByte(kind) + rest;
            ReadItem(input, depth) ==
            if end == -1 then More
            else if kind == StringTask then BulkItem(ReadLongLong(rest[..end]), input, end + 3)
            else if kind == ArrayTask then CountItem(ReadLongLong(rest[..end]), end + 3)
            else Got(Leaf(LineReply(TypeByte(kind)[0], rest[..end])), end + 3)
  {
    hide ReadLongLong, FindCrlf, BulkItem, CountItem, LineReply;
    FindCrlfShift(TypeByte(kind)[0], rest, 0);
    var end := FindCrlf(rest, 0);
    if end != -1 {
      assert (TypeByte(kind) + rest)[1..end + 1] == rest[..end];
    }
  }

  lemma BulkAfterType(len: int, rest: Bytes, start: nat)
    requires start <= |rest|
    ensures BulkItem(len, "$" + rest, start + 1) ==
            if len < 0 then Got(Leaf(Nil), start + 1)
            else if start + len + 2 <= |rest| then Got(Leaf(Str(rest[start..start + len])), start + len + 3)
            else More
  {
    if 0 <= len && start + len + 2 <= |rest| {
      assert ("$" + rest)[start + 1..start + 1 + len] == rest[start..start + len];
    }
  }

  /** The step taken when the item at hand has been recognised. */
  lemma StepAfterType(stack: Stack, kind: TaskType, rest: Bytes, item: Item, n: nat)
    requires ValidStack(stack) && kind != Unread && n <= |rest|
    requires ReadItem(TypeByte(kind) + rest, |stack|) == Got(item, n + 1)
    ensures item.Open? ==> item.count > 0 && |stack| < MAX_DEPTH
    ensures StepItem(stack, TypeByte(kind) + rest) == ApplyItem(stack, item, rest[n..])
  {
    hide ReadItem;
    assert (TypeByte(kind) + rest)[n + 1..] == rest[n..];
  }

  lemma StuckAfterType(stack: Stack, input: Bytes)
    requires ValidStack(stack) && ReadItem(input, |stack|) == More
    ensures StepItem(stack, input) == Stuck
  {
  }

  /** What a bulk string does to the stack, from the bytes after its type byte. */
  lemma StepBulk(stack: Stack, rest: Bytes, len: int, start: nat)
    requires ValidStack(stack) && start <= |rest|
    requires ReadItem("$" + rest, |stack|) == BulkItem(len, "$" + rest, start + 1)
    ensures StepItem(stack, "$" + rest) ==
            if len < 0 then ApplyItem(stack, Leaf(Nil), rest[start..])
            else if start + len + 2 <= |rest| then
              ApplyItem(stack, Leaf(Str(rest[start..start + len])), rest[start + len + 2..])
            else Stuck
  {
    hide ReadItem, StepItem, ApplyItem, BulkItem;
    BulkAfterType(len, rest, start);
    if len < 0 {
      StepAfterType(stack, StringTask, rest, Leaf(Nil), start);
    } else if start + len + 2 <= |rest| {
      StepAfterType(stack, StringTask, rest, Leaf(Str(rest[start..start + len])), start + len + 2);
    } else {
      StuckAfterType(stack, "$" + rest);
    }
  }

  /** What an array header does to the stack, from the bytes after its type byte. */
  lemma StepCount(stack: Stack, rest: Bytes, count: int, size: nat)
    requires ValidStack(stack) && |stack| < MAX_DEPTH && size <= |rest|
    requires ReadItem("*" + rest, |stack|) == CountItem(count, size + 1)
    ensures StepItem(stack, "*" + rest) ==
            if count == -1 then ApplyItem(stack, Leaf(Nil), rest[size..])
            else if count <= 0 then ApplyItem(stack, Leaf(Arr(Narrow32(count), [])), rest[size..])
            else if Narrow32(count) <= 0 then Broke(CountTooLarge)
            else ApplyItem(stack, Open(Narrow32(count)), rest[size..])
  {
    hide ReadItem, ApplyItem, Narrow32;
    assert ("*" + rest)[size + 1..] == rest[size..];
  }

  lemma NoTypeYet(stack: Stack)
    requires ValidStack(stack)
    ensures StepItem(stack, []) == Stuck
  {
  }

  lemma BadTypeBreaks(stack: Stack, input: Bytes)
    requires ValidStack(stack) && input != [] && !IsTypeByte(input[0])
    ensures StepItem(stack, input) == Broke(BadType(input[0]))
  {
  }

  method SeekNewline(s: Bytes) returns (r: int)
    ensures r == FindCrlf(s, 0)
    ensures r != -1 ==> 0 <= r && r + 1 < |s| && s[r] == '\r' && s[r + 1] == '\n'
  {
    var pos := 0;
    var last := |s| - 1;
    while pos < last
      invariant 0 <= pos && (pos <= last || pos == 0)
      invariant FindCrlf(s, 0) == FindCrlf(s, pos)
      decreases last - pos
    {
      while pos < last && s[pos] != '\r'
        invariant 0 <= pos <= last
        invariant FindCrlf(s, 0) == FindCrlf(s, pos)
      {
        pos := pos + 1;
      }
      if pos == last { return -1; }
      if s[pos + 1] == '\n' { return pos; }
      pos := pos + 1;
    }
    return -1;
  }

  method ParseLongLong(s: Bytes, ghost end: nat) returns (r: int)
    requires end < |s| && s[end] == '\r'
    ensures r == ReadLongLong(s[..end])
  {
    ghost var line := s[..end];
    var v, mult, i := 0, 1, 0;
    if s[0] == '-' {
      mult, i := -1, 1;
    } else if s[0] == '+' {
      i := 1;
    }
    while s[i] != '\r'
      invariant SignLength(line) <= i <= end
      invariant Accumulate(line, SignLength(line), 0) == Accumulate(line, i, v)
      invariant Wrap64(v) == v
      decreases end - i
    {
      if !IsDigit(s[i]) { return -1; }
      v := Wrap64(10 * v + DigitValue(s[i]));
      i := i + 1;
    }
    return Wrap64(mult * v);
  }

  method CreateLineObject(kind: TaskType, s: Bytes, end: nat) returns (obj: Reply)
    requires kind in {ErrorTask, StatusTask, IntegerTask}
    requires end < |s| && s[end] == '\r'
    ensures obj == LineReply(TypeByte(kind)[0], s[..end])
  {
    if kind == IntegerTask {
      var v := ParseLongLong(s, end);
      obj := Int(v);
    } else {
      obj := if kind == StatusTask then Status(s[..end]) else Err(s[..end]);
    }
  }

  class Reader {
    var err: Option<Error>
    var buf: Bytes
    var pos: nat
    var rstack: array<Task>
    var ridx: int
    var reply: Option<Reply>

    ghost predicate StackOk()
      reads this, rstack
      ensures StackOk() ==> rstack.Length == MAX_DEPTH + 1 && -1 <= ridx <= MAX_DEPTH
    {
      TasksOk(rstack[..], ridx)
    }

    ghost predicate Valid()
      reads this, rstack
    {
      && StackOk()
      && pos <= |buf|
      && (err.Some? ==> ridx == -1 && buf == [] && reply == None)
      && (ridx >= 0 ==> reply == None)
      && (ridx == MAX_DEPTH ==> rstack[ridx].kind != ArrayTask)
    }

    ghost function Frames(): Stack
      requires StackOk()
      reads this, rstack
    {
      FramesOf(rstack[..], ridx)
    }

    /** The unread bytes, with the type byte of the current task if it was already consumed. */
    ghost function Pending(): Bytes
      requires StackOk() && pos <= |buf|
      reads this, rstack
    {
      if ridx < 0 then buf[pos..] else TypeByte(rstack[ridx].kind) + buf[pos..]
    }

    ghost function State(): (s: State)
      requires Valid()
      reads this, rstack
      ensures ValidState(s)
    {
      if err.Some? then Broken(err.value) else Running(Frames(), Pending())
    }

    constructor ()
      ensures Valid() && fresh(rstack) && reply == None
      ensures State() == Running([], [])
    {
      err, buf, pos, ridx, reply := None, [], 0, -1, None;
      rstack := new Task[MAX_DEPTH + 1](_ => Task(Unread, -1, -1, []));
    }

    method SetError(e: Error)
      requires rstack.Length == MAX_DEPTH + 1
      modifies this
      ensures Valid() && rstack == old(rstack) && reply == None
      ensures State() == Broken(e)
    {
      reply := None;
      buf, pos := [], 0;
      ridx := -1;
      err := Some(e);
    }

    /** Stores a finished object in its parent and moves on, closing every array it completes. */
    method MoveToNextTask(obj: Reply)
      requires StackOk() && ridx >= 0 && reply == None
      modifies `ridx, `reply, rstack
      ensures StackOk()
      ensures match Deliver(old(Frames()), obj)
              case Finished(r) => ridx == -1 && reply == Some(r)
              case Unfinished(next) =>
                ridx >= 0 && reply == None && rstack[ridx].kind == Unread && Frames() == next
    {
      hide Deliver, FramesOf;
      var done := obj;
      while true
        invariant StackOk() && 0 <= ridx <= old(ridx) && reply == None
        invariant Deliver(old(Frames()), obj) == Deliver(Frames(), done)
        decreases ridx
      {
        if ridx == 0 {
          DeliverToRoot(done);
          reply := Some(done);
          ridx := -1;
          return;
        }
        ghost var tasks := rstack[..];
        DeliverToTasks(tasks, ridx, done);
        var cur := rstack[ridx];
        var prv := rstack[ridx - 1];
        assert prv.kind == ArrayTask;
        var items := prv.items + [done];
        if cur.idx == prv.elements - 1 {
          ridx := ridx - 1;
          done := Arr(prv.elements, items);
        } else {
          assert cur.idx < prv.elements;
          rstack[ridx - 1] := prv.(items := items);
          rstack[ridx] := NextTask(cur);
          assert rstack[..] == tasks[ridx - 1 := rstack[ridx - 1]][ridx := rstack[ridx]];
          return;
        }
      }
    }

    /** What every item handler promises: it does what StepItem says. */
    twostate predicate FollowsStep(status: ReplyStatus, step: Step)
      reads this, rstack
    {
      && old(StackOk() && pos <= |buf|) && Valid() && rstack == old(rstack)
      && (status == OK <==> step.Completed? || step.Advanced?)
      && (!step.Broke? ==> buf == old(buf) && old(pos) <= pos && err == None)
      && (status == OK ==> old(pos) < pos)
      && match step
         case Stuck => ridx >= 0 && Frames() == old(Frames()) && Pending() == old(Pending())
         case Broke(e) => State() == Broken(e)
         case Completed(r, rest) => ridx == -1 && reply == Some(r) && buf[pos..] == rest
         case Advanced(next, rest) => ridx >= 0 && State() == Running(next, rest)
    }

    /** r->pos += bytes; moveToNextTask(r) */
    method Finish(size: nat, obj: Reply)
      requires Valid() && err == None && ridx >= 0 && 0 < size && pos + size <= |buf|
      modifies `pos, `ridx, `reply, rstack
      ensures FollowsStep(OK, ApplyItem(old(Frames()), Leaf(obj), old(buf[pos + size..])))
    {
      hide Deliver, FramesOf;
      pos := pos + size;
      MoveToNextTask(obj);
    }

    method PushTask(size: nat, count: int)
      requires StackOk() && reply == None && err == None && 0 < size && pos + size <= |buf|
      requires 0 <= ridx < MAX_DEPTH && count > 0 && rstack[ridx].kind == ArrayTask
      modifies `pos, `ridx, rstack
      ensures FollowsStep(OK, ApplyItem(old(Frames()), Open(count), old(buf[pos + size..])))
    {
      hide FramesOf, TasksOk;
      ghost var tasks := rstack[..];
      OneMoreFrame(tasks, ridx, count);
      pos := pos + size;
      rstack[ridx] := rstack[ridx].(elements := count, items := []);
      ridx := ridx + 1;
      rstack[ridx] := Task(Unread, -1, 0, []);
      assert rstack[..] == tasks[ridx - 1 := rstack[ridx - 1]][ridx := rstack[ridx]];
    }

    method ProcessLineItem() returns (status: ReplyStatus)
      requires Valid() && err == None && ridx >= 0
      requires rstack[ridx].kind in {ErrorTask, StatusTask, IntegerTask}
      modifies this, rstack
      ensures FollowsStep(status, StepItem(old(Frames()), old(Pending())))
    {
      hide ReadItem, StepItem, ApplyItem, ReadLongLong, FramesOf, TasksOk, FindCrlf, LineReply, Deliver;
      var kind := rstack[ridx].kind;
      var rest := buf[pos..];
      var end := SeekNewline(rest);
      AfterType(kind, rest, ridx);
      if end == -1 {
        StuckAfterType(Frames(), Pending());
        return ERR;
      }
      var obj := CreateLineObject(kind, rest, end);
      StepAfterType(Frames(), kind, rest, Leaf(obj), end + 2);
      Finish(end + 2, obj);
      status := OK;
    }

    method ProcessBulkItem() returns (status: ReplyStatus)
      requires Valid() && err == None && ridx >= 0 && rstack[ridx].kind == StringTask
      modifies this, rstack
      ensures FollowsStep(status, StepItem(old(Frames()), old(Pending())))
    {
      hide ReadItem, StepItem, ApplyItem, ReadLongLong, FramesOf, TasksOk, FindCrlf, BulkItem, Deliver;
      var rest := buf[pos..];
      ghost var stack := Frames();
      ghost var step := StepItem(stack, "$" + rest);
      var end := SeekNewline(rest);
      AfterType(StringTask, rest, ridx);
      if end == -1 {
        StuckAfterType(stack, "$" + rest);
        return ERR;
      }
      var size := end + 2;
      var len := ParseLongLong(rest, end);
      StepBulk(stack, rest, len, size);
      if len < 0 {
        Finish(size, Nil);
        return OK;
      }
      if pos + size + len + 2 > |buf| { return ERR; }
      var obj := Str(rest[size..size + len]);
      size := size + len + 2;
      assert buf[pos + size..] == rest[size..];
      assert step == ApplyItem(stack, Leaf(obj), buf[pos + size..]);
      Finish(size, obj);
      status := OK;
    }

    /** The element count of an array header: nil, an empty array, or a new task on the stack. */
    method ProcessCount(count: int, size: nat) returns (status: ReplyStatus)
      requires Valid() && err == None && 0 <= ridx < MAX_DEPTH && rstack[ridx].kind == ArrayTask
      requires 0 < size && pos + size <= |buf|
      requires ReadItem(Pending(), ridx) == CountItem(count, size + 1)
      modifies this, rstack
      ensures FollowsStep(status, StepItem(old(Frames()), old(Pending())))
    {
      hide ReadItem, StepItem, ApplyItem, FramesOf, TasksOk, CountItem, Narrow32, Deliver;
      ghost var rest := buf[pos..];
      StepCount(Frames(), rest, count, size);
      assert rest[size..] == buf[pos + size..];
      if count == -1 {
        Finish(size, Nil);
      } else if count > 0 {
        if Narrow32(count) <= 0 {
          SetError(CountTooLarge);
          return ERR;
        }
        PushTask(size, Narrow32(count));
      } else {
        Finish(size, Arr(Narrow32(count), []));
      }
      status := OK;
    }

    method ProcessMultiBulkItem() returns (status: ReplyStatus)
      requires StackOk() && pos <= |buf| && reply == None
      requires err == None && ridx >= 0 && rstack[ridx].kind == ArrayTask
      modifies this, rstack
      ensures FollowsStep(status, StepItem(old(Frames()), old(Pending())))
    {
      hide ApplyItem, ReadLongLong, FramesOf, FindCrlf;
      if ridx == MAX_DEPTH {
        assert Pending()[0] == '*';
        SetError(TooDeep);
        return ERR;
      }
      hide ReadItem, CountItem, StepItem, TasksOk;
      var rest := buf[pos..];
      var end := SeekNewline(rest);
      AfterType(ArrayTask, rest, ridx);
      if end == -1 {
        StuckAfterType(Frames(), Pending());
        return ERR;
      }
      var count := ParseLongLong(rest, end);
      status := ProcessCount(count, end + 2);
    }

    /** Reads the type byte unless an earlier call did, then the rest of the item. */
    method ProcessItem() returns (status: ReplyStatus)
      requires Valid() && err == None && ridx >= 0
      modifies this, rstack
      ensures FollowsStep(status, StepItem(old(Frames()), old(Pending())))
    {
      hide ReadItem, FramesOf;
      if rstack[ridx].kind == Unread {
        status := ReadType();
        if status == ERR { return; }
      }
      var kind := rstack[ridx].kind;
      if kind == StringTask {
        status := ProcessBulkItem();
      } else if kind == ArrayTask {
        status := ProcessMultiBulkItem();
      } else {
        status := ProcessLineItem();
      }
    }

    /** readBytes(r,1) and the switch on the type byte. */
    method ReadType() returns (status: ReplyStatus)
      requires Valid() && err == None && ridx >= 0 && rstack[ridx].kind == Unread
      modifies this, rstack
      ensures rstack == old(rstack)
      ensures status == OK ==>
        && StackOk() && pos == old(pos) + 1 <= |buf| && buf == old(buf) && ridx == old(ridx)
        && reply == None && err == None && rstack[ridx].kind != Unread
        && Frames() == old(Frames()) && Pending() == old(Pending())
      ensures status == ERR ==> FollowsStep(ERR, StepItem(old(Frames()), old(Pending())))
    {
      hide FramesOf, TasksOk, ReadItem, StepItem;
      if pos == |buf| {
        NoTypeYet(Frames());
        return ERR;
      }
      var c := buf[pos];
      assert Pending()[0] == c;
      var kind := TypeOf(c);
      if kind == Unread {
        BadTypeBreaks(Frames(), Pending());
        SetError(BadType(c));
        return ERR;
      }
      SetType(kind);
      status := OK;
    }

    method SetType(kind: TaskType)
      requires Valid() && err == None && ridx >= 0 && rstack[ridx].kind == Unread && kind != Unread
      requires pos < |buf| && TypeByte(kind) == [buf[pos]]
      modifies `pos, rstack
      ensures StackOk() && pos == old(pos) + 1 && rstack[ridx].kind == kind
      ensures Frames() == old(Frames()) && Pending() == old(Pending())
    {
      pos := pos + 1;
      FramesIgnoreKind(rstack[..], ridx, kind);
      rstack[ridx] := rstack[ridx].(kind := kind);
      assert rstack[..] == old(rstack[..])[ridx := rstack[ridx]];
    }

    /** Appends the bytes unless an error was reported. */
    method Feed(chunk: Bytes) returns (status: ReplyStatus)
      requires Valid() && reply == None
      modifies `buf
      ensures Valid() && reply == None
      ensures State() == Resp.Feed(old(State()), chunk)
      ensures status == ERR <==> old(State()).Broken?
    {
      hide FramesOf, TasksOk;
      if err.Some? { return ERR; }
      buf := buf + chunk;
      assert Pending() == old(Pending()) + chunk;
      status := OK;
    }

    /** Drops the consumed part of the buffer once it reaches 1024 bytes. */
    method Compact()
      requires pos <= |buf|
      modifies `buf, `pos
      ensures pos <= |buf| && buf[pos..] == old(buf[pos..])
    {
      if pos >= 1024 {
        buf := buf[pos..];
        pos := 0;
      }
    }

    /** The loop of redisReaderGetReply: items until the reply is complete or one is not. */
    method ProcessItems()
      requires Valid() && err == None && ridx >= 0
      modifies this, rstack
      ensures Valid() || (StackOk() && ridx == -1 && pos <= |buf|)
      ensures rstack == old(rstack)
      ensures match NextReply(old(Frames()), old(Pending()))
              case Emit(tree, rest) => err == None && ridx == -1 && reply == Some(tree) && buf[pos..] == rest
              case Wait(stack, rest) => Valid() && err == None && ridx >= 0 && State() == Running(stack, rest)
              case Fail(e) => Valid() && reply == None && State() == Broken(e)
    {
      hide FramesOf, TasksOk, ReadItem, StepItem;
      ghost var start := NextReply(Frames(), Pending());
      var status := OK;
      while ridx >= 0 && status == OK
        invariant StackOk() && pos <= |buf| && rstack == old(rstack)
        invariant ridx >= 0 ==> Valid() && err == None
        invariant ridx >= 0 && status == OK ==> start == NextReply(Frames(), Pending())
        invariant ridx >= 0 && status == ERR ==> start == Wait(Frames(), Pending())
        invariant ridx == -1 && err == None ==> start.Emit? && reply == Some(start.reply) && buf[pos..] == start.rest
        invariant err.Some? ==> Valid() && reply == None && start == Fail(err.value)
        decreases |buf| - pos, status == OK
      {
        status := ProcessItem();
      }
    }

    /** One call: the next reply if the buffer holds it, nothing if it does not, or an error. */
    method GetReply() returns (status: ReplyStatus, r: Option<Reply>)
      requires Valid() && reply == None
      modifies this, rstack
      ensures Valid() && rstack == old(rstack) && reply == None
      ensures old(State()).Broken? ==> status == ERR && r == None && State() == old(State())
      ensures old(State()).Running? ==>
        match NextReply(old(State()).stack, old(State()).pending)
        case Emit(tree, rest) => status == OK && r == Some(tree) && State() == Running([], rest)
        case Wait(stack, rest) => status == OK && r == None && State() == Running(stack, rest)
        case Fail(e) => status == ERR && r == None && State() == Broken(e)
    {
      hide FramesOf, ReadItem, StepItem;
      if err.Some? { return ERR, None; }
      if buf == [] {
        ShortInputWaits(Frames(), if ridx == -1 then Unread else rstack[ridx].kind);
        assert Pending() == TypeByte(if ridx == -1 then Unread else rstack[ridx].kind);
        return OK, None;
      }
      if ridx == -1 {
        assert Frames() == [];
        rstack[0] := Task(Unread, -1, -1, []);
        ridx := 0;
        assert Frames() == [] && Pending() == old(Pending());
      }
      ProcessItems();
      if err.Some? { return ERR, None; }
      Compact();
      assert ridx == -1 ==> Frames() == [];
      if ridx == -1 {
        r := reply;
        reply := None;
        return OK, r;
      }
      return OK, None;
    }

    /** Asking for replies until there is none: what every caller does after feeding. */
    method DrainReplies() returns (replies: seq<Reply>)
      requires Valid() && reply == None
      modifies this, rstack
      ensures Valid() && rstack == old(rstack) && reply == None
      ensures Drained(replies, State()) == Drain(old(State()))
    {
      hide FramesOf, TasksOk, NextReply, Drain, ValidStack, ValidState, Valid, State;
      replies := [];
      ghost var start := State();
      while true
        invariant Valid() && rstack == old(rstack) && reply == None
        invariant Drain(start) == Drained(replies + Drain(State()).replies, Drain(State()).state)
        decreases if State().Running? then |State().pending| else 0
      {
        ghost var before := State();
        var status, r := GetReply();
        if status == ERR || r == None {
          SettledDrain(before);
          assert Drain(before) == Drained([], State());
          return;
        }
        ghost var after := State();
        DrainOne(before, r.value, after);
        assert replies + ([r.value] + Drain(after).replies) == replies + [r.value] + Drain(after).replies;
        replies := replies + [r.value];
      }
    }
  }

  lemma DrainOne(s: Resp.State, tree: Reply, after: Resp.State)
    requires ValidState(s) && s.Running? && after.Running? && after.stack == []
    requires NextReply(s.stack, s.pending) == Emit(tree, after.pending)
    ensures Drain(s) == Drained([tree] + Drain(after).replies, Drain(after).state)
  {
    hide NextReply;
  }

  lemma SettledDrain(s: Resp.State)
    requires ValidState(s) && (s.Running? ==> !NextReply(s.stack, s.pending).Emit?)
    ensures Drain(s).replies == [] && Drain(Drain(s).state) == Drain(s)
    ensures s.Broken? ==> Drain(s) == Drained([], s)
    ensures s.Running? ==>
              Drain(s).state == (match NextReply(s.stack, s.pending)
                                 case Wait(stack, rest) => Running(stack, rest)
                                 case Fail(e) => Broken(e)
                                 case Emit(_, _) => s)
  {
    DrainIsStable(s);
  }
}
