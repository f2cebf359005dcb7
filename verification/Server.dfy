/** The service loop: a request is popped from a Redis list, its statements are executed, and it is
    answered, dropped, or put back. */
module Server {
  import opened Basics
  import Message

  type Statement = Message.Statement

  /** The fields of a parsed request that the loop uses. */
  datatype Request = Request(sync: bool, channel: Option<string>, statement: Statement)

  datatype ResultCode = NotFound | Duplicate | Failure

  /** What the database driver does with a statement, and whether it is still connected afterwards. */
  datatype DriverResult = Done | Fails(code: ResultCode, connected: bool)

  /** A statement that was executed. */
  datatype Execution = Execution(sql: string, result: DriverResult)

  datatype Fate = Finished | Discarded | Requeued | Lost

  /** One popped request: what was executed for it, whether Redis would have taken it back, what became of
      it, and how often it was answered. */
  datatype Record = Record(request: string, ran: seq<Execution>, pushed: bool, fate: Fate, replies: nat)

  /** What the outside does during one turn of the loop: requests that arrive, the exit signal, whether a
      request can be popped, whether resources for a statement can be had, what the driver answers to
      the first and the second statement, whether a put-back and a reply succeed, and how the attempts
      to reconnect go: `failures` of them fail, and the exit signal may be seen after `patience`. */
  datatype Turn = Turn(
    arrivals: seq<string>,
    exits: bool,
    received: bool,
    initialized: bool,
    first: DriverResult,
    second: DriverResult,
    pushed: bool,
    answered: bool,
    failures: nat,
    patience: Option<nat>)

  /** The queue has its left end first, and `arrived` its latest request; `up` is the status field of the
      connection. */
  datatype State = State(
    queue: seq<string>,
    up: bool,
    stopped: bool,
    arrived: seq<string>,
    history: seq<Record>)

  const START := State([], true, false, [], [])

  // ---------------------------------------------------------------- one request

  /** The statements that are executed: the insert only when the update found nothing. */
  function Executions(statement: Statement, t: Turn): (ran: seq<Execution>)
    ensures ran != []
  {
    match statement
    case Single(sql) => [Execution(sql, t.first)]
    case Upsert(update, insert) =>
      if t.first == Fails(NotFound, true) then [Execution(update, t.first), Execution(insert, t.second)]
      else [Execution(update, t.first)]
  }

  /** The last statement failed and took the connection with it. */
  predicate BrokenOff(ran: seq<Execution>) {
    ran != [] && ran[|ran| - 1].result.Fails? && !ran[|ran| - 1].result.connected
  }

  /** Giving up on reconnecting: the exit signal is seen before an attempt succeeds. */
  predicate GivesUp(t: Turn) {
    t.patience.Some? && t.patience.value < t.failures
  }

  function FateOf(ran: seq<Execution>, t: Turn): Fate {
    if !BrokenOff(ran) then Finished else if t.pushed then Requeued else Lost
  }

  function RecordOf(text: string, parsed: Option<Request>, t: Turn): Record {
    if parsed.None? || !t.initialized then Record(text, [], t.pushed, Discarded, 0)
    else
      var ran := Executions(parsed.value.statement, t);
      var fate := FateOf(ran, t);
      Record(text, ran, t.pushed, fate, if fate.Finished? && parsed.value.sync && t.answered then 1 else 0)
  }

  // ---------------------------------------------------------------- the loop

  type Parser = string -> Option<Request>

  /** sqlbus_parse_request as the parser of the loop; what becomes of texts with numbers that module JsonText
      does not cover is left to another parser. */
  function ParserOf(others: Parser): Parser {
    (text: string) =>
      match Message.ParseRequest(text)
      case Accepted(r) => Some(Request(r.sync, r.channel, r.statement))
      case Refused => None
      case Unknown => others(text)
  }

  /** A parser that gives every synchronous request a channel. */
  ghost predicate Answerable(parse: Parser) {
    forall s :: parse(s).Some? && parse(s).value.sync ==> parse(s).value.channel.Some?
  }

  lemma ParserIsAnswerable(others: Parser)
    requires Answerable(others)
    ensures Answerable(ParserOf(others))
  {
    var parse := ParserOf(others);
    forall s | parse(s).Some? && parse(s).value.sync ensures parse(s).value.channel.Some? {
      if Message.ParseRequest(s).Accepted? { Message.SyncHasChannel(s); }
    }
  }

  /** One turn of the loop. */
  function Step(s: State, t: Turn, parse: Parser): State {
    if s.stopped then s else
      var s := s.(queue := t.arrivals + s.queue, arrived := t.arrivals + s.arrived);
      if t.exits then s.(stopped := true)
      else if !t.received || s.queue == [] then s
      else
        var text := s.queue[|s.queue| - 1];
        var record := RecordOf(text, parse(text), t);
        var rest := s.queue[..|s.queue| - 1];
        s.(queue := if record.fate.Requeued? then [text] + rest else rest,
           history := s.history + [record],
           up := !(BrokenOff(record.ran) && GivesUp(t)),
           stopped := BrokenOff(record.ran) && GivesUp(t))
  }

  function Run(s: State, turns: seq<Turn>, parse: Parser): State
    decreases |turns|
  {
    if turns == [] then s else Run(Step(s, turns[0], parse), turns[1..], parse)
  }

  // ---------------------------------------------------------------- what always holds

  /** The requests that met a fate, one entry for each time. */
  function Met(history: seq<Record>, fate: Fate): seq<string> {
    if history == [] then []
    else
      var last := history[|history| - 1];
      Met(history[..|history| - 1], fate) + if last.fate == fate then [last.request] else []
  }

  /** The requests that are done with. */
  function Closed(history: seq<Record>): multiset<string> {
    multiset(Met(history, Finished)) + multiset(Met(history, Discarded)) + multiset(Met(history, Lost))
  }

  predicate Succeeded(ran: seq<Execution>) {
    exists i :: 0 <= i < |ran| && ran[i].result.Done?
  }

  lemma SucceededIs(first: Execution, second: Execution)
    ensures !Succeeded([]) && (Succeeded([first]) <==> first.result.Done?)
    ensures Succeeded([first, second]) <==> first.result.Done? || second.result.Done?
  {
    var one, two := [first], [first, second];
    assert one[0] == first && two[0] == first && two[1] == second;
  }

  ghost predicate RecordSound(r: Record) {
    && (r.fate.Discarded? <==> r.ran == [])
    && (r.fate.Finished? <==> r.ran != [] && !BrokenOff(r.ran))
    && (r.fate.Requeued? <==> BrokenOff(r.ran) && r.pushed)
    && (r.fate.Lost? <==> BrokenOff(r.ran) && !r.pushed)
    && (Succeeded(r.ran) ==> r.fate.Finished?)
    && (r.replies > 0 ==> r.replies == 1 && r.fate.Finished?)
    && |r.ran| <= 2
    && (|r.ran| == 2 ==> r.ran[0].result == Fails(NotFound, true))
  }

  ghost predicate AllSound(history: seq<Record>) {
    forall i :: 0 <= i < |history| ==> RecordSound(history[i])
  }

  /** Nothing arrives or disappears unaccounted for, the connection is up wherever a turn begins, and
      every record is sound. */
  ghost predicate Sound(s: State) {
    && multiset(s.arrived) == multiset(s.queue) + Closed(s.history)
    && (s.up || s.stopped)
    && AllSound(s.history)
  }

  lemma RecordIsSound(text: string, parsed: Option<Request>, t: Turn)
    ensures RecordSound(RecordOf(text, parsed, t))
  {
  }

  lemma MetAppend(history: seq<Record>, r: Record, fate: Fate)
    ensures Met(history + [r], fate) == Met(history, fate) + if r.fate == fate then [r.request] else []
  {
    assert (history + [r])[..|history|] == history;
  }

  lemma ClosedAppend(history: seq<Record>, r: Record)
    ensures Closed(history + [r]) == Closed(history) + if r.fate.Requeued? then multiset{} else multiset{r.request}
  {
    hide Met;
    MetAppend(history, r, Finished);
    MetAppend(history, r, Discarded);
    MetAppend(history, r, Lost);
  }

  /** Taking the last of a queue and keeping it elsewhere. */
  lemma TakeLast(queue: seq<string>)
    requires queue != []
    ensures multiset(queue) == multiset(queue[..|queue| - 1]) + multiset{queue[|queue| - 1]}
  {
    assert queue == queue[..|queue| - 1] + [queue[|queue| - 1]];
  }

  lemma SoundAppend(history: seq<Record>, r: Record)
    ensures AllSound(history) && RecordSound(r) ==> AllSound(history + [r])
  {
    hide RecordSound;
  }

  /** Popping a request and accounting for it keeps the balance. */
  lemma PopBalances(arrived: seq<string>, arrivals: seq<string>, waiting: seq<string>, history: seq<Record>, r: Record)
    requires multiset(arrived) == multiset(waiting) + Closed(history)
    requires var queue := arrivals + waiting; queue != [] && r.request == queue[|queue| - 1]
    ensures var queue := arrivals + waiting;
            var rest := queue[..|queue| - 1];
            multiset(arrivals + arrived) ==
            multiset(if r.fate.Requeued? then [r.request] + rest else rest) + Closed(history + [r])
  {
    hide Closed;
    var queue := arrivals + waiting;
    var rest := queue[..|queue| - 1];
    TakeLast(queue);
    ClosedAppend(history, r);
    assert multiset(queue) == multiset(rest) + multiset{r.request};
    assert multiset(arrivals + arrived) == multiset(queue) + Closed(history);
    assert multiset([r.request] + rest) == multiset(rest) + multiset{r.request};
  }

  /** A request is popped in this turn. */
  predicate Pops(s: State, t: Turn) {
    !s.stopped && !t.exits && t.received && t.arrivals + s.queue != []
  }

  lemma StepPops(s: State, t: Turn, parse: Parser)
    requires Pops(s, t)
    ensures var queue := t.arrivals + s.queue;
            var text, rest := queue[|queue| - 1], queue[..|queue| - 1];
            var record := RecordOf(text, parse(text), t);
            var u := Step(s, t, parse);
            && record.request == text && u.arrived == t.arrivals + s.arrived && (u.up || u.stopped)
            && u.queue == (if record.fate.Requeued? then [record.request] + rest else rest)
            && u.history == s.history + [record]
  {
    hide BrokenOff, GivesUp, Executions, FateOf;
  }

  lemma StepRests(s: State, t: Turn, parse: Parser)
    requires !Pops(s, t)
    ensures var u := Step(s, t, parse);
            && u.history == s.history && u.up == s.up && (s.stopped ==> u == s)
            && (!s.stopped ==> u.arrived == t.arrivals + s.arrived && u.queue == t.arrivals + s.queue)
  {
    hide RecordOf, BrokenOff, GivesUp;
  }

  lemma PopSound(s: State, t: Turn, parse: Parser)
    requires Sound(s) && Pops(s, t)
    ensures Sound(Step(s, t, parse))
  {
    hide Step, RecordOf, AllSound, RecordSound, Closed;
    StepPops(s, t, parse);
    var queue := t.arrivals + s.queue;
    var text := queue[|queue| - 1];
    var record := RecordOf(text, parse(text), t);
    RecordIsSound(text, parse(text), t);
    SoundAppend(s.history, record);
    PopBalances(s.arrived, t.arrivals, s.queue, s.history, record);
  }

  lemma RestSound(s: State, t: Turn, parse: Parser)
    requires Sound(s) && !Pops(s, t)
    ensures Sound(Step(s, t, parse))
  {
    hide Step, AllSound, Closed, Pops;
    StepRests(s, t, parse);
    assert multiset(t.arrivals + s.arrived) == multiset(t.arrivals) + multiset(s.arrived);
    assert multiset(t.arrivals + s.queue) == multiset(t.arrivals) + multiset(s.queue);
  }

  lemma StepSound(s: State, t: Turn, parse: Parser)
    requires Sound(s)
    ensures Sound(Step(s, t, parse))
  {
    hide Step, Sound, Pops;
    if Pops(s, t) {
      PopSound(s, t, parse);
    } else {
      RestSound(s, t, parse);
    }
  }

  lemma {:induction false} RunSound(s: State, turns: seq<Turn>, parse: Parser)
    requires Sound(s)
    ensures Sound(Run(s, turns, parse))
    decreases |turns|
  {
    hide Sound, Step;
    if turns != [] {
      StepSound(s, turns[0], parse);
      RunSound(Step(s, turns[0], parse), turns[1..], parse);
    }
  }

  // ---------------------------------------------------------------- success at most once

  /** How many passes executed a statement of the request successfully. */
  function Successes(history: seq<Record>, request: string): nat {
    if history == [] then 0
    else
      var last := history[|history| - 1];
      Successes(history[..|history| - 1], request) + if last.request == request && Succeeded(last.ran) then 1 else 0
  }

  /** A pass in which a statement succeeded finishes the request. */
  lemma {:induction false} SuccessesAreFinished(history: seq<Record>, request: string)
    requires AllSound(history)
    ensures Successes(history, request) <= multiset(Met(history, Finished))[request]
  {
    if history != [] {
      hide Succeeded, BrokenOff;
      SuccessesAreFinished(history[..|history| - 1], request);
      assert RecordSound(history[|history| - 1]);
    }
  }

  /** The main theorem. In every run, a request that arrived n times has statements succeed in at most n
      passes: one that succeeded is never put back. */
  lemma SuccessAtMostOnce(turns: seq<Turn>, parse: Parser, request: string)
    ensures var s := Run(START, turns, parse);
            Successes(s.history, request) <= multiset(s.arrived)[request]
  {
    hide Run, Successes, Met, AllSound;
    var s := Run(START, turns, parse);
    StartIsSound();
    RunSound(START, turns, parse);
    SuccessesAreFinished(s.history, request);
  }

  lemma StartIsSound()
    ensures Sound(START)
  {
  }

  // ---------------------------------------------------------------- conservation

  /** The request that is lost in a turn, if one is: it was popped, understood and given resources, its
      last statement took the connection down, and Redis did not take it back. */
  function LostIn(s: State, t: Turn, parse: Parser): seq<string> {
    var queue := t.arrivals + s.queue;
    if s.stopped || t.exits || !t.received || queue == [] then [] else
      var text := queue[|queue| - 1];
      if parse(text).Some? && t.initialized && BrokenOff(Executions(parse(text).value.statement, t)) && !t.pushed
      then [text] else []
  }

  function FailedPutBacks(s: State, turns: seq<Turn>, parse: Parser): seq<string>
    decreases |turns|
  {
    if turns == [] then []
    else LostIn(s, turns[0], parse) + FailedPutBacks(Step(s, turns[0], parse), turns[1..], parse)
  }

  lemma LostExactly(text: string, parsed: Option<Request>, t: Turn)
    ensures RecordOf(text, parsed, t).fate.Lost? <==>
            parsed.Some? && t.initialized && BrokenOff(Executions(parsed.value.statement, t)) && !t.pushed
    ensures RecordOf(text, parsed, t).request == text
  {
    hide BrokenOff, Executions;
  }

  lemma StepLoses(s: State, t: Turn, parse: Parser)
    ensures Met(Step(s, t, parse).history, Lost) == Met(s.history, Lost) + LostIn(s, t, parse)
  {
    var queue := t.arrivals + s.queue;
    if !s.stopped && !t.exits && t.received && queue != [] {
      hide Met, BrokenOff, Executions, GivesUp, RecordOf;
      var text := queue[|queue| - 1];
      LostExactly(text, parse(text), t);
      MetAppend(s.history, RecordOf(text, parse(text), t), Lost);
    }
  }

  lemma {:induction false} RunLoses(s: State, turns: seq<Turn>, parse: Parser)
    ensures Met(Run(s, turns, parse).history, Lost) == Met(s.history, Lost) + FailedPutBacks(s, turns, parse)
    decreases |turns|
  {
    hide Step, LostIn, Met;
    if turns != [] {
      StepLoses(s, turns[0], parse);
      RunLoses(Step(s, turns[0], parse), turns[1..], parse);
    }
  }

  /** Conservation over every run: each arrival is waiting, finished, discarded, or was lost by a put-back
      that failed, and it is in exactly one of these places. Nothing is lost otherwise. */
  lemma NothingVanishes(turns: seq<Turn>, parse: Parser)
    ensures var s := Run(START, turns, parse);
            && multiset(s.arrived) == multiset(s.queue) + multiset(Met(s.history, Finished))
                 + multiset(Met(s.history, Discarded)) + multiset(FailedPutBacks(START, turns, parse))
            && Met(s.history, Lost) == FailedPutBacks(START, turns, parse)
            && (s.up || s.stopped)
            && AllSound(s.history)
  {
    hide Run, Met, AllSound, FailedPutBacks;
    StartIsSound();
    RunSound(START, turns, parse);
    RunLoses(START, turns, parse);
    assert Met(START.history, Lost) == [] by { NothingMet(Lost); }
  }

  lemma NothingMet(fate: Fate)
    ensures Met([], fate) == []
  {
  }

  /** Every request that the loop breaks off is taken back by Redis. */
  ghost predicate AllPushed(s: State, turns: seq<Turn>, parse: Parser)
    decreases |turns|
  {
    turns == [] || (LostIn(s, turns[0], parse) == [] && AllPushed(Step(s, turns[0], parse), turns[1..], parse))
  }

  lemma {:induction false} AllPushedExactly(s: State, turns: seq<Turn>, parse: Parser)
    ensures AllPushed(s, turns, parse) <==> FailedPutBacks(s, turns, parse) == []
    decreases |turns|
  {
    hide Step, LostIn;
    if turns != [] { AllPushedExactly(Step(s, turns[0], parse), turns[1..], parse); }
  }

  /** Every arrival is waiting, finished or discarded exactly in the runs in which no put-back fails. */
  lemma ConservedExactly(turns: seq<Turn>, parse: Parser)
    ensures var s := Run(START, turns, parse);
            multiset(s.arrived) == multiset(s.queue) + multiset(Met(s.history, Finished))
              + multiset(Met(s.history, Discarded))
            <==> AllPushed(START, turns, parse)
  {
    hide Run, Met, AllSound, FailedPutBacks, AllPushed;
    var s := Run(START, turns, parse);
    NothingVanishes(turns, parse);
    AllPushedExactly(START, turns, parse);
    var lost := FailedPutBacks(START, turns, parse);
    var kept := multiset(s.queue) + multiset(Met(s.history, Finished)) + multiset(Met(s.history, Discarded));
    if lost != [] { assert (kept + multiset(lost))[lost[0]] > kept[lost[0]]; }
  }

  /** A run of one turn that loses its request: the statement fails, the connection goes down, and so does
      the put-back. With a put-back that succeeds, the request is waiting again. */
  lemma PutBackCanFail(parse: Parser, pushed: bool)
    requires parse("r") == Some(Request(false, None, Message.Single("s")))
    ensures var t := Turn(["r"], false, true, true, Fails(Failure, false), Done, pushed, true, 0, None);
            var s := Run(START, [t], parse);
            && s.arrived == ["r"] && s.up && !s.stopped
            && s.queue == (if pushed then ["r"] else [])
            && s.history == [Record("r", [Execution("s", t.first)], pushed, if pushed then Requeued else Lost, 0)]
  {
    var t := Turn(["r"], false, true, true, Fails(Failure, false), Done, pushed, true, 0, None);
    var record := RecordOf("r", parse("r"), t);
    assert record == Record("r", [Execution("s", t.first)], pushed, if pushed then Requeued else Lost, 0);
    assert BrokenOff(record.ran) && !GivesUp(t);
    hide RecordOf, BrokenOff, GivesUp;
    assert ["r"] + START.queue == ["r"] && ["r"][..0] == [] && [t][1..] == [];
    assert Run(START, [t], parse) == Run(Step(START, t, parse), [], parse) == Step(START, t, parse);
  }

  // ---------------------------------------------------------------- from client to database

  /** What a client sends is what the service executes: in the turn that pops its message, the statements of
      the draft run, the insert only after an update that found nothing, and there is one answer exactly
      when the client asked for one and the sending succeeded. */
  lemma ClientRequestIsServed(d: Message.Draft, t: Turn, others: Parser)
    requires Message.Sendable(d) && t.initialized
    ensures Message.Marshal(d).Some?
    ensures var text := Message.Marshal(d).value;
            var record := RecordOf(text, ParserOf(others)(text), t);
            var ran := record.ran;
            && record.request == text
            && (d.statement.Some? ==> ran == [Execution(d.statement.value, t.first)])
            && (d.statement.None? ==>
                  && 1 <= |ran| <= 2 && ran[0] == Execution(d.update.value, t.first)
                  && (|ran| == 2 <==> t.first == Fails(NotFound, true))
                  && (|ran| == 2 ==> ran[1] == Execution(d.insert.value, t.second)))
            && record.fate == (if !BrokenOff(ran) then Finished else if t.pushed then Requeued else Lost)
            && record.replies == if !BrokenOff(ran) && !d.asynchronous && t.answered then 1 else 0
  {
    hide Message.Marshal, Message.ParseRequest, Executions, BrokenOff;
    Message.RequestRoundTrip(d);
    var text := Message.Marshal(d).value;
    RecordRunsAsAsked(text, ParserOf(others)(text), t);
  }

  // ---------------------------------------------------------------- which statements run

  /** What was executed for a statement, given what the driver answered: a single one alone; of an update
      and an insert the update first, and the insert exactly when the update found nothing. */
  ghost predicate RunsAsAsked(ran: seq<Execution>, statement: Statement, first: DriverResult, second: DriverResult) {
    match statement
    case Single(sql) => ran == [Execution(sql, first)]
    case Upsert(update, insert) =>
      && 1 <= |ran| <= 2 && ran[0] == Execution(update, first)
      && (|ran| == 2 <==> first == Fails(NotFound, true))
      && (|ran| == 2 ==> ran[1] == Execution(insert, second))
  }

  lemma RecordRunsAsAsked(text: string, parsed: Option<Request>, t: Turn)
    ensures var r := RecordOf(text, parsed, t);
            && (r.ran != [] <==> parsed.Some? && t.initialized)
            && (r.ran != [] ==> RunsAsAsked(r.ran, parsed.value.statement, t.first, t.second))
  {
  }

  /** The statements that ran in a pass are those of the request of that pass. */
  ghost predicate RunsItsRequest(r: Record, parse: Parser) {
    r.ran != [] ==>
      && parse(r.request).Some?
      && exists second :: RunsAsAsked(r.ran, parse(r.request).value.statement, r.ran[0].result, second)
  }

  ghost predicate AllRunTheirRequests(history: seq<Record>, parse: Parser) {
    forall i :: 0 <= i < |history| ==> RunsItsRequest(history[i], parse)
  }

  lemma StepRunsRequests(s: State, t: Turn, parse: Parser)
    requires AllRunTheirRequests(s.history, parse)
    ensures AllRunTheirRequests(Step(s, t, parse).history, parse)
  {
    hide RecordOf, RunsItsRequest;
    var queue := t.arrivals + s.queue;
    if !s.stopped && !t.exits && t.received && queue != [] {
      RecordRunsItsRequest(queue[|queue| - 1], t, parse);
    }
  }

  lemma RecordRunsItsRequest(text: string, t: Turn, parse: Parser)
    ensures RunsItsRequest(RecordOf(text, parse(text), t), parse)
  {
    var r := RecordOf(text, parse(text), t);
    RecordRunsAsAsked(text, parse(text), t);
    if r.ran != [] {
      assert RunsAsAsked(r.ran, parse(r.request).value.statement, r.ran[0].result, t.second);
    }
  }

  /** In every run, every pass executes the statements of its own request: of an update and an insert, the
      update first and the insert only after an update that found nothing. */
  lemma {:induction false} RunRunsRequests(s: State, turns: seq<Turn>, parse: Parser)
    requires AllRunTheirRequests(s.history, parse)
    ensures AllRunTheirRequests(Run(s, turns, parse).history, parse)
    decreases |turns|
  {
    hide Step, AllRunTheirRequests;
    if turns != [] {
      StepRunsRequests(s, turns[0], parse);
      RunRunsRequests(Step(s, turns[0], parse), turns[1..], parse);
    }
  }

  // ---------------------------------------------------------------- in which order

  /** The requests of the passes, the latest first. */
  function Served(history: seq<Record>): seq<string> {
    if history == [] then []
    else [history[|history| - 1].request] + Served(history[..|history| - 1])
  }

  ghost predicate NonePutBack(history: seq<Record>) {
    forall i :: 0 <= i < |history| ==> !history[i].fate.Requeued?
  }

  lemma StepInOrder(s: State, t: Turn, parse: Parser)
    requires NonePutBack(s.history) ==> s.arrived == s.queue + Served(s.history)
    ensures var u := Step(s, t, parse);
            NonePutBack(u.history) ==> NonePutBack(s.history) && u.arrived == u.queue + Served(u.history)
  {
    hide Step, RecordOf, Served, NonePutBack;
    var u := Step(s, t, parse);
    var queue := t.arrivals + s.queue;
    if Pops(s, t) {
      StepPops(s, t, parse);
      ServedAppend(s.history, RecordOf(queue[|queue| - 1], parse(queue[|queue| - 1]), t));
      if NonePutBack(u.history) {
        PopInOrder(t.arrivals, s.arrived, s.queue, Served(s.history));
      }
    } else {
      StepRests(s, t, parse);
      if NonePutBack(s.history) && !s.stopped {
        assert t.arrivals + (s.queue + Served(s.history)) == queue + Served(s.history);
      }
    }
  }

  lemma ServedAppend(history: seq<Record>, r: Record)
    ensures Served(history + [r]) == [r.request] + Served(history)
    ensures NonePutBack(history + [r]) <==> NonePutBack(history) && !r.fate.Requeued?
  {
    var more := history + [r];
    assert more[..|history|] == history && more[|history|] == r;
    assert forall i :: 0 <= i < |history| ==> more[i] == history[i];
  }

  lemma PopInOrder(arrivals: seq<string>, arrived: seq<string>, waiting: seq<string>, served: seq<string>)
    requires arrived == waiting + served && arrivals + waiting != []
    ensures var queue := arrivals + waiting;
            arrivals + arrived == queue[..|queue| - 1] + ([queue[|queue| - 1]] + served)
  {
    var queue := arrivals + waiting;
    assert arrivals + arrived == queue + served;
    assert queue == queue[..|queue| - 1] + [queue[|queue| - 1]];
  }

  /** First come, first served, as long as nothing is put back: the requests that arrived are, from the latest
      to the first, those that wait and then those that were served. */
  lemma {:induction false} RunInOrder(s: State, turns: seq<Turn>, parse: Parser)
    requires NonePutBack(s.history) ==> s.arrived == s.queue + Served(s.history)
    ensures var u := Run(s, turns, parse);
            NonePutBack(u.history) ==> u.arrived == u.queue + Served(u.history)
    decreases |turns|
  {
    hide Step, NonePutBack, Served;
    if turns != [] {
      StepInOrder(s, turns[0], parse);
      RunInOrder(Step(s, turns[0], parse), turns[1..], parse);
    }
  }

  // ---------------------------------------------------------------- the loop as it runs

  /** The result code of a statement handle. */
  datatype StatementHandle = StatementHandle(succeeded: bool, code: ResultCode)

  class Service {
    const parse: Parser
    // the Redis list, and what was ever put into it by clients
    var queue: seq<string>
    var arrived: seq<string>
    // the request being served
    var requestString: Option<string>
    var responseString: Option<string>
    var sendChannel: Option<string>
    var statement: Option<Statement>
    var sync: bool
    // the database
    var hstmt: Option<StatementHandle>
    var connStatus: bool
    var exitFlag: bool
    // the record of the current request, and of all before
    var ran: seq<Execution>
    var history: seq<Record>

    function Abstract(): State
      reads this
    {
      State(queue, connStatus, exitFlag, arrived, history)
    }

    constructor (parser: Parser)
      ensures Abstract() == START && parse == parser && hstmt.None?
    {
      parse := parser;
      queue, arrived, requestString, responseString, sendChannel := [], [], None, None, None;
      statement, sync, hstmt, connStatus, exitFlag, ran, history := None, false, None, true, false, [], [];
    }

    /** DBExecute: on failure the connection status is asked for, and the result code as long as there is a
        connection to ask. */
    method DBExecute(sql: string, result: DriverResult) returns (ok: bool)
      requires hstmt.Some?
      modifies this`hstmt, this`connStatus, this`ran
      ensures ok == result.Done? && ran == old(ran) + [Execution(sql, result)] && hstmt.Some?
      ensures connStatus == if result.Done? then old(connStatus) else result.connected
      ensures hstmt.value == (match result
                              case Done => StatementHandle(true, Failure)
                              case Fails(code, up) => if up then StatementHandle(false, code) else old(hstmt.value))
    {
      ran := ran + [Execution(sql, result)];
      if result.Fails? {
        connStatus := result.connected;
        if result.connected {
          hstmt := Some(StatementHandle(false, result.code));
        }
        return false;
      }
      hstmt := Some(StatementHandle(true, Failure));
      return true;
    }

    /** sqlbus_write_back_to_redis: the whole request goes back to the left end. */
    method WriteBack(pushed: bool) returns (ok: bool)
      modifies this`queue
      ensures ok == (pushed && requestString.Some?)
      ensures queue == if ok then [requestString.value] + old(queue) else old(queue)
    {
      if requestString.None? || !pushed { return false; }
      queue := [requestString.value] + queue;
      return true;
    }

    /** sqlbus_free_request. */
    method FreeRequest()
      modifies this`requestString, this`responseString, this`sendChannel, this`statement
      ensures requestString.None? && responseString.None? && sendChannel.None? && statement.None?
    {
      sendChannel, requestString, responseString, statement := None, None, None, None;
    }

    /** The loop that reconnects to the database. */
    method Reconnect(t: Turn)
      modifies this`connStatus, this`exitFlag
      ensures connStatus == !GivesUp(t) && exitFlag == (old(exitFlag) || GivesUp(t))
      ensures connStatus <==> t.patience.None? || t.failures <= t.patience.value
    {
      var attempts := 0;
      while true
        invariant attempts <= t.failures && exitFlag == old(exitFlag)
        invariant t.patience.Some? ==> attempts <= t.patience.value
        decreases t.failures - attempts
      {
        connStatus := false;
        if attempts == t.failures {
          connStatus := true;
          return;
        }
        if t.patience.Some? && attempts >= t.patience.value {
          exitFlag := true;
          return;
        }
        attempts := attempts + 1;
      }
    }

    /** sqlbus_execute_statement. */
    method ExecuteStatement(t: Turn) returns (fate: Fate)
      requires statement.Some? && requestString.Some? && connStatus && ran == []
      requires hstmt == Some(StatementHandle(false, Failure))
      modifies this
      ensures ran == Executions(old(statement).value, t) && fate == FateOf(ran, t)
      ensures RunsAsAsked(ran, old(statement).value, t.first, t.second)
      ensures queue == if fate.Requeued? then [old(requestString).value] + old(queue) else old(queue)
      ensures arrived == old(arrived) && history == old(history) && sync == old(sync)
      ensures connStatus == !(BrokenOff(ran) && GivesUp(t))
      ensures exitFlag == (old(exitFlag) || (BrokenOff(ran) && GivesUp(t)))
      ensures BrokenOff(ran) ==> hstmt.None? && sendChannel.None? && responseString.None?
      ensures !BrokenOff(ran) ==> hstmt.Some? && sendChannel == old(sendChannel)
    {
      match statement.value {
        case Single(sql) =>
          var ok := DBExecute(sql, t.first);
          if ok { return Finished; }
        case Upsert(update, insert) =>
          var ok := DBExecute(update, t.first);
          if !ok && !hstmt.value.succeeded && hstmt.value.code == NotFound {
            ok := DBExecute(insert, t.second);
            if ok { return Finished; }
          }
      }
      if connStatus { return Finished; }
      fate := BreakOff(t);
    }

    /** The end of sqlbus_execute_statement, without a connection. */
    method BreakOff(t: Turn) returns (fate: Fate)
      requires requestString.Some?
      modifies this`hstmt, this`queue, this`requestString, this`responseString, this`sendChannel, this`statement,
               this`connStatus, this`exitFlag
      ensures fate == if t.pushed then Requeued else Lost
      ensures queue == if t.pushed then [old(requestString).value] + old(queue) else old(queue)
      ensures hstmt.None? && sendChannel.None? && responseString.None? && requestString.None? && statement.None?
      ensures connStatus == !GivesUp(t) && exitFlag == (old(exitFlag) || GivesUp(t))
    {
      hstmt := None;
      var back := WriteBack(t.pushed);
      FreeRequest();
      Reconnect(t);
      return if back then Requeued else Lost;
    }

    /** The answer to a synchronous request; both halves refuse when there is nothing to answer with. */
    method Respond(t: Turn) returns (replies: nat)
      modifies this`responseString
      ensures replies == if hstmt.Some? && sendChannel.Some? && t.answered then 1 else 0
    {
      if hstmt.Some? && t.answered {
        responseString := Some("response");
      } else {
        responseString := None;
      }
      if sendChannel.None? || responseString.None? { return 0; }
      return 1;
    }

    /** The part of the loop after a request was popped. */
    method ServeRequest(text: string, t: Turn)
      requires connStatus && !exitFlag && hstmt.None?
      requires parse(text).Some? && parse(text).value.sync ==> parse(text).value.channel.Some?
      modifies this
      ensures var record := RecordOf(text, parse(text), t);
              && history == old(history) + [record]
              && queue == (if record.fate.Requeued? then [text] + old(queue) else old(queue))
              && connStatus == !(BrokenOff(record.ran) && GivesUp(t))
              && exitFlag == (BrokenOff(record.ran) && GivesUp(t))
      ensures arrived == old(arrived) && hstmt.None?
    {
      assert !BrokenOff([]);
      hide Executions, BrokenOff, GivesUp;
      requestString := Some(text);
      var request := parse(text);
      if request.None? {
        FreeRequest();
        history := history + [Record(text, [], t.pushed, Discarded, 0)];
        return;
      }
      statement, sync, sendChannel := Some(request.value.statement), request.value.sync, request.value.channel;
      if !t.initialized {
        FreeRequest();
        history := history + [Record(text, [], t.pushed, Discarded, 0)];
        return;
      }
      ServeStatement(text, t);
    }

    /** The part of the loop after resources for the statement were had. */
    method ServeStatement(text: string, t: Turn)
      requires connStatus && !exitFlag && requestString == Some(text) && statement.Some?
      requires sync ==> sendChannel.Some?
      modifies this
      ensures ran == Executions(old(statement).value, t)
      ensures var fate := FateOf(ran, t);
              && history == old(history) + [Record(text, ran, t.pushed, fate,
                   if fate.Finished? && old(sync) && t.answered then 1 else 0)]
              && queue == (if fate.Requeued? then [text] + old(queue) else old(queue))
      ensures connStatus == !(BrokenOff(ran) && GivesUp(t)) && exitFlag == (BrokenOff(ran) && GivesUp(t))
      ensures arrived == old(arrived) && hstmt.None?
    {
      hide Executions, GivesUp;
      hstmt := Some(StatementHandle(false, Failure));
      ran := [];
      var fate := ExecuteStatement(t);
      var replies := 0;
      if sync {
        replies := Respond(t);
      }
      FreeRequest();
      hstmt := None;
      history := history + [Record(text, ran, t.pushed, fate, replies)];
    }

    /** One turn of the loop of sqlbus_main_entry. */
    method ServeOne(t: Turn)
      requires Abstract().up && !exitFlag && hstmt.None?
      requires Answerable(parse)
      modifies this
      ensures Abstract() == Step(old(Abstract()), t, parse) && hstmt.None?
    {
      queue := t.arrivals + queue;
      arrived := t.arrivals + arrived;
      if t.exits {
        exitFlag := true;
        return;
      }
      if !t.received || queue == [] { return; }
      var text := queue[|queue| - 1];
      queue := queue[..|queue| - 1];
      ServeRequest(text, t);
    }

    /** sqlbus_main_entry, over any sequence of turns. */
    method Serve(turns: seq<Turn>)
      requires Sound(Abstract()) && hstmt.None?
      requires Answerable(parse)
      modifies this
      ensures Abstract() == Run(old(Abstract()), turns, parse) && Sound(Abstract())
    {
      hide Step, Sound;
      var i := 0;
      assert turns[0..] == turns;
      while i < |turns| && !exitFlag
        invariant i <= |turns| && Sound(Abstract()) && hstmt.None?
        invariant Run(old(Abstract()), turns, parse) == Run(Abstract(), turns[i..], parse)
      {
        StepSound(Abstract(), turns[i], parse);
        UpOrStopped(Abstract());
        assert turns[i..][1..] == turns[i + 1..];
        ServeOne(turns[i]);
        i := i + 1;
      }
      if exitFlag {
        StoppedStays(Abstract(), turns[i..], parse);
      }
    }
  }

  /** The service with the parser of module Message, from its start over any sequence of turns. */
  method RunService(others: Parser, turns: seq<Turn>) returns (service: Service)
    requires Answerable(others)
    ensures service.Abstract() == Run(START, turns, ParserOf(others)) && Sound(service.Abstract())
  {
    hide Run, Sound, Answerable;
    ParserIsAnswerable(others);
    StartIsSound();
    service := new Service(ParserOf(others));
    service.Serve(turns);
  }

  lemma UpOrStopped(s: State)
    requires Sound(s)
    ensures s.up || s.stopped
  {
  }

  lemma {:induction false} StoppedStays(s: State, turns: seq<Turn>, parse: Parser)
    requires s.stopped
    ensures Run(s, turns, parse) == s
    decreases |turns|
  {
    if turns != [] {
      StoppedStays(s, turns[1..], parse);
    }
  }
}
