/** The asynchronous context, without pub/sub and MONITOR: flags, callbacks, every run. */
module Async {

  /** A callback list entry: the number of the command it belongs to, and whether its function is set. */
  datatype Callback = Callback(id: nat, fn: bool)

  /** What a user function may do with the context it is given. */
  datatype Action = Issue(fn: bool) | Disconnect | Free

  datatype Reply = Reply(text: string, isError: bool)

  /** A user function was run; None stands for a NULL reply. */
  datatype Fired = Fired(id: nat, reply: Answer)
  datatype Answer = Answer(reply: Reply) | NullReply

  /** The user function of each command. It runs once at most, so its actions depend on the command
      alone. */
  type Script = nat -> seq<Action>

  /** The two assertions of the source that a run could trip. */
  datatype Phase = Alive | Freed | FailedPending | FailedSpontaneous

  datatype State = State(
    connected: bool,
    disconnecting: bool,
    freeing: bool,
    inCallback: bool,
    err: bool,
    unsent: bool,
    pending: seq<Callback>,
    phase: Phase,
    notified: seq<bool>,
    commands: seq<bool>,
    received: seq<Reply>,
    log: seq<Fired>)

  const INITIAL := State(false, false, false, false, false, false, [], Alive, [], [], [], [])

  /** Being torn down, or about to be. */
  predicate Closing(s: State) {
    s.disconnecting || s.freeing
  }

  // ---------------------------------------------------------------- the source's operations

  /** __redisAsyncCommand. */
  function Command(s: State, fn: bool): State {
    if Closing(s) then s
    else s.(pending := s.pending + [Callback(|s.commands|, fn)], commands := s.commands + [fn], unsent := true)
  }

  /** One action of a user function; the context is in a callback, so freeing and disconnecting wait. */
  function Act(s: State, a: Action): State {
    match a
    case Issue(fn) => Command(s, fn)
    case Disconnect => s.(disconnecting := true)
    case Free => s.(freeing := true)
  }

  function ActAll(s: State, actions: seq<Action>): State
    decreases |actions|
  {
    if actions == [] then s else ActAll(Act(s, actions[0]), actions[1..])
  }

  /** __redisRunCallback. */
  function RunCallback(s: State, cb: Callback, answer: Answer, script: Script): State {
    if !cb.fn then s else
      ActAll(s.(inCallback := true, log := s.log + [Fired(cb.id, answer)]), script(cb.id)).(inCallback := false)
  }

  /** The loop of __redisAsyncFree: every pending callback with a NULL reply. */
  function RunPending(s: State, script: Script): State
    requires s.pending == [] || Closing(s)
    decreases |s.pending|
  {
    if s.pending == [] then s else
      ClosingActions(s.(pending := s.pending[1..]), s.pending[0], NullReply, script);
      RunPending(RunCallback(s.(pending := s.pending[1..]), s.pending[0], NullReply, script), script)
  }

  /** __redisAsyncFree. */
  function Teardown(s: State, script: Script): State
    requires s.pending == [] || Closing(s)
  {
    var t := RunPending(s, script);
    t.(phase := Freed, notified := if t.connected then t.notified + [t.freeing || !t.err] else t.notified)
  }

  /** redisAsyncFree outside a callback. */
  function UserFree(s: State, script: Script): State {
    Teardown(s.(freeing := true), script)
  }

  /** __redisAsyncDisconnect, with its assertion. */
  function DisconnectNow(s: State, script: Script): State {
    if s.err then Teardown(s.(disconnecting := true), script)
    else if s.pending != [] then s.(phase := FailedPending)
    else Teardown(s, script)
  }

  /** redisAsyncDisconnect outside a callback. */
  function UserDisconnect(s: State, script: Script): State {
    var t := s.(disconnecting := true);
    if t.pending == [] then DisconnectNow(t, script) else t
  }

  /** The body of the loop of redisProcessCallbacks for one reply. */
  function OneReply(s: State, r: Reply, script: Script): State {
    if s.pending == [] then
      if r.isError then DisconnectNow(s.(err := true), script) else s.(phase := FailedSpontaneous)
    else
      var t := RunCallback(s.(pending := s.pending[1..], received := s.received + [r]),
                           s.pending[0], Answer(r), script);
      if s.pending[0].fn && t.freeing then Teardown(t, script) else t
  }

  /** redisProcessCallbacks on the replies in the reader, up to the end of the input or an error. */
  function Process(s: State, replies: seq<Reply>, protocolError: bool, script: Script): State
    decreases |replies|
  {
    if replies == [] then
      if protocolError then DisconnectNow(s.(err := true), script)
      else if s.disconnecting && !s.unsent && s.pending == [] then DisconnectNow(s, script)
      else s
    else
      var t := OneReply(s, replies[0], script);
      if t.phase.Alive? then Process(t, replies[1..], protocolError, script) else t
  }

  /** How the socket looks the first time it is ready. */
  datatype Connecting = Refused | InProgress | Established

  /** What the next read or write on the socket does. */
  datatype Event =
    | CallCommand(fn: bool)
    | CallDisconnect
    | CallFree
    | Readable(connecting: Connecting, broken: bool, replies: seq<Reply>, protocolError: bool)
    | Writable(connecting: Connecting, broken: bool, done: bool)

  /** __redisAsyncHandleConnect, when the context is not connected yet. Looking at a connection still in
      progress leaves its error number behind. */
  function HandleConnect(s: State, connecting: Connecting, script: Script): State {
    if s.connected then s
    else if connecting == InProgress then s.(err := true)
    else if connecting == Refused then DisconnectNow(s.(err := true), script)
    else s.(connected := true)
  }

  function Step(s: State, e: Event, script: Script): State {
    if !s.phase.Alive? then s else
      match e
      case CallCommand(fn) => Command(s, fn)
      case CallDisconnect => UserDisconnect(s, script)
      case CallFree => UserFree(s, script)
      case Readable(connecting, broken, replies, protocolError) =>
        var t := HandleConnect(s, connecting, script);
        if !t.phase.Alive? || !t.connected then t
        else if broken || t.err then DisconnectNow(t.(err := true), script)
        else Process(t, replies, protocolError, script)
      case Writable(connecting, broken, done) =>
        var t := HandleConnect(s, connecting, script);
        if !t.phase.Alive? || !t.connected then t
        else if broken || t.err then DisconnectNow(t.(err := true), script)
        else t.(unsent := !done)
  }

  function Run(s: State, events: seq<Event>, script: Script): State
    decreases |events|
  {
    if events == [] then s else Run(Step(s, events[0], script), events[1..], script)
  }

  // ---------------------------------------------------------------- nothing new once closing

  /** What the actions of a user function leave alone: everything but the closing flags, and, once one of
      those is set, the commands. */
  ghost predicate ActedOn(s: State, t: State) {
    && t.log == s.log && t.received == s.received && t.phase == s.phase && t.err == s.err
    && t.connected == s.connected && t.notified == s.notified && t.inCallback == s.inCallback
    && (Closing(s) ==> Closing(t) && t.pending == s.pending && t.commands == s.commands && t.unsent == s.unsent)
  }

  lemma {:induction false} ActsKeep(s: State, actions: seq<Action>)
    ensures ActedOn(s, ActAll(s, actions))
    decreases |actions|
  {
    if actions != [] {
      hide Act;
      ActKeeps(s, actions[0]);
      ActsKeep(Act(s, actions[0]), actions[1..]);
    }
  }

  lemma ActKeeps(s: State, a: Action)
    ensures ActedOn(s, Act(s, a))
  {
  }

  lemma ClosingActions(s: State, cb: Callback, answer: Answer, script: Script)
    ensures Closing(s) ==>
              && Closing(RunCallback(s, cb, answer, script))
              && RunCallback(s, cb, answer, script).pending == s.pending
              && RunCallback(s, cb, answer, script).commands == s.commands
  {
    if cb.fn {
      ActsKeep(s.(inCallback := true, log := s.log + [Fired(cb.id, answer)]), script(cb.id));
    }
  }

  // ---------------------------------------------------------------- who is answered with what

  /** The user functions that must have run for the first n commands: those that are set, in order, each
      with the reply of the same rank, or NULL past the last reply. */
  function Deliveries(commands: seq<bool>, received: seq<Reply>, n: nat): seq<Fired>
    requires n <= |commands|
  {
    if n == 0 then [] else
      Deliveries(commands, received, n - 1)
      + (if commands[n - 1] then
           [Fired(n - 1, if n - 1 < |received| then Answer(received[n - 1]) else NullReply)]
         else [])
  }

  /** How many commands have left the pending list. */
  function Done(s: State): nat {
    if |s.pending| <= |s.commands| then |s.commands| - |s.pending| else 0
  }

  /** The pending list holds the callbacks of the latest commands, in order. */
  ghost predicate InOrder(pending: seq<Callback>, commands: seq<bool>) {
    && |pending| <= |commands|
    && forall i :: 0 <= i < |pending| ==>
         pending[i] == Callback(|commands| - |pending| + i, commands[|commands| - |pending| + i])
  }

  /** The pending list is in order and the record is exact. */
  ghost predicate Consistent(s: State) {
    && InOrder(s.pending, s.commands)
    && |s.received| <= Done(s)
    && s.log == Deliveries(s.commands, s.received, Done(s))
  }

  /** Between events no callback has been given NULL. */
  ghost predicate Sound(s: State) {
    && Consistent(s)
    && !s.inCallback
    && (s.phase.Alive? ==> |s.received| == Done(s) && s.notified == [] && !s.freeing)
    && (s.phase.Freed? ==> s.pending == [] && |s.notified| == if s.connected then 1 else 0)
    && s.phase != FailedPending
  }

  lemma {:induction false} DeliveriesOfMore(commands: seq<bool>, more: seq<bool>, received: seq<Reply>, n: nat)
    requires n <= |commands| && commands <= more
    ensures Deliveries(more, received, n) == Deliveries(commands, received, n)
  {
    if n > 0 {
      DeliveriesOfMore(commands, more, received, n - 1);
    }
  }

  lemma {:induction false} DeliveriesOfReplies(commands: seq<bool>, received: seq<Reply>, r: Reply, n: nat)
    requires n <= |commands| && n <= |received|
    ensures Deliveries(commands, received + [r], n) == Deliveries(commands, received, n)
  {
    if n > 0 {
      DeliveriesOfReplies(commands, received, r, n - 1);
    }
  }

  lemma CommandKeeps(s: State, fn: bool)
    requires Consistent(s)
    ensures Consistent(Command(s, fn)) && Done(Command(s, fn)) == Done(s)
  {
    if !Closing(s) {
      DeliveriesOfMore(s.commands, s.commands + [fn], s.received, Done(s));
    }
  }

  lemma {:induction false} ActionsKeep(s: State, actions: seq<Action>)
    requires Consistent(s)
    ensures Consistent(ActAll(s, actions)) && Done(ActAll(s, actions)) == Done(s)
    decreases |actions|
  {
    hide Consistent, Command;
    if actions != [] {
      ActionKeeps(s, actions[0]);
      ActionsKeep(Act(s, actions[0]), actions[1..]);
    }
  }

  lemma ActionKeeps(s: State, a: Action)
    requires Consistent(s)
    ensures Consistent(Act(s, a)) && Done(Act(s, a)) == Done(s)
  {
    if a.Issue? {
      CommandKeeps(s, a.fn);
    }
  }

  /** The first callback taken off the list, with its answer on record. */
  function Shifted(s: State, answer: Answer): State
    requires s.pending != []
  {
    var t := s.(pending := s.pending[1..],
                received := if answer.Answer? then s.received + [answer.reply] else s.received);
    if s.pending[0].fn then t.(log := s.log + [Fired(s.pending[0].id, answer)]) else t
  }

  lemma ShiftKeeps(s: State, answer: Answer)
    requires Consistent(s) && s.pending != []
    requires answer.NullReply? || |s.received| == Done(s)
    ensures Consistent(Shifted(s, answer)) && Done(Shifted(s, answer)) == Done(s) + 1
  {
    hide Deliveries;
    ShiftedInOrder(s.pending, s.commands);
    NextDelivery(s.commands, s.received, Done(s), answer);
  }

  lemma ShiftedInOrder(pending: seq<Callback>, commands: seq<bool>)
    requires InOrder(pending, commands) && pending != []
    ensures InOrder(pending[1..], commands)
    ensures pending[0] == Callback(|commands| - |pending|, commands[|commands| - |pending|])
  {
    assert pending[0] == pending[0 + 0];
  }

  lemma NextDelivery(commands: seq<bool>, received: seq<Reply>, n: nat, answer: Answer)
    requires n < |commands| && |received| <= n
    requires answer.Answer? ==> |received| == n
    ensures Deliveries(commands, if answer.Answer? then received + [answer.reply] else received, n + 1)
         == Deliveries(commands, received, n) + if commands[n] then [Fired(n, answer)] else []
  {
    if answer.Answer? {
      DeliveriesOfReplies(commands, received, answer.reply, n);
    }
  }

  lemma CallbackFlagKeeps(s: State, on: bool)
    ensures Consistent(s.(inCallback := on)) == Consistent(s)
  {
    hide Deliveries;
  }

  /** Shifting the first callback and running it with its answer. */
  lemma ShiftAndRun(s: State, answer: Answer, script: Script)
    requires Consistent(s) && s.pending != [] && !s.inCallback
    requires answer.NullReply? || |s.received| == Done(s)
    ensures var r := if answer.Answer? then s.received + [answer.reply] else s.received;
            var t := RunCallback(s.(pending := s.pending[1..], received := r), s.pending[0], answer, script);
            && Consistent(t) && Done(t) == Done(s) + 1
            && t.received == r && t.phase == s.phase && t.err == s.err && t.connected == s.connected
            && t.notified == s.notified && !t.inCallback
            && (!s.pending[0].fn ==> t.freeing == s.freeing)
  {
    hide ActAll, Consistent;
    var started := Shifted(s, answer);
    ShiftKeeps(s, answer);
    if s.pending[0].fn {
      CallbackFlagKeeps(started, true);
      ActionsKeep(started.(inCallback := true), script(s.pending[0].id));
      ActsKeep(started.(inCallback := true), script(s.pending[0].id));
      CallbackFlagKeeps(ActAll(started.(inCallback := true), script(s.pending[0].id)), false);
    }
  }

  lemma {:induction false} PendingRuns(s: State, script: Script)
    requires Consistent(s) && (s.pending == [] || Closing(s)) && !s.inCallback
    ensures var t := RunPending(s, script);
            && Consistent(t) && t.pending == [] && !t.inCallback
            && t.commands == s.commands && t.received == s.received
            && t.connected == s.connected && t.notified == s.notified
    decreases |s.pending|
  {
    hide Consistent, ActAll;
    if s.pending != [] {
      var shifted := s.(pending := s.pending[1..]);
      ShiftAndRun(s, NullReply, script);
      ClosingActions(shifted, s.pending[0], NullReply, script);
      PendingRuns(RunCallback(shifted, s.pending[0], NullReply, script), script);
    }
  }

  /** Tearing down gives every waiting user function NULL, in order, and leaves nothing. */
  lemma TeardownSound(s: State, script: Script)
    requires Consistent(s) && (s.pending == [] || Closing(s)) && !s.inCallback && s.notified == []
    ensures Sound(Teardown(s, script)) && Teardown(s, script).phase.Freed?
    ensures Teardown(s, script).commands == s.commands && Teardown(s, script).received == s.received
  {
    hide RunPending;
    PendingRuns(s, script);
    assert Consistent(Teardown(s, script)) by { hide Deliveries; }
  }

  /** The assertion on a clean disconnect holds wherever the source calls __redisAsyncDisconnect. */
  lemma DisconnectSound(s: State, script: Script)
    requires Consistent(s) && !s.inCallback && s.notified == [] && (s.err || s.pending == [])
    ensures Sound(DisconnectNow(s, script)) && DisconnectNow(s, script).phase.Freed?
    ensures DisconnectNow(s, script).commands == s.commands && DisconnectNow(s, script).received == s.received
  {
    hide Teardown, Sound, Deliveries;
    if s.err {
      assert Consistent(s.(disconnecting := true));
      TeardownSound(s.(disconnecting := true), script);
    } else {
      TeardownSound(s, script);
    }
  }

  lemma OneReplySound(s: State, r: Reply, script: Script)
    requires Sound(s) && s.phase.Alive?
    ensures Sound(OneReply(s, r, script))
    ensures OneReply(s, r, script).phase.FailedSpontaneous? <==> s.pending == [] && !r.isError
  {
    hide Deliveries, Consistent, RunCallback, Teardown, DisconnectNow;
    if s.pending == [] {
      ErrorKeeps(s);
      if r.isError {
        DisconnectSound(s.(err := true), script);
      } else {
        PhaseKeeps(s, FailedSpontaneous);
      }
    } else {
      var t := RunCallback(s.(pending := s.pending[1..], received := s.received + [r]),
                           s.pending[0], Answer(r), script);
      ShiftAndRun(s, Answer(r), script);
      if s.pending[0].fn && t.freeing {
        TeardownSound(t, script);
      }
    }
  }

  lemma ErrorKeeps(s: State)
    ensures Consistent(s.(err := true)) == Consistent(s)
  {
    hide Deliveries;
  }

  lemma PhaseKeeps(s: State, phase: Phase)
    ensures Consistent(s.(phase := phase)) == Consistent(s)
  {
    hide Deliveries;
  }

  lemma {:induction false} ProcessSound(s: State, replies: seq<Reply>, protocolError: bool, script: Script)
    requires Sound(s) && s.phase.Alive?
    ensures Sound(Process(s, replies, protocolError, script))
    decreases |replies|
  {
    hide Consistent, OneReply, DisconnectNow, Teardown;
    if replies == [] {
      ErrorKeeps(s);
      if protocolError {
        DisconnectSound(s.(err := true), script);
      } else if s.disconnecting && !s.unsent && s.pending == [] {
        DisconnectSound(s, script);
      }
    } else {
      OneReplySound(s, replies[0], script);
      var t := OneReply(s, replies[0], script);
      if t.phase.Alive? {
        ProcessSound(t, replies[1..], protocolError, script);
      }
    }
  }

  lemma ConnectSound(s: State, connecting: Connecting, script: Script)
    requires Sound(s) && s.phase.Alive?
    ensures Sound(HandleConnect(s, connecting, script))
  {
    hide Deliveries, DisconnectNow;
    ErrorKeeps(s);
    if !s.connected && connecting == Refused {
      DisconnectSound(s.(err := true), script);
    }
  }

  /** Every event keeps the invariant; in particular the assertion on a clean disconnect never fails. */
  lemma StepSound(s: State, e: Event, script: Script)
    requires Sound(s)
    ensures Sound(Step(s, e, script))
  {
    hide Deliveries, Process, DisconnectNow, Teardown, HandleConnect, Consistent;
    if s.phase.Alive? {
      match e
      case CallCommand(fn) => CommandKeeps(s, fn);
      case CallDisconnect =>
        FlagsKeep(s);
        if s.pending == [] { DisconnectSound(s.(disconnecting := true), script); }
      case CallFree =>
        FlagsKeep(s);
        TeardownSound(s.(freeing := true), script);
      case Readable(connecting, broken, replies, protocolError) =>
        ConnectSound(s, connecting, script);
        var t := HandleConnect(s, connecting, script);
        if t.phase.Alive? && t.connected {
          ErrorKeeps(t);
          if broken || t.err {
            DisconnectSound(t.(err := true), script);
          } else {
            ProcessSound(t, replies, protocolError, script);
          }
        }
      case Writable(connecting, broken, done) =>
        ConnectSound(s, connecting, script);
        var t := HandleConnect(s, connecting, script);
        if t.phase.Alive? && t.connected {
          ErrorKeeps(t);
          if broken || t.err {
            DisconnectSound(t.(err := true), script);
          } else {
            SentKeeps(t, !done);
          }
        }
    }
  }

  lemma FlagsKeep(s: State)
    ensures Consistent(s.(disconnecting := true)) == Consistent(s) == Consistent(s.(freeing := true))
  {
    hide Deliveries;
  }

  lemma SentKeeps(s: State, unsent: bool)
    ensures Consistent(s.(unsent := unsent)) == Consistent(s)
  {
    hide Deliveries;
  }

  /** Every run, whatever the user functions do. */
  lemma {:induction false} RunSound(s: State, events: seq<Event>, script: Script)
    requires Sound(s)
    ensures Sound(Run(s, events, script))
    decreases |events|
  {
    hide Sound, Step;
    if events != [] {
      StepSound(s, events[0], script);
      RunSound(Step(s, events[0], script), events[1..], script);
    }
  }

  // ---------------------------------------------------------------- exactly once

  /** How often the user function of command k was run. */
  function Times(log: seq<Fired>, k: nat): nat {
    if log == [] then 0 else (if log[0].id == k then 1 else 0) + Times(log[1..], k)
  }

  lemma {:induction false} TimesOfConcat(a: seq<Fired>, b: seq<Fired>, k: nat)
    ensures Times(a + b, k) == Times(a, k) + Times(b, k)
  {
    if a == [] {
      assert a + b == b;
    } else {
      assert (a + b)[1..] == a[1..] + b;
      TimesOfConcat(a[1..], b, k);
    }
  }

  lemma {:induction false} DeliveredOnce(commands: seq<bool>, received: seq<Reply>, n: nat, k: nat)
    requires n <= |commands|
    ensures Times(Deliveries(commands, received, n), k) == if k < n && commands[k] then 1 else 0
  {
    if n > 0 {
      DeliveredOnce(commands, received, n - 1, k);
      var last := if commands[n - 1] then
                    [Fired(n - 1, if n - 1 < |received| then Answer(received[n - 1]) else NullReply)]
                  else [];
      TimesOfConcat(Deliveries(commands, received, n - 1), last, k);
    }
  }

  lemma {:induction false} DeliveredToItsCommand(commands: seq<bool>, received: seq<Reply>, n: nat)
    requires n <= |commands|
    ensures forall f :: f in Deliveries(commands, received, n) ==>
              && f.id < n && commands[f.id]
              && f.reply == if f.id < |received| then Answer(received[f.id]) else NullReply
  {
    if n > 0 { DeliveredToItsCommand(commands, received, n - 1); }
  }

  /** The main theorem. In every run from a fresh context: the user functions ran in the order of their
      commands; the k-th reply went to the k-th accepted command; once the context is freed, every user
      function has run exactly once, with NULL where no reply came; and the assertion on a clean disconnect
      has held. */
  lemma EveryCallbackOnce(events: seq<Event>, script: Script)
    ensures var s := Run(INITIAL, events, script);
            && s.phase != FailedPending
            && s.log == Deliveries(s.commands, s.received, Done(s))
            && (forall f :: f in s.log ==>
                  && f.id < |s.commands| && s.commands[f.id]
                  && f.reply == if f.id < |s.received| then Answer(s.received[f.id]) else NullReply)
            && (forall k :: 0 <= k < |s.commands| ==> Times(s.log, k) <= 1)
            && (forall k :: 0 <= k < |s.commands| && s.phase.Freed? && s.commands[k] ==> Times(s.log, k) == 1)
  {
    hide Run;
    var s := Run(INITIAL, events, script);
    RunSound(INITIAL, events, script);
    forall k | 0 <= k < |s.commands|
      ensures Times(s.log, k) <= 1 && (s.phase.Freed? && s.commands[k] ==> Times(s.log, k) == 1)
    {
      DeliveredOnce(s.commands, s.received, Done(s), k);
    }
    DeliveredToItsCommand(s.commands, s.received, Done(s));
  }

  // ---------------------------------------------------------------- after a look at a connection in progress

  /** An error number that was left behind makes the context give up at its next read or write, except that
      nothing happens as long as the connection is still in progress. */
  lemma ErrorGivesUp(s: State, e: Event, script: Script)
    requires Sound(s) && s.phase.Alive? && s.err && (e.Readable? || e.Writable?)
    ensures Step(s, e, script).phase.Freed? <==> s.connected || e.connecting != InProgress
    ensures !Step(s, e, script).phase.Freed? ==> Step(s, e, script) == s
  {
    hide Sound, DisconnectNow;
    var connected := s.(connected := true);
    SoundFacts(s);
    DisconnectSound(s, script);
    DisconnectSound(connected, script);
    assert s.(err := true) == s && connected.(err := true) == connected;
  }

  lemma SoundFacts(s: State)
    requires Sound(s) && s.phase.Alive?
    ensures Consistent(s) && Consistent(s.(connected := true)) && !s.inCallback && s.notified == []
  {
  }

  lemma InitialIsSound()
    ensures Sound(INITIAL)
  {
  }

  /** A connection that is established only after it was looked at once is given up all the same. */
  lemma SlowConnectIsGivenUp(script: Script)
    ensures var look := Readable(InProgress, false, [], false);
            var write := Writable(Established, false, true);
            Run(INITIAL, [look, write], script).phase.Freed?
  {
    hide DisconnectNow, Sound;
    var look, write := Readable(InProgress, false, [], false), Writable(Established, false, true);
    var s := Step(INITIAL, look, script);
    assert s == INITIAL.(err := true);
    assert Sound(INITIAL) by { InitialIsSound(); }
    StepSound(INITIAL, look, script);
    ErrorGivesUp(s, write, script);
    assert [look, write][1..] == [write] && [write][1..] == [];
    assert Run(INITIAL, [look, write], script) == Run(s, [write], script);
    assert Run(s, [write], script) == Run(Step(s, write, script), [], script);
  }

  // ---------------------------------------------------------------- closing

  lemma {:induction false} PendingClosed(s: State, script: Script)
    requires s.pending == [] || Closing(s)
    ensures Closing(s) ==> Closing(RunPending(s, script))
    ensures RunPending(s, script).commands == s.commands
    decreases |s.pending|
  {
    hide RunCallback;
    if s.pending != [] {
      var shifted := s.(pending := s.pending[1..]);
      ClosingActions(shifted, s.pending[0], NullReply, script);
      PendingClosed(RunCallback(shifted, s.pending[0], NullReply, script), script);
    }
  }

  lemma DisconnectClosed(s: State, script: Script)
    requires Closing(s)
    ensures Closing(DisconnectNow(s, script)) && DisconnectNow(s, script).commands == s.commands
  {
    hide RunPending;
    PendingClosed(s.(disconnecting := true), script);
    PendingClosed(s, script);
  }

  lemma {:induction false} ProcessClosed(s: State, replies: seq<Reply>, protocolError: bool, script: Script)
    requires Closing(s)
    ensures Closing(Process(s, replies, protocolError, script))
    ensures Process(s, replies, protocolError, script).commands == s.commands
    decreases |replies|
  {
    hide RunCallback, DisconnectNow, RunPending;
    if replies == [] {
      DisconnectClosed(s.(err := true), script);
      DisconnectClosed(s, script);
    } else {
      OneReplyClosed(s, replies[0], script);
      ProcessClosed(OneReply(s, replies[0], script), replies[1..], protocolError, script);
    }
  }

  lemma OneReplyClosed(s: State, r: Reply, script: Script)
    requires Closing(s)
    ensures Closing(OneReply(s, r, script)) && OneReply(s, r, script).commands == s.commands
  {
    hide RunCallback, DisconnectNow, RunPending;
    if s.pending == [] {
      DisconnectClosed(s.(err := true), script);
    } else {
      var shifted := s.(pending := s.pending[1..], received := s.received + [r]);
      ClosingActions(shifted, s.pending[0], Answer(r), script);
      PendingClosed(RunCallback(shifted, s.pending[0], Answer(r), script), script);
    }
  }

  lemma ConnectClosed(s: State, connecting: Connecting, script: Script)
    requires Closing(s)
    ensures Closing(HandleConnect(s, connecting, script)) && HandleConnect(s, connecting, script).commands == s.commands
  {
    hide DisconnectNow;
    DisconnectClosed(s.(err := true), script);
  }

  lemma StepClosed(s: State, e: Event, script: Script)
    requires Closing(s)
    ensures Closing(Step(s, e, script)) && Step(s, e, script).commands == s.commands
  {
    hide RunPending, Process, DisconnectNow, HandleConnect;
    match e
    case CallCommand(fn) =>
    case CallDisconnect => DisconnectClosed(s.(disconnecting := true), script);
    case CallFree => PendingClosed(s.(freeing := true), script);
    case Readable(connecting, broken, replies, protocolError) =>
      var t := HandleConnect(s, connecting, script);
      ConnectClosed(s, connecting, script);
      DisconnectClosed(t.(err := true), script);
      ProcessClosed(t, replies, protocolError, script);
    case Writable(connecting, broken, done) =>
      ConnectClosed(s, connecting, script);
      DisconnectClosed(HandleConnect(s, connecting, script).(err := true), script);
  }

  /** Once disconnecting or freeing has been asked for, no command is accepted any more. */
  lemma {:induction false} NothingNewOnceClosing(s: State, events: seq<Event>, script: Script)
    requires Closing(s)
    ensures Run(s, events, script).commands == s.commands
    decreases |events|
  {
    hide Step, Closing;
    if events != [] {
      StepClosed(s, events[0], script);
      NothingNewOnceClosing(Step(s, events[0], script), events[1..], script);
    }
  }

  // ---------------------------------------------------------------- the other assertion

  /** The state after the first k replies of one read, while the context stays alive. */
  function AfterReplies(s: State, replies: seq<Reply>, k: nat, script: Script): State
    requires k <= |replies|
    decreases k
  {
    if k == 0 then s else OneReply(AfterReplies(s, replies, k - 1, script), replies[k - 1], script)
  }

  lemma {:induction false} AfterRepliesShift(s: State, replies: seq<Reply>, k: nat, script: Script)
    requires 0 < k <= |replies|
    ensures AfterReplies(s, replies, k, script)
         == AfterReplies(OneReply(s, replies[0], script), replies[1..], k - 1, script)
    decreases k
  {
    hide OneReply;
    if k > 1 {
      AfterRepliesShift(s, replies, k - 1, script);
    } else {
      assert AfterReplies(s, replies, 0, script) == s;
    }
  }

  /** A reply nobody waits for, while the context is alive, and which is not an error. */
  predicate Unasked(s: State, replies: seq<Reply>, k: nat, script: Script)
    requires k < |replies|
  {
    var t := AfterReplies(s, replies, k, script);
    t.phase.Alive? && t.pending == [] && !replies[k].isError
  }

  lemma {:induction false} DeadStaysDead(s: State, replies: seq<Reply>, k: nat, script: Script)
    requires s.pending == [] && s.phase != Alive && k <= |replies|
    ensures var t := AfterReplies(s, replies, k, script); t.pending == [] && t.phase != Alive
    decreases k
  {
    hide OneReply;
    if k > 0 {
      DeadStaysDead(s, replies, k - 1, script);
      OneReplyDead(AfterReplies(s, replies, k - 1, script), replies[k - 1], script);
    }
  }

  lemma OneReplyDead(s: State, r: Reply, script: Script)
    requires s.pending == [] && s.phase != Alive
    ensures OneReply(s, r, script).pending == [] && OneReply(s, r, script).phase != Alive
  {
    NothingToRun(s.(err := true, disconnecting := true), script);
    hide RunCallback, RunPending;
  }

  lemma NothingToRun(s: State, script: Script)
    requires s.pending == []
    ensures RunPending(s, script) == s
  {
  }

  lemma UnaskedShift(s: State, replies: seq<Reply>, k: nat, script: Script)
    requires 0 < k < |replies|
    ensures Unasked(s, replies, k, script) == Unasked(OneReply(s, replies[0], script), replies[1..], k - 1, script)
  {
    hide OneReply, AfterReplies;
    AfterRepliesShift(s, replies, k, script);
  }

  /** Without pub/sub, the assertion that the context is subscribed fails exactly when a reply that is
      not an error comes in with no command left to answer. */
  lemma {:induction false} SpontaneousExactly(s: State, replies: seq<Reply>, protocolError: bool, script: Script)
    requires Sound(s) && s.phase.Alive?
    ensures Process(s, replies, protocolError, script).phase.FailedSpontaneous?
       <==> exists k :: 0 <= k < |replies| && Unasked(s, replies, k, script)
    decreases |replies|
  {
    hide OneReply, DisconnectNow, Consistent, Unasked, AfterReplies;
    if replies == [] {
      NoRepliesNoFailure(s, protocolError, script);
    } else {
      var t, rest := OneReply(s, replies[0], script), replies[1..];
      OneReplySound(s, replies[0], script);
      UnaskedFirst(s, replies, script);
      if t.phase.Alive? {
        SpontaneousExactly(t, rest, protocolError, script);
        if k :| 0 <= k < |rest| && Unasked(t, rest, k, script) {
          UnaskedShift(s, replies, k + 1, script);
        }
      } else if t.phase.Freed? {
        forall k | 0 <= k < |rest| ensures !Unasked(t, rest, k, script) {
          DeadStaysDead(t, rest, k, script);
          NotUnasked(t, rest, k, script);
        }
      }
      if k :| 0 < k < |replies| && Unasked(s, replies, k, script) {
        UnaskedShift(s, replies, k, script);
        assert 0 <= k - 1 < |rest|;
      }
    }
  }

  lemma NotUnasked(s: State, replies: seq<Reply>, k: nat, script: Script)
    requires k < |replies| && AfterReplies(s, replies, k, script).phase != Alive
    ensures !Unasked(s, replies, k, script)
  {
    hide AfterReplies;
  }

  lemma UnaskedFirst(s: State, replies: seq<Reply>, script: Script)
    requires replies != []
    ensures Unasked(s, replies, 0, script) == (s.phase.Alive? && s.pending == [] && !replies[0].isError)
  {
    hide OneReply;
  }

  lemma NoRepliesNoFailure(s: State, protocolError: bool, script: Script)
    requires Sound(s) && s.phase.Alive?
    ensures !Process(s, [], protocolError, script).phase.FailedSpontaneous?
  {
    hide DisconnectNow, Consistent;
    ErrorKeeps(s);
    if protocolError {
      DisconnectSound(s.(err := true), script);
    } else if s.disconnecting && !s.unsent && s.pending == [] {
      DisconnectSound(s, script);
    }
  }
}
