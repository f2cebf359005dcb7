/** Runs of the asynchronous context: which commands are accepted, and how a context ends. */
module AsyncRuns {
  import opened Async

  // ---------------------------------------------------------------- what user functions ask for

  /** The commands that a user function gets accepted: those it issues before it disconnects or frees. */
  function Issued(actions: seq<Action>): seq<bool> {
    if actions == [] || !actions[0].Issue? then [] else [actions[0].fn] + Issued(actions[1..])
  }

  /** It disconnects or frees the context. */
  predicate Ends(actions: seq<Action>) {
    exists i :: 0 <= i < |actions| && !actions[i].Issue?
  }

  lemma EndsStep(actions: seq<Action>)
    requires actions != []
    ensures Ends(actions) <==> !actions[0].Issue? || Ends(actions[1..])
  {
    if Ends(actions) && actions[0].Issue? {
      var i :| 0 <= i < |actions| && !actions[i].Issue?;
      assert actions[i] == actions[1..][i - 1];
    }
    if Ends(actions[1..]) {
      var i :| 0 <= i < |actions[1..]| && !actions[1..][i].Issue?;
      assert actions[i + 1] == actions[1..][i];
    }
  }

  lemma OneIssues(s: State, a: Action)
    ensures var t := Act(s, a);
            && t.commands == s.commands + (if Closing(s) || !a.Issue? then [] else [a.fn])
            && |t.pending| - |s.pending| == |t.commands| - |s.commands|
            && (Closing(t) <==> Closing(s) || !a.Issue?)
            && (s.disconnecting ==> t.disconnecting)
  {
  }

  lemma {:induction false} ActionsIssue(s: State, actions: seq<Action>)
    ensures var t := ActAll(s, actions);
            && t.commands == s.commands + (if Closing(s) then [] else Issued(actions))
            && |t.pending| - |s.pending| == |t.commands| - |s.commands|
            && (Closing(t) <==> Closing(s) || Ends(actions))
            && (s.disconnecting ==> t.disconnecting)
    decreases |actions|
  {
    hide Act, Ends;
    if actions != [] {
      EndsStep(actions);
      OneIssues(s, actions[0]);
      ActionsIssue(Act(s, actions[0]), actions[1..]);
    } else {
      assert !Ends(actions) by { NothingEnds(); }
    }
  }

  lemma NothingEnds()
    ensures !Ends([])
  {
  }

  /** The commands that come out of a series of calls of user functions. Only a call with a reply can issue
      any, and none does once the context is closing. */
  function Accepted(closing: bool, fired: seq<Fired>, script: Script): seq<bool>
    decreases |fired|
  {
    if closing || fired == [] || fired[0].reply.NullReply? then []
    else Issued(script(fired[0].id)) + Accepted(Ends(script(fired[0].id)), fired[1..], script)
  }

  /** One of these calls closes the context. */
  predicate EndsIn(fired: seq<Fired>, script: Script) {
    exists i :: 0 <= i < |fired| && Ends(script(fired[i].id))
  }

  predicate AllAnswered(fired: seq<Fired>) {
    forall i :: 0 <= i < |fired| ==> fired[i].reply.Answer?
  }

  predicate NoneAnswered(fired: seq<Fired>) {
    forall i :: 0 <= i < |fired| ==> fired[i].reply.NullReply?
  }

  lemma NoneAnsweredNoneAccepted(closing: bool, fired: seq<Fired>, script: Script)
    requires NoneAnswered(fired)
    ensures Accepted(closing, fired, script) == []
  {
  }

  lemma {:induction false} AcceptedConcat(closing: bool, a: seq<Fired>, b: seq<Fired>, script: Script)
    requires AllAnswered(a)
    ensures Accepted(closing, a + b, script) ==
            Accepted(closing, a, script) + Accepted(closing || EndsIn(a, script), b, script)
    decreases |a|
  {
    hide Issued, Ends;
    if a == [] {
      assert a + b == b;
    } else if !closing {
      assert (a + b)[0] == a[0] && (a + b)[1..] == a[1..] + b;
      AcceptedConcat(Ends(script(a[0].id)), a[1..], b, script);
      EndsInStep(a, script);
    }
  }

  lemma EndsInStep(fired: seq<Fired>, script: Script)
    requires fired != []
    ensures EndsIn(fired, script) <==> Ends(script(fired[0].id)) || EndsIn(fired[1..], script)
  {
    hide Ends;
    if EndsIn(fired, script) && !Ends(script(fired[0].id)) {
      var i :| 0 <= i < |fired| && Ends(script(fired[i].id));
      assert fired[i] == fired[1..][i - 1];
    }
    if EndsIn(fired[1..], script) {
      var i :| 0 <= i < |fired[1..]| && Ends(script(fired[1..][i].id));
      assert fired[i + 1] == fired[1..][i];
    }
  }

  // ---------------------------------------------------------------- one event

  /** From one state to a later one, `fired` are the calls in between, and the commands have grown by what
      these calls issued. Calls without a reply are made only when the context is torn down. */
  ghost predicate Grown(s: State, t: State, fired: seq<Fired>, script: Script) {
    && t.log == s.log + fired
    && t.commands == s.commands + Accepted(Closing(s), fired, script)
    && (t.phase.Alive? ==> AllAnswered(fired) && (Closing(t) <==> Closing(s) || EndsIn(fired, script)))
  }

  lemma GrownTwice(s: State, u: State, t: State, a: seq<Fired>, b: seq<Fired>, script: Script)
    requires Grown(s, u, a, script) && Grown(u, t, b, script) && AllAnswered(a)
    requires Closing(u) <==> Closing(s) || EndsIn(a, script)
    ensures Grown(s, t, a + b, script)
  {
    hide Ends, EndsIn, Accepted, Closing;
    AcceptedConcat(Closing(s), a, b, script);
    Associate(s.log, a, b);
    Associate(s.commands, Accepted(Closing(s), a, script), Accepted(Closing(u), b, script));
    EndsInConcat(a, b, script);
  }

  lemma Associate<T>(a: seq<T>, b: seq<T>, c: seq<T>)
    ensures a + b + c == a + (b + c)
  {
  }

  lemma EndsInConcat(a: seq<Fired>, b: seq<Fired>, script: Script)
    ensures EndsIn(a + b, script) <==> EndsIn(a, script) || EndsIn(b, script)
  {
    hide Ends;
    if EndsIn(a, script) {
      var i :| 0 <= i < |a| && Ends(script(a[i].id));
      assert (a + b)[i] == a[i];
    }
    if EndsIn(b, script) {
      var i :| 0 <= i < |b| && Ends(script(b[i].id));
      assert (a + b)[|a| + i] == b[i];
    }
  }

  /** One call with a reply. */
  lemma CallGrows(s: State, cb: Callback, r: Reply, script: Script) returns (fired: seq<Fired>)
    requires s.phase.Alive?
    ensures Grown(s, RunCallback(s, cb, Answer(r), script), fired, script)
    ensures fired == if cb.fn then [Fired(cb.id, Answer(r))] else []
  {
    fired := if cb.fn then [Fired(cb.id, Answer(r))] else [];
    assert s.log + [] == s.log;
    if cb.fn {
      var started := s.(inCallback := true, log := s.log + fired);
      ActionsIssue(started, script(cb.id));
      ActsKeep(started, script(cb.id));
      hide Ends, Issued, ActAll;
      assert fired[1..] == [];
      assert Accepted(Closing(s), fired, script) == if Closing(s) then [] else Issued(script(cb.id)) + [];
      assert Issued(script(cb.id)) + [] == Issued(script(cb.id));
      EndsInStep(fired, script);
    }
  }

  /** The calls of a teardown have no reply and issue nothing. */
  lemma {:induction false} PendingGrows(s: State, script: Script) returns (fired: seq<Fired>)
    requires s.pending == [] || Closing(s)
    ensures var t := RunPending(s, script);
            && t.log == s.log + fired && t.commands == s.commands && t.phase == s.phase
            && NoneAnswered(fired)
    decreases |s.pending|
  {
    fired := [];
    if s.pending != [] {
      var shifted := s.(pending := s.pending[1..]);
      var cb := s.pending[0];
      ClosingActions(shifted, cb, NullReply, script);
      ActsKeep(shifted.(inCallback := true, log := s.log + [Fired(cb.id, NullReply)]), script(cb.id));
      hide ActAll;
      var rest := PendingGrows(RunCallback(shifted, cb, NullReply, script), script);
      fired := (if cb.fn then [Fired(cb.id, NullReply)] else []) + rest;
      assert s.log + [] + rest == s.log + rest;
      Associate(s.log, [Fired(cb.id, NullReply)], rest);
    }
  }

  lemma TeardownGrows(s: State, script: Script) returns (fired: seq<Fired>)
    requires s.pending == [] || Closing(s)
    ensures Grown(s, Teardown(s, script), fired, script) && NoneAnswered(fired)
  {
    hide RunPending;
    fired := PendingGrows(s, script);
    assert s.commands + [] == s.commands;
  }

  /** Changing a flag that opens nothing changes nothing about what is accepted when nothing is issued. */
  lemma DisconnectGrows(s: State, script: Script) returns (fired: seq<Fired>)
    requires s.err || s.pending == []
    ensures Grown(s, DisconnectNow(s, script), fired, script) && NoneAnswered(fired)
  {
    hide RunPending;
    if s.err {
      fired := PendingGrows(s.(disconnecting := true), script);
    } else {
      fired := PendingGrows(s, script);
    }
    assert s.commands + [] == s.commands;
  }

  lemma ReplyGrows(s: State, r: Reply, script: Script) returns (fired: seq<Fired>)
    requires Sound(s) && s.phase.Alive?
    ensures Grown(s, OneReply(s, r, script), fired, script)
  {
    hide RunCallback, Teardown, DisconnectNow, Consistent;
    if s.pending == [] {
      fired := [];
      if r.isError {
        fired := DisconnectGrows(s.(err := true), script);
      } else {
        assert s.log + [] == s.log && s.commands + [] == s.commands;
      }
    } else {
      var u := s.(pending := s.pending[1..], received := s.received + [r]);
      var t := RunCallback(u, s.pending[0], Answer(r), script);
      fired := CallGrows(u, s.pending[0], r, script);
      ShiftAndRun(s, Answer(r), script);
      if s.pending[0].fn && t.freeing {
        var rest := TeardownGrows(t, script);
        GrownTwice(s, t, Teardown(t, script), fired, rest, script);
        fired := fired + rest;
      }
    }
  }

  lemma {:induction false} ProcessGrows(s: State, replies: seq<Reply>, protocolError: bool, script: Script)
    returns (fired: seq<Fired>)
    requires Sound(s) && s.phase.Alive?
    ensures Grown(s, Process(s, replies, protocolError, script), fired, script)
    decreases |replies|
  {
    hide OneReply, DisconnectNow, Consistent;
    if replies == [] {
      fired := [];
      if protocolError {
        fired := DisconnectGrows(s.(err := true), script);
      } else if s.disconnecting && !s.unsent && s.pending == [] {
        fired := DisconnectGrows(s, script);
      } else {
        assert s.log + [] == s.log && s.commands + [] == s.commands;
      }
    } else {
      fired := ReplyGrows(s, replies[0], script);
      OneReplySound(s, replies[0], script);
      var t := OneReply(s, replies[0], script);
      if t.phase.Alive? {
        var rest := ProcessGrows(t, replies[1..], protocolError, script);
        GrownTwice(s, t, Process(t, replies[1..], protocolError, script), fired, rest, script);
        fired := fired + rest;
      }
    }
  }

  /** The commands one event gets accepted: the one it asks for, and those that the user functions it runs
      issue. */
  function Requested(s: State, e: Event, script: Script): seq<bool> {
    var t := Step(s, e, script);
    if !s.phase.Alive? || |t.log| < |s.log| then []
    else (if e.CallCommand? && !Closing(s) then [e.fn] else []) + Accepted(Closing(s), t.log[|s.log|..], script)
  }

  /** On a context that is alive, a command is accepted exactly when it was neither disconnected nor freed
      before; and what is accepted is kept, in order. */
  lemma StepAccepts(s: State, e: Event, script: Script)
    requires Sound(s)
    ensures Step(s, e, script).commands == s.commands + Requested(s, e, script)
    ensures s.log <= Step(s, e, script).log
    ensures s.phase.Alive? && e.CallCommand? && !Closing(s) ==>
              var t := Step(s, e, script);
              && t.commands == s.commands + [e.fn] && t.log == s.log && t.unsent
              && t.pending == s.pending + [Callback(|s.commands|, e.fn)]
  {
    if s.phase.Alive? {
      var fired := EventGrows(s, e, script);
      assert (s.log + fired)[|s.log|..] == fired;
      hide DisconnectNow, Teardown, Process, HandleConnect, Consistent;
      if e.CallCommand? { assert s.commands + [] == s.commands && [e.fn] + [] == [e.fn]; }
      var accepted := Accepted(Closing(s), fired, script);
      assert s.commands + ([] + accepted) == s.commands + accepted;
    } else {
      assert s.commands + [] == s.commands;
    }
  }

  lemma EventGrows(s: State, e: Event, script: Script) returns (fired: seq<Fired>)
    requires Sound(s) && s.phase.Alive?
    ensures Step(s, e, script).log == s.log + fired
    ensures e.CallCommand? ==> fired == []
    ensures !e.CallCommand? ==>
              Step(s, e, script).commands == s.commands + Accepted(Closing(s), fired, script)
  {
    hide DisconnectNow, Process, Consistent;
    fired := [];
    assert s.log + [] == s.log && s.commands + [] == s.commands;
    match e
    case CallCommand(_) =>
    case CallDisconnect =>
      if s.pending == [] {
        fired := DisconnectGrows(s.(disconnecting := true), script);
        NoneAnsweredNoneAccepted(Closing(s), fired, script);
        NoneAnsweredNoneAccepted(true, fired, script);
      }
    case CallFree =>
      fired := TeardownGrows(s.(freeing := true), script);
      NoneAnsweredNoneAccepted(Closing(s), fired, script);
      NoneAnsweredNoneAccepted(true, fired, script);
    case Readable(connecting, broken, replies, protocolError) =>
      fired := ConnectGrows(s, connecting, script);
      var t := HandleConnect(s, connecting, script);
      ConnectSound(s, connecting, script);
      if t.phase.Alive? && t.connected {
        if broken || t.err {
          fired := DisconnectGrows(t.(err := true), script);
        } else {
          fired := ProcessGrows(t, replies, protocolError, script);
        }
      }
    case Writable(connecting, broken, done) =>
      fired := ConnectGrows(s, connecting, script);
      var t := HandleConnect(s, connecting, script);
      ConnectSound(s, connecting, script);
      if t.phase.Alive? && t.connected && (broken || t.err) {
        fired := DisconnectGrows(t.(err := true), script);
      }
  }

  lemma ConnectGrows(s: State, connecting: Connecting, script: Script) returns (fired: seq<Fired>)
    requires Sound(s) && s.phase.Alive?
    ensures var t := HandleConnect(s, connecting, script);
            && t.log == s.log + fired && t.commands == s.commands + Accepted(Closing(s), fired, script)
            && (t.phase.Alive? ==> t.log == s.log && t.commands == s.commands && Closing(t) == Closing(s))
  {
    hide DisconnectNow, Consistent;
    fired := [];
    assert s.log + [] == s.log && s.commands + [] == s.commands;
    if !s.connected && connecting == Refused {
      fired := DisconnectGrows(s.(err := true), script);
      ErrorKeeps(s);
      DisconnectSound(s.(err := true), script);
    }
  }

  /** Every run: the commands are, in order, those that calls and user functions asked for while the context
      was alive and not closing. */
  function AllRequested(s: State, events: seq<Event>, script: Script): seq<bool>
    decreases |events|
  {
    if events == [] then []
    else Requested(s, events[0], script) + AllRequested(Step(s, events[0], script), events[1..], script)
  }

  lemma {:induction false} RunAccepts(s: State, events: seq<Event>, script: Script)
    requires Sound(s)
    ensures Run(s, events, script).commands == s.commands + AllRequested(s, events, script)
    decreases |events|
  {
    hide Sound, Step, Requested;
    if events != [] {
      var e, u := events[0], Step(s, events[0], script);
      StepAccepts(s, e, script);
      StepSound(s, e, script);
      RunAccepts(u, events[1..], script);
      assert s.commands + Requested(s, e, script) + AllRequested(u, events[1..], script)
          == s.commands + (Requested(s, e, script) + AllRequested(u, events[1..], script));
    }
  }

  // ---------------------------------------------------------------- how a context ends

  /** Freeing frees at once; disconnecting does when nothing is pending, and otherwise waits without running
      anything. */
  lemma AskedCloses(s: State, script: Script)
    requires Sound(s) && s.phase.Alive?
    ensures Step(s, CallFree, script).phase.Freed?
    ensures s.pending == [] ==> Step(s, CallDisconnect, script).phase.Freed?
    ensures s.pending != [] ==> Step(s, CallDisconnect, script) == s.(disconnecting := true)
  {
    hide RunPending;
    if s.pending == [] && s.err { assert s.(disconnecting := true).pending == []; }
  }

  lemma {:induction false} ProcessCompletes(s: State, replies: seq<Reply>, script: Script)
    requires Sound(s) && s.phase.Alive? && s.disconnecting && !s.unsent && |replies| == |s.pending|
    ensures Process(s, replies, false, script).phase.Freed?
    decreases |replies|
  {
    if replies == [] {
      DisconnectSound(s, script);
    } else {
      OneReplySound(s, replies[0], script);
      ReplyKeepsClosing(s, replies[0], script);
      hide OneReply, Sound;
      var t := OneReply(s, replies[0], script);
      if t.phase.Alive? { ProcessCompletes(t, replies[1..], script); } else { NotAliveIsFreed(t); }
    }
  }

  lemma NotAliveIsFreed(t: State)
    requires Sound(t) && t.phase != Alive && t.phase != FailedSpontaneous
    ensures t.phase.Freed?
  {
  }

  lemma ReplyKeepsClosing(s: State, r: Reply, script: Script)
    requires Sound(s) && s.phase.Alive? && s.disconnecting && s.pending != []
    ensures var t := OneReply(s, r, script);
            t.phase.Alive? ==> t.disconnecting && t.unsent == s.unsent && |t.pending| == |s.pending| - 1
  {
    hide Teardown, Consistent;
    if s.pending[0].fn {
      var started := s.(pending := s.pending[1..], received := s.received + [r], inCallback := true,
                        log := s.log + [Fired(s.pending[0].id, Answer(r))]);
      ActionsIssue(started, script(s.pending[0].id));
      ActsKeep(started, script(s.pending[0].id));
      var u := ActAll(started, script(s.pending[0].id)).(inCallback := false);
      assert Closing(u);
      TeardownFrees(u, script);
    }
  }

  lemma TeardownFrees(s: State, script: Script)
    requires s.pending == [] || Closing(s)
    ensures Teardown(s, script).phase.Freed?
  {
    hide RunPending;
  }

  /** A context that was disconnected is freed by the read that brings the last reply it waits for, as soon as
      everything was written. */
  lemma DisconnectCompletes(s: State, replies: seq<Reply>, script: Script)
    requires Sound(s) && s.phase.Alive? && s.connected && !s.err
    requires s.disconnecting && !s.unsent && |replies| == |s.pending|
    ensures Step(s, Readable(Established, false, replies, false), script).phase.Freed?
  {
    hide Sound, Process;
    ProcessCompletes(s, replies, script);
  }

  /** The notice of the end: a freed context, and one that is disconnected in peace, says so with success; a
      broken connection on which nothing waits with failure. */
  lemma Notices(s: State, connecting: Connecting, replies: seq<Reply>, script: Script)
    requires Sound(s) && s.phase.Alive? && s.connected && s.pending == []
    ensures Step(s, CallFree, script).notified == [true]
    ensures !s.err ==> Step(s, CallDisconnect, script).notified == [true]
    ensures Step(s, Readable(connecting, true, replies, false), script).notified == [false]
  {
    hide Consistent;
    assert [] + [true] == [true] && [] + [false] == [false];
  }

  /** What a look at the socket does: one that is broken or refused frees the context, one still in progress
      leaves an error behind, and a completed write leaves nothing to write. */
  lemma Looks(s: State, connecting: Connecting, replies: seq<Reply>, wrong: bool, done: bool, script: Script)
    requires Sound(s) && s.phase.Alive?
    ensures s.connected || connecting == Established ==>
              && Step(s, Readable(connecting, true, replies, wrong), script).phase.Freed?
              && Step(s, Writable(connecting, true, done), script).phase.Freed?
              && (!s.err ==>
                    Step(s, Writable(connecting, false, done), script) == s.(connected := true, unsent := !done))
    ensures !s.connected && connecting == Refused ==>
              forall broken :: Step(s, Readable(connecting, broken, replies, wrong), script).phase.Freed?
                            && Step(s, Writable(connecting, broken, done), script).phase.Freed?
    ensures !s.connected && connecting == InProgress ==>
              forall broken :: Step(s, Readable(connecting, broken, replies, wrong), script) == s.(err := true)
                            && Step(s, Writable(connecting, broken, done), script) == s.(err := true)
  {
    hide Teardown, Consistent, Process;
    ErrorFrees(s, script);
    ErrorFrees(s.(connected := true), script);
  }

  lemma ErrorFrees(s: State, script: Script)
    ensures DisconnectNow(s.(err := true), script).phase.Freed?
  {
    TeardownFrees(s.(err := true, disconnecting := true), script);
  }

  /** A protocol error ends the context, whatever was read before it. */
  lemma {:induction false} ProtocolErrorEnds(s: State, replies: seq<Reply>, script: Script)
    ensures !Process(s, replies, true, script).phase.Alive?
    decreases |replies|
  {
    hide OneReply, DisconnectNow;
    if replies == [] {
      ErrorFrees(s, script);
    } else {
      var t := OneReply(s, replies[0], script);
      if t.phase.Alive? { ProtocolErrorEnds(t, replies[1..], script); }
    }
  }

  lemma {:induction false} ActionsAsk(s: State, actions: seq<Action>)
    ensures ActAll(s, actions).freeing <==> s.freeing || Free in actions
    ensures ActAll(s, actions).disconnecting <==> s.disconnecting || Disconnect in actions
    decreases |actions|
  {
    if actions != [] {
      hide ActAll;
      ActionsStep(s, actions);
      ActionsAsk(Act(s, actions[0]), actions[1..]);
      assert forall a :: a in actions <==> a == actions[0] || a in actions[1..];
    } else {
      hide Act;
    }
  }

  lemma ActionsStep(s: State, actions: seq<Action>)
    requires actions != []
    ensures ActAll(s, actions) == ActAll(Act(s, actions[0]), actions[1..])
  {
    hide Act;
  }

  /** What a user function asked for: freeing is done when it returns, disconnecting is remembered. */
  lemma AskedInCallback(s: State, r: Reply, script: Script)
    requires Sound(s) && s.phase.Alive? && s.pending != [] && s.pending[0].fn
    ensures var t, asked := OneReply(s, r, script), script(s.pending[0].id);
            && (Free in asked ==> t.phase.Freed?)
            && (Free !in asked ==> t.phase.Alive? && (t.disconnecting <==> s.disconnecting || Disconnect in asked))
  {
    hide Teardown, Consistent, ActAll;
    var asked := script(s.pending[0].id);
    var started := s.(pending := s.pending[1..], received := s.received + [r], inCallback := true,
                      log := s.log + [Fired(s.pending[0].id, Answer(r))]);
    ActionsAsk(started, asked);
    ActsKeep(started, asked);
    TeardownFrees(ActAll(started, asked).(inCallback := false, freeing := true), script);
  }

  // ---------------------------------------------------------------- the shortest run

  /** One command, one completed write, one reply: the user function is called once, with that reply. */
  lemma OneCommand(r: Reply, script: Script)
    requires script(0) == []
    ensures var write, read := Writable(Established, false, true), Readable(Established, false, [r], false);
            var events := [CallCommand(true), write, read];
            var s := Run(INITIAL, events, script);
            && s.log == [Fired(0, Answer(r))] && s.commands == [true] && s.received == [r]
            && s.pending == [] && s.phase.Alive? && s.connected && !s.unsent
  {
    var write, read := Writable(Established, false, true), Readable(Established, false, [r], false);
    var s1 := Step(INITIAL, CallCommand(true), script);
    assert s1 == INITIAL.(pending := [Callback(0, true)], commands := [true], unsent := true);
    var s2 := Step(s1, write, script);
    assert s2 == s1.(connected := true, unsent := false);
    var s3 := Step(s2, read, script);
    assert [r][1..] == [];
    assert OneReply(s2, r, script) == s2.(pending := [], received := [r], log := [Fired(0, Answer(r))]);
    assert Process(s2, [r], false, script) == Process(OneReply(s2, r, script), [], false, script);
    assert s3 == OneReply(s2, r, script);
    assert [CallCommand(true), write, read][1..] == [write, read] && [write, read][1..] == [read] && [read][1..] == [];
    hide Step;
    assert Run(INITIAL, [CallCommand(true), write, read], script) == Run(s1, [write, read], script);
    assert Run(s1, [write, read], script) == Run(s2, [read], script) == Run(s3, [], script);
  }
}
