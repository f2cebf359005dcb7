/** The asynchronous context as it runs: flag fields, a linked list of callbacks, and user functions that
    call back into it. Each method computes the function of module Async that describes it, so that what
    is proved there of every run holds of the context. */
module AsyncContext {
  import opened Async

  class CallbackNode {
    const cb: Callback
    var next: CallbackNode?

    constructor (cb: Callback)
      ensures this.cb == cb && next == null
    {
      this.cb := cb;
      next := null;
    }
  }

  /** redisCallbackList. */
  class CallbackList {
    var head: CallbackNode?
    var tail: CallbackNode?
    ghost var nodes: seq<CallbackNode>
    ghost var contents: seq<Callback>
    ghost var repr: set<object>

    ghost predicate Valid()
      reads this, repr
    {
      && this in repr
      && |contents| == |nodes|
      && (forall i :: 0 <= i < |nodes| ==> nodes[i] in repr && nodes[i].cb == contents[i])
      && (forall i, j :: 0 <= i < j < |nodes| ==> nodes[i] != nodes[j])
      && (forall i :: 0 <= i < |nodes| - 1 ==> nodes[i].next == nodes[i + 1])
      && (nodes != [] ==> nodes[|nodes| - 1].next == null)
      && head == (if nodes == [] then null else nodes[0])
      && tail == (if nodes == [] then null else nodes[|nodes| - 1])
    }

    constructor ()
      ensures Valid() && contents == [] && repr == {this}
    {
      head, tail := null, null;
      nodes, contents, repr := [], [], {this};
    }

    /** __redisPushCallback. */
    method Push(source: Callback)
      requires Valid()
      modifies repr
      ensures Valid() && contents == old(contents) + [source] && fresh(repr - old(repr))
    {
      var cb := new CallbackNode(source);
      if head == null { head := cb; }
      if tail != null { tail.next := cb; }
      tail := cb;
      nodes, contents, repr := nodes + [cb], contents + [source], repr + {cb};
    }

    /** __redisShiftCallback. */
    method Shift() returns (found: bool, target: Callback)
      requires Valid()
      modifies this
      ensures Valid() && found == (old(contents) != []) && repr == old(repr)
      ensures found ==> target == old(contents)[0] && contents == old(contents)[1..]
      ensures !found ==> contents == old(contents)
    {
      var cb := head;
      if cb == null { return false, Callback(0, false); }
      assert |nodes| > 1 ==> nodes[0].next == nodes[0 + 1];
      assert |nodes| > 1 ==> nodes[0] != nodes[|nodes| - 1];
      head := cb.next;
      if cb == tail { tail := null; }
      ghost var was := nodes;
      nodes, contents := nodes[1..], contents[1..];
      assert forall i :: 0 <= i < |nodes| ==> nodes[i] == was[i + 1];
      return true, cb.cb;
    }
  }

  class AsyncContext {
    const script: Script
    const replies: CallbackList
    var connected: bool
    var disconnecting: bool
    var freeing: bool
    var inCallback: bool
    var err: bool
    var unsent: bool
    var phase: Phase
    var notified: seq<bool>
    var commands: seq<bool>
    var received: seq<Reply>
    var log: seq<Fired>

    ghost predicate Valid()
      reads this, replies, replies.repr
    {
      replies.Valid() && this !in replies.repr
    }

    ghost function State(): State
      reads this, replies
    {
      Async.State.State(connected, disconnecting, freeing, inCallback, err, unsent, replies.contents, phase,
                        notified, commands, received, log)
    }

    twostate predicate Kept()
      reads this, replies, replies.repr
    {
      Valid() && fresh(replies.repr - old(replies.repr))
    }

    constructor (userFunctions: Script)
      ensures Valid() && fresh(replies.repr) && State() == INITIAL && script == userFunctions
    {
      script := userFunctions;
      replies := new CallbackList();
      connected, disconnecting, freeing, inCallback, err, unsent := false, false, false, false, false, false;
      phase, notified, commands, received, log := Alive, [], [], [], [];
    }

    /** __redisAsyncCommand. */
    method AsyncCommand(fn: bool) returns (ok: bool)
      requires Valid()
      modifies this, replies.repr
      ensures Kept() && State() == Command(old(State()), fn)
      ensures ok <==> !old(disconnecting) && !old(freeing)
      ensures ok ==>
                && replies.contents == old(replies.contents) + [Callback(old(|commands|), fn)]
                && commands == old(commands) + [fn] && unsent
    {
      if disconnecting || freeing { return false; }
      replies.Push(Callback(|commands|, fn));
      commands := commands + [fn];
      unsent := true;
      return true;
    }

    /** A user function at work on the context it was given. */
    method UserFunction(id: nat)
      requires Valid() && inCallback
      modifies this, replies.repr
      ensures Kept() && State() == ActAll(old(State()), script(id))
      decreases 0, 6
    {
      hide Act;
      var actions := script(id);
      var i := 0;
      assert actions[0..] == actions;
      while i < |actions|
        invariant i <= |actions| && Kept() && inCallback
        invariant ActAll(old(State()), actions) == ActAll(State(), actions[i..])
      {
        ActsKeep(State(), [actions[i]]);
        PerformOne(actions[i]);
        assert actions[i..][1..] == actions[i + 1..];
        i := i + 1;
      }
    }

    method PerformOne(a: Action)
      requires Valid() && inCallback
      modifies this, replies.repr
      ensures Kept() && State() == Act(old(State()), a) && inCallback
      decreases 0, 5
    {
      match a
      case Issue(fn) => var _ := AsyncCommand(fn);
      case Disconnect => AsyncDisconnect();
      case Free => AsyncFree();
    }

    /** __redisRunCallback. */
    method RunCallback(cb: Callback, answer: Answer)
      requires Valid() && !inCallback
      modifies this, replies.repr
      ensures Kept() && State() == Async.RunCallback(old(State()), cb, answer, script)
      decreases 1, 1
    {
      hide ActAll;
      if cb.fn {
        inCallback := true;
        log := log + [Fired(cb.id, answer)];
        UserFunction(cb.id);
        inCallback := false;
      }
    }

    /** __redisAsyncFree. */
    method FreeNow()
      requires Valid() && !inCallback && (replies.contents == [] || Closing(State()))
      modifies this, replies.repr
      ensures Kept() && State() == Teardown(old(State()), script)
      decreases 1, 2
    {
      hide Async.RunCallback, RunPending, Closing;
      while true
        invariant Kept() && !inCallback
        invariant replies.contents == [] || Closing(State())
        invariant RunPending(old(State()), script) == RunPending(State(), script)
        decreases |replies.contents|
      {
        PendingStep(State(), script);
        var found, cb := replies.Shift();
        if !found { break; }
        RunCallback(cb, NullReply);
      }
      if connected {
        notified := notified + [freeing || !err];
      }
      phase := Freed;
    }

    static lemma PendingStep(s: State, script: Script)
      requires !s.inCallback && (s.pending == [] || Closing(s))
      ensures s.pending == [] ==> RunPending(s, script) == s
      ensures s.pending != [] ==>
                var t := Async.RunCallback(s.(pending := s.pending[1..]), s.pending[0], NullReply, script);
                && Closing(t) && t.pending == s.pending[1..] && !t.inCallback
                && RunPending(s, script) == RunPending(t, script)
    {
      hide ActAll;
      if s.pending != [] {
        ClosingActions(s.(pending := s.pending[1..]), s.pending[0], NullReply, script);
      }
    }

    /** redisAsyncFree: at once, or when the callback that called it has returned. */
    method AsyncFree()
      requires Valid()
      modifies this, replies.repr
      ensures Kept()
      ensures State() == if old(inCallback) then old(State()).(freeing := true) else UserFree(old(State()), script)
      decreases if inCallback then 0 else 1, 4
    {
      hide Teardown;
      freeing := true;
      if !inCallback {
        FreeNow();
      }
    }

    /** __redisAsyncDisconnect. */
    method DisconnectNow()
      requires Valid() && !inCallback && (err || replies.contents == [])
      modifies this, replies.repr
      ensures Kept() && State() == Async.DisconnectNow(old(State()), script)
      decreases 1, 3
    {
      hide Teardown;
      if !err {
        var found, _ := replies.Shift();
        assert !found;
      } else {
        disconnecting := true;
      }
      FreeNow();
    }

    /** redisAsyncDisconnect. */
    method AsyncDisconnect()
      requires Valid()
      modifies this, replies.repr
      ensures Kept()
      ensures State() ==
                if old(inCallback) then old(State()).(disconnecting := true) else UserDisconnect(old(State()), script)
      decreases if inCallback then 0 else 1, 4
    {
      hide Async.DisconnectNow;
      disconnecting := true;
      if !inCallback && replies.head == null {
        DisconnectNow();
      }
    }

    static lemma RunsFlag(s: State, cb: Callback, answer: Answer, script: Script)
      requires !s.inCallback
      ensures !Async.RunCallback(s, cb, answer, script).inCallback
    {
      hide ActAll;
    }

    /** One reply in the loop of redisProcessCallbacks. */
    method OneReply(reply: Reply)
      requires Valid() && !inCallback
      modifies this, replies.repr
      ensures Kept() && State() == Async.OneReply(old(State()), reply, script)
    {
      hide Async.RunCallback, Async.DisconnectNow, Teardown;
      var found, cb := replies.Shift();
      if !found {
        if reply.isError {
          err := true;
          DisconnectNow();
        } else {
          phase := FailedSpontaneous;
        }
        return;
      }
      received := received + [reply];
      RunsFlag(State(), cb, Answer(reply), script);
      RunCallback(cb, Answer(reply));
      if cb.fn && freeing {
        FreeNow();
      }
    }

    /** redisProcessCallbacks on what the reader holds. */
    method ProcessCallbacks(input: seq<Reply>, protocolError: bool)
      requires Valid() && Sound(State()) && phase.Alive?
      modifies this, replies.repr
      ensures Kept() && State() == Process(old(State()), input, protocolError, script)
    {
      hide Async.OneReply, Async.DisconnectNow, Sound;
      SoundFlag(State());
      var i := 0;
      assert input[0..] == input;
      while i < |input|
        invariant i <= |input| && Kept() && !inCallback && Sound(State()) && phase.Alive?
        invariant Process(old(State()), input, protocolError, script)
               == Process(State(), input[i..], protocolError, script)
      {
        OneReplySound(State(), input[i], script);
        assert input[i..][1..] == input[i + 1..];
        OneReply(input[i]);
        SoundFlag(State());
        i := i + 1;
        if !phase.Alive? { return; }
      }
      assert input[i..] == [];
      if protocolError {
        err := true;
        DisconnectNow();
      } else if disconnecting && !unsent && replies.head == null {
        DisconnectNow();
      }
    }

    static lemma SoundFlag(s: State)
      requires Sound(s)
      ensures !s.inCallback
    {
    }

    /** __redisAsyncHandleConnect. */
    method HandleConnect(connecting: Connecting)
      requires Valid() && !inCallback
      modifies this, replies.repr
      ensures Kept() && State() == Async.HandleConnect(old(State()), connecting, script)
    {
      hide Async.DisconnectNow;
      if connected { return; }
      match connecting
      case InProgress => err := true;
      case Refused =>
        err := true;
        DisconnectNow();
      case Established => connected := true;
    }

    /** redisAsyncHandleRead. */
    method HandleRead(connecting: Connecting, broken: bool, input: seq<Reply>, protocolError: bool)
      requires Valid() && Sound(State()) && phase.Alive?
      modifies this, replies.repr
      ensures Kept() && State() == Step(old(State()), Readable(connecting, broken, input, protocolError), script)
    {
      hide Async.HandleConnect, Async.DisconnectNow, Process, Sound;
      SoundFlag(State());
      ConnectSound(State(), connecting, script);
      HandleConnect(connecting);
      SoundFlag(State());
      if !phase.Alive? || !connected { return; }
      if broken || err {
        err := true;
        DisconnectNow();
      } else {
        ProcessCallbacks(input, protocolError);
      }
    }

    /** redisAsyncHandleWrite. */
    method HandleWrite(connecting: Connecting, broken: bool, done: bool)
      requires Valid() && Sound(State()) && phase.Alive?
      modifies this, replies.repr
      ensures Kept() && State() == Step(old(State()), Writable(connecting, broken, done), script)
    {
      hide Async.HandleConnect, Async.DisconnectNow, Sound;
      SoundFlag(State());
      ConnectSound(State(), connecting, script);
      HandleConnect(connecting);
      SoundFlag(State());
      if !phase.Alive? || !connected { return; }
      if broken || err {
        err := true;
        DisconnectNow();
      } else {
        unsent := !done;
      }
    }
  }
}
