/** net/connection.cc and net/server.cc: connections that put off closing while a data handler is on the
    stack, and the server that owns the live ones.

    The subclass hooks are any finite scripts of calls back into the library.  Every effect on the event
    loop, the descriptor and the owner goes to a ghost trace watched by SafetyMonitor. */
module Net {
  import opened Wrappers
  import opened SafetyMonitor

  datatype State = INIT | CONNECTED | DISCONNECTED | DISCONNECTING
  datatype IoState = NOT_REGISTERED | READY | NOT_READY | ERROR

  /** What a hook may do: close its connection, ask for a write event, close any connection of the
      server, which it names by its place in the server's roster. */
  datatype Call = CallClose | CallRegisterForWrite | CallCloseOther(fd: nat)

  predicate NoOthers(calls: seq<Call>) {
    forall i :: 0 <= i < |calls| ==> !calls[i].CallCloseOther?
  }

  /** What calls made while a handler runs do to the state and the registrations of its connection. */
  predicate Outcome(calls: seq<Call>, was: State, before: Option<Monitor>, now: State, after: Option<Monitor>) {
    && now == (if was == CONNECTED && CallClose in calls then DISCONNECTING else was)
    && before.Some?
    && (CallClose !in calls ==>
          after == Some(before.value.(writing := before.value.writing
                                                || (now == CONNECTED && CallRegisterForWrite in calls))))
  }

  lemma NoCalls(state: State, watch: Option<Monitor>)
    requires watch.Some?
    ensures Outcome([], state, watch, state, watch)
  {
  }

  lemma OneCallMore(calls: seq<Call>, was: State, before: Option<Monitor>, mid: State, between: Option<Monitor>,
                    now: State, after: Option<Monitor>)
    requires calls != []
    ensures CallClose in calls <==> calls[0] == CallClose || CallClose in calls[1..]
    ensures NoOthers(calls) ==> NoOthers([calls[0]]) && NoOthers(calls[1..])
    ensures Outcome([calls[0]], was, before, mid, between) && Outcome(calls[1..], mid, between, now, after) ==>
              Outcome(calls, was, before, now, after)
  {
    assert calls == [calls[0]] + calls[1..];
  }

  class Connection {
    var state: State
    var readState: IoState
    var writeState: IoState
    var canClose: bool            // can_close_connection_
    var server: Server?           // whoever is behind on_close_; null when it was never set
    const closeOk: bool           // what ::close answers for this descriptor
    ghost var trace: seq<Effect>
    ghost var watch: Option<Monitor>
    ghost var leaked: bool        // write_state_ became ERROR over a live write registration

    ghost predicate Watched()
      reads this
    {
      watch == Watch(trace) && watch.Some? && leaked == Leaks(trace)
    }

    ghost predicate Valid()
      reads this
    {
      && Watched()
      && var m := watch.value;
      && (m.reading <==> readState != NOT_REGISTERED)
      && (m.writing <==> writeState == NOT_READY || leaked)
      && m.depth == (if canClose then 0 else 1)
      && (m.closed <==> state == DISCONNECTED)
      && (m.notified <==> state == DISCONNECTED && server != null)
      && (leaked ==> (state == DISCONNECTING && writeState == ERROR) || state == DISCONNECTED)
      && (state != DISCONNECTED ==> m.verdict == CloseCode())
      && writeState != READY
      && (readState == ERROR || writeState == ERROR ==> state == DISCONNECTING)
      && (state == INIT || state == DISCONNECTED ==> readState == writeState == NOT_REGISTERED && canClose)
    }

    /** Between events. */
    ghost predicate Quiet()
      reads this
    {
      Valid() && canClose && state != DISCONNECTING
    }

    ghost function Footprint(): set<object>
      reads this, server
    {
      if server == null then {this} else {this, server} + server.started
    }

    ghost predicate InContext(busy: Connection?)
      reads Footprint()
    {
      server != null ==> this in server.started && server.Inv(null) && server.Settled(busy)
    }

    ghost function Live(): nat
      reads this, server
    {
      if server == null then 0 else |server.active|
    }

    constructor (closeOk: bool)
      ensures Quiet() && state == INIT && server == null && trace == [] && !leaked && this.closeOk == closeOk
      ensures watch == Some(FRESH)
    {
      this.closeOk := closeOk;
      state := INIT;
      readState := NOT_REGISTERED;
      writeState := NOT_REGISTERED;
      canClose := true;
      server := null;
      trace := [];
      watch := Some(FRESH);
      leaked := false;
    }

    ghost method Emit(e: Effect)
      requires Watched() && e != WriteFailed
      modifies this`trace, this`watch
      ensures trace == old(trace) + [e] && leaked == Leaks(trace)
      ensures watch == Watch(trace) == old(watch).value.Observe(e)
    {
      WatchExtend(trace, e);
      LeaksExtend(trace, e);
      watch := watch.value.Observe(e);
      trace := trace + [e];
    }

    ghost method EmitWriteFailed()
      requires Watched() && !watch.value.closed && !watch.value.notified && watch.value.verdict == OK
      modifies this`trace, this`watch, this`leaked
      ensures trace == old(trace) + [WriteFailed] && Watched()
      ensures watch == Some(old(watch).value.(verdict := WRITE_ERROR))
      ensures leaked == (old(leaked) || FailedAfterRegistering(trace, |trace| - 1))
    {
      WatchExtend(trace, WriteFailed);
      LeaksExtend(trace, WriteFailed);
      watch := watch.value.Observe(WriteFailed);
      trace := trace + [WriteFailed];
      leaked := Leaks(trace);
    }

    method RegisterEndpointForRead(accepted: bool) returns (ok: bool)
      requires Valid() && !watch.value.reading && state == INIT
      modifies this`readState, this`trace, this`watch
      ensures ok == accepted
      ensures Watched() && old(trace) <= trace
      ensures watch == Some(old(watch).value.(reading := accepted))
      ensures readState == if accepted then NOT_READY else NOT_REGISTERED
    {
      if !accepted {
        return false;
      }
      Emit(RegisterRead);
      readState := NOT_READY;
      ok := true;
    }

    /** The result of RegisterEndpointForRead is compared with `< 0`, which no bool satisfies: a refused
        registration goes unnoticed. */
    method Start(accepted: bool) returns (ok: bool)
      requires Valid()
      modifies this
      ensures Valid() && old(trace) <= trace && server == old(server)
      ensures ok <==> old(state) == INIT
      ensures !ok ==> unchanged(this)
      ensures ok ==> Quiet() && state == CONNECTED && !watch.value.writing
      ensures ok ==> watch == Some(old(watch).value.(reading := accepted))
    {
      if state != INIT {
        return false;
      }
      var registered := RegisterEndpointForRead(accepted);
      var asInt := if registered then 1 else 0;
      if asInt < 0 {
        return false;
      }
      state := CONNECTED;
      ok := true;
    }

    method RegisterForWrite() returns (ok: bool)
      requires Valid()
      modifies this`writeState, this`trace, this`watch
      ensures Valid() && old(trace) <= trace
      ensures ok <==> state == CONNECTED
      ensures !ok ==> unchanged(this)
      ensures ok ==> writeState == NOT_READY && watch == Some(old(watch).value.(writing := true))
      ensures trace == old(trace) + if ok && old(writeState) == NOT_REGISTERED then [RegisterWrite] else []
    {
      if state != CONNECTED {
        return false;
      }
      if writeState == NOT_REGISTERED {
        Emit(RegisterWrite);
        writeState := NOT_READY;
      }
      ok := true;
    }

    /** Closes now, or, while a data handler of this connection is running, makes it close afterwards. */
    method Close()
      requires Valid() && InContext(null)
      modifies Footprint()
      ensures Valid() && InContext(null) && server == old(server)
      ensures OthersProgress() && leaked == old(leaked)
      ensures old(state) != CONNECTED ==> unchanged(this)
      ensures old(state) == CONNECTED && !old(canClose) ==> Deferred()
      ensures old(state) != CONNECTED || !old(canClose) ==> OnlyMe()
      ensures old(state) == CONNECTED && old(canClose) ==> state == DISCONNECTED && old(trace) <= trace && Told(OK)
      decreases Live(), 3
    {
      hide Valid, ConnectionsOf, Told;
      if state != CONNECTED {
        return;
      }
      StartClosing();
      CloseInternal();
    }

    /** What the owner is told when closing, given what went wrong before. */
    function Answer(code: Code): Code {
      if closeOk then code else CLOSE_ERROR
    }

    /** The trace ends with the closing of the descriptor and the call of on_close_, if it was set. */
    ghost predicate Told(code: Code)
      reads this
    {
      if server == null then |trace| >= 1 && trace[|trace| - 1] == CloseFd(closeOk)
      else |trace| >= 2 && trace[|trace| - 2] == CloseFd(closeOk) && trace[|trace| - 1] == Notify(Answer(code))
    }

    ghost predicate ToldLast(code: Code)
      reads this
    {
      |trace| >= 1 && trace[|trace| - 1] == Notify(code)
    }

    /** Nothing but this connection has changed. */
    twostate predicate OnlyMe()
      reads Footprint()
    {
      && server == old(server)
      && (server != null ==> unchanged(server) && forall c :: c in server.started && c != this ==> unchanged(c))
    }

    method StartClosing()
      requires Valid() && state == CONNECTED
      modifies this`state
      ensures Valid() && state == DISCONNECTING && CloseCode() == OK && !leaked
    {
      state := DISCONNECTING;
    }

    /** Only the state has moved on. */
    twostate predicate Deferred()
      reads this
    {
      && state == DISCONNECTING && !canClose
      && readState == old(readState) && writeState == old(writeState)
      && trace == old(trace) && watch == old(watch) && leaked == old(leaked)
    }

    /** What calls on other connections may do to this one. */
    twostate predicate Progress()
      reads this
    {
      && server == old(server) && canClose == old(canClose) && leaked == old(leaked) && old(trace) <= trace
      && (old(state) == DISCONNECTED ==> state == DISCONNECTED && trace == old(trace))
      && (old(state) != CONNECTED ==> state != CONNECTED)
      && (!canClose ==> CloseCode() == old(CloseCode()))
    }

    twostate predicate OthersProgress()
      reads Footprint()
    {
      server == old(server) && (server != null ==> server.Progress(this))
    }

    ghost function CloseCode(): Code
      reads this
    {
      if readState == ERROR then READ_ERROR else if writeState == ERROR then WRITE_ERROR else OK
    }

    method CloseInternal()
      requires Valid() && InContext(this)
      modifies Footprint()
      ensures server == old(server) && OthersProgress() && old(trace) <= trace
      ensures Valid() && InContext(null) && leaked == old(leaked)
      ensures old(state) != DISCONNECTING || !old(canClose) ==> unchanged(this) && OnlyMe()
      ensures old(state) == DISCONNECTING && old(canClose) ==>
                state == DISCONNECTED && canClose && Told(old(CloseCode()))
      decreases Live(), 2
    {
      if state != DISCONNECTING {
        return;
      }
      if !canClose {
        return;
      }
      hide Valid, ConnectionsOf, Server.Inv, Server.Settled;
      FinishClosing();
    }

    method FinishClosing()
      requires Valid() && InContext(this) && state == DISCONNECTING && canClose
      modifies Footprint()
      ensures Valid() && InContext(null) && server == old(server) && OthersProgress()
      ensures state == DISCONNECTED && canClose && old(trace) <= trace && leaked == old(leaked)
      ensures Told(old(CloseCode()))
      decreases Live(), 2, 1
    {
      hide Valid, ConnectionsOf, Server.Inv, Server.Settled;
      var code := ShutInContext();
      NotifyOwner(code);
    }

    method NotifyOwner(code: Code)
      requires Valid() && state == DISCONNECTED && canClose && code != INVALID_CONNECTION
      requires server != null ==>
                 && this in server.active && this in server.started && server.Inv(this) && server.Settled(null)
                 && ToldLast(code)
      modifies Footprint()
      ensures Valid() && InContext(null) && server == old(server) && OthersProgress()
      ensures state == DISCONNECTED && canClose && trace == old(trace) && leaked == old(leaked)
      decreases Live(), 2, 0
    {
      hide Valid, ConnectionsOf, Server.Settled;
      if server != null {
        server.OnConnectionClose(this, code);
      }
    }

    method ShutInContext() returns (code: Code)
      requires Valid() && InContext(this) && state == DISCONNECTING && canClose
      modifies this
      ensures state == DISCONNECTED && server == old(server) && old(trace) <= trace && canClose
      ensures code == Answer(old(CloseCode())) != INVALID_CONNECTION && Told(old(CloseCode()))
      ensures Valid() && leaked == old(leaked)
      ensures server != null ==>
                this in server.active && server.Inv(this) && server.Settled(null) && ToldLast(code)
    {
      hide Valid, ConnectionsOf;
      code := Shut();
    }

    /** Everything up to the call of on_close_, which is the last effect of this connection. */
    method Shut() returns (code: Code)
      requires Valid() && state == DISCONNECTING && canClose
      modifies this
      ensures state == DISCONNECTED && canClose && server == old(server) && old(trace) <= trace
      ensures code == Answer(old(CloseCode())) && Told(old(CloseCode()))
      ensures Valid() && leaked == old(leaked)
      ensures server != null ==> ToldLast(code)
    {
      hide Watch, Leaks;
      code := OK;
      if readState == ERROR {
        code := READ_ERROR;
      } else if writeState == ERROR {
        code := WRITE_ERROR;
      }
      var retval := ReleaseDescriptor();
      if retval != 0 {
        code := CLOSE_ERROR;
      }
      Report(code);
    }

    /** on_close_(code), when it was set. */
    method Report(code: Code)
      requires state == DISCONNECTED && canClose && readState == writeState == NOT_REGISTERED
      requires Watched() && watch == Some(Monitor(false, leaked, 0, code, true, false))
      requires |trace| >= 1 && trace[|trace| - 1] == CloseFd(closeOk)
      modifies this`trace, this`watch
      ensures Valid()
      ensures trace == old(trace) + if server == null then [] else [Notify(code)]
    {
      hide Watch;
      if server != null {
        Emit(Notify(code));
      }
    }

    /** Takes back the registrations and closes the descriptor. */
    method ReleaseDescriptor() returns (retval: int)
      requires Valid() && state == DISCONNECTING && canClose
      modifies this`state, this`readState, this`writeState, this`trace, this`watch
      ensures state == DISCONNECTED && readState == writeState == NOT_REGISTERED
      ensures Watched() && old(trace) <= trace
      ensures retval == if closeOk then 0 else -1
      ensures |trace| >= 1 && trace[|trace| - 1] == CloseFd(closeOk)
      ensures watch == Some(Monitor(false, leaked, 0, Answer(old(CloseCode())), true, false))
    {
      hide Watch, Leaks;
      state := DISCONNECTED;
      if readState != NOT_REGISTERED {
        Emit(UnregisterRead);
        readState := NOT_REGISTERED;
      }
      if writeState == NOT_READY {
        Emit(UnregisterWrite);
      }
      writeState := NOT_REGISTERED;
      Emit(CloseFd(closeOk));
      retval := if closeOk then 0 else -1;
    }

    /** One hook: the calls it makes, in order. */
    method RunHook(calls: seq<Call>)
      requires Valid() && InContext(null)
      modifies Footprint()
      ensures Valid() && InContext(null) && OthersProgress()
      ensures canClose == old(canClose) && leaked == old(leaked) && old(trace) <= trace
      ensures !canClose ==> CloseCode() == old(CloseCode())
      ensures Persists(CallClose in calls)
      ensures OthersClosed(calls)
      ensures Undisturbed(calls) && (!canClose || CallClose !in calls) ==> Hooked(calls) && OnlyMe()
      decreases Live(), 8, |calls|
    {
      hide Valid, ConnectionsOf, Outcome, NoOthers;
      if calls == [] {
        StillWatched();
        NoCalls(state, watch);
        return;
      }
      ghost var was, before := state, watch;
      MakeCall(calls[0]);
      ghost var mid, between := state, watch;
      RunHook(calls[1..]);
      OneCallMore(calls, was, before, mid, between, state, watch);
    }

    /** A connection that is no longer CONNECTED stays so, and asking it to close makes it so. */
    twostate predicate Persists(closes: bool)
      reads this
    {
      && (closes || old(state) != CONNECTED ==> state != CONNECTED)
      && (old(state) == DISCONNECTED ==> state == DISCONNECTED && trace == old(trace))
      && (old(state) == CONNECTED && canClose ==> state in {CONNECTED, DISCONNECTED})
    }

    /** No connection that the calls name is CONNECTED any more. */
    ghost predicate OthersClosed(calls: seq<Call>)
      reads Footprint()
    {
      server != null ==>
        forall fd :: 0 <= fd < |server.roster| && server.roster[fd] in server.started && CallCloseOther(fd) in calls ==>
          server.roster[fd].state != CONNECTED
    }

    lemma StillWatched()
      requires Valid()
      ensures watch.Some? && watch == Watch(trace)
    {
    }

    /** A hook reaches no other connection. */
    predicate Undisturbed(calls: seq<Call>)
      reads this
    {
      server == null || NoOthers(calls)
    }

    /** What such a hook does to its own connection, while it runs. */
    twostate predicate Hooked(calls: seq<Call>)
      reads this
    {
      Outcome(calls, old(state), old(watch), state, watch)
    }

    /** What one call made by a hook does. */
    twostate predicate CalledBy(call: Call)
      reads Footprint()
    {
      && OthersProgress()
      && canClose == old(canClose) && leaked == old(leaked) && old(trace) <= trace
      && (!canClose ==> CloseCode() == old(CloseCode()))
      && Persists(call == CallClose) && OthersClosed([call])
      && (Undisturbed([call]) && (!canClose || call != CallClose) ==> Hooked([call]) && OnlyMe())
      && (call.CallCloseOther? ==>
            if server != null && call.fd < |server.roster| && server.roster[call.fd] in server.started
            then server.ClosedBy(server.roster[call.fd])
            else unchanged(this) && OnlyMe())
    }

    method MakeCall(call: Call)
      requires Valid() && InContext(null)
      modifies Footprint()
      ensures Valid() && InContext(null) && CalledBy(call)
      decreases Live(), 7
    {
      hide Valid, ConnectionsOf, CalledBy, Server.Settled;
      match call {
        case CallClose => MakeClose();
        case CallRegisterForWrite => MakeRegister();
        case CallCloseOther(fd) => MakeCloseOther(fd);
      }
    }

    method MakeClose()
      requires Valid() && InContext(null)
      modifies Footprint()
      ensures Valid() && InContext(null) && CalledBy(CallClose)
      decreases Live(), 6
    {
      hide Watch, Leaks, ConnectionsOf, Told;
      Close();
    }

    method MakeRegister()
      requires Valid() && InContext(null)
      modifies this`writeState, this`trace, this`watch
      ensures Valid() && InContext(null) && CalledBy(CallRegisterForWrite)
    {
      hide Watch, Leaks, ConnectionsOf, Told;
      var _ := RegisterForWrite();
    }

    method MakeCloseOther(fd: nat)
      requires Valid() && InContext(null)
      modifies Footprint()
      ensures Valid() && InContext(null) && CalledBy(CallCloseOther(fd))
      decreases Live(), 6
    {
      hide Valid, ConnectionsOf, Server.Settled;
      StillWatched();
      assert [CallCloseOther(fd)][0].CallCloseOther?;
      if server != null && fd < |server.roster| {
        CloseOther(server.roster[fd]);
      }
    }

    method CloseOther(other: Connection)
      requires Valid() && server != null && other in server.started && InContext(null)
      modifies Footprint()
      ensures Valid() && InContext(null) && OthersProgress()
      ensures canClose == old(canClose) && leaked == old(leaked) && old(trace) <= trace
      ensures !canClose ==> CloseCode() == old(CloseCode())
      ensures Persists(false)
      ensures server.ClosedBy(other) && other.state != CONNECTED
      decreases Live(), 5
    {
      hide Watch, ConnectionsOf, Told;
      server.CloseConnection(other);
    }

    method RegisterForClose(owner: Server)
      requires Valid() && state == INIT
      modifies this`server
      ensures Valid() && server == owner
    {
      server := owner;
    }

    /** The tail shared by HandleRead and HandleWrite: run the data handler with closing put off, then
        close if anything asked for it. */
    method HandleData(calls: seq<Call>)
      requires Valid() && canClose && InContext(this) && state in {CONNECTED, DISCONNECTING}
      modifies Footprint()
      ensures OthersProgress() && old(trace) <= trace
      ensures Quiet() && InContext(null) && leaked == old(leaked)
      ensures old(state) == DISCONNECTING || CallClose in calls ==> state == DISCONNECTED
      ensures Undisturbed(calls) && old(state) == CONNECTED && CallClose !in calls ==>
                && state == CONNECTED
                && watch == Some(old(watch).value.(writing := old(watch).value.writing || CallRegisterForWrite in calls))
      ensures Undisturbed(calls) && old(state) == CONNECTED && CallClose !in calls ==> OnlyMe()
      ensures state == DISCONNECTED ==> Told(old(CloseCode()))
      ensures HandlerRan(old(trace)) && OthersClosed(calls)
    {
      hide Valid, ConnectionsOf, Server.Inv, Server.Settled;
      RunDataHandler(calls);
      if state != CONNECTED {
        CloseInternal();
      }
    }

    /** A data handler has been on the stack since then. */
    ghost predicate HandlerRan(since: seq<Effect>)
      reads this
    {
      exists i :: |since| <= i < |trace| && trace[i] == EnterHandler
    }

    method RunDataHandler(calls: seq<Call>)
      requires Valid() && canClose && InContext(this) && state in {CONNECTED, DISCONNECTING}
      modifies Footprint()
      ensures Valid() && canClose && InContext(this) && state in {CONNECTED, DISCONNECTING}
      ensures state == CONNECTED ==> InContext(null)
      ensures OthersProgress() && old(trace) <= trace && leaked == old(leaked) && CloseCode() == old(CloseCode())
      ensures old(state) == DISCONNECTING || CallClose in calls ==> state == DISCONNECTING
      ensures Undisturbed(calls) && old(state) == CONNECTED && CallClose !in calls ==>
                && state == CONNECTED && old(watch).Some? && OnlyMe()
                && watch == Some(old(watch).value.(writing := old(watch).value.writing || CallRegisterForWrite in calls))
      ensures HandlerRan(old(trace)) && OthersClosed(calls)
    {
      hide Valid, ConnectionsOf, Server.Inv, Server.Settled;
      var prev := canClose;
      EnterInContext();
      ghost var since := |trace| - 1;
      RunHook(calls);
      LeaveInContext(prev);
      assert trace[since] == EnterHandler;
    }

    method EnterInContext()
      requires Valid() && canClose && InContext(this) && state in {CONNECTED, DISCONNECTING}
      modifies this`canClose, this`trace, this`watch
      ensures Valid() && !canClose && InContext(null) && trace == old(trace) + [EnterHandler]
      ensures old(watch).Some? && old(watch).value.depth == 0
      ensures watch == Some(old(watch).value.(depth := 1))
    {
      hide Valid, ConnectionsOf;
      EnterDataHandler();
    }

    method LeaveInContext(prev: bool)
      requires Valid() && !canClose && prev && InContext(null)
      modifies this`canClose, this`trace, this`watch
      ensures Valid() && canClose && InContext(this) && old(trace) <= trace
      ensures state in {CONNECTED, DISCONNECTING} && (state == CONNECTED ==> InContext(null))
      ensures watch == Some(old(watch).value.(depth := 0))
    {
      hide Valid, ConnectionsOf;
      LeaveDataHandler(prev);
    }

    method EnterDataHandler()
      requires Valid() && canClose && state in {CONNECTED, DISCONNECTING}
      modifies this`canClose, this`trace, this`watch
      ensures Valid() && !canClose && trace == old(trace) + [EnterHandler]
      ensures old(watch).Some? && old(watch).value.depth == 0
      ensures watch == Some(old(watch).value.(depth := 1))
    {
      hide Watch;
      canClose := false;
      Emit(EnterHandler);
    }

    method LeaveDataHandler(prev: bool)
      requires Valid() && !canClose && prev
      modifies this`canClose, this`trace, this`watch
      ensures Valid() && canClose && old(trace) <= trace && state in {CONNECTED, DISCONNECTING}
      ensures watch == Some(old(watch).value.(depth := 0))
    {
      hide Watch;
      Emit(ExitHandler);
      canClose := prev;
    }

    /** What a delivered read event does. */
    twostate predicate ReadBy(registers: bool, ok: bool, calls: seq<Call>)
      reads Footprint()
    {
      && HandlerRan(old(trace)) && OthersClosed(calls)
      && (!ok || CallClose in calls ==> state == DISCONNECTED)
      && (state == DISCONNECTED ==> Told(if ok then OK else READ_ERROR))
      && (Undisturbed(calls) && ok && CallClose !in calls ==>
            && state == CONNECTED && OnlyMe() && watch.Some? && old(watch).Some? && watch.value.reading
            && watch.value.writing == (old(watch).value.writing || registers || CallRegisterForWrite in calls))
    }

    /** A read event.  `ok` is the answer of ReadFromEndPoint, which may itself ask for a write event;
        `calls` is what HandleDataRead does. */
    method HandleRead(registers: bool, ok: bool, calls: seq<Call>)
      requires Quiet() && InContext(null) && readState != NOT_REGISTERED
      modifies Footprint()
      ensures Quiet() && InContext(null) && OthersProgress() && old(trace) <= trace && !leaked
      ensures ReadBy(registers, ok, calls)
    {
      hide Valid, ConnectionsOf, Told;
      ReadStep(registers, ok);
      HandleData(calls);
    }

    method ReadStep(registers: bool, ok: bool)
      requires Quiet() && readState != NOT_REGISTERED
      modifies this`readState, this`writeState, this`state, this`trace, this`watch
      ensures Valid() && !leaked && old(trace) <= trace && old(state) == CONNECTED
      ensures state == (if ok then CONNECTED else DISCONNECTING)
      ensures CloseCode() == if ok then OK else READ_ERROR
      ensures old(watch).Some? && old(watch).value.reading && watch.Some?
      ensures watch.value.(verdict := OK) == old(watch).value.(verdict := OK, writing := old(watch).value.writing || registers)
    {
      hide Watch;
      Emit(FireRead);
      readState := READY;
      if registers {
        var _ := RegisterForWrite();
      }
      if ok {
        readState := NOT_READY;
      } else {
        Emit(ReadFailed);
        readState := ERROR;
        state := DISCONNECTING;
      }
    }

    /** What a delivered write event does. */
    twostate predicate WrittenBy(registers: bool, ok: bool, still: bool, calls: seq<Call>)
      reads Footprint()
    {
      && HandlerRan(old(trace)) && OthersClosed(calls)
      && (!ok || CallClose in calls ==> state == DISCONNECTED)
      && (state == DISCONNECTED ==> Told(if ok then OK else WRITE_ERROR))
      && (!ok ==> watch.Some? && watch.value.writing == registers)
      && (Undisturbed(calls) && ok && CallClose !in calls ==>
            && state == CONNECTED && OnlyMe() && watch.Some? && old(watch).Some?
            && watch.value.reading == old(watch).value.reading
            && watch.value.writing == (registers || still || CallRegisterForWrite in calls))
    }

    /** A write event: the loop has used up the one-shot registration.  `ok` is the answer of
        WriteIntoEndPoint, `still` that of StillHaveDataToWrite, `calls` what HandleDataWritten does.  A
        registration is left behind exactly when WriteIntoEndPoint registers and then fails. */
    method HandleWrite(registers: bool, ok: bool, still: bool, calls: seq<Call>)
      requires Quiet() && InContext(null) && writeState == NOT_READY
      modifies Footprint()
      ensures Quiet() && InContext(null) && OthersProgress() && old(trace) <= trace
      ensures leaked <==> registers && !ok
      ensures WrittenBy(registers, ok, still, calls)
    {
      hide Valid, ConnectionsOf, Told;
      var dead := WriteStep(registers, ok, still);
      if !dead {
        HandleData(calls);
      }
      StillWatched();
      Registrations();
    }

    method WriteStep(registers: bool, ok: bool, still: bool) returns (dead: bool)
      requires Quiet() && writeState == NOT_READY
      modifies this`writeState, this`state, this`trace, this`watch, this`leaked
      ensures !dead && Valid() && old(trace) <= trace && leaked == (registers && !ok) && old(state) == CONNECTED
      ensures state == (if ok then CONNECTED else DISCONNECTING)
      ensures CloseCode() == if ok then OK else WRITE_ERROR
      ensures old(watch).Some? && watch.Some?
      ensures watch.value.(verdict := OK) == old(watch).value.(verdict := OK, writing := registers || (ok && still))
    {
      hide Watch;
      hide Leaks;
      Emit(FireWrite);
      writeState := NOT_REGISTERED;
      if state != CONNECTED {
        return true;
      }
      if registers {
        var _ := RegisterForWrite();
      }
      if !ok {
        EmitWriteFailed();
        writeState := ERROR;
        state := DISCONNECTING;
      }
      if state == CONNECTED && writeState == NOT_REGISTERED && still {
        writeState := NOT_READY;
        Emit(RegisterWrite);
      }
      dead := false;
    }

    /** Once closed, no read registration remains, and a write registration does if and only if a delivered
        write event registered again and then failed. */
    ghost predicate Cleared()
      reads this
    {
      state == DISCONNECTED ==> !ReadRemains(trace) && (WriteRemains(trace) <==> Leaks(trace))
    }

    lemma Registrations()
      requires Valid()
      ensures Cleared()
      ensures state == DISCONNECTED ==> watch.value.writing == leaked && (WriteRemains(trace) <==> leaked)
    {
      FlagsAreRegistrations(trace);
    }

    /** Where a connection is between events. */
    ghost function PhaseOf(): Phase
      requires Quiet()
      reads this
    {
      if state == INIT then Unstarted
      else if state == CONNECTED then Open(watch.value.reading, watch.value.writing)
      else Over(leaked)
    }

    /** A call from outside, or an event if what it needs is registered. */
    method Take(step: Step)
      requires Quiet() && server == null
      modifies this
      ensures Quiet() && server == null && old(trace) <= trace
      ensures PhaseOf() == old(PhaseOf()).After(step)
    {
      hide Watch, Leaks;
      match step {
        case DoStart(accepted) => var _ := Start(accepted);
        case DoClose => Close();
        case DoRegisterForWrite => var _ := RegisterForWrite();
        case OnRead(registers, ok, calls) =>
          if readState != NOT_REGISTERED {
            HandleRead(registers, ok, calls);
          }
        case OnWrite(registers, ok, still, calls) =>
          if writeState == NOT_READY {
            HandleWrite(registers, ok, still, calls);
          }
      }
    }

    /** Any run of a connection on its own: its steps alone decide where it ends and what is left over. */
    method Drive(steps: seq<Step>)
      requires Quiet() && server == null
      modifies this
      ensures Quiet() && server == null && old(trace) <= trace && Cleared()
      ensures PhaseOf() == old(PhaseOf()).AfterAll(steps)
      ensures state == DISCONNECTED ==> (WriteRemains(trace) <==> old(PhaseOf()).AfterAll(steps) == Over(true))
      decreases |steps|
    {
      hide Quiet, Watch, Leaks, Phase.After;
      if steps == [] {
        Remaining();
      } else {
        Take(steps[0]);
        Drive(steps[1..]);
      }
    }

    lemma Remaining()
      requires Quiet()
      ensures Cleared()
      ensures state == DISCONNECTED ==> (WriteRemains(trace) <==> PhaseOf() == Over(true))
    {
      Registrations();
      FlagsAreRegistrations(trace);
    }
  }

  /** A connection without a server, as its caller can follow it.  Over says whether a write registration
      was left behind. */
  datatype Phase = Unstarted | Open(reading: bool, writing: bool) | Over(left: bool) {
    function After(step: Step): Phase {
      match this
      case Unstarted => if step.DoStart? then Open(step.accepted, false) else this
      case Over(_) => this
      case Open(reading, writing) =>
        match step
        case DoStart(_) => this
        case DoClose => Over(false)
        case DoRegisterForWrite => Open(reading, true)
        case OnRead(registers, ok, calls) =>
          if !reading then this
          else if !ok || CallClose in calls then Over(false)
          else Open(true, writing || registers || CallRegisterForWrite in calls)
        case OnWrite(registers, ok, still, calls) =>
          if !writing then this
          else if !ok then Over(registers)
          else if CallClose in calls then Over(false)
          else Open(reading, registers || still || CallRegisterForWrite in calls)
    }

    function AfterAll(steps: seq<Step>): Phase
      decreases |steps|
    {
      if steps == [] then this else After(steps[0]).AfterAll(steps[1..])
    }
  }

  /** Without a write that registers again and fails nothing is left over. */
  lemma {:induction false} NothingLeft(phase: Phase, steps: seq<Step>)
    requires phase != Over(true)
    requires forall s :: s in steps ==> !(s.OnWrite? && s.registers && !s.ok)
    ensures phase.AfterAll(steps) != Over(true)
    decreases |steps|
  {
    if steps == [] {
    } else {
      assert steps[0] in steps;
      NothingLeft(phase.After(steps[0]), steps[1..]);
    }
  }

  datatype Step =
    | DoStart(accepted: bool)
    | DoClose
    | DoRegisterForWrite
    | OnRead(registers: bool, ok: bool, calls: seq<Call>)
    | OnWrite(registers: bool, ok: bool, still: bool, calls: seq<Call>)

  datatype Report = Report(connection: Connection, code: Code)

  ghost function ConnectionsOf(reports: seq<Report>): set<Connection> {
    set r | r in reports :: r.connection
  }

  lemma ConnectionsOfAppend(reports: seq<Report>, r: Report)
    ensures ConnectionsOf(reports + [r]) == ConnectionsOf(reports) + {r.connection}
  {
    assert forall x :: x in reports + [r] <==> x in reports || x == r;
    assert r in reports + [r];
    assert forall x :: x in reports ==> x in reports + [r];
  }

  class Server {
    var active: set<Connection>          // active_connections_
    var roster: seq<Connection>          // the event loop's table: connections by descriptor
    ghost var started: set<Connection>   // every connection that was ever put there
    ghost var reports: seq<Report>       // the calls of HandleConnectionClose

    ghost function Reported(): set<Connection>
      reads this
    {
      ConnectionsOf(reports)
    }

    /** `leaving` is a connection that has closed but has not been reported yet. */
    ghost predicate Inv(leaving: Connection?)
      reads this, started, leaving
    {
      && active <= started
      && (forall i :: 0 <= i < |roster| ==> roster[i] in started)
      && (forall c :: c in started ==> Owned(c, c == leaving))
      && (leaving != null ==> leaving !in Reported() && leaving.state == DISCONNECTED)
      && (forall i, j :: 0 <= i < j < |reports| ==> reports[i].connection != reports[j].connection)
      && (forall i :: 0 <= i < |reports| ==> reports[i].code != INVALID_CONNECTION && reports[i].connection in started)
    }

    ghost predicate Owned(c: Connection, leaving: bool)
      reads this, c
    {
      && c.Valid() && c.server == this && c.state != INIT
      && (!leaving ==> (c in active <==> c.state != DISCONNECTED) && (c in Reported() <==> c.state == DISCONNECTED))
      && (!leaving && c.state == DISCONNECTED ==> |c.trace| >= 1 && c.trace[|c.trace| - 1] in Notices(c))
    }

    /** The reports of c, as the effects they came from. */
    ghost function Notices(c: Connection): set<Effect>
      reads this
    {
      set r | r in reports && r.connection == c :: Notify(r.code)
    }

    /** Nobody but `busy` is waiting to be closed, unless its own handler is running. */
    ghost predicate Settled(busy: Connection?)
      reads this, started
    {
      forall c :: c in started && c != busy && c.state == DISCONNECTING ==> !c.canClose
    }

    twostate predicate Progress(except: Connection?)
      reads this, started
    {
      && started == old(started) && roster == old(roster) && active <= old(active) && |active| <= |old(active)|
      && old(reports) <= reports
      && forall c :: c in started && c != except ==> c.Progress()
    }

    constructor ()
      ensures Inv(null) && Settled(null) && started == {} && reports == []
    {
      active := {};
      roster := [];
      started := {};
      reports := [];
    }

    method OnConnectionClose(connection: Connection, code: Code)
      requires connection in active && Inv(connection) && Settled(null)
      requires code != INVALID_CONNECTION && connection.ToldLast(code)
      modifies this, started
      ensures Inv(null) && Settled(null) && Progress(null)
      ensures connection !in active && old(reports) + [Report(connection, code)] <= reports
      decreases |active|, 1
    {
      hide Connection.Valid;
      var reason := code;
      if connection !in active {
        reason := INVALID_CONNECTION;
      } else {
        active := active - {connection};
      }
      HandleConnectionClose(connection, reason);
    }

    /** The subclass hook; it may go on to close any other connections. */
    method HandleConnectionClose(connection: Connection, code: Code)
      requires connection in started - active && Inv(connection) && Settled(null)
      requires code != INVALID_CONNECTION && connection.ToldLast(code)
      modifies this, started
      ensures Inv(null) && Settled(null) && Progress(null)
      ensures old(reports) + [Report(connection, code)] <= reports
      decreases |active|, 6
    {
      hide Connection.Valid, ConnectionsOf;
      RecordReport(connection, code);
      var n: nat := *;
      CloseSome(n);
    }

    /** Any calls of CloseConnection, on any live connections. */
    method CloseSome(n: nat)
      requires Inv(null) && Settled(null)
      modifies this, started
      ensures Inv(null) && Settled(null) && Progress(null)
      decreases |active|, 5, n
    {
      hide Connection.Valid, ConnectionsOf;
      if n > 0 && active != {} {
        var victim :| victim in active;
        CloseConnection(victim);
        CloseSome(n - 1);
      }
    }

    ghost method RecordReport(connection: Connection, code: Code)
      requires connection in started - active && Inv(connection)
      requires code != INVALID_CONNECTION && connection.ToldLast(code)
      modifies this`reports
      ensures Inv(null) && reports == old(reports) + [Report(connection, code)]
    {
      hide Connection.Valid;
      ConnectionsOfAppend(reports, Report(connection, code));
      reports := reports + [Report(connection, code)];
    }

    /** Nothing has changed, here or in any connection. */
    twostate predicate Untouched()
      reads this, started
    {
      unchanged(this) && forall c :: c in started ==> unchanged(c)
    }

    /** What a request to close `c` does: close it, mark it while its own handler runs, or nothing. */
    twostate predicate ClosedBy(c: Connection)
      reads this, started, c
    {
      if old(c in active && c.state == CONNECTED) then
        if old(c.canClose) then
          c.state == DISCONNECTED && c !in active && c in Reported() && c.Told(OK)
        else
          && c in active && c.Deferred() && unchanged(this)
          && forall d :: d in started && d != c ==> unchanged(d)
      else
        Untouched()
    }

    method CloseConnection(connection: Connection)
      requires Inv(null) && Settled(null)
      modifies this, started
      ensures Inv(null) && Settled(null) && Progress(null)
      ensures ClosedBy(connection)
      decreases |active|, 4
    {
      hide Watch;
      if connection !in active {
        return;
      }
      connection.Close();
    }

    // ------------------------------------------------------------ whole runs

    /** No data handler is on the stack. */
    ghost predicate Idle()
      reads this, started
    {
      Inv(null) && Settled(null) && forall c :: c in started ==> c.canClose
    }

    /** What a new connection and the hook's calls amount to. */
    twostate predicate Joined(new c: Connection, accepted: bool, calls: seq<Call>)
      reads this, started, c
    {
      && started == old(started) + {c} && c !in old(started)
      && (CallClose in calls ==> c.state == DISCONNECTED)
      && (NoOthers(calls) && CallClose !in calls ==>
            && c.state == CONNECTED && active == old(active) + {c} && reports == old(reports)
            && c.watch == Some(Monitor(accepted, CallRegisterForWrite in calls, 0, OK, false, false))
            && forall d :: d in old(started) ==> unchanged(d))
    }

    /** A read event on the listening socket: accept and start a connection, then tell the subclass. */
    method OnNewConnection(fd: int, defaultsOk: bool, accepted: bool, closeOk: bool, calls: seq<Call>)
      requires Idle()
      modifies this, started
      ensures Idle() && old(reports) <= reports && old(started) <= started && fresh(started - old(started))
      ensures fd > 0 && defaultsOk <==> started != old(started)
      ensures forall c :: c in started ==> (c.leaked <==> c in old(started) && old(c.leaked))
      ensures if fd > 0 && defaultsOk then
                && |roster| == |old(roster)| + 1 && roster[..|old(roster)|] == old(roster)
                && roster[|old(roster)|].closeOk == closeOk
                && Joined(roster[|old(roster)|], accepted, calls)
              else Untouched()
      ensures forall slot :: 0 <= slot < |roster| && CallCloseOther(slot) in calls && fd > 0 && defaultsOk ==>
                roster[slot].state != CONNECTED
    {
      hide Connection.Valid, ConnectionsOf, Watch, Leaks, Inv, Settled;
      if fd > 0 {
        if !defaultsOk {
          return;
        }
        var ok, connection := CreateConnection(accepted, closeOk);
        if !ok {
          return;
        }
        Adopt(connection);
        HandleNewConnection(connection, calls);
      }
    }

    /** The subclass hook for a connection that has just joined. */
    method HandleNewConnection(connection: Connection, calls: seq<Call>)
      requires Idle() && connection in started && connection.server == this && connection.state == CONNECTED
      modifies this, started
      ensures Idle() && started == old(started) && roster == old(roster) && old(reports) <= reports
      ensures forall c :: c in started ==> c.leaked == old(c.leaked)
      ensures CallClose in calls ==> connection.state == DISCONNECTED
      ensures NoOthers(calls) && CallClose !in calls ==> connection.Hooked(calls) && connection.OnlyMe()
      ensures forall slot :: 0 <= slot < |roster| && CallCloseOther(slot) in calls ==> roster[slot].state != CONNECTED
    {
      hide Connection.Valid, ConnectionsOf, Watch, Leaks;
      connection.RunHook(calls);
    }

    method CreateConnection(accepted: bool, closeOk: bool) returns (ok: bool, connection: Connection)
      ensures fresh(connection) && connection.Quiet() && connection.server == this && connection.closeOk == closeOk
      ensures ok && connection.state == CONNECTED && !connection.leaked
      ensures connection.watch == Some(Monitor(accepted, false, 0, OK, false, false))
    {
      hide Watch;
      connection := new Connection(closeOk);
      connection.RegisterForClose(this);
      ok := connection.Start(accepted);
    }

    /** Insertion into the set of live connections. */
    method Adopt(connection: Connection)
      requires Idle() && connection !in started
      requires connection.Quiet() && connection.server == this && connection.state == CONNECTED
      modifies this
      ensures Idle() && started == old(started) + {connection} && active == old(active) + {connection}
      ensures reports == old(reports) && roster == old(roster) + [connection]
    {
      hide Connection.Valid;
      active := active + {connection};
      roster := roster + [connection];
      started := started + {connection};
    }

    method Stop()
      requires Idle()
      modifies this, started
      ensures Idle() && active == {} && started == old(started)
      ensures forall c :: c in started ==> c.state == DISCONNECTED && c in Reported()
    {
      hide Watch, ConnectionsOf;
      while active != {}
        invariant Idle() && started == old(started)
        decreases active
      {
        var connection :| connection in active;
        connection.Close();
      }
    }

    /** The first rounds of Stop's loop, wherever it is called.  A connection whose data handler is on
        the stack is still there after any number of them: called from inside a handler, Stop never ends. */
    method StopRounds(rounds: nat)
      requires Inv(null) && Settled(null)
      modifies this, started
      ensures Inv(null) && Settled(null) && Progress(null)
      ensures forall c :: c in old(active) && !old(c.canClose) ==> c in active
    {
      hide Inv, Settled;
      if rounds > 0 && active != {} {
        StopRound();
        StopRounds(rounds - 1);
      }
    }

    method StopRound()
      requires Inv(null) && Settled(null) && active != {}
      modifies this, started
      ensures Inv(null) && Settled(null) && Progress(null)
      ensures forall c :: c in old(active) && !old(c.canClose) ==> c in active && !c.canClose
    {
      hide ConnectionsOf, Watch, Leaks;
      var connection :| connection in active;
      connection.Close();
    }

    /** One turn of the event loop.  A readiness event reaches only a connection that is registered. */
    method HandleEvent(e: Event)
      requires Idle()
      modifies this, started
      ensures Idle() && old(reports) <= reports && old(started) <= started && fresh(started - old(started))
      ensures forall c :: c in started ==>
                (c.leaked <==> c in old(started) && (old(c.leaked) || (e.MayLose() && old(Reaches(e, c)))))
      ensures e.Incoming? ==>
                if e.fd > 0 && e.defaultsOk
                then |roster| == |old(roster)| + 1 && Joined(roster[|old(roster)|], e.accepted, e.calls)
                else Untouched()
      ensures e.Readable? ==>
                if old(e.slot < |roster| && roster[e.slot].readState != NOT_REGISTERED)
                then old(roster)[e.slot].ReadBy(e.registers, e.ok, e.calls)
                else Untouched()
      ensures e.Writable? ==>
                if old(e.slot < |roster| && roster[e.slot].writeState == NOT_READY)
                then old(roster)[e.slot].WrittenBy(e.registers, e.ok, e.still, e.calls)
                else Untouched()
      ensures e.CloseRequest? ==>
                if e.slot < |old(roster)| then ClosedBy(old(roster)[e.slot]) else Untouched()
    {
      hide Watch, Leaks, ConnectionsOf, Inv, Settled, Connection.Valid, Connection.Told, Connection.HandlerRan;
      Rostered();
      match e {
        case Incoming(fd, defaultsOk, accepted, closeOk, calls) =>
          OnNewConnection(fd, defaultsOk, accepted, closeOk, calls);
        case Readable(fd, registers, ok, calls) =>
          if fd < |roster| && roster[fd].readState != NOT_REGISTERED {
            DeliverRead(roster[fd], registers, ok, calls);
          }
        case Writable(fd, registers, ok, still, calls) =>
          if fd < |roster| && roster[fd].writeState == NOT_READY {
            DeliverWrite(roster[fd], registers, ok, still, calls);
          }
        case CloseRequest(fd) =>
          if fd < |roster| {
            CloseRequested(roster[fd]);
          }
      }
    }

    method DeliverRead(c: Connection, registers: bool, ok: bool, calls: seq<Call>)
      requires Idle() && c in started && c.readState != NOT_REGISTERED
      modifies this, started
      ensures Idle() && started == old(started) && roster == old(roster) && old(reports) <= reports
      ensures c.ReadBy(registers, ok, calls)
      ensures forall d :: d in started ==> d.leaked == old(d.leaked)
    {
      hide Watch, Leaks, ConnectionsOf, Connection.Told, Connection.HandlerRan;
      c.HandleRead(registers, ok, calls);
    }

    method DeliverWrite(c: Connection, registers: bool, ok: bool, still: bool, calls: seq<Call>)
      requires Idle() && c in started && c.writeState == NOT_READY
      modifies this, started
      ensures Idle() && started == old(started) && roster == old(roster) && old(reports) <= reports
      ensures c.WrittenBy(registers, ok, still, calls)
      ensures forall d :: d in started ==> (d.leaked <==> if d == c then registers && !ok else old(d.leaked))
      ensures !old(c.leaked)
    {
      hide Watch, Leaks, ConnectionsOf, Connection.Told, Connection.HandlerRan;
      c.HandleWrite(registers, ok, still, calls);
    }

    method CloseRequested(c: Connection)
      requires Idle() && c in started
      modifies this, started
      ensures Idle() && started == old(started) && roster == old(roster) && old(reports) <= reports
      ensures ClosedBy(c)
      ensures forall d :: d in started ==> d.leaked == old(d.leaked)
    {
      hide Connection.Valid, ConnectionsOf, Connection.Told;
      CloseConnection(c);
    }

    lemma Rostered()
      requires Inv(null)
      ensures forall i :: 0 <= i < |roster| ==> roster[i] in started
    {
    }

    /** A write event for c, which is waiting for one. */
    predicate Reaches(e: Event, c: Connection)
      reads this, c
    {
      e.Writable? && e.slot < |roster| && roster[e.slot] == c && c.writeState == NOT_READY
    }

    ghost predicate NothingLost()
      reads this, started
    {
      forall c :: c in started ==> !c.leaked
    }

    method Serve(events: seq<Event>)
      requires Idle()
      modifies this, started
      ensures Idle() && old(reports) <= reports && old(started) <= started && fresh(started - old(started))
      ensures AllCleared() && ReportsAreVerdicts()
      ensures old(NothingLost()) && (forall e :: e in events ==> !e.MayLose()) ==>
                && NothingLost()
                && forall c :: c in started && c.state == DISCONNECTED ==> !WriteRemains(c.trace)
      decreases |events|
    {
      hide Inv, Settled, AllCleared, ReportsAreVerdicts;
      EveryoneCleared();
      EveryoneTold();
      if events != [] {
        HandleEvent(events[0]);
        Serve(events[1..]);
      }
    }

    ghost predicate AllCleared()
      reads this, started
    {
      forall c :: c in started ==> c.Cleared()
    }

    /** Every connection is reported with what its trace calls for. */
    ghost predicate ReportsAreVerdicts()
      reads this, started
    {
      forall r :: r in reports && r.connection in started ==> r.code == Verdict(r.connection.trace)
    }

    lemma EveryoneTold()
      requires Inv(null)
      ensures ReportsAreVerdicts()
    {
      hide Connection.Valid, Verdict;
      forall r | r in reports && r.connection in started
        ensures r.code == Verdict(r.connection.trace)
      {
        var c := r.connection;
        assert Owned(c, false) && c in Reported();
        c.StillWatched();
        var last :| last in Notices(c) && c.trace[|c.trace| - 1] == last;
        var q :| q in reports && q.connection == c && Notify(q.code) == last;
        assert q == r;
        OwnerIsToldTheVerdict(c.trace, |c.trace| - 1);
      }
    }

    lemma EveryoneCleared()
      requires Inv(null)
      ensures AllCleared()
      ensures forall c :: c in started && c.state == DISCONNECTED ==> (WriteRemains(c.trace) <==> c.leaked)
    {
      hide Connection.Valid, Connection.Cleared;
      forall c | c in started
        ensures c.Cleared() && (c.state == DISCONNECTED ==> (WriteRemains(c.trace) <==> c.leaked))
      {
        assert Owned(c, false);
        c.Registrations();
      }
    }
  }

  datatype Event =
    | Incoming(fd: int, defaultsOk: bool, accepted: bool, closeOk: bool, calls: seq<Call>)
    | Readable(slot: nat, registers: bool, ok: bool, calls: seq<Call>)
    | Writable(slot: nat, registers: bool, ok: bool, still: bool, calls: seq<Call>)
    | CloseRequest(slot: nat)
  {
    /** A write that registers again and then fails. */
    predicate MayLose() {
      Writable? && registers && !ok
    }
  }

  /** The shortest run that leaves a registration behind: a write event that registers again and fails. */
  method LeakingWrite() returns (c: Connection)
    ensures fresh(c) && c.Valid() && c.state == DISCONNECTED
    ensures WriteRemains(c.trace) && !ReadRemains(c.trace)
  {
    hide Watch;
    c := new Connection(true);
    var started := c.Start(true);
    var registered := c.RegisterForWrite();
    c.HandleWrite(true, false, false, []);
    c.Registrations();
  }
}
