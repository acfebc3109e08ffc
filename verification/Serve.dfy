/** The closure of `runServe` (apps/collector/src/serve.ts) with its variables changed in place. */
module SupervisorClass {
  import opened Wrappers
  import opened Supervisor
  import opened Replies

  /** No two engines are running, and a running one means state `running` with its controller. */
  ghost predicate OneAlive(s: Server) {
    && (forall i, j :: 0 <= i < j < |s.engines| ==> s.engines[i].Over? || s.engines[j].Over?)
    && (forall i :: 0 <= i < |s.engines| && !s.engines[i].Over? ==> s.state == Running && s.controller == Some(i))
    && s.exits <= 1
  }

  /** After a start: a new engine came up over the end of all earlier ones, or none did; no false `running`. */
  ghost predicate Started(s: Server, s': Server) {
    && OneAlive(s')
    && (s'.engines != s.engines ==> AllOver(s) && s.creds && s'.engines == s.engines + [Alive])
    && (s'.state == Running ==> s'.jammed || !AllOver(s'))
  }

  /** After an engine's end: nothing runs, `running` only while a stop waits, and a reason is the run's own. */
  ghost predicate EngineEnded(s: Server, s': Server) {
    && OneAlive(s') && AllOver(s') && |s'.engines| == |s.engines|
    && (s'.state == Running ==> s'.handler.AwaitStop?)
    && s.log <= s'.log
    && (forall r: nat :: EngineStopped(Some(r)) in s'.log[|s.log|..] ==> r == |s'.engines| - 1)
  }

  lemma StartLeaves(realExit: bool, s: Server, throws: bool)
    requires Inv(realExit, s) && !(s.closed && realExit) && s.handler.Free?
    ensures Inv(realExit, StartEngine(s, throws)) && Started(s, StartEngine(s, throws))
  {
    StartKeeps(realExit, s, throws);
    StartsOver(s, throws);
    NotOver(realExit, StartEngine(s, throws));
  }

  lemma StartsOver(s: Server, throws: bool)
    requires OneEngine(s)
    ensures StartEngine(s, throws).engines != s.engines ==>
      AllOver(s) && s.creds && StartEngine(s, throws).engines == s.engines + [Alive]
  {}

  /** The invariant in the terms of `OneAlive`, and when an engine is still running. */
  lemma NotOver(realExit: bool, s: Server)
    requires Inv(realExit, s)
    ensures OneAlive(s) && (s.promise.None? <==> AllOver(s))
    ensures s.handler.Free? && s.state == Running ==> s.jammed || !AllOver(s)
  {}

  lemma PauseLeaves(realExit: bool, s: Server)
    requires Inv(realExit, s) && !(s.closed && realExit) && s.handler.Free?
    ensures var s' := PauseEngine(s);
      && Inv(realExit, s') && OneAlive(s') && s'.engines == s.engines
      && (s'.handler.Free? <==> AllOver(s'))
      && (!s'.handler.Free? ==> s'.handler == AwaitPause(|s'.engines| - 1) && !s'.engines[|s'.engines| - 1].Over?)
  {
    PauseKeeps(realExit, s);
    NotOver(realExit, PauseEngine(s));
  }

  lemma CallbackLeaves(realExit: bool, s: Server)
    requires Inv(realExit, s) && !(s.closed && realExit) && LastIs(s, false)
    ensures var s' := Next(realExit, s, Callback);
      Inv(realExit, s') && EngineEnded(s, s') && EndTold(s, s', s.engines[Last(s)].ok)
  {
    EndStep(realExit, s);
    CallbackKeeps(realExit, s);
    NotOver(realExit, Next(realExit, s, Callback));
  }

  /**
   The closure of `runServe`: its variables change in place as handlers and callbacks run. `realExit`
   says whether the exit function ends the process; if it does, nothing runs once it was called.
   */
  class Serve {
    const realExit: bool
    var state: State
    var intent: Intent
    var controller: Option<nat>
    var promise: Option<nat>
    var creds: bool
    var fault: Option<nat>
    var closed: bool
    var exits: nat
    var chain: seq<Cmd>
    var handler: Handler
    var engines: seq<Life>
    ghost var jammed: bool
    var log: seq<Event>

    ghost function S(): Server
      reads this
    {
      Server(state, intent, controller, promise, creds, fault, closed, exits, chain, handler, engines, jammed, log)
    }

    ghost predicate Valid()
      reads this
    {
      Inv(realExit, S())
    }

    /** The process is still there. */
    predicate Live()
      reads this
    {
      !(realExit && closed)
    }

    constructor (realExit: bool, creds: bool)
      ensures this.realExit == realExit && S() == Init(creds) && Valid() && OneAlive(S())
    {
      this.realExit := realExit;
      state, intent, controller, promise := Idle, NoIntent, None, None;
      this.creds := creds;
      fault, closed, exits, chain, handler, engines, jammed := None, false, 0, [], Free, [], false;
      log := [Status(Idle)];
    }

    /** The start itself, once the two guards are passed. */
    method BeginRun(throws: bool)
      requires state != Running && creds
      modifies this
      ensures S() == StartEngine(old(S()), throws)
    {
      var id := |engines|;
      controller := Some(id);
      intent := WantRunning;
      state := Running;
      fault := None;
      if throws {
        jammed := true;
        log := log + [Failed];
        return;
      }
      engines := engines + [Alive];
      promise := Some(id);
      log := log + [Ack(Start), Status(state)];
    }

    /** A new engine comes up only over the end of every earlier one; a throw leaves none, and jams. */
    method OnStart(throws: bool)
      requires Valid() && Live() && handler.Free?
      modifies this
      ensures S() == StartEngine(old(S()), throws)
      ensures Valid() && Started(old(S()), S())
    {
      StartLeaves(realExit, S(), throws);
      if state == Running {
        log := log + [Ack(Start)];
      } else if !creds {
        log := log + [Refused];
      } else {
        BeginRun(throws);
      }
    }

    /** It waits exactly when an engine is still running, and then for that one. */
    method OnPause()
      requires Valid() && Live() && handler.Free?
      modifies this
      ensures S() == PauseEngine(old(S()))
      ensures Valid() && OneAlive(S()) && engines == old(engines)
      ensures handler.Free? <==> AllOver(S())
      ensures !handler.Free? ==> handler == AwaitPause(|engines| - 1) && !engines[|engines| - 1].Over?
    {
      PauseLeaves(realExit, S());
      if state != Running || controller.None? {
        log := log + [Ack(Pause), Status(state)];
        return;
      }
      intent := Pausing;
      if promise.Some? {
        handler := AwaitPause(promise.value);
      } else {
        log := log + [Ack(Pause), Status(state)];
      }
    }

    /** However often it is called, teardown has happened exactly once afterwards. */
    method CleanupAndExit()
      requires exits == if closed then 1 else 0
      modifies `closed, `exits
      ensures closed && exits == 1
    {
      if closed { return; }
      closed := true;
      exits := exits + 1;
    }

    method CompleteStop()
      requires exits == if closed then 1 else 0
      modifies this
      ensures S() == FinishStop(old(S()))
    {
      handler := Free;
      state := Idle;
      jammed := false;
      log := log + [Ack(Stop), StoppedEvent];
      CleanupAndExit();
    }

    /** It waits exactly when an engine is still running; otherwise the supervisor is closed and idle. */
    method OnStop()
      requires Valid() && Live() && handler.Free?
      modifies this
      ensures S() == StopEngine(old(S()))
      ensures Valid() && OneAlive(S()) && engines == old(engines)
      ensures handler.Free? <==> AllOver(S())
      ensures handler.Free? ==> closed && exits == 1 && state == Idle && !jammed && SaysStopped(S())
    {
      StopKeeps(realExit, S());
      intent := Stopping;
      if promise.Some? { handler := AwaitStop(promise.value); } else { CompleteStop(); }
    }

    /** `handle`: one command. */
    method HandleOne(c: Cmd, throws: bool)
      requires Valid() && Live() && handler.Free?
      modifies this
      ensures S() == HandleCmd(old(S()), c, throws)
      ensures Valid() && CommandTold(old(S()), S(), c, throws)
    {
      CommandKeeps(realExit, S(), c, throws);
      CommandStep(realExit, S(), c, throws);
      match c {
        case Configure =>
          creds := true;
          log := log + [Ack(Configure)];
        case Start => OnStart(throws);
        case Pause => OnPause();
        case Stop => OnStop();
        case Inert => log := log + [Info];
      }
    }

    /** The next link of the command chain. */
    method HandleNext(throws: bool)
      requires Valid() && Live() && handler.Free? && chain != []
      modifies this
      ensures S() == Next(realExit, old(S()), Handle(throws))
      ensures Valid() && OneAlive(S()) && CommandTold(old(S()), S(), old(chain)[0], throws)
    {
      QueueKeeps(realExit, S(), chain[1..]);
      var c := chain[0];
      chain := chain[1..];
      HandleOne(c, throws);
      NotOver(realExit, S());
    }

    /** The `.then` of an engine's promise. */
    method OnThen()
      requires LastIs(S(), false) && engines[|engines| - 1].ok
      modifies this
      ensures S() == EngineCallback(old(S()), true).(engines := old(engines)[|old(engines)| - 1 := Over])
    {
      controller := None;
      promise := None;
      engines := engines[|engines| - 1 := Over];
      if intent == Pausing {
        state := Paused;
      } else if intent != Stopping {
        state := Errored;
        log := log + [EngineStopped(fault), Status(state)];
      }
    }

    /** The `.catch` of an engine's promise. */
    method OnCatch()
      requires LastIs(S(), false) && !engines[|engines| - 1].ok
      modifies this
      ensures S() == EngineCallback(old(S()), false).(engines := old(engines)[|old(engines)| - 1 := Over])
    {
      controller := None;
      promise := None;
      engines := engines[|engines| - 1 := Over];
      state := Errored;
      log := log + [EngineFailed, Status(state)];
    }

    /** What follows the newest engine's end: none is left, and a reported reason is its own. */
    method OnEngineEnd()
      requires Valid() && Live() && LastIs(S(), false)
      modifies this
      ensures S() == Next(realExit, old(S()), Callback)
      ensures Valid() && EngineEnded(old(S()), S())
      ensures EndTold(old(S()), S(), old(engines)[|old(engines)| - 1].ok)
    {
      CallbackLeaves(realExit, S());
      if engines[|engines| - 1].ok { OnThen(); } else { OnCatch(); }
    }

    /** A handler resumes after its `await enginePromise`: nothing runs any more, and nothing claims to. */
    method Resume()
      requires Valid() && Live() && !handler.Free? && engines[handler.engine].Over?
      modifies this
      ensures S() == Next(realExit, old(S()), Wake)
      ensures Valid() && OneAlive(S()) && handler.Free? && AllOver(S()) && state != Running
      ensures old(handler).AwaitStop? ==> closed && SaysStopped(S())
      ensures old(handler).AwaitPause? ==> state == old(state) && log == old(log) + [Ack(Pause), Status(state)]
    {
      WakeKeeps(realExit, S());
      match handler {
        case AwaitPause(_) =>
          handler := Free;
          log := log + [Ack(Pause), Status(state)];
        case AwaitStop(_) =>
          CompleteStop();
      }
    }

    method Dispatch(c: Cmd)
      requires Valid() && !closed
      modifies `chain
      ensures S() == Next(realExit, old(S()), Line(c)) && Valid()
    {
      QueueKeeps(realExit, S(), chain + [c]);
      chain := chain + [c];
    }

    /** After the input's end a stop is queued, under way or done. */
    method StdinClosed()
      requires Valid()
      modifies `chain
      ensures S() == Next(realExit, old(S()), Eof) && Valid()
      ensures Stop in chain || intent == Stopping || closed
    {
      QueueKeeps(realExit, S(), chain + [Stop]);
      if intent != Stopping && !closed {
        chain := chain + [Stop];
        assert chain[|chain| - 1] == Stop;
      }
    }

    /** One turn of the event loop: whatever comes next, on a process that may be gone. */
    method Turn(step: Step)
      requires Valid()
      modifies this
      ensures S() == Next(realExit, old(S()), step)
      ensures Valid() && OneAlive(S())
    {
      NextKeeps(realExit, S(), step);
      if realExit && closed { return; }
      match step {
        case Line(c) => if !closed { Dispatch(c); }
        case Eof => StdinClosed();
        case Handle(throws) => if handler.Free? && chain != [] { HandleNext(throws); }
        case Settle(ok) =>
          if |engines| > 0 && engines[|engines| - 1].Alive? { engines := engines[|engines| - 1 := Settled(ok)]; }
        case Callback =>
          if |engines| > 0 && engines[|engines| - 1].Settled? { OnEngineEnd(); }
        case Wake => if !handler.Free? && engines[handler.engine].Over? { Resume(); }
        case Fatal => if |engines| > 0 && engines[|engines| - 1].Alive? { fault := Some(|engines| - 1); }
        case Delivered => if |engines| > 0 && engines[|engines| - 1].Alive? { fault := None; }
      }
    }
  }

  /** A whole session on the object: from boot, whatever happens in whatever order, it stays safe. */
  method Session(realExit: bool, creds: bool, steps: seq<Step>) returns (server: Serve)
    ensures server.S() == Run(realExit, Init(creds), steps)
    ensures server.Valid() && OneAlive(server.S())
    ensures server.handler.Free? ==> (server.state == Running && AllOver(server.S()) <==> server.jammed)
    ensures realExit && server.closed ==> AllOver(server.S())
  {
    server := new Serve(realExit, creds);
    for i := 0 to |steps|
      invariant server.realExit == realExit && server.Valid() && OneAlive(server.S())
      invariant server.S() == Run(realExit, Init(creds), steps[..i])
    {
      RunNext(realExit, Init(creds), steps[..i], steps[i]);
      assert steps[..i + 1] == steps[..i] + [steps[i]];
      server.Turn(steps[i]);
    }
    assert steps[..|steps|] == steps;
  }

  lemma {:induction false} RunNext(realExit: bool, s: Server, steps: seq<Step>, step: Step)
    ensures Run(realExit, s, steps + [step]) == Next(realExit, Run(realExit, s, steps), step)
    decreases |steps|
  {
    if steps == [] {
      assert [] + [step] == [step] && [step][1..] == [];
    } else {
      assert (steps + [step])[0] == steps[0] && (steps + [step])[1..] == steps[1..] + [step];
      RunNext(realExit, Next(realExit, s, steps[0]), steps[1..], step);
    }
  }
}
