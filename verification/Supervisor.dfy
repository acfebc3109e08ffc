/**
 The desktop supervisor (apps/collector/src/serve.ts): commands are handled one at a time, a handler
 may wait for the engine, and the engine may end, fault or deliver at any moment in between.
 */
module Supervisor {
  import opened Wrappers
  import opened Approvals

  datatype State = Idle | Running | Paused | Errored
  datatype Intent = NoIntent | WantRunning | Pausing | Stopping

  /** Commands that neither touch the engine nor the credentials are `Inert`. */
  datatype Cmd = Configure | Start | Pause | Stop | Inert

  /** A run: alive, ended with its `.then`/`.catch` still to come, or over. */
  datatype Life = Alive | Settled(ok: bool) | Over

  datatype Handler = Free | AwaitPause(engine: nat) | AwaitStop(engine: nat)

  /** `EngineStopped` names the run whose fault explains the stop, when there is one. */
  datatype Event = Ack(cmd: Cmd) | Status(state: State) | Refused | Failed | EngineStopped(reason: Option<nat>)
                 | EngineFailed | Info | StoppedEvent

  /**
   The closure variables of `runServe`, with the pending command chain, the handler in progress and
   every engine ever started. `jammed` remembers that a start threw before its engine existed and
   that no stop has been handled since.
   */
  datatype Server = Server(
    state: State, intent: Intent, controller: Option<nat>, promise: Option<nat>,
    creds: bool, fault: Option<nat>, closed: bool, exits: nat,
    chain: seq<Cmd>, handler: Handler, engines: seq<Life>, jammed: bool, log: seq<Event>)

  /** `throws`: one of the reads between the state change and the engine call fails. */
  datatype Step =
    | Line(cmd: Cmd)
    | Eof
    | Handle(throws: bool)
    | Settle(ok: bool)
    | Callback
    | Wake
    | Fatal
    | Delivered

  function Init(creds: bool): Server {
    Server(Idle, NoIntent, None, None, creds, None, false, 0, [], Free, [], false, [Status(Idle)])
  }

  function Last(s: Server): int { |s.engines| - 1 }

  predicate LastIs(s: Server, alive: bool) {
    s.engines != [] && (if alive then s.engines[Last(s)].Alive? else s.engines[Last(s)].Settled?)
  }

  function StartEngine(s: Server, throws: bool): Server {
    if s.state == Running then s.(log := s.log + [Ack(Start)])
    else if !s.creds then s.(log := s.log + [Refused])
    else
      var id := |s.engines|;
      var s1 := s.(controller := Some(id), intent := WantRunning, state := Running, fault := None);
      if throws then s1.(jammed := true, log := s.log + [Failed])
      else s1.(engines := s.engines + [Alive], promise := Some(id), log := s.log + [Ack(Start), Status(Running)])
  }

  function PauseEngine(s: Server): Server {
    if s.state != Running || s.controller.None? then s.(log := s.log + [Ack(Pause), Status(s.state)])
    else
      var s1 := s.(intent := Pausing);
      if s.promise.Some? then s1.(handler := AwaitPause(s.promise.value))
      else s1.(log := s.log + [Ack(Pause), Status(s.state)])
  }

  /** The end of `stop`, with `cleanupAndExit`. */
  function FinishStop(s: Server): Server {
    s.(state := Idle, handler := Free, jammed := false, log := s.log + [Ack(Stop), StoppedEvent],
       closed := true, exits := if s.closed then s.exits else s.exits + 1)
  }

  function StopEngine(s: Server): Server {
    var s1 := s.(intent := Stopping);
    if s.promise.Some? then s1.(handler := AwaitStop(s.promise.value)) else FinishStop(s1)
  }

  function HandleCmd(s: Server, c: Cmd, throws: bool): Server {
    match c
    case Configure => s.(creds := true, log := s.log + [Ack(Configure)])
    case Start => StartEngine(s, throws)
    case Pause => PauseEngine(s)
    case Stop => StopEngine(s)
    case Inert => s.(log := s.log + [Info])
  }

  /** The `.then` or `.catch` of the engine's promise. */
  function EngineCallback(s: Server, ok: bool): Server {
    var s1 := s.(controller := None, promise := None);
    if !ok then s1.(state := Errored, log := s.log + [EngineFailed, Status(Errored)])
    else if s.intent == Pausing then s1.(state := Paused)
    else if s.intent == Stopping then s1
    else s1.(state := Errored, log := s.log + [EngineStopped(s.fault), Status(Errored)])
  }

  /** One step; a step that is not enabled changes nothing. With `realExit`, closing ends the process. */
  function Next(realExit: bool, s: Server, step: Step): Server {
    if s.closed && realExit then s
    else
      match step
      case Line(c) => if s.closed then s else s.(chain := s.chain + [c])
      case Eof => if s.intent == Stopping || s.closed then s else s.(chain := s.chain + [Stop])
      case Handle(throws) =>
        if !s.handler.Free? || s.chain == [] then s
        else HandleCmd(s.(chain := s.chain[1..]), s.chain[0], throws)
      case Settle(ok) =>
        if LastIs(s, true) then s.(engines := s.engines[Last(s) := Settled(ok)]) else s
      case Callback =>
        if LastIs(s, false) then
          EngineCallback(s, s.engines[Last(s)].ok).(engines := s.engines[Last(s) := Over])
        else s
      case Wake =>
        (match s.handler
         case AwaitPause(e) =>
           if e < |s.engines| && s.engines[e].Over? then s.(handler := Free, log := s.log + [Ack(Pause), Status(s.state)]) else s
         case AwaitStop(e) => if e < |s.engines| && s.engines[e].Over? then FinishStop(s) else s
         case Free => s)
      case Fatal => if LastIs(s, true) then s.(fault := Some(Last(s))) else s
      case Delivered => if LastIs(s, true) then s.(fault := None) else s
  }

  function Run(realExit: bool, s: Server, steps: seq<Step>): Server
    decreases |steps|
  {
    if steps == [] then s else Run(realExit, Next(realExit, s, steps[0]), steps[1..])
  }

  // ----- what every step keeps -----

  /** No engine is alive or waiting for its callback. */
  ghost predicate AllOver(s: Server) {
    forall i :: 0 <= i < |s.engines| ==> s.engines[i].Over?
  }

  /** Only the newest engine can be alive, and then the supervisor is running, with its controller. */
  ghost predicate OneEngine(s: Server) {
    && (forall i :: 0 <= i < |s.engines| - 1 ==> s.engines[i].Over?)
    && (s.engines != [] && !s.engines[Last(s)].Over? ==>
          s.promise == Some(Last(s)) && s.controller == Some(Last(s)) && s.state == Running)
    && (s.promise.Some? ==> s.engines != [] && s.promise.value == Last(s) && !s.engines[Last(s)].Over?)
    && (s.promise.Some? && s.handler.Free? ==> s.intent == WantRunning)
  }

  /** A waiting handler waits for the newest engine under its own intent. */
  ghost predicate Waiting(s: Server) {
    match s.handler
    case Free => true
    case AwaitPause(e) =>
      e == Last(s) && s.intent == Pausing && (s.engines[e].Over? ==> s.state == Paused || s.state == Errored)
    case AwaitStop(e) => e == Last(s) && s.intent == Stopping
  }

  /** Between commands, `running` is a lie exactly when the supervisor is jammed. */
  ghost predicate Honest(s: Server) {
    s.jammed <==> s.handler.Free? && s.state == Running && s.promise.None?
  }

  ghost predicate Inv(realExit: bool, s: Server) {
    && OneEngine(s) && Waiting(s) && Honest(s)
    && (s.fault.Some? ==> s.fault.value == Last(s))
    && (s.exits == if s.closed then 1 else 0)
    && (realExit && s.closed ==> AllOver(s))
  }

  lemma StartKeeps(realExit: bool, s: Server, throws: bool)
    requires Inv(realExit, s) && !(s.closed && realExit) && s.handler.Free?
    ensures Inv(realExit, StartEngine(s, throws))
  {}

  lemma PauseKeeps(realExit: bool, s: Server)
    requires Inv(realExit, s) && !(s.closed && realExit) && s.handler.Free?
    ensures Inv(realExit, PauseEngine(s))
  {}

  lemma StopKeeps(realExit: bool, s: Server)
    requires Inv(realExit, s) && !(s.closed && realExit) && s.handler.Free?
    ensures Inv(realExit, StopEngine(s))
  {}

  lemma OtherKeeps(realExit: bool, s: Server, c: Cmd)
    requires Inv(realExit, s) && (c == Configure || c == Inert)
    ensures Inv(realExit, HandleCmd(s, c, false)) && Inv(realExit, HandleCmd(s, c, true))
  {}

  lemma QueueKeeps(realExit: bool, s: Server, chain: seq<Cmd>)
    requires Inv(realExit, s)
    ensures Inv(realExit, s.(chain := chain))
  {}

  lemma CommandKeeps(realExit: bool, s: Server, c: Cmd, throws: bool)
    requires Inv(realExit, s) && !(s.closed && realExit) && s.handler.Free?
    ensures Inv(realExit, HandleCmd(s, c, throws))
  {
    match c
    case Start => StartKeeps(realExit, s, throws);
    case Pause => PauseKeeps(realExit, s);
    case Stop => StopKeeps(realExit, s);
    case Configure => OtherKeeps(realExit, s, c);
    case Inert => OtherKeeps(realExit, s, c);
  }

  lemma HandleKeeps(realExit: bool, s: Server, throws: bool)
    requires Inv(realExit, s) && !(s.closed && realExit)
    ensures Inv(realExit, Next(realExit, s, Handle(throws)))
  {
    if s.handler.Free? && s.chain != [] {
      QueueKeeps(realExit, s, s.chain[1..]);
      CommandKeeps(realExit, s.(chain := s.chain[1..]), s.chain[0], throws);
    }
  }

  lemma SettleKeeps(realExit: bool, s: Server, ok: bool)
    requires Inv(realExit, s) && !(s.closed && realExit)
    ensures Inv(realExit, Next(realExit, s, Settle(ok)))
  {}

  lemma CallbackKeeps(realExit: bool, s: Server)
    requires Inv(realExit, s) && !(s.closed && realExit)
    ensures Inv(realExit, Next(realExit, s, Callback))
  {}

  lemma FaultKeeps(realExit: bool, s: Server, step: Step)
    requires Inv(realExit, s) && !(s.closed && realExit) && (step.Fatal? || step.Delivered?)
    ensures Inv(realExit, Next(realExit, s, step))
  {}

  lemma WakeKeeps(realExit: bool, s: Server)
    requires Inv(realExit, s) && !(s.closed && realExit)
    ensures Inv(realExit, Next(realExit, s, Wake))
  {}

  lemma NextKeeps(realExit: bool, s: Server, step: Step)
    requires Inv(realExit, s)
    ensures Inv(realExit, Next(realExit, s, step))
  {
    if !(s.closed && realExit) {
      match step
      case Handle(throws) => HandleKeeps(realExit, s, throws);
      case Wake => WakeKeeps(realExit, s);
      case Line(c) => QueueKeeps(realExit, s, s.chain + [c]);
      case Eof => QueueKeeps(realExit, s, s.chain + [Stop]);
      case Settle(ok) => SettleKeeps(realExit, s, ok);
      case Callback => CallbackKeeps(realExit, s);
      case _ => FaultKeeps(realExit, s, step);
    }
  }

  lemma {:induction false} RunKeeps(realExit: bool, s: Server, steps: seq<Step>)
    requires Inv(realExit, s)
    ensures Inv(realExit, Run(realExit, s, steps))
    decreases |steps|
  {
    if steps != [] {
      NextKeeps(realExit, s, steps[0]);
      RunKeeps(realExit, Next(realExit, s, steps[0]), steps[1..]);
    }
  }

  /**
   Over every interleaving: at most one engine is not over; while it is not, the supervisor is
   running with that engine's controller; between commands the supervisor says `running` with no
   engine behind it exactly when it is jammed; teardown ran at most once, exactly when it is closed;
   and a recorded fault belongs to the newest run.
   */
  lemma Safe(realExit: bool, creds: bool, steps: seq<Step>)
    ensures var s := Run(realExit, Init(creds), steps);
      && (forall i, j :: 0 <= i < j < |s.engines| ==> s.engines[i].Over? || s.engines[j].Over?)
      && (forall i :: 0 <= i < |s.engines| && !s.engines[i].Over? ==> s.state == Running && s.controller == Some(i))
      && (s.handler.Free? ==> (s.state == Running && AllOver(s) <==> s.jammed))
      && s.exits <= 1 && (s.exits == 1 <==> s.closed)
      && (s.fault.Some? ==> s.fault.value == |s.engines| - 1)
      && (realExit && s.closed ==> AllOver(s))
  {
    RunKeeps(realExit, Init(creds), steps);
  }

  /** An engine starts only with credentials, with every earlier engine over, and by a start command. */
  lemma StartsAlone(realExit: bool, creds: bool, steps: seq<Step>, step: Step)
    ensures var s := Run(realExit, Init(creds), steps);
      var s' := Next(realExit, s, step);
      |s'.engines| > |s.engines| ==>
        && s.creds && AllOver(s) && step == Handle(false) && s.chain != [] && s.chain[0] == Start
        && s'.engines == s.engines + [Alive]
  {
    RunKeeps(realExit, Init(creds), steps);
    StartStep(realExit, Run(realExit, Init(creds), steps), step);
  }

  lemma StartStep(realExit: bool, s: Server, step: Step)
    requires Inv(realExit, s)
    ensures var s' := Next(realExit, s, step);
      |s'.engines| > |s.engines| ==>
        && s.creds && AllOver(s) && step == Handle(false) && s.chain != [] && s.chain[0] == Start
        && s'.engines == s.engines + [Alive]
  {
    match step
    case Handle(throws) =>
      if !(s.closed && realExit) && s.handler.Free? && s.chain != [] {
        HandleStarts(s.(chain := s.chain[1..]), s.chain[0], throws);
      }
    case _ =>
  }

  lemma HandleStarts(s: Server, c: Cmd, throws: bool)
    requires OneEngine(s) && s.handler.Free?
    ensures var s' := HandleCmd(s, c, throws);
      |s'.engines| > |s.engines| ==> s.creds && AllOver(s) && !throws && c == Start && s'.engines == s.engines + [Alive]
  {}

  ghost predicate SaysStopped(s: Server) { s.log != [] && s.log[|s.log| - 1] == StoppedEvent }

  /** `stopped` is emitted only when every engine is over. */
  lemma StopsAlone(realExit: bool, creds: bool, steps: seq<Step>, step: Step)
    ensures var s := Run(realExit, Init(creds), steps);
      var s' := Next(realExit, s, step);
      |s'.log| > |s.log| && SaysStopped(s') ==> AllOver(s') && s'.closed && s'.state == Idle
  {
    RunKeeps(realExit, Init(creds), steps);
    StopStep(realExit, Run(realExit, Init(creds), steps), step);
  }

  lemma StopStep(realExit: bool, s: Server, step: Step)
    requires Inv(realExit, s)
    ensures var s' := Next(realExit, s, step);
      |s'.log| > |s.log| && SaysStopped(s') ==> AllOver(s') && s'.closed && s'.state == Idle
  {
    if !(s.closed && realExit) {
      match step
      case Handle(throws) =>
        if s.handler.Free? && s.chain != [] { HandleStops(s.(chain := s.chain[1..]), s.chain[0], throws); }
      case _ =>
    }
  }

  lemma HandleStops(s: Server, c: Cmd, throws: bool)
    requires OneEngine(s)
    ensures var s' := HandleCmd(s, c, throws);
      |s'.log| > |s.log| && SaysStopped(s') ==> AllOver(s') && s'.closed && s'.state == Idle
  {}

  /** A reported stop reason names the run that stopped, never an earlier one. */
  lemma ReasonIsOwn(realExit: bool, creds: bool, steps: seq<Step>)
    ensures var s := Run(realExit, Init(creds), steps);
      var s' := Next(realExit, s, Callback);
      forall i :: |s.log| <= i < |s'.log| && s'.log[i].EngineStopped? && s'.log[i].reason.Some? ==>
        s'.log[i].reason == Some(Last(s)) && LastIs(s, false)
  {
    RunKeeps(realExit, Init(creds), steps);
  }

  /** When a pause that waited is acknowledged, the supervisor is paused or in error, never running. */
  lemma PauseSettles(realExit: bool, creds: bool, steps: seq<Step>)
    ensures var s := Run(realExit, Init(creds), steps);
      var s' := Next(realExit, s, Wake);
      s.handler.AwaitPause? && s'.handler.Free? ==> AllOver(s') && (s'.state == Paused || s'.state == Errored)
  {
    RunKeeps(realExit, Init(creds), steps);
  }

  // ----- two ways the surface misleads -----

  /** The start command is next, nothing runs, and credentials are there. */
  ghost predicate Startable(realExit: bool, s: Server) {
    && !(s.closed && realExit) && s.handler.Free? && s.chain != [] && s.chain[0] == Start
    && s.creds && s.state != Running
  }

  /**
   In every reachable state where a start is due, its outcome is decided by the connectors alone: an
   engine comes up, or the supervisor jams, and it jams exactly when some connector that is switched
   on and counts as recorded has lists that cannot be spread and sorted.
   */
  lemma StartJamsExactly(realExit: bool, creds: bool, steps: seq<Step>,
                         cfg: map<string, bool>, approved: map<string, string>, registry: seq<Surface>)
    requires Startable(realExit, Run(realExit, Init(creds), steps))
    ensures var s := Run(realExit, Init(creds), steps);
      var s' := Next(realExit, s, Handle(StartThrows(cfg, approved, registry)));
      && (s'.jammed <==> StartThrows(cfg, approved, registry))
      && s'.state == Running
      && s'.engines == (if StartThrows(cfg, approved, registry) then s.engines else s.engines + [Alive])
      && (s'.jammed ==> AllOver(s'))
  {
    RunKeeps(realExit, Init(creds), steps);
  }

  /** Any overlay that breaks a connector which counts as recorded gets past boot and jams the first start. */
  lemma StartJams(base: Surface, globs: Option<Json>, perms: Option<Json>, approved: map<string, string>)
    requires Broken(Overlaid(base, globs, perms)) && Recorded(approved, base.id)
    ensures var c := Overlaid(base, globs, perms);
      && StartThrows(map[], approved, [c])
      && (forall i: nat :: !SeedThrowsAt(approved, [c], i))
      && var s := Run(true, Init(true), [Line(Start), Handle(StartThrows(map[], approved, [c]))]);
         s.state == Running && s.engines == [] && s.jammed
  {
    var c := Overlaid(base, globs, perms);
    assert c in [c] && Enabled(map[], c);
    RunTwo(true, Init(true), Line(Start), Handle(true));
  }

  /**
   Three such overlays: a number, or a list with an item that has no string form, where globs are
   expected on a connector recorded before; and the number on an id that no file need ever record.
   */
  lemma JammingOverlays(base: Surface)
    ensures Broken(Overlaid(base, Some(Number(5.0)), None))
    ensures Broken(Overlaid(base, Some(List([Object(map["toString" := Number(0.0)]), Text("x")])), None))
    ensures Broken(Overlaid(base, None, Some(Null)))
    ensures Recorded(map[], "constructor")
  {
    var items := [Object(map["toString" := Number(0.0)]), Text("x")];
    assert !HasString(items[0]);
  }

  lemma RunTwo(realExit: bool, s: Server, a: Step, b: Step)
    ensures Run(realExit, s, [a, b]) == Next(realExit, Next(realExit, s, a), b)
  {
    assert [a, b][1..] == [b] && [b][1..] == [];
    assert Run(realExit, Next(realExit, s, a), [b]) == Next(realExit, Next(realExit, s, a), b);
  }

  /** Jammed with no stop on its way: what no other command changes. */
  ghost predicate Stuck(realExit: bool, s: Server) { Inv(realExit, s) && s.jammed && Stop !in s.chain }

  /** While jammed, no command but stop helps: start is acknowledged, yet no engine ever starts. */
  lemma {:induction false} JamLasts(realExit: bool, s: Server, steps: seq<Step>)
    requires Stuck(realExit, s)
    requires forall i :: 0 <= i < |steps| ==> steps[i] != Line(Stop) && steps[i] != Eof
    ensures Stuck(realExit, Run(realExit, s, steps)) && Run(realExit, s, steps).engines == s.engines
    decreases |steps|
  {
    if steps != [] {
      JamStep(realExit, s, steps[0]);
      JamLasts(realExit, Next(realExit, s, steps[0]), steps[1..]);
    }
  }

  lemma JamStep(realExit: bool, s: Server, step: Step)
    requires Stuck(realExit, s) && step != Line(Stop) && step != Eof
    ensures Stuck(realExit, Next(realExit, s, step)) && Next(realExit, s, step).engines == s.engines
  {
    NextKeeps(realExit, s, step);
  }

  /** If the exit seam returns, a start queued behind a stop brings an engine up after `stopped`. */
  lemma StartAfterStopped()
    ensures var s := Run(false, Init(true), [Line(Stop), Line(Start), Handle(false), Handle(false)]);
      s.closed && StoppedEvent in s.log && s.engines == [Alive]
  {
    var s1 := Next(false, Init(true), Line(Stop));
    var s2 := Next(false, s1, Line(Start));
    assert s2.chain == [Stop, Start];
    var s3 := Next(false, s2, Handle(false));
    assert s3.chain == [Start] && s3.closed && s3.log == [Status(Idle), Ack(Stop), StoppedEvent];
    assert s3.log[2] in s3.log;
    var s4 := Next(false, s3, Handle(false));
    assert s4.log[2] == StoppedEvent;
    var steps := [Line(Stop), Line(Start), Handle(false), Handle(false)];
    assert steps[1..] == [Line(Start), Handle(false), Handle(false)];
    assert steps[1..][1..] == [Handle(false), Handle(false)];
    RunTwo(false, s2, Handle(false), Handle(false));
    assert Run(false, s1, steps[1..]) == Run(false, s2, [Handle(false), Handle(false)]);
  }
}
