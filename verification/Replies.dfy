/** What the supervisor says and leaves behind, over every run: replies, states after an engine's end, reasons. */
module Replies {
  import opened Wrappers
  import opened Supervisor

  // ----- the end of an engine -----

  /** What follows the end of the newest engine, told by its promise and by the handler that waits for it. */
  ghost predicate EndTold(s: Server, s': Server, ok: bool) {
    && s'.handler == s.handler && |s'.engines| == |s.engines| && AllOver(s')
    && s'.controller.None? && s'.promise.None?
    && match s.handler
       case Free =>
         && s'.state == Errored
         && s'.log == s.log + [if ok then EngineStopped(s.fault) else EngineFailed, Status(Errored)]
       case AwaitPause(_) =>
         && s'.state == (if ok then Paused else Errored)
         && s'.log == s.log + (if ok then [] else [EngineFailed, Status(Errored)])
       case AwaitStop(_) =>
         && (!ok ==> s'.state == Errored)
         && s'.log == s.log + (if ok then [] else [EngineFailed, Status(Errored)])
  }

  /** An engine's end in every run: by itself it is an error, under a pause or a stop only a rejection is. */
  lemma EndsTold(realExit: bool, creds: bool, steps: seq<Step>)
    ensures var s := Run(realExit, Init(creds), steps);
      !(s.closed && realExit) && LastIs(s, false) ==> EndTold(s, Next(realExit, s, Callback), s.engines[Last(s)].ok)
  {
    RunKeeps(realExit, Init(creds), steps);
    var s := Run(realExit, Init(creds), steps);
    if !(s.closed && realExit) && LastIs(s, false) { EndStep(realExit, s); }
  }

  lemma EndStep(realExit: bool, s: Server)
    requires Inv(realExit, s) && !(s.closed && realExit) && LastIs(s, false)
    ensures EndTold(s, Next(realExit, s, Callback), s.engines[Last(s)].ok)
  {
    CallbackKeeps(realExit, s);
  }

  /** While the pause for engine `e`, whose promise ended as `ok`, still waits. */
  ghost predicate Pausing(realExit: bool, s: Server, e: nat, ok: bool) {
    && Inv(realExit, s) && e < |s.engines|
    && if s.handler == AwaitPause(e) then
         s.engines[e] == Settled(ok) || (s.engines[e].Over? && s.state == if ok then Paused else Errored)
       else s.engines[e].Over?
  }

  lemma PausingStep(realExit: bool, s: Server, e: nat, ok: bool, step: Step)
    requires Pausing(realExit, s, e, ok)
    ensures Pausing(realExit, Next(realExit, s, step), e, ok)
  {
    NextKeeps(realExit, s, step);
    if !(s.closed && realExit) {
      match step
      case Callback => if LastIs(s, false) { EndStep(realExit, s); }
      case Handle(throws) => if s.handler.Free? && s.chain != [] { PausingCommand(s.(chain := s.chain[1..]), e, s.chain[0], throws); }
      case _ =>
    }
  }

  lemma PausingCommand(s: Server, e: nat, c: Cmd, throws: bool)
    requires OneEngine(s) && e < |s.engines| && s.engines[e].Over? && s.handler.Free?
    ensures var s' := HandleCmd(s, c, throws); s'.handler != AwaitPause(e) && e < |s'.engines| && s'.engines[e].Over?
  {}

  lemma {:induction false} PausingRun(realExit: bool, s: Server, e: nat, ok: bool, steps: seq<Step>)
    requires Pausing(realExit, s, e, ok)
    ensures Pausing(realExit, Run(realExit, s, steps), e, ok)
    decreases |steps|
  {
    if steps != [] {
      PausingStep(realExit, s, e, ok, steps[0]);
      PausingRun(realExit, Next(realExit, s, steps[0]), e, ok, steps[1..]);
    }
  }

  /**
   A pause waits for an engine whose promise has ended. Whatever happens before the pause is
   acknowledged, it is acknowledged as paused if the promise resolved, and as an error if it rejected.
   */
  lemma PauseTold(realExit: bool, creds: bool, before: seq<Step>, e: nat, ok: bool, after: seq<Step>)
    requires var s := Run(realExit, Init(creds), before);
      s.handler == AwaitPause(e) && e < |s.engines| && s.engines[e] == Settled(ok)
    ensures var s := Run(realExit, Run(realExit, Init(creds), before), after);
      var s' := Next(realExit, s, Wake);
      s.handler == AwaitPause(e) && s'.handler.Free? ==>
        && s'.state == (if ok then Paused else Errored)
        && s'.log == s.log + [Ack(Pause), Status(s'.state)]
  {
    RunKeeps(realExit, Init(creds), before);
    PausingRun(realExit, Run(realExit, Init(creds), before), e, ok, after);
  }

  // ----- reasons -----

  /** A fatal fault was reported by the newest run since it came up, and nothing was delivered after it. */
  ghost predicate FaultStands(realExit: bool, creds: bool, steps: seq<Step>)
    decreases |steps|
  {
    if steps == [] then false
    else
      var before := steps[..|steps| - 1];
      var s := Run(realExit, Init(creds), before);
      match steps[|steps| - 1]
      case Fatal => LastIs(s, true) || FaultStands(realExit, creds, before)
      case Delivered => !LastIs(s, true) && FaultStands(realExit, creds, before)
      case _ => |Run(realExit, Init(creds), steps).engines| == |s.engines| && FaultStands(realExit, creds, before)
  }

  /** While the newest engine is not over, a fault is held exactly when one stands. */
  ghost predicate FaultKnown(s: Server, stands: bool) {
    s.engines != [] && !s.engines[Last(s)].Over? ==> s.fault == if stands then Some(Last(s)) else None
  }

  lemma {:induction false} FaultRun(realExit: bool, creds: bool, steps: seq<Step>)
    ensures FaultKnown(Run(realExit, Init(creds), steps), FaultStands(realExit, creds, steps))
    decreases |steps|
  {
    if steps != [] {
      var n := |steps| - 1;
      var s := Run(realExit, Init(creds), steps[..n]);
      FaultRun(realExit, creds, steps[..n]);
      RunKeeps(realExit, Init(creds), steps[..n]);
      assert steps == steps[..n] + [steps[n]];
      RunSnoc(realExit, Init(creds), steps[..n], steps[n]);
      FaultStep(realExit, s, steps[n], FaultStands(realExit, creds, steps[..n]));
      StartStep(realExit, s, steps[n]);
    }
  }

  lemma FaultStep(realExit: bool, s: Server, step: Step, stands: bool)
    requires Inv(realExit, s) && FaultKnown(s, stands)
    ensures var s' := Next(realExit, s, step);
      FaultKnown(s', match step
                     case Fatal => LastIs(s, true) || stands
                     case Delivered => !LastIs(s, true) && stands
                     case _ => |s'.engines| == |s.engines| && stands)
  {
    match step
    case Handle(throws) =>
      if !(s.closed && realExit) && s.handler.Free? && s.chain != [] {
        FaultCommand(s.(chain := s.chain[1..]), s.chain[0], throws, stands);
      }
    case _ =>
  }

  lemma FaultCommand(s: Server, c: Cmd, throws: bool, stands: bool)
    requires OneEngine(s) && FaultKnown(s, stands) && s.handler.Free?
    ensures var s' := HandleCmd(s, c, throws); FaultKnown(s', |s'.engines| == |s.engines| && stands)
  {}

  lemma {:induction false} RunSnoc(realExit: bool, s: Server, steps: seq<Step>, step: Step)
    ensures Run(realExit, s, steps + [step]) == Next(realExit, Run(realExit, s, steps), step)
    decreases |steps|
  {
    if steps == [] {
      assert [] + [step] == [step] && [step][1..] == [];
    } else {
      assert (steps + [step])[0] == steps[0] && (steps + [step])[1..] == steps[1..] + [step];
      RunSnoc(realExit, Next(realExit, s, steps[0]), steps[1..], step);
    }
  }

  /** An engine that stops by itself is reported with its fault exactly when one stands at that moment. */
  lemma ReasonExactly(realExit: bool, creds: bool, steps: seq<Step>)
    ensures var s := Run(realExit, Init(creds), steps);
      var s' := Next(realExit, s, Callback);
      !(s.closed && realExit) && LastIs(s, false) && s.engines[Last(s)].ok && s.handler.Free? ==>
        s'.log == s.log + [EngineStopped(if FaultStands(realExit, creds, steps) then Some(Last(s)) else None), Status(Errored)]
  {
    EndsTold(realExit, creds, steps);
    FaultRun(realExit, creds, steps);
  }

  // ----- every command is answered once -----

  /** The command an event answers. */
  function AnswerOf(e: Event): seq<Cmd> {
    match e
    case Ack(c) => [c]
    case Refused => [Start]
    case Failed => [Start]
    case Info => [Inert]
    case _ => []
  }

  function Answers(log: seq<Event>): seq<Cmd> {
    if log == [] then [] else AnswerOf(log[0]) + Answers(log[1..])
  }

  /** The command whose handler waits. */
  function InHand(s: Server): seq<Cmd> {
    match s.handler
    case Free => []
    case AwaitPause(_) => [Pause]
    case AwaitStop(_) => [Stop]
  }

  /** What a step takes in. */
  function Taken(s: Server, step: Step): seq<Cmd> {
    match step
    case Line(c) => if s.closed then [] else [c]
    case Eof => if s.closed || s.intent == Stopping then [] else [Stop]
    case _ => []
  }

  /** The commands taken in: lines while it is open, and a stop when the input ends without one. */
  function Received(realExit: bool, creds: bool, steps: seq<Step>): seq<Cmd>
    decreases |steps|
  {
    if steps == [] then []
    else
      var before := steps[..|steps| - 1];
      Received(realExit, creds, before) + Taken(Run(realExit, Init(creds), before), steps[|steps| - 1])
  }

  /** Answered, in hand and waiting, in the order they came. */
  function Accounted(s: Server): seq<Cmd> { Answers(s.log) + (InHand(s) + s.chain) }

  lemma {:induction false} AnswersAppend(log: seq<Event>, said: seq<Event>)
    ensures Answers(log + said) == Answers(log) + Answers(said)
  {
    if log == [] {
      assert log + said == said;
    } else {
      assert (log + said)[1..] == log[1..] + said;
      AnswersAppend(log[1..], said);
      Regrouped(AnswerOf(log[0]), Answers(log[1..]), Answers(said));
    }
  }

  lemma Regrouped(a: seq<Cmd>, b: seq<Cmd>, c: seq<Cmd>)
    ensures a + (b + c) == (a + b) + c
  {}

  lemma AnswersOne(e: Event)
    ensures Answers([e]) == AnswerOf(e)
  {
    assert [e][1..] == [];
  }

  lemma AnswersTwo(e: Event, f: Event)
    ensures Answers([e, f]) == AnswerOf(e) + AnswerOf(f)
  {
    AnswersOne(f);
    assert [e, f][1..] == [f];
  }

  /** The step says `said`: what it says of the state is so, and credentials come with a configure only. */
  ghost predicate Speaks(s: Server, s': Server, said: seq<Event>) {
    && s'.log == s.log + said
    && (forall e | e in said && e.Status? :: e.state == s'.state)
    && (s'.creds <==> s.creds || Ack(Configure) in said)
  }

  lemma StartSpeaks(s: Server, throws: bool) returns (said: seq<Event>)
    ensures var s' := StartEngine(s, throws);
      Speaks(s, s', said) && s'.chain == s.chain && s'.handler == s.handler && Answers(said) == [Start]
  {
    StartAnswers();
    said := if s.state == Running then [Ack(Start)] else if !s.creds then [Refused]
            else if throws then [Failed] else [Ack(Start), Status(Running)];
  }

  lemma CommandSpeaks(s: Server, c: Cmd, throws: bool) returns (said: seq<Event>)
    requires s.handler.Free?
    ensures var s' := HandleCmd(s, c, throws); Speaks(s, s', said) && s'.chain == s.chain && Answers(said) + InHand(s') == [c]
  {
    SpokenAnswers(s);
    match c
    case Configure => said := [Ack(Configure)];
    case Start => said := StartSpeaks(s, throws);
    case Pause => said := if s.state == Running && s.controller.Some? && s.promise.Some? then [] else [Ack(Pause), Status(s.state)];
    case Stop => said := if s.promise.Some? then [] else [Ack(Stop), StoppedEvent];
    case Inert => said := [Info];
  }

  lemma CallbackSpeaks(s: Server, ok: bool) returns (said: seq<Event>)
    ensures var s' := EngineCallback(s, ok);
      Speaks(s, s', said) && s'.chain == s.chain && s'.handler == s.handler && Answers(said) == []
  {
    SpokenAnswers(s);
    said := if !ok then [EngineFailed, Status(Errored)]
            else if s.intent == Intent.Pausing || s.intent == Stopping then []
            else [EngineStopped(s.fault), Status(Errored)];
  }

  lemma WakeSpeaks(realExit: bool, s: Server) returns (said: seq<Event>)
    ensures var s' := Next(realExit, s, Wake);
      Speaks(s, s', said) && s'.chain == s.chain && Answers(said) + InHand(s') == InHand(s)
  {
    SpokenAnswers(s);
    var s' := Next(realExit, s, Wake);
    said := if s'.handler == s.handler then []
            else if s.handler.AwaitPause? then [Ack(Pause), Status(s.state)]
            else [Ack(Stop), StoppedEvent];
  }

  /** What the lists of events said together answer. */
  lemma SpokenAnswers(s: Server)
    ensures Answers([Ack(Configure)]) == [Configure] && Answers([Info]) == [Inert]
    ensures Answers([Ack(Pause), Status(s.state)]) == [Pause] && Answers([Ack(Stop), StoppedEvent]) == [Stop]
    ensures Answers([EngineFailed, Status(Errored)]) == Answers([EngineStopped(s.fault), Status(Errored)]) == []
  {
    AnswersOne(Ack(Configure));
    AnswersOne(Info);
    AnswersTwo(Ack(Pause), Status(s.state));
    AnswersTwo(Ack(Stop), StoppedEvent);
    AnswersTwo(EngineFailed, Status(Errored));
    AnswersTwo(EngineStopped(s.fault), Status(Errored));
  }

  lemma StartAnswers()
    ensures Answers([Ack(Start)]) == Answers([Refused]) == Answers([Failed]) == Answers([Ack(Start), Status(Running)]) == [Start]
  {
    AnswersOne(Ack(Start));
    AnswersOne(Refused);
    AnswersOne(Failed);
    AnswersTwo(Ack(Start), Status(Running));
  }

  /** A status that is said is the state there is, and the log only grows. */
  lemma StepSpeaks(realExit: bool, s: Server, step: Step) returns (said: seq<Event>)
    ensures Speaks(s, Next(realExit, s, step), said)
  {
    said := [];
    if !(s.closed && realExit) {
      match step
      case Handle(throws) =>
        if s.handler.Free? && s.chain != [] { said := CommandSpeaks(s.(chain := s.chain[1..]), s.chain[0], throws); }
      case Callback => if LastIs(s, false) { said := CallbackSpeaks(s, s.engines[Last(s)].ok); }
      case Wake => said := WakeSpeaks(realExit, s);
      case _ =>
    }
  }

  /** The log and what is said, with the command in hand and those waiting. */
  lemma AccountedSaid(s: Server, s': Server, said: seq<Event>, taken: seq<Cmd>)
    requires s'.log == s.log + said
    requires Answers(said) + (InHand(s') + s'.chain) == (InHand(s) + s.chain) + taken
    ensures Accounted(s') == Accounted(s) + taken
  {
    AnswersAppend(s.log, said);
    Regrouped(Answers(s.log), InHand(s) + s.chain, taken);
    Regrouped(Answers(s.log), Answers(said), InHand(s') + s'.chain);
  }

  lemma AccountedHandle(s: Server, throws: bool)
    requires s.handler.Free? && s.chain != []
    ensures Accounted(HandleCmd(s.(chain := s.chain[1..]), s.chain[0], throws)) == Accounted(s)
  {
    var t, c := s.(chain := s.chain[1..]), s.chain[0];
    var said := CommandSpeaks(t, c, throws);
    var s' := HandleCmd(t, c, throws);
    assert s.chain == [c] + s.chain[1..];
    Regrouped(Answers(said), InHand(s'), s'.chain);
    AccountedSaid(s, s', said, []);
    assert Accounted(s) + [] == Accounted(s);
  }

  lemma AccountedCallback(s: Server, ok: bool)
    ensures Accounted(EngineCallback(s, ok)) == Accounted(s)
  {
    var said := CallbackSpeaks(s, ok);
    AccountedSaid(s, EngineCallback(s, ok), said, []);
    assert Accounted(s) + [] == Accounted(s);
  }

  lemma AccountedWake(realExit: bool, s: Server)
    ensures Accounted(Next(realExit, s, Wake)) == Accounted(s)
  {
    var s' := Next(realExit, s, Wake);
    var said := WakeSpeaks(realExit, s);
    Regrouped(Answers(said), InHand(s'), s'.chain);
    AccountedSaid(s, s', said, []);
    assert Accounted(s) + [] == Accounted(s);
  }

  /** A step other than a command or the input's end moves nothing but what is answered. */
  lemma AccountedStep(realExit: bool, s: Server, step: Step)
    requires !step.Line? && !step.Eof?
    ensures Accounted(Next(realExit, s, step)) == Accounted(s)
  {
    if !(s.closed && realExit) {
      match step
      case Handle(throws) => if s.handler.Free? && s.chain != [] { AccountedHandle(s, throws); }
      case Callback => if LastIs(s, false) { AccountedCallback(s, s.engines[Last(s)].ok); }
      case Wake => AccountedWake(realExit, s);
      case _ =>
    }
  }

  /** A command is taken in behind the others. */
  lemma AccountedLine(s: Server, c: Cmd)
    ensures Accounted(s.(chain := s.chain + [c])) == Accounted(s) + [c]
  {}

  lemma AccountedNext(realExit: bool, s: Server, step: Step)
    ensures Accounted(Next(realExit, s, step)) == Accounted(s) + Taken(s, step)
  {
    assert Accounted(s) + [] == Accounted(s);
    match step
    case Line(c) => AccountedLine(s, c);
    case Eof => AccountedLine(s, Stop);
    case _ => AccountedStep(realExit, s, step);
  }

  /**
   In every run the commands taken in are, in order, those answered, then the one in hand, then those
   still waiting: none is lost, answered twice or answered out of turn.
   */
  lemma {:induction false} EachAnsweredOnce(realExit: bool, creds: bool, steps: seq<Step>)
    ensures Accounted(Run(realExit, Init(creds), steps)) == Received(realExit, creds, steps)
    decreases |steps|
  {
    if steps == [] {
      AnswersOne(Status(Idle));
    } else {
      var n := |steps| - 1;
      EachAnsweredOnce(realExit, creds, steps[..n]);
      assert steps == steps[..n] + [steps[n]];
      RunSnoc(realExit, Init(creds), steps[..n], steps[n]);
      AccountedNext(realExit, Run(realExit, Init(creds), steps[..n]), steps[n]);
    }
  }

  // ----- what an answer means -----

  /** Credentials are there exactly when they were at boot or a configure was answered. */
  lemma {:induction false} CredsKept(realExit: bool, creds: bool, steps: seq<Step>)
    ensures var s := Run(realExit, Init(creds), steps); s.creds <==> creds || Ack(Configure) in s.log
    decreases |steps|
  {
    if steps != [] {
      var n := |steps| - 1;
      CredsKept(realExit, creds, steps[..n]);
      assert steps == steps[..n] + [steps[n]];
      RunSnoc(realExit, Init(creds), steps[..n], steps[n]);
      var said := StepSpeaks(realExit, Run(realExit, Init(creds), steps[..n]), steps[n]);
    }
  }

  /** How each command ends, told by credentials and by whether an engine is still running. */
  ghost predicate CommandTold(s: Server, s': Server, c: Cmd, throws: bool) {
    var same := s'.state == s.state && s'.engines == s.engines && s'.closed == s.closed;
    match c
    case Configure => same && s'.creds && s'.log == s.log + [Ack(Configure)]
    case Inert => same && s'.creds == s.creds && s'.log == s.log + [Info]
    case Start =>
      if !AllOver(s) || s.jammed then same && s'.log == s.log + [Ack(Start)]
      else if !s.creds then same && s'.log == s.log + [Refused]
      else if throws then s'.engines == s.engines && s'.state == Running && s'.jammed && s'.log == s.log + [Failed]
      else s'.engines == s.engines + [Alive] && s'.state == Running && s'.log == s.log + [Ack(Start), Status(Running)]
    case Pause =>
      if AllOver(s) then same && s'.handler.Free? && s'.log == s.log + [Ack(Pause), Status(s.state)]
      else same && s'.handler == AwaitPause(Last(s)) && s'.log == s.log
    case Stop =>
      if AllOver(s) then s'.state == Idle && s'.closed && s'.engines == s.engines && s'.log == s.log + [Ack(Stop), StoppedEvent]
      else same && s'.handler == AwaitStop(Last(s)) && s'.log == s.log
  }

  lemma CommandsTold(realExit: bool, creds: bool, steps: seq<Step>, throws: bool)
    ensures var s := Run(realExit, Init(creds), steps);
      !(s.closed && realExit) && s.handler.Free? && s.chain != [] ==>
        CommandTold(s, Next(realExit, s, Handle(throws)), s.chain[0], throws)
  {
    RunKeeps(realExit, Init(creds), steps);
    var s := Run(realExit, Init(creds), steps);
    if !(s.closed && realExit) && s.handler.Free? && s.chain != [] {
      CommandStep(realExit, s.(chain := s.chain[1..]), s.chain[0], throws);
    }
  }

  lemma CommandStep(realExit: bool, s: Server, c: Cmd, throws: bool)
    requires Inv(realExit, s) && s.handler.Free?
    ensures CommandTold(s, HandleCmd(s, c, throws), c, throws)
  {}

  /** What the end of a waited stop leaves. */
  lemma StopTold(realExit: bool, s: Server)
    ensures var s' := Next(realExit, s, Wake);
      s.handler.AwaitStop? && s'.handler.Free? ==>
        s'.state == Idle && s'.closed && s'.engines == s.engines && s'.log == s.log + [Ack(Stop), StoppedEvent]
  {}
}
