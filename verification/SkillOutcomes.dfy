/**
  What comes of a tick and of a message: what must have gone before a stop, what nothing follows, and
  where each callback leads.
*/
module SkillOutcomes {
  import opened Wrappers
  import opened SkillGating

  // ----- over every run -----

  /** A tick that failed, or ended in a way that is not foreseen, without an error in the tree state; or a
      message that tells of an error or a failure or is none of those foreseen. */
  predicate Final(e: Event) {
    match e
    case Ticked(_, _, _, status, error) => !error && (status == Failed || status == OtherStatus)
    case Received(message) => message !in {"RESUME", "PAUSE", "SUCCESS", "IDLE", "FINISH"}
    case _ => false
  }

  predicate HasFinal(trace: seq<Event>) {
    exists e :: e in trace && Final(e)
  }

  /** Nothing but messages follows what is final. */
  predicate FinalIsLast(trace: seq<Event>) {
    forall i, k :: 0 <= i < k < |trace| && Final(trace[i]) ==> trace[k].Received?
  }

  /** Apart from stops, the last event is a tick that succeeded, without an error in the tree state, or the
      message to finish. */
  predicate Caused(trace: seq<Event>) {
    trace != [] &&
    match Last(trace)
    case StopSent(_) => Caused(Init(trace))
    case Ticked(_, _, _, status, error) => status == Succeeded && !error
    case Received(message) => message == "FINISH"
    case _ => false
  }

  predicate StopsCaused(trace: seq<Event>) {
    forall k :: 0 <= k < |trace| && trace[k].StopSent? ==> Caused(trace[..k])
  }

  ghost predicate Ending(m: Machine) {
    && FinalIsLast(m.trace) && StopsCaused(m.trace)
    && (HasFinal(m.trace) ==> Stuck(m.phase))
    && (m.phase == Finish ==> Caused(m.trace))
  }

  lemma OneMore(trace: seq<Event>, e: Event)
    requires FinalIsLast(trace) && StopsCaused(trace)
    requires HasFinal(trace) ==> e.Received?
    requires e.StopSent? ==> Caused(trace)
    ensures FinalIsLast(trace + [e]) && StopsCaused(trace + [e])
    ensures HasFinal(trace + [e]) <==> HasFinal(trace) || Final(e)
    ensures Caused(trace + [e]) <==>
              match e
              case StopSent(_) => Caused(trace)
              case Ticked(_, _, _, status, error) => status == Succeeded && !error
              case Received(message) => message == "FINISH"
              case _ => false
  {
    var t := trace + [e];
    assert Last(t) == e && Init(t) == trace;
    if HasFinal(trace) {
      var x :| x in trace && Final(x);
      assert x in t;
    }
    assert e in t;
    hide Final, Caused;
    forall k | 0 <= k < |t| && t[k].StopSent?
      ensures Caused(t[..k])
    {
      assert t[..k] == if k < |trace| then trace[..k] else trace;
    }
  }

  lemma EndingTurned(m: Machine, change: Option<bool>)
    requires Ending(m)
    ensures Ending(Turned(m, change))
  {
  }

  /** Where a message leads. */
  lemma Told(m: Machine, message: string)
    requires !Stuck(m.phase)
    ensures message == "RESUME" ==> SwitchPhase(m.phase, message) == Resume
    ensures message == "PAUSE" ==> SwitchPhase(m.phase, message) == Pause
    ensures message == "SUCCESS" ==> SwitchPhase(m.phase, message) == SuccessPhase
    ensures message == "IDLE" ==> SwitchPhase(m.phase, message) == Idle
    ensures message == "FINISH" ==> SwitchPhase(m.phase, message) == Finish
    ensures message in {"RESUME", "PAUSE", "SUCCESS", "IDLE", "FINISH"} ==> Switches(m.phase, message)
    ensures message !in {"RESUME", "PAUSE", "SUCCESS", "IDLE", "FINISH"} ==>
              Stuck(SwitchPhase(m.phase, if Switches(m.phase, message) then message else "ERROR"))
  {
  }

  lemma EndingInformed(m: Machine, input: Input)
    requires Ending(m)
    ensures Ending(Informed(m, input))
  {
    hide PhaseOf, Caused, HasFinal, FinalIsLast, StopsCaused;
    if input.message.Some? {
      var message := input.message.value;
      OneMore(m.trace, Received(message));
      if !Stuck(m.phase) {
        Told(m, message);
      }
    }
  }

  lemma EndingAtFirst(m: Machine, input: Input)
    requires Ending(m)
    ensures Ending(Updated(m, input)) && Ending(Loaded(m, input))
  {
    hide Caused, HasFinal, FinalIsLast, StopsCaused, Updated, Loaded;
    QuietAtFirst(m, input);
  }

  lemma EndingPrepared(m: Machine, input: Input)
    requires Ending(m)
    ensures Ending(Prepared(m, input))
  {
    hide Ending, Informed, Loaded, Updated, Turned;
    var o := input.outside;
    var m1 := Turned(Updated(m, input), o.objects);
    var m2 := Turned(Loaded(m1, input), o.archive);
    EndingAtFirst(m, input);
    EndingTurned(Updated(m, input), o.objects);
    EndingAtFirst(m1, input);
    EndingTurned(Loaded(m1, input), o.archive);
    EndingInformed(m2, input);
    EndingTurned(Informed(m2, input), o.message);
  }

  lemma EndingStarted(m: Machine, input: Input)
    requires Ending(m) && !Stuck(m.phase)
    ensures Ending(Started(m, input))
  {
    hide Caused, HasFinal, FinalIsLast, StopsCaused, ToPhase;
    Errors();
    Names(m);
    OneMore(m.trace, StartSent(Turned(m, input.outside.request).power, m.tree.action, m.tree.lastAction));
  }

  lemma EndingExecuted(m: Machine, input: Input)
    requires Ending(m) && (m.phase == Resume || m.phase == SuccessPhase)
    ensures Ending(Executed(m, input))
  {
    hide Caused, HasFinal, FinalIsLast, StopsCaused, ToPhase, Started;
    Errors();
    var tick := Tick(m, input);
    OneMore(m.trace, tick);
    var m1 := Turned(Log(m.(tree := input.ticked), tick), input.outside.tick);
    Names(m1);
    var judged := Judged(m1, input.status);
    if judged.1 && ActionSwitch(judged.0.tree) {
      OneMore(m1.trace, Switched(m1.tree.action));
      EndingStarted(Checked(judged.0), input);
    }
  }

  lemma EndingFinished(m: Machine, input: Input)
    requires Ending(m) && m.phase == Finish
    ensures Ending(Finished(m, input))
  {
    hide Caused, HasFinal, FinalIsLast, StopsCaused, ToPhase;
    Errors();
    OneMore(m.trace, StopSent(Turned(m, input.outside.request).power));
  }

  lemma EndingCycled(m: Machine, input: Input)
    requires Ending(m)
    ensures Ending(Cycled(m, input))
  {
    hide Caused, HasFinal, FinalIsLast, StopsCaused, Executed, Finished;
    match m.phase
    case Pause => OneMore(m.trace, Paused);
    case Resume => EndingExecuted(m, input);
    case SuccessPhase => EndingExecuted(m.(isActionSuccess := true), input);
    case Finish =>
      EndingFinished(m.(tree := m.tree.(action := Action("finish", FINISH, m.tree.action.archive))), input);
    case ErrorPhase =>
    case FailurePhase =>
    case Idle =>
  }

  lemma EndingCallback(m: Machine, input: Input)
    requires Ending(m)
    ensures Ending(Callback(m, input))
  {
    hide Caused, HasFinal, FinalIsLast, StopsCaused, Prepared, Cycled;
    if m.power {
      EndingPrepared(m, input);
      var m1 := Prepared(m, input);
      EndingCycled(m1.(tree := m1.tree.(treePhase := m1.phase)), input);
    }
  }

  lemma {:induction false} EndingRun(m: Machine, steps: seq<Step>)
    requires Ending(m)
    ensures Ending(Run(m, steps))
  {
    if steps != [] {
      var init := steps[..|steps| - 1];
      EndingRun(m, init);
      match steps[|steps| - 1]
      case SetPower(on) =>
      case Timer(input) => EndingCallback(Run(m, init), input);
    }
  }

  lemma EndingAtFresh(power: bool, tree: TreeState)
    ensures Ending(Fresh(power, tree))
  {
  }

  /** Over every run a stop is sent only after a tick that succeeded or the message to finish, with nothing
      but other stops in between. */
  lemma StopsAreCaused(power: bool, tree: TreeState, steps: seq<Step>, k: nat)
    requires var trace := Run(Fresh(power, tree), steps).trace; k < |trace| && trace[k].StopSent?
    ensures var trace := Run(Fresh(power, tree), steps).trace;
            exists i :: 0 <= i < k && (forall l :: i < l < k ==> trace[l].StopSent?) &&
              match trace[i]
              case Ticked(_, _, _, status, error) => status == Succeeded && !error
              case Received(message) => message == "FINISH"
              case _ => false
  {
    hide Run;
    EndingAtFresh(power, tree);
    EndingRun(Fresh(power, tree), steps);
    var trace := Run(Fresh(power, tree), steps).trace;
    var i := TheCause(trace[..k]);
    assert trace[..k][i] == trace[i];
    assert forall l :: i < l < k ==> trace[..k][l] == trace[l];
  }

  lemma {:induction false} TheCause(trace: seq<Event>) returns (i: nat)
    requires Caused(trace)
    ensures i < |trace| && forall l :: i < l < |trace| ==> trace[l].StopSent?
    ensures match trace[i]
            case Ticked(_, _, _, status, error) => status == Succeeded && !error
            case Received(message) => message == "FINISH"
            case _ => false
  {
    if Last(trace).StopSent? {
      i := TheCause(Init(trace));
    } else {
      i := |trace| - 1;
    }
  }

  /** Over every run nothing but messages follows a tick that failed or ended in an unforeseen way, unless
      the tree state shows an error after it, or a message that tells of no phase to go on in. */
  lemma NothingFollowsFailure(power: bool, tree: TreeState, steps: seq<Step>, i: nat, k: nat)
    requires var trace := Run(Fresh(power, tree), steps).trace; i < k < |trace| && Final(trace[i])
    ensures Run(Fresh(power, tree), steps).trace[k].Received?
  {
    hide Run, Final;
    EndingAtFresh(power, tree);
    EndingRun(Fresh(power, tree), steps);
  }

  // ----- callback by callback -----

  predicate Ready(m: Machine) {
    m.power && m.hasUpdatedObjects && m.hasLoadedArchive && !Stuck(m.phase)
  }

  /** Where the objects or the archive are refused, or the objects are not grounded, in the first callback,
      nothing is ever ticked, stopped or started. */
  lemma RefusedAtFirst(tree: TreeState, input: Input, steps: seq<Step>)
    requires input.objects != Accepted || input.archive != Accepted || !input.grounded
    ensures Stuck(Run(Callback(Fresh(true, tree), input), steps).phase)
    ensures forall e :: e in Run(Callback(Fresh(true, tree), input), steps).trace ==> e.Received?
  {
    hide Run;
    var m := Fresh(true, tree);
    FirstIsStuck(m, input);
    StuckForever(Callback(m, input), steps);
    var heard, trace := Callback(m, input).trace, Run(Callback(m, input), steps).trace;
    forall e | e in trace
      ensures e.Received?
    {
      var i :| 0 <= i < |trace| && trace[i] == e;
      assert i < |heard| ==> heard[i] == trace[i];
    }
  }

  lemma ToError(m: Machine)
    ensures Stuck(ToPhase(m, "ERROR").phase)
  {
  }

  lemma TurnedOnly(m: Machine, change: Option<bool>)
    ensures Turned(m, change) == m.(power := Turned(m, change).power)
  {
  }

  lemma RefusedIsStuck(m: Machine, input: Input)
    ensures !m.hasUpdatedObjects && input.objects != Accepted ==> Stuck(Updated(m, input).phase)
    ensures !m.hasLoadedArchive && (input.archive != Accepted || !input.grounded) ==> Stuck(Loaded(m, input).phase)
    ensures Updated(m, input).hasLoadedArchive == m.hasLoadedArchive
    ensures Updated(m, input).trace == Loaded(m, input).trace == m.trace
  {
    hide ToPhase;
    ToError(m);
    ToError(Asked(m, input.objects));
    ToError(Asked(m, input.archive));
    ToError(Asked(ToPhase(m, "ERROR"), input.archive));
  }

  lemma FirstIsStuck(m: Machine, input: Input)
    requires m.power && !m.hasUpdatedObjects && !m.hasLoadedArchive && m.trace == []
    requires input.objects != Accepted || input.archive != Accepted || !input.grounded
    ensures Stuck(Callback(m, input).phase) && forall e :: e in Callback(m, input).trace ==> e.Received?
  {
    hide Updated, Loaded, Informed, Turned, Executed, Finished;
    var o := input.outside;
    var m1 := Turned(Updated(m, input), o.objects);
    var m2 := Turned(Loaded(m1, input), o.archive);
    RefusedIsStuck(m, input);
    TurnedOnly(Updated(m, input), o.objects);
    RefusedIsStuck(m1, input);
    if Stuck(m1.phase) {
      StuckAtFirst(m1, input);
    }
    TurnedOnly(Loaded(m1, input), o.archive);
    StuckInformed(m2, input);
    TurnedOnly(Informed(m2, input), o.message);
  }

  lemma AskedInVain(m: Machine, input: Input)
    requires input.objects == Accepted && input.archive == Accepted && input.grounded
    ensures Updated(m, input) == m.(hasUpdatedObjects := true)
    ensures Loaded(m, input) == m.(hasLoadedArchive := true)
  {
  }

  /** Where all is accepted, the first callback is like every later one. */
  lemma AcceptedAtFirst(m: Machine, input: Input)
    requires m.power && input.objects == Accepted && input.archive == Accepted && input.grounded
    ensures Callback(m, input) == Callback(m.(hasUpdatedObjects := true, hasLoadedArchive := true), input)
  {
    hide Updated, Loaded, Informed, Cycled;
    var m' := m.(hasUpdatedObjects := true, hasLoadedArchive := true);
    AskedInVain(m, input);
    AskedInVain(m', input);
    AskedInVain(Turned(Updated(m, input), input.outside.objects), input);
    AskedInVain(Turned(Updated(m', input), input.outside.objects), input);
    assert Prepared(m, input) == Prepared(m', input);
  }

  function Heard(m: Machine, input: Input): seq<Event> {
    m.trace + if input.message == None then [] else [Received(input.message.value)]
  }

  /** The phase once the message has been heard. */
  lemma PreparedPhase(m: Machine, input: Input)
    requires Ready(m)
    ensures var p := Prepared(m, input);
            && p.trace == Heard(m, input) && p.isActionSuccess == m.isActionSuccess && p.tree == m.tree
            && p.hasUpdatedObjects && p.hasLoadedArchive
            && (input.message == None ==> p.phase == m.phase)
            && (input.message == Some("RESUME") ==> p.phase == Resume)
            && (input.message == Some("PAUSE") ==> p.phase == Pause)
            && (input.message == Some("SUCCESS") ==> p.phase == SuccessPhase)
            && (input.message == Some("IDLE") ==> p.phase == Idle)
            && (input.message == Some("FINISH") ==> p.phase == Finish)
            && (input.message.Some? && input.message.value !in {"RESUME", "PAUSE", "SUCCESS", "IDLE", "FINISH"} ==>
                  Stuck(p.phase))
  {
    hide Informed, Turned;
    var o := input.outside;
    var m1 := Turned(m, o.objects);
    var m2 := Turned(m1, o.archive);
    TurnedOnly(m, o.objects);
    TurnedOnly(m1, o.archive);
    InformedPhase(m2, input);
    TurnedOnly(Informed(m2, input), o.message);
  }

  lemma InformedPhase(m: Machine, input: Input)
    requires !Stuck(m.phase)
    ensures var p := Informed(m, input);
            && p == m.(trace := Heard(m, input), phase := p.phase)
            && (input.message == None ==> p.phase == m.phase)
            && (input.message == Some("RESUME") ==> p.phase == Resume)
            && (input.message == Some("PAUSE") ==> p.phase == Pause)
            && (input.message == Some("SUCCESS") ==> p.phase == SuccessPhase)
            && (input.message == Some("IDLE") ==> p.phase == Idle)
            && (input.message == Some("FINISH") ==> p.phase == Finish)
            && (input.message.Some? && input.message.value !in {"RESUME", "PAUSE", "SUCCESS", "IDLE", "FINISH"} ==>
                  Stuck(p.phase))
  {
    hide PhaseOf, Switches, SwitchPhase;
    if input.message.Some? {
      Told(m, input.message.value);
    }
  }

  /** The phase in which this callback ticks, if it does. */
  function TickPhase(m: Machine, input: Input): Option<Phase> {
    if input.message == Some("RESUME") then Some(Resume)
    else if input.message == Some("SUCCESS") then Some(SuccessPhase)
    else if input.message == None && (m.phase == Resume || m.phase == SuccessPhase) then Some(m.phase)
    else None
  }

  /** The tree state asks for another skill. */
  predicate TurnsOn(tree: TreeState) {
    tree.isSucceeded || tree.action.phase != tree.lastAction.phase
  }

  /** From event `n` on: the switch to the action of the tick, and the start of its skill if its parameters
      are there; the node then pauses, unless something was refused. */
  predicate StartsSkill(m: Machine, input: Input, n: nat) {
    && m.tree.action == m.tree.lastAction == input.ticked.action && !m.tree.isSucceeded
    && n < |m.trace| && m.trace[n] == Switched(input.ticked.action)
    && (input.parameters != Accepted || input.command == NotReady ==> |m.trace| == n + 1)
    && (input.parameters == Accepted && input.command != NotReady ==>
          && |m.trace| == n + 2 && m.trace[n + 1].StartSent?
          && m.trace[n + 1].action == m.trace[n + 1].lastAction == input.ticked.action)
    && m.phase == if input.parameters == Accepted && input.command == Accepted then Pause else ErrorPhase
  }

  /** After `before`: the tick in `phase`, and what comes of it. */
  predicate TickShows(before: seq<Event>, success: bool, phase: Phase, input: Input, m: Machine) {
    var n := |before|;
    var error := input.ticked.treePhase == ErrorPhase;
    && n < |m.trace| && m.trace[..n] == before
    && m.trace[n].Ticked? && m.trace[n].phase == phase && m.trace[n].success == success
    && m.trace[n].status == input.status && m.trace[n].error == error
    && (error ==> |m.trace| == n + 1 && !m.power && m.phase == phase)
    && (!error && input.status == Succeeded ==> |m.trace| == n + 1 && m.phase == Finish)
    && (!error && input.status == Failed ==> |m.trace| == n + 1 && m.phase == FailurePhase)
    && (!error && input.status == OtherStatus ==> |m.trace| == n + 1 && m.phase == ErrorPhase)
    && (!error && input.status == Running && !TurnsOn(input.ticked) ==>
          |m.trace| == n + 1 && m.phase == phase && m.tree == input.ticked)
    && (!error && input.status == Running && TurnsOn(input.ticked) ==> StartsSkill(m, input, n + 1))
  }

  lemma Pauses(m: Machine)
    requires !Stuck(m.phase)
    ensures ToPhase(m, "PAUSE") == m.(phase := Pause) && ToPhase(m, "ERROR") == m.(phase := ErrorPhase)
  {
  }

  lemma StartOutcome(m: Machine, input: Input)
    requires !Stuck(m.phase) && m.trace != [] && Last(m.trace) == Switched(input.ticked.action)
    requires m.tree.action == m.tree.lastAction == input.ticked.action && !m.tree.isSucceeded
    ensures StartsSkill(Started(m, input), input, |m.trace| - 1)
    ensures m.trace <= Started(m, input).trace
  {
    hide ToPhase, Turned;
    Pauses(m);
    var m2 := m.(phase := Pause, tree := m.tree.(treePhase := Pause));
    var on := Turned(m2, input.outside.request);
    TurnedOnly(m2, input.outside.request);
    Pauses(on);
    Pauses(Log(on, StartSent(on.power, on.tree.action, on.tree.lastAction)));
  }

  lemma RunningOutcome(m: Machine, input: Input)
    requires m.phase == Resume || m.phase == SuccessPhase
    requires input.ticked.treePhase != ErrorPhase && input.status == Running
    ensures TickShows(m.trace, m.isActionSuccess, m.phase, input, Executed(m, input))
  {
    hide ToPhase, Started, StartsSkill, Turned;
    var m0 := Log(m.(tree := input.ticked), Tick(m, input));
    var m1 := Turned(m0, input.outside.tick);
    TurnedOnly(m0, input.outside.tick);
    if TurnsOn(input.ticked) {
      var m2 := Checked(m1);
      assert m2.trace == m0.trace + [Switched(input.ticked.action)];
      StartOutcome(m2, input);
    }
  }

  lemma Ends(m: Machine)
    requires !Stuck(m.phase)
    ensures ToPhase(m, "FINISH") == m.(phase := Finish) && ToPhase(m, "FAILURE") == m.(phase := FailurePhase)
    ensures ToPhase(m, "ERROR") == m.(phase := ErrorPhase)
  {
  }

  lemma ExecutedOutcome(m: Machine, input: Input)
    requires m.phase == Resume || m.phase == SuccessPhase
    ensures TickShows(m.trace, m.isActionSuccess, m.phase, input, Executed(m, input))
  {
    if input.ticked.treePhase != ErrorPhase && input.status == Running {
      hide *;
      RunningOutcome(m, input);
    } else {
      hide ToPhase, Started, StartsSkill, Turned;
      var m0 := Log(m.(tree := input.ticked), Tick(m, input));
      TurnedOnly(m0, input.outside.tick);
      Ends(Turned(m0, input.outside.tick));
    }
  }

  /** A callback that ticks: what it adds to the trace and where it leads, by the result of the tick. */
  lemma TickOutcome(m: Machine, input: Input)
    requires Ready(m) && TickPhase(m, input).Some?
    ensures var phase := TickPhase(m, input).value;
            TickShows(Heard(m, input), m.isActionSuccess || phase == SuccessPhase, phase, input, Callback(m, input))
  {
    hide Prepared, Executed, TickShows;
    PreparedPhase(m, input);
    var p := Prepared(m, input);
    var q := p.(tree := p.tree.(treePhase := p.phase));
    var r := if q.phase == SuccessPhase then q.(isActionSuccess := true) else q;
    assert Callback(m, input) == Executed(r, input);
    ExecutedOutcome(r, input);
  }

  lemma ErrorLeads(phase: Phase)
    ensures !Stuck(phase) ==> SwitchPhase(phase, "ERROR") == ErrorPhase
  {
  }

  /** A callback that does not tick. */
  lemma OtherOutcome(m: Machine, input: Input)
    requires Ready(m) && TickPhase(m, input) == None
    ensures var m' := Callback(m, input);
            var heard := Heard(m, input);
            && (input.message == Some("PAUSE") || (input.message == None && m.phase == Pause) ==>
                  m'.trace == heard + [Paused] && m'.phase == Pause && !m'.isActionSuccess)
            && (input.message == Some("IDLE") || (input.message == None && m.phase == Idle) ==>
                  m'.trace == heard && m'.phase == Idle)
            && (input.message == Some("FINISH") || (input.message == None && m.phase == Finish) ==>
                  && (input.command == NotReady ==> m'.trace == heard)
                  && (input.command != NotReady ==>
                        |m'.trace| == |heard| + 1 && m'.trace[..|heard|] == heard && m'.trace[|heard|].StopSent?)
                  && (input.command == Accepted ==> !m'.power && m'.phase == Finish)
                  && (input.command != Accepted ==> m'.phase == ErrorPhase))
            && (input.message.Some? && input.message.value !in {"RESUME", "PAUSE", "SUCCESS", "IDLE", "FINISH"} ==>
                  m'.trace == heard && Stuck(m'.phase) && !m'.power)
  {
    hide Prepared, SwitchPhase, Executed;
    PreparedPhase(m, input);
    ErrorLeads(Prepared(m, input).phase);
  }

  // ----- after a tick that succeeded -----

  /** No callback has the power on. */
  predicate NoCallback(m: Machine, steps: seq<Step>) {
    steps != [] ==>
      && NoCallback(m, steps[..|steps| - 1])
      && (steps[|steps| - 1].Timer? ==> !Run(m, steps[..|steps| - 1]).power)
  }

  lemma {:induction false} NothingHappens(m: Machine, steps: seq<Step>)
    requires NoCallback(m, steps)
    ensures Run(m, steps) == m.(power := Run(m, steps).power)
  {
    if steps != [] {
      NothingHappens(m, steps[..|steps| - 1]);
    }
  }

  /** The tick has succeeded: in the next callback that has the power on and no message, the stop is sent
      if the service is ready, and the power is off if it is accepted; else the node is in error. */
  lemma SuccessThenStop(m: Machine, input: Input, steps: seq<Step>, next: Input)
    requires Ready(m) && TickPhase(m, input).Some? && input.status == Succeeded
    requires input.ticked.treePhase != ErrorPhase
    requires NoCallback(Callback(m, input), steps) && Run(Callback(m, input), steps).power && next.message == None
    ensures var m1 := Callback(m, input);
            var m2 := Callback(Run(m1, steps), next);
            && (next.command == NotReady ==> m2.trace == m1.trace)
            && (next.command != NotReady ==>
                  |m2.trace| == |m1.trace| + 1 && m2.trace[..|m1.trace|] == m1.trace && Last(m2.trace).StopSent?)
            && (next.command == Accepted ==> !m2.power)
            && (next.command != Accepted ==> m2.phase == ErrorPhase)
  {
    hide Callback, Run;
    TickOutcome(m, input);
    CallbackKeepsFlags(m, input);
    var m1 := Callback(m, input);
    NothingHappens(m1, steps);
    OtherOutcome(Run(m1, steps), next);
  }

  lemma CallbackKeepsFlags(m: Machine, input: Input)
    requires Ready(m) && TickPhase(m, input).Some?
    ensures Callback(m, input).hasUpdatedObjects && Callback(m, input).hasLoadedArchive
  {
    hide Prepared, Executed;
    PreparedPhase(m, input);
    var p := Prepared(m, input);
    var q := p.(tree := p.tree.(treePhase := p.phase));
    ExecutedKeepsFlags(if q.phase == SuccessPhase then q.(isActionSuccess := true) else q, input);
  }

  lemma ExecutedKeepsFlags(m: Machine, input: Input)
    requires m.hasUpdatedObjects && m.hasLoadedArchive
    ensures Executed(m, input).hasUpdatedObjects && Executed(m, input).hasLoadedArchive
  {
    hide SwitchPhase;
  }

  /** A failed tick after which the tree state shows an error turns the power off and is no end: turned on
      again, the node ticks again. */
  lemma FailedTickAgain()
    ensures var a := Action("a", 10, 1);
            var input := Input(Accepted, true, Accepted, None, Failed, TreeState(ErrorPhase, a, a, false), Accepted,
                               Accepted, QUIET);
            Run(Fresh(true, TreeState(Resume, a, a, false)), [Timer(input), SetPower(true), Timer(input)]).trace ==
            [Ticked(false, true, Resume, Failed, true), Ticked(false, true, Resume, Failed, true)]
  {
    hide Callback;
    var a := Action("a", 10, 1);
    var input := Input(Accepted, true, Accepted, None, Failed, TreeState(ErrorPhase, a, a, false), Accepted,
                       Accepted, QUIET);
    var m0 := Fresh(true, TreeState(Resume, a, a, false));
    FailedTick(m0, a, input);
    var m1 := Callback(m0, input);
    var m2 := m1.(power := true);
    FailedTick(m2, a, input);
    var steps := [Timer(input), SetPower(true), Timer(input)];
    assert steps[..2] == [Timer(input), SetPower(true)] && steps[..2][..1] == [Timer(input)];
    assert [Timer(input)][..0] == [];
    assert Run(m0, []) == m0;
    assert Run(m0, [Timer(input)]) == m1;
    assert Run(m0, steps[..2]) == m2;
  }

  lemma FailedTick(m: Machine, a: Action, input: Input)
    requires m.power && m.phase == Resume && !m.isActionSuccess
    requires input == Input(Accepted, true, Accepted, None, Failed, TreeState(ErrorPhase, a, a, false), Accepted,
                            Accepted, QUIET)
    ensures var m' := Callback(m, input);
            m'.trace == m.trace + [Ticked(false, true, Resume, Failed, true)] && !m'.power && m'.phase == Resume
            && !m'.isActionSuccess
  {
  }
}
