/**
  The life cycle of the robot's tree node: when the tree is ticked and when skills are stopped and
  started.  Service replies, received messages and results of a tick are inputs, and so are the changes
  of the power from outside, between two callbacks and in the middle of one.
*/
module SkillGating {
  import opened Wrappers

  datatype Phase = ErrorPhase | Idle | Resume | Pause | SuccessPhase | FailurePhase | Finish

  /** `ActionPhase::FINISH`. */
  const FINISH: int := 999

  /** An action node as the tree state describes it. */
  datatype Action = Action(name: string, phase: int, archive: int)

  datatype TreeState = TreeState(treePhase: Phase, action: Action, lastAction: Action, isSucceeded: bool)

  datatype TickStatus = Running | Succeeded | Failed | OtherStatus

  /** A service that is not ready is not called; a late reply counts as refused. */
  datatype Reply = NotReady | Accepted | Refused

  /** What the power was last set to from outside, if it was: by the end of the request for objects, of
      that for the archive, before the tree cycle, by the end of the tick, and until a request has left. */
  datatype Outside = Outside(objects: Option<bool>, archive: Option<bool>, message: Option<bool>, tick: Option<bool>,
                             request: Option<bool>)

  const QUIET: Outside := Outside(None, None, None, None, None)

  /** What one callback meets.  A tick may leave the tree state in any shape. */
  datatype Input = Input(objects: Reply, grounded: bool, archive: Reply, message: Option<string>, status: TickStatus,
                         ticked: TreeState, parameters: Reply, command: Reply, outside: Outside)

  /** What happens in the order it happens, with the power at the time.  A tick comes with its result and
      with whether the tree state shows an error after it. */
  datatype Event =
    | Received(message: string)
    | Ticked(success: bool, power: bool, phase: Phase, status: TickStatus, error: bool)
    | Switched(action: Action)
    | StopSent(power: bool)
    | StartSent(power: bool, action: Action, lastAction: Action)
    | Paused

  datatype Machine = Machine(power: bool, phase: Phase, isActionSuccess: bool, hasUpdatedObjects: bool,
                             hasLoadedArchive: bool, tree: TreeState, trace: seq<Event>)

  // ----- the steps as functions -----

  function PhaseOf(message: string): Option<Phase> {
    if message == "RESUME" then Some(Resume)
    else if message == "PAUSE" then Some(Pause)
    else if message == "FAILURE" then Some(FailurePhase)
    else if message == "SUCCESS" then Some(SuccessPhase)
    else if message == "IDLE" then Some(Idle)
    else if message == "FINISH" then Some(Finish)
    else if message == "ERROR" then Some(ErrorPhase)
    else None
  }

  predicate Stuck(phase: Phase) {
    phase == ErrorPhase || phase == FailurePhase
  }

  /** Whether `switch_tree_phase` switches: not out of an error or a failure. */
  predicate Switches(phase: Phase, message: string) {
    !Stuck(phase) && PhaseOf(message).Some?
  }

  function SwitchPhase(phase: Phase, message: string): Phase {
    if Switches(phase, message) then PhaseOf(message).value else phase
  }

  function ToPhase(m: Machine, message: string): (r: Machine)
    ensures r == m.(phase := r.phase) && (Stuck(m.phase) ==> r.phase == m.phase)
  {
    m.(phase := SwitchPhase(m.phase, message))
  }

  function Log(m: Machine, e: Event): Machine {
    m.(trace := m.trace + [e])
  }

  /** The power after a change from outside. */
  function Turned(m: Machine, change: Option<bool>): Machine {
    if change.Some? then m.(power := change.value) else m
  }

  /** A service asked for at the start of a callback; one that is not ready turns the power off. */
  function Asked(m: Machine, reply: Reply): Machine {
    if reply == NotReady then m.(power := false) else m
  }

  function Updated(m: Machine, input: Input): Machine {
    if m.hasUpdatedObjects then m
    else if input.objects == Accepted then m.(hasUpdatedObjects := true)
    else ToPhase(Asked(m, input.objects), "ERROR")
  }

  function Loaded(m: Machine, input: Input): Machine {
    if m.hasLoadedArchive then m
    else
      var m1 := if input.grounded then m else ToPhase(m, "ERROR");
      if input.archive == Accepted then m1.(hasLoadedArchive := true)
      else ToPhase(Asked(m1, input.archive), "ERROR")
  }

  function Informed(m: Machine, input: Input): Machine {
    if input.message == None then m
    else
      var m1 := Log(m, Received(input.message.value));
      if Switches(m.phase, input.message.value) then ToPhase(m1, input.message.value) else ToPhase(m1, "ERROR")
  }

  /** `is_tree_running`: the machine, and whether the tree goes on. */
  function Judged(m: Machine, status: TickStatus): (Machine, bool) {
    if m.tree.treePhase == ErrorPhase then (m.(power := false), false)
    else
      match status
      case Running => (m, true)
      case Succeeded => (ToPhase(m, "FINISH"), false)
      case Failed => (ToPhase(m, "FAILURE"), false)
      case OtherStatus => (ToPhase(m, "ERROR"), false)
  }

  predicate ActionSwitch(tree: TreeState) {
    tree.isSucceeded || tree.action.phase != tree.lastAction.phase
  }

  /** `check_action_switch`. */
  function Checked(m: Machine): Machine {
    if !ActionSwitch(m.tree) then m
    else Log(m.(tree := m.tree.(isSucceeded := false, lastAction := m.tree.action)), Switched(m.tree.action))
  }

  /** The requests that follow an action switch. */
  function Started(m: Machine, input: Input): Machine {
    var m1 := ToPhase(m, "PAUSE");
    var m2 := m1.(tree := m1.tree.(treePhase := m1.phase));
    var on := Turned(m2, input.outside.request);
    if input.parameters != Accepted then ToPhase(on, "ERROR")
    else
      var m3 := if input.command == NotReady then on
                else Log(on, StartSent(on.power, on.tree.action, on.tree.lastAction));
      if input.command == Accepted then m3 else ToPhase(m3, "ERROR")
  }

  function Tick(m: Machine, input: Input): Event {
    Ticked(m.isActionSuccess, m.power, m.phase, input.status, input.ticked.treePhase == ErrorPhase)
  }

  /** `execute_tree`. */
  function Executed(m: Machine, input: Input): Machine {
    var m1 := Log(m.(tree := input.ticked), Tick(m, input));
    var judged := Judged(Turned(m1, input.outside.tick), input.status);
    if !judged.1 || !ActionSwitch(judged.0.tree) then judged.0 else Started(Checked(judged.0), input)
  }

  function Finished(m: Machine, input: Input): Machine {
    var on := Turned(m, input.outside.request);
    var m1 := if input.command == NotReady then on else Log(on, StopSent(on.power));
    if input.command == Accepted then m1.(power := false) else ToPhase(m1, "ERROR")
  }

  /** `tree_cycle`. */
  function Cycled(m: Machine, input: Input): Machine {
    match m.phase
    case Pause => Log(m.(isActionSuccess := false), Paused)
    case Resume => Executed(m, input)
    case SuccessPhase => Executed(m.(isActionSuccess := true), input)
    case ErrorPhase => m.(power := false)
    case FailurePhase => m.(power := false)
    case Idle => m
    case Finish => Finished(m.(tree := m.tree.(action := Action("finish", FINISH, m.tree.action.archive))), input)
  }

  /** `timer_callback`. */
  function Callback(m: Machine, input: Input): Machine {
    if !m.power then m
    else
      var m1 := Prepared(m, input);
      Cycled(m1.(tree := m1.tree.(treePhase := m1.phase)), input)
  }

  /** What a callback does before the tree cycle. */
  function Prepared(m: Machine, input: Input): Machine {
    var m1 := Turned(Updated(m, input), input.outside.objects);
    var m2 := Turned(Loaded(m1, input), input.outside.archive);
    Turned(Informed(m2, input), input.outside.message)
  }

  // ----- runs -----

  /** Between two callbacks the power may be set. */
  datatype Step = SetPower(on: bool) | Timer(input: Input)

  function Next(m: Machine, step: Step): Machine {
    match step
    case SetPower(on) => m.(power := on)
    case Timer(input) => Callback(m, input)
  }

  function Run(m: Machine, steps: seq<Step>): Machine {
    if steps == [] then m else Next(Run(m, steps[..|steps| - 1]), steps[|steps| - 1])
  }

  // ----- what a trace shows -----

  function Init(trace: seq<Event>): seq<Event>
    requires trace != []
  {
    trace[..|trace| - 1]
  }

  function Last(trace: seq<Event>): Event
    requires trace != []
  {
    trace[|trace| - 1]
  }

  /** A start has been sent and no message has come since. */
  predicate Waiting(trace: seq<Event>) {
    trace != [] && (Last(trace).StartSent? || (!Last(trace).Received? && Waiting(Init(trace))))
  }

  /** A cycle in the success phase came after the last cycle in the pause phase. */
  predicate Succeeding(trace: seq<Event>) {
    trace != [] &&
    match Last(trace)
    case Paused => false
    case Ticked(_, _, phase, _, _) => phase == SuccessPhase || Succeeding(Init(trace))
    case Received(_) => Succeeding(Init(trace))
    case Switched(_) => Succeeding(Init(trace))
    case StopSent(_) => Succeeding(Init(trace))
    case StartSent(_, _, _) => Succeeding(Init(trace))
  }

  /** What holds of an event after the events before it. */
  predicate Gated(before: seq<Event>, e: Event) {
    match e
    case Ticked(success, power, phase, _, _) =>
      && (phase == Resume || phase == SuccessPhase) && !Waiting(before)
      && (success <==> phase == SuccessPhase || Succeeding(before))
    case StopSent(power) => true
    case StartSent(power, action, lastAction) =>
      && action == lastAction && !Waiting(before)
      && before != [] && Last(before) == Switched(action)
    case Switched(_) => before != [] && Last(before).Ticked?
    case Received(_) => true
    case Paused => true
  }

  predicate AllGated(trace: seq<Event>) {
    trace == [] || (AllGated(Init(trace)) && Gated(Init(trace), Last(trace)))
  }

  lemma {:induction false} GatedAt(trace: seq<Event>, i: nat)
    requires AllGated(trace) && i < |trace|
    ensures Gated(trace[..i], trace[i])
  {
    if i < |trace| - 1 {
      GatedAt(Init(trace), i);
      assert Init(trace)[..i] == trace[..i];
    }
  }

  lemma {:induction false} WaitingUntilMessage(trace: seq<Event>, i: nat)
    requires i < |trace| && trace[i].StartSent? && forall k :: i < k < |trace| ==> !trace[k].Received?
    ensures Waiting(trace)
  {
    if i < |trace| - 1 {
      WaitingUntilMessage(Init(trace), i);
    }
  }

  /** Two starts are separated by a received message. */
  lemma StartsAreSeparated(trace: seq<Event>, i: nat, j: nat)
    requires AllGated(trace) && i < j < |trace| && trace[i].StartSent? && trace[j].StartSent?
    ensures exists k :: i < k < j && trace[k].Received?
  {
    GatedAt(trace, j);
    if forall k :: i < k < j ==> !trace[k].Received? {
      assert forall k :: i < k < j ==> trace[..j][k] == trace[k];
      WaitingUntilMessage(trace[..j], i);
    }
  }

  // ----- every run -----

  ghost predicate Inv(m: Machine) {
    && AllGated(m.trace)
    && (Waiting(m.trace) ==> m.phase != Resume && m.phase != SuccessPhase)
    && (m.isActionSuccess <==> Succeeding(m.trace))
  }

  /** One more event. */
  lemma Logged(trace: seq<Event>, e: Event)
    ensures var t := trace + [e];
            && t != [] && Last(t) == e
            && (AllGated(t) <==> AllGated(trace) && Gated(trace, e))
            && (Waiting(t) <==> e.StartSent? || (!e.Received? && Waiting(trace)))
            && (Succeeding(t) <==> !e.Paused? && ((e.Ticked? && e.phase == SuccessPhase) || Succeeding(trace)))
  {
  }

  lemma InvTurned(m: Machine, change: Option<bool>)
    requires Inv(m)
    ensures Inv(Turned(m, change))
  {
  }

  lemma InvAtFirst(m: Machine, input: Input)
    requires Inv(m)
    ensures Inv(Updated(m, input)) && Inv(Loaded(m, input))
  {
    hide AllGated, Waiting, Succeeding, Loaded, Updated;
    QuietAtFirst(m, input);
  }

  lemma InvInformed(m: Machine, input: Input)
    requires Inv(m)
    ensures Inv(Informed(m, input))
  {
    hide AllGated, Waiting, Succeeding, PhaseOf;
    if input.message.Some? {
      Logged(m.trace, Received(input.message.value));
    }
  }

  lemma InvPrepared(m: Machine, input: Input)
    requires Inv(m)
    ensures Inv(Prepared(m, input))
  {
    hide Inv, Informed, Loaded, Updated, Turned;
    var o := input.outside;
    var m1 := Turned(Updated(m, input), o.objects);
    var m2 := Turned(Loaded(m1, input), o.archive);
    InvAtFirst(m, input);
    InvTurned(Updated(m, input), o.objects);
    InvAtFirst(m1, input);
    InvTurned(Loaded(m1, input), o.archive);
    InvInformed(m2, input);
    InvTurned(Informed(m2, input), o.message);
  }

  /** Where the names of phases lead. */
  lemma Errors()
    ensures forall m: Machine ::
              ToPhase(m, "ERROR").phase == m.phase || ToPhase(m, "ERROR").phase == ErrorPhase
    ensures forall m: Machine :: Stuck(ToPhase(m, "ERROR").phase)
  {
  }

  lemma Names(m: Machine)
    requires !Stuck(m.phase)
    ensures ToPhase(m, "PAUSE").phase == Pause && ToPhase(m, "FINISH").phase == Finish
    ensures ToPhase(m, "FAILURE").phase == FailurePhase
  {
  }

  /** The requests at the start of a callback may only lead to the phase of errors. */
  lemma QuietAtFirst(m: Machine, input: Input)
    ensures var u := Updated(m, input);
            && u.trace == m.trace && u.isActionSuccess == m.isActionSuccess && u.tree == m.tree
            && (u.phase == m.phase || u.phase == ErrorPhase)
    ensures var l := Loaded(m, input);
            && l.trace == m.trace && l.isActionSuccess == m.isActionSuccess && l.tree == m.tree
            && (l.phase == m.phase || l.phase == ErrorPhase)
  {
    hide ToPhase;
    Errors();
  }

  /** The phase cannot be one in which the tree is ticked when a start waits for its message. */
  lemma InvExecuted(m: Machine, input: Input)
    requires AllGated(m.trace) && !Waiting(m.trace)
    requires m.phase == Resume || m.phase == SuccessPhase
    requires m.isActionSuccess <==> m.phase == SuccessPhase || Succeeding(m.trace)
    ensures Inv(Executed(m, input))
  {
    hide AllGated, Waiting, Succeeding, ToPhase;
    Errors();
    Names(m);
    var tick := Tick(m, input);
    Logged(m.trace, tick);
    var m1 := Turned(Log(m.(tree := input.ticked), tick), input.outside.tick);
    var judged := Judged(m1, input.status);
    if judged.1 && ActionSwitch(judged.0.tree) {
      Logged(m1.trace, Switched(m1.tree.action));
      InvStarted(Checked(judged.0), input);
    }
  }

  lemma InvStarted(m: Machine, input: Input)
    requires Inv(m) && !Waiting(m.trace) && !Stuck(m.phase)
    requires m.tree.action == m.tree.lastAction && m.trace != [] && Last(m.trace) == Switched(m.tree.action)
    ensures Inv(Started(m, input))
  {
    hide AllGated, Waiting, Succeeding, ToPhase;
    Errors();
    Names(m);
    Logged(m.trace, StartSent(Turned(m, input.outside.request).power, m.tree.action, m.tree.lastAction));
  }

  lemma InvCycled(m: Machine, input: Input)
    requires Inv(m)
    ensures Inv(Cycled(m, input))
  {
    hide AllGated, Waiting, Succeeding, Executed, ToPhase;
    Errors();
    match m.phase
    case Pause => Logged(m.trace, Paused);
    case Resume => InvExecuted(m, input);
    case SuccessPhase => InvExecuted(m.(isActionSuccess := true), input);
    case Finish => Logged(m.trace, StopSent(Turned(m, input.outside.request).power));
    case ErrorPhase =>
    case FailurePhase =>
    case Idle =>
  }

  lemma InvCallback(m: Machine, input: Input)
    requires Inv(m)
    ensures Inv(Callback(m, input))
  {
    hide AllGated, Waiting, Succeeding, Prepared, Cycled;
    if m.power {
      InvPrepared(m, input);
      var m1 := Prepared(m, input);
      InvCycled(m1.(tree := m1.tree.(treePhase := m1.phase)), input);
    }
  }

  /** The machine of a new node. */
  function Fresh(power: bool, tree: TreeState): Machine {
    Machine(power, Resume, false, false, false, tree, [])
  }

  lemma {:induction false} InvRun(m: Machine, steps: seq<Step>)
    requires Inv(m)
    ensures Inv(Run(m, steps))
  {
    if steps != [] {
      var init := steps[..|steps| - 1];
      InvRun(m, init);
      match steps[|steps| - 1]
      case SetPower(on) =>
      case Timer(input) => InvCallback(Run(m, init), input);
    }
  }

  // ----- the power -----

  /** The power after changes from outside, if the node itself leaves it on. */
  function LeftOn(first: Option<bool>, second: Option<bool>, third: Option<bool>): bool {
    if third.Some? then third.value
    else if second.Some? then second.value
    else if first.Some? then first.value
    else true
  }

  /** The power when the tree is ticked, when a stop is sent, and when a start is sent. */
  function AtTick(o: Outside): bool {
    LeftOn(o.objects, o.archive, o.message)
  }

  function AtStop(o: Outside): bool {
    LeftOn(Some(AtTick(o)), None, o.request)
  }

  function AtStart(o: Outside): bool {
    LeftOn(Some(AtTick(o)), o.tick, o.request)
  }

  predicate PowerSeen(e: Event, o: Outside) {
    match e
    case Ticked(_, power, _, _, _) => power == AtTick(o)
    case StopSent(power) => power == AtStop(o)
    case StartSent(power, _, _) => power == AtStart(o)
    case Received(_) => true
    case Switched(_) => true
    case Paused => true
  }

  /** The events from number `n` on. */
  predicate AllSeen(trace: seq<Event>, n: nat, o: Outside) {
    forall i :: n <= i < |trace| ==> PowerSeen(trace[i], o)
  }

  /** The node itself has turned the power off only into a stuck phase; else it is as it was left. */
  predicate StuckOr(m: Machine, on: bool) {
    Stuck(m.phase) || m.power == on
  }

  lemma PowerAtFirst(m: Machine, input: Input, on: bool)
    requires StuckOr(m, on)
    ensures StuckOr(Updated(m, input), on) && StuckOr(Loaded(m, input), on)
  {
  }

  lemma PowerTurned(m: Machine, change: Option<bool>, on: bool)
    requires StuckOr(m, on)
    ensures StuckOr(Turned(m, change), if change.Some? then change.value else on)
    ensures Turned(m, change).trace == m.trace && Turned(m, change).phase == m.phase
  {
  }

  lemma PowerInformed(m: Machine, input: Input, on: bool)
    requires StuckOr(m, on)
    ensures StuckOr(Informed(m, input), on) && Heard(m.trace, Informed(m, input).trace)
  {
    hide PhaseOf;
  }

  /** At most a message has been added. */
  predicate Heard(trace: seq<Event>, trace': seq<Event>) {
    trace' == trace || (|trace'| == |trace| + 1 && trace'[..|trace|] == trace && trace'[|trace|].Received?)
  }

  lemma PowerPrepared(m: Machine, input: Input)
    requires m.power
    ensures StuckOr(Prepared(m, input), AtTick(input.outside)) && Heard(m.trace, Prepared(m, input).trace)
  {
    hide Updated, Loaded, Informed, Turned, StuckOr, Heard;
    var o := input.outside;
    var m1 := Turned(Updated(m, input), o.objects);
    var m2 := Turned(Loaded(m1, input), o.archive);
    var on1 := LeftOn(o.objects, None, None);
    var on2 := LeftOn(o.objects, o.archive, None);
    PowerHere(m);
    PowerAtFirst(m, input, true);
    PowerTurned(Updated(m, input), o.objects, true);
    PowerAtFirst(m1, input, on1);
    PowerTurned(Loaded(m1, input), o.archive, on1);
    PowerInformed(m2, input, on2);
    PowerTurned(Informed(m2, input), o.message, on2);
    QuietAtFirst(m, input);
    QuietAtFirst(m1, input);
  }

  lemma PowerHere(m: Machine)
    requires m.power
    ensures StuckOr(m, true)
  {
  }

  /** The events added to `trace` have the power that is to be seen. */
  predicate Adds(trace: seq<Event>, trace': seq<Event>, o: Outside) {
    |trace| <= |trace'| && trace'[..|trace|] == trace && AllSeen(trace', |trace|, o)
  }

  lemma AddsNone(trace: seq<Event>, o: Outside)
    ensures Adds(trace, trace, o)
  {
  }

  lemma AddsOne(trace: seq<Event>, trace': seq<Event>, e: Event, o: Outside)
    requires Adds(trace, trace', o) && PowerSeen(e, o)
    ensures Adds(trace, trace' + [e], o)
  {
  }

  lemma HeardAdds(trace: seq<Event>, trace': seq<Event>, o: Outside)
    requires Heard(trace, trace')
    ensures Adds(trace, trace', o)
  {
  }

  lemma SeenStarted(before: seq<Event>, m: Machine, input: Input)
    requires Adds(before, m.trace, input.outside)
    requires m.power == LeftOn(Some(AtTick(input.outside)), input.outside.tick, None)
    ensures Adds(before, Started(m, input).trace, input.outside)
  {
    hide Adds, ToPhase;
    var on := Turned(ToPhase(m, "PAUSE"), input.outside.request);
    AddsOne(before, m.trace, StartSent(on.power, m.tree.action, m.tree.lastAction), input.outside);
  }

  lemma SeenExecuted(before: seq<Event>, m: Machine, input: Input)
    requires Adds(before, m.trace, input.outside) && m.power == AtTick(input.outside)
    ensures Adds(before, Executed(m, input).trace, input.outside)
  {
    hide Adds, ToPhase, Started;
    var tick := Tick(m, input);
    AddsOne(before, m.trace, tick, input.outside);
    var m1 := Turned(Log(m.(tree := input.ticked), tick), input.outside.tick);
    var judged := Judged(m1, input.status);
    if judged.1 && ActionSwitch(judged.0.tree) {
      AddsOne(before, m1.trace, Switched(m1.tree.action), input.outside);
      SeenStarted(before, Checked(judged.0), input);
    }
  }

  lemma SeenFinished(before: seq<Event>, m: Machine, input: Input)
    requires Adds(before, m.trace, input.outside) && m.power == AtTick(input.outside)
    ensures Adds(before, Finished(m, input).trace, input.outside)
  {
    hide Adds, ToPhase;
    AddsOne(before, m.trace, StopSent(Turned(m, input.outside.request).power), input.outside);
  }

  lemma SeenCycled(before: seq<Event>, m: Machine, input: Input)
    requires Adds(before, m.trace, input.outside) && StuckOr(m, AtTick(input.outside))
    ensures Adds(before, Cycled(m, input).trace, input.outside)
  {
    hide Adds, ToPhase, Executed, Finished, AtTick;
    match m.phase
    case Resume => SeenExecuted(before, m, input);
    case SuccessPhase => SeenExecuted(before, m.(isActionSuccess := true), input);
    case Pause => AddsOne(before, m.trace, Paused, input.outside);
    case Finish =>
      SeenFinished(before, m.(tree := m.tree.(action := Action("finish", FINISH, m.tree.action.archive))), input);
    case ErrorPhase =>
    case FailurePhase =>
    case Idle =>
  }

  /** In every callback a tick, a stop or a start has the power off exactly when it was last turned off
      from outside after the test at the start. */
  lemma PowerAtEvents(m: Machine, input: Input)
    ensures Adds(m.trace, Callback(m, input).trace, input.outside)
  {
    hide Prepared, Cycled, Adds, Heard, StuckOr;
    AddsNone(m.trace, input.outside);
    if m.power {
      PowerPrepared(m, input);
      var p := Prepared(m, input);
      HeardAdds(m.trace, p.trace, input.outside);
      StuckOrSame(p, p.(tree := p.tree.(treePhase := p.phase)), AtTick(input.outside));
      SeenCycled(m.trace, p.(tree := p.tree.(treePhase := p.phase)), input);
    }
  }

  lemma StuckOrSame(m: Machine, m': Machine, on: bool)
    requires StuckOr(m, on) && m'.phase == m.phase && m'.power == m.power
    ensures StuckOr(m', on)
  {
  }

  predicate Powered(e: Event) {
    match e
    case Ticked(_, power, _, _, _) => power
    case StopSent(power) => power
    case StartSent(power, _, _) => power
    case Received(_) => true
    case Switched(_) => true
    case Paused => true
  }

  lemma SeenQuiet(e: Event)
    requires PowerSeen(e, QUIET)
    ensures Powered(e)
  {
  }

  predicate AllQuiet(steps: seq<Step>) {
    forall step :: step in steps && step.Timer? ==> step.input.outside == QUIET
  }

  /** Where the power is changed between callbacks only, no tick and no command has the power off. */
  lemma {:induction false} PoweredWhenQuiet(m: Machine, steps: seq<Step>)
    requires forall e :: e in m.trace ==> Powered(e)
    requires AllQuiet(steps)
    ensures forall e :: e in Run(m, steps).trace ==> Powered(e)
  {
    hide Callback, Powered;
    if steps != [] {
      var init, last := steps[..|steps| - 1], steps[|steps| - 1];
      PoweredWhenQuiet(m, init);
      assert last in steps;
      if last.Timer? {
        var before, after := Run(m, init), Callback(Run(m, init), last.input);
        PowerAtEvents(before, last.input);
        forall e | e in after.trace
          ensures Powered(e)
        {
          var i :| 0 <= i < |after.trace| && after.trace[i] == e;
          if i < |before.trace| {
            assert after.trace[..|before.trace|][i] == before.trace[i];
          } else {
            SeenQuiet(e);
          }
        }
      }
    }
  }

  /** Over every run: no two starts without a message between them, every start right after a switch that
      made the last action the current one, and a tick is told of success exactly in the success phase or when
      no pause cycle has come since; and, where the power is changed between callbacks only, no tick and no
      command with it off. */
  lemma EveryRunIsGated(power: bool, tree: TreeState, steps: seq<Step>)
    ensures Inv(Run(Fresh(power, tree), steps))
    ensures AllQuiet(steps) ==> forall e :: e in Run(Fresh(power, tree), steps).trace ==> Powered(e)
  {
    hide Inv, Powered;
    InvAtFresh(power, tree);
    InvRun(Fresh(power, tree), steps);
    if AllQuiet(steps) {
      PoweredWhenQuiet(Fresh(power, tree), steps);
    }
  }

  lemma InvAtFresh(power: bool, tree: TreeState)
    ensures Inv(Fresh(power, tree))
  {
  }

  /** Turned off while the tree is ticked, the power does not hold back the start that follows. */
  lemma StartedWithoutPower()
    ensures var a, b := Action("a", 10, 1), Action("b", 11, 2);
            var input := Input(Accepted, true, Accepted, None, Running, TreeState(Resume, b, a, false), Accepted,
                               Accepted, QUIET.(tick := Some(false)));
            Callback(Fresh(true, TreeState(Resume, a, a, false)), input).trace ==
            [Ticked(false, true, Resume, Running, false), Switched(b), StartSent(false, b, b)]
  {
    var a, b := Action("a", 10, 1), Action("b", 11, 2);
    var input := Input(Accepted, true, Accepted, None, Running, TreeState(Resume, b, a, false), Accepted,
                       Accepted, QUIET.(tick := Some(false)));
    var trace := Callback(Fresh(true, TreeState(Resume, a, a, false)), input).trace;
    assert trace == [Ticked(false, true, Resume, Running, false), Switched(b), StartSent(false, b, b)];
  }

  // ----- errors and failures stay -----

  /** Nothing but messages has been added to the trace. */
  predicate OnlyHears(trace: seq<Event>, trace': seq<Event>) {
    trace <= trace' && forall i :: |trace| <= i < |trace'| ==> trace'[i].Received?
  }

  lemma StuckAtFirst(m: Machine, input: Input)
    requires Stuck(m.phase)
    ensures Updated(m, input).phase == m.phase && Updated(m, input).trace == m.trace
    ensures Loaded(m, input).phase == m.phase && Loaded(m, input).trace == m.trace
  {
    hide PhaseOf;
  }

  lemma StuckInformed(m: Machine, input: Input)
    requires Stuck(m.phase)
    ensures Informed(m, input).phase == m.phase && OnlyHears(m.trace, Informed(m, input).trace)
  {
    hide PhaseOf;
  }

  lemma StuckPrepared(m: Machine, input: Input)
    requires Stuck(m.phase)
    ensures Prepared(m, input).phase == m.phase && OnlyHears(m.trace, Prepared(m, input).trace)
  {
    hide Updated, Loaded, Informed, OnlyHears;
    StuckAtFirst(m, input);
    var m1 := Turned(Updated(m, input), input.outside.objects);
    StuckAtFirst(m1, input);
    StuckInformed(Turned(Loaded(m1, input), input.outside.archive), input);
  }

  lemma StuckCallback(m: Machine, input: Input)
    requires Stuck(m.phase)
    ensures Callback(m, input).phase == m.phase && OnlyHears(m.trace, Callback(m, input).trace)
  {
    hide Prepared, PhaseOf;
    StuckPrepared(m, input);
  }

  /** After an error or a failure nothing is ticked, stopped or started any more, whatever is received
      and even if the power is turned on again. */
  lemma {:induction false} StuckForever(m: Machine, steps: seq<Step>)
    requires Stuck(m.phase)
    ensures Run(m, steps).phase == m.phase && OnlyHears(m.trace, Run(m, steps).trace)
  {
    if steps != [] {
      var init := steps[..|steps| - 1];
      StuckForever(m, init);
      match steps[|steps| - 1]
      case SetPower(on) =>
      case Timer(input) => StuckCallback(Run(m, init), input);
    }
  }

  // ----- a success that is told twice -----

  /** The first of two callbacks: the skill's success is there, and the tree turns to the next action. */
  lemma SuccessTold(a: Action, b: Action, ready: Input)
    requires a == Action("a", 10, 1) && b == Action("b", 11, 2)
    requires ready == Input(Accepted, true, Accepted, Some("SUCCESS"), Running, TreeState(SuccessPhase, b, a, false),
                            Accepted, Accepted, QUIET)
    ensures Callback(Fresh(true, TreeState(Resume, a, a, false)), ready) ==
            Machine(true, Pause, true, true, true, TreeState(Pause, b, b, false),
                    [Received("SUCCESS"), Ticked(true, true, SuccessPhase, Running, false), Switched(b),
                     StartSent(true, b, b)])
  {
    var m := Callback(Fresh(true, TreeState(Resume, a, a, false)), ready);
    assert m.trace == [Received("SUCCESS"), Ticked(true, true, SuccessPhase, Running, false), Switched(b),
                       StartSent(true, b, b)];
  }

  lemma ToldAgain(m: Machine, a: Action, b: Action, next: Input)
    requires a == Action("a", 10, 1) && b == Action("b", 11, 2)
    requires next == Input(Accepted, true, Accepted, Some("RESUME"), Running, TreeState(Resume, b, b, false),
                           Accepted, Accepted, QUIET)
    requires m == Machine(true, Pause, true, true, true, TreeState(Pause, b, b, false), m.trace)
    ensures Callback(m, next).trace == m.trace + [Received("RESUME"), Ticked(true, true, Resume, Running, false)]
  {
  }

  /** The success flag is taken back in a pause cycle only.  When the message that the new skill runs
      is there at the next callback, none has come, and the new action is told of success at once. */
  lemma SuccessToldTwice()
    ensures var a, b := Action("a", 10, 1), Action("b", 11, 2);
            var ready := Input(Accepted, true, Accepted, Some("SUCCESS"), Running, TreeState(SuccessPhase, b, a, false),
                               Accepted, Accepted, QUIET);
            var next := ready.(message := Some("RESUME"), ticked := TreeState(Resume, b, b, false));
            var m := Run(Fresh(true, TreeState(Resume, a, a, false)), [Timer(ready), Timer(next)]);
            m.trace == [Received("SUCCESS"), Ticked(true, true, SuccessPhase, Running, false), Switched(b),
                        StartSent(true, b, b), Received("RESUME"), Ticked(true, true, Resume, Running, false)]
  {
    hide Callback;
    var a, b := Action("a", 10, 1), Action("b", 11, 2);
    var ready := Input(Accepted, true, Accepted, Some("SUCCESS"), Running, TreeState(SuccessPhase, b, a, false),
                       Accepted, Accepted, QUIET);
    var next := ready.(message := Some("RESUME"), ticked := TreeState(Resume, b, b, false));
    SuccessTold(a, b, ready);
    var m0 := Fresh(true, TreeState(Resume, a, a, false));
    var m1 := Callback(m0, ready);
    ToldAgain(m1, a, b, next);
    var steps := [Timer(ready), Timer(next)];
    assert steps[..1] == [Timer(ready)] && [Timer(ready)][..0] == [];
    assert Run(m0, []) == m0;
    assert Run(m0, [Timer(ready)]) == m1;
  }

  // ----- the node -----

  class TreeNode {
    var power: bool
    var phase: Phase
    var isActionSuccess: bool
    var hasUpdatedObjects: bool
    var hasLoadedArchive: bool
    var tree: TreeState
    ghost var trace: seq<Event>

    ghost function Val(): Machine
      reads this
    {
      Machine(power, phase, isActionSuccess, hasUpdatedObjects, hasLoadedArchive, tree, trace)
    }

    constructor (tree: TreeState)
      ensures Val() == Fresh(true, tree) && Inv(Val())
    {
      this.tree, power, phase := tree, true, Resume;
      isActionSuccess, hasUpdatedObjects, hasLoadedArchive, trace := false, false, false, [];
    }

    method SwitchPower(on: bool)
      modifies this
      ensures Val() == old(Val()).(power := on)
    {
      power := on;
    }

    /** What happens to the power meanwhile, from outside. */
    method Meanwhile(change: Option<bool>)
      modifies this
      ensures Val() == Turned(old(Val()), change)
    {
      if change.Some? {
        SwitchPower(change.value);
      }
    }

    method SwitchTreePhase(message: string) returns (ok: bool)
      modifies this
      ensures ok == Switches(old(phase), message) && Val() == ToPhase(old(Val()), message)
    {
      if phase == ErrorPhase || phase == FailurePhase {
        return false;
      }
      var p := PhaseOf(message);
      if p == None {
        return false;
      }
      phase := p.value;
      return true;
    }

    /** `update_object` and `load_node_archive` as far as the life cycle is concerned. */
    method Ask(reply: Reply) returns (ok: bool)
      modifies this
      ensures ok == (reply == Accepted) && Val() == Asked(old(Val()), reply)
    {
      if reply == NotReady {
        SwitchPower(false);
        return false;
      }
      return reply == Accepted;
    }

    method Prepare(input: Input)
      modifies this
      ensures Val() == Prepared(old(Val()), input)
    {
      hide Updated, Loaded, Turned, Informed;
      UpdateObjects(input);
      Meanwhile(input.outside.objects);
      LoadArchive(input);
      Meanwhile(input.outside.archive);
      Listen(input);
      Meanwhile(input.outside.message);
    }

    /** A message, if there is one, switches the phase. */
    method Listen(input: Input)
      modifies this
      ensures Val() == Informed(old(Val()), input)
    {
      hide PhaseOf;
      if input.message.Some? {
        trace := trace + [Received(input.message.value)];
        var ok := SwitchTreePhase(input.message.value);
        if !ok {
          var _ := SwitchTreePhase("ERROR");
        }
      }
    }

    method TimerCallback(input: Input)
      modifies this
      ensures Val() == Callback(old(Val()), input)
      ensures Inv(old(Val())) ==> Inv(Val())
    {
      hide Inv, Prepared, Cycled;
      if Inv(Val()) {
        InvCallback(Val(), input);
      }
      if !power {
        return;
      }
      Prepare(input);
      tree := tree.(treePhase := phase);
      TreeCycle(input);
    }

    method UpdateObjects(input: Input)
      modifies this
      ensures Val() == Updated(old(Val()), input)
    {
      if !hasUpdatedObjects {
        var ok := Ask(input.objects);
        if !ok {
          var _ := SwitchTreePhase("ERROR");
        } else {
          hasUpdatedObjects := true;
        }
      }
    }

    method LoadArchive(input: Input)
      modifies this
      ensures Val() == Loaded(old(Val()), input)
    {
      if !hasLoadedArchive {
        if !input.grounded {
          var _ := SwitchTreePhase("ERROR");
        }
        var ok := Ask(input.archive);
        if !ok {
          var _ := SwitchTreePhase("ERROR");
        } else {
          hasLoadedArchive := true;
        }
      }
    }

    method TreeCycle(input: Input)
      modifies this
      ensures Val() == Cycled(old(Val()), input)
    {
      hide Executed, Finished, PhaseOf;
      match phase {
        case Pause =>
          isActionSuccess := false;
          trace := trace + [Paused];
        case Resume =>
          ExecuteTree(input);
        case SuccessPhase =>
          isActionSuccess := true;
          ExecuteTree(input);
        case ErrorPhase =>
          SwitchPower(false);
        case FailurePhase =>
          SwitchPower(false);
        case Idle =>
        case Finish =>
          tree := tree.(action := Action("finish", FINISH, tree.action.archive));
          RequestStop(input);
      }
    }

    /** The request of `tree_cycle` when the tree has finished. */
    method RequestStop(input: Input)
      modifies this
      ensures Val() == Finished(old(Val()), input)
    {
      hide PhaseOf;
      Meanwhile(input.outside.request);
      if input.command != NotReady {
        trace := trace + [StopSent(power)];
      }
      if input.command != Accepted {
        var _ := SwitchTreePhase("ERROR");
      } else {
        SwitchPower(false);
      }
    }

    method ExecuteTree(input: Input)
      modifies this
      ensures Val() == Executed(old(Val()), input)
    {
      hide Started, Judged;
      trace := trace + [Ticked(isActionSuccess, power, phase, input.status, input.ticked.treePhase == ErrorPhase)];
      tree := input.ticked;
      Meanwhile(input.outside.tick);
      var running := IsTreeRunning(input.status);
      if running {
        var switched := CheckActionSwitch();
        if switched {
          RequestStart(input);
        }
      }
    }

    method IsTreeRunning(status: TickStatus) returns (running: bool)
      modifies this
      ensures (Val(), running) == Judged(old(Val()), status)
    {
      if tree.treePhase == ErrorPhase {
        SwitchPower(false);
        return false;
      }
      match status {
        case Running =>
          return true;
        case Succeeded =>
          var _ := SwitchTreePhase("FINISH");
          return false;
        case Failed =>
          var _ := SwitchTreePhase("FAILURE");
          return false;
        case OtherStatus =>
          var _ := SwitchTreePhase("ERROR");
          return false;
      }
    }

    method CheckActionSwitch() returns (switched: bool)
      modifies this
      ensures switched == ActionSwitch(old(tree)) && Val() == Checked(old(Val()))
    {
      if tree.isSucceeded {
        tree := tree.(isSucceeded := false);
        tree := tree.(lastAction := tree.action);
        trace := trace + [Switched(tree.action)];
        return true;
      }
      if tree.action.phase != tree.lastAction.phase {
        tree := tree.(lastAction := tree.action);
        trace := trace + [Switched(tree.action)];
        return true;
      }
      return false;
    }

    /** The requests of `execute_tree` after an action switch. */
    method RequestStart(input: Input)
      modifies this
      ensures Val() == Started(old(Val()), input)
    {
      var _ := SwitchTreePhase("PAUSE");
      tree := tree.(treePhase := phase);
      Meanwhile(input.outside.request);
      if input.parameters != Accepted {
        var _ := SwitchTreePhase("ERROR");
        return;
      }
      if input.command != NotReady {
        trace := trace + [StartSent(power, tree.action, tree.lastAction)];
      }
      if input.command != Accepted {
        var _ := SwitchTreePhase("ERROR");
      }
    }

    /** The node over a run of callbacks and changes of its power. */
    method Spin(steps: seq<Step>)
      modifies this
      ensures Val() == Run(old(Val()), steps)
      ensures Inv(old(Val())) ==> Inv(Val())
    {
      for i := 0 to |steps|
        invariant Val() == Run(old(Val()), steps[..i])
      {
        assert steps[..i + 1][..i] == steps[..i];
        match steps[i] {
          case SetPower(on) => SwitchPower(on);
          case Timer(input) => TimerCallback(input);
        }
      }
      assert steps[..|steps|] == steps;
      if Inv(old(Val())) {
        InvRun(old(Val()), steps);
      }
    }
  }
}

/** The commander between the tree node and the robot. */
module SkillCommands {
  import opened Wrappers

  /** The values of `CommandType`; the third one is not handled. */
  datatype CommandType = Initialization | StopOldStartNew | StartNewTask | StopOldTask | Undefined

  /** What is sent to the robot; a request has a reply, none if the connection fails. */
  datatype Sent = StopRequest(reply: Option<bool>) | StartRequest(reply: Option<bool>) | StopCommand

  class Commander {
    ghost var sent: seq<Sent>

    constructor ()
      ensures sent == []
    {
      sent := [];
    }

    method StopTaskRequest(reply: Option<bool>) returns (ok: bool)
      modifies this
      ensures sent == old(sent) + [StopRequest(reply)] && ok == (reply == Some(true))
    {
      sent := sent + [StopRequest(reply)];
      if reply.Some? {
        return reply.value;
      }
      return false;
    }

    method StartTaskRequest(reply: Option<bool>) returns (ok: bool)
      modifies this
      ensures sent == old(sent) + [StartRequest(reply)] && ok == (reply == Some(true))
    {
      sent := sent + [StartRequest(reply)];
      if reply.Some? {
        return reply.value;
      }
      return false;
    }

    /** A new task is asked for only right after the old one was stopped with success. */
    method IssueCommand(command: CommandType, stopReply: Option<bool>, startReply: Option<bool>)
      requires StartsFollowStops(sent)
      modifies this
      ensures StartsFollowStops(sent)
      ensures sent == old(sent) + Requests(command, stopReply, startReply)
    {
      ghost var before := sent;
      match command {
        case StopOldStartNew =>
          var stopped := StopTaskRequest(stopReply);
          if stopped {
            var _ := StartTaskRequest(startReply);
          }
        case StopOldTask =>
          sent := sent + [StopCommand];
        case Initialization =>
        case StartNewTask =>
        case Undefined =>
      }
      assert sent == before + Requests(command, stopReply, startReply);
      RequestsFollow(before, command, stopReply, startReply);
    }

    /** The service is accepted whenever its context can be read, whether or not a task was started. */
    method CommandService(parsed: bool, command: CommandType, stopReply: Option<bool>, startReply: Option<bool>)
      returns (accepted: bool)
      requires StartsFollowStops(sent)
      modifies this
      ensures StartsFollowStops(sent) && accepted == parsed
      ensures sent == old(sent) + if parsed then Requests(command, stopReply, startReply) else []
    {
      if !parsed {
        return false;
      }
      IssueCommand(command, stopReply, startReply);
      return true;
    }
  }

  ghost function Requests(command: CommandType, stopReply: Option<bool>, startReply: Option<bool>): seq<Sent> {
    match command
    case StopOldStartNew =>
      if stopReply == Some(true) then [StopRequest(stopReply), StartRequest(startReply)] else [StopRequest(stopReply)]
    case StopOldTask => [StopCommand]
    case Initialization => []
    case StartNewTask => []
    case Undefined => []
  }

  /** The old task is stopped by a request exactly when a new one is to follow, the new one is started
      exactly when that was granted, and the plain stop is sent exactly when nothing is to follow. */
  lemma RequestsExactly(command: CommandType, stopReply: Option<bool>, startReply: Option<bool>)
    ensures var sent := Requests(command, stopReply, startReply);
            && (StopRequest(stopReply) in sent <==> command == StopOldStartNew)
            && (StartRequest(startReply) in sent <==> command == StopOldStartNew && stopReply == Some(true))
            && (StopCommand in sent <==> command == StopOldTask)
            && |sent| == (if command == StopOldStartNew then if stopReply == Some(true) then 2 else 1
                          else if command == StopOldTask then 1 else 0)
  {
  }

  ghost predicate StartsFollowStops(sent: seq<Sent>) {
    forall i :: 0 <= i < |sent| && sent[i].StartRequest? ==> i > 0 && sent[i - 1] == StopRequest(Some(true))
  }

  lemma RequestsFollow(sent: seq<Sent>, command: CommandType, stopReply: Option<bool>, startReply: Option<bool>)
    requires StartsFollowStops(sent)
    ensures StartsFollowStops(sent + Requests(command, stopReply, startReply))
  {
  }
}
