/**
  `ThreadedAction`: the tree thread and the workers it starts, as a state machine over their
  atomic steps.  A step is one access to the status, the halt flag, the exception pointer (with
  its mutex) or the future; `tick` may take any time and end in any way.
*/
module ThreadedAction {
  import opened Wrappers
  import opened BtStatus

  /** Where a worker stands.  `Checked` has found no halt request and will set the status next;
      `Caught` is in the handler; `Tail` has only the wake-up signal left. */
  datatype Worker = Ticking | Checked(status: NodeStatus) | Caught | Tail | Finished

  /** Where the tree thread stands.  `Waiting` and `HaltSet` carry whether the parent resets the
      status after the halt. */
  datatype Pc =
    | Free
    | SetRunning | ClearHalt | Launch | Assign(worker: nat) | Rethrow
    | HaltSet(thenReset: bool) | Waiting(thenReset: bool)
    | ResetNow

  datatype State = State(
    status: NodeStatus,
    haltRequested: bool,
    exception: bool,
    handle: Option<nat>,
    workers: seq<Worker>,
    pc: Pc)

  predicate Init(s: State) {
    s == State(IDLE, s.haltRequested, false, None, [], Free)
  }

  datatype Step =
    // `executeTick`
    | BeginTick | DoSetRunning | DoClearHalt | DoLaunch | DoAssign | DoRethrow
    // `halt`, by itself or as part of a parent's halt-and-reset
    | BeginHalt | DoHaltSet | DoWait
    // a parent's `if RUNNING then halt; resetStatus`
    | BeginReset | DoReset
    // worker `w`
    | TickReturns(w: nat, result: NodeStatus) | TickThrows(w: nat) | TickThrowsForeign(w: nat)
    | SetResult(w: nat) | Handle(w: nat) | WakeUp(w: nat)

  predicate Done(s: State, handle: Option<nat>) {
    handle.Some? ==> handle.value < |s.workers| && s.workers[handle.value] == Finished
  }

  predicate Next(s: State, step: Step, s': State) {
    match step
    case BeginTick =>
      s.pc == Free && s' == s.(pc := if s.status == IDLE then SetRunning else Rethrow)
    case DoSetRunning =>
      s.pc == SetRunning && s' == s.(status := RUNNING, pc := ClearHalt)
    case DoClearHalt =>
      s.pc == ClearHalt && s' == s.(haltRequested := false, pc := Launch)
    case DoLaunch =>
      s.pc == Launch && s' == s.(workers := s.workers + [Ticking], pc := Assign(|s.workers|))
    case DoAssign =>
      // replacing the future of `std::async` waits for the worker it belonged to
      s.pc.Assign? && Done(s, s.handle) && s' == s.(handle := Some(s.pc.worker), pc := Rethrow)
    case DoRethrow =>
      s.pc == Rethrow && s' == s.(exception := false, pc := Free)
    case BeginHalt =>
      s.pc == Free && s' == s.(pc := HaltSet(false))
    case DoHaltSet =>
      s.pc.HaltSet? && s' == s.(haltRequested := true, pc := Waiting(s.pc.thenReset))
    case DoWait =>
      s.pc.Waiting? && Done(s, s.handle) &&
      s' == s.(handle := None, pc := if s.pc.thenReset then ResetNow else Free)
    case BeginReset =>
      s.pc == Free && s' == s.(pc := if s.status == RUNNING then HaltSet(true) else ResetNow)
    case DoReset =>
      s.pc == ResetNow && s' == s.(status := IDLE, pc := Free)
    case TickReturns(w, result) =>
      w < |s.workers| && s.workers[w] == Ticking &&
      s' == s.(workers := s.workers[w := if s.haltRequested then Tail else Checked(result)])
    case TickThrows(w) =>
      w < |s.workers| && s.workers[w] == Ticking && s' == s.(workers := s.workers[w := Caught])
    case TickThrowsForeign(w) =>
      // not a `std::exception`: it ends the worker and stays in the future
      w < |s.workers| && s.workers[w] == Ticking && s' == s.(workers := s.workers[w := Finished])
    case SetResult(w) =>
      // `setStatus(IDLE)` throws, into the handler of the worker
      w < |s.workers| && s.workers[w].Checked? &&
      s' == if s.workers[w].status == IDLE then s.(workers := s.workers[w := Caught])
            else s.(status := s.workers[w].status, workers := s.workers[w := Tail])
    case Handle(w) =>
      // stores the exception, then `setStatus(IDLE)` throws out of the handler
      w < |s.workers| && s.workers[w] == Caught &&
      s' == s.(exception := true, workers := s.workers[w := Finished])
    case WakeUp(w) =>
      w < |s.workers| && s.workers[w] == Tail && s' == s.(workers := s.workers[w := Finished])
  }

  /** A run: consecutive states joined by steps, from an initial state. */
  ghost predicate IsRun(run: seq<State>, steps: seq<Step>) {
    && |run| == |steps| + 1
    && Init(run[0])
    && forall i :: 0 <= i < |steps| ==> Next(run[i], steps[i], run[i + 1])
  }

  // ----- the invariant -----

  /** A worker that may still change the node's status. */
  predicate CanWrite(w: Worker) {
    w == Ticking || w.Checked?
  }

  /** A worker that has not got past setting the status, or failing to. */
  predicate Active(w: Worker) {
    CanWrite(w) || w == Caught
  }

  /** The worker the tree thread knows of: the one it is about to store, or the stored one. */
  predicate Current(s: State, w: nat) {
    if s.pc.Assign? then s.pc.worker == w else s.handle == Some(w)
  }

  ghost predicate NoneActive(s: State) {
    forall w :: 0 <= w < |s.workers| ==> !Active(s.workers[w])
  }

  ghost predicate ActiveAreCurrent(s: State) {
    forall w :: 0 <= w < |s.workers| && Active(s.workers[w]) ==> Current(s, w) && s.status == RUNNING
  }

  ghost predicate UnfinishedAreKnown(s: State) {
    forall w :: 0 <= w < |s.workers| && s.workers[w] != Finished ==> Current(s, w) || s.handle == Some(w)
  }

  ghost predicate Inv(s: State) {
    && ActiveAreCurrent(s)
    && UnfinishedAreKnown(s)
    && (s.pc in {SetRunning, ClearHalt, Launch, ResetNow} ==> NoneActive(s))
    && (s.pc in {ClearHalt, Launch} ==> s.status == RUNNING)
    && (s.handle.Some? ==> s.handle.value < |s.workers|)
    && (s.pc.Assign? ==> s.pc.worker < |s.workers|)
  }

  lemma InvTreeStep(s: State, step: Step, s': State)
    requires Inv(s) && Next(s, step, s') && s'.workers == s.workers
    ensures Inv(s')
  {
  }

  lemma InvLaunch(s: State, s': State)
    requires Inv(s) && Next(s, DoLaunch, s')
    ensures Inv(s')
  {
  }

  /** A worker moves on: it never becomes active again, and writes only as the current one. */
  lemma InvWorkerStep(s: State, step: Step, s': State, w: nat)
    requires Inv(s) && Next(s, step, s') && w < |s.workers|
    requires step in {TickThrows(w), TickThrowsForeign(w), SetResult(w), Handle(w), WakeUp(w)} ||
             (step.TickReturns? && step.w == w)
    ensures Inv(s')
  {
    var x := s'.workers[w];
    assert s'.workers == s.workers[w := x] && s'.pc == s.pc && s'.handle == s.handle;
    assert Active(x) ==> Active(s.workers[w]);
    assert forall v :: 0 <= v < |s'.workers| ==> Current(s', v) == Current(s, v);
    if step.SetResult? {
      forall v | 0 <= v < |s'.workers| ensures v != w ==> !Active(s'.workers[v]) {
        assert Current(s, w);
      }
    }
  }

  lemma InvStep(s: State, step: Step, s': State)
    requires Inv(s) && Next(s, step, s')
    ensures Inv(s')
  {
    match step
    case BeginTick | DoSetRunning | DoClearHalt | DoAssign | DoRethrow | BeginHalt | DoHaltSet
       | DoWait | BeginReset | DoReset => InvTreeStep(s, step, s');
    case DoLaunch => InvLaunch(s, s');
    case TickReturns(w, _) => InvWorkerStep(s, step, s', w);
    case TickThrows(w) => InvWorkerStep(s, step, s', w);
    case TickThrowsForeign(w) => InvWorkerStep(s, step, s', w);
    case SetResult(w) => InvWorkerStep(s, step, s', w);
    case Handle(w) => InvWorkerStep(s, step, s', w);
    case WakeUp(w) => InvWorkerStep(s, step, s', w);
  }

  lemma {:induction false} InvRun(run: seq<State>, steps: seq<Step>, i: nat)
    requires IsRun(run, steps) && i < |run|
    ensures Inv(run[i])
    decreases i
  {
    if i > 0 {
      InvRun(run, steps, i - 1);
      InvStep(run[i - 1], steps[i - 1], run[i]);
    }
  }

  // ----- results over whole runs -----

  /** In every reachable state at most one worker can still write the status. */
  lemma AtMostOneWriter(run: seq<State>, steps: seq<Step>, i: nat, v: nat, w: nat)
    requires IsRun(run, steps) && i < |run| && v < |run[i].workers| && w < |run[i].workers|
    requires CanWrite(run[i].workers[v]) && CanWrite(run[i].workers[w])
    ensures v == w && run[i].status == RUNNING
  {
    InvRun(run, steps, i);
    assert Current(run[i], v) && Current(run[i], w);
  }

  /** Nothing but a new tick can make an IDLE node without writers leave IDLE. */
  ghost predicate Quiet(s: State) {
    && s.status == IDLE && NoneActive(s)
    && s.pc !in {SetRunning, ClearHalt, Launch} && !s.pc.Assign?
  }

  lemma QuietStep(s: State, step: Step, s': State)
    requires Quiet(s) && Next(s, step, s') && step != BeginTick
    ensures Quiet(s')
  {
  }

  /** Once a parent has reset the node, halting it first when it was RUNNING, the node stays IDLE
      until the next `executeTick`. */
  lemma {:induction false} ResetStaysIdle(run: seq<State>, steps: seq<Step>, i: nat, j: nat)
    requires IsRun(run, steps) && i < j < |run| && steps[i] == DoReset
    requires forall k :: i < k < j ==> steps[k] != BeginTick
    ensures run[j].status == IDLE && Quiet(run[j])
    decreases j
  {
    if j == i + 1 {
      InvRun(run, steps, i);
    } else {
      ResetStaysIdle(run, steps, i, j - 1);
      QuietStep(run[j - 1], steps[j - 1], run[j]);
    }
  }

  /** When `halt` has waited, no worker is left at all. */
  lemma HaltLeavesNoWorker(run: seq<State>, steps: seq<Step>, i: nat, w: nat)
    requires IsRun(run, steps) && i < |steps| && steps[i] == DoWait && w < |run[i + 1].workers|
    ensures run[i + 1].workers[w] == Finished
  {
    InvRun(run, steps, i);
  }

  // ----- what a call does by the time it returns -----

  /** The call that began at `i` has not returned before `j`. */
  predicate InCall(run: seq<State>, i: nat, j: nat)
    requires j < |run|
  {
    forall m :: i < m < j ==> run[m].pc != Free
  }

  /** The tree thread is on its way to reset the node, or has just done it. */
  ghost predicate Resetting(s: State) {
    match s.pc
    case HaltSet(thenReset) => thenReset
    case Waiting(thenReset) => thenReset
    case ResetNow => true
    case Free => s.status == IDLE
    case _ => false
  }

  lemma ResettingStep(s: State, step: Step, s': State)
    requires Resetting(s) && s.pc != Free && Next(s, step, s')
    ensures Resetting(s')
  {
  }

  /** When a parent's halt-and-reset returns, the node is IDLE. */
  lemma {:induction false} ResetEndsIdle(run: seq<State>, steps: seq<Step>, i: nat, j: nat)
    requires IsRun(run, steps) && i < j < |run| && steps[i] == BeginReset && InCall(run, i, j)
    ensures Resetting(run[j]) && (run[j].pc == Free ==> run[j].status == IDLE)
    decreases j
  {
    if j == i + 1 {
      assert Next(run[i], steps[i], run[j]);
    } else {
      ResetEndsIdle(run, steps, i, j - 1);
      ResettingStep(run[j - 1], steps[j - 1], run[j]);
    }
  }

  /** The tree thread is starting worker `n`, or has just done it. */
  ghost predicate Starting(s: State, n: nat) {
    match s.pc
    case SetRunning => |s.workers| == n
    case ClearHalt => |s.workers| == n
    case Launch => |s.workers| == n
    case Assign(w) => w == n && |s.workers| == n + 1
    case Rethrow => |s.workers| == n + 1 && s.handle == Some(n)
    case Free => |s.workers| == n + 1 && s.handle == Some(n)
    case _ => false
  }

  lemma StartingStep(s: State, step: Step, s': State, n: nat)
    requires Starting(s, n) && s.pc != Free && Next(s, step, s')
    ensures Starting(s', n)
  {
  }

  /** When `executeTick` returns on a node that was IDLE, one worker has been started, and the tree thread
      knows it; on any other node none has. */
  lemma {:induction false} TickStarts(run: seq<State>, steps: seq<Step>, i: nat, j: nat)
    requires IsRun(run, steps) && i < j < |run| && steps[i] == BeginTick && InCall(run, i, j)
    ensures run[i].status == IDLE ==> Starting(run[j], |run[i].workers|)
    ensures run[i].status != IDLE ==>
              run[j].pc in {Rethrow, Free} && |run[j].workers| == |run[i].workers| && run[j].handle == run[i].handle
    decreases j
  {
    if j == i + 1 {
      assert Next(run[i], steps[i], run[j]);
    } else {
      TickStarts(run, steps, i, j - 1);
      if run[i].status == IDLE {
        StartingStep(run[j - 1], steps[j - 1], run[j], |run[i].workers|);
      }
    }
  }

  // ----- the result of a tick -----

  /** The status is `r` and no worker is left that could change it. */
  ghost predicate Settled(s: State, r: NodeStatus) {
    && s.status == r && r != IDLE && NoneActive(s)
    && s.pc !in {SetRunning, ClearHalt, Launch}
  }

  lemma SettledStep(s: State, step: Step, s': State, r: NodeStatus)
    requires Settled(s, r) && Next(s, step, s') && step != DoReset
    ensures Settled(s', r)
  {
  }

  /** A worker that is about to set the status carries the result that its `tick` returned, without
      a halt request at the time. */
  lemma {:induction false} CheckedComesFrom(run: seq<State>, steps: seq<Step>, i: nat, w: nat) returns (k: nat)
    requires IsRun(run, steps) && i < |run| && w < |run[i].workers| && run[i].workers[w].Checked?
    ensures k < i && steps[k] == TickReturns(w, run[i].workers[w].status) && !run[k].haltRequested
    decreases i
  {
    var s, step := run[i - 1], steps[i - 1];
    assert Next(s, step, run[i]);
    if step == TickReturns(w, run[i].workers[w].status) {
      k := i - 1;
    } else {
      k := CheckedComesFrom(run, steps, i - 1, w);
    }
  }

  lemma AfterTickStep(s: State, step: Step, s': State, w: nat, result: NodeStatus)
    requires Next(s, step, s') && w < |s.workers|
    requires s.workers[w] != Ticking && (s.workers[w].Checked? ==> s.workers[w] == Checked(result))
    ensures w < |s'.workers| && s'.workers[w] != Ticking
    ensures s'.workers[w].Checked? ==> s'.workers[w] == Checked(result)
  {
  }

  /** After its `tick` has returned, a worker ticks no more and carries that result or none. */
  lemma {:induction false} CarriesItsResult(run: seq<State>, steps: seq<Step>, k: nat, i: nat, w: nat,
                                            result: NodeStatus)
    requires IsRun(run, steps) && k < i < |run| && steps[k] == TickReturns(w, result)
    ensures w < |run[i].workers| && run[i].workers[w] != Ticking
    ensures run[i].workers[w].Checked? ==> run[i].workers[w] == Checked(result)
    decreases i
  {
    assert Next(run[k], steps[k], run[k + 1]);
    if k < i - 1 {
      CarriesItsResult(run, steps, k, i - 1, w, result);
      AfterTickStep(run[i - 1], steps[i - 1], run[i], w, result);
    }
  }

  lemma SetsItsResult(s: State, w: nat, s': State, result: NodeStatus)
    requires Inv(s) && Next(s, SetResult(w), s') && s.workers[w] == Checked(result)
    ensures result != IDLE ==> Settled(s', result)
    ensures result == IDLE ==> s'.status == RUNNING && s'.workers[w] == Caught
  {
    InvWorkerStep(s, SetResult(w), s', w);
  }

  /** When a worker has set its result, which does not throw unless it is IDLE, the status is the very
      one that its `tick` returned, and stays so until the parent resets the node. */
  lemma {:induction false} ResultStays(run: seq<State>, steps: seq<Step>, k: nat, i: nat, j: nat, w: nat,
                                       result: NodeStatus)
    requires IsRun(run, steps) && k < i < j < |run|
    requires steps[k] == TickReturns(w, result) && steps[i] == SetResult(w) && result != IDLE
    requires forall m :: i < m < j ==> steps[m] != DoReset
    ensures run[j].status == result && Settled(run[j], result)
    decreases j
  {
    if j == i + 1 {
      assert Next(run[i], steps[i], run[j]);
      InvRun(run, steps, i);
      CarriesItsResult(run, steps, k, i, w, result);
      SetsItsResult(run[i], w, run[j], result);
    } else {
      ResultStays(run, steps, k, i, j - 1, w, result);
      SettledStep(run[j - 1], steps[j - 1], run[j], result);
    }
  }

  /** A step taken by worker `w`. */
  predicate StepOf(step: Step, w: nat) {
    match step
    case TickReturns(v, _) => v == w
    case TickThrows(v) => v == w
    case TickThrowsForeign(v) => v == w
    case SetResult(v) => v == w
    case Handle(v) => v == w
    case WakeUp(v) => v == w
    case _ => false
  }

  /** The tree thread waits for a worker that is still ticking, and the halt request stands. */
  ghost predicate HaltAwaits(s: State, w: nat) {
    w < |s.workers| && (s.workers[w] == Ticking ==> s.pc.Waiting? && s.haltRequested)
  }

  lemma HaltAwaitsStep(s: State, step: Step, s': State, w: nat)
    requires Inv(s) && HaltAwaits(s, w) && Next(s, step, s')
    ensures HaltAwaits(s', w)
  {
  }

  lemma {:induction false} HaltStands(run: seq<State>, steps: seq<Step>, h: nat, j: nat, w: nat)
    requires IsRun(run, steps) && h < j < |run| && steps[h] == DoHaltSet && w < |run[h].workers|
    ensures HaltAwaits(run[j], w)
    decreases j
  {
    assert Next(run[h], steps[h], run[h + 1]);
    if h < j - 1 {
      HaltStands(run, steps, h, j - 1, w);
      InvRun(run, steps, j - 1);
      HaltAwaitsStep(run[j - 1], steps[j - 1], run[j], w);
    }
  }

  ghost predicate Mute(s: State, w: nat) {
    w < |s.workers| && (s.workers[w] == Tail || s.workers[w] == Finished)
  }

  lemma MuteStep(s: State, step: Step, s': State, w: nat)
    requires Mute(s, w) && Next(s, step, s')
    ensures Mute(s', w) && (StepOf(step, w) ==> s'.status == s.status && s'.exception == s.exception)
  {
  }

  /** A worker whose `tick` returns after the node was told to halt never changes the status. */
  lemma {:induction false} HaltedTickIsMute(run: seq<State>, steps: seq<Step>, h: nat, k: nat, j: nat, w: nat,
                                            result: NodeStatus)
    requires IsRun(run, steps) && h < k <= j < |steps| && steps[h] == DoHaltSet && w < |run[h].workers|
    requires steps[k] == TickReturns(w, result)
    ensures Mute(run[j + 1], w) && (StepOf(steps[j], w) ==> run[j + 1].status == run[j].status)
    decreases j
  {
    if j == k {
      assert Next(run[k], steps[k], run[k + 1]);
      HaltStands(run, steps, h, k, w);
    } else {
      HaltedTickIsMute(run, steps, h, k, j - 1, w, result);
      MuteStep(run[j], steps[j], run[j + 1], w);
    }
  }

  predicate Undisturbed(step: Step) {
    step != BeginHalt && step != BeginReset && !step.TickThrows? && !step.TickThrowsForeign?
  }

  /** Without a halt the request is withdrawn before a worker starts, and does not come back. */
  ghost predicate Unhalted(s: State) {
    && !s.pc.HaltSet? && !s.pc.Waiting? && s.pc != ResetNow
    && (s.workers != [] || s.pc == Launch ==> !s.haltRequested)
    && (s.workers != [] ==> s.status != IDLE && s.pc !in {SetRunning, ClearHalt, Launch})
  }

  lemma UnhaltedStep(s: State, step: Step, s': State)
    requires Inv(s) && Unhalted(s) && Next(s, step, s') && Undisturbed(step)
    ensures Unhalted(s')
  {
  }

  lemma {:induction false} UnhaltedRun(run: seq<State>, steps: seq<Step>, j: nat)
    requires IsRun(run, steps) && j < |run| && forall m :: 0 <= m < j ==> Undisturbed(steps[m])
    ensures Unhalted(run[j])
    decreases j
  {
    if j > 0 {
      UnhaltedRun(run, steps, j - 1);
      InvRun(run, steps, j - 1);
      UnhaltedStep(run[j - 1], steps[j - 1], run[j]);
    }
  }

  /** The result is on its way or there. */
  ghost predicate Delivers(s: State, w: nat, result: NodeStatus) {
    w < |s.workers| && (s.workers[w] == Checked(result) || (Mute(s, w) && Settled(s, result)))
  }

  lemma DeliversStep(s: State, step: Step, s': State, w: nat, result: NodeStatus)
    requires Inv(s) && Unhalted(s) && Delivers(s, w, result) && result != IDLE && Next(s, step, s')
    requires Undisturbed(step)
    ensures Delivers(s', w, result)
  {
    if Mute(s, w) {
      MuteStep(s, step, s', w);
      SettledStep(s, step, s', result);
    } else if step == SetResult(w) {
      SetsItsResult(s, w, s', result);
    }
  }

  /** Without halt or exception, the node ends with the result of the tick. */
  lemma {:induction false} UndisturbedDelivers(run: seq<State>, steps: seq<Step>, k: nat, j: nat, w: nat,
                                               result: NodeStatus)
    requires IsRun(run, steps) && k < j < |run| && steps[k] == TickReturns(w, result) && result != IDLE
    requires forall m :: 0 <= m < j ==> Undisturbed(steps[m])
    ensures Delivers(run[j], w, result)
    ensures run[j].workers[w] == Finished ==> run[j].status == result
    decreases j
  {
    UnhaltedRun(run, steps, j - 1);
    if k == j - 1 {
      assert Next(run[k], steps[k], run[j]);
    } else {
      UndisturbedDelivers(run, steps, k, j - 1, w, result);
      InvRun(run, steps, j - 1);
      DeliversStep(run[j - 1], steps[j - 1], run[j], w, result);
    }
  }

  // ----- a worker's exception -----

  /** RUNNING although no worker will ever set the status. */
  ghost predicate Stuck(s: State) {
    s.status == RUNNING && NoneActive(s) && s.pc !in {SetRunning, ClearHalt, Launch, ResetNow}
  }

  lemma StuckStep(s: State, step: Step, s': State)
    requires Stuck(s) && Next(s, step, s')
    ensures Stuck(s') || s'.pc == ResetNow
  {
  }

  lemma HandleSticks(s: State, w: nat, s': State)
    requires Inv(s) && Next(s, Handle(w), s')
    ensures Stuck(s') && s'.exception
  {
  }

  /** The handler was to make the node IDLE.  Since setting IDLE throws there too, a worker that
      ends in the handler leaves the node RUNNING, and so it stays, ticks included, until a parent
      comes to reset it. */
  lemma {:induction false} ExceptionLeavesRunning(run: seq<State>, steps: seq<Step>, i: nat, w: nat, j: nat)
    requires IsRun(run, steps) && i < j < |run| && steps[i] == Handle(w)
    requires forall k :: i < k <= j ==> run[k].pc != ResetNow
    ensures Stuck(run[j])
    decreases j
  {
    if j == i + 1 {
      InvRun(run, steps, i);
      HandleSticks(run[i], w, run[j]);
    } else {
      ExceptionLeavesRunning(run, steps, i, w, j - 1);
      StuckStep(run[j - 1], steps[j - 1], run[j]);
    }
  }

  lemma ExceptionStep(s: State, step: Step, s': State)
    requires Next(s, step, s')
    ensures step.Handle? ==> s'.exception
    ensures step == DoRethrow ==> !s'.exception
    ensures !step.Handle? && step != DoRethrow ==> s'.exception == s.exception
  {
  }

  /** A stored exception waits for the next `executeTick` to throw it again, and is thrown once. */
  lemma {:induction false} ExceptionWaits(run: seq<State>, steps: seq<Step>, i: nat, j: nat)
    requires IsRun(run, steps) && i < j < |run| && (steps[i].Handle? || steps[i] == DoRethrow)
    requires forall k :: i < k < j ==> !steps[k].Handle? && steps[k] != DoRethrow
    ensures run[j].exception <==> steps[i].Handle?
    decreases j
  {
    if j > i + 1 {
      ExceptionWaits(run, steps, i, j - 1);
    }
    ExceptionStep(run[j - 1], steps[j - 1], run[j]);
  }

  /** Such a run: the action is ticked once and its `tick` throws. */
  lemma ExceptionHappens() returns (run: seq<State>, steps: seq<Step>)
    ensures IsRun(run, steps) && Stuck(run[|run| - 1])
  {
    var s0 := State(IDLE, false, false, None, [], Free);
    var s1 := s0.(pc := SetRunning);
    var s2 := s1.(status := RUNNING, pc := ClearHalt);
    var s3 := s2.(pc := Launch);
    var s4 := s3.(workers := [Ticking], pc := Assign(0));
    var s5 := s4.(workers := [Caught]);
    var s6 := s5.(exception := true, workers := [Finished]);
    run := [s0, s1, s2, s3, s4, s5, s6];
    steps := [BeginTick, DoSetRunning, DoClearHalt, DoLaunch, TickThrows(0), Handle(0)];
    assert s3.workers + [Ticking] == s4.workers;
  }
}
