/**
  Coroutines of one thread.  A context switch is a change of the current coroutine; the check of the
  stack pointer in `mco_yield` is a parameter.
*/
module Coroutines {
  datatype State = Dead | Normal | Running | Suspended

  datatype Code =
    | Success
    | InvalidCoroutine
    | NotSuspended
    | NotRunning
    | InvalidOperation
    | StackOverflow

  class Coro {
    var state: State
    var prevCo: Coro?

    /** `mco_init` of a valid description. */
    constructor ()
      ensures state == Suspended && prevCo == null
    {
      state, prevCo := Suspended, null;
    }
  }

  // ----- the machine -----

  /** The coroutines that resumed one another, the current one last, and the state of every
      coroutine that exists. */
  datatype Machine = Machine(chain: seq<Coro>, state: map<Coro, State>)

  /** `Return` is the return of the current coroutine's function. */
  datatype Op =
    | Create(made: Coro)
    | Resume(co: Coro?)
    | Yield(co: Coro?, onItsStack: bool)
    | Return
    | Uninit(co: Coro?)
    | Destroy(co: Coro?)

  /** Memory is new when it is created, and not used after it is destroyed. */
  ghost predicate Allowed(m: Machine, op: Op) {
    match op
    case Create(co) => co !in m.state
    case Return => m.chain != []
    case Resume(co) => co != null ==> co in m.state
    case Yield(co, _) => co != null ==> co in m.state
    case Uninit(co) => co != null ==> co in m.state
    case Destroy(co) => co != null ==> co in m.state
  }

  ghost function Top(m: Machine): Coro
    requires m.chain != []
  {
    m.chain[|m.chain| - 1]
  }

  /** The current coroutine leaves the chain in the given state and its resumer runs again. */
  ghost function MachineOut(m: Machine, left: State): Machine
    requires m.chain != []
  {
    var rest := m.chain[..|m.chain| - 1];
    var state := m.state[Top(m) := left];
    Machine(rest, if rest == [] then state else state[rest[|rest| - 1] := Running])
  }

  ghost function MachineIn(m: Machine, co: Coro): Machine {
    var state := if m.chain == [] then m.state else m.state[Top(m) := Normal];
    Machine(m.chain + [co], state[co := Running])
  }

  ghost function Next(m: Machine, op: Op): (Machine, Code)
    requires Allowed(m, op)
  {
    match op
    case Create(co) => (m.(state := m.state[co := Suspended]), Success)
    case Resume(co) =>
      if co == null then (m, InvalidCoroutine)
      else if m.state[co] != Suspended then (m, NotSuspended)
      else (MachineIn(m, co), Success)
    case Yield(co, onItsStack) =>
      if co == null then (m, InvalidCoroutine)
      else if !onItsStack then (m, StackOverflow)
      else if m.state[co] != Running || m.chain == [] then (m, NotRunning)
      else (MachineOut(m, Suspended), Success)
    case Return => (MachineOut(m, Dead), Success)
    case Uninit(co) =>
      if co == null then (m, InvalidCoroutine)
      else if m.state[co] != Suspended && m.state[co] != Dead then (m, InvalidOperation)
      else (m.(state := m.state[co := Dead]), Success)
    case Destroy(co) =>
      if co == null then (m, InvalidCoroutine)
      else if m.state[co] != Suspended && m.state[co] != Dead then (m, InvalidOperation)
      else (m.(state := m.state - {co}), Success)
  }

  /** The chain repeats no coroutine, its last is the only one running, the others in it are the
      normal ones. */
  ghost predicate Inv(m: Machine) {
    && (forall i, j :: 0 <= i < j < |m.chain| ==> m.chain[i] != m.chain[j])
    && (forall i :: 0 <= i < |m.chain| ==>
          && m.chain[i] in m.state
          && m.state[m.chain[i]] == if i == |m.chain| - 1 then Running else Normal)
    && (forall co :: co in m.state && co !in m.chain ==> m.state[co] == Suspended || m.state[co] == Dead)
  }

  lemma InvStep(m: Machine, op: Op)
    requires Inv(m) && Allowed(m, op)
    ensures Inv(Next(m, op).0)
  {
    if op.Resume? && Next(m, op).1 == Success {
      InvJumpIn(m, op.co);
    } else if op.Return? {
      InvJumpOut(m, Dead);
    } else if op.Yield? && Next(m, op).1 == Success {
      InvJumpOut(m, Suspended);
    } else {
      hide MachineIn, MachineOut;
    }
  }

  lemma InvJumpIn(m: Machine, co: Coro)
    requires Inv(m) && co in m.state && m.state[co] == Suspended
    ensures Inv(MachineIn(m, co))
  {
  }

  lemma InvJumpOut(m: Machine, left: State)
    requires Inv(m) && m.chain != [] && (left == Suspended || left == Dead)
    ensures Inv(MachineOut(m, left))
  {
  }

  /** Only the current coroutine can be running: a successful yield is its own. */
  lemma RunningIsCurrent(m: Machine, co: Coro)
    requires Inv(m) && co in m.state && m.state[co] == Running
    ensures m.chain != [] && co == Top(m)
  {
  }

  lemma TopRuns(m: Machine)
    requires Inv(m)
    ensures m.chain != [] ==> Top(m) in m.state && m.state[Top(m)] == Running
  {
  }

  lemma SuspendedIsOutside(m: Machine, co: Coro)
    requires Inv(m) && co in m.state && (m.state[co] == Suspended || m.state[co] == Dead)
    ensures co !in m.chain
  {
  }

  lemma TopIsNotBelow(m: Machine)
    requires Inv(m)
    ensures m.chain != [] ==> Top(m) !in m.chain[..|m.chain| - 1]
    ensures |m.chain| > 1 ==> var below := m.chain[|m.chain| - 2];
              below != Top(m) && below in m.state && m.state[below] == Normal
  {
  }

  // ----- what the operations come to -----

  /** Which operations are refused, by who resumed whom: a coroutine is resumed if it is neither in the
      chain nor dead, yields if it is the current one, and is ended from outside if it is not in the
      chain.  What is refused changes nothing. */
  lemma RefusedExactly(m: Machine, op: Op)
    requires Inv(m) && Allowed(m, op)
    ensures var (m', code) := Next(m, op);
            && (code != Success ==> m' == m)
            && match op
               case Create(_) => code == Success
               case Return => code == Success
               case Resume(co) =>
                 code == if co == null then InvalidCoroutine
                         else if co in m.chain || m.state[co] == Dead then NotSuspended
                         else Success
               case Yield(co, onItsStack) =>
                 code == if co == null then InvalidCoroutine
                         else if !onItsStack then StackOverflow
                         else if m.chain == [] || co != Top(m) then NotRunning
                         else Success
               case Uninit(co) =>
                 code == if co == null then InvalidCoroutine else if co in m.chain then InvalidOperation else Success
               case Destroy(co) =>
                 code == if co == null then InvalidCoroutine else if co in m.chain then InvalidOperation else Success
  {
    hide MachineIn, MachineOut;
    if op.Yield? && op.co != null && m.state[op.co] == Running {
      RunningIsCurrent(m, op.co);
    }
    TopRuns(m);
  }

  /** A coroutine that is resumed and yields, or yields and is resumed, leaves everything as it was. */
  lemma ThereAndBack(m: Machine, co: Coro)
    requires Inv(m) && co in m.state
    ensures Next(m, Resume(co)).1 == Success ==>
              Next(m, Resume(co)).0 != m && Next(Next(m, Resume(co)).0, Yield(co, true)) == (m, Success)
    ensures Next(m, Yield(co, true)).1 == Success ==>
              Next(m, Yield(co, true)).0 != m && Next(Next(m, Yield(co, true)).0, Resume(co)) == (m, Success)
  {
    hide Inv;
    if m.state[co] == Suspended {
      SuspendedIsOutside(m, co);
      TopRuns(m);
      InThenOut(m, co);
    }
    if m.state[co] == Running {
      RunningIsCurrent(m, co);
      TopIsNotBelow(m);
      OutThenIn(m);
    }
  }

  lemma InThenOut(m: Machine, co: Coro)
    requires co !in m.chain && co in m.state && m.state[co] == Suspended
    requires m.chain != [] ==> Top(m) in m.state && m.state[Top(m)] == Running
    ensures MachineOut(MachineIn(m, co), Suspended) == m
  {
    var m' := MachineIn(m, co);
    assert m'.chain[..|m.chain|] == m.chain && Top(m') == co;
    assert m.chain != [] ==> Top(m) in m.chain;
  }

  lemma OutThenIn(m: Machine)
    requires m.chain != [] && Top(m) in m.state && m.state[Top(m)] == Running
    requires Top(m) !in m.chain[..|m.chain| - 1]
    requires |m.chain| > 1 ==> var below := m.chain[|m.chain| - 2];
             below != Top(m) && below in m.state && m.state[below] == Normal
    ensures MachineIn(MachineOut(m, Suspended), Top(m)) == m
  {
    assert m.chain == m.chain[..|m.chain| - 1] + [Top(m)];
  }

  /** What is created can be resumed, what is ended from outside is dead, and what is destroyed is gone. */
  lemma MadeAndEnded(m: Machine, co: Coro)
    requires Inv(m)
    ensures co !in m.state ==> Next(Next(m, Create(co)).0, Resume(co)).1 == Success
    ensures co in m.state && co !in m.chain ==>
              && Next(m, Uninit(co)) == (m.(state := m.state[co := Dead]), Success)
              && Next(m, Destroy(co)) == (m.(state := m.state - {co}), Success)
  {
  }

  // ----- runs -----

  ghost predicate IsRun(ms: seq<Machine>, ops: seq<Op>) {
    && |ms| == |ops| + 1
    && forall i :: 0 <= i < |ops| ==> Allowed(ms[i], ops[i]) && ms[i + 1] == Next(ms[i], ops[i]).0
  }

  lemma {:induction false} InvRun(ms: seq<Machine>, ops: seq<Op>, k: nat)
    requires IsRun(ms, ops) && Inv(ms[0]) && k < |ms|
    ensures Inv(ms[k])
  {
    if k > 0 {
      InvRun(ms, ops, k - 1);
      InvStep(ms[k - 1], ops[k - 1]);
    }
  }

  /** What is below a depth that the chain never goes under stays as it is. */
  lemma {:induction false} BelowStays(ms: seq<Machine>, ops: seq<Op>, n: nat, j: nat, k: nat)
    requires IsRun(ms, ops) && j <= k < |ms|
    requires forall i :: j <= i <= k ==> |ms[i].chain| >= n
    ensures ms[k].chain[..n] == ms[j].chain[..n]
    decreases k
  {
    if j < k {
      BelowStays(ms, ops, n, j, k - 1);
      assert ms[k] == Next(ms[k - 1], ops[k - 1]).0;
    }
  }

  /** Once dead, a coroutine stays dead as long as it exists. */
  lemma {:induction false} DeadStaysDead(ms: seq<Machine>, ops: seq<Op>, co: Coro, k: nat)
    requires IsRun(ms, ops) && Inv(ms[0]) && k < |ms|
    requires forall i :: 0 <= i <= k ==> co in ms[i].state
    requires ms[0].state[co] == Dead
    ensures ms[k].state[co] == Dead
  {
    if k > 0 {
      DeadStaysDead(ms, ops, co, k - 1);
      InvRun(ms, ops, k - 1);
      assert ms[k] == Next(ms[k - 1], ops[k - 1]).0;
    }
  }

  /** When control first leaves a resumed coroutine for below, it was that coroutine which yielded or
      returned, and it is its resumer, with the resumer's own resumers as they were, that runs again. */
  lemma {:induction false} YieldReturnsToResumer(ms: seq<Machine>, ops: seq<Op>)
    requires IsRun(ms, ops) && Inv(ms[0]) && |ops| > 0
    requires ops[0].Resume? && Next(ms[0], ops[0]).1 == Success
    requires forall i :: 0 < i < |ops| ==> |ms[i].chain| > |ms[0].chain|
    requires |ms[|ops|].chain| == |ms[0].chain|
    ensures ms[|ops|].chain == ms[0].chain
    ensures ms[0].chain != [] ==> Top(ms[0]) in ms[|ops|].state && ms[|ops|].state[Top(ms[0])] == Running
    ensures var last := ops[|ops| - 1];
            && (last.Yield? || last.Return?)
            && (last.Yield? ==> last.co == ops[0].co)
            && ops[0].co in ms[|ops|].state
            && ms[|ops|].state[ops[0].co] == if last.Yield? then Suspended else Dead
  {
    hide Inv, MachineIn, MachineOut;
    var k := |ops|;
    InvRun(ms, ops, k - 1);
    InvRun(ms, ops, k);
    ChainComesBack(ms, ops);
    LeavingStep(ms[k - 1], ops[k - 1]);
    TopRuns(ms[k]);
  }

  lemma {:induction false} ChainComesBack(ms: seq<Machine>, ops: seq<Op>)
    requires IsRun(ms, ops) && |ops| > 0
    requires ops[0].Resume? && Next(ms[0], ops[0]).1 == Success
    requires forall i :: 0 < i < |ops| ==> |ms[i].chain| > |ms[0].chain|
    requires |ms[|ops|].chain| == |ms[0].chain|
    ensures |ops| > 1 && ms[|ops| - 1].chain == ms[0].chain + [ops[0].co] && ms[|ops|].chain == ms[0].chain
  {
    hide Inv;
    var n, k := |ms[0].chain|, |ops|;
    assert ms[1] == Next(ms[0], ops[0]).0;
    BelowStays(ms, ops, n, 0, k);
    assert ms[k].chain == ms[k].chain[..n] == ms[0].chain[..n] == ms[0].chain;
    BelowStays(ms, ops, n + 1, 1, k - 1);
    assert ms[k] == Next(ms[k - 1], ops[k - 1]).0;
    assert ms[k - 1].chain == ms[k - 1].chain[..n + 1];
    assert ms[1].chain == ms[1].chain[..n + 1];
  }

  /** The step that makes the chain shorter is the current coroutine's. */
  lemma LeavingStep(m: Machine, op: Op)
    requires Inv(m) && Allowed(m, op) && |Next(m, op).0.chain| < |m.chain|
    ensures op.Yield? || op.Return?
    ensures op.Yield? ==> op.co == Top(m)
    ensures Top(m) in Next(m, op).0.state
    ensures Next(m, op).0.state[Top(m)] == if op.Yield? then Suspended else Dead
  {
    if op.Yield? {
      RunningIsCurrent(m, op.co);
    }
    TopIsNotBelow(m);
  }

  // ----- the heap -----

  /** The coroutine under this one in the chain, null at its bottom and outside it. */
  ghost function Resumer(chain: seq<Coro>, co: Coro): Coro? {
    if chain == [] then null
    else if chain[|chain| - 1] != co then Resumer(chain[..|chain| - 1], co)
    else if |chain| == 1 then null else chain[|chain| - 2]
  }

  lemma {:induction false} ResumerAt(chain: seq<Coro>, co: Coro)
    ensures co !in chain ==> Resumer(chain, co) == null
    ensures Resumer(chain, co) != null ==> Resumer(chain, co) in chain
  {
    if chain != [] {
      ResumerAt(chain[..|chain| - 1], co);
    }
  }

  lemma ResumerOnTop(chain: seq<Coro>, co: Coro)
    ensures Resumer(chain + [co], co) == if chain == [] then null else chain[|chain| - 1]
    ensures forall x :: x != co ==> Resumer(chain + [co], x) == Resumer(chain, x)
  {
  }

  /** The thread's `mco_current_co`; `chain` and `coros` are what its `prev_co` links mean. */
  class Thread {
    var current: Coro?
    ghost var chain: seq<Coro>
    ghost var coros: set<Coro>

    ghost function Abs(): Machine
      reads this, coros
    {
      Machine(chain, map co | co in coros :: co.state)
    }

    ghost predicate Valid()
      reads this, coros
    {
      && Inv(Abs())
      && current == (if chain == [] then null else chain[|chain| - 1])
      && (forall co :: co in coros ==> co.prevCo == Resumer(chain, co))
    }

    constructor ()
      ensures Valid() && Abs() == Machine([], map[])
    {
      current, chain, coros := null, [], {};
    }

    method Create() returns (co: Coro)
      requires Valid()
      modifies this
      ensures Valid() && fresh(co) && coros == old(coros) + {co}
      ensures Allowed(old(Abs()), Op.Create(co)) && (Abs(), Success) == Next(old(Abs()), Op.Create(co))
    {
      co := new Coro();
      ResumerAt(chain, co);
      coros := coros + {co};
      assert Abs().state == old(Abs()).state[co := Suspended];
      InvStep(old(Abs()), Op.Create(co));
    }

    /** `_mco_prepare_jumpin`; the assertions are the source's. */
    method JumpIn(co: Coro)
      requires co in coros && co !in chain && co.prevCo == null
      requires current == (if chain == [] then null else chain[|chain| - 1])
      requires current != null ==> current in coros && current.state == Running
      modifies this`current, this`chain, co`prevCo, {current}`state
      ensures current == co && chain == old(chain) + [co] && co.prevCo == old(current)
      ensures old(current) != null ==> old(current).state == Normal
    {
      var prevCo := current;
      assert co.prevCo == null;
      co.prevCo := prevCo;
      if prevCo != null {
        assert prevCo.state == Running;
        prevCo.state := Normal;
      }
      current := co;
      chain := chain + [co];
    }

    /** `_mco_prepare_jumpout`; the assertions are commented out in the source. */
    method JumpOut(co: Coro)
      requires co in coros && co == current && chain != [] && chain[|chain| - 1] == co
      requires co.prevCo == if |chain| == 1 then null else chain[|chain| - 2]
      requires co.prevCo != null ==> co.prevCo in coros && co.prevCo.state == Normal
      modifies this`current, this`chain, co`prevCo, {co.prevCo}`state
      ensures current == old(co.prevCo) && chain == old(chain)[..|old(chain)| - 1] && co.prevCo == null
      ensures current != null ==> current.state == Running
    {
      assert current == co;
      var prevCo := co.prevCo;
      co.prevCo := null;
      if prevCo != null {
        assert prevCo.state == Normal;
        prevCo.state := Running;
      }
      current := prevCo;
      chain := chain[..|chain| - 1];
    }

    /** `mco_resume`. */
    method Resume(co: Coro?) returns (code: Code)
      requires Valid() && Allowed(Abs(), Op.Resume(co))
      modifies this`current, this`chain, coros
      ensures Valid() && (Abs(), code) == Next(old(Abs()), Op.Resume(co))
    {
      hide Inv, MachineIn;
      if co == null {
        return InvalidCoroutine;
      }
      if co.state != Suspended {
        return NotSuspended;
      }
      assert Abs().state[co] == Suspended;
      Enter(co);
      return Success;
    }

    /** A suspended coroutine is set to run and jumped into. */
    method Enter(co: Coro)
      requires Valid() && co in coros && Abs().state[co] == Suspended
      modifies this`current, this`chain, coros
      ensures Valid() && Abs() == MachineIn(old(Abs()), co)
    {
      hide Inv, Resumer;
      ghost var m := Abs();
      SuspendedIsOutside(m, co);
      TopRuns(m);
      ResumerAt(chain, co);
      co.state := Running;
      JumpIn(co);
      ResumerOnTop(m.chain, co);
      assert Abs().state == MachineIn(m, co).state;
      InvJumpIn(m, co);
    }

    /** `mco_yield`; `onItsStack` is the outcome of the stack overflow check. */
    method Yield(co: Coro?, onItsStack: bool) returns (code: Code)
      requires Valid() && Allowed(Abs(), Op.Yield(co, onItsStack))
      modifies this`current, this`chain, coros
      ensures Valid() && (Abs(), code) == Next(old(Abs()), Op.Yield(co, onItsStack))
      ensures code == Success ==> co == old(current) && current == old(co.prevCo)
    {
      if co == null {
        return InvalidCoroutine;
      }
      if !onItsStack {
        return StackOverflow;
      }
      if co.state != Running {
        return NotRunning;
      }
      ghost var m := Abs();
      assert m.state[co] == Running;
      RunningIsCurrent(m, co);
      Leave(co, Suspended);
      return Success;
    }

    /** The end of `_mco_main`, when the coroutine's function has returned. */
    method Finish()
      requires Valid() && Allowed(Abs(), Op.Return)
      modifies this`current, this`chain, coros
      ensures Valid() && Abs() == Next(old(Abs()), Op.Return).0
    {
      Leave(current, Dead);
    }

    /** The current coroutine sets its state and jumps out. */
    method Leave(co: Coro, left: State)
      requires Valid() && co == current && (left == Suspended || left == Dead)
      modifies this`current, this`chain, coros
      ensures Valid() && Abs() == MachineOut(old(Abs()), left)
      ensures current == old(co.prevCo)
    {
      hide Inv;
      ghost var m := Abs();
      TopIsNotBelow(m);
      TopRuns(m);
      ResumerAt(m.chain[..|m.chain| - 1], co);
      co.state := left;
      assert co.prevCo != null ==> co.prevCo in m.state && m.state[co.prevCo] == Normal;
      JumpOut(co);
      assert Abs().state == MachineOut(m, left).state;
      InvJumpOut(m, left);
    }

    /** `mco_uninit`. */
    method Uninit(co: Coro?) returns (code: Code)
      requires Valid() && Allowed(Abs(), Op.Uninit(co))
      modifies coros`state
      ensures Valid() && (Abs(), code) == Next(old(Abs()), Op.Uninit(co))
    {
      if co == null {
        return InvalidCoroutine;
      }
      if !(co.state == Suspended || co.state == Dead) {
        return InvalidOperation;
      }
      hide Inv;
      ghost var m := Abs();
      co.state := Dead;
      assert Abs().state == m.state[co := Dead];
      InvStep(m, Op.Uninit(co));
      return Success;
    }

    /** `mco_destroy`. */
    method Destroy(co: Coro?) returns (code: Code)
      requires Valid() && Allowed(Abs(), Op.Destroy(co))
      modifies this`coros, coros`state
      ensures Valid() && (Abs(), code) == Next(old(Abs()), Op.Destroy(co))
      ensures coros == if code == Success then old(coros) - {co} else old(coros)
    {
      hide Inv;
      code := Uninit(co);
      if code == Success {
        ghost var m := Abs();
        coros := coros - {co};
        assert Abs().state == m.state - {co};
        assert m.state - {co} == old(Abs()).state - {co};
        InvStep(old(Abs()), Op.Destroy(co));
      }
    }
  }
}
