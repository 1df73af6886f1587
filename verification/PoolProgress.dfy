// thread-lib: the pool moves on. When nothing can happen but new calls, it is at rest; work in
// the buffer is taken after a bounded number of steps; and it waits only while all threads run.
module PoolProgress {
  import opened Wrappers
  import opened Sequences
  import opened ThreadPool

  // Calls that begin only now. Everything else moves a call or a pool thread on.
  predicate IsNewCall(a: Action) { a.ScheduleLock? || a.StartCall? || a.StopCall? }

  function NewCalls(actions: seq<Action>): nat {
    if actions == [] then 0
    else NewCalls(actions[..|actions| - 1]) + if IsNewCall(actions[|actions| - 1]) then 1 else 0
  }

  ghost predicate CanProgress(s: State) {
    exists a :: Step(s, a).Some? && !a.Spurious? && !IsNewCall(a)
  }

  // No call is in progress but a stop() that waits for a sleeper, and every worker sleeps or has ended.
  ghost predicate AtRest(s: State) {
    && (forall i :: 0 <= i < |s.schedulers| ==> s.schedulers[i].Idle?)
    && (forall i :: 0 <= i < |s.workers| ==> s.workers[i].Asleep? || s.workers[i].Done?)
    && (forall c :: 0 <= c < |s.controllers| ==> s.controllers[c].Free? || WaitsForSleeper(s, c))
  }

  predicate WaitsForSleeper(s: State, c: nat)
    requires c < |s.controllers|
  {
    && s.controllers[c].Joining? && s.controllers[c].joined < |s.workers|
    && s.workers[s.controllers[c].joined].Asleep?
  }

  // No deadlock: whatever is not at rest can move on, and only that.
  lemma AtRestIff(s: State)
    requires Inv(s)
    ensures AtRest(s) <==> !CanProgress(s)
  {
    if AtRest(s) {
      RestIsFinal(s);
    } else if i: nat :| i < |s.workers| && !s.workers[i].Asleep? && !s.workers[i].Done? {
      WorkerProgress(s, i);
    } else if i: nat :| i < |s.schedulers| && !s.schedulers[i].Idle? {
      SchedulerProgress(s, i);
    } else {
      var c: nat :| c < |s.controllers| && !s.controllers[c].Free? && !WaitsForSleeper(s, c);
      ControllerProgress(s, c);
    }
  }

  lemma RestIsFinal(s: State)
    requires Inv(s) && AtRest(s)
    ensures !CanProgress(s)
  {
    forall a | Step(s, a).Some?
      ensures a.Spurious? || IsNewCall(a)
    {
    }
  }

  // The pool's own steps: neither calls nor the ends of the functions that run.
  ghost predicate PoolCanMove(s: State) {
    exists a :: Step(s, a).Some? && !a.Spurious? && !IsNewCall(a) && !a.Finish?
  }

  lemma OwnerProgress(s: State)
    requires Inv(s) && s.bufferOwner.Some?
    ensures PoolCanMove(s)
  {
    match s.bufferOwner.value
    case WorkerOwner(i) =>
      assert s.workers[i].Holds();
      assert Step(s, match s.workers[i]
                     case Testing => Test(i)
                     case Blocking => Block(i)
                     case Leaving => Leave(i)
                     case Popping => Pop(i)
                     case _ => Release(i)).Some?;
    case SchedulerOwner(i) =>
      assert s.schedulers[i].Holds();
      assert Step(s, if s.schedulers[i].Pushing? then Push(i) else ScheduleUnlock(i)).Some?;
  }

  lemma WorkerProgress(s: State, i: nat)
    requires Inv(s) && i < |s.workers| && !s.workers[i].Asleep? && !s.workers[i].Done?
    ensures if s.workers[i].Running? then Step(s, Finish(i)).Some? else PoolCanMove(s)
  {
    if s.bufferOwner.Some? {
      OwnerProgress(s);
    } else if !s.workers[i].Running? {
      assert !s.workers[i].Holds();
      assert Step(s, match s.workers[i]
                     case Top => Lock(i)
                     case Woken => Relock(i)
                     case _ => Call(i)).Some?;
    }
  }

  lemma SchedulerProgress(s: State, i: nat)
    requires Inv(s) && i < |s.schedulers| && !s.schedulers[i].Idle?
    ensures PoolCanMove(s)
  {
    if s.bufferOwner.Some? {
      OwnerProgress(s);
    } else {
      assert !s.schedulers[i].Holds();
      if j: nat :| j < |s.workers| && s.workers[j].Asleep? {
        assert Step(s, NotifyOne(i, Some(j))).Some?;
      } else {
        assert Step(s, NotifyOne(i, None)).Some?;
      }
    }
  }

  lemma ControllerProgress(s: State, c: nat)
    requires Inv(s) && c < |s.controllers| && !s.controllers[c].Free? && !WaitsForSleeper(s, c)
    ensures CanProgress(s)
  {
    assert s.poolOwner == Some(c);
    match s.controllers[c]
    case Starting(k) =>
      assert Step(s, if k < s.numThreads then Spawn(c) else StartReturn(c)).Some?;
    case Stopping =>
      assert Step(s, SetTerminating(c)).Some?;
    case Flagged =>
      assert Step(s, NotifyAll(c)).Some?;
    case Joining(k) =>
      if k == |s.workers| {
        assert Step(s, StopReturn(c)).Some?;
      } else if s.workers[k].Done? {
        assert Step(s, Join(c)).Some?;
      } else {
        WorkerProgress(s, k);
      }
  }

  // Calls that begin wait for nothing but their mutex.
  lemma CallsCanBegin(s: State, i: nat, f: Func)
    ensures i < |s.schedulers| && s.schedulers[i].Idle? && s.bufferOwner == None ==> Step(s, ScheduleLock(i, f)).Some?
    ensures i < |s.controllers| && s.controllers[i].Free? && s.poolOwner == None ==>
              Step(s, StartCall(i)).Some? && Step(s, StopCall(i)).Some?
  {
  }

  // ---- Buffered work is taken ----

  // How far a worker is from taking the front of the buffer.
  function TakeRank(pc: Worker): nat {
    match pc
    case Grabbed(_, _) => 9
    case Released(_, _) => 8
    case Running(_, _) => 7
    case Top => 6
    case Asleep => 5
    case Woken => 4
    case Testing => 3
    case Leaving => 2
    case Popping => 1
    case _ => 0
  }

  function SchedulerRank(pc: Scheduler): nat {
    match pc
    case Pushing(_) => 3
    case Pushed => 2
    case Notifying => 1
    case Idle => 0
  }

  // What a start() in progress will still add.
  function StartRank(s: State): nat {
    if s.poolOwner.None? || s.poolOwner.value >= |s.controllers| then 0
    else
      match s.controllers[s.poolOwner.value]
      case Starting(k) => if k <= s.numThreads then 7 * (s.numThreads - k) + 1 else 0
      case Stopping => 1
      case _ => 0
  }

  function ToTake(s: State): nat {
    Sum(s.workers, TakeRank) + Sum(s.schedulers, SchedulerRank) + StartRank(s)
  }

  function CallCost(s: State): nat { 7 * s.numThreads + 5 }

  // Work is waiting, and the pool is not being stopped.
  predicate WorkWaits(s: State) { !s.terminating && s.buffer != [] }

  lemma StepNearsTake(s: State, a: Action)
    requires Inv(s) && WorkWaits(s) && s.workers != [] && Step(s, a).Some?
    ensures a.Pop? || a.SetTerminating? || Untaken(s, Step(s, a).value, 1, if IsNewCall(a) then 1 else 0)
  {
    match a
    case ScheduleLock(i, _) => SchedulerNears(s, i, a);
    case Push(i) => SchedulerNears(s, i, a);
    case ScheduleUnlock(i) => SchedulerNears(s, i, a);
    case NotifyOne(i, _) => SchedulerNears(s, i, a);
    case StartCall(c) => ControllerNears(s, c, a);
    case Spawn(c) => ControllerNears(s, c, a);
    case StartReturn(c) => ControllerNears(s, c, a);
    case StopCall(c) => ControllerNears(s, c, a);
    case SetTerminating(_) =>
    case Pop(_) =>
    case Block(_) =>  // not with work in the buffer
    case NotifyAll(c) => ControllerNears(s, c, a);
    case Join(c) => ControllerNears(s, c, a);
    case StopReturn(c) => ControllerNears(s, c, a);
    case _ => WorkerNears(s, a.w, a);
  }

  lemma WorkerNears(s: State, w: nat, a: Action)
    requires Inv(s) && WorkWaits(s) && s.workers != [] && w < |s.workers| && WorkerStep(s, w, a).Some? && !a.Pop?
    ensures Untaken(s, WorkerStep(s, w, a).value, 1, if IsNewCall(a) then 1 else 0)
  {
    var t := WorkerStep(s, w, a).value;
    WorkerFrame(s, w, a);
    SumUpdate(s.workers, TakeRank, w, t.workers[w]);
  }

  lemma SchedulerNears(s: State, i: nat, a: Action)
    requires WorkWaits(s) && s.workers != [] && i < |s.schedulers| && SchedulerStep(s, i, a).Some?
    ensures Untaken(s, SchedulerStep(s, i, a).value, 1, if IsNewCall(a) then 1 else 0)
  {
    var t := SchedulerStep(s, i, a).value;
    SumUpdate(s.schedulers, SchedulerRank, i, t.schedulers[i]);
    if a.NotifyOne? && a.woken.Some? {
      SumUpdate(s.workers, TakeRank, a.woken.value, Woken);
    }
  }

  lemma ControllerNears(s: State, c: nat, a: Action)
    requires PoolInv(s) && WorkWaits(s) && s.workers != []
    requires c < |s.controllers| && ControllerStep(s, c, a).Some? && !a.SetTerminating?
    ensures Untaken(s, ControllerStep(s, c, a).value, 1, if IsNewCall(a) then 1 else 0)
  {
    assert !s.controllers[c].Free? ==> s.poolOwner == Some(c);
    if a.Spawn? {
      assert (s.workers + [Top])[..|s.workers|] == s.workers;
    }
  }

  // Until the front of the buffer is taken or stop() sets its flag, something can always move
  // on, and only so often: a bound on the steps, counting each new call at its cost.
  lemma WorkIsTaken(s: State, later: seq<Action>)
    requires Inv(s) && WorkWaits(s) && s.workers != [] && Run(s, later).Some? && NotTaken(later)
    ensures Untaken(s, Run(s, later).value, |later|, NewCalls(later)) && CanProgress(Run(s, later).value)
  {
    UntakenFor(s, later);
    RunKeepsInv(s, later);
    SomethingMoves(Run(s, later).value);
  }

  predicate NotTaken(later: seq<Action>) {
    forall i :: 0 <= i < |later| ==> !later[i].Pop? && !later[i].SetTerminating?
  }

  // After so many steps and new calls the same work still waits.
  predicate Untaken(s: State, t: State, steps: nat, calls: nat) {
    && WorkWaits(t) && s.buffer <= t.buffer && t.taken == s.taken
    && t.workers != [] && t.numThreads == s.numThreads
    && steps + ToTake(t) <= ToTake(s) + CallCost(s) * calls
  }

  lemma UntakenStep(s: State, t: State, a: Action, u: State, steps: nat, calls: nat)
    requires Untaken(s, t, steps, calls) && MovesTo(t, a, u)
    ensures Untaken(s, u, steps + 1, calls + if IsNewCall(a) then 1 else 0)
  {
    StepNearsTake(t, a);
  }

  lemma UntakenFor(s: State, later: seq<Action>)
    requires Inv(s) && WorkWaits(s) && s.workers != [] && Run(s, later).Some? && NotTaken(later)
    ensures Untaken(s, Run(s, later).value, |later|, NewCalls(later))
  {
    UntakenStart(s);
    UntakenKept(s);
    AlongRun(s, later, UntakenSince(s));
  }

  function UntakenSince(s: State): (State, nat, nat) -> bool {
    (t, steps: nat, calls: nat) => Untaken(s, t, steps, calls)
  }

  lemma UntakenStart(s: State)
    requires WorkWaits(s) && s.workers != []
    ensures Untaken(s, s, 0, 0)
  {
    assert CallCost(s) * 0 == 0;
  }

  lemma UntakenKept(s: State)
    ensures var p := UntakenSince(s);
            forall t, a, u, steps: nat, calls: nat :: p(t, steps, calls) && MovesTo(t, a, u) ==>
              p(u, steps + 1, calls + if IsNewCall(a) then 1 else 0)
  {
    forall t, a, u, steps: nat, calls: nat | Untaken(s, t, steps, calls) && MovesTo(t, a, u)
      ensures Untaken(s, u, steps + 1, calls + if IsNewCall(a) then 1 else 0)
    {
      UntakenStep(s, t, a, u, steps, calls);
    }
  }

  ghost predicate MovesTo(t: State, a: Action, u: State) {
    Inv(t) && Step(t, a) == Some(u) && !a.Pop? && !a.SetTerminating?
  }

  // What each step keeps, a run keeps.
  lemma {:induction false} AlongRun(s: State, later: seq<Action>, p: (State, nat, nat) -> bool)
    requires Inv(s) && p(s, 0, 0) && Run(s, later).Some? && NotTaken(later)
    requires forall t, a, u, steps: nat, calls: nat :: p(t, steps, calls) && MovesTo(t, a, u) ==>
               p(u, steps + 1, calls + if IsNewCall(a) then 1 else 0)
    ensures p(Run(s, later).value, |later|, NewCalls(later))
  {
    if later != [] {
      var n := |later| - 1;
      AlongRun(s, later[..n], p);
      RunKeepsInv(s, later[..n]);
      assert MovesTo(Run(s, later[..n]).value, later[n], Run(s, later).value);
    }
  }

  lemma SomethingMoves(s: State)
    requires Inv(s) && WorkWaits(s) && s.workers != []
    ensures CanProgress(s)
  {
    assert SomeoneAwake(s) || NotifyPending(s);
    AtRestIff(s);
  }

  // ---- Work waits only while every thread runs a function ----

  function Ready(pc: Worker): nat {
    match pc
    case Top => 1
    case Woken => 1
    case Testing => 1
    case Leaving => 1
    case Popping => 1
    case _ => 0
  }

  function Owed(pc: Scheduler): nat { if pc.OwesNotify() then 1 else 0 }

  // While a worker sleeps, every function in the buffer has a worker on its way or a notification to come.
  predicate Covered(s: State) {
    !s.terminating && Asleep in s.workers ==> |s.buffer| <= Sum(s.workers, Ready) + Sum(s.schedulers, Owed)
  }

  lemma StepKeepsCovered(s: State, a: Action)
    requires Inv(s) && Covered(s) && Step(s, a).Some?
    ensures Covered(Step(s, a).value)
  {
    match a
    case ScheduleLock(i, _) => SchedulerKeepsCovered(s, i, a);
    case Push(i) => SchedulerKeepsCovered(s, i, a);
    case ScheduleUnlock(i) => SchedulerKeepsCovered(s, i, a);
    case NotifyOne(i, _) => SchedulerKeepsCovered(s, i, a);
    case StartCall(c) => ControllerKeepsCovered(s, c, a);
    case Spawn(c) => ControllerKeepsCovered(s, c, a);
    case StartReturn(c) => ControllerKeepsCovered(s, c, a);
    case StopCall(c) => ControllerKeepsCovered(s, c, a);
    case SetTerminating(c) => ControllerKeepsCovered(s, c, a);
    case NotifyAll(c) => ControllerKeepsCovered(s, c, a);
    case Join(c) => ControllerKeepsCovered(s, c, a);
    case StopReturn(c) => ControllerKeepsCovered(s, c, a);
    case _ => WorkerKeepsCovered(s, a.w, a);
  }

  lemma WorkerKeepsCovered(s: State, w: nat, a: Action)
    requires QueueInv(s) && Covered(s) && w < |s.workers| && WorkerStep(s, w, a).Some?
    ensures Covered(WorkerStep(s, w, a).value)
  {
    var t := WorkerStep(s, w, a).value;
    WorkerFrame(s, w, a);
    SumUpdate(s.workers, Ready, w, t.workers[w]);
  }

  lemma SchedulerKeepsCovered(s: State, i: nat, a: Action)
    requires Covered(s) && i < |s.schedulers| && SchedulerStep(s, i, a).Some?
    ensures Covered(SchedulerStep(s, i, a).value)
  {
    var t := SchedulerStep(s, i, a).value;
    SumUpdate(s.schedulers, Owed, i, t.schedulers[i]);
    if a.NotifyOne? && a.woken.Some? {
      SumUpdate(s.workers, Ready, a.woken.value, Woken);
    }
  }

  lemma ControllerKeepsCovered(s: State, c: nat, a: Action)
    requires PoolInv(s) && Covered(s) && c < |s.controllers| && ControllerStep(s, c, a).Some?
    ensures Covered(ControllerStep(s, c, a).value)
  {
    assert !s.controllers[c].Free? ==> s.poolOwner == Some(c);
    if a.Spawn? {
      assert (s.workers + [Top])[..|s.workers|] == s.workers;
    }
  }

  lemma {:induction false} RunKeepsCovered(s: State, actions: seq<Action>)
    requires Initial(s) && Run(s, actions).Some?
    ensures Covered(Run(s, actions).value)
  {
    if actions != [] {
      var n := |actions| - 1;
      RunKeepsCovered(s, actions[..n]);
      RunKeepsInv(s, actions[..n]);
      StepKeepsCovered(Run(s, actions[..n]).value, actions[n]);
    }
  }

  // Work waits for the functions that run, and for nothing else: unless the pool itself can
  // move on, every thread of a pool with work in its buffer runs a function.
  lemma WorkConserving(s: State, actions: seq<Action>)
    requires Initial(s) && Run(s, actions).Some?
    ensures var t := Run(s, actions).value;
            WorkWaits(t) && !PoolCanMove(t) ==> forall i :: 0 <= i < |t.workers| ==> t.workers[i].Running?
  {
    var t := Run(s, actions).value;
    RunKeepsInv(s, actions);
    RunKeepsCovered(s, actions);
    if WorkWaits(t) && !PoolCanMove(t) {
      AllRun(t);
    }
  }

  lemma AllRun(s: State)
    requires Inv(s) && Covered(s) && WorkWaits(s) && !PoolCanMove(s)
    ensures forall i :: 0 <= i < |s.workers| ==> s.workers[i].Running?
  {
    forall i: nat | i < |s.workers|
      ensures s.workers[i].Asleep? || s.workers[i].Running?
    {
      if !s.workers[i].Asleep? {
        WorkerProgress(s, i);
      }
    }
    forall i: nat | i < |s.schedulers|
      ensures s.schedulers[i].Idle?
    {
      if !s.schedulers[i].Idle? {
        SchedulerProgress(s, i);
      }
    }
    SumZero(s.workers, Ready);
    SumZero(s.schedulers, Owed);
  }

  // The function taken first is the front of the buffer.
  lemma TakesTheFront(s: State, w: nat)
    requires Step(s, Pop(w)).Some?
    ensures var t := Step(s, Pop(w)).value; t.taken == s.taken + [s.buffer[0]] && t.buffer == s.buffer[1..]
  {
  }
}
