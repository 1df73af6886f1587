// thread-lib: what a state of the pool says about the calls and steps that led to it.
module PoolHistory {
  import opened Wrappers
  import opened ThreadPool

  // The functions of the calls of schedule(), in the order in which these got the buffer mutex.
  function Scheduled(actions: seq<Action>): seq<Func> {
    if actions == [] then []
    else
      var last := actions[|actions| - 1];
      Scheduled(actions[..|actions| - 1]) + if last.ScheduleLock? then [last.func] else []
  }

  // The function that a call of schedule() is about to push.
  function InHand(s: State): seq<Func> {
    match s.bufferOwner
    case Some(SchedulerOwner(i)) =>
      if i < |s.schedulers| && s.schedulers[i].Pushing? then [s.schedulers[i].func] else []
    case _ => []
  }

  function Pops(actions: seq<Action>): nat {
    if actions == [] then 0
    else Pops(actions[..|actions| - 1]) + if actions[|actions| - 1].Pop? then 1 else 0
  }

  function Begins(actions: seq<Action>): nat {
    if actions == [] then 0
    else Begins(actions[..|actions| - 1]) + if actions[|actions| - 1].Call? then 1 else 0
  }

  ghost predicate FlagWasSet(actions: seq<Action>) {
    exists i :: 0 <= i < |actions| && actions[i].SetTerminating?
  }

  // What one step adds.
  ghost predicate Adds(s: State, a: Action, t: State) {
    && t.order + InHand(t) == s.order + InHand(s) + (if a.ScheduleLock? then [a.func] else [])
    && |t.taken| == |s.taken| + (if a.Pop? then 1 else 0)
    && |t.begun| == |s.begun| + (if a.Call? then 1 else 0)
    && (t.terminating <==> s.terminating || a.SetTerminating?)
    && t.numThreads == s.numThreads
  }

  lemma StepAdds(s: State, a: Action)
    requires MutexInv(s) && PoolInv(s) && Step(s, a).Some?
    ensures Adds(s, a, Step(s, a).value)
  {
    match a
    case ScheduleLock(i, _) => SchedulerAdds(s, i, a);
    case Push(i) => SchedulerAdds(s, i, a);
    case ScheduleUnlock(i) => SchedulerAdds(s, i, a);
    case NotifyOne(i, _) => SchedulerAdds(s, i, a);
    case StartCall(c) => ControllerAdds(s, c, a);
    case Spawn(c) => ControllerAdds(s, c, a);
    case StartReturn(c) => ControllerAdds(s, c, a);
    case StopCall(c) => ControllerAdds(s, c, a);
    case SetTerminating(c) => ControllerAdds(s, c, a);
    case NotifyAll(c) => ControllerAdds(s, c, a);
    case Join(c) => ControllerAdds(s, c, a);
    case StopReturn(c) => ControllerAdds(s, c, a);
    case _ => WorkerAdds(s, a.w, a);
  }

  lemma WorkerAdds(s: State, w: nat, a: Action)
    requires MutexInv(s) && w < |s.workers| && WorkerStep(s, w, a).Some?
    ensures Adds(s, a, WorkerStep(s, w, a).value)
  {
    WorkerFrame(s, w, a);
    WorkerMutex(s, w, a);
    assert InHand(WorkerStep(s, w, a).value) == InHand(s);
  }

  lemma SchedulerAdds(s: State, i: nat, a: Action)
    requires MutexInv(s) && i < |s.schedulers| && SchedulerStep(s, i, a).Some?
    requires a.ScheduleLock? ==> a.s == i
    ensures Adds(s, a, SchedulerStep(s, i, a).value)
  {
    assert s.schedulers[i].Pushing? ==> InHand(s) == [s.schedulers[i].func];
  }

  lemma ControllerAdds(s: State, c: nat, a: Action)
    requires MutexInv(s) && c < |s.controllers| && ControllerStep(s, c, a).Some?
    ensures Adds(s, a, ControllerStep(s, c, a).value)
  {
  }

  // The state accounts for the calls of the run: each function scheduled is where it belongs in
  // the queue, as many were taken and begun as the run shows, and the flag is set by stop() alone.
  ghost predicate AccountsFor(init: State, actions: seq<Action>, t: State) {
    && t.order + InHand(t) == Scheduled(actions)
    && |t.taken| == Pops(actions) && |t.begun| == Begins(actions)
    && (t.terminating <==> FlagWasSet(actions)) && t.numThreads == init.numThreads
  }

  lemma AccountsNext(init: State, actions: seq<Action>, s: State, t: State)
    requires actions != []
    requires var n := |actions| - 1; AccountsFor(init, actions[..n], s) && Adds(s, actions[n], t)
    ensures AccountsFor(init, actions, t)
  {
    FlagStep(actions);
  }

  lemma {:induction false} StateAccounts(init: State, actions: seq<Action>)
    requires Initial(init) && Run(init, actions).Some?
    ensures AccountsFor(init, actions, Run(init, actions).value)
    ensures var t := Run(init, actions).value; t.taken + t.buffer + InHand(t) == Scheduled(actions)
  {
    if actions != [] {
      var n := |actions| - 1;
      var t := Run(init, actions[..n]).value;
      StateAccounts(init, actions[..n]);
      RunKeepsInv(init, actions[..n]);
      StepAdds(t, actions[n]);
      AccountsNext(init, actions, t, Run(init, actions).value);
    }
    RunKeepsInv(init, actions);
  }

  lemma FlagStep(actions: seq<Action>)
    requires actions != []
    ensures var n := |actions| - 1; FlagWasSet(actions) <==> FlagWasSet(actions[..n]) || actions[n].SetTerminating?
  {
    var n := |actions| - 1;
    if i :| 0 <= i < n && actions[i].SetTerminating? {
      assert actions[..n][i] == actions[i];
    }
  }

  // A started pool has all its threads, and they live until stop() sets the flag.
  lemma StartedPoolHasAll(init: State, actions: seq<Action>)
    requires Initial(init) && Run(init, actions).Some?
    ensures var t := Run(init, actions).value;
            && (t.started ==> |t.workers| == init.numThreads)
            && (!FlagWasSet(actions) ==> forall i :: 0 <= i < |t.workers| ==> !t.workers[i].Done?)
  {
    RunKeepsInv(init, actions);
    StateAccounts(init, actions);
  }
}
