// thread-lib: when stop() returns. Its flag is set without the buffer mutex, so its
// notification can miss a worker; that is the only way in which it can wait forever.
module PoolShutdown {
  import opened Wrappers
  import opened Sequences
  import opened ThreadPool
  import opened PoolProgress

  ghost predicate CanSleep(s: State) {
    exists i :: 0 <= i < |s.workers| && (s.workers[i].Asleep? || s.workers[i].Blocking?)
  }

  // Workers fall asleep past their test, and none passes it once the flag is set.
  lemma StepToSleep(s: State, a: Action, t: State, i: nat)
    requires s.terminating && Step(s, a) == Some(t) && i < |t.workers|
    ensures t.terminating
    ensures t.workers[i].Asleep? ==> i < |s.workers| && (s.workers[i].Asleep? || s.workers[i].Blocking?)
    ensures t.workers[i].Blocking? ==> i < |s.workers| && s.workers[i].Blocking?
  {
  }

  lemma StepKeepsTerminating(s: State, a: Action)
    requires s.terminating && Step(s, a).Some?
    ensures Step(s, a).value.terminating
  {
  }

  // A step cannot put a worker back to sleep once the flag is set and none is past its test.
  lemma StepKeepsRoused(s: State, a: Action, t: State)
    requires s.terminating && !CanSleep(s) && Step(s, a) == Some(t)
    ensures t.terminating && !CanSleep(t)
  {
    StepKeepsTerminating(s, a);
    forall i: nat | i < |t.workers|
      ensures !t.workers[i].Asleep? && !t.workers[i].Blocking?
    {
      StepToSleep(s, a, t, i);
    }
  }

  lemma {:induction false} RunKeepsRoused(s: State, later: seq<Action>)
    requires s.terminating && !CanSleep(s) && Run(s, later).Some?
    ensures Run(s, later).value.terminating && !CanSleep(Run(s, later).value)
  {
    if later != [] {
      var n := |later| - 1;
      RunKeepsRoused(s, later[..n]);
      StepKeepsRoused(Run(s, later[..n]).value, later[n], Run(s, later).value);
    }
  }

  ghost predicate SleepsLater(s: State, later: seq<Action>) {
    Run(s, later).Some? && exists i :: 0 <= i < |Run(s, later).value.workers| && Run(s, later).value.workers[i].Asleep?
  }

  // notify_all in stop() rouses every worker for good exactly when none stands between
  // reading m_terminating as false and going to sleep.
  lemma NotifyAllMissesIff(s: State, c: nat)
    requires Inv(s) && c < |s.controllers| && s.controllers[c].Flagged?
    ensures Step(s, NotifyAll(c)).Some?
    ensures (exists i :: 0 <= i < |s.workers| && s.workers[i].Blocking?)
            <==> (exists later :: SleepsLater(Step(s, NotifyAll(c)).value, later))
  {
    var t := Step(s, NotifyAll(c)).value;
    assert s.terminating by { assert s.poolOwner == Some(c); }
    if i :| 0 <= i < |s.workers| && s.workers[i].Blocking? {
      var later := [Block(i)];
      assert later[..0] == [];
      assert Run(t, later[..0]) == Some(t);
      assert Run(t, later) == Step(t, Block(i));
      assert Run(t, later).value.workers[i].Asleep?;
      assert SleepsLater(t, later);
    } else {
      assert !CanSleep(t);
      forall later | Run(t, later).Some?
        ensures !SleepsLater(t, later)
      {
        RunKeepsRoused(t, later);
      }
    }
  }

  // One worker and one controller: the worker reads the flag, stop() sets it and
  // notifies nobody, and the worker goes to sleep.
  const MISSED_STOP: seq<Action> :=
    [StartCall(0), Spawn(0), StartReturn(0), Lock(0), Test(0), StopCall(0), SetTerminating(0), NotifyAll(0), Block(0)]

  function Snapshot(started: bool, terminating: bool, held: bool, pool: bool, workers: seq<Worker>,
                    controller: Controller): State {
    State(1, started, terminating, [], if held then Some(WorkerOwner(0)) else None, if pool then Some(0) else None,
          workers, [], [controller], [], [], [])
  }

  function MissedStopStates(): seq<State> {
    [ Snapshot(false, false, false, false, [], Free),
      Snapshot(false, false, false, true, [], Starting(0)),
      Snapshot(false, false, false, true, [Top], Starting(1)),
      Snapshot(true, false, false, false, [Top], Free),
      Snapshot(true, false, true, false, [Testing], Free),
      Snapshot(true, false, true, false, [Blocking], Free),
      Snapshot(true, false, true, true, [Blocking], Stopping),
      Snapshot(true, true, true, true, [Blocking], Flagged),
      Snapshot(true, true, true, true, [Blocking], Joining(0)),
      Snapshot(true, true, false, true, [Asleep], Joining(0)) ]
  }

  // After that run nothing but a spurious wake-up is possible: stop() waits in join.
  lemma StopCanWaitForever(init: State)
    requires init == MissedStopStates()[0]
    ensures Initial(init) && Run(init, MISSED_STOP).Some?
    ensures var s := Run(init, MISSED_STOP).value;
            s.controllers == [Joining(0)] && s.workers == [Asleep] && forall a :: Step(s, a).Some? ==> a.Spurious?
  {
    var states := MissedStopStates();
    forall k | 0 <= k < 9
      ensures Step(states[k], MISSED_STOP[k]) == Some(states[k + 1])
    {
      MissedStopStep(k);
    }
    RunThrough(states, MISSED_STOP);
    OnlySpurious(states[9]);
  }

  lemma MissedStopStep(k: nat)
    requires k < 9
    ensures Step(MissedStopStates()[k], MISSED_STOP[k]) == Some(MissedStopStates()[k + 1])
  {
    if k < 3 { StartSpawnsWorker(k); } else if k < 5 { WorkerReadsFlag(k); } else { StopNotifiesNobody(k); }
  }

  lemma StartSpawnsWorker(k: nat)
    requires k < 3
    ensures Step(MissedStopStates()[k], MISSED_STOP[k]) == Some(MissedStopStates()[k + 1])
  {
    match k
    case 0 => assert [Free][0 := Starting(0)] == [Starting(0)];
    case 1 => assert [Starting(0)][0 := Starting(1)] == [Starting(1)] && [] + [Top] == [Top];
    case 2 => assert [Starting(1)][0 := Free] == [Free];
  }

  lemma WorkerReadsFlag(k: nat)
    requires 3 <= k < 5
    ensures Step(MissedStopStates()[k], MISSED_STOP[k]) == Some(MissedStopStates()[k + 1])
  {
    match k
    case 3 => assert [Top][0 := Testing] == [Testing];
    case 4 => assert [Testing][0 := Blocking] == [Blocking];
  }

  lemma StopNotifiesNobody(k: nat)
    requires 5 <= k < 9
    ensures Step(MissedStopStates()[k], MISSED_STOP[k]) == Some(MissedStopStates()[k + 1])
  {
    match k
    case 5 => assert [Free][0 := Stopping] == [Stopping];
    case 6 => assert [Stopping][0 := Flagged] == [Flagged];
    case 7 => assert [Flagged][0 := Joining(0)] == [Joining(0)] && WakeAll([Blocking]) == [Blocking];
    case 8 => assert [Blocking][0 := Asleep] == [Asleep];
  }

  lemma {:induction false} RunThrough(states: seq<State>, actions: seq<Action>)
    requires |states| == |actions| + 1
    requires forall k :: 0 <= k < |actions| ==> Step(states[k], actions[k]) == Some(states[k + 1])
    ensures Run(states[0], actions) == Some(states[|actions|])
  {
    if actions != [] {
      var n := |actions| - 1;
      RunThrough(states[..n + 1], actions[..n]);
    }
  }

  lemma OnlySpurious(s: State)
    requires s.workers == [Asleep] && s.schedulers == [] && s.controllers == [Joining(0)]
    ensures forall a :: Step(s, a).Some? ==> a.Spurious?
  {
  }

  // ---- stop() returns, or is missed ----

  // Inside stop(), after the flag was set.
  predicate InStop(s: State, c: nat) {
    c < |s.controllers| && (s.controllers[c].Flagged? || s.controllers[c].Joining?)
  }

  // stop() waits in join, and nothing but a spurious wake-up or a new call can happen.
  ghost predicate Hung(s: State, c: nat) {
    && c < |s.controllers| && s.controllers[c].Joining?
    && forall a :: Step(s, a).Some? ==> a.Spurious? || IsNewCall(a)
  }

  // How far a thread is from its end, once the flag is set.
  function WorkerRank(pc: Worker): nat {
    match pc
    case Popping => 8
    case Grabbed(_, _) => 7
    case Released(_, _) => 6
    case Running(_, _) => 5
    case Blocking => 5
    case Top => 4
    case Asleep => 4
    case Woken => 3
    case Testing => 2
    case Leaving => 1
    case Done => 0
  }

  function StopRank(s: State, c: nat): nat
    requires c < |s.controllers|
  {
    match s.controllers[c]
    case Flagged => |s.workers| + 2
    case Joining(k) => if k <= |s.workers| then |s.workers| - k + 1 else 0
    case _ => 0
  }

  // What is left to do before stop() returns, if no new call comes.
  function Remaining(s: State, c: nat): nat
    requires c < |s.controllers|
  {
    Sum(s.workers, WorkerRank) + Sum(s.schedulers, SchedulerRank) + StopRank(s, c)
  }

  lemma {:induction false} WakingLowers(ws: seq<Worker>)
    ensures Sum(WakeAll(ws), WorkerRank) <= Sum(ws, WorkerRank)
  {
    if ws != [] {
      var n := |ws| - 1;
      WakingLowers(ws[..n]);
      assert WakeAll(ws)[..n] == WakeAll(ws[..n]);
    }
  }

  // Every step but a new call brings stop() closer to its return; a call of schedule() puts
  // it off by a bounded number of steps, the other calls wait for stop().
  lemma StepLowers(s: State, c: nat, a: Action)
    requires Inv(s) && InStop(s, c) && Step(s, a).Some? && a != StopReturn(c)
    ensures InStop(Step(s, a).value, c)
    ensures Remaining(Step(s, a).value, c) < Remaining(s, c) + if IsNewCall(a) then 4 else 0
  {
    assert s.poolOwner == Some(c) && s.terminating;
    match a
    case ScheduleLock(i, _) => SchedulerLowers(s, c, i, a);
    case Push(i) => SchedulerLowers(s, c, i, a);
    case ScheduleUnlock(i) => SchedulerLowers(s, c, i, a);
    case NotifyOne(i, _) => SchedulerLowers(s, c, i, a);
    case StartCall(d) => ControllerLowers(s, c, d, a);
    case Spawn(d) => ControllerLowers(s, c, d, a);
    case StartReturn(d) => ControllerLowers(s, c, d, a);
    case StopCall(d) => ControllerLowers(s, c, d, a);
    case SetTerminating(d) => ControllerLowers(s, c, d, a);
    case NotifyAll(d) => ControllerLowers(s, c, d, a);
    case Join(d) => ControllerLowers(s, c, d, a);
    case StopReturn(d) => ControllerLowers(s, c, d, a);
    case _ => WorkerLowers(s, c, a.w, a);
  }

  lemma WorkerLowers(s: State, c: nat, w: nat, a: Action)
    requires c < |s.controllers| && s.terminating && w < |s.workers| && WorkerStep(s, w, a).Some?
    ensures WorkerStep(s, w, a).value.controllers == s.controllers
    ensures Remaining(WorkerStep(s, w, a).value, c) < Remaining(s, c)
  {
    var t := WorkerStep(s, w, a).value;
    WorkerFrame(s, w, a);
    SumUpdate(s.workers, WorkerRank, w, t.workers[w]);
  }

  lemma SchedulerLowers(s: State, c: nat, i: nat, a: Action)
    requires c < |s.controllers| && i < |s.schedulers| && SchedulerStep(s, i, a).Some?
    ensures SchedulerStep(s, i, a).value.controllers == s.controllers
    ensures Remaining(SchedulerStep(s, i, a).value, c) < Remaining(s, c) + if IsNewCall(a) then 4 else 0
  {
    var t := SchedulerStep(s, i, a).value;
    SumUpdate(s.schedulers, SchedulerRank, i, t.schedulers[i]);
    if a.NotifyOne? && a.woken.Some? {
      SumUpdate(s.workers, WorkerRank, a.woken.value, Woken);
    }
  }

  lemma ControllerLowers(s: State, c: nat, d: nat, a: Action)
    requires PoolInv(s) && InStop(s, c) && d < |s.controllers| && ControllerStep(s, d, a).Some? && a != StopReturn(c)
    requires a.StopReturn? ==> a == StopReturn(d)
    ensures d == c && InStop(ControllerStep(s, d, a).value, c)
    ensures Remaining(ControllerStep(s, d, a).value, c) < Remaining(s, c)
  {
    assert s.poolOwner == Some(c);
    WakingLowers(s.workers);
  }

  // stop() has returned after so many steps, unless none is possible before.
  lemma {:induction false} StopIsBounded(s: State, c: nat, later: seq<Action>)
    requires Inv(s) && InStop(s, c) && Run(s, later).Some? && StopReturn(c) !in later
    ensures InStop(Run(s, later).value, c)
    ensures |later| + Remaining(Run(s, later).value, c) <= Remaining(s, c) + 4 * NewCalls(later)
  {
    if later != [] {
      var n := |later| - 1;
      StopIsBounded(s, c, later[..n]);
      RunKeepsInv(s, later[..n]);
      StepLowers(Run(s, later[..n]).value, c, later[n]);
    }
  }

  // While stop() joins and no worker sleeps or is about to, some call or thread can move on.
  lemma RousedProgress(s: State, c: nat)
    requires Inv(s) && c < |s.controllers| && s.controllers[c].Joining? && !CanSleep(s)
    ensures CanProgress(s)
  {
    assert s.poolOwner == Some(c);
    var k := s.controllers[c].joined;
    if k < |s.workers| {
      assert !s.workers[k].Asleep?;
    }
    AtRestIff(s);
  }

  ghost predicate NoneBlocking(s: State) {
    forall i :: 0 <= i < |s.workers| ==> !s.workers[i].Blocking?
  }

  // Once the flag is set, workers can be missed only by a notification still to come.
  ghost predicate WillBeRoused(s: State, c: nat) {
    && s.terminating
    && (!CanSleep(s) || (c < |s.controllers| && s.controllers[c].Flagged? && NoneBlocking(s)))
  }

  lemma StepKeepsWillBeRoused(s: State, c: nat, a: Action, t: State)
    requires Inv(s) && WillBeRoused(s, c) && Step(s, a) == Some(t)
    ensures WillBeRoused(t, c)
  {
    if !CanSleep(s) {
      StepKeepsRoused(s, a, t);
    } else {
      assert s.poolOwner == Some(c);
      StepKeepsTerminating(s, a);
      StaysFlagged(s, c, a, t);
      forall i: nat | i < |t.workers|
        ensures !t.workers[i].Blocking? && (a == NotifyAll(c) ==> !t.workers[i].Asleep?)
      {
        StepToSleep(s, a, t, i);
      }
    }
  }

  lemma StaysFlagged(s: State, c: nat, a: Action, t: State)
    requires PoolInv(s) && c < |s.controllers| && s.controllers[c].Flagged? && Step(s, a) == Some(t)
    ensures c < |t.controllers|
    ensures if a == NotifyAll(c) then t.workers == WakeAll(s.workers) else t.controllers[c].Flagged?
  {
    assert s.poolOwner == Some(c);
  }

  lemma {:induction false} RunKeepsWillBeRoused(s: State, c: nat, later: seq<Action>)
    requires Inv(s) && WillBeRoused(s, c) && Run(s, later).Some?
    ensures WillBeRoused(Run(s, later).value, c)
  {
    if later != [] {
      var n := |later| - 1;
      RunKeepsWillBeRoused(s, c, later[..n]);
      RunKeepsInv(s, later[..n]);
      StepKeepsWillBeRoused(Run(s, later[..n]).value, c, later[n], Run(s, later).value);
    }
  }

  // stop() returns if no worker is about to sleep when it notifies: at every point of every
  // run until then some thread or call can move on, and it can do so only so often.
  lemma StopReturnsUnlessMissed(s: State, c: nat, later: seq<Action>)
    requires Inv(s) && c < |s.controllers| && s.controllers[c].Flagged? && NoneBlocking(s)
    requires Run(s, later).Some? && StopReturn(c) !in later
    ensures CanProgress(Run(s, later).value)
    ensures |later| <= Remaining(s, c) + 4 * NewCalls(later)
  {
    var t := Run(s, later).value;
    assert s.poolOwner == Some(c);
    RunKeepsInv(s, later);
    RunKeepsWillBeRoused(s, c, later);
    StopIsBounded(s, c, later);
    if t.controllers[c].Flagged? {
      assert Step(t, NotifyAll(c)).Some?;
    } else {
      RousedProgress(t, c);
    }
  }

  lemma {:induction false} RunAppend(s: State, a: seq<Action>, b: seq<Action>)
    requires Run(s, a).Some?
    ensures Run(s, a + b) == Run(Run(s, a).value, b)
  {
    if b == [] {
      assert a + b == a;
    } else {
      var n := |b| - 1;
      RunAppend(s, a, b[..n]);
      assert (a + b)[..|a + b| - 1] == a + b[..n];
    }
  }

  lemma RunOne(s: State, a: Action)
    ensures Run(s, [a]) == Step(s, a)
  {
    assert [a][..0] == [];
    assert Run(s, [a][..0]) == Some(s);
  }

  // With a worker asleep and no schedule() in progress, the rest of the pool winds down.
  lemma {:induction false} WindDown(s: State, c: nat, w: nat) returns (later: seq<Action>)
    requires Inv(s) && c < |s.controllers| && s.controllers[c].Joining?
    requires w < |s.workers| && s.workers[w].Asleep?
    requires forall i :: 0 <= i < |s.schedulers| ==> s.schedulers[i].Idle?
    ensures Run(s, later).Some? && Hung(Run(s, later).value, c)
    decreases Remaining(s, c)
  {
    if Hung(s, c) {
      later := [];
    } else {
      var a :| Step(s, a).Some? && !a.Spurious? && !IsNewCall(a);
      StaysAsleep(s, c, w, a);
      StepKeepsInv(s, a);
      StepLowers(s, c, a);
      var rest := WindDown(Step(s, a).value, c, w);
      RunOne(s, a);
      RunAppend(s, [a], rest);
      later := [a] + rest;
    }
  }

  lemma StaysAsleep(s: State, c: nat, w: nat, a: Action)
    requires Inv(s) && c < |s.controllers| && s.controllers[c].Joining?
    requires w < |s.workers| && s.workers[w].Asleep?
    requires forall i :: 0 <= i < |s.schedulers| ==> s.schedulers[i].Idle?
    requires Step(s, a).Some? && !a.Spurious? && !IsNewCall(a)
    ensures a != StopReturn(c)
    ensures var t := Step(s, a).value;
            && t.controllers[c].Joining? && t.schedulers == s.schedulers
            && w < |t.workers| && t.workers[w].Asleep?
  {
    assert s.poolOwner == Some(c);
  }

  // While a worker holds the mutex, about to sleep, every notification still owed can be made.
  lemma {:induction false} NotifyFirst(s: State, c: nat, w: nat) returns (later: seq<Action>)
    requires Inv(s) && c < |s.controllers| && s.controllers[c].Flagged?
    requires w < |s.workers| && s.workers[w].Blocking?
    ensures Run(s, later).Some?
    ensures var t := Run(s, later).value;
            && Inv(t) && c < |t.controllers| && t.controllers[c].Flagged?
            && w < |t.workers| && t.workers[w].Blocking?
            && forall i :: 0 <= i < |t.schedulers| ==> t.schedulers[i].Idle?
    decreases Remaining(s, c)
  {
    if i :| 0 <= i < |s.schedulers| && !s.schedulers[i].Idle? {
      assert s.workers[w].Holds() && !s.schedulers[i].Holds();
      var woken := None;
      if j: nat :| j < |s.workers| && s.workers[j].Asleep? {
        woken := Some(j);
      }
      var a := NotifyOne(i, woken);
      assert Step(s, a).Some?;
      StepKeepsInv(s, a);
      StepLowers(s, c, a);
      var rest := NotifyFirst(Step(s, a).value, c, w);
      RunOne(s, a);
      RunAppend(s, [a], rest);
      later := [a] + rest;
    } else {
      later := [];
    }
  }

  // With a worker about to sleep, stop() may notify too early and hang.
  lemma MissedStopHangs(s: State, c: nat, w: nat) returns (later: seq<Action>)
    requires Inv(s) && c < |s.controllers| && s.controllers[c].Flagged?
    requires w < |s.workers| && s.workers[w].Blocking?
    ensures Run(s, later).Some? && Hung(Run(s, later).value, c)
  {
    var first := NotifyFirst(s, c, w);
    var t := Run(s, first).value;
    var u := Step(t, NotifyAll(c)).value;
    StepKeepsInv(t, NotifyAll(c));
    RunOne(t, NotifyAll(c));
    RunAppend(s, first, [NotifyAll(c)]);
    var v := Step(u, Block(w)).value;
    StepKeepsInv(u, Block(w));
    RunOne(u, Block(w));
    RunAppend(s, first + [NotifyAll(c)], [Block(w)]);
    var rest := WindDown(v, c, w);
    RunAppend(s, first + [NotifyAll(c)] + [Block(w)], rest);
    later := first + [NotifyAll(c)] + [Block(w)] + rest;
  }

  // stop() can wait forever exactly if, when it has set the flag, some worker stands between
  // reading it as false and going to sleep.
  lemma StopCanHangIff(s: State, c: nat)
    requires Inv(s) && c < |s.controllers| && s.controllers[c].Flagged?
    ensures !NoneBlocking(s) <==> exists later :: Run(s, later).Some? && Hung(Run(s, later).value, c)
  {
    if !NoneBlocking(s) {
      var w: nat :| w < |s.workers| && s.workers[w].Blocking?;
      var later := MissedStopHangs(s, c, w);
    } else {
      assert s.poolOwner == Some(c);
      forall later | Run(s, later).Some?
        ensures !Hung(Run(s, later).value, c)
      {
        RunKeepsInv(s, later);
        RunKeepsWillBeRoused(s, c, later);
        NotHung(Run(s, later).value, c);
      }
    }
  }

  lemma NotHung(s: State, c: nat)
    requires Inv(s) && WillBeRoused(s, c)
    ensures !Hung(s, c)
  {
    if c < |s.controllers| && s.controllers[c].Joining? {
      RousedProgress(s, c);
    }
  }
}
