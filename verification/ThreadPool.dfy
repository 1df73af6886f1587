// thread-lib: the thread pool as a system of atomic steps. Each critical section,
// each read or write outside one, and each wait is a step of its own, so a run is
// any interleaving of workers, schedulers and callers of start() and stop().
module ThreadPool {
  import opened Wrappers
  import opened Sequences

  // A scheduled std::function; only its identity matters.
  datatype Func = Func(id: int)

  // Where a pool thread is inside waitAndProcess. A ticket is a position in the schedule order.
  datatype Worker =
    | Top                                // about to lock the buffer mutex
    | Testing                            // holds it, about to evaluate the wait predicate
    | Blocking                           // predicate was false, about to release and sleep
    | Asleep                             // waiting on the condition variable
    | Woken                              // notified, about to lock again
    | Leaving                            // predicate was true, about to read m_terminating
    | Popping                            // about to take the front of the buffer
    | Grabbed(ticket: nat, func: Func)   // took it, still holds the mutex
    | Released(ticket: nat, func: Func)  // about to call it
    | Running(ticket: nat, func: Func)
    | Done
  {
    predicate Holds() { Testing? || Blocking? || Leaving? || Popping? || Grabbed? }
    predicate Awake() { !Asleep? && !Done? }
    predicate HasTicket() { Grabbed? || Released? || Running? }
  }

  // A thread inside schedule().
  datatype Scheduler = Idle | Pushing(func: Func) | Pushed | Notifying
  {
    predicate Holds() { Pushing? || Pushed? }
    predicate OwesNotify() { Pushed? || Notifying? }
  }

  // A thread inside start() or stop(); all but Free hold the pool mutex.
  datatype Controller = Free | Starting(created: nat) | Stopping | Flagged | Joining(joined: nat)

  datatype Owner = WorkerOwner(w: nat) | SchedulerOwner(s: nat)

  datatype State = State(
    numThreads: nat,
    started: bool,
    terminating: bool,
    buffer: seq<Func>,
    bufferOwner: Option<Owner>,
    poolOwner: Option<nat>,
    workers: seq<Worker>,
    schedulers: seq<Scheduler>,
    controllers: seq<Controller>,
    // History: everything pushed, everything popped, and the tickets of the calls begun
    order: seq<Func>,
    taken: seq<Func>,
    begun: seq<nat>)

  datatype Action =
    | Lock(w: nat) | Test(w: nat) | Block(w: nat) | Spurious(w: nat) | Relock(w: nat)
    | Leave(w: nat) | Pop(w: nat) | Release(w: nat) | Call(w: nat) | Finish(w: nat)
    | ScheduleLock(s: nat, func: Func) | Push(s: nat) | ScheduleUnlock(s: nat) | NotifyOne(s: nat, woken: Option<nat>)
    | StartCall(c: nat) | Spawn(c: nat) | StartReturn(c: nat)
    | StopCall(c: nat) | SetTerminating(c: nat) | NotifyAll(c: nat) | Join(c: nat) | StopReturn(c: nat)

  // A pool that was constructed but not started, with any number of client threads.
  predicate Initial(s: State) {
    && s.numThreads > 0 && !s.started && !s.terminating
    && s.buffer == [] && s.bufferOwner == None && s.poolOwner == None && s.workers == []
    && (forall i :: 0 <= i < |s.schedulers| ==> s.schedulers[i] == Idle)
    && (forall i :: 0 <= i < |s.controllers| ==> s.controllers[i] == Free)
    && s.order == [] && s.taken == [] && s.begun == []
  }

  function WakeAll(ws: seq<Worker>): (r: seq<Worker>)
    ensures |r| == |ws|
    ensures forall i :: 0 <= i < |ws| ==> r[i] == if ws[i] == Asleep then Woken else ws[i]
  {
    seq(|ws|, i requires 0 <= i < |ws| => if ws[i] == Asleep then Woken else ws[i])
  }

  function SetWorker(s: State, w: nat, pc: Worker): State
    requires w < |s.workers|
  {
    s.(workers := s.workers[w := pc])
  }

  function WorkerStep(s: State, w: nat, a: Action): Option<State>
    requires w < |s.workers|
  {
    var pc := s.workers[w];
    match a
    case Lock(_) =>
      if pc.Top? && s.bufferOwner == None then Some(SetWorker(s, w, Testing).(bufferOwner := Some(WorkerOwner(w))))
      else None
    case Test(_) =>
      if pc.Testing? then Some(SetWorker(s, w, if s.buffer != [] || s.terminating then Leaving else Blocking)) else None
    case Block(_) =>
      if pc.Blocking? then Some(SetWorker(s, w, Asleep).(bufferOwner := None)) else None
    case Spurious(_) =>
      if pc.Asleep? then Some(SetWorker(s, w, Woken)) else None
    case Relock(_) =>
      if pc.Woken? && s.bufferOwner == None then Some(SetWorker(s, w, Testing).(bufferOwner := Some(WorkerOwner(w))))
      else None
    case Leave(_) =>
      if !pc.Leaving? then None
      else if s.terminating then Some(SetWorker(s, w, Done).(bufferOwner := None))
      else Some(SetWorker(s, w, Popping))
    case Pop(_) =>
      // Popping an empty queue is undefined in the source; the invariant shows it never happens.
      if pc.Popping? && s.buffer != [] then
        Some(SetWorker(s, w, Grabbed(|s.taken|, s.buffer[0])).
          (buffer := s.buffer[1..], taken := s.taken + [s.buffer[0]]))
      else None
    case Release(_) =>
      if pc.Grabbed? then Some(SetWorker(s, w, Released(pc.ticket, pc.func)).(bufferOwner := None)) else None
    case Call(_) =>
      if pc.Released? then Some(SetWorker(s, w, Running(pc.ticket, pc.func)).(begun := s.begun + [pc.ticket])) else None
    case Finish(_) =>
      if pc.Running? then Some(SetWorker(s, w, Top)) else None
    case _ => None
  }

  function SchedulerStep(s: State, i: nat, a: Action): Option<State>
    requires i < |s.schedulers|
  {
    var pc := s.schedulers[i];
    match a
    case ScheduleLock(_, f) =>
      if pc.Idle? && s.bufferOwner == None then
        Some(s.(schedulers := s.schedulers[i := Pushing(f)], bufferOwner := Some(SchedulerOwner(i))))
      else None
    case Push(_) =>
      if pc.Pushing? then
        Some(s.(schedulers := s.schedulers[i := Pushed], buffer := s.buffer + [pc.func], order := s.order + [pc.func]))
      else None
    case ScheduleUnlock(_) =>
      if pc.Pushed? then Some(s.(schedulers := s.schedulers[i := Notifying], bufferOwner := None)) else None
    case NotifyOne(_, woken) =>
      if !pc.Notifying? then None
      else if woken.None? then
        if Asleep in s.workers then None else Some(s.(schedulers := s.schedulers[i := Idle]))
      else if woken.value < |s.workers| && s.workers[woken.value].Asleep? then
        Some(SetWorker(s, woken.value, Woken).(schedulers := s.schedulers[i := Idle]))
      else None
    case _ => None
  }

  function ControllerStep(s: State, c: nat, a: Action): Option<State>
    requires c < |s.controllers|
  {
    var pc := s.controllers[c];
    match a
    case StartCall(_) =>
      if !pc.Free? || s.poolOwner != None then None
      else if s.started then Some(s)
      else Some(s.(controllers := s.controllers[c := Starting(0)], poolOwner := Some(c)))
    case Spawn(_) =>
      if pc.Starting? && pc.created < s.numThreads then
        Some(s.(controllers := s.controllers[c := Starting(pc.created + 1)], workers := s.workers + [Top]))
      else None
    case StartReturn(_) =>
      if pc.Starting? && pc.created == s.numThreads then
        Some(s.(controllers := s.controllers[c := Free], poolOwner := None, started := true))
      else None
    case StopCall(_) =>
      if !pc.Free? || s.poolOwner != None then None
      else if !s.started then Some(s)
      else Some(s.(controllers := s.controllers[c := Stopping], poolOwner := Some(c)))
    case SetTerminating(_) =>
      // Written without the buffer mutex.
      if pc.Stopping? then Some(s.(controllers := s.controllers[c := Flagged], terminating := true)) else None
    case NotifyAll(_) =>
      if pc.Flagged? then Some(s.(controllers := s.controllers[c := Joining(0)], workers := WakeAll(s.workers)))
      else None
    case Join(_) =>
      if pc.Joining? && pc.joined < |s.workers| && s.workers[pc.joined].Done? then
        Some(s.(controllers := s.controllers[c := Joining(pc.joined + 1)]))
      else None
    case StopReturn(_) =>
      if pc.Joining? && pc.joined == |s.workers| then
        Some(s.(controllers := s.controllers[c := Free], poolOwner := None, workers := [], started := false))
      else None
    case _ => None
  }

  // The state after one step, or None when the step is not possible now.
  function Step(s: State, a: Action): Option<State> {
    match a
    case ScheduleLock(i, _) => if i < |s.schedulers| then SchedulerStep(s, i, a) else None
    case Push(i) => if i < |s.schedulers| then SchedulerStep(s, i, a) else None
    case ScheduleUnlock(i) => if i < |s.schedulers| then SchedulerStep(s, i, a) else None
    case NotifyOne(i, _) => if i < |s.schedulers| then SchedulerStep(s, i, a) else None
    case StartCall(c) => if c < |s.controllers| then ControllerStep(s, c, a) else None
    case Spawn(c) => if c < |s.controllers| then ControllerStep(s, c, a) else None
    case StartReturn(c) => if c < |s.controllers| then ControllerStep(s, c, a) else None
    case StopCall(c) => if c < |s.controllers| then ControllerStep(s, c, a) else None
    case SetTerminating(c) => if c < |s.controllers| then ControllerStep(s, c, a) else None
    case NotifyAll(c) => if c < |s.controllers| then ControllerStep(s, c, a) else None
    case Join(c) => if c < |s.controllers| then ControllerStep(s, c, a) else None
    case StopReturn(c) => if c < |s.controllers| then ControllerStep(s, c, a) else None
    case _ => if a.w < |s.workers| then WorkerStep(s, a.w, a) else None
  }

  // An interleaving: None when some step of it was not possible.
  function Run(s: State, actions: seq<Action>): Option<State> {
    if actions == [] then Some(s)
    else match Run(s, actions[..|actions| - 1])
      case None => None
      case Some(m) => Step(m, actions[|actions| - 1])
  }

  // ---- What every state of every run satisfies ----

  ghost predicate MutexInv(s: State) {
    && (forall i :: 0 <= i < |s.workers| ==> (s.workers[i].Holds() <==> s.bufferOwner == Some(WorkerOwner(i))))
    && (forall i :: 0 <= i < |s.schedulers| ==> (s.schedulers[i].Holds() <==> s.bufferOwner == Some(SchedulerOwner(i))))
    && (s.bufferOwner.Some? ==>
          match s.bufferOwner.value
          case WorkerOwner(w) => w < |s.workers|
          case SchedulerOwner(i) => i < |s.schedulers|)
  }

  ghost predicate PoolInv(s: State) {
    && s.numThreads > 0
    && (s.poolOwner.Some? ==> s.poolOwner.value < |s.controllers|)
    && (forall c :: 0 <= c < |s.controllers| ==> (!s.controllers[c].Free? <==> s.poolOwner == Some(c)))
    && (s.started ==> |s.workers| == s.numThreads)
    && (s.poolOwner == None && !s.started ==> s.workers == [])
    && (s.poolOwner.Some? ==>
          match s.controllers[s.poolOwner.value]
          case Free => true
          case Starting(k) => !s.started && |s.workers| == k <= s.numThreads
          case Stopping => s.started
          case Flagged => s.started && s.terminating
          case Joining(k) =>
            s.started && s.terminating && k <= |s.workers| && forall j :: 0 <= j < k ==> s.workers[j].Done?)
    && (!s.terminating ==> forall i :: 0 <= i < |s.workers| ==> !s.workers[i].Done?)
  }

  // The functions popped so far, then the buffer, are exactly the functions scheduled, in order.
  ghost predicate QueueInv(s: State) {
    && s.taken + s.buffer == s.order
    && (forall i :: 0 <= i < |s.workers| ==>
          && (s.workers[i].Popping? ==> s.buffer != [])
          && (s.workers[i].Leaving? ==> s.buffer != [] || s.terminating)
          && (s.workers[i].Blocking? ==> s.buffer == []))
  }

  // Each popped function has one ticket, in the hands of one worker or already begun.
  ghost predicate TicketInv(s: State) {
    && Distinct(s.begun)
    && (forall t :: t in s.begun ==> 0 <= t < |s.taken|)
    && (forall i :: 0 <= i < |s.workers| && s.workers[i].HasTicket() ==>
          && s.workers[i].ticket < |s.taken| && s.workers[i].func == s.taken[s.workers[i].ticket]
          && (s.workers[i].Running? <==> s.workers[i].ticket in s.begun))
    && (forall i, j :: 0 <= i < j < |s.workers| && s.workers[i].HasTicket() && s.workers[j].HasTicket() ==>
          s.workers[i].ticket != s.workers[j].ticket)
  }

  ghost predicate HandedOut(s: State, t: nat) {
    t in s.begun || exists i :: 0 <= i < |s.workers| && s.workers[i].HasTicket() && s.workers[i].ticket == t
  }

  ghost predicate NothingDropped(s: State) {
    forall t: nat :: t < |s.taken| ==> HandedOut(s, t)
  }

  ghost predicate SomeoneAwake(s: State) {
    exists i :: 0 <= i < |s.workers| && s.workers[i].Awake()
  }

  ghost predicate NotifyPending(s: State) {
    exists i :: 0 <= i < |s.schedulers| && s.schedulers[i].OwesNotify()
  }

  // No lost wake-up: work never sits in the buffer with every worker asleep and no notify to come.
  ghost predicate WakeInv(s: State) {
    s.workers != [] && !s.terminating && s.buffer != [] ==> SomeoneAwake(s) || NotifyPending(s)
  }

  ghost predicate Inv(s: State) {
    MutexInv(s) && PoolInv(s) && QueueInv(s) && TicketInv(s) && NothingDropped(s) && WakeInv(s)
  }

  // A worker's step moves only that worker, and carries its ticket along.
  lemma WorkerFrame(s: State, w: nat, a: Action)
    requires w < |s.workers| && WorkerStep(s, w, a).Some?
    ensures var s' := WorkerStep(s, w, a).value;
            && s'.workers == s.workers[w := s'.workers[w]]
            && s'.schedulers == s.schedulers && s'.controllers == s.controllers && s'.poolOwner == s.poolOwner
            && s'.started == s.started && s'.terminating == s.terminating && s'.numThreads == s.numThreads
            && s'.order == s.order
            && (!a.Pop? ==> s'.taken == s.taken && s'.buffer == s.buffer)
            && (!a.Call? ==> s'.begun == s.begun)
            && (a.Call? ==>
                  s.workers[w].Released? && s'.workers[w].Running? && s'.begun == s.begun + [s.workers[w].ticket])
  {
  }

  lemma TicketFrame(s: State, w: nat, a: Action)
    requires w < |s.workers| && WorkerStep(s, w, a).Some? && !a.Pop?
    ensures var p, p' := s.workers[w], WorkerStep(s, w, a).value.workers[w];
            p'.HasTicket() ==>
              && p.HasTicket() && p'.ticket == p.ticket && p'.func == p.func
              && (if a.Call? then p.Released? && p'.Running? else p'.Running? == p.Running?)
  {
  }

  // What a worker does to the mutex and to its own state.
  lemma WorkerMutex(s: State, w: nat, a: Action)
    requires w < |s.workers| && WorkerStep(s, w, a).Some?
    ensures var p, s' := s.workers[w], WorkerStep(s, w, a).value;
            || (s.bufferOwner == None && s'.bufferOwner == Some(WorkerOwner(w)) && s'.workers[w].Holds())
            || (p.Holds() && s'.bufferOwner == None && !s'.workers[w].Holds())
            || (s'.bufferOwner == s.bufferOwner && s'.workers[w].Holds() == p.Holds())
  {
  }

  lemma WorkerKeepsMutex(s: State, w: nat, a: Action)
    requires w < |s.workers| && MutexInv(s) && PoolInv(s) && WorkerStep(s, w, a).Some?
    ensures MutexInv(WorkerStep(s, w, a).value)
  {
    WorkerFrame(s, w, a);
    WorkerMutex(s, w, a);
  }

  // A scheduler's step moves only itself, except that notify_one wakes a sleeper.
  lemma SchedulerFrame(s: State, i: nat, a: Action)
    requires i < |s.schedulers| && SchedulerStep(s, i, a).Some?
    ensures var s' := SchedulerStep(s, i, a).value;
            && s'.schedulers == s.schedulers[i := s'.schedulers[i]] && |s'.workers| == |s.workers|
            && (forall k :: 0 <= k < |s.workers| ==>
                  s'.workers[k] == s.workers[k] || (s.workers[k].Asleep? && s'.workers[k].Woken?))
            && s'.controllers == s.controllers && s'.poolOwner == s.poolOwner && s'.numThreads == s.numThreads
            && s'.started == s.started && s'.terminating == s.terminating
            && s'.taken == s.taken && s'.begun == s.begun
            && (!a.Push? ==> s'.buffer == s.buffer && s'.order == s.order)
  {
  }

  // What a scheduler does to the mutex and to its own state.
  lemma SchedulerMutex(s: State, i: nat, a: Action)
    requires i < |s.schedulers| && SchedulerStep(s, i, a).Some?
    ensures var p, s' := s.schedulers[i], SchedulerStep(s, i, a).value;
            || (s.bufferOwner == None && s'.bufferOwner == Some(SchedulerOwner(i)) && s'.schedulers[i].Holds())
            || (p.Holds() && s'.bufferOwner == None && !s'.schedulers[i].Holds())
            || (s'.bufferOwner == s.bufferOwner && s'.schedulers[i].Holds() == p.Holds())
  {
  }

  // Tickets survive any change that leaves their holders alone.
  lemma SameTickets(s: State, s': State)
    requires TicketInv(s) && s'.taken == s.taken && s'.begun == s.begun
    requires forall k :: 0 <= k < |s'.workers| && s'.workers[k].HasTicket() ==>
               k < |s.workers| && s'.workers[k] == s.workers[k]
    ensures TicketInv(s')
  {
  }

  lemma SchedulerKeepsMutex(s: State, i: nat, a: Action)
    requires i < |s.schedulers| && MutexInv(s) && PoolInv(s) && SchedulerStep(s, i, a).Some?
    ensures MutexInv(SchedulerStep(s, i, a).value)
  {
    SchedulerFrame(s, i, a);
    SchedulerMutex(s, i, a);
  }

  lemma ControllerKeepsMutex(s: State, c: nat, a: Action)
    requires c < |s.controllers| && MutexInv(s) && PoolInv(s) && ControllerStep(s, c, a).Some?
    ensures MutexInv(ControllerStep(s, c, a).value)
  {
  }

  lemma WorkerKeepsPool(s: State, w: nat, a: Action)
    requires w < |s.workers| && PoolInv(s) && WorkerStep(s, w, a).Some?
    ensures PoolInv(WorkerStep(s, w, a).value)
  {
    WorkerFrame(s, w, a);
  }

  lemma SchedulerKeepsPool(s: State, i: nat, a: Action)
    requires i < |s.schedulers| && PoolInv(s) && SchedulerStep(s, i, a).Some?
    ensures PoolInv(SchedulerStep(s, i, a).value)
  {
    SchedulerFrame(s, i, a);
  }

  lemma ControllerKeepsPool(s: State, c: nat, a: Action)
    requires c < |s.controllers| && PoolInv(s) && ControllerStep(s, c, a).Some?
    ensures PoolInv(ControllerStep(s, c, a).value)
  {
  }

  lemma WorkerKeepsQueue(s: State, w: nat, a: Action)
    requires w < |s.workers| && MutexInv(s) && PoolInv(s) && QueueInv(s) && WorkerStep(s, w, a).Some?
    ensures QueueInv(WorkerStep(s, w, a).value)
  {
    WorkerFrame(s, w, a);
  }

  lemma SchedulerKeepsQueue(s: State, i: nat, a: Action)
    requires i < |s.schedulers| && MutexInv(s) && PoolInv(s) && QueueInv(s) && SchedulerStep(s, i, a).Some?
    ensures QueueInv(SchedulerStep(s, i, a).value)
  {
    SchedulerFrame(s, i, a);
  }

  lemma ControllerKeepsQueue(s: State, c: nat, a: Action)
    requires c < |s.controllers| && MutexInv(s) && PoolInv(s) && QueueInv(s) && ControllerStep(s, c, a).Some?
    ensures QueueInv(ControllerStep(s, c, a).value)
  {
  }

  lemma PopKeepsTickets(s: State, w: nat, a: Action)
    requires w < |s.workers| && TicketInv(s) && a.Pop? && WorkerStep(s, w, a).Some?
    ensures TicketInv(WorkerStep(s, w, a).value)
  {
  }

  lemma CarriedTickets(s: State, s': State, w: nat)
    requires TicketInv(s) && w < |s.workers| && |s'.workers| == |s.workers|
    requires s'.workers == s.workers[w := s'.workers[w]] && s'.taken == s.taken
    requires s'.workers[w].HasTicket() ==>
               && s.workers[w].HasTicket()
               && s'.workers[w].ticket == s.workers[w].ticket && s'.workers[w].func == s.workers[w].func
    requires || (s'.begun == s.begun && (s'.workers[w].HasTicket() ==> s'.workers[w].Running? == s.workers[w].Running?))
             || (s.workers[w].Released? && s'.workers[w].Running? && s'.begun == s.begun + [s.workers[w].ticket])
    ensures TicketInv(s')
  {
  }

  lemma WorkerKeepsTickets(s: State, w: nat, a: Action)
    requires w < |s.workers| && PoolInv(s) && TicketInv(s) && WorkerStep(s, w, a).Some?
    ensures TicketInv(WorkerStep(s, w, a).value)
  {
    WorkerFrame(s, w, a);
    if a.Pop? {
      PopKeepsTickets(s, w, a);
    } else {
      TicketFrame(s, w, a);
      CarriedTickets(s, WorkerStep(s, w, a).value, w);
    }
  }

  lemma SchedulerKeepsTickets(s: State, i: nat, a: Action)
    requires i < |s.schedulers| && PoolInv(s) && TicketInv(s) && SchedulerStep(s, i, a).Some?
    ensures TicketInv(SchedulerStep(s, i, a).value)
  {
    SchedulerFrame(s, i, a);
    SameTickets(s, SchedulerStep(s, i, a).value);
  }

  lemma ControllerKeepsTickets(s: State, c: nat, a: Action)
    requires c < |s.controllers| && PoolInv(s) && TicketInv(s) && ControllerStep(s, c, a).Some?
    ensures TicketInv(ControllerStep(s, c, a).value)
  {
    SameTickets(s, ControllerStep(s, c, a).value);
  }

  // A worker gives its ticket up only once the call has begun; a new one is the latest pop.
  lemma TicketLeft(s: State, w: nat, a: Action)
    requires w < |s.workers| && TicketInv(s) && WorkerStep(s, w, a).Some?
    ensures var p, s' := s.workers[w], WorkerStep(s, w, a).value;
            && (p.HasTicket() ==>
                  p.ticket in s.begun || (s'.workers[w].HasTicket() && s'.workers[w].ticket == p.ticket))
            && (a.Pop? ==>
                  && s'.workers[w].HasTicket() && s'.workers[w].ticket == |s.taken|
                  && |s'.taken| == |s.taken| + 1)
  {
  }

  lemma WorkerKeepsHandedOut(s: State, w: nat, a: Action)
    requires w < |s.workers| && PoolInv(s) && TicketInv(s) && NothingDropped(s) && WorkerStep(s, w, a).Some?
    ensures NothingDropped(WorkerStep(s, w, a).value)
  {
    var s' := WorkerStep(s, w, a).value;
    WorkerFrame(s, w, a);
    TicketLeft(s, w, a);
    forall t: nat | t < |s'.taken|
      ensures HandedOut(s', t)
    {
      if t == |s.taken| {
        assert s'.workers[w].HasTicket() && s'.workers[w].ticket == t;
      } else if t !in s.begun {
        assert HandedOut(s, t);
        var i :| 0 <= i < |s.workers| && s.workers[i].HasTicket() && s.workers[i].ticket == t;
        assert s'.workers[i].HasTicket() && s'.workers[i].ticket == t;
      }
    }
  }

  lemma SchedulerKeepsHandedOut(s: State, i: nat, a: Action)
    requires i < |s.schedulers| && PoolInv(s) && TicketInv(s) && NothingDropped(s) && SchedulerStep(s, i, a).Some?
    ensures NothingDropped(SchedulerStep(s, i, a).value)
  {
    var s' := SchedulerStep(s, i, a).value;
    forall t: nat | t < |s'.taken|
      ensures HandedOut(s', t)
    {
      assert HandedOut(s, t);
      if t !in s.begun {
        var k :| 0 <= k < |s.workers| && s.workers[k].HasTicket() && s.workers[k].ticket == t;
        assert s'.workers[k] == s.workers[k];
      }
    }
  }

  lemma ControllerKeepsHandedOut(s: State, c: nat, a: Action)
    requires c < |s.controllers| && PoolInv(s) && TicketInv(s) && NothingDropped(s) && ControllerStep(s, c, a).Some?
    ensures NothingDropped(ControllerStep(s, c, a).value)
  {
    var s' := ControllerStep(s, c, a).value;
    forall t: nat | t < |s'.taken|
      ensures HandedOut(s', t)
    {
      assert HandedOut(s, t);
      if t !in s.begun {
        var k :| 0 <= k < |s.workers| && s.workers[k].HasTicket() && s.workers[k].ticket == t;
        assert !a.StopReturn?;
        assert s'.workers[k] == s.workers[k];
      }
    }
  }

  lemma WorkerKeepsWake(s: State, w: nat, a: Action)
    requires w < |s.workers| && PoolInv(s) && QueueInv(s) && WakeInv(s) && WorkerStep(s, w, a).Some?
    ensures WakeInv(WorkerStep(s, w, a).value)
  {
    var s' := WorkerStep(s, w, a).value;
    if s'.buffer != [] && !s'.terminating {
      assert s'.workers[w].Awake();
    }
  }

  lemma SchedulerKeepsWake(s: State, i: nat, a: Action)
    requires i < |s.schedulers| && PoolInv(s) && QueueInv(s) && WakeInv(s) && SchedulerStep(s, i, a).Some?
    ensures WakeInv(SchedulerStep(s, i, a).value)
  {
    var s' := SchedulerStep(s, i, a).value;
    if s'.workers != [] && !s'.terminating && s'.buffer != [] {
      if a.NotifyOne? {
        var k := if a.woken.None? then 0 else a.woken.value;
        assert s'.workers[k].Awake();
      } else if a.ScheduleLock? {
        if SomeoneAwake(s) {
          var k :| 0 <= k < |s.workers| && s.workers[k].Awake();
          assert s'.workers[k].Awake();
        } else {
          var k :| 0 <= k < |s.schedulers| && s.schedulers[k].OwesNotify();
          assert s'.schedulers[k].OwesNotify();
        }
      } else {
        assert s'.schedulers[i].OwesNotify();
      }
    }
  }

  lemma ControllerKeepsWake(s: State, c: nat, a: Action)
    requires c < |s.controllers| && PoolInv(s) && QueueInv(s) && WakeInv(s) && ControllerStep(s, c, a).Some?
    ensures WakeInv(ControllerStep(s, c, a).value)
  {
    var s' := ControllerStep(s, c, a).value;
    if s'.workers != [] && !s'.terminating && s'.buffer != [] {
      if a.Spawn? {
        assert s'.workers[|s.workers|].Awake();
      } else {
        assert s'.workers == s.workers && s'.schedulers == s.schedulers;
        assert SomeoneAwake(s) ==> SomeoneAwake(s');
        assert NotifyPending(s) ==> NotifyPending(s');
      }
    }
  }

  lemma StepKeepsInv(s: State, a: Action)
    requires Inv(s) && Step(s, a).Some?
    ensures Inv(Step(s, a).value)
  {
    match a
    case ScheduleLock(i, _) => SchedulerKeepsInv(s, i, a);
    case Push(i) => SchedulerKeepsInv(s, i, a);
    case ScheduleUnlock(i) => SchedulerKeepsInv(s, i, a);
    case NotifyOne(i, _) => SchedulerKeepsInv(s, i, a);
    case StartCall(c) => ControllerKeepsInv(s, c, a);
    case Spawn(c) => ControllerKeepsInv(s, c, a);
    case StartReturn(c) => ControllerKeepsInv(s, c, a);
    case StopCall(c) => ControllerKeepsInv(s, c, a);
    case SetTerminating(c) => ControllerKeepsInv(s, c, a);
    case NotifyAll(c) => ControllerKeepsInv(s, c, a);
    case Join(c) => ControllerKeepsInv(s, c, a);
    case StopReturn(c) => ControllerKeepsInv(s, c, a);
    case _ => WorkerKeepsInv(s, a.w, a);
  }

  lemma WorkerKeepsInv(s: State, w: nat, a: Action)
    requires Inv(s) && w < |s.workers| && WorkerStep(s, w, a).Some?
    ensures Inv(WorkerStep(s, w, a).value)
  {
    WorkerKeepsMutex(s, w, a);
    WorkerKeepsPool(s, w, a);
    WorkerKeepsQueue(s, w, a);
    WorkerKeepsTickets(s, w, a);
    WorkerKeepsHandedOut(s, w, a);
    WorkerKeepsWake(s, w, a);
  }

  lemma SchedulerKeepsInv(s: State, i: nat, a: Action)
    requires Inv(s) && i < |s.schedulers| && SchedulerStep(s, i, a).Some?
    ensures Inv(SchedulerStep(s, i, a).value)
  {
    SchedulerKeepsMutex(s, i, a);
    SchedulerKeepsPool(s, i, a);
    SchedulerKeepsQueue(s, i, a);
    SchedulerKeepsTickets(s, i, a);
    SchedulerKeepsHandedOut(s, i, a);
    SchedulerKeepsWake(s, i, a);
  }

  lemma ControllerKeepsInv(s: State, c: nat, a: Action)
    requires Inv(s) && c < |s.controllers| && ControllerStep(s, c, a).Some?
    ensures Inv(ControllerStep(s, c, a).value)
  {
    ControllerKeepsMutex(s, c, a);
    ControllerKeepsPool(s, c, a);
    ControllerKeepsQueue(s, c, a);
    ControllerKeepsTickets(s, c, a);
    ControllerKeepsHandedOut(s, c, a);
    ControllerKeepsWake(s, c, a);
  }

  // ---- Results over whole runs ----

  lemma {:induction false} RunKeepsInv(s: State, actions: seq<Action>)
    requires Inv(s) && Run(s, actions).Some?
    ensures Inv(Run(s, actions).value)
  {
    if actions != [] {
      var n := |actions| - 1;
      RunKeepsInv(s, actions[..n]);
      StepKeepsInv(Run(s, actions[..n]).value, actions[n]);
    }
  }

  // First come, first served: what was popped, then what is buffered, is what was
  // scheduled, in order. Every popped function is handed to one worker, which calls that
  // function, and none is handed out or begun twice.
  lemma FirstComeFirstServed(init: State, actions: seq<Action>)
    requires Initial(init) && Run(init, actions).Some?
    ensures var s := Run(init, actions).value;
            && s.taken + s.buffer == s.order
            && Distinct(s.begun)
            && (forall t :: t in s.begun ==> 0 <= t < |s.taken|)
            && (forall t: nat :: t < |s.taken| ==> HandedOut(s, t))
            && (forall i :: 0 <= i < |s.workers| && s.workers[i].HasTicket() ==>
                  && s.workers[i].ticket < |s.taken| && s.workers[i].func == s.taken[s.workers[i].ticket]
                  && (s.workers[i].Running? <==> s.workers[i].ticket in s.begun))
            && (forall i, j :: 0 <= i < j < |s.workers| && s.workers[i].HasTicket() && s.workers[j].HasTicket() ==>
                  s.workers[i].ticket != s.workers[j].ticket)
  {
    RunKeepsInv(init, actions);
  }

  // While the pool is started and not terminating, buffered work has someone to run it.
  lemma NoLostWakeup(init: State, actions: seq<Action>)
    requires Initial(init) && Run(init, actions).Some?
    ensures var s := Run(init, actions).value;
            s.started && !s.terminating && s.buffer != [] ==> SomeoneAwake(s) || NotifyPending(s)
  {
    RunKeepsInv(init, actions);
  }

  function RunningWorkers(s: State): set<nat> {
    set i: nat | i < |s.workers| && s.workers[i].Running?
  }

  // No more functions run at once than the pool has threads.
  lemma RunningBounded(init: State, actions: seq<Action>)
    requires Initial(init) && Run(init, actions).Some?
    ensures var s := Run(init, actions).value; |RunningWorkers(s)| <= s.numThreads
  {
    RunKeepsInv(init, actions);
    var s := Run(init, actions).value;
    assert |s.workers| <= s.numThreads;
    CountBelow(RunningWorkers(s), |s.workers|);
  }

  lemma {:induction false} CountBelow(s: set<nat>, n: nat)
    requires forall i :: i in s ==> i < n
    ensures |s| <= n
  {
    if n > 0 {
      CountBelow(s - {n - 1}, n - 1);
    } else {
      assert s == {};
    }
  }

  // The buffer mutex is never held twice, and an empty queue is never popped.
  lemma MutualExclusion(init: State, actions: seq<Action>, i: nat, j: nat)
    requires Initial(init) && Run(init, actions).Some?
    ensures var s := Run(init, actions).value;
            && (i < j < |s.workers| ==> !(s.workers[i].Holds() && s.workers[j].Holds()))
            && (i < |s.workers| && j < |s.schedulers| ==> !(s.workers[i].Holds() && s.schedulers[j].Holds()))
            && (i < |s.workers| && s.workers[i].Popping? ==> s.buffer != [])
  {
    RunKeepsInv(init, actions);
  }

  // ---- After stop ----

  // Terminating, with no worker past the point where it reads the flag.
  ghost predicate Drained(s: State) {
    s.terminating && forall i :: 0 <= i < |s.workers| ==> !s.workers[i].Popping? && !s.workers[i].HasTicket()
  }

  // When stop() is about to return, every thread of the pool has ended.
  lemma StopReturnsDrained(init: State, actions: seq<Action>, c: nat)
    requires Initial(init) && Run(init, actions).Some? && Step(Run(init, actions).value, StopReturn(c)).Some?
    ensures var s, t := Run(init, actions).value, Step(Run(init, actions).value, StopReturn(c)).value;
            && (forall i :: 0 <= i < |s.workers| ==> s.workers[i].Done?)
            && RunningWorkers(t) == {} && Drained(t)
  {
    RunKeepsInv(init, actions);
    JoinedAll(Run(init, actions).value, c);
  }

  lemma JoinedAll(s: State, c: nat)
    requires PoolInv(s) && c < |s.controllers| && s.controllers[c].Joining? && s.controllers[c].joined == |s.workers|
    ensures s.terminating && forall i :: 0 <= i < |s.workers| ==> s.workers[i].Done?
  {
    assert s.poolOwner == Some(c);
  }

  lemma StepKeepsDrained(s: State, a: Action)
    requires Drained(s) && Step(s, a).Some?
    ensures Drained(Step(s, a).value)
    ensures Step(s, a).value.taken == s.taken && Step(s, a).value.begun == s.begun
  {
  }

  // start() never resets m_terminating: once stop() has returned, no function is
  // taken or begun again, whatever is started or scheduled later.
  lemma {:induction false} NothingRunsAfterStop(s: State, later: seq<Action>)
    requires Drained(s) && Run(s, later).Some?
    ensures var t := Run(s, later).value; Drained(t) && t.taken == s.taken && t.begun == s.begun
  {
    if later != [] {
      var n := |later| - 1;
      NothingRunsAfterStop(s, later[..n]);
      StepKeepsDrained(Run(s, later[..n]).value, later[n]);
    }
  }

  // A pool that is not started, with no start() in progress, has no threads at all.
  lemma StoppedPoolHasNoThreads(init: State, actions: seq<Action>)
    requires Initial(init) && Run(init, actions).Some?
    ensures var s := Run(init, actions).value;
            (!s.started && forall c :: 0 <= c < |s.controllers| ==> s.controllers[c].Free?) ==> s.workers == []
  {
    RunKeepsInv(init, actions);
  }
}
