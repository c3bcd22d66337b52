/**
  The worker pool of libs/common/finsthreads.c as a transition system.

  Every block executed while holding `inactive_sem` is one action, because the semaphore makes it
  atomic; everything a worker does outside the semaphore is split into one action per shared access.
  `accepted`, `handed`, `finished` and `dropped` are histories: no action reads them.
 */
module ThreadPool {
  import opened Prelude

  /** A request: the function pointer, its argument, and its position among accepted requests. */
  datatype Job = Job(token: nat, work: int, local: int)

  /** Where a worker thread stands in its loop. */
  datatype Pc =
    | AtTop            // about to wait for inactive_sem
    | Parked           // waiting on activate_sem
    | Woken            // past activate_sem, about to test running
    | Ready            // about to fetch work and local and call
    | Busy(job: Job)   // inside the call
    | Exited

  datatype Worker = Worker(pc: Pc, running: bool, inactive: bool, activate: nat, slot: Option<Job>)

  datatype State = State(
    workers: seq<Worker>, queue: seq<Job>, limit: nat, inactiveNum: nat, posted: set<nat>,
    accepted: seq<Job>, handed: seq<Job>, finished: seq<Job>, dropped: seq<Job>)

  datatype Action =
    | Execute(work: int, local: int)  // pool_execute
    | Top(i: nat)                     // worker i: the block under inactive_sem
    | Take(i: nat)                    // worker i: activate_sem acquired
    | Test(i: nat)                    // worker i: running tested after waking
    | Call(i: nat)                    // worker i: work and local fetched, call entered
    | Return(i: nat)                  // worker i: call finished
    | ClearRunning(i: nat)            // worker_shutdown on worker i, first statement
    | PostShutdown(i: nat)            // worker_shutdown on worker i, second statement

  /** pool_create: no worker passes inactive_sem before pool_start has appended them all. */
  function Created(initial: nat, limit: nat): State {
    State(seq(initial, _ => Worker(AtTop, true, false, 0, None)), [], limit, 0, {}, [], [], [], [])
  }

  predicate Idle(w: Worker) {
    w.running && w.inactive
  }

  /** list_find over the worker list with worker_inactive_test. */
  function FindIdle(ws: seq<Worker>): (r: Option<nat>)
    ensures r.Some? ==> r.value < |ws| && Idle(ws[r.value]) && forall k :: 0 <= k < r.value ==> !Idle(ws[k])
    ensures r.None? ==> forall k :: 0 <= k < |ws| ==> !Idle(ws[k])
  {
    if ws == [] then None
    else if Idle(ws[0]) then Some(0)
    else
      var r := FindIdle(ws[1..]);
      assert forall k :: 1 <= k < |ws| ==> ws[k] == ws[1..][k - 1];
      if r.Some? then Some(r.value + 1) else None
  }

  predicate Enabled(s: State, a: Action) {
    match a
    case Execute(_, _) => true
    case Top(i) => i < |s.workers| && s.workers[i].pc.AtTop?
    case Take(i) => i < |s.workers| && s.workers[i].pc.Parked? && s.workers[i].activate > 0
    case Test(i) => i < |s.workers| && s.workers[i].pc.Woken?
    case Call(i) => i < |s.workers| && s.workers[i].pc.Ready? && s.workers[i].slot.Some?
    case Return(i) => i < |s.workers| && s.workers[i].pc.Busy?
    case ClearRunning(i) => i < |s.workers|
    case PostShutdown(i) => i < |s.workers| && !s.workers[i].running && i !in s.posted
  }

  /** What pool_execute returns; Impossible is the branch marked "shouldn't be possible". */
  datatype Verdict = Handed(i: nat) | Queued | Full | Impossible

  function Decide(s: State): (v: Verdict)
    ensures v.Handed? ==> s.inactiveNum > 0 && v.i < |s.workers| && Idle(s.workers[v.i])
  {
    if s.inactiveNum > 0 then
      match FindIdle(s.workers)
      case Some(i) => Handed(i)
      case None => Impossible
    else if |s.queue| < s.limit then Queued
    else Full
  }

  function ApplyExecute(s: State, work: int, local: int): State {
    var job := Job(|s.accepted|, work, local);
    match Decide(s)
    case Handed(i) =>
      var w := s.workers[i];
      s.(workers := s.workers[i := w.(inactive := false, slot := Some(job), activate := w.activate + 1)],
         inactiveNum := s.inactiveNum - 1,
         accepted := s.accepted + [job],
         handed := s.handed + [job])
    case Queued => s.(queue := s.queue + [job], accepted := s.accepted + [job])
    case Full => s
    case Impossible => s
  }

  function ApplyTop(s: State, i: nat): State
    requires Enabled(s, Top(i))
  {
    var w := s.workers[i];
    if s.queue == [] then
      s.(workers := s.workers[i := w.(pc := Parked, inactive := true)], inactiveNum := s.inactiveNum + 1)
    else if w.running then
      s.(workers := s.workers[i := w.(pc := Ready, slot := Some(s.queue[0]))],
         queue := s.queue[1..],
         handed := s.handed + [s.queue[0]])
    else
      s.(workers := s.workers[i := w.(pc := Exited)])
  }

  function ApplyTest(s: State, i: nat): State
    requires Enabled(s, Test(i))
  {
    var w := s.workers[i];
    if w.running then s.(workers := s.workers[i := w.(pc := Ready)])
    else s.(workers := s.workers[i := w.(pc := Exited)],
            dropped := if !w.inactive && w.slot.Some? then s.dropped + [w.slot.value] else s.dropped)
  }

  function Apply(s: State, a: Action): State
    requires Enabled(s, a)
  {
    match a
    case Execute(work, local) => ApplyExecute(s, work, local)
    case Top(i) => ApplyTop(s, i)
    case Take(i) =>
      var w := s.workers[i];
      s.(workers := s.workers[i := w.(pc := Woken, activate := w.activate - 1)])
    case Test(i) => ApplyTest(s, i)
    case Call(i) =>
      var w := s.workers[i];
      s.(workers := s.workers[i := w.(pc := Busy(w.slot.value))])
    case Return(i) =>
      var w := s.workers[i];
      s.(workers := s.workers[i := w.(pc := AtTop)], finished := s.finished + [w.pc.job])
    case ClearRunning(i) =>
      s.(workers := s.workers[i := s.workers[i].(running := false)])
    case PostShutdown(i) =>
      var w := s.workers[i];
      s.(workers := s.workers[i := w.(activate := w.activate + 1)], posted := s.posted + {i})
  }

  /** The states a schedule passes through, one more than its actions. */
  ghost predicate IsRun(trace: seq<State>, acts: seq<Action>) {
    && |trace| == |acts| + 1
    && forall k :: 0 <= k < |acts| ==> Enabled(trace[k], acts[k]) && trace[k + 1] == Apply(trace[k], acts[k])
  }

  // ----- where a job is -----

  /** The job a worker holds: loaded by pool_execute or from the queue, or being run. */
  function InHand(w: Worker): Option<Job> {
    match w.pc
    case Busy(job) => Some(job)
    case Ready => w.slot
    case Parked => if w.inactive then None else w.slot
    case Woken => if w.inactive then None else w.slot
    case AtTop => None
    case Exited => None
  }

  function Unit(b: bool): nat {
    if b then 1 else 0
  }

  /** How many workers have `job` in hand. */
  function HeldBy(ws: seq<Worker>, job: Job): nat {
    if ws == [] then 0 else Unit(InHand(ws[0]) == Some(job)) + HeldBy(ws[1..], job)
  }

  /** How often `job` occurs in a history or in the queue. */
  function Occurs(js: seq<Job>, job: Job): nat {
    if js == [] then 0 else Occurs(js[..|js| - 1], job) + Unit(js[|js| - 1] == job)
  }

  /** How many workers carry the inactive flag. */
  function CountInactive(ws: seq<Worker>): nat {
    if ws == [] then 0 else Unit(ws[0].inactive) + CountInactive(ws[1..])
  }
}
