/** The promises of the worker pool, over every schedule that starts at pool_create. */
module ThreadPoolTheorems {
  import opened Prelude
  import opened ThreadPool
  import opened ThreadPoolProofs

  // ----- every accepted job is in exactly one place -----

  lemma {:induction false} OccursConcat(a: seq<Job>, b: seq<Job>, job: Job)
    ensures Occurs(a + b, job) == Occurs(a, job) + Occurs(b, job)
  {
    if b == [] {
      assert a + b == a;
    } else {
      var n := |b| - 1;
      OccursConcat(a, b[..n], job);
      assert (a + b)[..|a + b| - 1] == a + b[..n];
    }
  }

  lemma {:induction false} OccursOnce(js: seq<Job>, job: Job)
    requires forall k :: 0 <= k < |js| ==> js[k].token == k
    ensures Occurs(js, job) == Unit(job in js)
  {
    if js != [] {
      var n := |js| - 1;
      OccursOnce(js[..n], job);
      assert js == js[..n] + [js[n]];
    }
  }

  /**
    At every moment of every schedule a job that pool_execute accepted is in exactly one of the queue,
    one worker's hands, the finished jobs and the dropped jobs; any other job is nowhere. Jobs reach
    workers in the order of acceptance, and none is dropped while no worker has been stopped.
   */
  lemma EveryJobInOnePlace(trace: seq<State>, acts: seq<Action>, initial: nat, limit: nat, k: nat, job: Job)
    requires IsRun(trace, acts) && trace[0] == Created(initial, limit) && k < |trace|
    ensures var s := trace[k];
      && Occurs(s.queue, job) + HeldBy(s.workers, job) + Occurs(s.finished, job) + Occurs(s.dropped, job)
         == Unit(job in s.accepted)
      && s.accepted == s.handed + s.queue
      && (AllRunning(s) ==> s.dropped == [])
  {
    var s := trace[k];
    RunKeeps(trace, acts, initial, limit, k);
    OccursConcat(s.handed, s.queue, job);
    OccursOnce(s.accepted, job);
    assert JobConserved(s, job);
  }

  // ----- idle workers -----

  /**
    inactive_num counts the flagged workers and is positive only with an empty queue. pool_execute
    hands a job only to a worker parked with empty hands, so it overwrites none, and a worker about to
    call has something to call. The branch marked "shouldn't be possible" is taken exactly when there
    are flagged workers and all of them have been stopped, hence never before shutdown.
   */
  lemma IdleWorkersAreFound(trace: seq<State>, acts: seq<Action>, initial: nat, limit: nat, k: nat)
    requires IsRun(trace, acts) && trace[0] == Created(initial, limit) && k < |trace|
    ensures var s := trace[k];
      && s.inactiveNum == CountInactive(s.workers)
      && (s.inactiveNum > 0 ==> s.queue == [])
      && (forall i :: 0 <= i < |s.workers| && s.workers[i].pc.Ready? ==> s.workers[i].slot.Some?)
      && (Decide(s).Handed? ==> s.workers[Decide(s).i].pc.Parked? && InHand(s.workers[Decide(s).i]).None?)
      && (Decide(s).Impossible? <==>
            && (exists i :: 0 <= i < |s.workers| && s.workers[i].inactive)
            && (forall i :: 0 <= i < |s.workers| && s.workers[i].inactive ==> !s.workers[i].running))
      && (AllRunning(s) ==> !Decide(s).Impossible?)
  {
    var s := trace[k];
    RunKeeps(trace, acts, initial, limit, k);
    CountPositive(s.workers);
    assert forall i :: 0 <= i < |s.workers| ==> WorkerOk(s.workers[i], i in s.posted);
    if forall i :: 0 <= i < |s.workers| && s.workers[i].inactive ==> !s.workers[i].running {
      assert forall i :: 0 <= i < |s.workers| ==> !Idle(s.workers[i]);
    }
  }

  // ----- what a request and a turn of a worker do -----

  /** The first worker of the list that runs and waits for work. */
  predicate FirstIdle(ws: seq<Worker>, i: int) {
    && 0 <= i < |ws| && ws[i].running && ws[i].inactive
    && forall j :: 0 <= j < i ==> !(ws[j].running && ws[j].inactive)
  }

  /** Only worker i differs, and it has the job in hand. */
  predicate GivenTo(before: seq<Worker>, after: seq<Worker>, i: int, job: Job) {
    && 0 <= i < |before| == |after| && InHand(before[i]) == None && InHand(after[i]) == Some(job)
    && forall j :: 0 <= j < |before| && j != i ==> after[j] == before[j]
  }

  lemma {:induction false} LimitStays(trace: seq<State>, acts: seq<Action>, initial: nat, limit: nat, k: nat)
    requires IsRun(trace, acts) && trace[0] == Created(initial, limit) && k < |trace|
    ensures trace[k].limit == limit
  {
    if k > 0 { LimitStays(trace, acts, initial, limit, k - 1); }
  }

  lemma {:induction false} FindIdleIsFirst(ws: seq<Worker>)
    ensures FindIdle(ws).Some? ==> FirstIdle(ws, FindIdle(ws).value)
    ensures FindIdle(ws).None? ==> forall i :: 0 <= i < |ws| ==> !(ws[i].running && ws[i].inactive)
  {
    assert forall i :: 0 <= i < |ws| ==> (Idle(ws[i]) <==> ws[i].running && ws[i].inactive);
  }

  /**
    In every schedule a request is accepted if and only if some worker runs and is inactive, or no worker
    is inactive and the queue is shorter than the limit. In the first case the first such worker gets the
    job, in the second it goes to the end of the queue; otherwise nothing changes.
   */
  lemma AcceptedIff(trace: seq<State>, acts: seq<Action>, initial: nat, limit: nat, k: nat)
    requires IsRun(trace, acts) && trace[0] == Created(initial, limit) && k < |acts| && acts[k].Execute?
    ensures var s, t := trace[k], trace[k + 1]; var job := Job(|s.accepted|, acts[k].work, acts[k].local);
      if exists i :: 0 <= i < |s.workers| && s.workers[i].running && s.workers[i].inactive then
        && t.accepted == s.accepted + [job] && t.queue == s.queue
        && exists i :: FirstIdle(s.workers, i) && GivenTo(s.workers, t.workers, i, job)
      else if (forall i :: 0 <= i < |s.workers| ==> !s.workers[i].inactive) && |s.queue| < limit then
        t.accepted == s.accepted + [job] && t.queue == s.queue + [job] && t.workers == s.workers
      else t == s
  {
    var s := trace[k];
    RunKeeps(trace, acts, initial, limit, k);
    LimitStays(trace, acts, initial, limit, k);
    CountPositive(s.workers);
    FindIdleIsFirst(s.workers);
    match FindIdle(s.workers)
    case Some(i) =>
      assert WorkerOk(s.workers[i], i in s.posted);
      var job := Job(|s.accepted|, acts[k].work, acts[k].local);
      assert FirstIdle(s.workers, i) && GivenTo(s.workers, trace[k + 1].workers, i, job);
    case None =>
  }

  /**
    In every schedule a waiting worker that has been given a job can pass its semaphore, and one that has not
    been given any waits until worker_shutdown posts it.
   */
  lemma GivenWorkerWakes(trace: seq<State>, acts: seq<Action>, initial: nat, limit: nat, k: nat, i: nat)
    requires IsRun(trace, acts) && trace[0] == Created(initial, limit) && k < |trace|
    requires i < |trace[k].workers| && trace[k].workers[i].pc.Parked?
    ensures Enabled(trace[k], Take(i)) <==> InHand(trace[k].workers[i]).Some? || i in trace[k].posted
  {
    RunKeeps(trace, acts, initial, limit, k);
    assert WorkerOk(trace[k].workers[i], i in trace[k].posted);
  }

  /**
    A turn of a worker at the top of its loop: on an empty queue it is counted inactive and waits; otherwise
    it takes the oldest job if it still runs, and leaves the queue as it is if it does not.
   */
  lemma TurnAtTheTop(trace: seq<State>, acts: seq<Action>, initial: nat, limit: nat, k: nat, i: nat)
    requires IsRun(trace, acts) && trace[0] == Created(initial, limit) && k < |acts| && acts[k] == Top(i)
    ensures var s, t := trace[k], trace[k + 1]; var w := t.workers[i];
      if s.queue == [] then
        && w.pc.Parked? && w.inactive && InHand(w) == None
        && CountInactive(t.workers) == CountInactive(s.workers) + 1 && t.queue == []
      else if s.workers[i].running then
        w.pc.Ready? && GivenTo(s.workers, t.workers, i, s.queue[0]) && s.queue == [s.queue[0]] + t.queue
      else w.pc.Exited? && t.queue == s.queue && t.handed == s.handed
  {
    var s := trace[k];
    RunKeeps(trace, acts, initial, limit, k);
    assert WorkerOk(s.workers[i], i in s.posted);
    CountUpdate(s.workers, i, trace[k + 1].workers[i]);
  }

  // ----- shutdown -----

  predicate Own(a: Action, i: nat) {
    match a
    case Top(j) => j == i
    case Take(j) => j == i
    case Test(j) => j == i
    case Call(j) => j == i
    case Return(j) => j == i
    case _ => false
  }

  /** How many more actions a stopped worker can take. */
  function Rank(pc: Pc): nat {
    match pc
    case Ready => 5
    case Busy(_) => 4
    case AtTop => 3
    case Parked => 2
    case Woken => 1
    case Exited => 0
  }

  /** How many of the actions from position j up to k are worker i's own. */
  function OwnSteps(acts: seq<Action>, i: nat, j: nat, k: nat): nat
    requires j <= k <= |acts|
  {
    if j == k then 0 else OwnSteps(acts, i, j, k - 1) + Unit(Own(acts[k - 1], i))
  }

  function Calls(acts: seq<Action>, i: nat, j: nat, k: nat): nat
    requires j <= k <= |acts|
  {
    if j == k then 0 else Calls(acts, i, j, k - 1) + Unit(acts[k - 1] == Call(i))
  }

  lemma StoppedStep(s: State, a: Action, i: nat)
    requires Inv(s) && Enabled(s, a) && i < |s.workers| && i in s.posted
    ensures var t := Apply(s, a);
      && i < |t.workers| && i in t.posted
      && Rank(t.workers[i].pc) + Unit(Own(a, i)) <= Rank(s.workers[i].pc)
      && Unit(t.workers[i].pc.Ready?) + Unit(a == Call(i)) <= Unit(s.workers[i].pc.Ready?)
  {
    assert WorkerOk(s.workers[i], true);
  }

  lemma StoppedAt(trace: seq<State>, acts: seq<Action>, initial: nat, limit: nat, i: nat, k: nat)
    requires IsRun(trace, acts) && trace[0] == Created(initial, limit) && k < |acts|
    requires i < |trace[k].workers| && i in trace[k].posted
    ensures i < |trace[k + 1].workers| && i in trace[k + 1].posted
    ensures Rank(trace[k + 1].workers[i].pc) + Unit(Own(acts[k], i)) <= Rank(trace[k].workers[i].pc)
    ensures Unit(trace[k + 1].workers[i].pc.Ready?) + Unit(acts[k] == Call(i)) <= Unit(trace[k].workers[i].pc.Ready?)
  {
    RunKeeps(trace, acts, initial, limit, k);
    StoppedStep(trace[k], acts[k], i);
  }

  lemma {:induction false} StoppedSteps(
    trace: seq<State>, acts: seq<Action>, initial: nat, limit: nat, i: nat, j: nat, k: nat)
    requires IsRun(trace, acts) && trace[0] == Created(initial, limit) && j <= k < |trace|
    requires i < |trace[j].workers| && i in trace[j].posted
    ensures i < |trace[k].workers| && i in trace[k].posted
    ensures OwnSteps(acts, i, j, k) + Rank(trace[k].workers[i].pc) <= Rank(trace[j].workers[i].pc)
    ensures Calls(acts, i, j, k) + Unit(trace[k].workers[i].pc.Ready?) <= Unit(trace[j].workers[i].pc.Ready?)
  {
    if j < k {
      StoppedSteps(trace, acts, initial, limit, i, j, k - 1);
      StoppedAt(trace, acts, initial, limit, i, k - 1);
      assert OwnSteps(acts, i, j, k) == OwnSteps(acts, i, j, k - 1) + Unit(Own(acts[k - 1], i));
      assert Calls(acts, i, j, k) == Calls(acts, i, j, k - 1) + Unit(acts[k - 1] == Call(i));
    }
  }

  /** The next action of worker i once shutdown has posted its semaphore. */
  function NextOwn(w: Worker, i: nat): Action {
    match w.pc
    case Ready => Call(i)
    case Busy(_) => Return(i)
    case AtTop => Top(i)
    case Parked => Take(i)
    case _ => Test(i)
  }

  /**
    worker_shutdown has cleared running and posted activate_sem by position j of the schedule. From
    then on worker i takes at most five actions of its own, enters at most the call it was already
    committed to, and at every later position it has either exited or can move at once; it never
    blocks on activate_sem. So pthread_join returns once the call in progress does.
   */
  lemma StoppedWorkerExits(
    trace: seq<State>, acts: seq<Action>, initial: nat, limit: nat, i: nat, j: nat, k: nat)
    requires IsRun(trace, acts) && trace[0] == Created(initial, limit) && j <= k < |trace|
    requires i < |trace[j].workers| && i in trace[j].posted
    ensures OwnSteps(acts, i, j, k) <= Rank(trace[j].workers[i].pc) <= 5
    ensures Calls(acts, i, j, k) <= Unit(trace[j].workers[i].pc.Ready?)
    ensures i < |trace[k].workers|
    ensures trace[k].workers[i].pc.Exited? || Enabled(trace[k], NextOwn(trace[k].workers[i], i))
    ensures OwnSteps(acts, i, j, k) == Rank(trace[j].workers[i].pc) ==> trace[k].workers[i].pc.Exited?
  {
    StoppedSteps(trace, acts, initial, limit, i, j, k);
    RunKeeps(trace, acts, initial, limit, k);
    assert WorkerOk(trace[k].workers[i], true);
  }
}
