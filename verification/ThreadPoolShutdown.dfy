/** What becomes of accepted jobs when workers are stopped, over every schedule. */
module ThreadPoolShutdown {
  import opened Prelude
  import opened ThreadPool
  import opened ThreadPoolProofs
  import opened ThreadPoolTheorems

  /** The worker has been given the job and has yet to test running before it calls. */
  predicate Loaded(w: Worker, job: Job) {
    (w.pc.Parked? || w.pc.Woken?) && !w.inactive && w.slot == Some(job)
  }

  /** worker_shutdown clears running for the first time on a worker loaded with the job. */
  predicate StopsLoaded(s: State, a: Action, job: Job) {
    a.ClearRunning? && a.i < |s.workers| && s.workers[a.i].running && Loaded(s.workers[a.i], job)
  }

  /** That happened before position k. */
  ghost predicate StoppedLoaded(trace: seq<State>, acts: seq<Action>, k: nat, job: Job)
    requires k <= |acts| <= |trace|
  {
    exists j :: 0 <= j < k && StopsLoaded(trace[j], acts[j], job)
  }

  /** Worker i has been stopped while loaded with the job, and has not exited yet. */
  predicate Doomed(s: State, i: nat, job: Job) {
    i < |s.workers| && !s.workers[i].running && Loaded(s.workers[i], job)
  }

  ghost predicate DroppedOrDoomed(s: State, job: Job) {
    job in s.dropped || exists i :: Doomed(s, i, job)
  }

  lemma DoomedBefore(s: State, a: Action, job: Job, i: nat)
    requires Enabled(s, a) && Doomed(Apply(s, a), i, job)
    ensures Doomed(s, i, job) || StopsLoaded(s, a, job)
  {
  }

  lemma DoomedAfter(s: State, a: Action, job: Job, i: nat)
    requires Enabled(s, a) && Doomed(s, i, job)
    ensures Doomed(Apply(s, a), i, job) || job in Apply(s, a).dropped
  {
  }

  lemma DroppedStep(s: State, a: Action, job: Job)
    requires Enabled(s, a)
    ensures job in s.dropped ==> job in Apply(s, a).dropped
    ensures job in Apply(s, a).dropped && job !in s.dropped ==> a.Test? && Doomed(s, a.i, job)
  {
  }

  lemma FateStep(s: State, a: Action, job: Job)
    requires Enabled(s, a)
    ensures DroppedOrDoomed(Apply(s, a), job) <==> DroppedOrDoomed(s, job) || StopsLoaded(s, a, job)
  {
    var t := Apply(s, a);
    DroppedStep(s, a, job);
    if i :| Doomed(t, i, job) { DoomedBefore(s, a, job, i); }
    if i :| Doomed(s, i, job) { DoomedAfter(s, a, job, i); }
    if StopsLoaded(s, a, job) { assert Doomed(t, a.i, job); }
  }

  /** A job is dropped, or about to be, exactly when a worker loaded with it was stopped. */
  lemma {:induction false} FateOfLoaded(
    trace: seq<State>, acts: seq<Action>, initial: nat, limit: nat, k: nat, job: Job)
    requires IsRun(trace, acts) && trace[0] == Created(initial, limit) && k < |trace|
    ensures DroppedOrDoomed(trace[k], job) <==> StoppedLoaded(trace, acts, k, job)
  {
    if k > 0 {
      FateOfLoaded(trace, acts, initial, limit, k - 1, job);
      FateStep(trace[k - 1], acts[k - 1], job);
      if StoppedLoaded(trace, acts, k, job) {
        var j :| 0 <= j < k && StopsLoaded(trace[j], acts[j], job);
        assert j == k - 1 || StoppedLoaded(trace, acts, k - 1, job);
      }
    }
  }

  predicate AllExited(s: State) {
    forall i :: 0 <= i < |s.workers| ==> s.workers[i].pc.Exited?
  }

  lemma {:induction false} NothingHeld(ws: seq<Worker>, job: Job)
    requires forall i :: 0 <= i < |ws| ==> ws[i].pc.Exited?
    ensures HeldBy(ws, job) == 0
  {
    if ws != [] { NothingHeld(ws[1..], job); }
  }

  lemma {:induction false} OccursIffIn(js: seq<Job>, job: Job)
    ensures Occurs(js, job) > 0 <==> job in js
  {
    if js != [] {
      var n := |js| - 1;
      OccursIffIn(js[..n], job);
      assert js == js[..n] + [js[n]];
    }
  }

  /**
    When all workers have exited, an accepted job was run exactly when no worker loaded with it was
    stopped and it is not left in the queue; it was dropped exactly when a worker loaded with it was
    stopped; and what is left in the queue is what was accepted last.
   */
  lemma AfterShutdown(trace: seq<State>, acts: seq<Action>, initial: nat, limit: nat, k: nat, job: Job)
    requires IsRun(trace, acts) && trace[0] == Created(initial, limit) && k < |trace| && AllExited(trace[k])
    requires job in trace[k].accepted
    ensures var s := trace[k];
      && (job in s.finished <==> job !in s.queue && !StoppedLoaded(trace, acts, k, job))
      && (job in s.dropped <==> StoppedLoaded(trace, acts, k, job))
      && !(job in s.dropped && job in s.queue)
      && |s.handed| <= |s.accepted| && s.queue == s.accepted[|s.handed|..]
  {
    var s := trace[k];
    EveryJobInOnePlace(trace, acts, initial, limit, k, job);
    FateOfLoaded(trace, acts, initial, limit, k, job);
    NothingHeld(s.workers, job);
    OccursIffIn(s.queue, job);
    OccursIffIn(s.finished, job);
    OccursIffIn(s.dropped, job);
  }

  // ----- the job in hand when worker_shutdown is called -----

  /** The worker is past the test of running: it will call, or is calling. */
  predicate Committed(w: Worker, job: Job) {
    (w.pc.Ready? || w.pc.Busy?) && InHand(w) == Some(job)
  }

  /** Where the job is that worker i had in hand when it was stopped, loaded or past the test. */
  predicate Follows(s: State, i: nat, job: Job, loaded: bool) {
    && i < |s.workers| && !s.workers[i].running
    && if loaded then Loaded(s.workers[i], job) || job in s.dropped
       else Committed(s.workers[i], job) || job in s.finished
  }

  lemma FollowStep(s: State, a: Action, i: nat, job: Job, loaded: bool)
    requires Enabled(s, a) && Follows(s, i, job, loaded)
    ensures Follows(Apply(s, a), i, job, loaded)
  {
  }

  lemma {:induction false} FollowRun(
    trace: seq<State>, acts: seq<Action>, i: nat, j: nat, k: nat, job: Job, loaded: bool)
    requires IsRun(trace, acts) && j <= k < |trace| && Follows(trace[j], i, job, loaded)
    ensures Follows(trace[k], i, job, loaded)
  {
    if j < k {
      FollowRun(trace, acts, i, j, k - 1, job, loaded);
      FollowStep(trace[k - 1], acts[k - 1], i, job, loaded);
    }
  }

  /**
    worker_shutdown is called at position j on a running worker with a job in hand. Once that worker
    has exited, the job has been dropped if at the call the worker was still waiting or had just woken,
    and has been run if it was past the test of running; never both.
   */
  lemma StoppedJobFate(
    trace: seq<State>, acts: seq<Action>, initial: nat, limit: nat, i: nat, j: nat, k: nat, job: Job)
    requires IsRun(trace, acts) && trace[0] == Created(initial, limit) && j < k < |trace|
    requires acts[j] == ClearRunning(i) && trace[j].workers[i].running && InHand(trace[j].workers[i]) == Some(job)
    requires i < |trace[k].workers| && trace[k].workers[i].pc.Exited?
    ensures var w := trace[j].workers[i];
      && (job in trace[k].dropped <==> w.pc.Parked? || w.pc.Woken?)
      && (job in trace[k].finished <==> w.pc.Ready? || w.pc.Busy?)
  {
    var w, s := trace[j].workers[i], trace[k];
    FollowRun(trace, acts, i, j + 1, k, job, w.pc.Parked? || w.pc.Woken?);
    EveryJobInOnePlace(trace, acts, initial, limit, k, job);
    OccursIffIn(s.finished, job);
    OccursIffIn(s.dropped, job);
  }

  // ----- runs -----

  /** Stopping a worker between the hand-over and its wake-up loses a job that pool_execute accepted. */
  lemma ShutdownCanLoseAcceptedJob(limit: nat, work: int, local: int)
    returns (trace: seq<State>, acts: seq<Action>)
    ensures IsRun(trace, acts) && trace[0] == Created(1, limit)
    ensures trace[|acts|].accepted == trace[|acts|].dropped == [Job(0, work, local)]
    ensures |trace[|acts|].workers| == 1 && trace[|acts|].workers[0].pc.Exited?
  {
    acts := [Top(0), Execute(work, local), ClearRunning(0), Take(0), Test(0)];
    var s0 := Created(1, limit);
    var s1 := Apply(s0, acts[0]);
    assert CountInactive(s1.workers) == 1;
    assert Idle(s1.workers[0]);
    var s2 := Apply(s1, acts[1]);
    var s3 := Apply(s2, acts[2]);
    var s4 := Apply(s3, acts[3]);
    var s5 := Apply(s4, acts[4]);
    trace := [s0, s1, s2, s3, s4, s5];
  }

  /** Once the only idle worker has been stopped, the "shouldn't be possible" branch is reached. */
  lemma ShutdownReachesImpossibleBranch(limit: nat)
    returns (trace: seq<State>, acts: seq<Action>)
    ensures IsRun(trace, acts) && trace[0] == Created(1, limit)
    ensures Decide(trace[|acts|]).Impossible?
  {
    acts := [Top(0), ClearRunning(0)];
    var s0 := Created(1, limit);
    var s1 := Apply(s0, acts[0]);
    var s2 := Apply(s1, acts[1]);
    assert !Idle(s2.workers[0]);
    trace := [s0, s1, s2];
  }

  /** The only worker is in the middle of one job when another one is queued. */
  lemma BusyWorker(limit: nat, work: int, local: int) returns (trace: seq<State>, acts: seq<Action>)
    requires limit > 0
    ensures |acts| == 6 && IsRun(trace, acts) && trace[0] == Created(1, limit)
    ensures var job, next := Job(0, work, local), Job(1, work, local);
      trace[6] == State([Worker(Busy(job), true, false, 0, Some(job))], [next], limit, 0, {}, [job, next], [job], [], [])
  {
    acts := [Top(0), Execute(work, local), Take(0), Test(0), Call(0), Execute(work, local)];
    var s0 := Created(1, limit);
    var s1 := Apply(s0, acts[0]);
    assert Idle(s1.workers[0]);
    var s2 := Apply(s1, acts[1]);
    var s3 := Apply(s2, acts[2]);
    var s4 := Apply(s3, acts[3]);
    var s5 := Apply(s4, acts[4]);
    var s6 := Apply(s5, acts[5]);
    trace := [s0, s1, s2, s3, s4, s5, s6];
  }

  /**
    A job that was queued while the only worker was busy stays in the queue for good when that worker
    is stopped: it has been accepted, it is not dropped, and nobody is left to run it.
   */
  lemma QueuedJobNeverRuns(limit: nat, work: int, local: int) returns (trace: seq<State>, acts: seq<Action>)
    requires limit > 0
    ensures IsRun(trace, acts) && trace[0] == Created(1, limit)
    ensures var s := trace[|acts|];
      && AllExited(s) && s.dropped == [] && s.queue == [Job(1, work, local)] && s.finished == [Job(0, work, local)]
  {
    var before, done := BusyWorker(limit, work, local);
    var more := [ClearRunning(0), PostShutdown(0), Return(0), Top(0)];
    var s7 := Apply(before[6], more[0]);
    var s8 := Apply(s7, more[1]);
    var s9 := Apply(s8, more[2]);
    var s10 := Apply(s9, more[3]);
    trace, acts := before + [s7, s8, s9, s10], done + more;
  }
}
