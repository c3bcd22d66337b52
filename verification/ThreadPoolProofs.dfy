/** What every schedule of the worker pool keeps, and how shutdown ends it. */
module ThreadPoolProofs {
  import opened Prelude
  import opened ThreadPool

  // ----- the invariant -----

  /** Tokens of activate_sem that a worker still has to consume, given whether shutdown has posted. */
  predicate TokensOk(w: Worker, posted: bool) {
    var load := if w.pc.Parked? && !w.inactive then 1 else 0;
    if posted then w.pc.Woken? || w.pc.Exited? || w.activate == load + 1
    else w.pc.Exited? || w.activate == load
  }

  predicate WorkerOk(w: Worker, posted: bool) {
    && TokensOk(w, posted)
    && (w.pc.AtTop? || w.pc.Ready? || w.pc.Busy? ==> !w.inactive)
    && (w.pc.Ready? ==> w.slot.Some?)
    && ((w.pc.Parked? || w.pc.Woken?) && !w.inactive ==> w.slot.Some?)
    && (w.pc.Woken? && w.inactive ==> !w.running)
    && (w.pc.Exited? || posted ==> !w.running)
  }

  ghost predicate WorkersOk(s: State) {
    forall i :: 0 <= i < |s.workers| ==> WorkerOk(s.workers[i], i in s.posted)
  }

  predicate AllRunning(s: State) {
    forall i :: 0 <= i < |s.workers| ==> s.workers[i].running
  }

  ghost predicate QueueOk(s: State) {
    && s.inactiveNum == CountInactive(s.workers)
    && (s.inactiveNum > 0 ==> s.queue == [])
    && |s.queue| <= s.limit
  }

  ghost predicate HistoryOk(s: State) {
    && s.accepted == s.handed + s.queue
    && (forall k :: 0 <= k < |s.accepted| ==> s.accepted[k].token == k)
    && (s.dropped != [] ==> !AllRunning(s))
  }

  /** A job handed to a worker is in hand, finished or dropped, as often as it was handed out. */
  ghost predicate JobConserved(s: State, job: Job) {
    Occurs(s.handed, job) == HeldBy(s.workers, job) + Occurs(s.finished, job) + Occurs(s.dropped, job)
  }

  ghost predicate Conserved(s: State) {
    forall job :: JobConserved(s, job)
  }

  ghost predicate Inv(s: State) {
    WorkersOk(s) && QueueOk(s) && HistoryOk(s) && Conserved(s)
  }

  // ----- counting lemmas -----

  lemma {:induction false} HeldUpdate(ws: seq<Worker>, i: nat, w: Worker, job: Job)
    requires i < |ws|
    ensures HeldBy(ws[i := w], job) + Unit(InHand(ws[i]) == Some(job)) == HeldBy(ws, job) + Unit(InHand(w) == Some(job))
  {
    if i == 0 {
      assert ws[i := w][1..] == ws[1..];
    } else {
      HeldUpdate(ws[1..], i - 1, w, job);
      assert ws[i := w][1..] == ws[1..][i - 1 := w];
    }
  }

  lemma OccursAppend(js: seq<Job>, last: Job, job: Job)
    ensures Occurs(js + [last], job) == Occurs(js, job) + Unit(last == job)
  {
    assert (js + [last])[..|js|] == js;
  }

  lemma {:induction false} CountUpdate(ws: seq<Worker>, i: nat, w: Worker)
    requires i < |ws|
    ensures CountInactive(ws[i := w]) + Unit(ws[i].inactive) == CountInactive(ws) + Unit(w.inactive)
  {
    if i == 0 {
      assert ws[i := w][1..] == ws[1..];
    } else {
      CountUpdate(ws[1..], i - 1, w);
      assert ws[i := w][1..] == ws[1..][i - 1 := w];
    }
  }

  lemma {:induction false} CountPositive(ws: seq<Worker>)
    ensures CountInactive(ws) > 0 <==> exists i :: 0 <= i < |ws| && ws[i].inactive
  {
    if ws != [] {
      CountPositive(ws[1..]);
      if CountInactive(ws[1..]) > 0 {
        var i :| 0 <= i < |ws[1..]| && ws[1..][i].inactive;
        assert ws[i + 1].inactive;
      }
      assert forall i :: 1 <= i < |ws| ==> ws[i] == ws[1..][i - 1];
    }
  }

  lemma {:induction false} NobodyHolds(ws: seq<Worker>, job: Job)
    requires forall i :: 0 <= i < |ws| ==> InHand(ws[i]).None? && !ws[i].inactive
    ensures HeldBy(ws, job) == 0 && CountInactive(ws) == 0
  {
    if ws != [] { NobodyHolds(ws[1..], job); }
  }

  // ----- every action keeps the invariant -----

  lemma CreatedInv(initial: nat, limit: nat)
    ensures Inv(Created(initial, limit))
  {
    var s := Created(initial, limit);
    NobodyHolds(s.workers, Job(0, 0, 0));
    forall job ensures HeldBy(s.workers, job) == 0 { NobodyHolds(s.workers, job); }
  }

  lemma WorkersKept(s: State, a: Action)
    requires WorkersOk(s) && Enabled(s, a)
    ensures WorkersOk(Apply(s, a))
  {
  }

  lemma QueueKept(s: State, a: Action)
    requires WorkersOk(s) && QueueOk(s) && Enabled(s, a)
    ensures QueueOk(Apply(s, a))
  {
    var t := Apply(s, a);
    if a.Execute? {
      var d := Decide(s);
      if d.Handed? { CountUpdate(s.workers, d.i, t.workers[d.i]); }
    } else {
      CountUpdate(s.workers, a.i, t.workers[a.i]);
    }
  }

  lemma OrderKept(s: State, a: Action)
    requires QueueOk(s) && s.accepted == s.handed + s.queue && Enabled(s, a)
    ensures var t := Apply(s, a); t.accepted == t.handed + t.queue
  {
    var t := Apply(s, a);
    assert t.accepted == t.handed + t.queue;
  }

  lemma HistoryKept(s: State, a: Action)
    requires QueueOk(s) && HistoryOk(s) && Enabled(s, a)
    ensures HistoryOk(Apply(s, a))
  {
    var t := Apply(s, a);
    OrderKept(s, a);
    if s.dropped != [] {
      var k :| 0 <= k < |s.workers| && !s.workers[k].running;
      assert !t.workers[k].running;
    } else if t.dropped != [] {
      assert !t.workers[a.i].running;
    }
  }

  ghost predicate ActorOk(s: State, i: nat) {
    i < |s.workers| && WorkerOk(s.workers[i], i in s.posted)
  }

  /** An empty-handed worker is given the job `given`. */
  lemma JobHanded(s: State, t: State, i: nat, given: Job, job: Job)
    requires i < |s.workers| && JobConserved(s, job) && InHand(s.workers[i]).None?
    requires |t.workers| == |s.workers| && t.workers == s.workers[i := t.workers[i]]
    requires InHand(t.workers[i]) == Some(given) && t.handed == s.handed + [given]
    requires t.finished == s.finished && t.dropped == s.dropped
    ensures JobConserved(t, job)
  {
    HeldUpdate(s.workers, i, t.workers[i], job);
    OccursAppend(s.handed, given, job);
  }

  lemma SameInHand(s: State, t: State, i: nat, job: Job)
    requires i < |s.workers| && JobConserved(s, job)
    requires |t.workers| == |s.workers| && t.workers == s.workers[i := t.workers[i]]
    requires InHand(t.workers[i]) == InHand(s.workers[i])
    requires t.handed == s.handed && t.finished == s.finished && t.dropped == s.dropped
    ensures JobConserved(t, job)
  {
    HeldUpdate(s.workers, i, t.workers[i], job);
  }

  lemma JobKeptByExecute(s: State, work: int, local: int, job: Job)
    requires Decide(s).Handed? ==> ActorOk(s, Decide(s).i)
    requires JobConserved(s, job)
    ensures JobConserved(ApplyExecute(s, work, local), job)
  {
    var d := Decide(s);
    if d.Handed? {
      JobHanded(s, ApplyExecute(s, work, local), d.i, Job(|s.accepted|, work, local), job);
    }
  }

  lemma JobKeptByTop(s: State, i: nat, job: Job)
    requires ActorOk(s, i) && JobConserved(s, job) && Enabled(s, Top(i))
    ensures JobConserved(ApplyTop(s, i), job)
  {
    if s.queue != [] && s.workers[i].running {
      JobHanded(s, ApplyTop(s, i), i, s.queue[0], job);
    } else {
      SameInHand(s, ApplyTop(s, i), i, job);
    }
  }

  /** A worker found stopped: the job in its hand, if any, moves to the dropped ones. */
  lemma JobDropped(s: State, i: nat, w: Worker, job: Job)
    requires i < |s.workers| && JobConserved(s, job) && InHand(w).None?
    requires InHand(s.workers[i]).Some?
    ensures JobConserved(s.(workers := s.workers[i := w], dropped := s.dropped + [InHand(s.workers[i]).value]), job)
  {
    HeldUpdate(s.workers, i, w, job);
    OccursAppend(s.dropped, InHand(s.workers[i]).value, job);
  }

  lemma JobKeptByTest(s: State, i: nat, job: Job)
    requires ActorOk(s, i) && JobConserved(s, job) && Enabled(s, Test(i))
    ensures JobConserved(ApplyTest(s, i), job)
  {
    var w := s.workers[i];
    if w.running {
      SameInHand(s, ApplyTest(s, i), i, job);
    } else if w.inactive {
      SameInHand(s, ApplyTest(s, i), i, job);
    } else {
      JobDropped(s, i, w.(pc := Exited), job);
    }
  }

  lemma JobKeptByReturn(s: State, i: nat, job: Job)
    requires JobConserved(s, job) && Enabled(s, Return(i))
    ensures JobConserved(Apply(s, Return(i)), job)
  {
    HeldUpdate(s.workers, i, Apply(s, Return(i)).workers[i], job);
    OccursAppend(s.finished, s.workers[i].pc.job, job);
  }

  /** The remaining actions move no job: the acting worker has the same job in hand before and after. */
  lemma JobKeptInHand(s: State, a: Action, job: Job)
    requires JobConserved(s, job) && Enabled(s, a)
    requires a.Take? || a.Call? || a.ClearRunning? || a.PostShutdown?
    ensures JobConserved(Apply(s, a), job)
  {
    SameInHand(s, Apply(s, a), a.i, job);
  }

  lemma JobKept(s: State, a: Action, job: Job)
    requires WorkersOk(s) && JobConserved(s, job) && Enabled(s, a)
    ensures JobConserved(Apply(s, a), job)
  {
    match a
    case Execute(work, local) => JobKeptByExecute(s, work, local, job);
    case Top(i) => JobKeptByTop(s, i, job);
    case Test(i) => JobKeptByTest(s, i, job);
    case Return(i) => JobKeptByReturn(s, i, job);
    case _ => JobKeptInHand(s, a, job);
  }

  lemma StepKeeps(s: State, a: Action)
    requires Inv(s) && Enabled(s, a)
    ensures Inv(Apply(s, a))
  {
    WorkersKept(s, a);
    QueueKept(s, a);
    HistoryKept(s, a);
    forall job ensures JobConserved(Apply(s, a), job) { JobKept(s, a, job); }
  }

  lemma {:induction false} RunKeeps(trace: seq<State>, acts: seq<Action>, initial: nat, limit: nat, k: nat)
    requires IsRun(trace, acts) && trace[0] == Created(initial, limit) && k < |trace|
    ensures Inv(trace[k])
  {
    if k == 0 {
      CreatedInv(initial, limit);
    } else {
      RunKeeps(trace, acts, initial, limit, k - 1);
      StepKeeps(trace[k - 1], acts[k - 1]);
    }
  }
}
