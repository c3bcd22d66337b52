/**
  The structs of libs/common/finsthreads.h as objects, with the two linked lists of the pool, and each
  block of finsthreads.c as a method that updates them in place. Every method is proved to take the step
  of the transition system. The histories and the threads' positions are ghost.
 */
module ThreadPoolObjects {
  import opened Prelude
  import opened LinkedLists
  import opened ThreadPool

  /** struct pool_request */
  datatype Request = Request(work: int, local: int)

  /** struct pool_worker, with the thread's position in worker_thread and the job it was last given. */
  class PoolWorker {
    var running: bool
    var inactive: bool
    var activate: nat
    var work: int
    var local: int
    ghost var pc: Pc
    ghost var slot: Option<Job>

    /** worker_create; work and local are NULL */
    constructor ()
      ensures View() == Worker(AtTop, true, false, 0, None) && Holds()
    {
      running, inactive, activate, work, local := true, false, 0, 0, 0;
      pc, slot := AtTop, None;
    }

    ghost function View(): Worker
      reads this
    {
      Worker(pc, running, inactive, activate, slot)
    }

    /** The fields work and local are those of the job. */
    ghost predicate Holds()
      reads this
    {
      slot.Some? ==> work == slot.value.work && local == slot.value.local
    }

    /** pool_execute gives an inactive worker a job and posts its semaphore. */
    method Load(request: Request, ghost job: Job)
      requires request == RequestOf(job)
      modifies this
      ensures Holds()
      ensures View() == old(View()).(inactive := false, slot := Some(job), activate := old(activate) + 1)
    {
      inactive := false;
      work, local := request.work, request.local;
      activate := activate + 1;
      slot := Some(job);
    }

    /** worker_thread finds the queue empty. */
    method Park()
      requires Holds()
      modifies this
      ensures Holds() && View() == old(View()).(pc := Parked, inactive := true)
    {
      inactive := true;
      pc := Parked;
    }

    /** worker_thread takes a request from the queue. */
    method Fetch(request: Request, ghost job: Job)
      requires request == RequestOf(job)
      modifies this
      ensures Holds() && View() == old(View()).(pc := Ready, slot := Some(job))
    {
      work, local := request.work, request.local;
      slot := Some(job);
      pc := Ready;
    }

    /** worker_thread moves on, with another count of activate_sem. */
    method MoveTo(ghost next: Pc, count: nat)
      requires Holds()
      modifies this`pc, this`activate
      ensures Holds() && View() == old(View()).(pc := next, activate := count)
    {
      activate := count;
      pc := next;
    }
  }

  /** What a job says besides its place among the accepted ones. */
  function RequestOf(job: Job): Request {
    Request(job.work, job.local)
  }

  ghost predicate Matches(requests: seq<Request>, jobs: seq<Job>) {
    |requests| == |jobs| && forall k :: 0 <= k < |jobs| ==> requests[k] == RequestOf(jobs[k])
  }

  ghost function ViewsOf(team: seq<PoolWorker>): (vs: seq<Worker>)
    reads team
    ensures |vs| == |team| && forall i :: 0 <= i < |vs| ==> vs[i] == team[i].View()
  {
    seq(|team|, i requires 0 <= i < |team| reads team => team[i].View())
  }

  /** struct thread_pool; `team` are the workers in the list, `jobs` the jobs behind the queued requests. */
  class Pool {
    const workers: LinkedList<PoolWorker>
    const queue: LinkedList<Request>
    var inactiveNum: nat
    ghost var team: seq<PoolWorker>
    ghost var jobs: seq<Job>
    ghost var posted: set<nat>
    ghost var accepted: seq<Job>
    ghost var handed: seq<Job>
    ghost var finished: seq<Job>
    ghost var dropped: seq<Job>

    ghost predicate Valid()
      reads this`team, this`jobs, workers, workers.nodes, queue, queue.nodes, team
    {
      && workers.Valid() && workers.Contents() == team && queue.Valid() && Matches(queue.Contents(), jobs)
      && (forall i, j :: 0 <= i < j < |team| ==> team[i] != team[j])
      && (forall i :: 0 <= i < |team| ==> team[i].Holds())
    }

    ghost function Views(): seq<Worker>
      reads this`team, team
    {
      ViewsOf(team)
    }

    /** Only worker i and fields that are not part of it have changed. */
    twostate lemma ViewsAfter(i: nat)
      requires old(Valid()) && unchanged(this`team, this`jobs, workers, queue)
      requires unchanged(workers.nodes, queue.nodes)
      requires i < |team| && team[i].Holds()
      requires forall k :: 0 <= k < |team| && k != i ==> unchanged(team[k])
      ensures Valid() && Views() == old(Views())[i := team[i].View()]
    {
    }

    ghost function Now(): State
      reads this, queue, team
    {
      State(Views(), jobs, queue.max, inactiveNum, posted, accepted, handed, finished, dropped)
    }

    /** pool_create up to the call of pool_start */
    constructor (max: nat, limit: nat)
      requires max < U32 && limit < U32
      ensures Valid() && team == [] && Now() == Created(0, limit)
      ensures fresh(workers) && fresh(workers.nodes) && fresh(queue) && fresh(queue.nodes)
    {
      workers := new LinkedList<PoolWorker>(max);
      queue := new LinkedList<Request>(limit);
      inactiveNum, team, jobs := 0, [], [];
      posted, accepted, handed, finished, dropped := {}, [], [], [], [];
    }

    /** pool_start, on a pool without workers; pool_create holds inactive_sem meanwhile */
    method Start(threads: nat)
      requires Valid() && team == [] && threads < U32
      modifies this`team, workers, workers.nodes
      ensures Valid() && fresh(workers.nodes) && fresh(team) && |team| == threads
      ensures forall k :: 0 <= k < threads ==> team[k].View() == Worker(AtTop, true, false, 0, None)
    {
      for i := 0 to threads
        invariant Valid() && fresh(workers.nodes) && fresh(team) && |team| == i
        invariant forall k :: 0 <= k < i ==> team[k].View() == Worker(AtTop, true, false, 0, None)
      {
        ghost var node, worker := AddWorker();
      }
    }

    /** worker_create and list_append */
    method AddWorker() returns (ghost node: Node<PoolWorker>, ghost worker: PoolWorker)
      requires Valid() && |team| + 1 < U32
      modifies this`team, workers, workers.nodes
      ensures Valid() && team == old(team) + [worker] && workers.nodes == old(workers.nodes) + [node]
      ensures fresh(node) && fresh(worker) && worker.View() == Worker(AtTop, true, false, 0, None)
    {
      var created := new PoolWorker();
      workers.Append(created);
      team := team + [created];
      node, worker := workers.nodes[|workers.nodes| - 1], created;
    }

    /** list_find(pool->workers, worker_inactive_test) */
    method FindInactive() returns (worker: PoolWorker?, ghost i: nat)
      requires Valid()
      ensures worker == null <==> FindIdle(Views()).None?
      ensures worker != null ==> FindIdle(Views()) == Some(i) && worker == team[i]
    {
      var comp := workers.front;
      i := 0;
      ghost var vs := Views();
      while comp != null
        invariant 0 <= i <= |vs| && comp == (if i < |vs| then workers.nodes[i] else null)
        invariant forall k :: 0 <= k < i ==> !Idle(vs[k])
        decreases |vs| - i
      {
        worker := comp.data;
        assert worker.View() == vs[i];
        if worker.running && worker.inactive { return; }
        comp := comp.next;
        i := i + 1;
      }
      worker := null;
    }

    /** The assignments pool_execute makes to the inactive worker it found. */
    method HandOver(worker: PoolWorker, ghost i: nat, work: int, local: int)
      requires Valid() && i < |team| && worker == team[i] && Decide(Now()) == Handed(i)
      modifies this`inactiveNum, this`accepted, this`handed, worker
      ensures Valid() && Now() == ApplyExecute(old(Now()), work, local)
    {
      ghost var job := Job(|accepted|, work, local);
      accepted, handed := accepted + [job], handed + [job];
      inactiveNum := inactiveNum - 1;
      worker.Load(Request(work, local), job);
      ViewsAfter(i);
    }

    /** pool_execute, from the wait for inactive_sem to its release */
    method Execute(work: int, local: int) returns (ok: bool)
      requires Valid()
      modifies this`inactiveNum, this`jobs, this`accepted, this`handed, queue, queue.nodes, team
      ensures Valid()
      ensures Now() == ApplyExecute(old(Now()), work, local)
      ensures ok <==> accepted == old(accepted) + [Job(|old(accepted)|, work, local)]
      ensures !ok ==> Now() == old(Now())
    {
      if inactiveNum > 0 {
        var worker, i := FindInactive();
        if worker == null { return false; }
        HandOver(worker, i, work, local);
        return true;
      } else if queue.len < queue.max {
        Enqueue(work, local);
        return true;
      }
      return false;
    }

    /** The request pool_execute appends to the queue. */
    method Enqueue(work: int, local: int)
      requires Valid() && Decide(Now()) == Queued
      modifies this`jobs, this`accepted, queue, queue.nodes
      ensures Valid() && Now() == ApplyExecute(old(Now()), work, local)
    {
      ghost var job := Job(|accepted|, work, local);
      accepted := accepted + [job];
      PushRequest(Request(work, local), job);
    }

    /** list_append on the queue */
    method PushRequest(request: Request, ghost job: Job)
      requires Valid() && queue.len < queue.max && request == RequestOf(job)
      modifies this`jobs, queue, queue.nodes
      ensures Valid() && jobs == old(jobs) + [job]
    {
      queue.Append(request);
      jobs := jobs + [job];
    }

    /** worker_thread, the block between the wait for inactive_sem and its release */
    method WorkerTop(worker: PoolWorker, ghost i: nat)
      requires Valid() && Enabled(Now(), Top(i)) && worker == team[i]
      modifies this`inactiveNum, this`jobs, this`handed, queue, queue.nodes, worker
      ensures Valid()
      ensures Now() == Apply(old(Now()), Top(i))
    {
      if queue.len == 0 {
        inactiveNum := inactiveNum + 1;
        worker.Park();
        ViewsAfter(i);
      } else if worker.running {
        TakeRequest(worker, i);
      } else {
        worker.MoveTo(Exited, worker.activate);
        ViewsAfter(i);
      }
    }

    /** The part of worker_thread that takes the first request off the queue. */
    method TakeRequest(worker: PoolWorker, ghost i: nat)
      requires Valid() && i < |team| && worker == team[i] && queue.len > 0
      modifies this`jobs, this`handed, queue, queue.nodes, worker
      ensures Valid() && jobs == old(jobs)[1..] && handed == old(handed) + [old(jobs)[0]]
      ensures Views() == old(Views())[i := old(worker.View()).(pc := Ready, slot := Some(old(jobs)[0]))]
    {
      ghost var job := jobs[0];
      var request := Dequeue();
      label L: handed := handed + [job];
      worker.Fetch(request, job);
      ViewsAfter@L(i);
    }

    /** list_remove_front on the queue */
    method Dequeue() returns (request: Request)
      requires Valid() && queue.len > 0
      modifies this`jobs, queue, queue.nodes
      ensures Valid() && request == RequestOf(old(jobs)[0]) && jobs == old(jobs)[1..]
      ensures Views() == old(Views())
    {
      var front := queue.RemoveFront();
      request := front.value;
      jobs := jobs[1..];
    }

    /** worker_thread, the wait for activate_sem */
    method WaitActivate(worker: PoolWorker, ghost i: nat)
      requires Valid() && Enabled(Now(), Take(i)) && worker == team[i]
      modifies worker
      ensures Valid() && Now() == Apply(old(Now()), Take(i))
    {
      worker.MoveTo(Woken, worker.activate - 1);
      ViewsAfter(i);
    }

    /** worker_thread, the test of running after that wait; false when the loop is left */
    method TestRunning(worker: PoolWorker, ghost i: nat) returns (go: bool)
      requires Valid() && Enabled(Now(), Test(i)) && worker == team[i]
      modifies this`dropped, worker
      ensures Valid() && Now() == Apply(old(Now()), Test(i)) && go == old(worker.running)
    {
      go := worker.running;
      if go {
        worker.MoveTo(Ready, worker.activate);
      } else {
        if !worker.inactive && worker.slot.Some? { dropped := dropped + [worker.slot.value]; }
        worker.MoveTo(Exited, worker.activate);
      }
      ViewsAfter(i);
    }

    /** worker_thread, the call: what is called is what pool_execute was given for the job in hand */
    method CallWork(worker: PoolWorker, ghost i: nat) returns (work: int, local: int)
      requires Valid() && Enabled(Now(), Call(i)) && worker == team[i]
      modifies worker
      ensures Valid()
      ensures Now() == Apply(old(Now()), Call(i))
      ensures InHand(worker.View()).Some? && Request(work, local) == RequestOf(InHand(worker.View()).value)
    {
      work, local := worker.work, worker.local;
      worker.MoveTo(Busy(worker.slot.value), worker.activate);
      ViewsAfter(i);
    }

    /** worker_thread, the return of the call */
    method FinishWork(worker: PoolWorker, ghost i: nat)
      requires Valid() && Enabled(Now(), Return(i)) && worker == team[i]
      modifies this`finished, worker
      ensures Valid() && Now() == Apply(old(Now()), Return(i))
    {
      finished := finished + [worker.pc.job];
      worker.MoveTo(AtTop, worker.activate);
      ViewsAfter(i);
    }

    /** worker_shutdown before the join; the two statements are separate steps */
    method WorkerShutdown(worker: PoolWorker, ghost i: nat)
      requires Valid() && i < |team| && worker == team[i] && i !in posted
      modifies this`posted, worker
      ensures Valid()
      ensures Now() == Apply(Apply(old(Now()), ClearRunning(i)), PostShutdown(i))
    {
      ClearFlag(worker, i);
      PostActivate(worker, i);
    }

    method PostActivate(worker: PoolWorker, ghost i: nat)
      requires Valid() && Enabled(Now(), PostShutdown(i)) && worker == team[i]
      modifies this`posted, worker
      ensures Valid() && Now() == Apply(old(Now()), PostShutdown(i))
    {
      posted := posted + {i};
      worker.activate := worker.activate + 1;
      ViewsAfter(i);
    }

    method ClearFlag(worker: PoolWorker, ghost i: nat)
      requires Valid() && i < |team| && worker == team[i]
      modifies worker
      ensures Valid() && Now() == Apply(old(Now()), ClearRunning(i))
    {
      worker.running := false;
      ViewsAfter(i);
    }
  }

  /** pool_create */
  method PoolCreate(initial: nat, max: nat, limit: nat) returns (pool: Pool)
    requires initial < U32 && max < U32 && limit < U32
    ensures fresh(pool) && pool.Valid() && pool.Now() == Created(initial, limit)
  {
    pool := new Pool(max, limit);
    pool.Start(initial);
    assert pool.Views() == Created(initial, limit).workers;
  }
}
