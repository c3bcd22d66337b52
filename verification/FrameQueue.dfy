/** The frame queue: the circular buffer of libs/data_structure/queue.c and its teardown in finsqueue.c. */
module FrameQueue {
  import opened Frames

  /** C's % : the remainder takes the sign of the dividend. */
  function CRem(a: int, b: int): int
    requires b > 0
  {
    if a >= 0 then a % b else -((-a) % b)
  }

  function Succ(value: int, capacity: int): int
    requires capacity > 0
  {
    CRem(value + 1, capacity)
  }

  function Prev(value: int, capacity: int): int
    requires capacity > 0
  {
    CRem(value - 1, capacity)
  }

  /** Succ goes round the ring. */
  lemma SuccWraps(value: int, capacity: int)
    requires 0 <= value < capacity
    ensures Succ(value, capacity) == if value + 1 == capacity then 0 else value + 1
  {
    if value + 1 < capacity { SmallRemainder(value + 1, capacity); }
  }

  lemma SmallRemainder(a: int, b: int)
    requires 0 <= a < b
    ensures a % b == a
  {
  }

  /** Prev goes round the ring exactly when it does not start at 0, where it leaves the array. */
  lemma PrevWrapsIff(value: int, capacity: int)
    requires 0 <= value < capacity && capacity >= 2
    ensures Prev(value, capacity) == value - 1
    ensures 0 <= Prev(value, capacity) < capacity <==> value != 0
  {
    if value > 0 { SmallRemainder(value - 1, capacity); } else { SmallRemainder(1, capacity); }
  }

  /** The frames among the pointers, in order. */
  function NonNull(s: seq<Frame?>): seq<Frame> {
    if s == [] then []
    else NonNull(s[..|s| - 1]) + (if s[|s| - 1] == null then [] else [s[|s| - 1]])
  }

  lemma {:induction false} NonNullConcat(a: seq<Frame?>, b: seq<Frame?>)
    ensures NonNull(a + b) == NonNull(a) + NonNull(b)
  {
    if b == [] {
      assert a + b == a;
    } else {
      var n := |b| - 1;
      NonNullConcat(a, b[..n]);
      assert (a + b)[..|a + b| - 1] == a + b[..n];
    }
  }

  predicate AllFrames(s: seq<Frame?>) {
    forall k :: 0 <= k < |s| ==> s[k] != null
  }

  predicate AllNull(s: seq<Frame?>) {
    forall k :: 0 <= k < |s| ==> s[k] == null
  }

  lemma FrontAndLast(s: seq<Frame?>)
    requires s != []
    ensures s == s[..|s| - 1] + [s[|s| - 1]]
    ensures AllFrames(s) <==> AllFrames(s[..|s| - 1]) && s[|s| - 1] != null
    ensures AllNull(s) <==> AllNull(s[..|s| - 1]) && s[|s| - 1] == null
  {
    var front := s[..|s| - 1];
    assert forall k :: 0 <= k < |front| ==> s[k] == front[k];
  }

  lemma {:induction false} NonNullAll(s: seq<Frame?>)
    ensures |NonNull(s)| <= |s| && (AllFrames(s) <==> |NonNull(s)| == |s|)
    ensures |NonNull(s)| == |s| ==> NonNull(s) == s
    ensures NonNull(s) == [] <==> AllNull(s)
  {
    if s != [] {
      NonNullAll(s[..|s| - 1]);
      FrontAndLast(s);
    }
  }

  /** The index k places after front on a ring of n cells. */
  function Pos(front: int, k: int, n: int): int {
    if front + k < n then front + k else front + k - n
  }

  /** The cells of the ring, from front on, once round. */
  function Rotated(cells: seq<Frame?>, front: int): (r: seq<Frame?>)
    requires 0 <= front < |cells|
    ensures |r| == |cells| && forall k :: 0 <= k < |cells| ==> r[k] == cells[Pos(front, k, |cells|)]
  {
    cells[front..] + cells[..front]
  }

  lemma RotatedUpdate(cells: seq<Frame?>, front: int, k: int, x: Frame?)
    requires 0 <= front < |cells| && 0 <= k < |cells|
    ensures Rotated(cells[Pos(front, k, |cells|) := x], front) == Rotated(cells, front)[k := x]
  {
  }

  /** Moving front one cell on turns the view by one. */
  lemma RotatedTurn(cells: seq<Frame?>, front: int)
    requires 0 <= front < |cells|
    ensures Rotated(cells, Pos(front, 1, |cells|)) == Rotated(cells, front)[1..] + [Rotated(cells, front)[0]]
  {
  }

  /** Clearing the front cell and moving on drops it from the view and puts NULL at the end. */
  lemma RotatedDrop(cells: seq<Frame?>, front: int)
    requires 0 <= front < |cells|
    ensures Rotated(cells[front := null], Pos(front, 1, |cells|)) == Rotated(cells, front)[1..] + [null]
  {
    RotatedTurn(cells[front := null], front);
    RotatedUpdate(cells, front, 0, null);
  }

  /** Writing the cell before front and moving back puts it first and hides the last. */
  lemma RotatedPush(cells: seq<Frame?>, front: int, x: Frame?)
    requires 0 < front < |cells|
    ensures Rotated(cells[front - 1 := x], front - 1) == [x] + Rotated(cells, front)[..|cells| - 1]
  {
    RotatedTurn(cells, front - 1);
    RotatedUpdate(cells, front - 1, 0, x);
  }

  /** The first n pointers are frames, the others NULL. */
  predicate CleanView(v: seq<Frame?>, n: int) {
    && (forall k :: 0 <= k < n && k < |v| ==> v[k] != null)
    && (forall k :: n <= k < |v| && 0 <= k ==> v[k] == null)
  }

  lemma ViewAfterDrop(v: seq<Frame?>, n: int)
    requires 0 < n <= |v|
    ensures (v[1..] + [null])[..n - 1] == v[..n][1..]
    ensures CleanView(v, n) ==> CleanView(v[1..] + [null], n - 1)
  {
  }

  lemma ViewAfterAdd(v: seq<Frame?>, n: int, x: Frame)
    requires 0 <= n < |v|
    ensures v[n := x][..n + 1] == v[..n] + [x]
    ensures CleanView(v, n) ==> CleanView(v[n := x], n + 1)
  {
  }

  lemma ViewAfterTurn(v: seq<Frame?>, n: int)
    requires 0 < n <= |v|
    ensures (v[1..] + [v[0]])[..n - 1] == v[..n][1..]
  {
  }

  lemma ViewAfterPush(v: seq<Frame?>, n: int, x: Frame)
    requires 0 <= n < |v|
    ensures ([x] + v[..|v| - 1])[..n + 1] == [x] + v[..n]
    ensures CleanView(v, n) ==> CleanView([x] + v[..|v| - 1], n + 1)
  {
  }

  datatype Push = Pushed | Full | Outside

  /** struct QueueRecord */
  class Queue {
    const capacity: int
    var front: int
    var rear: int
    var size: int
    const cells: array<Frame?>

    /** The indices stay on the ring and rear is size - 1 places after front. */
    ghost predicate Ring()
      reads this
    {
      && capacity >= 2 && cells.Length == capacity
      && 0 <= front < capacity && 0 <= rear < capacity && 0 <= size <= capacity
      && rear == Pos(front, if size == 0 then capacity - 1 else size - 1, capacity)
    }

    /** All cells, from front on. */
    ghost function View(): (v: seq<Frame?>)
      requires Ring()
      reads this, cells
      ensures |v| == capacity
    {
      Rotated(cells[..], front)
    }

    ghost function Contents(): seq<Frame?>
      requires Ring()
      reads this, cells
    {
      View()[..size]
    }

    /** The queued pointers are frames, and every cell outside the window is NULL. */
    ghost predicate Clean()
      requires Ring()
      reads this, cells
    {
      CleanView(View(), size)
    }

    /** CreateQueue; secure_malloc zeroes the array */
    constructor (maxElements: int)
      requires maxElements >= 2
      ensures Ring() && fresh(cells) && Contents() == [] && Clean() && capacity == maxElements && front == 1
    {
      capacity := maxElements;
      cells := new Frame?[maxElements](_ => null);
      size, front, rear := 0, 1, 0;
    }

    /** Succ(Q->Front) and, with `at` the rear, Succ(Q->Rear) */
    method Next(at: int) returns (next: int)
      requires capacity >= 2 && 0 <= at < capacity
      ensures next == Pos(at, 1, capacity)
    {
      SuccWraps(at, capacity);
      next := Succ(at, capacity);
    }

    /** Prev(Q->Front) */
    method BeforeFront() returns (at: int)
      requires capacity >= 2 && 0 <= front < capacity
      ensures at == front - 1
    {
      PrevWrapsIff(front, capacity);
      at := Prev(front, capacity);
    }

    /** Enqueue */
    method Enqueue(x: Frame) returns (ok: bool)
      requires Ring()
      modifies this, cells
      ensures Ring() && ok == (old(size) != capacity) && front == old(front)
      ensures ok ==> size == old(size) + 1 && View() == old(View())[old(size) := x]
      ensures Contents() == if ok then old(Contents()) + [x] else old(Contents())
      ensures old(Clean()) ==> Clean()
    {
      if size == capacity { return false; }
      ViewAfterAdd(View(), size, x);
      PushRear(x);
      return true;
    }

    /** The assignments of Enqueue. */
    method PushRear(x: Frame)
      requires Ring() && size < capacity
      modifies this, cells
      ensures Ring() && front == old(front) && size == old(size) + 1
      ensures View() == old(View())[old(size) := x]
    {
      RotatedUpdate(cells[..], front, size, x);
      size := size + 1;
      rear := Next(rear);
      cells[rear] := x;
      assert cells[..] == old(cells[..])[rear := x];
    }

    /** EnqueueFront; at front 0 the index Prev computes is outside the array, and the model stops there */
    method EnqueueFront(x: Frame) returns (r: Push)
      requires Ring()
      modifies this, cells
      ensures Ring()
      ensures r == if old(size) == capacity then Full else if old(front) == 0 then Outside else Pushed
      ensures r.Pushed? ==>
        front == old(front) - 1 && size == old(size) + 1 && View() == [x] + old(View())[..capacity - 1]
      ensures r.Pushed? ==> Contents() == [x] + old(Contents())
      ensures !r.Pushed? ==> front == old(front) && View() == old(View()) && Contents() == old(Contents())
      ensures old(Clean()) ==> Clean()
    {
      if size == capacity { return Full; }
      var at := BeforeFront();
      if at < 0 { return Outside; }
      GoFirst(x);
      return Pushed;
    }

    method GoFirst(x: Frame)
      requires Ring() && size < capacity && front != 0
      modifies this, cells
      ensures Ring() && front == old(front) - 1 && size == old(size) + 1
      ensures View() == [x] + old(View())[..capacity - 1] && Contents() == [x] + old(Contents())
      ensures old(Clean()) ==> Clean()
    {
      ghost var v, n := View(), size;
      PushFront(x);
      ghost var now := [x] + v[..|v| - 1];
      assert View() == now && Contents() == now[..n + 1];
      ViewAfterPush(v, n, x);
    }

    /** The assignments of EnqueueFront. */
    method PushFront(x: Frame)
      requires Ring() && size < capacity && front != 0
      modifies this, cells
      ensures Ring() && front == old(front) - 1 && size == old(size) + 1
      ensures View() == [x] + old(View())[..capacity - 1]
    {
      RotatedPush(cells[..], front, x);
      size := size + 1;
      front := BeforeFront();
      cells[front] := x;
      assert cells[..] == old(cells[..])[front := x];
    }

    /** FrontAndDequeue */
    method FrontAndDequeue() returns (x: Frame?)
      requires Ring()
      modifies this, cells
      ensures Ring()
      ensures old(size) == 0 ==> x == null && Contents() == old(Contents())
      ensures old(size) > 0 ==> x == old(Contents())[0] && Contents() == old(Contents())[1..]
      ensures old(size) > 0 ==> size == old(size) - 1 && View() == old(View())[1..] + [null]
      ensures front == if old(size) == 0 then old(front) else Pos(old(front), 1, capacity)
      ensures old(Clean()) ==> Clean()
    {
      if size == 0 { return null; }
      ViewAfterDrop(View(), size);
      x := CutFront();
    }

    /** The assignments of FrontAndDequeue. */
    method CutFront() returns (x: Frame?)
      requires Ring() && size > 0
      modifies this, cells
      ensures Ring() && size == old(size) - 1 && front == Pos(old(front), 1, capacity)
      ensures x == old(View())[0] && View() == old(View())[1..] + [null]
    {
      RotatedDrop(cells[..], front);
      size := size - 1;
      x := cells[front];
      cells[front] := null;
      assert cells[..] == old(cells[..])[front := null];
      front := Next(front);
    }

    /** Dequeue, which leaves the pointer in its cell */
    method Dequeue()
      requires Ring()
      modifies this
      ensures Ring()
      ensures old(size) == 0 ==> size == 0 && View() == old(View())
      ensures old(size) > 0 ==> size == old(size) - 1 && View() == old(View())[1..] + [old(View())[0]]
      ensures Contents() == if old(size) == 0 then old(Contents()) else old(Contents())[1..]
    {
      if size > 0 {
        ViewAfterTurn(View(), size);
        RotatedTurn(cells[..], front);
        size := size - 1;
        front := Next(front);
      }
    }

    /** One of the loops of TerminateFinsQueue: freeFinsFrame on the frames in the cells from lo to hi - 1 */
    method FreeCells(lo: int, hi: int) returns (freed: seq<Frame>)
      requires 0 <= lo <= hi <= cells.Length
      ensures freed == NonNull(cells[lo..hi])
    {
      freed := [];
      for i := lo to hi
        invariant freed == NonNull(cells[lo..i])
      {
        assert cells[lo..i + 1][..i - lo] == cells[lo..i];
        if cells[i] != null {
          freed := freed + [cells[i]];
        }
      }
    }

    /**
      TerminateFinsQueue, with the frames it frees in order. It walks from front to rear, which on an
      empty queue is once round the ring, and returns 1 exactly when it freed as many as were queued.
     */
    method TerminateFinsQueue() returns (rc: int, freed: seq<Frame>)
      requires Ring()
      modifies this`size
      ensures size == 0
      ensures freed == TornDown(old(View()), old(size))
      ensures rc == if |freed| == old(size) then 1 else 0
    {
      var count := size;
      ghost var all := cells[..];
      WalkOrder(all, front, rear, size);
      if front <= rear {
        freed := FreeCells(front, rear + 1);
        assert cells[front..rear + 1] == all[front..rear + 1];
      } else {
        freed := FreeCells(front, capacity);
        var more := FreeCells(0, rear + 1);
        assert cells[front..capacity] == all[front..] && cells[0..rear + 1] == all[..rear + 1];
        NonNullConcat(all[front..], all[..rear + 1]);
        freed := freed + more;
      }
      size := 0;
      rc := if |freed| == count then 1 else 0;
    }
  }

  /** How many cells the teardown walks over. */
  function Walked(v: seq<Frame?>, size: int): int {
    if size == 0 then |v| else size
  }

  /** Walking from front to rear covers the window, or the whole ring when the queue is empty. */
  lemma WalkOrder(cells: seq<Frame?>, front: int, rear: int, size: int)
    requires 0 <= front < |cells| && 0 <= size <= |cells|
    requires rear == Pos(front, if size == 0 then |cells| - 1 else size - 1, |cells|)
    ensures front <= rear ==> cells[front..rear + 1] == Rotated(cells, front)[..Walked(cells, size)]
    ensures front > rear ==> cells[front..] + cells[..rear + 1] == Rotated(cells, front)[..Walked(cells, size)]
  {
  }

  /** The frames it frees. */
  function TornDown(v: seq<Frame?>, size: int): seq<Frame>
    requires 0 <= size <= |v|
  {
    NonNull(v[..Walked(v, size)])
  }

  predicate Distinct(s: seq<Frame?>) {
    forall i, j :: 0 <= i < j < |s| ==> s[i] != s[j]
  }

  /** Distinct means that every element occurs once. */
  lemma {:induction false} DistinctIffOnceEach(s: seq<Frame?>)
    ensures Distinct(s) <==> forall x :: x in s ==> multiset(s)[x] == 1
  {
    if s != [] {
      var n := |s| - 1;
      var before, last := s[..n], s[n];
      assert s == before + [last];
      DistinctIffOnceEach(before);
      assert multiset(s) == multiset(before) + multiset{last};
      assert forall x :: x in s <==> x in before || x == last;
      assert Distinct(s) <==> Distinct(before) && last !in before;
    }
  }

  /**
    When the queued pointers are frames, the teardown frees just these, each exactly once and in order,
    if and only if no frame is queued twice and the queue is not empty or no cell holds a pointer that
    was left behind. It returns 1 whether or not a frame is queued twice.
   */
  lemma TeardownFreesQueuedIff(v: seq<Frame?>, size: int)
    requires 0 <= size <= |v| && forall k :: 0 <= k < size ==> v[k] != null
    ensures var freed := TornDown(v, size);
      && (freed == v[..size] && (forall x :: x in freed ==> multiset(freed)[x] == 1) <==>
            Distinct(v[..size]) && (size > 0 || forall k :: 0 <= k < |v| ==> v[k] == null))
      && (|freed| == size <==> size > 0 || forall k :: 0 <= k < |v| ==> v[k] == null)
      && (CleanView(v, size) ==> freed == v[..size])
  {
    NonNullAll(v[..Walked(v, size)]);
    assert v[..|v|] == v;
    DistinctIffOnceEach(TornDown(v, size));
  }

  lemma OneLeftBehind(v: seq<Frame?>, x: Frame)
    requires v != [] && v[|v| - 1] == x && forall k :: 0 <= k < |v| - 1 ==> v[k] == null
    ensures TornDown(v, 0) == [x]
  {
    var n := |v| - 1;
    NonNullAll(v[..n]);
    assert v[..|v|] == v && v == v[..n] + [x];
    NonNullConcat(v[..n], [x]);
  }

  /** After Dequeue the frame it took out is still in its cell, and tearing down the empty queue frees it. */
  method DequeuedFrameIsFreed(x: Frame, capacity: int) returns (rc: int, freed: seq<Frame>)
    requires capacity >= 2
    ensures rc == 0 && freed == [x]
  {
    var q := new Queue(capacity);
    var ok := q.Enqueue(x);
    q.Dequeue();
    OneLeftBehind(q.View(), x);
    rc, freed := q.TerminateFinsQueue();
  }

  // ----- every queue that can be made -----

  datatype Op = Add(x: Frame) | AddFront(x: Frame) | Take

  /** What is queued after these operations on a new queue. */
  function Queued(ops: seq<Op>, capacity: int): seq<Frame> {
    if ops == [] then []
    else
      var before := Queued(ops[..|ops| - 1], capacity);
      match ops[|ops| - 1]
      case Add(x) => if |before| == capacity then before else before + [x]
      case AddFront(x) => if |before| == capacity then before else [x] + before
      case Take => if before == [] then before else before[1..]
  }

  /** Where front is after them. */
  function FrontAt(ops: seq<Op>, capacity: int): int {
    if ops == [] then 1
    else
      var before, n := FrontAt(ops[..|ops| - 1], capacity), |Queued(ops[..|ops| - 1], capacity)|;
      match ops[|ops| - 1]
      case Add(_) => before
      case AddFront(_) => if n == capacity then before else before - 1
      case Take => if n == 0 then before else Pos(before, 1, capacity)
  }

  /** EnqueueFront is called on a queue with space only when front is not 0. */
  ghost predicate StaysInside(ops: seq<Op>, capacity: int) {
    forall k :: 0 <= k < |ops| && ops[k].AddFront? && |Queued(ops[..k], capacity)| != capacity ==>
      FrontAt(ops[..k], capacity) != 0
  }

  lemma InsideSoFar(ops: seq<Op>, capacity: int, k: nat)
    requires k < |ops|
    ensures StaysInside(ops[..k + 1], capacity) <==>
      && StaysInside(ops[..k], capacity)
      && (ops[k].AddFront? && |Queued(ops[..k], capacity)| != capacity ==> FrontAt(ops[..k], capacity) != 0)
  {
    var now := ops[..k + 1];
    assert forall j {:trigger now[..j]} :: 0 <= j <= k ==> now[..j] == ops[..j] == ops[..k][..j];
    assert forall j :: 0 <= j < k ==> now[j] == ops[..k][j];
    assert now[k] == ops[k] && now[..k] == ops[..k];
  }

  lemma InsidePrefix(ops: seq<Op>, capacity: int, k: nat)
    requires k <= |ops|
    ensures StaysInside(ops, capacity) ==> StaysInside(ops[..k], capacity)
  {
    var now := ops[..k];
    assert forall j {:trigger now[..j]} :: 0 <= j < k ==> now[..j] == ops[..j] && now[j] == ops[j];
  }

  /** One operation; false when EnqueueFront would leave the array. */
  method Perform(q: Queue, op: Op) returns (inside: bool)
    requires q.Ring() && q.Clean()
    modifies q, q.cells
    ensures q.Ring() && q.Clean()
    ensures inside <==> !(op.AddFront? && |old(q.Contents())| != q.capacity && old(q.front) == 0)
    ensures inside ==>
      match op
      case Add(x) =>
        && q.front == old(q.front)
        && q.Contents() == if |old(q.Contents())| == q.capacity then old(q.Contents()) else old(q.Contents()) + [x]
      case AddFront(x) =>
        && q.front == (if |old(q.Contents())| == q.capacity then old(q.front) else old(q.front) - 1)
        && q.Contents() == if |old(q.Contents())| == q.capacity then old(q.Contents()) else [x] + old(q.Contents())
      case Take =>
        && q.front == (if old(q.Contents()) == [] then old(q.front) else Pos(old(q.front), 1, q.capacity))
        && q.Contents() == if old(q.Contents()) == [] then [] else old(q.Contents())[1..]
  {
    inside := true;
    match op {
      case Add(x) =>
        var ok := q.Enqueue(x);
      case AddFront(x) =>
        var r := q.EnqueueFront(x);
        inside := !r.Outside?;
      case Take =>
        var x := q.FrontAndDequeue();
    }
  }

  /** A new queue and these operations, up to one that would leave the array. */
  method Build(ops: seq<Op>, capacity: int) returns (q: Queue, inside: bool)
    requires capacity >= 2
    ensures fresh(q) && fresh(q.cells) && q.Ring() && q.Clean() && q.capacity == capacity
    ensures inside <==> StaysInside(ops, capacity)
    ensures inside ==> q.Contents() == Queued(ops, capacity)
  {
    q := new Queue(capacity);
    for k := 0 to |ops|
      invariant fresh(q) && fresh(q.cells) && q.Ring() && q.Clean() && q.capacity == capacity
      invariant StaysInside(ops[..k], capacity)
      invariant q.front == FrontAt(ops[..k], capacity) && q.Contents() == Queued(ops[..k], capacity)
    {
      InsideSoFar(ops, capacity, k);
      assert ops[..k + 1][..k] == ops[..k];
      inside := Perform(q, ops[k]);
      if !inside {
        InsidePrefix(ops, capacity, k + 1);
        return;
      }
    }
    assert ops[..|ops|] == ops;
    inside := true;
  }

  /**
    Any operations on a new queue, and its teardown: whatever the layout, exactly the frames then queued
    are freed, in order, and the result is 1; each of them is freed once if and only if none is queued
    twice.
   */
  method BuildAndTerminate(ops: seq<Op>, capacity: int) returns (inside: bool, rc: int, freed: seq<Frame>)
    requires capacity >= 2
    ensures inside <==> StaysInside(ops, capacity)
    ensures inside ==> freed == Queued(ops, capacity) && rc == 1
    ensures inside ==>
      (Distinct(Queued(ops, capacity)) <==> forall x :: x in freed ==> multiset(freed)[x] == 1)
  {
    var q;
    q, inside := Build(ops, capacity);
    TeardownFreesQueuedIff(q.View(), q.size);
    rc, freed := q.TerminateFinsQueue();
    DistinctIffOnceEach(freed);
  }

  /** A frame queued twice is freed twice, and the teardown still returns 1. */
  method QueuedTwiceFreedTwice(x: Frame, capacity: int) returns (rc: int, freed: seq<Frame>)
    requires capacity >= 2
    ensures rc == 1 && freed == [x, x] && multiset(freed)[x] == 2
  {
    var inside;
    var ops := [Add(x), Add(x)];
    assert ops[..1] == [Add(x)] && ops[..0] == [];
    assert Queued(ops[..1], capacity) == [x];
    inside, rc, freed := BuildAndTerminate(ops, capacity);
  }

  /** One EnqueueFront on a new queue leaves front at 0 with space left; the next one leaves the array. */
  method SecondEnqueueFrontLeavesArray(x: Frame, capacity: int) returns (r: Push)
    requires capacity >= 2
    ensures r.Outside?
    ensures Prev(0, capacity) == -1
  {
    var q := new Queue(capacity);
    r := q.EnqueueFront(x);
    assert q.front == 0 && q.size == 1;
    r := q.EnqueueFront(x);
    PrevWrapsIff(0, capacity);
  }
}
