/** Which entries of the socket table calls can register on, in every interleaving. */
module WedgeSockets {
  import opened Prelude
  import opened WedgeProtocol

  /** The entry is in use for this socket and, where the release mark counts, no release of it has begun. */
  predicate InUse(s: State, i: int, id: nat, mark: bool) {
    0 <= i < |s.sockets| && s.sockets[i].sockId == id && !(mark && s.sockets[i].releasing)
  }

  /** Calls can register on the entry. */
  predicate IsOpen(s: State, i: int, id: nat) {
    InUse(s, i, id, true)
  }

  /** fins_create takes entry i, the first free one, for this socket. */
  predicate Opens(s: State, a: Action, i: int, id: nat) {
    && a.Open? && a.sockId == id && 0 <= i < |s.sockets| && s.sockets[i].sockId == FREE_SOCK
    && forall j :: 0 <= j < i ==> s.sockets[j].sockId != FREE_SOCK
  }

  /** The answer stands for success: the call returns 0. */
  predicate Succeeded(o: Outcome) {
    o.Answered? && o.body.msg % 0x1_0000_0000 == 0 && ((o.body.ret == 200 && o.body.len == 0) || o.body.ret == 6666)
  }

  /** A release of the socket on entry i begins; 12 is RELEASE_CALL. */
  predicate BeginsRelease(s: State, a: Action, i: int) {
    a.Enter? && a.callType == 12 && IsOpen(s, i, a.sockId) && forall j :: 0 <= j < i ==> !IsOpen(s, j, a.sockId)
  }

  /** A release on entry i ends, or a socket() that did not succeed; 1 is SOCKET_CALL. */
  predicate EndsSocket(s: State, a: Action, i: int) {
    && a.Leave? && a.c in s.callers && s.callers[a.c].pc.Leaving? && s.callers[a.c].sockIndex == i
    && (s.callers[a.c].callType == 12 || (s.callers[a.c].callType == 1 && !Succeeded(s.callers[a.c].pc.outcome)))
  }

  /** Entry i is freed or, where the release mark counts, marked. */
  predicate Ends(s: State, a: Action, i: int, mark: bool) {
    (a.Purge? && a.i == i) || EndsSocket(s, a, i) || (mark && BeginsRelease(s, a, i))
  }

  ghost predicate InUseSince(trace: seq<State>, acts: seq<Action>, k: nat, i: int, id: nat, mark: bool)
    requires k <= |acts| <= |trace|
  {
    exists j :: 0 <= j < k && Opens(trace[j], acts[j], i, id)
                && forall n :: j < n < k ==> !Ends(trace[n], acts[n], i, mark)
  }

  lemma SucceededIff(o: Outcome)
    ensures Succeeded(o) <==> ReturnCode(o) == 0
  {
  }

  lemma LeaveStep(s: State, c: nat, i: int, id: nat, mark: bool)
    requires Enabled(s, Leave(c)) && id < FREE_SOCK
    ensures InUse(ApplyLeave(s, c), i, id, mark) <==> InUse(s, i, id, mark) && !EndsSocket(s, Leave(c), i)
  {
    SucceededIff(s.callers[c].pc.outcome);
    assert EndsSocket(s, Leave(c), i) <==> EndsByRemoval(s.callers[c]) && s.callers[c].sockIndex == i;
  }

  lemma EnterStep(s: State, c: nat, d: nat, t: nat, i: int, id: nat, mark: bool)
    requires Enabled(s, Enter(c, d, t)) && id < FREE_SOCK
    ensures InUse(ApplyEnter(s, c, d, t), i, id, mark) <==>
      InUse(s, i, id, mark) && !(mark && BeginsRelease(s, Enter(c, d, t), i))
  {
    var at := FindSocket(s.sockets, d).value;
    assert forall j :: 0 <= j < |s.sockets| ==> (Live(s.sockets[j], d) <==> IsOpen(s, j, d));
    assert BeginsRelease(s, Enter(c, d, t), i) <==> t == 12 && i == at;
  }

  lemma Step(s: State, a: Action, i: int, id: nat, mark: bool)
    requires Enabled(s, a) && id < FREE_SOCK
    ensures InUse(Apply(s, a), i, id, mark) <==> Opens(s, a, i, id) || (InUse(s, i, id, mark) && !Ends(s, a, i, mark))
  {
    match a
    case Leave(c) => LeaveStep(s, c, i, id, mark);
    case Enter(c, d, t) => EnterStep(s, c, d, t, i, id, mark);
    case _ =>
  }

  lemma InitiallyFree(trace: seq<State>, acts: seq<Action>, i: int, id: nat, mark: bool)
    requires IsRun(trace, acts) && id < FREE_SOCK
    ensures !InUse(trace[0], i, id, mark) && !InUseSince(trace, acts, 0, i, id, mark)
  {
  }

  lemma StepOfRun(trace: seq<State>, acts: seq<Action>, k: nat, i: int, id: nat, mark: bool)
    requires IsRun(trace, acts) && 0 < k < |trace| && id < FREE_SOCK
    ensures InUse(trace[k], i, id, mark) <==>
      || Opens(trace[k - 1], acts[k - 1], i, id)
      || (InUse(trace[k - 1], i, id, mark) && !Ends(trace[k - 1], acts[k - 1], i, mark))
  {
    Step(trace[k - 1], acts[k - 1], i, id, mark);
  }

  lemma SinceStep(trace: seq<State>, acts: seq<Action>, k: nat, i: int, id: nat, mark: bool)
    requires 0 < k <= |acts| <= |trace|
    ensures InUseSince(trace, acts, k, i, id, mark) <==>
      || Opens(trace[k - 1], acts[k - 1], i, id)
      || (InUseSince(trace, acts, k - 1, i, id, mark) && !Ends(trace[k - 1], acts[k - 1], i, mark))
  {
    if InUseSince(trace, acts, k - 1, i, id, mark) && !Ends(trace[k - 1], acts[k - 1], i, mark) {
      var j :| 0 <= j < k - 1 && Opens(trace[j], acts[j], i, id)
               && forall n :: j < n < k - 1 ==> !Ends(trace[n], acts[n], i, mark);
      assert Opens(trace[j], acts[j], i, id) && forall n :: j < n < k ==> !Ends(trace[n], acts[n], i, mark);
    }
    if InUseSince(trace, acts, k, i, id, mark) {
      var j :| 0 <= j < k && Opens(trace[j], acts[j], i, id)
               && forall n :: j < n < k ==> !Ends(trace[n], acts[n], i, mark);
      if j < k - 1 {
        assert Opens(trace[j], acts[j], i, id) && forall n :: j < n < k - 1 ==> !Ends(trace[n], acts[n], i, mark);
      }
    }
  }

  /**
    In every interleaving an entry is in use for a socket if and only if it was opened for it and has not been
    freed since: by a purge, by the end of a release, or by the end of a socket() that failed. It is open to
    calls (`mark`) if and only if, besides, no release of it has begun since.
   */
  lemma {:induction false} InUseIff(trace: seq<State>, acts: seq<Action>, k: nat, i: int, id: nat, mark: bool)
    requires IsRun(trace, acts) && k < |trace| && id < FREE_SOCK
    ensures InUse(trace[k], i, id, mark) <==> InUseSince(trace, acts, k, i, id, mark)
  {
    if k == 0 {
      InitiallyFree(trace, acts, i, id, mark);
    } else {
      InUseIff(trace, acts, k - 1, i, id, mark);
      StepOfRun(trace, acts, k, i, id, mark);
      SinceStep(trace, acts, k, i, id, mark);
    }
  }

  /** A call finds its socket exactly when an entry is open for it, and registers on the first such entry. */
  lemma RegistersOnOpenEntry(trace: seq<State>, acts: seq<Action>, k: nat, c: nat, id: nat, t: nat)
    requires IsRun(trace, acts) && k < |trace| && id < FREE_SOCK && c !in trace[k].callers
    requires SOCKET_CALL < t < MAX_CALL_TYPES
    ensures Enabled(trace[k], Enter(c, id, t)) <==> exists i :: InUseSince(trace, acts, k, i, id, true)
    ensures Enabled(trace[k], Enter(c, id, t)) ==>
      var i := Apply(trace[k], Enter(c, id, t)).callers[c].sockIndex;
      && InUseSince(trace, acts, k, i, id, true)
      && forall j :: 0 <= j < i ==> !InUseSince(trace, acts, k, j, id, true)
  {
    var s := trace[k];
    forall i ensures IsOpen(s, i, id) <==> InUseSince(trace, acts, k, i, id, true) {
      InUseIff(trace, acts, k, i, id, true);
    }
    assert forall i :: 0 <= i < |s.sockets| ==> (Live(s.sockets[i], id) <==> IsOpen(s, i, id));
  }
}
