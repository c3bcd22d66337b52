/** The per-socket counters threads[type], against the calls that are really in flight. */
module WedgeThreads {
  import opened Prelude
  import opened WedgeProtocol

  predicate InFlight(me: Caller, i: nat, t: nat) {
    !me.pc.Done? && me.sockIndex == i && me.callType == t
  }

  function FlightSet(callers: map<nat, Caller>, i: nat, t: nat): set<nat> {
    set c | c in callers && InFlight(callers[c], i, t)
  }

  /** No call is in flight on entry i. */
  predicate NobodyOn(callers: map<nat, Caller>, i: nat) {
    forall c :: c in callers && !callers[c].pc.Done? ==> callers[c].sockIndex != i
  }

  predicate CountsMatch(sock: Socket, callers: map<nat, Caller>, i: nat) {
    && |sock.threads| == MAX_CALL_TYPES
    && (sock.sockId != FREE_SOCK ==>
          forall t :: 0 <= t < MAX_CALL_TYPES ==> sock.threads[t] == |FlightSet(callers, i, t)|)
  }

  /** On every entry in use, threads[t] is the number of calls of type t in flight on it. */
  predicate CountsOk(s: State) {
    && |s.sockets| == MAX_SOCKETS
    && (forall i :: 0 <= i < |s.sockets| ==> CountsMatch(s.sockets[i], s.callers, i))
    && (forall c :: c in s.callers ==> s.callers[c].callType < MAX_CALL_TYPES)
  }

  lemma FlightUpdate(callers: map<nat, Caller>, c: nat, me: Caller, i: nat, t: nat)
    ensures FlightSet(callers[c := me], i, t)
         == (if InFlight(me, i, t) then FlightSet(callers, i, t) + {c} else FlightSet(callers, i, t) - {c})
  {
  }

  lemma FlightAfterEnter(s: State, c: nat, id: nat, t: nat, i: nat, u: nat)
    requires Enabled(s, Enter(c, id, t))
    ensures var after := ApplyEnter(s, c, id, t);
      |FlightSet(after.callers, i, u)|
        == |FlightSet(s.callers, i, u)| + if i == after.callers[c].sockIndex && u == t then 1 else 0
  {
    var after := ApplyEnter(s, c, id, t);
    FlightUpdate(s.callers, c, after.callers[c], i, u);
    assert FlightSet(s.callers, i, u) - {c} == FlightSet(s.callers, i, u);
  }

  /** A caller that starts, on an entry it did not create. */
  lemma EnterKeeps(s: State, c: nat, id: nat, t: nat)
    requires CountsOk(s) && Enabled(s, Enter(c, id, t))
    ensures CountsOk(ApplyEnter(s, c, id, t))
  {
    var after := ApplyEnter(s, c, id, t);
    forall i | 0 <= i < |s.sockets| ensures CountsMatch(after.sockets[i], after.callers, i) {
      var sock := after.sockets[i];
      assert CountsMatch(s.sockets[i], s.callers, i);
      assert |sock.threads| == MAX_CALL_TYPES;
      forall u | sock.sockId != FREE_SOCK && 0 <= u < MAX_CALL_TYPES
        ensures sock.threads[u] == |FlightSet(after.callers, i, u)|
      {
        FlightAfterEnter(s, c, id, t, i, u);
      }
    }
  }

  lemma FlightAfterLeave(s: State, c: nat, i: nat, u: nat)
    requires Enabled(s, Leave(c))
    ensures var me := s.callers[c]; var before, after := FlightSet(s.callers, i, u), FlightSet(ApplyLeave(s, c).callers, i, u);
      |after| == if i == me.sockIndex && u == me.callType then |before| - 1 else |before|
  {
    FlightUpdate(s.callers, c, ApplyLeave(s, c).callers[c], i, u);
    var before := FlightSet(s.callers, i, u);
    if InFlight(s.callers[c], i, u) {
      assert c in before;
    } else {
      assert before - {c} == before;
    }
  }

  lemma LeaveKeeps(s: State, c: nat)
    requires CountsOk(s) && Enabled(s, Leave(c))
    ensures CountsOk(ApplyLeave(s, c))
  {
    var after := ApplyLeave(s, c);
    forall i | 0 <= i < |s.sockets| ensures CountsMatch(after.sockets[i], after.callers, i) {
      var sock := after.sockets[i];
      assert CountsMatch(s.sockets[i], s.callers, i);
      assert |sock.threads| == MAX_CALL_TYPES;
      forall u | sock.sockId != FREE_SOCK && 0 <= u < MAX_CALL_TYPES
        ensures sock.threads[u] == |FlightSet(after.callers, i, u)|
      {
        FlightAfterLeave(s, c, i, u);
      }
    }
  }

  /** Steps on the call table move a caller without changing its socket, its type or its being in flight. */
  lemma ThreadKeeps(s: State, c: nat, step: CallStep)
    requires CountsOk(s) && Enabled(s, Thread(c, step))
    ensures CountsOk(ApplyCall(s, c, step))
  {
    var after := ApplyCall(s, c, step);
    var me, next := s.callers[c], after.callers[c];
    assert next.sockIndex == me.sockIndex && next.callType == me.callType && !next.pc.Done? && !me.pc.Done?;
    forall i | 0 <= i < |s.sockets| ensures CountsMatch(after.sockets[i], after.callers, i) {
      assert CountsMatch(s.sockets[i], s.callers, i);
      forall u | 0 <= u < MAX_CALL_TYPES ensures FlightSet(after.callers, i, u) == FlightSet(s.callers, i, u) {
        FlightUpdate(s.callers, c, next, i, u);
      }
    }
  }

  lemma FlightAfterOpen(s: State, c: nat, id: nat, i: nat, u: nat)
    requires Enabled(s, Open(c, id)) && NobodyOn(s.callers, FirstFreeSocket(s.sockets).value)
    ensures var at := FirstFreeSocket(s.sockets).value;
      FlightSet(ApplyOpen(s, c, id).callers, i, u)
      == if i == at then (if u == SOCKET_CALL then {c} else {}) else FlightSet(s.callers, i, u)
  {
    FlightUpdate(s.callers, c, ApplyOpen(s, c, id).callers[c], i, u);
  }

  lemma OpenOnQuietEntry(s: State, c: nat, id: nat)
    requires CountsOk(s) && Enabled(s, Open(c, id)) && NobodyOn(s.callers, FirstFreeSocket(s.sockets).value)
    ensures CountsOk(ApplyOpen(s, c, id))
  {
    var after := ApplyOpen(s, c, id);
    forall i | 0 <= i < |s.sockets| ensures CountsMatch(after.sockets[i], after.callers, i) {
      var sock := after.sockets[i];
      assert CountsMatch(s.sockets[i], s.callers, i);
      assert |sock.threads| == MAX_CALL_TYPES;
      forall u | sock.sockId != FREE_SOCK && 0 <= u < MAX_CALL_TYPES
        ensures sock.threads[u] == |FlightSet(after.callers, i, u)|
      {
        FlightAfterOpen(s, c, id, i, u);
      }
    }
  }

  lemma OpenOnBusyEntry(s: State, c: nat, id: nat, d: nat)
    requires CountsOk(s) && Enabled(s, Open(c, id))
    requires d in s.callers && !s.callers[d].pc.Done? && s.callers[d].sockIndex == FirstFreeSocket(s.sockets).value
    ensures !CountsOk(ApplyOpen(s, c, id))
  {
    var after := ApplyOpen(s, c, id);
    var at, t := s.callers[d].sockIndex, s.callers[d].callType;
    var flight := FlightSet(after.callers, at, t);
    assert d in flight;
    if t == SOCKET_CALL {
      assert {c, d} <= flight;
      assert |{c, d}| == 2;
      assert flight == {c, d} + (flight - {c, d});
    } else {
      assert |flight| > 0;
    }
    assert !CountsMatch(after.sockets[at], after.callers, at);
  }

  /**
    fins_create keeps the counters right exactly when no call is still in flight on the entry that
    wedge_sockets_insert hands it; the entry's old counters are wiped while those calls still point at it.
   */
  lemma OpenKeepsCountsIff(s: State, c: nat, id: nat)
    requires CountsOk(s) && Enabled(s, Open(c, id))
    ensures CountsOk(Apply(s, Open(c, id))) <==> NobodyOn(s.callers, FirstFreeSocket(s.sockets).value)
  {
    if NobodyOn(s.callers, FirstFreeSocket(s.sockets).value) {
      OpenOnQuietEntry(s, c, id);
    } else {
      var d :| d in s.callers && !s.callers[d].pc.Done? && s.callers[d].sockIndex == FirstFreeSocket(s.sockets).value;
      OpenOnBusyEntry(s, c, id, d);
    }
  }

  lemma StepKeepsCounts(s: State, a: Action)
    requires CountsOk(s) && Enabled(s, a) && (a.Open? ==> NobodyOn(s.callers, FirstFreeSocket(s.sockets).value))
    ensures CountsOk(Apply(s, a))
  {
    match a
    case Open(c, id) => OpenOnQuietEntry(s, c, id);
    case Enter(c, id, t) => EnterKeeps(s, c, id, t);
    case Leave(c) => LeaveKeeps(s, c);
    case Thread(c, step) => ThreadKeeps(s, c, step);
    case _ =>
  }

  /** Entries are handed out only when no call of an earlier owner is left on them. */
  ghost predicate OpensOnQuietEntries(trace: seq<State>, acts: seq<Action>)
    requires |trace| == |acts| + 1
  {
    forall k :: 0 <= k < |acts| && acts[k].Open? ==>
      FirstFreeSocket(trace[k].sockets).Some? ==> NobodyOn(trace[k].callers, FirstFreeSocket(trace[k].sockets).value)
  }

  /** Then, in every interleaving, threads[t] of every entry in use counts its calls of type t in flight. */
  lemma {:induction false} ThreadsCountCallsInFlight(trace: seq<State>, acts: seq<Action>, k: nat)
    requires IsRun(trace, acts) && k < |trace| && OpensOnQuietEntries(trace, acts)
    ensures CountsOk(trace[k])
  {
    if k > 0 {
      ThreadsCountCallsInFlight(trace, acts, k - 1);
      StepKeepsCounts(trace[k - 1], acts[k - 1]);
    }
  }

  /** A daemon restart during a socket() call, followed by another socket() call, miscounts. */
  lemma RestartMiscounts() returns (trace: seq<State>, acts: seq<Action>)
    ensures IsRun(trace, acts)
    ensures !CountsOk(trace[|acts|])
  {
    acts := [Open(0, 7), Purge(0), Open(1, 8)];
    var s0 := Init();
    assert FirstFreeSocket(s0.sockets) == Some(0);
    var s1 := Apply(s0, acts[0]);
    var s2 := Apply(s1, acts[1]);
    assert FirstFreeSocket(s2.sockets) == Some(0);
    trace := [s0, s1, s2, Apply(s2, acts[2])];
    ThreadsCountCallsInFlight([s0, s1, s2], acts[..2], 2);
    OpenOnBusyEntry(s2, 1, 8, 0);
  }
}
