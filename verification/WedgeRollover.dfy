/** call_count is 32 bits wide and (__u32) -1 marks a free slot: what happens when it rolls over. */
module WedgeRollover {
  import opened Prelude
  import opened WedgeProtocol
  import opened WedgeProofs
  import opened WedgeRaces

  predicate SlotsApart(me: Caller, other: Caller) {
    HoldsSlot(me.pc) && HoldsSlot(other.pc) ==> me.callIndex != other.callIndex && me.callId != other.callId
  }

  /** Occupied slots and callers that hold one correspond one to one, and call_ids in use are unique. */
  ghost predicate Ownership(s: State) {
    && (forall c :: c in s.callers ==> SlotMatches(s.table, s.callers[c]))
    && (forall c, d :: c in s.callers && d in s.callers && c != d ==> SlotsApart(s.callers[c], s.callers[d]))
    && Owned(s.table, s.callers)
  }

  lemma InsertFreshId(s: State, c: nat)
    requires Ownership(s) && Enabled(s, Thread(c, Insert))
    requires forall j :: 0 <= j < |s.table.calls| ==> s.table.calls[j].callId != s.table.callCount
    requires FirstFree(s.table.calls).Some?
    ensures Ownership(ApplyCall(s, c, Insert))
  {
    var t := ApplyCall(s, c, Insert);
    var at := FirstFree(s.table.calls).value;
    forall d | d in s.callers && d != c ensures SlotMatches(t.table, t.callers[d]) && SlotsApart(t.callers[c], t.callers[d]) {
      assert SlotMatches(s.table, s.callers[d]);
    }
    forall i | 0 <= i < |t.table.calls| && t.table.calls[i].callId != FREE_ID
      ensures exists d :: Holds(t.callers, d, i)
    {
      if i == at {
        assert Holds(t.callers, c, i);
      } else {
        var d :| Holds(s.callers, d, i);
        assert Holds(t.callers, d, i);
      }
    }
  }

  lemma InsertUsedId(s: State, c: nat, j: nat)
    requires Ownership(s) && Enabled(s, Thread(c, Insert)) && FirstFree(s.table.calls).Some?
    requires j < |s.table.calls| && s.table.calls[j].callId == s.table.callCount
    ensures !Ownership(ApplyCall(s, c, Insert))
  {
    var t := ApplyCall(s, c, Insert);
    if s.table.callCount == FREE_ID {
      assert !SlotMatches(t.table, t.callers[c]);
    } else {
      var d :| Holds(s.callers, d, j);
      assert SlotMatches(s.table, s.callers[d]);
      assert !SlotsApart(t.callers[c], t.callers[d]);
    }
  }

  lemma InsertIntoFullTable(s: State, c: nat)
    requires Ownership(s) && Enabled(s, Thread(c, Insert)) && FirstFree(s.table.calls).None?
    ensures Ownership(ApplyCall(s, c, Insert))
  {
    var t := ApplyCall(s, c, Insert);
    forall d | d in s.callers && d != c ensures SlotMatches(t.table, t.callers[d]) {
      assert SlotMatches(s.table, s.callers[d]);
    }
    forall i | 0 <= i < |t.table.calls| && t.table.calls[i].callId != FREE_ID
      ensures exists d :: Holds(t.callers, d, i)
    {
      var d :| Holds(s.callers, d, i);
      assert Holds(t.callers, d, i);
    }
  }

  /**
    wedge_calls_insert keeps slots and callers in one-to-one correspondence exactly when the table is
    full or no slot, free ones included, carries the next call_id.
   */
  lemma InsertKeepsOwnershipIff(s: State, c: nat)
    requires Ownership(s) && Enabled(s, Thread(c, Insert))
    ensures Ownership(Apply(s, Thread(c, Insert))) <==>
            || FirstFree(s.table.calls).None?
            || (forall j :: 0 <= j < |s.table.calls| ==> s.table.calls[j].callId != s.table.callCount)
  {
    if FirstFree(s.table.calls).None? {
      InsertIntoFullTable(s, c);
    } else if j :| 0 <= j < |s.table.calls| && s.table.calls[j].callId == s.table.callCount {
      InsertUsedId(s, c, j);
    } else {
      InsertFreshId(s, c);
    }
  }

  // ----- reaching the roll-over -----

  const BIND_CALL: nat := 2

  /** n calls have been made, slot 0 is free, and socket 7 is open. */
  ghost predicate Quiet(s: State, n: nat) {
    && |s.table.calls| == MAX_CALLS && s.table.calls[0].callId == FREE_ID && s.table.fill.Unlocked?
    && s.table.callCount == n % ID_SPACE
    && FindSocket(s.sockets, 7).Some?
    && (forall c :: c in s.callers ==> c <= n)
  }

  /** A bind() on socket 7 registers; socket 7 stays open. */
  lemma Registers(s: State, c: nat)
    requires c !in s.callers && FindSocket(s.sockets, 7).Some?
    ensures Enabled(s, Enter(c, 7, BIND_CALL))
    ensures var t := Apply(s, Enter(c, 7, BIND_CALL));
      && t.table == s.table && FindSocket(t.sockets, 7).Some?
      && c in t.callers && t.callers[c].pc.Registered? && t.callers[c].callType == BIND_CALL
      && t.callers == s.callers[c := t.callers[c]]
  {
    var i := FindSocket(s.sockets, 7).value;
    var t := Apply(s, Enter(c, 7, BIND_CALL));
    assert Live(t.sockets[i], 7);
  }

  /** Caller n has made the n-th call and holds slot 0, and socket 7 is open. */
  ghost predicate Taken(s: State, n: nat) {
    && |s.table.calls| == MAX_CALLS && s.table.fill.Unlocked? && s.table.callCount == n % ID_SPACE
    && FindSocket(s.sockets, 7).Some?
    && (forall c :: c in s.callers ==> c <= n)
    && n in s.callers && s.callers[n].pc.Holding? && s.callers[n].callIndex == 0 && s.callers[n].callType == BIND_CALL
    && s.callers[n].callId == s.table.calls[0].callId == (n - 1) % ID_SPACE && !s.table.calls[0].reply
  }

  lemma TakesSlot(s: State, n: nat) returns (acts: seq<Action>, t: State)
    requires Quiet(s, n)
    ensures Leads(s, acts, t) && Taken(t, n + 1) && t.table.net == s.table.net && t.table.requests == s.table.requests
  {
    var c := n + 1;
    var a1, a2 := Enter(c, 7, BIND_CALL), Thread(c, Insert);
    Registers(s, c);
    LeadsTo(s, [], s, a1);
    var s1 := Apply(s, a1);
    LeadsTo(s, [] + [a1], s1, a2);
    assert FirstFree(s1.table.calls) == Some(0);
    acts, t := [] + [a1] + [a2], Apply(s1, a2);
  }

  lemma GivesSlotBack(s: State, n: nat) returns (acts: seq<Action>, t: State)
    requires Taken(s, n)
    ensures Leads(s, acts, t) && Quiet(t, n) && t.table.net == s.table.net
  {
    var a1, a2 := Thread(n, Abandon), Leave(n);
    LeadsTo(s, [], s, a1);
    var s1 := Apply(s, a1);
    LeadsTo(s, [] + [a1], s1, a2);
    acts, t := [] + [a1] + [a2], Apply(s1, a2);
    var i := FindSocket(s1.sockets, 7).value;
    assert Live(t.sockets[i], 7);
  }

  /** One bind() call that finds slot 0, cannot send its request, gives the slot back and leaves. */
  lemma OneCall(s: State, n: nat) returns (acts: seq<Action>, t: State)
    requires Quiet(s, n)
    ensures Leads(s, acts, t) && Quiet(t, n + 1) && t.table.net == s.table.net
  {
    var acts1, mid := TakesSlot(s, n);
    var acts2, end := GivesSlotBack(mid, n + 1);
    LeadsThrough(s, acts1, mid, acts2, end);
    acts, t := acts1 + acts2, end;
  }

  lemma SocketSeven() returns (acts: seq<Action>, t: State)
    ensures Leads(Init(), acts, t) && Quiet(t, 0) && t.table == Init().table
  {
    var a := Open(0, 7);
    assert FirstFreeSocket(Init().sockets) == Some(0);
    LeadsTo(Init(), [], Init(), a);
    acts, t := [] + [a], Apply(Init(), a);
    assert Live(t.sockets[0], 7);
  }

  /** From the m-th call to the n-th. */
  lemma {:induction false} ManyCalls(s: State, m: nat, n: nat) returns (acts: seq<Action>, t: State)
    requires Quiet(s, m) && m <= n
    ensures Leads(s, acts, t) && Quiet(t, n) && t.table.net == s.table.net
    decreases n - m
  {
    acts, t := [], s;
    if m < n {
      var acts1, u := ManyCalls(s, m, n - 1);
      var acts2, v := OneCall(u, n - 1);
      LeadsThrough(s, acts1, u, acts2, v);
      acts, t := acts1 + acts2, v;
    }
  }

  /** After 2^32 - 1 calls the next call_id is the free mark, and two callers come to hold slot 0 at once. */
  lemma RolloverSharesASlot() returns (trace: seq<State>, acts: seq<Action>, c: nat, d: nat)
    ensures IsRun(trace, acts)
    ensures c != d && Holds(trace[|acts|].callers, c, 0) && Holds(trace[|acts|].callers, d, 0)
  {
    var n := ID_SPACE - 1;
    var acts0, s0 := SocketSeven();
    var more, s := ManyCalls(s0, 0, n);
    LeadsThrough(Init(), acts0, s0, more, s);
    var acts1 := acts0 + more;
    c, d := n + 1, n + 2;
    var a1, a2, a3, a4 := Enter(c, 7, BIND_CALL), Enter(d, 7, BIND_CALL), Thread(c, Insert), Thread(d, Insert);
    Registers(s, c);
    LeadsTo(Init(), acts1, s, a1);
    var s1 := Apply(s, a1);
    Registers(s1, d);
    LeadsTo(Init(), acts1 + [a1], s1, a2);
    var s2 := Apply(s1, a2);
    assert FirstFree(s2.table.calls) == Some(0);
    LeadsTo(Init(), acts1 + [a1] + [a2], s2, a3);
    var s3 := Apply(s2, a3);
    assert FirstFree(s3.table.calls) == Some(0);
    LeadsTo(Init(), acts1 + [a1] + [a2] + [a3], s3, a4);
    acts := acts1 + [a1] + [a2] + [a3] + [a4];
    trace := AsRun(Init(), acts, Apply(s3, a4));
  }
}
