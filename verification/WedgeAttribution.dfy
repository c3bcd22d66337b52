/**
  Whose reply a caller is shown, on runs of any length: what must be true of a call_id that is handed out
  again, after call_count has rolled over.
 */
module WedgeAttribution {
  import opened Prelude
  import opened WedgeProtocol
  import opened WedgeProofs
  import opened WedgeTheorems
  import opened WedgeRaces
  import opened WedgeRollover

  /** Requests, replies and the fill with this caller's call_id are its own, and it has sent a request for them. */
  ghost predicate OwnMail(b: Table, me: Caller) {
    HoldsSlot(me.pc) ==>
      && (forall q :: q in b.requests && q.callId == me.callId ==> !me.pc.Holding? && q == RequestOf(me))
      && (forall r :: r in b.net && r.callId == me.callId ==>
            !me.pc.Holding? && r.callIndex == me.callIndex && r.callType == me.callType)
      && (b.fill.Filling? && b.fill.reply.callId == me.callId ==>
            !me.pc.Holding? && b.fill.reply.callIndex == me.callIndex)
      && (b.fill.Filling? && b.fill.reply.callIndex == me.callIndex ==> b.fill.reply.callId == me.callId)
  }

  /** Slots have one owner each, and messages with an owner's call_id are that owner's. */
  ghost predicate Attributed(s: State) {
    Ownership(s) && forall c :: c in s.callers ==> OwnMail(s.table, s.callers[c])
  }

  /** Nothing carries this call_id; for the free mark that means that no slot is free. */
  ghost predicate Unused(b: Table, id: nat) {
    (forall j :: 0 <= j < |b.calls| ==> b.calls[j].callId != id) && NoRequestFor(b, id) && NoReplyFor(b, id)
  }

  // ----- one step -----

  lemma TableStepKeepsMail(b: Table, step: TableStep, me: Caller)
    requires TableEnabled(b, step) && SlotMatches(b, me) && OwnMail(b, me)
    ensures SlotMatches(TableNext(b, step), me) && OwnMail(TableNext(b, step), me)
  {
  }

  lemma OwnStepKeepsMail(b: Table, me: Caller, step: CallStep)
    requires CallEnabled(b, me, step) && !step.Insert? && SlotMatches(b, me) && OwnMail(b, me)
    ensures SlotMatches(CallTable(b, me, step), CallNext(b, me, step))
    ensures OwnMail(CallTable(b, me, step), CallNext(b, me, step))
  {
  }

  lemma OthersStepKeepsMail(b: Table, other: Caller, step: CallStep, me: Caller)
    requires CallEnabled(b, other, step) && !step.Insert? && SlotsApart(other, me)
    requires SlotMatches(b, other) && SlotMatches(b, me) && OwnMail(b, me)
    ensures SlotMatches(CallTable(b, other, step), me) && OwnMail(CallTable(b, other, step), me)
    ensures SlotsApart(CallNext(b, other, step), me)
  {
  }

  lemma CallStepKeepsOwners(s: State, c: nat, step: CallStep)
    requires Ownership(s) && Enabled(s, Thread(c, step)) && !step.Insert?
    ensures Owned(ApplyCall(s, c, step).table, ApplyCall(s, c, step).callers)
  {
    var t := ApplyCall(s, c, step);
    assert SlotMatches(s.table, s.callers[c]);
    forall i | 0 <= i < |t.table.calls| && t.table.calls[i].callId != FREE_ID ensures exists d :: Holds(t.callers, d, i) {
      assert s.table.calls[i].callId == t.table.calls[i].callId;
      var d :| Holds(s.callers, d, i);
      assert Holds(t.callers, d, i);
    }
  }

  lemma CallStepKeepsAttributed(s: State, c: nat, step: CallStep)
    requires Attributed(s) && Enabled(s, Thread(c, step)) && !step.Insert?
    ensures Attributed(ApplyCall(s, c, step))
  {
    var t := ApplyCall(s, c, step);
    OwnStepKeepsMail(s.table, s.callers[c], step);
    CallStepKeepsOwners(s, c, step);
    forall d | d in s.callers && d != c
      ensures SlotMatches(t.table, t.callers[d]) && OwnMail(t.table, t.callers[d])
      ensures SlotsApart(t.callers[c], t.callers[d])
    {
      OthersStepKeepsMail(s.table, s.callers[c], step, s.callers[d]);
    }
    assert t.callers.Keys == s.callers.Keys;
  }

  lemma TableActionKeepsAttributed(s: State, step: TableStep)
    requires Attributed(s) && TableEnabled(s.table, step)
    ensures Attributed(s.(table := TableNext(s.table, step)))
  {
    TableStepKeepsOwned(s.table, s.callers, step);
    forall c | c in s.callers
      ensures SlotMatches(TableNext(s.table, step), s.callers[c]) && OwnMail(TableNext(s.table, step), s.callers[c])
    {
      TableStepKeepsMail(s.table, step, s.callers[c]);
    }
  }

  lemma SocketActionKeepsAttributed(s: State, a: Action)
    requires Attributed(s) && Enabled(s, a) && !a.Thread? && !a.Other?
    ensures Attributed(Apply(s, a))
  {
    var t := Apply(s, a);
    SocketActionKeepsOwned(s, a);
    assert t.table == s.table;
    if !a.Purge? {
      assert !HoldsSlot(t.callers[a.c].pc);
      assert forall d :: d in t.callers && d != a.c ==> d in s.callers && t.callers[d] == s.callers[d];
    }
  }

  lemma InsertUnusedKeepsMail(s: State, c: nat, d: nat)
    requires Attributed(s) && Enabled(s, Thread(c, Insert)) && d in s.callers
    requires FirstFree(s.table.calls).None? || Unused(s.table, s.table.callCount)
    ensures var t := ApplyCall(s, c, Insert); OwnMail(t.table, t.callers[d])
  {
    assert OwnMail(s.table, s.callers[d]);
  }

  lemma InsertUsedBreaks(s: State, c: nat)
    requires Attributed(s) && Enabled(s, Thread(c, Insert))
    requires FirstFree(s.table.calls).Some? && !Unused(s.table, s.table.callCount)
    ensures !Attributed(ApplyCall(s, c, Insert))
  {
    var t := ApplyCall(s, c, Insert);
    if j :| 0 <= j < |s.table.calls| && s.table.calls[j].callId == s.table.callCount {
      InsertUsedId(s, c, j);
    } else {
      assert t.callers[c].pc.Holding? && t.callers[c].callId == s.table.callCount;
      assert !OwnMail(t.table, t.callers[c]);
    }
  }

  /**
    wedge_calls_insert keeps the attribution of slots and messages exactly when the table is full or the
    next call_id is carried by no slot, free ones included, no request and no reply in flight.
   */
  lemma InsertKeepsAttributedIff(s: State, c: nat)
    requires Attributed(s) && Enabled(s, Thread(c, Insert))
    ensures Attributed(Apply(s, Thread(c, Insert))) <==>
      FirstFree(s.table.calls).None? || Unused(s.table, s.table.callCount)
  {
    var t := ApplyCall(s, c, Insert);
    InsertKeepsOwnershipIff(s, c);
    if FirstFree(s.table.calls).None? || Unused(s.table, s.table.callCount) {
      forall d | d in t.callers ensures OwnMail(t.table, t.callers[d]) {
        InsertUnusedKeepsMail(s, c, d);
      }
    } else {
      InsertUsedBreaks(s, c);
    }
  }

  /** Taking a slot with a call_id that something else carries. */
  ghost predicate Reuses(s: State, a: Action) {
    a.Thread? && a.call.Insert? && FirstFree(s.table.calls).Some? && !Unused(s.table, s.table.callCount)
  }

  lemma StepKeepsAttributedIff(s: State, a: Action)
    requires Attributed(s) && Enabled(s, a)
    ensures Attributed(Apply(s, a)) <==> !Reuses(s, a)
  {
    match a
    case Thread(c, step) =>
      if step.Insert? {
        InsertKeepsAttributedIff(s, c);
      } else {
        CallStepKeepsAttributed(s, c, step);
      }
    case Other(step) => TableActionKeepsAttributed(s, step);
    case _ => SocketActionKeepsAttributed(s, a);
  }

  lemma ReuseBreaks(s: State, a: Action)
    requires Enabled(s, a) && Reuses(s, a)
    ensures !Attributed(s) || !Attributed(Apply(s, a))
  {
    if Attributed(s) { StepKeepsAttributedIff(s, a); }
  }

  // ----- whole runs -----

  lemma {:induction false} AttributedSoFar(trace: seq<State>, acts: seq<Action>, k: nat)
    requires IsRun(trace, acts) && k < |trace| && forall j :: 0 <= j < k ==> !Reuses(trace[j], acts[j])
    ensures Attributed(trace[k])
  {
    if k > 0 {
      AttributedSoFar(trace, acts, k - 1);
      StepKeepsAttributedIff(trace[k - 1], acts[k - 1]);
    }
  }

  /** On a run of any length the attribution holds throughout exactly when no call_id is reused while in use. */
  lemma RunIsAttributedIff(trace: seq<State>, acts: seq<Action>)
    requires IsRun(trace, acts)
    ensures (forall k :: 0 <= k < |trace| ==> Attributed(trace[k])) <==>
            (forall k :: 0 <= k < |acts| ==> !Reuses(trace[k], acts[k]))
  {
    if forall k :: 0 <= k < |acts| ==> !Reuses(trace[k], acts[k]) {
      forall k | 0 <= k < |trace| ensures Attributed(trace[k]) {
        AttributedSoFar(trace, acts, k);
      }
    } else {
      var k :| 0 <= k < |acts| && Reuses(trace[k], acts[k]);
      ReuseBreaks(trace[k], acts[k]);
      assert !Attributed(trace[k]) || !Attributed(trace[k + 1]);
    }
  }

  predicate Sends(a: Action, c: nat) {
    a == Thread(c, Send)
  }

  lemma {:induction false} HolderHasSent(trace: seq<State>, acts: seq<Action>, k: nat, c: nat) returns (j: nat)
    requires IsRun(trace, acts) && k < |trace|
    requires c in trace[k].callers && HoldsSlot(trace[k].callers[c].pc) && !trace[k].callers[c].pc.Holding?
    ensures j < k && Sends(acts[j], c)
  {
    if Sends(acts[k - 1], c) {
      j := k - 1;
    } else {
      j := HolderHasSent(trace, acts, k - 1, c);
    }
  }

  /**
    On a run of any length on which no call_id is reused while in use: a reply in flight whose call_id the
    slot it names carries, so that nl_data_ready will write it there, is the daemon's answer to the request
    that the holder of the slot sent, given after that request was sent.
   */
  lemma {:induction false} ReplyIsToItsSender(trace: seq<State>, acts: seq<Action>, k: nat, c: nat, r: Reply)
    requires IsRun(trace, acts) && k < |trace| && forall j :: 0 <= j < k ==> !Reuses(trace[j], acts[j])
    requires r in trace[k].table.net && Holds(trace[k].callers, c, r.callIndex)
    requires SlotAt(trace[k].table, r.callIndex).callId == r.callId
    ensures r.callId == trace[k].callers[c].callId
    ensures exists i, j :: 0 <= i < j < k && Sends(acts[i], c) && Answers(acts[j], RequestOf(trace[k].callers[c]), r.body)
  {
    AttributedSoFar(trace, acts, k);
    var me := trace[k].callers[c];
    assert SlotMatches(trace[k].table, me) && OwnMail(trace[k].table, me);
    AnswerAfterSend(trace, acts, k, c, r);
  }

  /** A reply with a holder's call_id was there before the step, or is the answer to the holder's request. */
  lemma WhereAReplyComesFrom(s: State, a: Action, c: nat, r: Reply)
    requires Enabled(s, a) && Attributed(s) && Attributed(Apply(s, a))
    requires r in Apply(s, a).table.net && c in Apply(s, a).callers
    requires HoldsSlot(Apply(s, a).callers[c].pc) && r.callId == Apply(s, a).callers[c].callId
    ensures c in s.callers && HoldsSlot(s.callers[c].pc) && !s.callers[c].pc.Holding?
    ensures RequestOf(s.callers[c]) == RequestOf(Apply(s, a).callers[c])
    ensures r in s.table.net || Answers(a, RequestOf(s.callers[c]), r.body)
  {
    var t := Apply(s, a);
    assert OwnMail(t.table, t.callers[c]);
    if c in s.callers { assert OwnMail(s.table, s.callers[c]); }
  }

  lemma {:induction false} AnswerAfterSend(trace: seq<State>, acts: seq<Action>, k: nat, c: nat, r: Reply)
    requires IsRun(trace, acts) && k < |trace| && forall j :: 0 <= j < k ==> !Reuses(trace[j], acts[j])
    requires r in trace[k].table.net && c in trace[k].callers && HoldsSlot(trace[k].callers[c].pc)
    requires r.callId == trace[k].callers[c].callId
    ensures exists i, j :: 0 <= i < j < k && Sends(acts[i], c) && Answers(acts[j], RequestOf(trace[k].callers[c]), r.body)
  {
    AttributedSoFar(trace, acts, k);
    AttributedSoFar(trace, acts, k - 1);
    WhereAReplyComesFrom(trace[k - 1], acts[k - 1], c, r);
    var q := RequestOf(trace[k].callers[c]);
    if r in trace[k - 1].table.net {
      AnswerAfterSend(trace, acts, k - 1, c, r);
      var i, j :| 0 <= i < j < k - 1 && Sends(acts[i], c) && Answers(acts[j], q, r.body);
      assert Sends(acts[i], c) && Answers(acts[j], q, r.body);
    } else {
      var i := HolderHasSent(trace, acts, k - 1, c);
      assert Sends(acts[i], c) && Answers(acts[k - 1], q, r.body);
    }
  }

  // ----- a run on which a reply reaches the wrong call -----

  /** The first bind() sends its request, is woken by a signal before the daemon answers, and leaves. */
  lemma GivesUp(s: State, body: Body) returns (acts: seq<Action>, t: State)
    requires Taken(s, 1) && s.table.requests == {} && body.len == |body.buf|
    ensures Enabled(s, Thread(1, Send)) && Enabled(Apply(s, Thread(1, Send)), Other(Answer(Request(BIND_CALL, 0, 0), body)))
    ensures var s1 := Apply(s, Thread(1, Send));
      Leads(s1, [Other(Answer(Request(BIND_CALL, 0, 0), body))] + acts, t)
    ensures Quiet(t, 1) && Reply(BIND_CALL, 0, 0, body) in t.table.net
  {
    var s1 := Apply(s, Thread(1, Send));
    var a1, a2, a3, a4, a5 := Other(Answer(Request(BIND_CALL, 0, 0), body)),
      Thread(1, Signal), Thread(1, ReadFlag), Thread(1, GiveBack), Leave(1);
    LeadsTo(s1, [], s1, a1);
    var s2 := Apply(s1, a1);
    LeadsTo(s1, [] + [a1], s2, a2);
    var s3 := Apply(s2, a2);
    LeadsTo(s1, [] + [a1] + [a2], s3, a3);
    var s4 := Apply(s3, a3);
    LeadsTo(s1, [] + [a1] + [a2] + [a3], s4, a4);
    var s5 := Apply(s4, a4);
    LeadsTo(s1, [] + [a1] + [a2] + [a3] + [a4], s5, a5);
    t := Apply(s5, a5);
    acts := [a2, a3, a4, a5];
    assert [] + [a1] + [a2] + [a3] + [a4] + [a5] == [a1] + acts;
    var i := FindSocket(s5.sockets, 7).value;
    assert Live(t.sockets[i], 7);
  }

  lemma JoinRuns(trace: seq<State>, acts: seq<Action>, trace': seq<State>, acts': seq<Action>)
    requires IsRun(trace, acts) && |trace'| == |acts'| + 1 && trace'[0] == trace[|acts|]
    requires forall k :: 0 <= k < |acts'| ==> Enabled(trace'[k], acts'[k]) && trace'[k + 1] == Apply(trace'[k], acts'[k])
    ensures IsRun(trace[..|acts|] + trace', acts + acts')
  {
    var all, both, n := trace[..|acts|] + trace', acts + acts', |acts|;
    forall k | 0 <= k < |both| ensures Enabled(all[k], both[k]) && all[k + 1] == Apply(all[k], both[k]) {
      if k < n {
        assert all[k] == trace[k] && all[k + 1] == trace[k + 1] && both[k] == acts[k];
      } else {
        assert all[k] == trace'[k - n] && all[k + 1] == trace'[k + 1 - n] && both[k] == acts'[k - n];
      }
    }
  }

  /** The call_id 0 comes round again: caller 2^32 + 1 holds slot 0 with it, and the late reply is written there. */
  lemma ComesRound(s: State, r: Reply) returns (acts: seq<Action>, t: State, d: nat)
    requires Quiet(s, 1) && r in s.table.net && r.callId == r.callIndex == 0
    ensures Leads(s, acts, t) && d > 1 && Holds(t.callers, d, 0) && t.table.fill == Filling(r, 0)
  {
    var acts1, u := ManyCalls(s, 1, ID_SPACE);
    var acts2, v := TakesSlot(u, ID_SPACE);
    d := ID_SPACE + 1;
    LeadsThrough(s, acts1, u, acts2, v);
    var a := Other(Begin(r));
    LeadsTo(s, acts1 + acts2, v, a);
    acts, t := acts1 + acts2 + [a], Apply(v, a);
  }

  /**
    A run on which a call is shown another call's answer: the daemon answers the first bind() after that
    has given up, the reply stays in flight for 2^32 calls, and is then written into the slot of a caller
    that did not exist when the daemon gave it.
   */
  lemma LateReplyReachesNewCall(body: Body) returns (trace: seq<State>, acts: seq<Action>, j: nat, d: nat)
    requires body.len == |body.buf|
    ensures IsRun(trace, acts) && j < |acts| && Answers(acts[j], Request(BIND_CALL, 0, 0), body)
    ensures d !in trace[j].callers && Holds(trace[|acts|].callers, d, 0)
    ensures trace[|acts|].table.fill == Filling(Reply(BIND_CALL, 0, 0, body), 0)
  {
    var first, s1 := FirstBind();
    var rest, t;
    rest, t, d := AnsweredLate(s1, body);
    var s2, answer := Apply(s1, Thread(1, Send)), Other(Answer(Request(BIND_CALL, 0, 0), body));
    var before := AsRun(Init(), first + [Thread(1, Send)], s2);
    var after := AsRun(s2, [answer] + rest, t);
    JoinRuns(before, first + [Thread(1, Send)], after, [answer] + rest);
    j := |first| + 1;
    trace, acts := before[..j] + after, first + [Thread(1, Send)] + ([answer] + rest);
    assert acts[j] == answer && trace[j] == after[0] && trace[|acts|] == after[|rest| + 1];
  }

  lemma FirstBind() returns (acts: seq<Action>, s: State)
    ensures Taken(s, 1) && s.table.requests == {}
    ensures Enabled(s, Thread(1, Send)) && Leads(Init(), acts + [Thread(1, Send)], Apply(s, Thread(1, Send)))
  {
    var acts0, s0 := SocketSeven();
    var acts1, s1 := TakesSlot(s0, 0);
    LeadsThrough(Init(), acts0, s0, acts1, s1);
    LeadsTo(Init(), acts0 + acts1, s1, Thread(1, Send));
    acts, s := acts0 + acts1, s1;
  }

  lemma AnsweredLate(s: State, body: Body) returns (acts: seq<Action>, t: State, d: nat)
    requires Taken(s, 1) && s.table.requests == {} && body.len == |body.buf|
    ensures Enabled(s, Thread(1, Send))
    ensures Leads(Apply(s, Thread(1, Send)), [Other(Answer(Request(BIND_CALL, 0, 0), body))] + acts, t)
    ensures d > 1 && Holds(t.callers, d, 0) && t.table.fill == Filling(Reply(BIND_CALL, 0, 0, body), 0)
  {
    var answer := Other(Answer(Request(BIND_CALL, 0, 0), body));
    var more, s3 := GivesUp(s, body);
    var rest;
    rest, t, d := ComesRound(s3, Reply(BIND_CALL, 0, 0, body));
    LeadsThrough(Apply(s, Thread(1, Send)), [answer] + more, s3, rest, t);
    acts := more + rest;
    assert [answer] + more + rest == [answer] + acts;
  }
}
