/** What every interleaving of the wedge protocol keeps, as long as call_count has not rolled over. */
module WedgeProofs {
  import opened Prelude
  import opened WedgeProtocol

  // ----- the invariant -----

  /** No reply on its way carries this call_id. */
  ghost predicate NoReplyFor(b: Table, id: nat) {
    forall r :: r in b.net ==> r.callId != id
  }

  ghost predicate NoRequestFor(b: Table, id: nat) {
    forall q :: q in b.requests ==> q.callId != id
  }

  /** Each call_id is answered at most once, and replies in flight say what the daemon answered. */
  ghost predicate Messages(b: Table) {
    && (forall q :: q in b.requests ==> q.callIndex < MAX_CALLS && q.callId < b.issued && q.callId !in b.sent)
    && (forall q, q' :: q in b.requests && q' in b.requests && q.callId == q'.callId ==> q == q')
    && (forall r :: r in b.net ==> r.callIndex < MAX_CALLS && r.callId in b.sent && b.sent[r.callId].body == r.body)
    && (forall r, r' :: r in b.net && r' in b.net && r.callId == r'.callId ==> r == r')
    && (forall id :: id in b.sent ==> id < b.issued && b.sent[id].body.len == |b.sent[id].body.buf|)
  }

  ghost predicate TableOk(b: Table) {
    && |b.calls| == MAX_CALLS
    && b.issued < ID_SPACE && b.callCount == b.issued
    && Messages(b)
    && (b.fill.Filling? ==>
          var r := b.fill.reply;
          && r.callIndex < MAX_CALLS && b.fill.stage <= 5
          && r.callId in b.sent && b.sent[r.callId].body == r.body && NoReplyFor(b, r.callId))
  }

  /** A slot holder's slot carries its call_id, the type of its call and its socket. */
  predicate SlotMatches(b: Table, me: Caller) {
    HoldsSlot(me.pc) ==>
      && me.callIndex < |b.calls| && b.calls[me.callIndex].callId == me.callId != FREE_ID
      && b.calls[me.callIndex].callType == me.callType
      && b.calls[me.callIndex].sockId == me.sockId && b.calls[me.callIndex].sockIndex == me.sockIndex
  }

  /** A fill of the caller's slot carries the caller's call_id, and has written the fields before its stage. */
  predicate FillOk(b: Table, me: Caller) {
    b.fill.Filling? && b.fill.reply.callIndex == me.callIndex ==>
      var r, slot := b.fill.reply, SlotAt(b, me.callIndex);
      && r.callId == me.callId
      && (b.fill.stage == 0 ==> !slot.reply)
      && (b.fill.stage >= 2 ==> slot.body.ret == r.body.ret)
      && (b.fill.stage >= 3 ==> slot.body.msg == r.body.msg)
      && (b.fill.stage >= 4 ==> slot.body.len == r.body.len)
      && (b.fill.stage >= 5 && slot.reply ==> slot.body == r.body)
  }

  /** The slot shows the one reply to this call, and nothing will write to it again. */
  ghost predicate Settled(b: Table, me: Caller) {
    var slot := SlotAt(b, me.callIndex);
    && slot.reply && me.callId in b.sent && slot.body == b.sent[me.callId].body
    && NoReplyFor(b, me.callId) && !AtRisk(b, me)
  }

  /** Messages with a caller's call_id stem from that caller's request. */
  ghost predicate RequestOk(b: Table, me: Caller) {
    !me.pc.Registered? ==>
      && me.callId < b.issued
      && (forall q :: q in b.requests && q.callId == me.callId ==> q == RequestOf(me))
      && (me.callId in b.sent ==> b.sent[me.callId].request == RequestOf(me))
  }

  ghost predicate AnswerOk(b: Table, me: Caller) {
    HoldsSlot(me.pc) ==>
      && (me.pc.Holding? ==>
            !SlotAt(b, me.callIndex).reply && me.callId !in b.sent && NoRequestFor(b, me.callId))
      && FillOk(b, me)
      && (SlotAt(b, me.callIndex).reply && !AtRisk(b, me) ==> Settled(b, me))
  }

  predicate Faithful(b: Table, me: Caller, o: Outcome) {
    o.Answered? ==> me.callId in b.sent && b.sent[me.callId].body == o.body
  }

  /** What an undisturbed caller has read so far is what the reply to its call_id said. */
  ghost predicate ViewOk(b: Table, me: Caller) {
    !me.raced ==>
      match me.pc
      case SawReply => Settled(b, me)
      case SawRet(ret) => Settled(b, me) && ret == b.sent[me.callId].body.ret
      case SawLen(ret, len) =>
        Settled(b, me) && ret == b.sent[me.callId].body.ret && len == b.sent[me.callId].body.len
      case SawBuf(ret, len, buf) =>
        Settled(b, me) && Body(ret, b.sent[me.callId].body.msg, len, buf) == b.sent[me.callId].body
      case Finished(o) => Faithful(b, me, o)
      case Leaving(o) => Faithful(b, me, o)
      case Done(o) => Faithful(b, me, o)
      case _ => true
  }

  ghost predicate CallerOk(b: Table, me: Caller) {
    SlotMatches(b, me) && RequestOk(b, me) && AnswerOk(b, me) && ViewOk(b, me)
  }

  predicate Apart(me: Caller, other: Caller) {
    && (HoldsSlot(me.pc) && HoldsSlot(other.pc) ==> me.callIndex != other.callIndex)
    && (!me.pc.Registered? && !other.pc.Registered? ==> me.callId != other.callId)
  }

  ghost predicate Pairwise(callers: map<nat, Caller>) {
    forall c, d :: c in callers && d in callers && c != d ==> Apart(callers[c], callers[d])
  }

  predicate Holds(callers: map<nat, Caller>, c: nat, i: nat) {
    c in callers && HoldsSlot(callers[c].pc) && callers[c].callIndex == i
  }

  ghost predicate Owned(b: Table, callers: map<nat, Caller>) {
    forall i :: 0 <= i < |b.calls| && b.calls[i].callId != FREE_ID ==> exists c :: Holds(callers, c, i)
  }

  ghost predicate Inv(s: State) {
    && TableOk(s.table)
    && (forall c :: c in s.callers ==> CallerOk(s.table, s.callers[c]))
    && Pairwise(s.callers)
    && Owned(s.table, s.callers)
  }

  // ----- steps of the daemon, of nl_data_ready and of removals -----

  lemma TableStepKeepsTable(b: Table, step: TableStep)
    requires TableOk(b) && TableEnabled(b, step)
    ensures TableOk(TableNext(b, step))
  {
  }

  lemma AnswerKeepsCaller(b: Table, me: Caller, q: Request, body: Body)
    requires TableOk(b) && TableEnabled(b, Answer(q, body)) && CallerOk(b, me)
    ensures CallerOk(TableNext(b, Answer(q, body)), me)
  {
  }

  lemma BeginKeepsCaller(b: Table, me: Caller, r: Reply)
    requires TableOk(b) && TableEnabled(b, Begin(r)) && CallerOk(b, me)
    ensures CallerOk(BeginFill(b, r), me)
  {
  }

  lemma WriteKeepsCaller(b: Table, me: Caller, f: FillStep)
    requires TableOk(b) && TableEnabled(b, Write(f)) && CallerOk(b, me)
    ensures CallerOk(WriteField(b, f), me)
  {
  }

  lemma PostKeepsCaller(b: Table, me: Caller, i: nat)
    requires TableEnabled(b, Post(i)) && CallerOk(b, me)
    ensures CallerOk(TableNext(b, Post(i)), me)
  {
  }

  lemma TableStepKeepsCaller(b: Table, me: Caller, step: TableStep)
    requires TableOk(b) && TableEnabled(b, step) && CallerOk(b, me)
    ensures CallerOk(TableNext(b, step), me)
  {
    match step
    case Post(i) => PostKeepsCaller(b, me, i);
    case Answer(q, body) => AnswerKeepsCaller(b, me, q, body);
    case Begin(r) => BeginKeepsCaller(b, me, r);
    case Write(f) => WriteKeepsCaller(b, me, f);
  }

  lemma TableStepKeepsOwned(b: Table, callers: map<nat, Caller>, step: TableStep)
    requires TableEnabled(b, step) && Owned(b, callers)
    ensures Owned(TableNext(b, step), callers)
  {
    var t := TableNext(b, step);
    assert |t.calls| == |b.calls| && forall i :: 0 <= i < |b.calls| ==> t.calls[i].callId == b.calls[i].callId;
  }

  // ----- steps of a caller -----

  lemma CallStepKeepsTable(b: Table, me: Caller, step: CallStep)
    requires TableOk(b) && CallEnabled(b, me, step) && CallerOk(b, me)
    requires CallTable(b, me, step).issued < ID_SPACE
    ensures TableOk(CallTable(b, me, step))
  {
  }

  lemma CallStepKeepsSelf(b: Table, me: Caller, step: CallStep)
    requires TableOk(b) && CallEnabled(b, me, step) && CallerOk(b, me)
    requires CallTable(b, me, step).issued < ID_SPACE
    ensures CallerOk(CallTable(b, me, step), CallNext(b, me, step))
  {
  }

  lemma InsertKeepsOther(b: Table, me: Caller, other: Caller)
    requires TableOk(b) && CallEnabled(b, me, Insert) && CallerOk(b, other) && b.issued + 1 < ID_SPACE
    ensures CallerOk(InsertSlot(b, me), other) && Apart(Inserted(b, me), other)
  {
  }

  /** A slot given back. */
  lemma FreeKeepsOther(b: Table, me: Caller, other: Caller)
    requires TableOk(b) && HoldsSlot(me.pc) && CallerOk(b, me) && CallerOk(b, other) && Apart(me, other)
    ensures CallerOk(FreeSlot(b, me.callIndex), other)
  {
  }

  lemma SendKeepsOther(b: Table, me: Caller, other: Caller)
    requires CallEnabled(b, me, Send) && CallerOk(b, other) && Apart(me, other)
    ensures CallerOk(CallTable(b, me, Send), other)
  {
  }

  lemma WakeKeepsOther(b: Table, me: Caller, other: Caller)
    requires CallEnabled(b, me, Wake) && CallerOk(b, other)
    ensures CallerOk(CallTable(b, me, Wake), other)
  {
  }

  lemma CallStepKeepsApart(b: Table, me: Caller, step: CallStep, other: Caller)
    requires CallEnabled(b, me, step) && !step.Insert? && Apart(me, other)
    ensures Apart(CallNext(b, me, step), other)
  {
  }

  lemma CallStepKeepsOther(b: Table, me: Caller, step: CallStep, other: Caller)
    requires TableOk(b) && CallEnabled(b, me, step) && CallerOk(b, me) && CallerOk(b, other) && Apart(me, other)
    requires CallTable(b, me, step).issued < ID_SPACE
    ensures CallerOk(CallTable(b, me, step), other)
    ensures Apart(CallNext(b, me, step), other)
  {
    match step
    case Insert => InsertKeepsOther(b, me, other);
    case Abandon => FreeKeepsOther(b, me, other); CallStepKeepsApart(b, me, step, other);
    case GiveBack => FreeKeepsOther(b, me, other); CallStepKeepsApart(b, me, step, other);
    case Send => SendKeepsOther(b, me, other); CallStepKeepsApart(b, me, step, other);
    case Wake => WakeKeepsOther(b, me, other); CallStepKeepsApart(b, me, step, other);
    case _ => CallStepKeepsApart(b, me, step, other);
  }

  lemma CallStepKeepsOwned(s: State, c: nat, step: CallStep)
    requires TableOk(s.table) && Enabled(s, Thread(c, step)) && CallerOk(s.table, s.callers[c])
    requires Owned(s.table, s.callers)
    ensures Owned(ApplyCall(s, c, step).table, ApplyCall(s, c, step).callers)
  {
    var t := ApplyCall(s, c, step);
    var me := s.callers[c];
    forall i | 0 <= i < |t.table.calls| && t.table.calls[i].callId != FREE_ID
      ensures exists d :: Holds(t.callers, d, i)
    {
      if step.Insert? && FirstFree(s.table.calls) == Some(i) {
        assert Holds(t.callers, c, i);
      } else {
        assert s.table.calls[i].callId == t.table.calls[i].callId;
        var d :| Holds(s.callers, d, i);
        assert Holds(t.callers, d, i);
      }
    }
  }

  // ----- every action keeps the invariant -----

  lemma CallActionKeeps(s: State, c: nat, step: CallStep)
    requires Inv(s) && Enabled(s, Thread(c, step)) && ApplyCall(s, c, step).table.issued < ID_SPACE
    ensures Inv(ApplyCall(s, c, step))
  {
    var t := ApplyCall(s, c, step);
    var me := s.callers[c];
    CallStepKeepsTable(s.table, me, step);
    CallStepKeepsSelf(s.table, me, step);
    CallStepKeepsOwned(s, c, step);
    forall d | d in s.callers && d != c
      ensures CallerOk(t.table, s.callers[d]) && Apart(t.callers[c], s.callers[d])
    {
      CallStepKeepsOther(s.table, me, step, s.callers[d]);
    }
    assert t.callers.Keys == s.callers.Keys;
  }

  lemma TableActionKeeps(s: State, step: TableStep)
    requires Inv(s) && TableEnabled(s.table, step)
    ensures Inv(s.(table := TableNext(s.table, step)))
  {
    TableStepKeepsTable(s.table, step);
    TableStepKeepsOwned(s.table, s.callers, step);
    forall c | c in s.callers ensures CallerOk(TableNext(s.table, step), s.callers[c]) {
      TableStepKeepsCaller(s.table, s.callers[c], step);
    }
  }

  lemma SocketActionKeepsOwned(s: State, a: Action)
    requires Owned(s.table, s.callers) && Enabled(s, a) && !a.Thread? && !a.Other?
    ensures Owned(Apply(s, a).table, Apply(s, a).callers)
  {
    var t := Apply(s, a);
    forall i | 0 <= i < |t.table.calls| && t.table.calls[i].callId != FREE_ID ensures exists d :: Holds(t.callers, d, i) {
      var d :| Holds(s.callers, d, i);
      assert Holds(t.callers, d, i);
    }
  }

  /** Registering on a socket and leaving it do not touch the call table. */
  lemma SocketActionKeeps(s: State, a: Action)
    requires Inv(s) && Enabled(s, a) && !a.Thread? && !a.Other?
    ensures Inv(Apply(s, a))
  {
    var t := Apply(s, a);
    SocketActionKeepsOwned(s, a);
    if !a.Purge? {
      assert CallerOk(s.table, t.callers[a.c]) by {
        if a.Leave? { assert CallerOk(s.table, s.callers[a.c]); }
      }
      assert forall d :: d in t.callers && d != a.c ==> d in s.callers && t.callers[d] == s.callers[d];
    }
  }

  lemma StepKeeps(s: State, a: Action)
    requires Inv(s) && Enabled(s, a) && Apply(s, a).table.issued < ID_SPACE
    ensures Inv(Apply(s, a))
  {
    match a
    case Thread(c, step) => CallActionKeeps(s, c, step);
    case Other(step) => TableActionKeeps(s, step);
    case _ => SocketActionKeeps(s, a);
  }

  lemma IssuedGrows(s: State, a: Action)
    requires Enabled(s, a)
    ensures s.table.issued <= Apply(s, a).table.issued
  {
  }

  lemma {:induction false} RunKeeps(trace: seq<State>, acts: seq<Action>, k: nat)
    requires IsRun(trace, acts) && k < |trace| && trace[k].table.issued < ID_SPACE
    ensures Inv(trace[k])
  {
    if k > 0 {
      IssuedGrows(trace[k - 1], acts[k - 1]);
      RunKeeps(trace, acts, k - 1);
      StepKeeps(trace[k - 1], acts[k - 1]);
    }
  }
}
