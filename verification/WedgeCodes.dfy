/** Which races of a read with a fill can change what a call that ends in checkConfirmation returns. */
module WedgeCodes {
  import opened Prelude
  import opened WedgeProtocol
  import opened WedgeProofs
  import opened WedgeRaces

  /** What checkConfirmation makes of the three fields it reads. */
  function Code(ret: nat, len: nat, msg: nat): int {
    ReturnCode(Answered(Body(ret, msg, len, [])))
  }

  function CodeOf(body: Body): int {
    Code(body.ret, body.len, body.msg)
  }

  /** The body a slot shows after k writes of a fill, the flag being the first; buf is not looked at. */
  function Shown(was: Body, now: Body, k: nat): Body {
    Body(if k >= 2 then now.ret else was.ret, if k >= 3 then now.msg else was.msg,
         if k >= 4 then now.len else was.len, [])
  }

  /** What a caller returns that reads ret after k1 writes, len after k2 and msg after k3. */
  function MixedCode(was: Body, now: Body, k1: nat, k2: nat, k3: nat): int {
    Code(Shown(was, now, k1).ret, Shown(was, now, k2).len, Shown(was, now, k3).msg)
  }

  /** All three fields read from the k-th write on, in the order of checkConfirmation, give the same code. */
  predicate SameCode(was: Body, now: Body, k: nat) {
    forall k1, k2, k3 :: k <= k1 <= k2 <= k3 <= 4 ==> MixedCode(was, now, k1, k2, k3) == CodeOf(now)
  }

  predicate FillsSlotOf(b: Table, me: Caller) {
    b.fill.Filling? && b.fill.reply.callIndex == me.callIndex
  }

  /** How many of the four fields' writes are done, as far as this caller's slot is concerned. */
  function Writes(b: Table, me: Caller): nat {
    if FillsSlotOf(b, me) && b.fill.stage < 4 then b.fill.stage else 4
  }

  /** The slot is in the middle of a fill, and some order of the writes and the reads changes the code. */
  predicate CodeAtRisk(b: Table, me: Caller) {
    FillsSlotOf(b, me) && !SameCode(SlotAt(b, me.callIndex).body, b.fill.reply.body, b.fill.stage)
  }

  /** Caller c returns something other than the daemon's answer calls for. */
  predicate WrongCode(s: State, c: nat) {
    && c in s.callers && s.callers[c].pc.Finished? && s.callers[c].pc.outcome.Answered?
    && s.callers[c].callId in s.table.sent
    && ReturnCode(s.callers[c].pc.outcome) != CodeOf(s.table.sent[s.callers[c].callId].body)
  }

  ghost predicate CanReturnWrong(s: State, c: nat) {
    exists more, t :: Leads(s, more, t) && t.table.issued < ID_SPACE && WrongCode(t, c)
  }

  // ----- a caller at risk can be made to return the wrong code -----

  /** The body shows what k writes have left. */
  predicate Honest(body: Body, now: Body, k: nat) {
    body.(buf := []) == Shown(body, now, k)
  }

  /** Every later moment of the fill looks the same from `t` as it did from `s`. */
  predicate SameFuture(was: Body, left: Body, now: Body, k: nat) {
    forall n :: k <= n <= 4 ==> Shown(left, now, n) == Shown(was, now, n)
  }

  function WriteAt(k: nat): FillStep {
    if k == 1 then Ret else if k == 2 then Msg else Len
  }

  lemma FillTo(s: State, i: nat, k: nat) returns (acts: seq<Action>, t: State)
    requires s.table.fill.Filling? && s.table.fill.reply.callIndex == i < |s.table.calls|
    requires 1 <= s.table.fill.stage <= k <= 4
    requires Honest(s.table.calls[i].body, s.table.fill.reply.body, s.table.fill.stage)
    ensures Leads(s, acts, t) && t.callers == s.callers
    ensures t.table.sent == s.table.sent && t.table.issued == s.table.issued && i < |t.table.calls|
    ensures t.table.fill == Filling(s.table.fill.reply, k) && t.table.calls[i].reply == s.table.calls[i].reply
    ensures Honest(t.table.calls[i].body, s.table.fill.reply.body, k)
    ensures SameFuture(s.table.calls[i].body, t.table.calls[i].body, s.table.fill.reply.body, k)
  {
    var r := s.table.fill.reply;
    acts, t := [], s;
    while t.table.fill.stage < k
      invariant Leads(s, acts, t) && t.callers == s.callers
      invariant t.table.sent == s.table.sent && t.table.issued == s.table.issued && i < |t.table.calls|
      invariant t.table.fill.Filling? && t.table.fill.reply == r && 1 <= t.table.fill.stage <= k
      invariant t.table.calls[i].reply == s.table.calls[i].reply
      invariant Honest(t.table.calls[i].body, r.body, t.table.fill.stage)
      invariant SameFuture(s.table.calls[i].body, t.table.calls[i].body, r.body, t.table.fill.stage)
      decreases k - t.table.fill.stage
    {
      var a := Other(Write(WriteAt(t.table.fill.stage)));
      LeadsTo(s, acts, t, a);
      acts, t := acts + [a], Apply(t, a);
    }
  }

  /** Where the caller stands after n of its reads, the fields having been read after ks[n] writes. */
  predicate ReadSoFar(pc: Pc, was: Body, now: Body, ks: seq<nat>, n: nat)
    requires |ks| == 5
  {
    && (n == 0 ==> pc.Awake?)
    && (n == 1 ==> pc.SawReply?)
    && (n == 2 ==> pc == SawRet(Shown(was, now, ks[1]).ret))
    && (n == 3 ==> pc == SawLen(Shown(was, now, ks[1]).ret, Shown(was, now, ks[2]).len))
    && (n == 4 ==> pc.SawBuf? && pc.ret == Shown(was, now, ks[1]).ret && pc.len == Shown(was, now, ks[2]).len)
    && (n == 5 ==>
          pc.Finished? && pc.outcome.Answered? &&
          ReturnCode(pc.outcome) == MixedCode(was, now, ks[1], ks[2], ks[4]))
  }

  const READS: seq<CallStep> := [ReadFlag, ReadRet, ReadLen, ReadBuf, ReadMsg]

  /** The fill has come to k, and the caller has made n reads. */
  predicate Stand(t: State, s: State, c: nat, k: nat, ks: seq<nat>, n: nat)
    requires |ks| == 5 && c in s.callers && s.table.fill.Filling?
  {
    var me := s.callers[c]; var r := s.table.fill.reply; var i := me.callIndex;
    && t.table.sent == s.table.sent && t.table.issued == s.table.issued
    && c in t.callers && t.callers[c].callId == me.callId && t.callers[c].callIndex == i
    && i < |t.table.calls| && t.table.fill == Filling(r, k) && t.table.calls[i].reply
    && Honest(t.table.calls[i].body, r.body, k)
    && SameFuture(SlotAt(s.table, i).body, t.table.calls[i].body, r.body, k)
    && ReadSoFar(t.callers[c].pc, SlotAt(s.table, i).body, r.body, ks, n)
  }

  lemma OneRead(t: State, s: State, c: nat, ks: seq<nat>, n: nat)
    requires |ks| == 5 && n < 5 && c in s.callers && s.table.fill.Filling? && ks[n] <= 4
    requires Stand(t, s, c, ks[n], ks, n)
    ensures Enabled(t, Thread(c, READS[n])) && Stand(Apply(t, Thread(c, READS[n])), s, c, ks[n], ks, n + 1)
  {
    assert Shown(t.table.calls[s.callers[c].callIndex].body, s.table.fill.reply.body, ks[n])
        == Shown(SlotAt(s.table, s.callers[c].callIndex).body, s.table.fill.reply.body, ks[n]);
  }

  lemma FillAndRead(t: State, s: State, c: nat, k: nat, ks: seq<nat>, n: nat) returns (acts: seq<Action>, u: State)
    requires |ks| == 5 && n < 5 && c in s.callers && s.table.fill.Filling? && 1 <= k <= ks[n] <= 4
    requires s.table.fill.reply.callIndex == s.callers[c].callIndex && Stand(t, s, c, k, ks, n)
    ensures Leads(t, acts, u) && Stand(u, s, c, ks[n], ks, n + 1)
  {
    var more, mid := FillTo(t, s.callers[c].callIndex, ks[n]);
    OneRead(mid, s, c, ks, n);
    LeadsTo(t, more, mid, Thread(c, READS[n]));
    acts, u := more + [Thread(c, READS[n])], Apply(mid, Thread(c, READS[n]));
  }

  lemma ReadMixed(s: State, c: nat, ks: seq<nat>) returns (acts: seq<Action>, t: State)
    requires |ks| == 5 && c in s.callers && s.callers[c].pc.Awake? && s.callers[c].callIndex < |s.table.calls|
    requires FillsSlotOf(s.table, s.callers[c]) && SlotAt(s.table, s.callers[c].callIndex).reply
    requires 1 <= s.table.fill.stage == ks[0] <= ks[1] <= ks[2] <= ks[3] <= ks[4] <= 4
    requires Honest(SlotAt(s.table, s.callers[c].callIndex).body, s.table.fill.reply.body, s.table.fill.stage)
    ensures Leads(s, acts, t) && Stand(t, s, c, ks[4], ks, 5)
  {
    acts, t := [], s;
    for n := 0 to 5
      invariant Leads(s, acts, t) && Stand(t, s, c, ks[if n == 0 then 0 else n - 1], ks, n)
    {
      var more, u := FillAndRead(t, s, c, ks[if n == 0 then 0 else n - 1], ks, n);
      LeadsThrough(s, acts, t, more, u);
      acts, t := acts + more, u;
    }
  }

  lemma CodeAtRiskGoesWrong(s: State, c: nat) returns (acts: seq<Action>, t: State)
    requires Inv(s) && c in s.callers && s.callers[c].pc.Awake?
    requires SlotAt(s.table, s.callers[c].callIndex).reply && CodeAtRisk(s.table, s.callers[c])
    ensures Leads(s, acts, t) && t.table.issued < ID_SPACE && WrongCode(t, c)
  {
    var me, b := s.callers[c], s.table;
    assert CallerOk(b, me);
    var was, now := SlotAt(b, me.callIndex).body, b.fill.reply.body;
    var k1, k2, k3 :| b.fill.stage <= k1 <= k2 <= k3 <= 4 && MixedCode(was, now, k1, k2, k3) != CodeOf(now);
    acts, t := ReadMixed(s, c, [b.fill.stage, k1, k2, k2, k3]);
  }

  // ----- a caller that is not at risk returns what the answer calls for -----

  /** The reply to this caller's request is in its slot, or is being written there. */
  ghost predicate Tracks(b: Table, me: Caller, now: Body) {
    && me.callId in b.sent && b.sent[me.callId].body == now && NoReplyFor(b, me.callId)
    && (FillsSlotOf(b, me) ==> b.fill.reply.body == now && b.fill.stage >= 1)
    && Honest(SlotAt(b, me.callIndex).body, now, Writes(b, me))
  }

  /** Whatever happens, the code will be that of `now`. */
  predicate Right(b: Table, me: Caller, now: Body) {
    var was, k := SlotAt(b, me.callIndex).body, Writes(b, me);
    match me.pc
    case Awake => SameCode(was, now, k)
    case SawReply => SameCode(was, now, k)
    case SawRet(ret) =>
      forall k2, k3 :: k <= k2 <= k3 <= 4 ==> Code(ret, Shown(was, now, k2).len, Shown(was, now, k3).msg) == CodeOf(now)
    case SawLen(ret, len) => forall k3 :: k <= k3 <= 4 ==> Code(ret, len, Shown(was, now, k3).msg) == CodeOf(now)
    case SawBuf(ret, len, _) => forall k3 :: k <= k3 <= 4 ==> Code(ret, len, Shown(was, now, k3).msg) == CodeOf(now)
    case Finished(o) => o.Answered? ==> ReturnCode(o) == CodeOf(now)
    case _ => false
  }

  /** True from the moment the caller is woken with its reply flag set until it gives the slot back. */
  ghost predicate OnCourse(b: Table, me: Caller, now: Body) {
    HoldsSlot(me.pc) ==> Tracks(b, me, now) && Right(b, me, now)
  }

  lemma OwnStepStaysOnCourse(b: Table, me: Caller, step: CallStep, now: Body)
    requires CallEnabled(b, me, step) && !me.pc.Registered? && OnCourse(b, me, now)
    ensures OnCourse(CallTable(b, me, step), CallNext(b, me, step), now)
  {
    if HoldsSlot(me.pc) {
      var was, k := SlotAt(b, me.callIndex).body, Writes(b, me);
      assert Shown(was, now, k) == was.(buf := []);
      if step.ReadRet? {
        forall k2, k3 | k <= k2 <= k3 <= 4
          ensures Code(was.ret, Shown(was, now, k2).len, Shown(was, now, k3).msg) == CodeOf(now)
        {
          assert MixedCode(was, now, k, k2, k3) == CodeOf(now);
        }
      } else if step.ReadLen? {
        forall k3 | k <= k3 <= 4 ensures Code(me.pc.ret, was.len, Shown(was, now, k3).msg) == CodeOf(now) {
          assert Code(me.pc.ret, Shown(was, now, k).len, Shown(was, now, k3).msg) == CodeOf(now);
        }
      } else if step.ReadMsg? {
        assert Code(me.pc.ret, me.pc.len, Shown(was, now, k).msg) == CodeOf(now);
      }
    }
  }

  lemma OthersStepStaysOnCourse(b: Table, other: Caller, step: CallStep, me: Caller, now: Body)
    requires TableOk(b) && CallEnabled(b, other, step) && CallerOk(b, other) && CallerOk(b, me) && Apart(other, me)
    requires CallTable(b, other, step).issued < ID_SPACE && OnCourse(b, me, now)
    ensures OnCourse(CallTable(b, other, step), me, now)
  {
    if HoldsSlot(me.pc) {
      assert SlotAt(CallTable(b, other, step), me.callIndex).body == SlotAt(b, me.callIndex).body;
    }
  }

  /** Going on with the fill of the caller's own slot leaves fewer of the same moments to read at. */
  lemma FillStaysOnCourse(b: Table, f: FillStep, me: Caller, now: Body)
    requires TableOk(b) && TableEnabled(b, Write(f)) && CallerOk(b, me) && HoldsSlot(me.pc) && FillsSlotOf(b, me)
    requires Tracks(b, me, now) && Right(b, me, now)
    ensures Tracks(WriteField(b, f), me, now) && Right(WriteField(b, f), me, now)
  {
    var t := WriteField(b, f);
    var was, left := SlotAt(b, me.callIndex).body, SlotAt(t, me.callIndex).body;
    assert forall n :: Writes(t, me) <= n <= 4 ==> Shown(left, now, n) == Shown(was, now, n);
    assert Writes(b, me) <= Writes(t, me);
    if me.pc.Awake? || me.pc.SawReply? {
      forall k1, k2, k3 | Writes(t, me) <= k1 <= k2 <= k3 <= 4
        ensures MixedCode(left, now, k1, k2, k3) == CodeOf(now)
      {
        assert MixedCode(was, now, k1, k2, k3) == CodeOf(now);
      }
    }
  }

  lemma TableStepStaysOnCourse(b: Table, step: TableStep, me: Caller, now: Body)
    requires TableOk(b) && TableEnabled(b, step) && CallerOk(b, me) && OnCourse(b, me, now)
    ensures OnCourse(TableNext(b, step), me, now)
  {
    if HoldsSlot(me.pc) {
      if step.Write? && FillsSlotOf(b, me) {
        FillStaysOnCourse(b, step.field, me, now);
      } else {
        var t := TableNext(b, step);
        assert SlotAt(t, me.callIndex).body == SlotAt(b, me.callIndex).body;
        assert Writes(t, me) == Writes(b, me);
      }
    }
  }

  lemma StaysOnCourse(s: State, a: Action, c: nat, now: Body)
    requires Inv(s) && Enabled(s, a) && Apply(s, a).table.issued < ID_SPACE
    requires c in s.callers && !s.callers[c].pc.Registered? && OnCourse(s.table, s.callers[c], now)
    ensures var t := Apply(s, a); c in t.callers && !t.callers[c].pc.Registered? && OnCourse(t.table, t.callers[c], now)
  {
    assert CallerOk(s.table, s.callers[c]);
    match a
    case Thread(d, step) =>
      if d == c {
        OwnStepStaysOnCourse(s.table, s.callers[c], step, now);
      } else {
        assert CallerOk(s.table, s.callers[d]) && Apart(s.callers[d], s.callers[c]);
        OthersStepStaysOnCourse(s.table, s.callers[d], step, s.callers[c], now);
      }
    case Other(step) => TableStepStaysOnCourse(s.table, step, s.callers[c], now);
    case _ =>
  }

  lemma {:induction false} OnCourseIsNeverWrong(s: State, acts: seq<Action>, t: State, c: nat, now: Body)
    requires Inv(s) && Leads(s, acts, t) && t.table.issued < ID_SPACE
    requires c in s.callers && !s.callers[c].pc.Registered? && OnCourse(s.table, s.callers[c], now)
    ensures !WrongCode(t, c)
    decreases |acts|
  {
    if acts != [] {
      var s' := Apply(s, acts[0]);
      IssuedGrowsAlong(s', acts[1..], t);
      StepKeeps(s, acts[0]);
      StaysOnCourse(s, acts[0], c, now);
      OnCourseIsNeverWrong(s', acts[1..], t, c, now);
    }
  }

  lemma NotAtRiskIsOnCourse(b: Table, me: Caller)
    requires TableOk(b) && CallerOk(b, me) && me.pc.Awake? && SlotAt(b, me.callIndex).reply && !CodeAtRisk(b, me)
    ensures me.callId in b.sent && OnCourse(b, me, b.sent[me.callId].body)
  {
    if !FillsSlotOf(b, me) { assert Settled(b, me); }
  }

  /**
    A caller that has been woken and whose reply flag is set can come to return something other than the
    daemon's answer calls for, by some continuation, exactly when its slot is in the middle of a fill and
    reading ret, len and msg at some later moments of that fill, in this order, gives another code.
   */
  lemma WrongCodeIffAtRisk(trace: seq<State>, acts: seq<Action>, k: nat, c: nat)
    requires IsRun(trace, acts) && k < |trace| && trace[k].table.issued < ID_SPACE
    requires c in trace[k].callers && trace[k].callers[c].pc.Awake?
    requires SlotAt(trace[k].table, trace[k].callers[c].callIndex).reply
    ensures CanReturnWrong(trace[k], c) <==> CodeAtRisk(trace[k].table, trace[k].callers[c])
  {
    var s := trace[k];
    RunKeeps(trace, acts, k);
    assert CallerOk(s.table, s.callers[c]);
    if CodeAtRisk(s.table, s.callers[c]) {
      var more, t := CodeAtRiskGoesWrong(s, c);
      assert Leads(s, more, t) && WrongCode(t, c);
    } else {
      NotAtRiskIsOnCourse(s.table, s.callers[c]);
      forall more, t | Leads(s, more, t) && t.table.issued < ID_SPACE ensures !WrongCode(t, c) {
        OnCourseIsNeverWrong(s, more, t, c, s.table.sent[s.callers[c].callId].body);
      }
    }
  }
}
