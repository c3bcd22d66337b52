/** Answers read while they are being written: exactly when a caller of the wedge can be misled. */
module WedgeRaces {
  import opened Prelude
  import opened WedgeProtocol
  import opened WedgeProofs

  /** `acts` leads from s to t. */
  ghost predicate Leads(s: State, acts: seq<Action>, t: State)
    decreases |acts|
  {
    if acts == [] then s == t
    else Enabled(s, acts[0]) && Leads(Apply(s, acts[0]), acts[1..], t)
  }

  lemma {:induction false} LeadsTo(s: State, acts: seq<Action>, t: State, a: Action)
    requires Leads(s, acts, t) && Enabled(t, a)
    ensures Leads(s, acts + [a], Apply(t, a))
    decreases |acts|
  {
    if acts != [] {
      LeadsTo(Apply(s, acts[0]), acts[1..], t, a);
      assert (acts + [a])[1..] == acts[1..] + [a];
    } else {
      assert Leads(Apply(s, a), [], Apply(s, a));
      assert ([] + [a])[1..] == [];
    }
  }

  // ----- reading an answer that is being written -----

  /** Caller c has an answer, and it is not what the daemon said. */
  predicate Misled(s: State, c: nat) {
    && c in s.callers && s.callers[c].pc.Finished? && s.callers[c].pc.outcome.Answered?
    && s.callers[c].callId in s.table.sent
    && s.callers[c].pc.outcome.body != s.table.sent[s.callers[c].callId].body
  }

  /** Some continuation short of a roll-over misleads caller c. */
  ghost predicate CanBeMisled(s: State, c: nat) {
    exists more, t :: Leads(s, more, t) && t.table.issued < ID_SPACE && Misled(t, c)
  }

  /** The caller's own reads, one after the other, with nobody else acting in between. */
  lemma ReadsWhatTheSlotShows(s: State, c: nat, from: nat) returns (acts: seq<Action>, t: State)
    requires c in s.callers && from <= 1
    requires from == 0 ==> s.callers[c].pc.Awake? && SlotAt(s.table, s.callers[c].callIndex).reply
    requires from == 1 ==> s.callers[c].pc.SawReply?
    ensures Leads(s, acts, t) && t.table == s.table && c in t.callers
    ensures t.callers[c].callId == s.callers[c].callId
    ensures t.callers[c].pc == Finished(Answered(SlotAt(s.table, s.callers[c].callIndex).body))
  {
    var me := s.callers[c];
    var shown := SlotAt(s.table, me.callIndex).body;
    var order := [ReadFlag, ReadRet, ReadLen, ReadBuf, ReadMsg];
    acts, t := [], s;
    for n := from to 5
      invariant Leads(s, acts, t) && t.table == s.table && c in t.callers
      invariant t.callers[c].callId == me.callId && t.callers[c].callIndex == me.callIndex
      invariant n == 0 ==> t.callers[c].pc.Awake?
      invariant n == 1 ==> t.callers[c].pc.SawReply?
      invariant n == 2 ==> t.callers[c].pc == SawRet(shown.ret)
      invariant n == 3 ==> t.callers[c].pc == SawLen(shown.ret, shown.len)
      invariant n == 4 ==> t.callers[c].pc == SawBuf(shown.ret, shown.len, shown.buf)
      invariant n == 5 ==> t.callers[c].pc == Finished(Answered(shown))
    {
      var a := Thread(c, order[n]);
      LeadsTo(s, acts, t, a);
      acts, t := acts + [a], Apply(t, a);
    }
  }

  lemma {:induction false} LeadsThrough(s: State, acts: seq<Action>, t: State, more: seq<Action>, u: State)
    requires Leads(s, acts, t) && Leads(t, more, u)
    ensures Leads(s, acts + more, u)
    decreases |acts|
  {
    if acts == [] {
      assert acts + more == more;
    } else {
      LeadsThrough(Apply(s, acts[0]), acts[1..], t, more, u);
      assert (acts + more)[1..] == acts[1..] + more;
    }
  }

  /** The fill goes on to the buffer, whose allocation fails. */
  lemma FillLosesBuffer(s: State, i: nat) returns (acts: seq<Action>, t: State)
    requires s.table.fill.Filling? && 1 <= s.table.fill.stage < 5 && s.table.fill.reply.callIndex == i < |s.table.calls|
    requires s.table.calls[i].body == s.table.fill.reply.body && s.table.fill.reply.body.len != 0
    ensures Leads(s, acts, t) && t.callers == s.callers && t.table.sent == s.table.sent && t.table.issued == s.table.issued
    ensures i < |t.table.calls| && t.table.calls[i].body.buf == []
  {
    var r := s.table.fill.reply;
    acts, t := [], s;
    while t.table.fill.stage < 4
      invariant Leads(s, acts, t) && t.callers == s.callers && t.table.sent == s.table.sent && t.table.issued == s.table.issued
      invariant t.table.fill.Filling? && t.table.fill.reply == r && 1 <= t.table.fill.stage < 5
      invariant i < |t.table.calls| && t.table.calls[i].body == r.body
      decreases 4 - t.table.fill.stage
    {
      var a := Other(Write(if t.table.fill.stage == 1 then Ret else if t.table.fill.stage == 2 then Msg else Len));
      LeadsTo(s, acts, t, a);
      acts, t := acts + [a], Apply(t, a);
    }
    var a := Other(Write(Buf(false)));
    LeadsTo(s, acts, t, a);
    acts, t := acts + [a], Apply(t, a);
  }

  lemma AtRiskCanMislead(s: State, c: nat) returns (acts: seq<Action>, t: State)
    requires Inv(s) && c in s.callers && s.callers[c].pc.Awake?
    requires SlotAt(s.table, s.callers[c].callIndex).reply && AtRisk(s.table, s.callers[c])
    ensures Leads(s, acts, t) && t.table.issued < ID_SPACE && Misled(t, c)
  {
    var me := s.callers[c];
    assert CallerOk(s.table, me);
    if SlotAt(s.table, me.callIndex).body != s.table.fill.reply.body {
      acts, t := ReadsWhatTheSlotShows(s, c, 0);
    } else {
      var a := Thread(c, ReadFlag);
      var s1 := Apply(s, a);
      assert Leads(s, [a], s1) by { LeadsTo(s, [], s, a); assert [] + [a] == [a]; }
      var acts2, s2 := FillLosesBuffer(s1, me.callIndex);
      var acts3, s3 := ReadsWhatTheSlotShows(s2, c, 1);
      LeadsThrough(s, [a], s1, acts2, s2);
      LeadsThrough(s, [a] + acts2, s2, acts3, s3);
      acts, t := [a] + acts2 + acts3, s3;
    }
  }

  /** The caller sees the settled answer when it next reads, or has read without being at risk. */
  ghost predicate Safe(s: State, c: nat) {
    c in s.callers &&
    var me := s.callers[c];
    match me.pc
    case Registered => false
    case Holding => false
    case Waiting => false
    case Awake => Settled(s.table, me)
    case _ => !me.raced
  }

  /** A settled answer stays settled until its owner gives the slot back. */
  lemma SettledStays(s: State, a: Action, c: nat)
    requires Inv(s) && Enabled(s, a) && Apply(s, a).table.issued < ID_SPACE
    requires c in s.callers && s.callers[c].pc.Awake? && Settled(s.table, s.callers[c])
    requires a.Thread? ==> a.c != c
    ensures Settled(Apply(s, a).table, s.callers[c])
  {
    var me := s.callers[c].(pc := SawReply, raced := false);
    assert CallerOk(s.table, s.callers[c]);
    assert CallerOk(s.table, me);
    match a
    case Thread(d, step) =>
      assert CallerOk(s.table, s.callers[d]) && Apart(s.callers[d], s.callers[c]);
      assert Apart(s.callers[d], me);
      CallStepKeepsOther(s.table, s.callers[d], step, me);
    case Other(step) =>
      TableStepKeepsCaller(s.table, me, step);
    case _ =>
  }

  lemma SafeStep(s: State, a: Action, c: nat)
    requires Inv(s) && Enabled(s, a) && Apply(s, a).table.issued < ID_SPACE && Safe(s, c)
    ensures Safe(Apply(s, a), c)
  {
    if s.callers[c].pc.Awake? && !(a.Thread? && a.c == c) {
      SettledStays(s, a, c);
    }
  }

  lemma {:induction false} SafeIsNeverMisled(s: State, acts: seq<Action>, t: State, c: nat)
    requires Inv(s) && Safe(s, c) && Leads(s, acts, t) && t.table.issued < ID_SPACE
    ensures !Misled(t, c)
    decreases |acts|
  {
    if acts == [] {
      assert CallerOk(s.table, s.callers[c]);
    } else {
      var s' := Apply(s, acts[0]);
      IssuedGrowsAlong(s', acts[1..], t);
      StepKeeps(s, acts[0]);
      SafeStep(s, acts[0], c);
      SafeIsNeverMisled(s', acts[1..], t, c);
    }
  }

  lemma {:induction false} IssuedGrowsAlong(s: State, acts: seq<Action>, t: State)
    requires Leads(s, acts, t)
    ensures s.table.issued <= t.table.issued
    decreases |acts|
  {
    if acts != [] { IssuedGrowsAlong(Apply(s, acts[0]), acts[1..], t); }
  }

  /**
    A caller that has been woken and whose reply flag is set can be misled, by some continuation, exactly
    when its slot is at that moment in the middle of a fill whose outstanding writes matter. Holding
    wedge_calls_sem while reading would exclude just these moments.
   */
  lemma MisledIffAtRisk(trace: seq<State>, acts: seq<Action>, k: nat, c: nat)
    requires IsRun(trace, acts) && k < |trace| && trace[k].table.issued < ID_SPACE
    requires c in trace[k].callers && trace[k].callers[c].pc.Awake?
    requires SlotAt(trace[k].table, trace[k].callers[c].callIndex).reply
    ensures CanBeMisled(trace[k], c) <==> AtRisk(trace[k].table, trace[k].callers[c])
  {
    var s := trace[k];
    RunKeeps(trace, acts, k);
    if AtRisk(s.table, s.callers[c]) {
      var more, t := AtRiskCanMislead(s, c);
      assert Leads(s, more, t) && Misled(t, c);
    } else {
      assert CallerOk(s.table, s.callers[c]);
      assert Safe(s, c);
      forall more, t | Leads(s, more, t) && t.table.issued < ID_SPACE ensures !Misled(t, c) {
        SafeIsNeverMisled(s, more, t, c);
      }
    }
  }

  lemma {:induction false} AsRun(s: State, acts: seq<Action>, t: State) returns (trace: seq<State>)
    requires Leads(s, acts, t)
    ensures |trace| == |acts| + 1 && trace[0] == s && trace[|acts|] == t
    ensures forall k :: 0 <= k < |acts| ==> Enabled(trace[k], acts[k]) && trace[k + 1] == Apply(trace[k], acts[k])
    decreases |acts|
  {
    if acts == [] {
      trace := [s];
    } else {
      var rest := AsRun(Apply(s, acts[0]), acts[1..], t);
      trace := [s] + rest;
      assert forall k :: 1 <= k < |acts| ==> acts[k] == acts[1..][k - 1];
    }
  }

  /** One caller creates socket 7 and sends its request. */
  lemma FirstRequest() returns (acts: seq<Action>, t: State)
    ensures Leads(Init(), acts, t)
    ensures |t.table.calls| > 0 && t.table.calls[0] == Slot(0, SOCKET_CALL, 7, 0, 0, false, Body(0, 0, 0, []))
    ensures t.table.requests == {Request(SOCKET_CALL, 0, 0)} && t.table.fill.Unlocked?
    ensures t.callers == map[0 := Caller(7, 0, SOCKET_CALL, 0, 0, Waiting, false)]
  {
    var s0 := Init();
    assert FirstFreeSocket(s0.sockets) == Some(0);
    var a1, a2, a3 := Open(0, 7), Thread(0, Insert), Thread(0, Send);
    var s1 := Apply(s0, a1);
    LeadsTo(s0, [], s0, a1);
    assert FirstFree(s1.table.calls) == Some(0);
    var s2 := Apply(s1, a2);
    LeadsTo(s0, [] + [a1], s1, a2);
    t := Apply(s2, a3);
    LeadsTo(s0, [] + [a1] + [a2], s2, a3);
    acts := [] + [a1] + [a2] + [a3];
  }

  /** The daemon answers, the fill writes the flag and ret, and a signal wakes the caller. */
  lemma HalfFilled(s: State, body: Body) returns (acts: seq<Action>, t: State)
    requires s.callers == map[0 := Caller(7, 0, SOCKET_CALL, 0, 0, Waiting, false)]
    requires s.table.requests == {Request(SOCKET_CALL, 0, 0)} && s.table.fill.Unlocked? && |s.table.calls| > 0
    requires s.table.calls[0].callId == 0 && body.len == |body.buf|
    ensures Leads(s, acts, t)
    ensures t.callers == map[0 := Caller(7, 0, SOCKET_CALL, 0, 0, Awake, false)]
    ensures |t.table.calls| > 0 && t.table.calls[0].reply
    ensures t.table.calls[0].body == s.table.calls[0].body.(ret := body.ret)
    ensures 0 in t.table.sent && t.table.sent[0].body == body
  {
    var q, r := Request(SOCKET_CALL, 0, 0), Reply(SOCKET_CALL, 0, 0, body);
    var a1, a2, a3, a4, a5 :=
      Other(Answer(q, body)), Other(Begin(r)), Other(Write(Flag)), Other(Write(Ret)), Thread(0, Signal);
    LeadsTo(s, [], s, a1);
    var s1 := Apply(s, a1);
    LeadsTo(s, [] + [a1], s1, a2);
    var s2 := Apply(s1, a2);
    LeadsTo(s, [] + [a1] + [a2], s2, a3);
    var s3 := Apply(s2, a3);
    LeadsTo(s, [] + [a1] + [a2] + [a3], s3, a4);
    var s4 := Apply(s3, a4);
    LeadsTo(s, [] + [a1] + [a2] + [a3] + [a4], s4, a5);
    t := Apply(s4, a5);
    acts := [] + [a1] + [a2] + [a3] + [a4] + [a5];
  }

  lemma RefusalCodes(errno: nat)
    requires errno < 4096
    ensures ReturnCode(Answered(Body(NACK, errno, 0, []))) == -(errno as int)
  {
  }

  lemma HalfReadRefusal(errno: nat) returns (acts: seq<Action>, t: State)
    ensures Leads(Init(), acts, t)
    ensures 0 in t.callers && t.callers[0].callId == 0 && 0 in t.table.sent
    ensures t.table.sent[0].body == Body(NACK, errno, 0, [])
    ensures t.callers[0].pc == Finished(Answered(Body(NACK, 0, 0, [])))
  {
    var acts1, s1 := FirstRequest();
    var acts2, s2 := HalfFilled(s1, Body(NACK, errno, 0, []));
    var acts3, s3 := ReadsWhatTheSlotShows(s2, 0, 0);
    LeadsThrough(Init(), acts1, s1, acts2, s2);
    LeadsThrough(Init(), acts1 + acts2, s2, acts3, s3);
    acts, t := acts1 + acts2 + acts3, s3;
  }

  /**
    A run in which it happens: the daemon refuses a socket() call with an errno; a signal wakes the
    caller between the writes of ret and msg; it reads NACK with the msg the slot had before, zero, and
    the call returns 0.
   */
  lemma RefusedCallReturnsSuccess(errno: nat) returns (trace: seq<State>, acts: seq<Action>)
    requires 0 < errno < 4096
    ensures IsRun(trace, acts)
    ensures var s := trace[|acts|];
      && Misled(s, 0) && ReturnCode(s.callers[0].pc.outcome) == 0
      && ReturnCode(Answered(s.table.sent[s.callers[0].callId].body)) == -(errno as int)
  {
    var t;
    acts, t := HalfReadRefusal(errno);
    trace := AsRun(Init(), acts, t);
    RefusalCodes(errno);
    RefusalCodes(0);
  }
}
