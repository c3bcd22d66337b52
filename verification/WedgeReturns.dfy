/** What calls that end in checkConfirmation return, said by what the daemon answered and what the caller met. */
module WedgeReturns {
  import opened Prelude
  import opened WedgeProtocol
  import opened WedgeProofs
  import opened WedgeTheorems

  predicate IsS32(n: int) {
    -0x8000_0000 <= n < 0x8000_0000
  }

  /** The two numbers have the same 32 bits. */
  predicate SameBits(m: int, n: int) {
    (m - n) % 0x1_0000_0000 == 0
  }

  /** What a call returns on this answer: 200 is ACK, 6666 is NACK. */
  predicate CallsFor(body: Body, rc: int) {
    && (body.ret == 200 && body.len == 0 ==>
          IsS32(rc) && SameBits(rc, body.msg) && (body.msg < 0x8000_0000 ==> rc == body.msg))
    && (body.ret == 200 && body.len != 0 ==> rc == -1)
    && (body.ret == 6666 ==>
          IsS32(rc) && SameBits(-rc, body.msg) && (body.msg <= 0x8000_0000 ==> rc + body.msg == 0))
    && (body.ret != 200 && body.ret != 6666 ==> rc == -1)
  }

  lemma WrapsToS32(n: int)
    ensures IsS32(ToS32(n)) && SameBits(ToS32(n), n) && (IsS32(n) ==> ToS32(n) == n)
  {
  }

  lemma AnswerCallsFor(body: Body)
    ensures CallsFor(body, ReturnCode(Answered(body)))
  {
    WrapsToS32(body.msg);
    WrapsToS32(-(body.msg as int));
  }

  /** The daemon answers this request with a body that calls for this return value. */
  predicate AnswersWith(a: Action, q: Request, rc: int) {
    a.Other? && a.table.Answer? && a.table.q == q && CallsFor(a.table.body, rc)
  }

  /**
    In every interleaving a call that ended with an answer it did not read in the middle of a fill returns
    what the daemon's answer to its own request calls for: the msg of an ACK without data, -1 for an ACK with
    data, the negated msg of a NACK, and -1 for anything else.
   */
  lemma ReturnsWhatWasAnswered(trace: seq<State>, acts: seq<Action>, k: nat, c: nat)
    requires IsRun(trace, acts) && k < |trace| && trace[k].table.issued < ID_SPACE && c in trace[k].callers
    requires trace[k].callers[c].pc.Done? && trace[k].callers[c].pc.outcome.Answered? && !trace[k].callers[c].raced
    ensures var me := trace[k].callers[c];
      exists j :: 0 <= j < k && AnswersWith(acts[j], RequestOf(me), ReturnCode(me.pc.outcome))
  {
    var me := trace[k].callers[c];
    CallerSeesItsOwnReply(trace, acts, k, c);
    var j :| 0 <= j < k && Answers(acts[j], RequestOf(me), me.pc.outcome.body);
    AnswerCallsFor(me.pc.outcome.body);
    assert AnswersWith(acts[j], RequestOf(me), ReturnCode(me.pc.outcome));
  }

  // ----- calls that end without an answer -----

  function OutcomeOf(pc: Pc): Option<Outcome> {
    match pc
    case Finished(o) => Some(o)
    case Leaving(o) => Some(o)
    case Done(o) => Some(o)
    case _ => None
  }

  /** At this step the caller finds every slot taken. */
  predicate FindsTableFull(s: State, a: Action, c: nat) {
    a == Thread(c, Insert) && forall i :: 0 <= i < |s.table.calls| ==> s.table.calls[i].callId != 0xFFFF_FFFF
  }

  /** At this step it gives up because the request was not sent. */
  predicate GivesUp(a: Action, c: nat) {
    a == Thread(c, Abandon)
  }

  /** At this step, awake, it finds its reply flag clear, or set. */
  predicate LooksAtFlag(s: State, a: Action, c: nat, flag: bool) {
    a == Thread(c, ReadFlag) && c in s.callers && SlotAt(s.table, s.callers[c].callIndex).reply == flag
  }

  /** Step a is why caller c ends with outcome o. */
  predicate Explains(s: State, a: Action, c: nat, o: Outcome) {
    match o
    case NoSlot => FindsTableFull(s, a, c)
    case NotSent => GivesUp(a, c)
    case NoReply => LooksAtFlag(s, a, c, false)
    case Answered(_) => LooksAtFlag(s, a, c, true)
  }

  /** A caller that is reading its answer has seen its flag. */
  predicate Reading(pc: Pc) {
    pc.SawReply? || pc.SawRet? || pc.SawLen? || pc.SawBuf?
  }

  /** A step after which a caller is reading found it reading, or showed it its flag. */
  lemma StepToReading(s: State, a: Action, c: nat)
    requires Enabled(s, a) && c in Apply(s, a).callers && Reading(Apply(s, a).callers[c].pc)
    ensures c in s.callers && (Reading(s.callers[c].pc) || LooksAtFlag(s, a, c, true))
  {
  }

  /** A step after which a caller has an outcome found it with that outcome, ended its reading, or explains it. */
  lemma StepToOutcome(s: State, a: Action, c: nat, o: Outcome)
    requires Enabled(s, a) && c in Apply(s, a).callers && OutcomeOf(Apply(s, a).callers[c].pc) == Some(o)
    ensures c in s.callers
    ensures || OutcomeOf(s.callers[c].pc) == Some(o)
            || (if o.Answered? then Reading(s.callers[c].pc) else Explains(s, a, c, o))
  {
  }

  lemma {:induction false} ReaderSawFlag(trace: seq<State>, acts: seq<Action>, k: nat, c: nat) returns (j: nat)
    requires IsRun(trace, acts) && k < |trace| && c in trace[k].callers && Reading(trace[k].callers[c].pc)
    ensures j < k && LooksAtFlag(trace[j], acts[j], c, true)
  {
    StepToReading(trace[k - 1], acts[k - 1], c);
    if LooksAtFlag(trace[k - 1], acts[k - 1], c, true) {
      j := k - 1;
    } else {
      j := ReaderSawFlag(trace, acts, k - 1, c);
    }
  }

  lemma {:induction false} OutcomeIsExplained(trace: seq<State>, acts: seq<Action>, k: nat, c: nat, o: Outcome)
    returns (j: nat)
    requires IsRun(trace, acts) && k < |trace| && c in trace[k].callers && OutcomeOf(trace[k].callers[c].pc) == Some(o)
    ensures j < k && Explains(trace[j], acts[j], c, o)
  {
    StepToOutcome(trace[k - 1], acts[k - 1], c, o);
    if OutcomeOf(trace[k - 1].callers[c].pc) == Some(o) {
      j := OutcomeIsExplained(trace, acts, k - 1, c, o);
    } else if o.Answered? {
      j := ReaderSawFlag(trace, acts, k - 1, c);
    } else {
      j := k - 1;
    }
  }

  /**
    In every interleaving a call that ended without an answer returns -ENOMEM if it met a full table, -1 if its
    request was not sent, and -EINTR if it woke and found no reply.
   */
  lemma ReturnsWithoutAnswer(trace: seq<State>, acts: seq<Action>, k: nat, c: nat)
    requires IsRun(trace, acts) && k < |trace| && c in trace[k].callers
    requires trace[k].callers[c].pc.Done? && !trace[k].callers[c].pc.outcome.Answered?
    ensures var rc := ReturnCode(trace[k].callers[c].pc.outcome);
      || (rc == -12 && exists j :: 0 <= j < k && FindsTableFull(trace[j], acts[j], c))
      || (rc == -1 && exists j :: 0 <= j < k && GivesUp(acts[j], c))
      || (rc == -4 && exists j :: 0 <= j < k && LooksAtFlag(trace[j], acts[j], c, false))
  {
    var j := OutcomeIsExplained(trace, acts, k, c, trace[k].callers[c].pc.outcome);
  }

  // ----- ret before it is written -----

  /** Nothing of the reply to this call has reached ret yet. */
  ghost predicate RetPending(b: Table, me: Caller) {
    || me.callId !in b.sent || !NoReplyFor(b, me.callId)
    || (b.fill.Filling? && b.fill.reply.callIndex == me.callIndex && b.fill.stage < 2)
  }

  ghost predicate RetOk(b: Table, me: Caller) {
    HoldsSlot(me.pc) && RetPending(b, me) ==> SlotAt(b, me.callIndex).body.ret == 0
  }

  lemma TableStepKeepsRet(b: Table, me: Caller, step: TableStep)
    requires TableOk(b) && CallerOk(b, me) && TableEnabled(b, step) && RetOk(b, me)
    ensures RetOk(TableNext(b, step), me)
  {
  }

  lemma OthersStepKeepsRet(b: Table, other: Caller, step: CallStep, me: Caller)
    requires TableOk(b) && CallEnabled(b, other, step) && CallerOk(b, other) && CallerOk(b, me) && Apart(other, me)
    requires RetOk(b, me)
    ensures RetOk(CallTable(b, other, step), me)
  {
  }

  lemma OwnStepKeepsRet(b: Table, me: Caller, step: CallStep)
    requires CallEnabled(b, me, step) && CallerOk(b, me) && RetOk(b, me)
    ensures RetOk(CallTable(b, me, step), CallNext(b, me, step))
  {
  }

  lemma StepKeepsRet(s: State, a: Action, c: nat)
    requires Inv(s) && Enabled(s, a) && c in Apply(s, a).callers
    requires c in s.callers ==> RetOk(s.table, s.callers[c])
    ensures RetOk(Apply(s, a).table, Apply(s, a).callers[c])
  {
    if c in s.callers {
      assert CallerOk(s.table, s.callers[c]);
      match a
      case Thread(d, step) =>
        assert CallerOk(s.table, s.callers[d]);
        if d == c {
          OwnStepKeepsRet(s.table, s.callers[c], step);
        } else {
          assert Apart(s.callers[d], s.callers[c]);
          OthersStepKeepsRet(s.table, s.callers[d], step, s.callers[c]);
        }
      case Other(step) => TableStepKeepsRet(s.table, s.callers[c], step);
      case _ =>
    }
  }

  /** In every interleaving a caller that reads ret before its reply has written it reads 0, so that it returns -1. */
  lemma {:induction false} RetIsClearUntilWritten(trace: seq<State>, acts: seq<Action>, k: nat, c: nat)
    requires IsRun(trace, acts) && k < |trace| && trace[k].table.issued < ID_SPACE && c in trace[k].callers
    ensures RetOk(trace[k].table, trace[k].callers[c])
  {
    if k > 0 {
      IssuedGrows(trace[k - 1], acts[k - 1]);
      RunKeeps(trace, acts, k - 1);
      if c in trace[k - 1].callers { RetIsClearUntilWritten(trace, acts, k - 1, c); }
      StepKeepsRet(trace[k - 1], acts[k - 1], c);
    }
  }
}
