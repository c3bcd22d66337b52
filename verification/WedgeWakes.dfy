/** A caller that sleeps on its slot is woken by its reply, and by nothing else but a removal or a signal. */
module WedgeWakes {
  import opened Prelude
  import opened WedgeProtocol
  import opened WedgeProofs

  predicate FillsSlot(b: Table, me: Caller) {
    b.fill.Filling? && b.fill.reply.callIndex == me.callIndex
  }

  predicate CanWake(b: Table, me: Caller) {
    me.pc.Waiting? && SlotAt(b, me.callIndex).waits > 0
  }

  /** A reply that is there has posted the semaphore. */
  predicate WakeOk(b: Table, me: Caller) {
    me.pc.Waiting? && SlotAt(b, me.callIndex).reply && !FillsSlot(b, me) ==> SlotAt(b, me.callIndex).waits > 0
  }

  /** Until the reply has been written nobody has posted it. */
  ghost predicate AsleepOk(b: Table, me: Caller) {
    (me.pc.Holding? || me.pc.Waiting?) && SlotAt(b, me.callIndex).waits > 0 ==>
      me.pc.Waiting? && me.callId in b.sent && NoReplyFor(b, me.callId) && !FillsSlot(b, me)
  }

  // ----- one step -----

  /** The last step of a fill wakes the caller of the slot, whether or not there was memory for the buffer. */
  lemma FinishWakes(b: Table, me: Caller)
    requires TableOk(b) && CallerOk(b, me) && me.pc.Waiting? && FillsSlot(b, me) && TableEnabled(b, Write(Finish))
    ensures CanWake(TableNext(b, Write(Finish)), me)
  {
  }

  lemma TableStepKeepsWake(b: Table, me: Caller, step: TableStep)
    requires TableOk(b) && CallerOk(b, me) && TableEnabled(b, step)
    ensures WakeOk(b, me) ==> WakeOk(TableNext(b, step), me)
    ensures CanWake(b, me) ==> CanWake(TableNext(b, step), me)
  {
  }

  lemma OthersStepKeepsWake(b: Table, other: Caller, step: CallStep, me: Caller)
    requires TableOk(b) && CallEnabled(b, other, step) && CallerOk(b, other) && CallerOk(b, me) && Apart(other, me)
    ensures WakeOk(b, me) ==> WakeOk(CallTable(b, other, step), me)
    ensures CanWake(b, me) ==> CanWake(CallTable(b, other, step), me)
  {
  }

  lemma OwnStepKeepsWake(b: Table, me: Caller, step: CallStep)
    requires CallEnabled(b, me, step) && CallerOk(b, me)
    ensures WakeOk(b, me) ==> WakeOk(CallTable(b, me, step), CallNext(b, me, step))
  {
  }

  lemma TableStepKeepsAsleep(b: Table, me: Caller, step: TableStep)
    requires TableOk(b) && CallerOk(b, me) && TableEnabled(b, step) && !step.Post? && AsleepOk(b, me)
    ensures AsleepOk(TableNext(b, step), me)
  {
  }

  lemma OthersStepKeepsAsleep(b: Table, other: Caller, step: CallStep, me: Caller)
    requires TableOk(b) && CallEnabled(b, other, step) && CallerOk(b, other) && CallerOk(b, me) && Apart(other, me)
    requires AsleepOk(b, me)
    ensures AsleepOk(CallTable(b, other, step), me)
  {
  }

  lemma OwnStepKeepsAsleep(b: Table, me: Caller, step: CallStep)
    requires CallEnabled(b, me, step) && CallerOk(b, me) && AsleepOk(b, me)
    ensures AsleepOk(CallTable(b, me, step), CallNext(b, me, step))
  {
  }

  // ----- runs -----

  lemma StepKeepsWake(s: State, a: Action, c: nat)
    requires Inv(s) && Enabled(s, a) && c in Apply(s, a).callers
    requires c in s.callers ==> WakeOk(s.table, s.callers[c])
    ensures WakeOk(Apply(s, a).table, Apply(s, a).callers[c])
  {
    if c in s.callers {
      assert CallerOk(s.table, s.callers[c]);
      match a
      case Thread(d, step) =>
        assert CallerOk(s.table, s.callers[d]);
        if d == c {
          OwnStepKeepsWake(s.table, s.callers[c], step);
        } else {
          assert Apart(s.callers[d], s.callers[c]);
          OthersStepKeepsWake(s.table, s.callers[d], step, s.callers[c]);
        }
      case Other(step) => TableStepKeepsWake(s.table, s.callers[c], step);
      case _ =>
    }
  }

  lemma {:induction false} RunKeepsWake(trace: seq<State>, acts: seq<Action>, k: nat, c: nat)
    requires IsRun(trace, acts) && k < |trace| && trace[k].table.issued < ID_SPACE && c in trace[k].callers
    ensures WakeOk(trace[k].table, trace[k].callers[c])
  {
    if k > 0 {
      IssuedGrows(trace[k - 1], acts[k - 1]);
      RunKeeps(trace, acts, k - 1);
      if c in trace[k - 1].callers { RunKeepsWake(trace, acts, k - 1, c); }
      StepKeepsWake(trace[k - 1], acts[k - 1], c);
    }
  }

  /**
    In every interleaving a caller that waits can wake as soon as its reply has been written: the flag is
    set and the fill of its slot is over.
   */
  lemma DeliveredReplyWakes(trace: seq<State>, acts: seq<Action>, k: nat, c: nat)
    requires IsRun(trace, acts) && k < |trace| && trace[k].table.issued < ID_SPACE
    requires c in trace[k].callers && trace[k].callers[c].pc.Waiting?
    requires SlotAt(trace[k].table, trace[k].callers[c].callIndex).reply
    requires !FillsSlot(trace[k].table, trace[k].callers[c])
    ensures Enabled(trace[k], Thread(c, Wake))
  {
    RunKeepsWake(trace, acts, k, c);
  }

  /** In every interleaving the end of a fill lets the caller of its slot wake, with or without the buffer. */
  lemma EndOfFillWakes(trace: seq<State>, acts: seq<Action>, k: nat, c: nat)
    requires IsRun(trace, acts) && k < |acts| && trace[k].table.issued < ID_SPACE && acts[k] == Other(Write(Finish))
    requires c in trace[k].callers && trace[k].callers[c].pc.Waiting? && FillsSlot(trace[k].table, trace[k].callers[c])
    ensures Enabled(trace[k + 1], Thread(c, Wake))
  {
    RunKeeps(trace, acts, k);
    assert CallerOk(trace[k].table, trace[k].callers[c]);
    FinishWakes(trace[k].table, trace[k].callers[c]);
  }

  predicate ActsOf(a: Action, c: nat) {
    a.Thread? && a.c == c
  }

  /** A caller that can wake still can, whatever others do, until it acts itself. */
  lemma {:induction false} WakeLasts(trace: seq<State>, acts: seq<Action>, j: nat, k: nat, c: nat)
    requires IsRun(trace, acts) && j <= k < |trace| && trace[k].table.issued < ID_SPACE
    requires Enabled(trace[j], Thread(c, Wake)) && forall n :: j <= n < k ==> !ActsOf(acts[n], c)
    ensures Enabled(trace[k], Thread(c, Wake))
  {
    if j < k {
      var s, a := trace[k - 1], acts[k - 1];
      IssuedGrows(s, a);
      WakeLasts(trace, acts, j, k - 1, c);
      RunKeeps(trace, acts, k - 1);
      assert !ActsOf(a, c);
      WakeLastsOneStep(s, a, c);
    }
  }

  lemma WakeLastsOneStep(s: State, a: Action, c: nat)
    requires Inv(s) && Enabled(s, a) && Enabled(s, Thread(c, Wake)) && !ActsOf(a, c)
    ensures Enabled(Apply(s, a), Thread(c, Wake))
  {
    assert CallerOk(s.table, s.callers[c]);
    match a
    case Thread(d, step) =>
      assert CallerOk(s.table, s.callers[d]) && Apart(s.callers[d], s.callers[c]);
      OthersStepKeepsWake(s.table, s.callers[d], step, s.callers[c]);
    case Other(step) => TableStepKeepsWake(s.table, s.callers[c], step);
    case _ =>
  }

  lemma StepKeepsAsleep(s: State, a: Action, c: nat)
    requires Inv(s) && Enabled(s, a) && c in Apply(s, a).callers && !(a.Other? && a.table.Post?)
    requires c in s.callers ==> AsleepOk(s.table, s.callers[c])
    ensures AsleepOk(Apply(s, a).table, Apply(s, a).callers[c])
  {
    if c in s.callers {
      assert CallerOk(s.table, s.callers[c]);
      match a
      case Thread(d, step) =>
        assert CallerOk(s.table, s.callers[d]);
        if d == c {
          OwnStepKeepsAsleep(s.table, s.callers[c], step);
        } else {
          assert Apart(s.callers[d], s.callers[c]);
          OthersStepKeepsAsleep(s.table, s.callers[d], step, s.callers[c]);
        }
      case Other(step) => TableStepKeepsAsleep(s.table, s.callers[c], step);
      case _ =>
    }
  }

  /**
    Without removals, which post every slot they pass, a caller that can wake has been answered: the daemon
    has replied to its call_id, and the reply has been written.
   */
  lemma {:induction false} WokenByItsReply(trace: seq<State>, acts: seq<Action>, k: nat, c: nat)
    requires IsRun(trace, acts) && k < |trace| && trace[k].table.issued < ID_SPACE && c in trace[k].callers
    requires forall n :: 0 <= n < k ==> !(acts[n].Other? && acts[n].table.Post?)
    ensures AsleepOk(trace[k].table, trace[k].callers[c])
    ensures Enabled(trace[k], Thread(c, Wake)) ==>
      trace[k].callers[c].callId in trace[k].table.sent && NoReplyFor(trace[k].table, trace[k].callers[c].callId)
  {
    if k > 0 {
      IssuedGrows(trace[k - 1], acts[k - 1]);
      RunKeeps(trace, acts, k - 1);
      if c in trace[k - 1].callers { WokenByItsReply(trace, acts, k - 1, c); }
      StepKeepsAsleep(trace[k - 1], acts[k - 1], c);
    }
  }
}
