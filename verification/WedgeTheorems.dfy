/** The promises of the wedge protocol over every interleaving from module load. */
module WedgeTheorems {
  import opened Prelude
  import opened WedgeProtocol
  import opened WedgeProofs

  predicate Answers(a: Action, q: Request, body: Body) {
    a == Other(Answer(q, body))
  }

  /** Whatever `sent` records was sent by a step of the daemon. */
  lemma {:induction false} SentWasAnswered(trace: seq<State>, acts: seq<Action>, k: nat, id: nat)
    requires IsRun(trace, acts) && k < |trace| && id in trace[k].table.sent
    ensures var e := trace[k].table.sent[id];
      e.request.callId == id && exists j :: 0 <= j < k && Answers(acts[j], e.request, e.body)
  {
    var before, a := trace[k - 1].table.sent, acts[k - 1];
    if a.Other? && a.table.Answer? && a.table.q.callId == id {
      assert Answers(acts[k - 1], a.table.q, a.table.body);
    } else {
      assert trace[k].table.sent[id] == before[id];
      SentWasAnswered(trace, acts, k - 1, id);
      var j :| 0 <= j < k - 1 && Answers(acts[j], before[id].request, before[id].body);
      assert Answers(acts[j], before[id].request, before[id].body);
    }
  }

  /**
    In every interleaving, a caller that ends with an answer has the ret, msg and buf of the daemon's
    reply to the very request this caller sent, bearing its own call_id; no other caller ever has that
    call_id. The only exception is a caller that read its reply flag while the fill of its own slot was
    still at risk of showing fields of an earlier call.
   */
  lemma CallerSeesItsOwnReply(trace: seq<State>, acts: seq<Action>, k: nat, c: nat)
    requires IsRun(trace, acts) && k < |trace| && trace[k].table.issued < ID_SPACE
    requires c in trace[k].callers && trace[k].callers[c].pc.Done?
    ensures var me := trace[k].callers[c];
      && (me.pc.outcome.Answered? && !me.raced ==>
            exists j :: 0 <= j < k && Answers(acts[j], RequestOf(me), me.pc.outcome.body))
      && (forall d :: d in trace[k].callers && d != c && !trace[k].callers[d].pc.Registered? ==>
            trace[k].callers[d].callId != me.callId)
  {
    var s := trace[k];
    var me := s.callers[c];
    RunKeeps(trace, acts, k);
    assert CallerOk(s.table, me);
    if me.pc.outcome.Answered? && !me.raced {
      SentWasAnswered(trace, acts, k, me.callId);
      var j :| 0 <= j < k && Answers(acts[j], RequestOf(me), me.pc.outcome.body);
      assert Answers(acts[j], RequestOf(me), me.pc.outcome.body);
    }
    forall d | d in s.callers && d != c && !s.callers[d].pc.Registered?
      ensures s.callers[d].callId != me.callId
    {
      assert Apart(me, s.callers[d]);
    }
  }

  /**
    When nl_data_ready finds the call_id it looked for, the slot belongs at that moment to the caller
    that sent the request, and that caller has not seen a reply yet. When the caller has given the slot
    back, whether or not someone else holds it now, the reply changes no slot.
   */
  lemma ReplyReachesOnlyItsCaller(trace: seq<State>, acts: seq<Action>, k: nat, r: Reply)
    requires IsRun(trace, acts) && k < |trace| && trace[k].table.issued < ID_SPACE
    requires r in trace[k].table.net
    ensures r.callIndex < MAX_CALLS
    ensures var s := trace[k];
      s.table.fill.Unlocked? ==>
        && Enabled(s, Other(Begin(r)))
        && var t := Apply(s, Other(Begin(r)));
        && t.table.calls == s.table.calls
        && (t.table.fill.Filling? ==>
              && !s.table.calls[r.callIndex].reply
              && r.callId in s.table.sent
              && exists c :: Holds(s.callers, c, r.callIndex) && s.callers[c].callId == r.callId
                             && RequestOf(s.callers[c]) == s.table.sent[r.callId].request)
        && (t.table.fill.Filling? <==> exists c :: Holds(s.callers, c, r.callIndex) && s.callers[c].callId == r.callId)
  {
    var s := trace[k];
    RunKeeps(trace, acts, k);
    if s.table.fill.Unlocked? {
      if s.table.calls[r.callIndex].callId == r.callId {
        assert r.callId < s.table.issued;
        var c :| Holds(s.callers, c, r.callIndex);
        assert CallerOk(s.table, s.callers[c]);
      } else {
        forall c | Holds(s.callers, c, r.callIndex) ensures s.callers[c].callId != r.callId {
          assert CallerOk(s.table, s.callers[c]);
        }
      }
    }
  }

  // ----- slots -----

  /** The callers that hold a slot, with the slot each holds. */
  ghost function Holders(callers: map<nat, Caller>): map<nat, nat> {
    map c | c in callers && HoldsSlot(callers[c].pc) :: callers[c].callIndex
  }

  predicate Maps(m: map<nat, nat>, c: nat, i: nat) {
    c in m && m[c] == i
  }

  ghost predicate Hit(m: map<nat, nat>, i: nat) {
    exists c :: Maps(m, c, i)
  }

  lemma {:induction false} OneKeyPerValue(m: map<nat, nat>, n: nat)
    requires forall c, d :: c in m && d in m && c != d ==> m[c] != m[d]
    requires forall c :: c in m ==> m[c] < n
    requires forall i :: 0 <= i < n ==> Hit(m, i)
    ensures |m| == n
  {
    if n == 0 {
      assert forall c :: c !in m;
      assert m == map[];
    } else {
      assert Hit(m, n - 1);
      var c :| Maps(m, c, n - 1);
      var rest := m - {c};
      forall i | 0 <= i < n - 1 ensures Hit(rest, i) {
        assert Hit(m, i);
        var d :| Maps(m, d, i);
        assert Maps(rest, d, i);
      }
      OneKeyPerValue(rest, n - 1);
      assert m.Keys == rest.Keys + {c};
    }
  }

  /** The slot says which call it is for. */
  predicate Describes(slot: Slot, me: Caller) {
    && slot.callId == me.callId && slot.callType == me.callType
    && slot.sockId == me.sockId && slot.sockIndex == me.sockIndex
  }

  /**
    In every interleaving each occupied slot has exactly one caller in flight behind it, says which call and
    socket that is for, and carries a call_id no other slot carries, and an insertion fails exactly when
    MAX_CALLS callers hold slots.
   */
  lemma SlotsAreExclusive(trace: seq<State>, acts: seq<Action>, k: nat)
    requires IsRun(trace, acts) && k < |trace| && trace[k].table.issued < ID_SPACE
    ensures var s := trace[k]; var calls := s.table.calls;
      && (forall i :: 0 <= i < |calls| && calls[i].callId != FREE_ID ==>
            exists c :: Holds(s.callers, c, i) && Describes(calls[i], s.callers[c])
                        && forall d :: Holds(s.callers, d, i) ==> d == c)
      && (forall i, j :: 0 <= i < j < |calls| && calls[i].callId != FREE_ID ==> calls[i].callId != calls[j].callId)
      && (FirstFree(calls).None? <==> |Holders(s.callers)| == MAX_CALLS)
  {
    var s := trace[k];
    var calls := s.table.calls;
    RunKeeps(trace, acts, k);
    forall i | 0 <= i < |calls| && calls[i].callId != FREE_ID
      ensures exists c :: Holds(s.callers, c, i) && Describes(calls[i], s.callers[c])
                          && forall d :: Holds(s.callers, d, i) ==> d == c
    {
      var c :| Holds(s.callers, c, i);
      assert CallerOk(s.table, s.callers[c]);
      assert forall d :: Holds(s.callers, d, i) ==> d == c;
    }
    forall i, j | 0 <= i < j < |calls| && calls[i].callId != FREE_ID
      ensures calls[i].callId != calls[j].callId
    {
      if calls[j].callId != FREE_ID {
        var c :| Holds(s.callers, c, i);
        var d :| Holds(s.callers, d, j);
        assert CallerOk(s.table, s.callers[c]) && CallerOk(s.table, s.callers[d]) && Apart(s.callers[c], s.callers[d]);
      }
    }
    HoldersCount(s);
  }

  lemma HoldersCount(s: State)
    requires Inv(s)
    ensures FirstFree(s.table.calls).None? <==> |Holders(s.callers)| == MAX_CALLS
  {
    var m, calls := Holders(s.callers), s.table.calls;
    forall c, d | c in m && d in m && c != d ensures m[c] != m[d] { assert Apart(s.callers[c], s.callers[d]); }
    forall c | c in m ensures m[c] < MAX_CALLS && calls[m[c]].callId != FREE_ID { assert CallerOk(s.table, s.callers[c]); }
    match FirstFree(calls)
    case None =>
      forall i | 0 <= i < MAX_CALLS ensures Hit(m, i) {
        assert calls[i].callId != FREE_ID;
        var c :| Holds(s.callers, c, i);
        assert Maps(m, c, i);
      }
      OneKeyPerValue(m, MAX_CALLS);
    case Some(free) =>
      FewerThan(m, MAX_CALLS, free);
  }

  /** An injective map into the numbers below n that misses one of them has fewer than n keys. */
  lemma {:induction false} FewerThan(m: map<nat, nat>, n: nat, missing: nat)
    requires forall c, d :: c in m && d in m && c != d ==> m[c] != m[d]
    requires forall c :: c in m ==> m[c] < n && m[c] != missing
    requires missing < n
    ensures |m| < n
  {
    var top := n - 1;
    if c :| c in m && m[c] == top {
      var rest := m - {c};
      FewerThan(rest, top, missing);
      assert m.Keys == rest.Keys + {c};
    } else if missing == top {
      AtMost(m, top);
    } else {
      FewerThan(m, top, missing);
    }
  }

  lemma {:induction false} AtMost(m: map<nat, nat>, n: nat)
    requires forall c, d :: c in m && d in m && c != d ==> m[c] != m[d]
    requires forall c :: c in m ==> m[c] < n
    ensures |m| <= n
  {
    if n == 0 {
      assert forall c :: c !in m;
      assert m == map[];
    } else if c :| c in m && m[c] == n - 1 {
      var rest := m - {c};
      AtMost(rest, n - 1);
      assert m.Keys == rest.Keys + {c};
    } else {
      AtMost(m, n - 1);
    }
  }
}
