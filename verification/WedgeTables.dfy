/**
  The arrays of execs/wedge/fins_stack_wedge.c and the loops over them, proved against the functions
  the transition system uses.
 */
module WedgeTables {
  import opened Prelude
  import opened WedgeProtocol

  /** wedge_calls and call_count */
  class CallArray {
    var calls: array<Slot>
    var callCount: nat

    /** wedge_calls_init; the array is static, hence zeroed. */
    constructor ()
      ensures fresh(calls) && calls[..] == Init().table.calls && callCount == Init().table.callCount
    {
      callCount := 0;
      calls := new Slot[MAX_CALLS](_ => Slot(0, 0, 0, 0, 0, false, Body(0, 0, 0, [])));
      new;
      for i := 0 to calls.Length
        invariant fresh(calls) && calls.Length == MAX_CALLS && callCount == 0
        invariant forall k :: 0 <= k < i ==> calls[k] == EMPTY_SLOT
        invariant forall k :: i <= k < calls.Length ==> calls[k] == EMPTY_SLOT.(callId := 0)
      {
        calls[i] := calls[i].(callId := FREE_ID);
      }
      assert calls[..] == Init().table.calls;
    }

    /** wedge_calls_insert */
    method Insert(callId: nat, sockId: nat, sockIndex: nat, callType: nat) returns (index: int)
      modifies calls
      ensures match FirstFree(old(calls[..]))
        case None => index == -1 && calls[..] == old(calls[..])
        case Some(i) =>
          && index == i
          && calls[..] == old(calls[..])[i := Slot(callId, callType, sockId, sockIndex, 0, false,
                                                   old(calls[i].body).(ret := 0))]
    {
      for i := 0 to calls.Length
        invariant forall k :: 0 <= k < i ==> calls[k].callId != FREE_ID
        invariant calls[..] == old(calls[..])
      {
        if calls[i].callId == FREE_ID {
          calls[i] := calls[i].(callId := callId, callType := callType);
          calls[i] := calls[i].(sockId := sockId, sockIndex := sockIndex);
          calls[i] := calls[i].(reply := false);
          calls[i] := calls[i].(waits := 0);
          calls[i] := calls[i].(body := calls[i].body.(ret := 0));
          assert FirstFree(old(calls[..])) == Some(i);
          return i;
        }
      }
      return -1;
    }

    /** call_id = call_count++ followed by wedge_calls_insert, under wedge_calls_sem. */
    method NewCall(me: Caller, ghost b: Table) returns (callId: nat, index: int)
      requires b.calls == calls[..] && b.callCount == callCount
      modifies this`callCount, calls
      ensures calls[..] == InsertSlot(b, me).calls && callCount == InsertSlot(b, me).callCount
      ensures callId == Inserted(b, me).callId
      ensures index == if Inserted(b, me).pc.Holding? then Inserted(b, me).callIndex else -1
    {
      callId := callCount;
      callCount := (callCount + 1) % ID_SPACE;
      index := Insert(callId, me.sockId, me.sockIndex, me.callType);
    }

    predicate Matches(i: nat, sockId: nat, sockIndex: nat, callType: nat)
      requires i < calls.Length
      reads this, calls
    {
      && calls[i].callId != FREE_ID && calls[i].sockId == sockId
      && calls[i].sockIndex == sockIndex && calls[i].callType == callType
    }

    /** wedge_calls_find */
    method Find(sockId: nat, sockIndex: nat, callType: nat) returns (index: int)
      ensures index == -1 ==> forall k :: 0 <= k < calls.Length ==> !Matches(k, sockId, sockIndex, callType)
      ensures index != -1 ==>
        0 <= index < calls.Length && Matches(index, sockId, sockIndex, callType)
        && forall k :: 0 <= k < index ==> !Matches(k, sockId, sockIndex, callType)
    {
      for i := 0 to calls.Length
        invariant forall k :: 0 <= k < i ==> !Matches(k, sockId, sockIndex, callType)
      {
        if Matches(i, sockId, sockIndex, callType) { return i; }
      }
      return -1;
    }

    /** The part of nl_data_ready under wedge_calls_sem: the steps of the transition system, in order. */
    method Deliver(r: Reply, ok: bool, ghost b: Table)
      requires b.calls == calls[..] && TableEnabled(b, Begin(r)) && (!ok ==> r.body.len != 0)
      modifies calls
      ensures b.calls[r.callIndex].callId != r.callId ==> calls[..] == BeginFill(b, r).calls
      ensures b.calls[r.callIndex].callId == r.callId ==>
        calls[..] == WriteField(WriteField(WriteField(WriteField(WriteField(WriteField(
          BeginFill(b, r), Flag), Ret), Msg), Len), Buf(ok)), Finish).calls
      ensures var i, was := r.callIndex, b.calls[r.callIndex];
        calls[..] == if was.callId != r.callId then b.calls
                     else b.calls[i := was.(reply := ok, waits := was.waits + 1,
                                            body := if ok then r.body else r.body.(buf := []))]
    {
      var i := r.callIndex;
      if calls[i].callId == r.callId {
        calls[i] := calls[i].(reply := true);
        calls[i] := calls[i].(body := calls[i].body.(ret := r.body.ret));
        calls[i] := calls[i].(body := calls[i].body.(msg := r.body.msg));
        calls[i] := calls[i].(body := calls[i].body.(len := r.body.len));
        if ok {
          calls[i] := calls[i].(body := calls[i].body.(buf := r.body.buf));
        } else {
          calls[i] := calls[i].(body := calls[i].body.(buf := []), reply := false);
        }
        calls[i] := calls[i].(waits := calls[i].waits + 1);
      }
    }
  }

  /** wedge_sockets */
  class SocketArray {
    var sockets: array<Socket>

    constructor ()
      ensures fresh(sockets) && sockets[..] == Init().sockets
    {
      sockets := new Socket[MAX_SOCKETS](_ => NewSocket(0));
      new;
      for i := 0 to sockets.Length
        invariant fresh(sockets) && sockets.Length == MAX_SOCKETS
        invariant forall k :: 0 <= k < i ==> sockets[k] == NewSocket(FREE_SOCK)
        invariant forall k :: i <= k < sockets.Length ==> sockets[k] == NewSocket(0)
      {
        sockets[i] := sockets[i].(sockId := FREE_SOCK);
      }
      assert sockets[..] == Init().sockets;
    }

    /** wedge_sockets_insert */
    method Insert(sockId: nat) returns (index: int)
      requires forall k :: 0 <= k < sockets.Length ==> |sockets[k].threads| == MAX_CALL_TYPES
      modifies sockets
      ensures match FirstFreeSocket(old(sockets[..]))
        case None => index == -1 && sockets[..] == old(sockets[..])
        case Some(i) => index == i && sockets[..] == old(sockets[..])[i := NewSocket(sockId)]
    {
      for i := 0 to sockets.Length
        invariant forall k :: 0 <= k < i ==> sockets[k].sockId != FREE_SOCK
        invariant sockets[..] == old(sockets[..])
      {
        if sockets[i].sockId == FREE_SOCK {
          ghost var was := sockets[..];
          var threads := sockets[i].threads;
          for j := 0 to MAX_CALL_TYPES
            invariant |threads| == MAX_CALL_TYPES
            invariant forall u :: 0 <= u < j ==> threads[u] == 0
          {
            threads := threads[j := 0];
          }
          assert threads == NewSocket(sockId).threads;
          sockets[i] := Socket(sockId, false, threads);
          assert FirstFreeSocket(was) == Some(i);
          return i;
        }
      }
      return -1;
    }

    /** wedge_sockets_find */
    method Find(sockId: nat) returns (index: int)
      ensures index == (match FindSocket(sockets[..], sockId) case None => -1 case Some(i) => i)
    {
      for i := 0 to sockets.Length
        invariant forall k :: 0 <= k < i ==> !Live(sockets[k], sockId)
      {
        if sockets[i].sockId == sockId && !sockets[i].releasing {
          assert Live(sockets[..][i], sockId);
          return i;
        }
      }
      return -1;
    }
  }
}
