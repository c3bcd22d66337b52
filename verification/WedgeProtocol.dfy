/**
  The call/reply protocol of execs/wedge/fins_stack_wedge.c as a transition system.

  Application threads (callers) register on a socket, take a slot of `wedge_calls`, send a request to
  the daemon, sleep on the slot's semaphore, read the answer out of the slot and give the slot back.
  `nl_data_ready` writes answers into slots. Blocks under `wedge_sockets_sem` are one action. The fill
  of a slot runs under `wedge_calls_sem`, but callers read and free slots without it, so the fill and
  the read are split into one action per field; the semaphore only excludes other fills and inserts.

  `issued`, `sent` and `raced` are histories: no action reads them.
 */
module WedgeProtocol {
  import opened Prelude

  const MAX_CALLS: nat := 100
  const MAX_SOCKETS: nat := 100
  const MAX_CALL_TYPES: nat := 22
  const SOCKET_CALL: nat := 1
  const RELEASE_CALL: nat := 12
  const ACK: nat := 200
  const NACK: nat := 6666
  const ID_SPACE: nat := 0x1_0000_0000
  const FREE_ID: nat := 0xFFFF_FFFF              // (__u32) -1
  const FREE_SOCK: nat := 0xFFFF_FFFF_FFFF_FFFF  // (__u64) -1

  /** What a reply carries besides its addressing; [] stands for a NULL buf. */
  datatype Body = Body(ret: nat, msg: nat, len: nat, buf: seq<nat>)

  /** struct fins_wedge_call */
  datatype Slot = Slot(callId: nat, callType: nat, sockId: nat, sockIndex: nat, waits: nat, reply: bool, body: Body)

  /** struct fins_wedge_socket */
  datatype Socket = Socket(sockId: nat, releasing: bool, threads: seq<int>)

  datatype Request = Request(callType: nat, callId: nat, callIndex: nat)
  datatype Reply = Reply(callType: nat, callId: nat, callIndex: nat, body: Body)

  /** A request together with the answer the daemon gave it. */
  datatype Exchange = Exchange(request: Request, body: Body)

  datatype Outcome = NoSlot | NotSent | NoReply | Answered(body: Body)

  datatype Pc =
    | Registered                          // counted on the socket, about to insert
    | Holding                             // slot taken, building and sending the request
    | Waiting                             // request sent, in down_interruptible on wait_sem
    | Awake                               // woken by the semaphore or by a signal
    | SawReply                            // reply flag read as set
    | SawRet(ret: nat)
    | SawLen(ret: nat, len: nat)
    | SawBuf(ret: nat, len: nat, buf: seq<nat>)
    | Finished(outcome: Outcome)          // answer read, slot not yet given back
    | Leaving(outcome: Outcome)           // holds no slot, still counted on the socket
    | Done(outcome: Outcome)

  datatype Caller = Caller(sockId: nat, sockIndex: nat, callType: nat, callId: nat, callIndex: nat, pc: Pc, raced: bool)

  /** The state of the fill in nl_data_ready; `stage` counts the fields written so far. */
  datatype Fill = Unlocked | Filling(reply: Reply, stage: nat)

  /** The call table, the lock on it, and the messages between wedge and daemon. */
  datatype Table = Table(
    calls: seq<Slot>, callCount: nat, requests: set<Request>, net: set<Reply>, fill: Fill,
    issued: nat, sent: map<nat, Exchange>)

  datatype State = State(table: Table, sockets: seq<Socket>, callers: map<nat, Caller>)

  /** What a caller does to the call table between registering on its socket and leaving it. */
  datatype CallStep =
    | Insert                          // call_count++ and wedge_calls_insert
    | Abandon                         // request not built or not sent: slot given back
    | Send                            // nl_send succeeded
    | Wake                            // wait_sem acquired
    | Signal                          // down_interruptible interrupted
    | ReadFlag
    | ReadRet
    | ReadLen
    | ReadBuf
    | ReadMsg
    | GiveBack                        // call_id = -1 after the read

  /** The writes of nl_data_ready under wedge_calls_sem, in order. */
  datatype FillStep =
    | Flag
    | Ret
    | Msg
    | Len
    | Buf(ok: bool)                   // not ok: kmalloc failed and the flag is taken back
    | Finish                          // up(wait_sem), unlock

  datatype TableStep =
    | Post(i: nat)                    // any removal: up(wait_sem) on slot i, whoever holds it now
    | Answer(q: Request, body: Body)  // the daemon answers a request once
    | Begin(r: Reply)                 // nl_data_ready locks and compares call_id
    | Write(field: FillStep)

  datatype Action =
    | Open(c: nat, sockId: nat)                  // fins_create: socket inserted, creator counted
    | Enter(c: nat, sockId: nat, callType: nat)  // socket found, caller counted
    | Leave(c: nat)                              // threads[type]--, or wedge_sockets_remove
    | Purge(i: nat)                              // wedge_socket_remove_all frees entry i
    | Thread(c: nat, call: CallStep)
    | Other(table: TableStep)

  const EMPTY_SLOT: Slot := Slot(FREE_ID, 0, 0, 0, 0, false, Body(0, 0, 0, []))

  /** An entry as wedge_sockets_insert leaves it. */
  function NewSocket(sockId: nat): Socket {
    Socket(sockId, false, seq(MAX_CALL_TYPES, _ => 0))
  }

  /** wedge_calls_init and wedge_sockets_init */
  function Init(): State {
    State(Table(seq(MAX_CALLS, _ => EMPTY_SLOT), 0, {}, {}, Unlocked, 0, map[]),
          seq(MAX_SOCKETS, _ => NewSocket(FREE_SOCK)), map[])
  }

  /** The slot wedge_calls_insert chooses. */
  function FirstFree(calls: seq<Slot>): (r: Option<nat>)
    ensures r.Some? ==> r.value < |calls| && calls[r.value].callId == FREE_ID
                        && forall k :: 0 <= k < r.value ==> calls[k].callId != FREE_ID
    ensures r.None? ==> forall k :: 0 <= k < |calls| ==> calls[k].callId != FREE_ID
  {
    if calls == [] then None
    else if calls[0].callId == FREE_ID then Some(0)
    else
      var r := FirstFree(calls[1..]);
      assert forall k :: 1 <= k < |calls| ==> calls[k] == calls[1..][k - 1];
      if r.Some? then Some(r.value + 1) else None
  }

  /** The entry wedge_sockets_insert chooses. */
  function FirstFreeSocket(sockets: seq<Socket>): (r: Option<nat>)
    ensures r.Some? ==> r.value < |sockets| && sockets[r.value].sockId == FREE_SOCK
                        && forall k :: 0 <= k < r.value ==> sockets[k].sockId != FREE_SOCK
    ensures r.None? ==> forall k :: 0 <= k < |sockets| ==> sockets[k].sockId != FREE_SOCK
  {
    if sockets == [] then None
    else if sockets[0].sockId == FREE_SOCK then Some(0)
    else
      var r := FirstFreeSocket(sockets[1..]);
      assert forall k :: 1 <= k < |sockets| ==> sockets[k] == sockets[1..][k - 1];
      if r.Some? then Some(r.value + 1) else None
  }

  predicate Live(sock: Socket, sockId: nat) {
    sock.sockId == sockId && !sock.releasing
  }

  /** The entry wedge_sockets_find returns. */
  function FindSocket(sockets: seq<Socket>, sockId: nat): (r: Option<nat>)
    ensures r.Some? ==> r.value < |sockets| && Live(sockets[r.value], sockId)
                        && forall k :: 0 <= k < r.value ==> !Live(sockets[k], sockId)
    ensures r.None? ==> forall k :: 0 <= k < |sockets| ==> !Live(sockets[k], sockId)
  {
    if sockets == [] then None
    else if Live(sockets[0], sockId) then Some(0)
    else
      var r := FindSocket(sockets[1..], sockId);
      assert forall k :: 1 <= k < |sockets| ==> sockets[k] == sockets[1..][k - 1];
      if r.Some? then Some(r.value + 1) else None
  }

  /** Between wedge_calls_insert and the assignment call_id = -1. */
  predicate HoldsSlot(p: Pc) {
    !p.Registered? && !p.Leaving? && !p.Done?
  }

  /** The conversion from __u32 to __s32. */
  function ToS32(n: int): int {
    var m := n % ID_SPACE;
    if m < ID_SPACE / 2 then m else m - ID_SPACE
  }

  const ENOMEM: int := 12
  const EINTR: int := 4

  /** The return value of the calls that end in checkConfirmation; -ENOMEM and -1 are both used when nothing was sent. */
  function ReturnCode(o: Outcome): int {
    match o
    case NoSlot => -ENOMEM
    case NotSent => -1
    case NoReply => -EINTR
    case Answered(b) =>
      if b.ret == ACK then (if b.len == 0 then ToS32(b.msg) else -1)
      else if b.ret == NACK then ToS32(-(b.msg as int))
      else -1
  }

  /** Release always, and create when it fails, end by removing the socket instead of lowering the count. */
  predicate EndsByRemoval(c: Caller) {
    c.pc.Leaving? && (c.callType == RELEASE_CALL || (c.callType == SOCKET_CALL && ReturnCode(c.pc.outcome) != 0))
  }

  predicate Enabled(s: State, a: Action) {
    match a
    case Open(c, id) => c !in s.callers && id < FREE_SOCK && FirstFreeSocket(s.sockets).Some?
    case Enter(c, id, t) =>
      c !in s.callers && id < FREE_SOCK && SOCKET_CALL < t < MAX_CALL_TYPES && FindSocket(s.sockets, id).Some?
    case Leave(c) => c in s.callers && s.callers[c].pc.Leaving?
    case Purge(i) => i < |s.sockets|
    case Thread(c, step) => c in s.callers && CallEnabled(s.table, s.callers[c], step)
    case Other(step) => TableEnabled(s.table, step)
  }

  predicate CallEnabled(b: Table, me: Caller, step: CallStep) {
    match step
    case Insert => me.pc.Registered? && b.fill.Unlocked?
    case Abandon => me.pc.Holding?
    case Send => me.pc.Holding?
    case Wake => me.pc.Waiting? && SlotAt(b, me.callIndex).waits > 0
    case Signal => me.pc.Waiting?
    case ReadFlag => me.pc.Awake?
    case ReadRet => me.pc.SawReply?
    case ReadLen => me.pc.SawRet?
    case ReadBuf => me.pc.SawLen?
    case ReadMsg => me.pc.SawBuf?
    case GiveBack => me.pc.Finished?
  }

  predicate TableEnabled(b: Table, step: TableStep) {
    match step
    case Post(i) => i < |b.calls|
    case Answer(q, body) => q in b.requests && body.len == |body.buf|
    case Begin(r) => r in b.net && b.fill.Unlocked? && r.callIndex < |b.calls|
    case Write(f) => b.fill.Filling? && b.fill.stage == Stage(f) && (f == Buf(false) ==> b.fill.reply.body.len != 0)
  }

  /** How many fields have been written when this write comes. */
  function Stage(f: FillStep): nat {
    match f
    case Flag => 0
    case Ret => 1
    case Msg => 2
    case Len => 3
    case Buf(_) => 4
    case Finish => 5
  }

  // ----- effects on the call table -----

  function SetSlot(b: Table, i: nat, slot: Slot): Table {
    if i < |b.calls| then b.(calls := b.calls[i := slot]) else b
  }

  function SlotAt(b: Table, i: nat): Slot {
    if i < |b.calls| then b.calls[i] else EMPTY_SLOT
  }

  function FreeSlot(b: Table, i: nat): Table {
    SetSlot(b, i, SlotAt(b, i).(callId := FREE_ID))
  }

  /** wedge_calls_insert leaves msg, buf and len of the previous call in the slot. */
  function InsertSlot(b: Table, me: Caller): Table {
    var t := b.(callCount := (b.callCount + 1) % ID_SPACE, issued := b.issued + 1);
    match FirstFree(b.calls)
    case None => t
    case Some(i) =>
      SetSlot(t, i, Slot(b.callCount, me.callType, me.sockId, me.sockIndex, 0, false, b.calls[i].body.(ret := 0)))
  }

  function Inserted(b: Table, me: Caller): Caller {
    match FirstFree(b.calls)
    case None => me.(callId := b.callCount, pc := Leaving(NoSlot))
    case Some(i) => me.(callId := b.callCount, callIndex := i, pc := Holding)
  }

  /** The request a caller sends once it holds a slot. */
  function RequestOf(me: Caller): Request {
    Request(me.callType, me.callId, me.callIndex)
  }

  /** The fill of this caller's slot has begun and has not yet written every field. */
  predicate MidFill(b: Table, me: Caller) {
    b.fill.Filling? && b.fill.reply.callIndex == me.callIndex && b.fill.stage < 5
  }

  /** In the middle of a fill, and the fields still to be written (or withdrawn by kmalloc failing) matter. */
  predicate AtRisk(b: Table, me: Caller) {
    MidFill(b, me) && (SlotAt(b, me.callIndex).body != b.fill.reply.body || b.fill.reply.body.len != 0)
  }

  function CallTable(b: Table, me: Caller, step: CallStep): Table
    requires CallEnabled(b, me, step)
  {
    var slot := SlotAt(b, me.callIndex);
    match step
    case Insert => InsertSlot(b, me)
    case Abandon => FreeSlot(b, me.callIndex)
    case Send => b.(requests := b.requests + {RequestOf(me)})
    case Wake => SetSlot(b, me.callIndex, slot.(waits := slot.waits - 1))
    case GiveBack => FreeSlot(b, me.callIndex)
    case _ => b
  }

  function CallNext(b: Table, me: Caller, step: CallStep): Caller
    requires CallEnabled(b, me, step)
  {
    var slot := SlotAt(b, me.callIndex);
    match step
    case Insert => Inserted(b, me)
    case Abandon => me.(pc := Leaving(NotSent))
    case Send => me.(pc := Waiting)
    case Wake => me.(pc := Awake)
    case Signal => me.(pc := Awake)
    case ReadFlag =>
      if slot.reply then me.(pc := SawReply, raced := AtRisk(b, me)) else me.(pc := Finished(NoReply))
    case ReadRet => me.(pc := SawRet(slot.body.ret))
    case ReadLen => me.(pc := SawLen(me.pc.ret, slot.body.len))
    case ReadBuf => me.(pc := SawBuf(me.pc.ret, me.pc.len, slot.body.buf))
    case ReadMsg => me.(pc := Finished(Answered(Body(me.pc.ret, slot.body.msg, me.pc.len, me.pc.buf))))
    case GiveBack => me.(pc := Leaving(me.pc.outcome))
  }

  function BeginFill(b: Table, r: Reply): Table
    requires TableEnabled(b, Begin(r))
  {
    var t := b.(net := b.net - {r});
    if b.calls[r.callIndex].callId == r.callId then t.(fill := Filling(r, 0)) else t
  }

  /** The slot after one more field of the reply body has been written. */
  function FillSlot(slot: Slot, body: Body, f: FillStep): Slot {
    match f
    case Flag => slot.(reply := true)
    case Ret => slot.(body := slot.body.(ret := body.ret))
    case Msg => slot.(body := slot.body.(msg := body.msg))
    case Len => slot.(body := slot.body.(len := body.len))
    case Buf(ok) =>
      if ok then slot.(body := slot.body.(buf := body.buf))
      else slot.(body := slot.body.(buf := []), reply := false)
    case Finish => slot.(waits := slot.waits + 1)
  }

  function WriteField(b: Table, f: FillStep): Table
    requires TableEnabled(b, Write(f))
  {
    var r := b.fill.reply;
    var t := b.(fill := if f.Finish? then Unlocked else Filling(r, b.fill.stage + 1));
    SetSlot(t, r.callIndex, FillSlot(SlotAt(b, r.callIndex), r.body, f))
  }

  function TableNext(b: Table, step: TableStep): Table
    requires TableEnabled(b, step)
  {
    match step
    case Post(i) => SetSlot(b, i, b.calls[i].(waits := b.calls[i].waits + 1))
    case Answer(q, body) =>
      b.(requests := b.requests - {q}, net := b.net + {Reply(q.callType, q.callId, q.callIndex, body)},
         sent := b.sent[q.callId := Exchange(q, body)])
    case Begin(r) => BeginFill(b, r)
    case Write(f) => WriteField(b, f)
  }

  // ----- effects on the sockets -----

  function Count(sockets: seq<Socket>, i: nat, t: nat, delta: int): seq<Socket> {
    if i < |sockets| && t < |sockets[i].threads| then
      var threads := sockets[i].threads;
      sockets[i := sockets[i].(threads := threads[t := threads[t] + delta])]
    else sockets
  }

  function FreeSocket(sockets: seq<Socket>, i: nat): seq<Socket> {
    if i < |sockets| then sockets[i := sockets[i].(sockId := FREE_SOCK)] else sockets
  }

  function ApplyOpen(s: State, c: nat, id: nat): State
    requires Enabled(s, Open(c, id))
  {
    var i := FirstFreeSocket(s.sockets).value;
    s.(sockets := Count(s.sockets[i := NewSocket(id)], i, SOCKET_CALL, 1),
       callers := s.callers[c := Caller(id, i, SOCKET_CALL, 0, 0, Registered, false)])
  }

  function ApplyEnter(s: State, c: nat, id: nat, t: nat): State
    requires Enabled(s, Enter(c, id, t))
  {
    var i := FindSocket(s.sockets, id).value;
    var marked := if t == RELEASE_CALL then s.sockets[i := s.sockets[i].(releasing := true)] else s.sockets;
    s.(sockets := Count(marked, i, t, 1), callers := s.callers[c := Caller(id, i, t, 0, 0, Registered, false)])
  }

  function ApplyLeave(s: State, c: nat): State
    requires c in s.callers && s.callers[c].pc.Leaving?
  {
    var me := s.callers[c];
    s.(sockets := if EndsByRemoval(me) then FreeSocket(s.sockets, me.sockIndex)
                  else Count(s.sockets, me.sockIndex, me.callType, -1),
       callers := s.callers[c := me.(pc := Done(me.pc.outcome))])
  }

  function ApplyCall(s: State, c: nat, step: CallStep): State
    requires Enabled(s, Thread(c, step))
  {
    s.(table := CallTable(s.table, s.callers[c], step),
       callers := s.callers[c := CallNext(s.table, s.callers[c], step)])
  }

  function Apply(s: State, a: Action): State
    requires Enabled(s, a)
  {
    match a
    case Open(c, id) => ApplyOpen(s, c, id)
    case Enter(c, id, t) => ApplyEnter(s, c, id, t)
    case Leave(c) => ApplyLeave(s, c)
    case Purge(i) => s.(sockets := FreeSocket(s.sockets, i))
    case Thread(c, step) => ApplyCall(s, c, step)
    case Other(step) => s.(table := TableNext(s.table, step))
  }

  ghost predicate IsRun(trace: seq<State>, acts: seq<Action>) {
    && |trace| == |acts| + 1
    && trace[0] == Init()
    && forall k :: 0 <= k < |acts| ==> Enabled(trace[k], acts[k]) && trace[k + 1] == Apply(trace[k], acts[k])
  }
}
