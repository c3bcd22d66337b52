/**
  Messages from the wedge to the daemon: the fragmentation loop of nl_send
  (execs/wedge/fins_stack_wedge.c) and the reassembly loop that undoes it (modules/daemon/daemon.c).
 */
module Netlink {
  import opened Prelude

  const RECV_BUFFER_SIZE: nat := 4096
  const HEADER_SIZE: nat := 12   // struct nl_wedge_to_daemon_hdr
  const PART_SIZE: nat := 4084   // RECV_BUFFER_SIZE - HEADER_SIZE
  const NLMSG_NOOP: nat := 1
  const NLMSG_ERROR: nat := 2
  const NLMSG_DONE: nat := 3
  const NLMSG_OVERRUN: nat := 4

  /** One netlink message: its sequence number and type, the header, and the bytes after the header. */
  datatype Part = Part(number: nat, kind: nat, msgLen: nat, partLen: nat, pos: nat, payload: seq<Byte>)

  // ----- sending -----

  /** The parts of m from position pos on, the first of them numbered `number`. */
  function PartsFrom(m: seq<Byte>, pos: nat, number: nat): (ps: seq<Part>)
    requires pos <= |m|
    ensures |ps| >= 1
    decreases |m| - pos
  {
    if |m| - pos > PART_SIZE then
      [Part(number, 0, |m|, PART_SIZE, pos, m[pos..pos + PART_SIZE])] + PartsFrom(m, pos + PART_SIZE, number + 1)
    else
      [Part(number, NLMSG_DONE, |m|, |m| - pos, pos, m[pos..])]
  }

  function Parts(m: seq<Byte>): seq<Part> {
    PartsFrom(m, 0, 0)
  }

  /** nl_send; `ok` says of each part whether nl_send_msg succeeds on it. */
  method NlSend(m: seq<Byte>, ok: nat -> bool) returns (rc: int, out: seq<Part>)
    requires |m| < 0x8000_0000
    ensures rc == 0 || rc == -1
    ensures rc == 0 ==> out == Parts(m) && forall n :: 0 <= n < |out| ==> ok(n)
    ensures rc == -1 ==> |out| < |Parts(m)| && out == Parts(m)[..|out|] && !ok(|out|)
  {
    var pos, number := 0, 0;
    out := [];
    while |m| - pos > PART_SIZE
      invariant pos <= |m| && number == |out|
      invariant Parts(m) == out + PartsFrom(m, pos, number)
      invariant forall n :: 0 <= n < number ==> ok(n)
      decreases |m| - pos
    {
      var part := Part(number, 0, |m|, PART_SIZE, pos, m[pos..pos + PART_SIZE]);
      if !ok(number) { return -1, out; }
      out := out + [part];
      pos := pos + PART_SIZE;
      number := number + 1;
    }
    var partLen := |m| - pos;
    if !ok(number) { return -1, out; }
    assert m[pos..pos + partLen] == m[pos..];
    out := out + [Part(number, NLMSG_DONE, |m|, partLen, pos, m[pos..pos + partLen])];
    return 0, out;
  }

  // ----- receiving -----

  /** msg_len, with -1 before the first part, and msg_buf, with None for NULL. */
  datatype Receiver = Receiver(msgLen: int, buf: Option<seq<Byte>>)

  const IDLE: Receiver := Receiver(-1, None)

  datatype Event = Nothing | Delivered(msg: seq<Byte>) | NullMessage

  function Zeros(n: nat): seq<Byte> {
    seq(n, _ => 0)
  }

  /** memcpy of `bytes` to position pos of buf */
  function Place(buf: seq<Byte>, pos: nat, bytes: seq<Byte>): (r: seq<Byte>)
    requires pos + |bytes| <= |buf|
    ensures |r| == |buf|
    ensures forall x :: 0 <= x < |buf| ==> r[x] == if pos <= x < pos + |bytes| then bytes[x - pos] else buf[x]
  {
    buf[..pos] + bytes + buf[pos + |bytes|..]
  }

  /** The types netlink itself uses, on which the loop looks no further. */
  predicate Skipped(p: Part) {
    p.kind == NLMSG_NOOP || p.kind == NLMSG_ERROR || p.kind == NLMSG_OVERRUN
  }

  /** What the loop may be given: a part carries what its header says and lies inside the message. */
  predicate WellFormed(p: Part) {
    Skipped(p) || (p.partLen == |p.payload| && p.pos + p.partLen <= p.msgLen)
  }

  predicate AllWellFormed(ps: seq<Part>) {
    forall i :: 0 <= i < |ps| ==> WellFormed(ps[i])
  }

  predicate ReceiverOk(rx: Receiver) {
    rx.buf.Some? ==> rx.msgLen == |rx.buf.value|
  }

  /** One turn of the daemon's loop on one part. */
  function Receive(rx: Receiver, p: Part): (r: (Receiver, Event))
    requires WellFormed(p) && ReceiverOk(rx)
    ensures ReceiverOk(r.0)
  {
    if Skipped(p) || (rx.msgLen != -1 && rx.msgLen != p.msgLen) then (rx, Nothing)
    else
      var buf := if p.number == 0 then Some(Zeros(p.msgLen)) else rx.buf;
      var filled := if buf.Some? then Some(Place(buf.value, p.pos, p.payload)) else None;
      if p.kind == NLMSG_DONE then (IDLE, if filled.Some? then Delivered(filled.value) else NullMessage)
      else (Receiver(p.msgLen, filled), Nothing)
  }

  /** The loop on a stream of parts: the final state and what happened at each part. */
  function ReceiveAll(rx: Receiver, ps: seq<Part>): (r: (Receiver, seq<Event>))
    requires ReceiverOk(rx) && AllWellFormed(ps)
    ensures ReceiverOk(r.0) && |r.1| == |ps|
    decreases |ps|
  {
    if ps == [] then (rx, [])
    else
      var (mid, events) := ReceiveAll(rx, ps[..|ps| - 1]);
      var (last, event) := Receive(mid, ps[|ps| - 1]);
      (last, events + [event])
  }

  /** The messages handed to daemon_out. */
  function Messages(events: seq<Event>): seq<seq<Byte>> {
    if events == [] then []
    else
      var last := events[|events| - 1];
      Messages(events[..|events| - 1]) + (if last.Delivered? then [last.msg] else [])
  }

  /** The daemon's loop with its variables, on a stream of parts. */
  method DaemonLoop(ps: seq<Part>) returns (msgLen: int, msgBuf: Option<seq<Byte>>, events: seq<Event>)
    requires AllWellFormed(ps)
    ensures (Receiver(msgLen, msgBuf), events) == ReceiveAll(IDLE, ps)
  {
    msgLen, msgBuf, events := -1, None, [];
    var doneFlag := false;
    for n := 0 to |ps|
      invariant ReceiverOk(Receiver(msgLen, msgBuf)) && |events| == n && !doneFlag
      invariant (Receiver(msgLen, msgBuf), events) == ReceiveAll(IDLE, ps[..n])
    {
      var p := ps[n];
      assert ps[..n + 1][..n] == ps[..n];
      var okFlag := true;
      var event := Nothing;
      if p.kind == NLMSG_ERROR || p.kind == NLMSG_OVERRUN {
        okFlag := false;
      } else if p.kind != NLMSG_NOOP {
        doneFlag := p.kind == NLMSG_DONE;
        if msgLen == -1 {
          msgLen := p.msgLen;
        } else if msgLen != p.msgLen {
          okFlag := false;
        }
        if okFlag {
          if p.number == 0 {
            msgBuf := Some(Zeros(msgLen));
          }
          if msgBuf.Some? {
            msgBuf := Some(Place(msgBuf.value, p.pos, p.payload));
          }
        }
      }
      if !okFlag {
        doneFlag := false;
      }
      if doneFlag {
        event := if msgBuf.Some? then Delivered(msgBuf.value) else NullMessage;
        doneFlag, msgBuf, msgLen := false, None, -1;
      }
      events := events + [event];
    }
    assert ps[..|ps|] == ps;
  }
}
