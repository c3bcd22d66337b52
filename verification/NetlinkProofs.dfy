/** Fragmentation tiles a message, and reassembly undoes it. */
module NetlinkProofs {
  import opened Prelude
  import opened Netlink

  // ----- the parts tile the message -----

  lemma {:induction false} PartsFromIndex(m: seq<Byte>, pos: nat, number: nat, i: nat)
    requires pos <= |m| && i < |PartsFrom(m, pos, number)|
    ensures var ps := PartsFrom(m, pos, number); var n := |ps|; var p := ps[i];
      && (n - 1) * PART_SIZE <= |m| - pos <= n * PART_SIZE && (n > 1 ==> (n - 1) * PART_SIZE < |m| - pos)
      && p.number == number + i && p.msgLen == |m| && p.pos == pos + i * PART_SIZE
      && p.kind == (if i == n - 1 then NLMSG_DONE else 0)
      && p.partLen == (if i == n - 1 then |m| - p.pos else PART_SIZE)
      && p.pos + p.partLen <= |m| && p.payload == m[p.pos..p.pos + p.partLen]
    decreases |m| - pos
  {
    if |m| - pos > PART_SIZE {
      PartsFromIndex(m, pos + PART_SIZE, number + 1, if i == 0 then 0 else i - 1);
    }
  }

  predicate Covers(p: Part, x: nat) {
    p.pos <= x < p.pos + p.partLen
  }

  /**
    The parts of nl_send: numbered from 0, each within the receive buffer, consecutive from 0 to the
    length of the message without gap or overlap, carrying the message's bytes, and only the last
    marked NLMSG_DONE.
   */
  lemma PartsTile(m: seq<Byte>)
    ensures var ps := Parts(m);
      && (forall i :: 0 <= i < |ps| ==>
            && ps[i].number == i && !Skipped(ps[i]) && WellFormed(ps[i]) && HEADER_SIZE + ps[i].partLen <= RECV_BUFFER_SIZE
            && ps[i].msgLen == |m| && ps[i].payload == m[ps[i].pos..ps[i].pos + ps[i].partLen]
            && (ps[i].kind == NLMSG_DONE <==> i == |ps| - 1)
            && ps[i].pos == i * PART_SIZE
            && ps[i].pos + ps[i].partLen == if i + 1 < |ps| then (i + 1) * PART_SIZE else |m|)
      && (forall x :: 0 <= x < |m| ==> x / PART_SIZE < |ps| && Covers(ps[x / PART_SIZE], x))
      && (forall x, i :: 0 <= x < |m| && 0 <= i < |ps| && Covers(ps[i], x) ==> i == x / PART_SIZE)
  {
    var ps := Parts(m);
    forall i | 0 <= i < |ps|
      ensures ps[i].number == i && !Skipped(ps[i]) && WellFormed(ps[i]) && HEADER_SIZE + ps[i].partLen <= RECV_BUFFER_SIZE
      ensures ps[i].msgLen == |m| && ps[i].payload == m[ps[i].pos..ps[i].pos + ps[i].partLen]
      ensures (ps[i].kind == NLMSG_DONE <==> i == |ps| - 1) && ps[i].pos == i * PART_SIZE
      ensures ps[i].pos + ps[i].partLen == if i + 1 < |ps| then (i + 1) * PART_SIZE else |m|
    {
      PartsFromIndex(m, 0, 0, i);
    }
    forall x | 0 <= x < |m| ensures x / PART_SIZE < |ps| && Covers(ps[x / PART_SIZE], x) {
      PartsFromIndex(m, 0, 0, 0);
    }
  }

  // ----- placing the parts, in any order -----

  ghost predicate InRange(order: seq<nat>, n: int) {
    forall k :: 0 <= k < |order| ==> order[k] < n
  }

  ghost function Arrivals(m: seq<Byte>, order: seq<nat>): seq<Part>
    requires InRange(order, |Parts(m)|)
  {
    seq(|order|, k requires 0 <= k < |order| => Parts(m)[order[k]])
  }

  lemma ArrivalsWellFormed(m: seq<Byte>, order: seq<nat>)
    requires InRange(order, |Parts(m)|)
    ensures AllWellFormed(Arrivals(m, order))
  {
    PartsTile(m);
  }

  /** Placing part i leaves the message's bytes where the part lies and the old bytes elsewhere. */
  lemma PlacePart(buf: seq<Byte>, m: seq<Byte>, i: nat)
    requires |buf| == |m| && i < |Parts(m)|
    ensures var p := Parts(m)[i];
      && p.pos + |p.payload| <= |buf|
      && forall x :: 0 <= x < |m| ==> Place(buf, p.pos, p.payload)[x] == if x / PART_SIZE == i then m[x] else buf[x]
  {
    PartsTile(m);
    var p := Parts(m)[i];
    var r := Place(buf, p.pos, p.payload);
    forall x | 0 <= x < |m| ensures r[x] == if x / PART_SIZE == i then m[x] else buf[x] {
      assert Covers(Parts(m)[x / PART_SIZE], x);
      if Covers(p, x) { assert x / PART_SIZE == i; }
    }
  }

  /** The parts that arrive are copied to their positions, one after the other. */
  ghost function PlaceAll(buf: seq<Byte>, m: seq<Byte>, order: seq<nat>): (r: seq<Byte>)
    requires |buf| == |m| && InRange(order, |Parts(m)|)
    ensures |r| == |m|
  {
    if order == [] then buf
    else
      var n := |order| - 1;
      PlacePart(PlaceAll(buf, m, order[..n]), m, order[n]);
      var p := Parts(m)[order[n]];
      Place(PlaceAll(buf, m, order[..n]), p.pos, p.payload)
  }

  lemma {:induction false} PlacedBytes(buf: seq<Byte>, m: seq<Byte>, order: seq<nat>, x: nat)
    requires |buf| == |m| && InRange(order, |Parts(m)|) && x < |m|
    ensures PlaceAll(buf, m, order)[x] == if x / PART_SIZE in order then m[x] else buf[x]
  {
    if order != [] {
      var n := |order| - 1;
      PlacedBytes(buf, m, order[..n], x);
      PlacePart(PlaceAll(buf, m, order[..n]), m, order[n]);
      assert order == order[..n] + [order[n]];
    }
  }

  /** In whatever order and however often the parts arrive, once all have, the message is there. */
  lemma AnyOrderRebuilds(buf: seq<Byte>, m: seq<Byte>, order: seq<nat>)
    requires |buf| == |m| && InRange(order, |Parts(m)|) && forall i :: 0 <= i < |Parts(m)| ==> i in order
    ensures PlaceAll(buf, m, order) == m
  {
    PartsTile(m);
    forall x | 0 <= x < |m| ensures PlaceAll(buf, m, order)[x] == m[x] {
      PlacedBytes(buf, m, order, x);
    }
  }

  // ----- the daemon's loop, which starts afresh at every part 0 and delivers at the last part -----

  predicate Ready(rx: Receiver, m: seq<Byte>) {
    ReceiverOk(rx) && (rx.msgLen == -1 || rx.msgLen == |m|)
  }

  /** Part i arrives, and part 0 does not arrive later. */
  ghost predicate Survives(order: seq<nat>, i: nat) {
    exists k :: 0 <= k < |order| && order[k] == i && forall j :: k < j < |order| ==> order[j] != 0
  }

  lemma SurvivesAppend(order: seq<nat>, last: nat, i: nat)
    ensures Survives(order + [last], i) <==> i == last || (last != 0 && Survives(order, i))
  {
    var all, n := order + [last], |order|;
    if i == last { assert all[n] == i; }
    if last != 0 && Survives(order, i) {
      var k :| 0 <= k < n && order[k] == i && forall j :: k < j < n ==> order[j] != 0;
      assert all[k] == i;
    }
    if i != last && Survives(all, i) {
      var k :| 0 <= k <= n && all[k] == i && forall j :: k < j <= n ==> all[j] != 0;
      assert order[k] == i && all[n] != 0;
      assert forall j :: k < j < n ==> order[j] == all[j];
    }
  }

  /** The buffer shows the parts that survive and is zero elsewhere. */
  ghost predicate Shows(buf: Option<seq<Byte>>, m: seq<Byte>, order: seq<nat>) {
    && buf.Some? && |buf.value| == |m|
    && forall x :: 0 <= x < |m| ==> buf.value[x] == if Survives(order, x / PART_SIZE) then m[x] else 0
  }

  /** What is true of the receiver between the parts of a message. */
  ghost predicate Midway(rx: Receiver, start: Receiver, m: seq<Byte>, order: seq<nat>) {
    && Ready(rx, m)
    && (order != [] ==> rx.msgLen == |m|)
    && (0 in order ==> Shows(rx.buf, m, order))
    && (0 !in order && start.buf.None? ==> rx.buf.None?)
  }

  /** One more part other than the last. */
  lemma OneArrival(rx: Receiver, start: Receiver, m: seq<Byte>, order: seq<nat>, i: nat)
    requires Midway(rx, start, m, order) && i < |Parts(m)| - 1
    ensures WellFormed(Parts(m)[i])
    ensures var (next, event) := Receive(rx, Parts(m)[i]); event == Nothing && Midway(next, start, m, order + [i])
  {
    PartsFromIndex(m, 0, 0, i);
    var p, now := Parts(m)[i], order + [i];
    assert now[|order|] == i;
    if i == 0 {
      PlacePart(Zeros(|m|), m, 0);
      forall x | 0 <= x < |m| ensures Survives(now, x / PART_SIZE) <==> x / PART_SIZE == 0 {
        SurvivesAppend(order, 0, x / PART_SIZE);
      }
    } else if rx.buf.Some? {
      PlacePart(rx.buf.value, m, i);
      forall x | 0 <= x < |m|
        ensures Survives(now, x / PART_SIZE) <==> x / PART_SIZE == i || Survives(order, x / PART_SIZE)
      {
        SurvivesAppend(order, i, x / PART_SIZE);
      }
    }
  }

  lemma {:induction false} MidStream(rx: Receiver, m: seq<Byte>, order: seq<nat>)
    requires Ready(rx, m) && InRange(order, |Parts(m)| - 1)
    ensures AllWellFormed(Arrivals(m, order))
    ensures var r := ReceiveAll(rx, Arrivals(m, order)); Messages(r.1) == [] && Midway(r.0, rx, m, order)
    decreases |order|
  {
    ArrivalsWellFormed(m, order);
    if order != [] {
      var n := |order| - 1;
      MidStream(rx, m, order[..n]);
      assert Arrivals(m, order) == Arrivals(m, order[..n]) + [Parts(m)[order[n]]];
      OneArrival(ReceiveAll(rx, Arrivals(m, order[..n])).0, rx, m, order[..n], order[n]);
      assert order[..n] + [order[n]] == order;
      ReceiveLast(rx, Arrivals(m, order[..n]), Parts(m)[order[n]]);
    }
  }

  /** The message with zeros for the parts that did not survive; the last part always does. */
  ghost function Rebuilt(m: seq<Byte>, order: seq<nat>): (r: seq<Byte>)
    ensures |r| == |m|
  {
    var last := |Parts(m)| - 1;
    seq(|m|, x requires 0 <= x < |m| => if x / PART_SIZE == last || Survives(order, x / PART_SIZE) then m[x] else 0)
  }

  /** The last part, after the others in `order`. */
  lemma LastArrival(rx: Receiver, start: Receiver, m: seq<Byte>, order: seq<nat>)
    requires Midway(rx, start, m, order)
    ensures var last := |Parts(m)| - 1; var p := Parts(m)[last];
      && WellFormed(p) && Receive(rx, p).0 == IDLE
      && (last == 0 || 0 in order ==> Receive(rx, p).1 == Delivered(Rebuilt(m, order)))
      && (last != 0 && 0 !in order && start.buf.None? ==> Receive(rx, p).1 == NullMessage)
  {
    PartsTile(m);
    var last := |Parts(m)| - 1;
    PartsFromIndex(m, 0, 0, last);
    var p := Parts(m)[last];
    if last == 0 {
      PlacePart(Zeros(|m|), m, 0);
      assert Place(Zeros(|m|), p.pos, p.payload) == Rebuilt(m, order);
    } else if 0 in order {
      PlacePart(rx.buf.value, m, last);
      assert Place(rx.buf.value, p.pos, p.payload) == Rebuilt(m, order);
    }
  }

  /**
    What the daemon makes of the parts of one message, the last part arriving last and once, the others
    in any order, any number of times or not at all: it delivers the message with zeros for the parts
    that did not arrive after the last arrival of part 0, and nothing if part 0 did not arrive.
   */
  lemma ArrivalOutcome(rx: Receiver, m: seq<Byte>, order: seq<nat>)
    requires Ready(rx, m) && InRange(order, |Parts(m)| - 1)
    ensures var last := |Parts(m)| - 1; var all := order + [last];
      && InRange(all, |Parts(m)|) && AllWellFormed(Arrivals(m, all))
      && var r := ReceiveAll(rx, Arrivals(m, all));
      && r.0 == IDLE
      && (last == 0 || 0 in order ==> Messages(r.1) == [Rebuilt(m, order)])
      && (last != 0 && 0 !in order && rx.buf.None? ==> Messages(r.1) == [])
  {
    var last := |Parts(m)| - 1;
    var all := order + [last];
    ArrivalsWellFormed(m, all);
    MidStream(rx, m, order);
    assert Arrivals(m, all) == Arrivals(m, order) + [Parts(m)[last]];
    LastArrival(ReceiveAll(rx, Arrivals(m, order)).0, rx, m, order);
    ReceiveLast(rx, Arrivals(m, order), Parts(m)[last]);
  }

  lemma ReceiveLast(rx: Receiver, ps: seq<Part>, p: Part)
    requires ReceiverOk(rx) && AllWellFormed(ps) && WellFormed(p)
    ensures AllWellFormed(ps + [p])
    ensures var before, r := ReceiveAll(rx, ps), ReceiveAll(rx, ps + [p]); var (next, event) := Receive(before.0, p);
      r.0 == next && Messages(r.1) == Messages(before.1) + if event.Delivered? then [event.msg] else []
  {
    assert (ps + [p])[..|ps|] == ps;
    var events, event := ReceiveAll(rx, ps).1, Receive(ReceiveAll(rx, ps).0, p).1;
    assert (events + [event])[..|events|] == events;
  }

  /** Every part before the last arrives, and not only before an arrival of part 0. */
  ghost predicate Complete(order: seq<nat>, n: nat) {
    forall i :: 0 <= i < n - 1 ==> Survives(order, i)
  }

  lemma CompleteRebuilds(m: seq<Byte>, order: seq<nat>)
    requires Complete(order, |Parts(m)|)
    ensures Rebuilt(m, order) == m && (|Parts(m)| == 1 || 0 in order)
  {
    PartsTile(m);
    if |Parts(m)| > 1 { assert Survives(order, 0); }
    forall x | 0 <= x < |m| ensures Rebuilt(m, order)[x] == m[x] {
      assert x / PART_SIZE < |Parts(m)|;
    }
  }

  /** The daemon, idle, makes exactly this message of its parts in this order. */
  ghost predicate Delivers(m: seq<Byte>, order: seq<nat>) {
    && InRange(order, |Parts(m)|) && AllWellFormed(Arrivals(m, order))
    && ReceiveAll(IDLE, Arrivals(m, order)).0 == IDLE && Messages(ReceiveAll(IDLE, Arrivals(m, order)).1) == [m]
  }

  /** A message of n full parts without a zero byte. */
  lemma FullMessage(n: nat) returns (m: seq<Byte>)
    requires n >= 1
    ensures |Parts(m)| == n && |m| == n * PART_SIZE && forall x :: 0 <= x < |m| ==> m[x] == 1
  {
    m := seq(n * PART_SIZE, _ => 1);
    PartsFromIndex(m, 0, 0, 0);
  }

  lemma IncompleteFails(order: seq<nat>, n: nat, i: nat) returns (m: seq<Byte>)
    requires InRange(order, n - 1) && i < n - 1 && !Survives(order, i)
    ensures |Parts(m)| == n && !Delivers(m, order + [n - 1])
  {
    m := FullMessage(n);
    ArrivalOutcome(IDLE, m, order);
    if 0 in order {
      var x := i * PART_SIZE;
      assert x < |m| && x / PART_SIZE == i;
      assert Rebuilt(m, order)[x] == 0 && m[x] == 1;
    }
  }

  /**
    For orders that end with their only occurrence of the last part: the daemon delivers every message
    of n parts exactly when each part before the last arrives after the last arrival of part 0.
   */
  lemma OrderDeliversIff(order: seq<nat>, n: nat)
    requires n >= 1 && InRange(order, n - 1)
    ensures (forall m :: |Parts(m)| == n ==> Delivers(m, order + [n - 1])) <==> Complete(order, n)
  {
    if Complete(order, n) {
      forall m | |Parts(m)| == n ensures Delivers(m, order + [n - 1]) {
        ArrivalOutcome(IDLE, m, order);
        CompleteRebuilds(m, order);
      }
    } else {
      var i :| 0 <= i < n - 1 && !Survives(order, i);
      var m := IncompleteFails(order, n, i);
    }
  }

  /** Part 1 before part 0: the daemon delivers the message with zeros in place of part 1. */
  lemma EarlyPartIsLost(m: seq<Byte>)
    requires |Parts(m)| == 3
    ensures InRange([1, 0, 2], 3) && AllWellFormed(Arrivals(m, [1, 0, 2]))
    ensures var r := ReceiveAll(IDLE, Arrivals(m, [1, 0, 2]));
      && |Messages(r.1)| == 1 && |Messages(r.1)[0]| == |m|
      && forall x :: 0 <= x < |m| ==> Messages(r.1)[0][x] == if x / PART_SIZE == 1 then 0 else m[x]
  {
    ArrivalOutcome(IDLE, m, [1, 0]);
    PartsTile(m);
    assert [1, 0] + [2] == [1, 0, 2] && [1] + [0] == [1, 0];
    forall x | 0 <= x < |m| ensures Rebuilt(m, [1, 0])[x] == if x / PART_SIZE == 1 then 0 else m[x] {
      SurvivesAppend([1], 0, x / PART_SIZE);
    }
  }

  // ----- streams of messages -----

  /** The order in which nl_send sends the parts before the last. */
  lemma InOrderIsComplete(m: seq<Byte>)
    ensures var n := |Parts(m)|; var order := seq(n - 1, i => i);
      && InRange(order, n - 1) && Complete(order, n)
      && InRange(order + [n - 1], n) && Arrivals(m, order + [n - 1]) == Parts(m)
  {
    var n := |Parts(m)|;
    var order := seq(n - 1, i => i);
    forall i | 0 <= i < n - 1 ensures Survives(order, i) { assert order[i] == i; }
    assert Arrivals(m, order + [n - 1]) == Parts(m);
  }

  lemma OneMessage(rx: Receiver, m: seq<Byte>)
    requires Ready(rx, m)
    ensures AllWellFormed(Parts(m))
    ensures var r := ReceiveAll(rx, Parts(m)); r.0 == IDLE && Messages(r.1) == [m]
  {
    InOrderIsComplete(m);
    var order := seq(|Parts(m)| - 1, i => i);
    ArrivalOutcome(rx, m, order);
    CompleteRebuilds(m, order);
  }

  lemma {:induction false} ReceiveConcat(rx: Receiver, a: seq<Part>, b: seq<Part>)
    requires ReceiverOk(rx) && AllWellFormed(a) && AllWellFormed(b)
    ensures var r := ReceiveAll(rx, a); var q := ReceiveAll(r.0, b);
      && ReceiveAll(rx, a + b).0 == q.0
      && ReceiveAll(rx, a + b).1 == r.1 + q.1
    decreases |b|
  {
    if b == [] {
      assert a + b == a;
    } else {
      var n := |b| - 1;
      ReceiveConcat(rx, a, b[..n]);
      assert (a + b)[..|a + b| - 1] == a + b[..n];
    }
  }

  lemma {:induction false} MessagesConcat(a: seq<Event>, b: seq<Event>)
    ensures Messages(a + b) == Messages(a) + Messages(b)
  {
    if b == [] {
      assert a + b == a;
    } else {
      var n := |b| - 1;
      MessagesConcat(a, b[..n]);
      assert (a + b)[..|a + b| - 1] == a + b[..n];
    }
  }

  /** What the wedge puts on the socket for a list of messages sent one after the other. */
  function Stream(ms: seq<seq<Byte>>): (ps: seq<Part>)
    ensures AllWellFormed(ps)
  {
    if ms == [] then []
    else
      PartsTile(ms[|ms| - 1]);
      Stream(ms[..|ms| - 1]) + Parts(ms[|ms| - 1])
  }

  /** From its idle state the daemon hands on exactly these messages for these parts, and is idle again. */
  ghost predicate Receives(ps: seq<Part>, ms: seq<seq<Byte>>) {
    AllWellFormed(ps) && ReceiveAll(IDLE, ps).0 == IDLE && Messages(ReceiveAll(IDLE, ps).1) == ms
  }

  lemma ReceivesConcat(ps: seq<Part>, ms: seq<seq<Byte>>, qs: seq<Part>, ns: seq<seq<Byte>>)
    requires Receives(ps, ms) && Receives(qs, ns)
    ensures Receives(ps + qs, ms + ns)
  {
    ReceiveConcat(IDLE, ps, qs);
    MessagesConcat(ReceiveAll(IDLE, ps).1, ReceiveAll(IDLE, qs).1);
  }

  lemma ReceivesOne(m: seq<Byte>)
    ensures Receives(Parts(m), [m])
  {
    OneMessage(IDLE, m);
  }

  lemma FrontAndLast<X>(xs: seq<X>)
    requires xs != []
    ensures xs[..|xs| - 1] + [xs[|xs| - 1]] == xs
  {
  }

  /** The daemon hands on exactly the messages the wedge sent, in order, and ends ready for the next. */
  lemma {:induction false} DaemonReceivesWhatWedgeSent(ms: seq<seq<Byte>>)
    ensures Receives(Stream(ms), ms)
  {
    if ms != [] {
      var n := |ms| - 1;
      DaemonReceivesWhatWedgeSent(ms[..n]);
      ReceivesOne(ms[n]);
      ReceivesConcat(Stream(ms[..n]), ms[..n], Parts(ms[n]), [ms[n]]);
      FrontAndLast(ms);
    }
  }

  /** Types 1, 2 and 4 are NLMSG_NOOP, NLMSG_ERROR and NLMSG_OVERRUN. */
  predicate OwnOfNetlink(p: Part) {
    p.kind == 1 || p.kind == 2 || p.kind == 4
  }

  lemma NoiseAtEnd(rx: Receiver, a: seq<Part>, p: Part)
    requires ReceiverOk(rx) && AllWellFormed(a) && OwnOfNetlink(p)
    ensures AllWellFormed(a + [p])
    ensures ReceiveAll(rx, a + [p]).0 == ReceiveAll(rx, a).0
    ensures Messages(ReceiveAll(rx, a + [p]).1) == Messages(ReceiveAll(rx, a).1)
  {
    ReceiveLast(rx, a, p);
  }

  /** Netlink's own messages, whatever they hold and wherever they come, change nothing of what is handed on. */
  lemma NoiseIsIgnored(rx: Receiver, a: seq<Part>, p: Part, b: seq<Part>)
    requires ReceiverOk(rx) && AllWellFormed(a) && AllWellFormed(b) && OwnOfNetlink(p)
    ensures AllWellFormed(a + [p] + b)
    ensures ReceiveAll(rx, a + [p] + b).0 == ReceiveAll(rx, a + b).0
    ensures Messages(ReceiveAll(rx, a + [p] + b).1) == Messages(ReceiveAll(rx, a + b).1)
  {
    var mid, events := ReceiveAll(rx, a).0, ReceiveAll(rx, a).1;
    var rest := ReceiveAll(mid, b).1;
    NoiseAtEnd(rx, a, p);
    ReceiveConcat(rx, a + [p], b);
    ReceiveConcat(rx, a, b);
    MessagesConcat(events, rest);
    MessagesConcat(ReceiveAll(rx, a + [p]).1, rest);
  }

  // ----- after a send that broke off -----

  lemma {:induction false} OtherLengthIgnored(rx: Receiver, m: seq<Byte>, k: nat)
    requires ReceiverOk(rx) && rx.msgLen != -1 && rx.msgLen != |m| && k <= |Parts(m)|
    requires AllWellFormed(Parts(m))
    ensures var r := ReceiveAll(rx, Parts(m)[..k]); r.0 == rx && Messages(r.1) == []
    decreases k
  {
    if k > 0 {
      OtherLengthIgnored(rx, m, k - 1);
      PartsTile(m);
      var ps := Parts(m)[..k];
      assert ps[..k - 1] == Parts(m)[..k - 1];
      var before, r := ReceiveAll(rx, ps[..k - 1]), ReceiveAll(rx, ps);
      assert r.1 == before.1 + [Nothing] && r.1[..|r.1| - 1] == before.1;
    }
  }

  /**
    nl_send broke off after k parts of m, leaving the daemon in mid-message. The next message gets
    through exactly when it is as long as m; any other is ignored part by part and the daemon stays stuck.
   */
  lemma AfterBrokenSend(m: seq<Byte>, k: nat, next: seq<Byte>)
    requires 1 <= k < |Parts(m)|
    ensures AllWellFormed(Parts(m))
    ensures AllWellFormed(Parts(next))
    ensures var rx := ReceiveAll(IDLE, Parts(m)[..k]).0; var r := ReceiveAll(rx, Parts(next));
      if |next| == |m| then r.0 == IDLE && Messages(r.1) == [next]
      else r.0 == rx && Messages(r.1) == []
  {
    PartsTile(m);
    PartsTile(next);
    var order := seq(k, i => i);
    MidStream(IDLE, m, order);
    assert order[0] == 0;
    assert Arrivals(m, order) == Parts(m)[..k];
    var rx := ReceiveAll(IDLE, Parts(m)[..k]).0;
    if |next| == |m| {
      OneMessage(rx, next);
    } else {
      OtherLengthIgnored(rx, next, |Parts(next)|);
      assert Parts(next)[..|Parts(next)|] == Parts(next);
    }
  }

  /** A message of two parts is broken off after the first; the next message, a short one, never arrives. */
  lemma ShortMessageIsLost(m: seq<Byte>, next: seq<Byte>)
    requires |Parts(m)| == 2 && |next| <= PART_SIZE
    ensures AllWellFormed(Parts(m)) && AllWellFormed(Parts(next)) && |Parts(next)| == 1
    ensures var rx := ReceiveAll(IDLE, Parts(m)[..1]).0; var r := ReceiveAll(rx, Parts(next));
      rx != IDLE && r.0 == rx && Messages(r.1) == []
  {
    PartsFromIndex(m, 0, 0, 0);
    AfterBrokenSend(m, 1, next);
    MidStream(IDLE, m, [0]);
    assert Arrivals(m, [0]) == Parts(m)[..1];
  }
}
