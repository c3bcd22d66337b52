/**
  The interface list of libs/pcap/inet.c: add_or_find_if keeps it ordered, and pcap_lookupdev relies
  on the order.
 */
module Interfaces {
  import opened Prelude

  const INT_MAX: int := 0x7FFF_FFFF

  predicate IsDigit(c: char) {
    '0' <= c <= '9'
  }

  function DigitOf(c: char): nat
    requires IsDigit(c)
  {
    c as int - '0' as int
  }

  /** atoi on a string: the value of the digits it starts with */
  function Atoi(s: string): nat {
    AtoiFrom(s, 0)
  }

  function AtoiFrom(s: string, acc: nat): nat {
    if s == [] || !IsDigit(s[0]) then acc
    else AtoiFrom(s[1..], 10 * acc + DigitOf(s[0]))
  }

  /** The name from its first digit on. */
  function FromFirstDigit(name: string): string {
    if name == [] || IsDigit(name[0]) then name else FromFirstDigit(name[1..])
  }

  /** get_instance: "any" comes last, other names by the number in them, 0 if there is none */
  function Instance(name: string): int {
    if name == "any" then INT_MAX else Atoi(FromFirstDigit(name))
  }

  method GetInstance(name: string) returns (n: int)
    ensures n == Instance(name)
  {
    if name == "any" { return INT_MAX; }
    var cp := 0;
    while cp < |name| && !IsDigit(name[cp])
      invariant 0 <= cp <= |name| && FromFirstDigit(name[cp..]) == FromFirstDigit(name)
    {
      cp := cp + 1;
    }
    if cp < |name| && IsDigit(name[cp]) {
      n := Atoi(name[cp..]);
    } else {
      n := 0;
    }
  }

  // ----- what the number is -----

  /** The number a string of digits denotes, from its last digit. */
  function Value(digits: string): nat
    requires forall i :: 0 <= i < |digits| ==> IsDigit(digits[i])
  {
    if digits == [] then 0
    else 10 * Value(digits[..|digits| - 1]) + DigitOf(digits[|digits| - 1])
  }

  lemma {:induction false} AtoiFromValue(before: string, digits: string, rest: string)
    requires forall i :: 0 <= i < |before| ==> IsDigit(before[i])
    requires forall i :: 0 <= i < |digits| ==> IsDigit(digits[i])
    requires rest == [] || !IsDigit(rest[0])
    ensures AtoiFrom(digits + rest, Value(before)) == Value(before + digits)
    decreases |digits|
  {
    if digits == [] {
      assert digits + rest == rest && before + digits == before;
    } else {
      var now := before + [digits[0]];
      assert now[..|now| - 1] == before;
      assert (digits + rest)[1..] == digits[1..] + rest;
      AtoiFromValue(now, digits[1..], rest);
      assert now + digits[1..] == before + digits;
    }
  }

  lemma {:induction false} DigitsFound(prefix: string, rest: string)
    requires forall i :: 0 <= i < |prefix| ==> !IsDigit(prefix[i])
    requires rest == [] || IsDigit(rest[0])
    ensures FromFirstDigit(prefix + rest) == rest
  {
    if prefix == [] {
      assert prefix + rest == rest;
    } else {
      DigitsFound(prefix[1..], rest);
      assert (prefix + rest)[1..] == prefix[1..] + rest;
    }
  }

  /** A name is letters, then digits, then anything: its number is what the digits denote, 0 without digits. */
  lemma InstanceIsNumber(prefix: string, digits: string, rest: string)
    requires forall i :: 0 <= i < |prefix| ==> !IsDigit(prefix[i])
    requires forall i :: 0 <= i < |digits| ==> IsDigit(digits[i])
    requires rest == [] || (digits != [] && !IsDigit(rest[0]))
    ensures Instance(prefix + digits + rest) == if prefix + digits + rest == "any" then 0x7FFF_FFFF else Value(digits)
  {
    DigitsFound(prefix, digits + rest);
    assert prefix + digits + rest == prefix + (digits + rest);
    AtoiFromValue([], digits, rest);
    assert [] + digits == digits;
  }

  /** The decimal notation of n. */
  function Decimal(n: nat): (ds: string)
    ensures ds != [] && forall i :: 0 <= i < |ds| ==> IsDigit(ds[i])
  {
    (if n < 10 then [] else Decimal(n / 10)) + [(n % 10 + '0' as int) as char]
  }

  lemma {:induction false} ValueOfDecimal(n: nat)
    ensures Value(Decimal(n)) == n
  {
    var ds := Decimal(n);
    if n >= 10 {
      ValueOfDecimal(n / 10);
      assert ds[..|ds| - 1] == Decimal(n / 10);
    }
  }

  /** What of pcap_if_t matters for the order. */
  datatype Dev = Dev(name: string, loopback: bool)

  /** The order of the list: non-loopback first, then by instance number. */
  predicate Before(a: Dev, b: Dev) {
    if a.loopback != b.loopback then b.loopback else Instance(a.name) <= Instance(b.name)
  }

  ghost predicate Ordered(devs: seq<Dev>) {
    forall i, j :: 0 <= i < j < |devs| ==> Before(devs[i], devs[j])
  }

  /** The two tests at which the search for the place stops. */
  predicate StopsAt(d: Dev, next: Dev) {
    || (!d.loopback && next.loopback)
    || (Instance(d.name) < Instance(next.name) && (!d.loopback || next.loopback))
  }

  /** Where the search stops. */
  function Place(d: Dev, devs: seq<Dev>): (k: nat)
    ensures k <= |devs| && (k < |devs| ==> StopsAt(d, devs[k])) && forall j :: 0 <= j < k ==> !StopsAt(d, devs[j])
  {
    if devs == [] || StopsAt(d, devs[0]) then 0
    else
      var k := 1 + Place(d, devs[1..]);
      assert forall j :: 1 <= j < |devs| ==> devs[j] == devs[1..][j - 1];
      k
  }

  function Names(devs: seq<Dev>): set<string> {
    set d | d in devs :: d.name
  }

  /** add_or_find_if on a device that can be opened or not */
  function Added(devs: seq<Dev>, d: Dev, canOpen: bool): seq<Dev> {
    if d.name in Names(devs) || !canOpen then devs
    else var k := Place(d, devs); devs[..k] + [d] + devs[k..]
  }

  /** pcap_if_t as a list node */
  class IfNode {
    const dev: Dev
    var next: IfNode?

    constructor (dev: Dev)
      ensures this.dev == dev && next == null
    {
      this.dev, next := dev, null;
    }
  }

  ghost function DevsOf(nodes: seq<IfNode>): (ds: seq<Dev>)
    ensures |ds| == |nodes| && forall i :: 0 <= i < |ds| ==> ds[i] == nodes[i].dev
  {
    seq(|nodes|, i requires 0 <= i < |nodes| => nodes[i].dev)
  }

  lemma DevsInsert(nodes: seq<IfNode>, cur: IfNode, k: nat)
    requires k <= |nodes|
    ensures DevsOf(nodes[..k] + [cur] + nodes[k..]) == DevsOf(nodes)[..k] + [cur.dev] + DevsOf(nodes)[k..]
  {
  }

  /** The list behind alldevs. */
  class IfList {
    var head: IfNode?
    ghost var nodes: seq<IfNode>

    ghost predicate Valid()
      reads this, nodes
    {
      && head == (if nodes == [] then null else nodes[0])
      && (forall i {:trigger nodes[i].next} :: 0 <= i < |nodes| ==>
            nodes[i].next == if i + 1 < |nodes| then nodes[i + 1] else null)
      && (forall i, j :: 0 <= i < j < |nodes| ==> nodes[i] != nodes[j])
    }

    ghost function Devs(): seq<Dev>
      reads this
    {
      DevsOf(nodes)
    }

    constructor ()
      ensures Valid() && nodes == []
    {
      head, nodes := null, [];
    }

    /** The search for an entry of this name. */
    method Contains(name: string) returns (found: bool)
      requires Valid()
      ensures found <==> name in Names(Devs())
    {
      var cur := head;
      ghost var i := 0;
      while cur != null
        invariant 0 <= i <= |nodes| && cur == (if i < |nodes| then nodes[i] else null)
        invariant forall k :: 0 <= k < i ==> Devs()[k].name != name
        decreases |nodes| - i
      {
        if cur.dev.name == name {
          assert Devs()[i] in Devs();
          return true;
        }
        cur := cur.next;
        i := i + 1;
      }
      return false;
    }

    /** The walk with prevdev and nextdev. */
    method FindPlace(d: Dev) returns (prev: IfNode?, next: IfNode?, ghost k: nat)
      requires Valid()
      ensures k == Place(d, Devs())
      ensures prev == (if k == 0 then null else nodes[k - 1]) && next == (if k < |nodes| then nodes[k] else null)
    {
      prev, next, k := null, head, 0;
      var mine := GetInstance(d.name);
      while next != null
        invariant 0 <= k <= |nodes| && prev == (if k == 0 then null else nodes[k - 1])
        invariant next == (if k < |nodes| then nodes[k] else null)
        invariant forall j :: 0 <= j < k ==> !StopsAt(d, Devs()[j])
        decreases |nodes| - k
      {
        if !d.loopback && next.dev.loopback { break; }
        var theirs := GetInstance(next.dev.name);
        if mine < theirs && (!d.loopback || next.dev.loopback) { break; }
        prev := next;
        next := next.next;
        k := k + 1;
      }
    }

    /** The new entry goes between prevdev and nextdev. */
    method InsertAt(prev: IfNode?, next: IfNode?, cur: IfNode, ghost k: nat)
      requires Valid() && k <= |nodes| && cur !in nodes
      requires prev == (if k == 0 then null else nodes[k - 1]) && next == (if k < |nodes| then nodes[k] else null)
      modifies this, nodes, cur
      ensures Valid() && nodes == old(nodes)[..k] + [cur] + old(nodes)[k..]
    {
      ghost var was := nodes;
      cur.next := next;
      if prev == null {
        head := cur;
      } else {
        prev.next := cur;
      }
      nodes := was[..k] + [cur] + was[k..];
      assert forall j {:trigger nodes[j]} :: 0 <= j < |nodes| ==>
          nodes[j] == if j < k then was[j] else if j == k then cur else was[j - 1];
    }

    /** add_or_find_if */
    method AddOrFind(d: Dev, canOpen: bool)
      requires Valid()
      modifies this, nodes
      ensures Valid() && Devs() == Added(old(Devs()), d, canOpen)
      ensures var was := old(Devs());
        if canOpen && forall i :: !NameAt(was, i, d.name) then exists k :: OneMore(was, Devs(), d, k) else Devs() == was
      ensures forall i :: 0 <= i < |nodes| ==> nodes[i] in old(nodes) || fresh(nodes[i])
    {
      var found := Contains(d.name);
      ghost var was := Devs();
      NameListed(was, d.name);
      if found || !canOpen { return; }
      ghost var k, cur := AddNew(d);
      assert OneMore(was, Devs(), d, k);
    }

    /** The part of add_or_find_if that makes a new entry. */
    method AddNew(d: Dev) returns (ghost k: nat, ghost cur: IfNode)
      requires Valid()
      modifies this, nodes
      ensures Valid() && k == Place(d, old(Devs())) && fresh(cur) && nodes == old(nodes)[..k] + [cur] + old(nodes)[k..]
      ensures Devs() == old(Devs())[..k] + [d] + old(Devs())[k..]
    {
      var prev, next;
      prev, next, k := FindPlace(d);
      var entry := new IfNode(d);
      DevsInsert(nodes, entry, k);
      InsertAt(prev, next, entry, k);
      cur := entry;
    }

    /** add_or_find_if on one device after the other */
    method AddEach(more: seq<(Dev, bool)>)
      requires Valid() && nodes == []
      modifies this
      ensures Valid() && Devs() == AddAll([], more) && fresh(nodes)
    {
      for i := 0 to |more|
        invariant Valid() && Devs() == AddAll([], more[..i]) && fresh(nodes)
      {
        assert more[..i + 1][..i] == more[..i];
        AddOrFind(more[i].0, more[i].1);
      }
      assert more[..|more|] == more;
    }

    /** The choice pcap_lookupdev makes. */
    method LookupDev() returns (name: Option<string>)
      requires Valid()
      ensures name == if nodes == [] || Devs()[0].loopback then None else Some(Devs()[0].name)
    {
      if head == null || head.dev.loopback { return None; }
      return Some(head.dev.name);
    }
  }

  // ----- what the order is for -----

  lemma AddedKeepsOrder(devs: seq<Dev>, d: Dev, canOpen: bool)
    requires Ordered(devs)
    ensures Ordered(Added(devs, d, canOpen))
  {
    var k := Place(d, devs);
    var r := devs[..k] + [d] + devs[k..];
    forall i, j | 0 <= i < j < |r| ensures Before(r[i], r[j]) {
      assert i < k ==> r[i] == devs[i];
      assert i > k ==> r[i] == devs[i - 1];
      assert j < k ==> r[j] == devs[j];
      assert j > k ==> r[j] == devs[j - 1];
      if j == k {
        PassedIsBefore(devs, d, k, i);
      } else if i == k {
        assert j - 1 == k || Before(devs[k], devs[j - 1]);
      }
    }
  }

  /** Whatever the search passed belongs before the new device. */
  lemma {:induction false} PassedIsBefore(devs: seq<Dev>, d: Dev, k: nat, i: nat)
    requires Ordered(devs) && i < k <= |devs| && forall j :: 0 <= j < k ==> !StopsAt(d, devs[j])
    ensures Before(devs[i], d)
  {
  }

  function AddAll(devs: seq<Dev>, more: seq<(Dev, bool)>): seq<Dev> {
    if more == [] then devs
    else
      var n := |more| - 1;
      Added(AddAll(devs, more[..n]), more[n].0, more[n].1)
  }

  /**
    After any sequence of additions to an empty list, pcap_lookupdev fails exactly when no non-loopback
    device is listed, and otherwise names a non-loopback device of least instance number.
   */
  lemma {:induction false} LookupFindsLeast(more: seq<(Dev, bool)>)
    ensures var devs := AddAll([], more);
      && Ordered(devs)
      && ((devs == [] || devs[0].loopback) <==> forall i :: 0 <= i < |devs| ==> devs[i].loopback)
      && (devs != [] && !devs[0].loopback ==>
            forall i :: 0 <= i < |devs| && !devs[i].loopback ==> Instance(devs[0].name) <= Instance(devs[i].name))
  {
    if more != [] {
      var n := |more| - 1;
      LookupFindsLeast(more[..n]);
      AddedKeepsOrder(AddAll([], more[..n]), more[n].0, more[n].1);
    }
    var devs := AddAll([], more);
    assert forall i :: 1 <= i < |devs| ==> Before(devs[0], devs[i]);
  }

  // ----- what gets into the list -----

  /** The k-th addition is the first of a device of its name that can be opened. */
  predicate Enters(more: seq<(Dev, bool)>, k: int) {
    0 <= k < |more| && more[k].1 && forall j :: 0 <= j < k && more[j].0.name == more[k].0.name ==> !more[j].1
  }

  lemma NameListed(devs: seq<Dev>, name: string)
    ensures name in Names(devs) <==> exists i :: NameAt(devs, i, name)
  {
    if i :| NameAt(devs, i, name) { assert devs[i] in devs; }
    if name in Names(devs) {
      var d :| d in devs && d.name == name;
      var i :| 0 <= i < |devs| && devs[i] == d;
      assert NameAt(devs, i, name);
    }
  }

  lemma EntersEarlier(more: seq<(Dev, bool)>, n: int, k: int)
    requires 0 <= k < n <= |more|
    ensures Enters(more[..n], k) <==> Enters(more, k)
  {
    assert forall j :: 0 <= j <= k ==> more[..n][j] == more[j];
  }

  lemma InAdded(devs: seq<Dev>, d: Dev, canOpen: bool, e: Dev)
    ensures e in Added(devs, d, canOpen) <==> e in devs || (e == d && canOpen && d.name !in Names(devs))
  {
    var k := Place(d, devs);
    assert devs == devs[..k] + devs[k..];
  }

  /** An openable device of this name was added if and only if one of them was the first. */
  lemma {:induction false} FirstOfItsName(more: seq<(Dev, bool)>, k: int) returns (first: int)
    requires 0 <= k < |more| && more[k].1
    ensures first <= k && Enters(more, first) && more[first].0.name == more[k].0.name
  {
    if j :| 0 <= j < k && more[j].0.name == more[k].0.name && more[j].1 {
      first := FirstOfItsName(more, j);
    } else {
      first := k;
    }
  }

  /** A device is listed if and only if it is the first one of its name that was added and can be opened. */
  lemma {:induction false} ListedIff(more: seq<(Dev, bool)>, d: Dev)
    ensures d in AddAll([], more) <==> exists k :: Enters(more, k) && more[k].0 == d
    decreases |more|, 1
  {
    if more != [] {
      var n := |more| - 1;
      var devs, last := AddAll([], more[..n]), more[n].0;
      ListedIff(more[..n], d);
      InAdded(devs, last, more[n].1, d);
      LastEntersIff(more);
      if d in devs {
        var k :| Enters(more[..n], k) && more[..n][k].0 == d;
        EntersEarlier(more, n, k);
      }
      if k :| Enters(more, k) && more[k].0 == d {
        if k < n { EntersEarlier(more, n, k); assert more[..n][k].0 == d; }
      }
    }
  }

  lemma {:induction false} LastEntersIff(more: seq<(Dev, bool)>)
    requires more != []
    ensures var n := |more| - 1; Enters(more, n) <==> more[n].1 && more[n].0.name !in Names(AddAll([], more[..n]))
    decreases |more|, 0
  {
    var n := |more| - 1;
    var devs, name := AddAll([], more[..n]), more[n].0.name;
    NameListed(devs, name);
    if name in Names(devs) {
      var i :| NameAt(devs, i, name);
      ListedIff(more[..n], devs[i]);
      var k :| Enters(more[..n], k) && more[..n][k].0 == devs[i];
      assert more[k].1 && more[k].0.name == name;
    } else if j :| 0 <= j < n && more[j].0.name == name && more[j].1 {
      assert more[..n][j] == more[j];
      var first := FirstOfItsName(more[..n], j);
      ListedIff(more[..n], more[..n][first].0);
    }
  }

  /** A name is listed if and only if a device of that name was added that can be opened. */
  lemma NameListedIff(more: seq<(Dev, bool)>, name: string)
    ensures (exists i :: NameAt(AddAll([], more), i, name)) <==>
            (exists k :: 0 <= k < |more| && more[k].0.name == name && more[k].1)
  {
    var devs := AddAll([], more);
    if i :| NameAt(devs, i, name) {
      ListedIff(more, devs[i]);
      var k :| Enters(more, k) && more[k].0 == devs[i];
      assert more[k].0.name == name && more[k].1;
    }
    if k :| 0 <= k < |more| && more[k].0.name == name && more[k].1 {
      var first := FirstOfItsName(more, k);
      ListedIff(more, more[first].0);
      var i :| 0 <= i < |devs| && devs[i] == more[first].0;
      assert NameAt(devs, i, name);
    }
  }

  /** The device has been put in at position k, the others staying in order. */
  ghost predicate OneMore(was: seq<Dev>, now: seq<Dev>, d: Dev, k: int) {
    0 <= k <= |was| && now == was[..k] + [d] + was[k..]
  }

  ghost predicate NameAt(devs: seq<Dev>, i: int, name: string) {
    0 <= i < |devs| && devs[i].name == name
  }

  /** No name is listed twice. */
  lemma {:induction false} NamesOnce(more: seq<(Dev, bool)>, name: string, i: int, j: int)
    requires NameAt(AddAll([], more), i, name) && NameAt(AddAll([], more), j, name)
    ensures i == j
  {
    var n := |more| - 1;
    var before, d := AddAll([], more[..n]), more[n].0;
    if d.name !in Names(before) && more[n].1 {
      AddedAt(before, d);
      var k := Place(d, before);
      assert forall m :: 0 <= m < |before| ==> before[m].name in Names(before);
      var x, y := if i < k then i else i - 1, if j < k then j else j - 1;
      assert AddAll([], more)[i] == AtAfterAdd(before, d, i) && AddAll([], more)[j] == AtAfterAdd(before, d, j);
      if i != k && j != k { NamesOnce(more[..n], name, x, y); }
    } else {
      NamesOnce(more[..n], name, i, j);
    }
  }

  /** What is at position m once d has been put in its place. */
  function AtAfterAdd(devs: seq<Dev>, d: Dev, m: nat): Dev
    requires m <= |devs|
  {
    var k := Place(d, devs);
    if m < k then devs[m] else if m == k then d else devs[m - 1]
  }

  lemma AddedAt(devs: seq<Dev>, d: Dev)
    requires d.name !in Names(devs)
    ensures var now := Added(devs, d, true);
      |now| == |devs| + 1 && forall m :: 0 <= m < |now| ==> now[m] == AtAfterAdd(devs, d, m)
  {
  }

  predicate SameRank(a: Dev, b: Dev) {
    a.loopback == b.loopback && Instance(a.name) == Instance(b.name)
  }

  /** The addition that listed a came before the one that listed b. */
  ghost predicate Earlier(more: seq<(Dev, bool)>, a: Dev, b: Dev) {
    forall i, j :: Enters(more, i) && more[i].0 == a && Enters(more, j) && more[j].0 == b ==> i < j
  }

  /** The search stops past every device of the same rank, and whatever follows has another. */
  lemma PlacedLast(devs: seq<Dev>, d: Dev, j: nat)
    requires Ordered(devs) && Place(d, devs) <= j < |devs|
    ensures !SameRank(d, devs[j])
  {
    var k := Place(d, devs);
    assert StopsAt(d, devs[k]) && (j == k || Before(devs[k], devs[j]));
  }

  lemma StillEarlier(more: seq<(Dev, bool)>, n: nat, a: Dev, b: Dev)
    requires more != [] && n == |more| - 1 && a in AddAll([], more[..n])
    requires b in AddAll([], more[..n]) ==> Earlier(more[..n], a, b)
    requires b in AddAll([], more[..n]) || Enters(more, n)
    ensures Earlier(more, a, b)
  {
    var devs := AddAll([], more[..n]);
    LastEntersIff(more);
    assert a.name in Names(devs);
    if b in devs { assert b.name in Names(devs); }
    forall i, j | Enters(more, i) && more[i].0 == a && Enters(more, j) && more[j].0 == b ensures i < j {
      EntersEarlier(more, n, i);
      if j < n {
        EntersEarlier(more, n, j);
        ListedIff(more[..n], b);
        assert more[..n][i].0 == a && more[..n][j].0 == b;
      }
    }
  }

  /** Devices of the same kind and number are listed in the order in which they were added. */
  lemma {:induction false} InOrderOfAdding(more: seq<(Dev, bool)>)
    ensures var devs := AddAll([], more);
      forall i, j :: 0 <= i < j < |devs| && SameRank(devs[i], devs[j]) ==> Earlier(more, devs[i], devs[j])
  {
    if more != [] {
      var n := |more| - 1;
      var before, d, devs := AddAll([], more[..n]), more[n].0, AddAll([], more);
      InOrderOfAdding(more[..n]);
      LookupFindsLeast(more[..n]);
      LastEntersIff(more);
      if Enters(more, n) {
        AddedAt(before, d);
        forall i, j | 0 <= i < j < |devs| && SameRank(devs[i], devs[j]) ensures Earlier(more, devs[i], devs[j]) {
          assert devs[i] == AtAfterAdd(before, d, i) && devs[j] == AtAfterAdd(before, d, j);
          OneMoreInOrder(more, n, i, j);
        }
      } else {
        forall i, j | 0 <= i < j < |devs| && SameRank(devs[i], devs[j]) ensures Earlier(more, devs[i], devs[j]) {
          StillEarlier(more, n, devs[i], devs[j]);
        }
      }
    }
  }

  lemma OneMoreInOrder(more: seq<(Dev, bool)>, n: nat, i: nat, j: nat)
    requires more != [] && n == |more| - 1 && Enters(more, n) && Ordered(AddAll([], more[..n]))
    requires var before := AddAll([], more[..n]);
      forall a, b :: 0 <= a < b < |before| && SameRank(before[a], before[b]) ==>
                       Earlier(more[..n], before[a], before[b])
    requires var before, d := AddAll([], more[..n]), more[n].0;
      i < j <= |before| && SameRank(AtAfterAdd(before, d, i), AtAfterAdd(before, d, j))
    ensures var before, d := AddAll([], more[..n]), more[n].0;
      Earlier(more, AtAfterAdd(before, d, i), AtAfterAdd(before, d, j))
  {
    var before, d := AddAll([], more[..n]), more[n].0;
    var k := Place(d, before);
    if i == k {
      PlacedLast(before, d, j - 1);
    } else {
      var x := if i < k then i else i - 1;
      assert AtAfterAdd(before, d, i) == before[x];
      if j != k {
        var y := if j < k then j else j - 1;
        assert AtAfterAdd(before, d, j) == before[y] && x < y;
        StillEarlier(more, n, before[x], before[y]);
      } else {
        LastEntersIff(more);
        assert forall e :: e in before ==> e.name in Names(before);
        StillEarlier(more, n, before[x], d);
      }
    }
  }

  /**
    pcap_lookupdev on a list made by any additions: it fails exactly when no device that got listed is
    other than a loopback; otherwise it names the one of them with the least number, of several with this
    number the one that was added first.
   */
  method LookupAfter(more: seq<(Dev, bool)>) returns (name: Option<string>)
    ensures name.None? <==> forall k :: Enters(more, k) ==> more[k].0.loopback
    ensures name.Some? ==>
      exists k :: Enters(more, k) && !more[k].0.loopback && more[k].0.name == name.value
        && forall j :: Enters(more, j) && !more[j].0.loopback && j != k ==>
             || Instance(name.value) < Instance(more[j].0.name)
             || (Instance(name.value) == Instance(more[j].0.name) && k < j)
  {
    var list := new IfList();
    list.AddEach(more);
    name := list.LookupDev();
    FirstListed(more);
  }

  lemma FirstListed(more: seq<(Dev, bool)>)
    ensures var devs := AddAll([], more);
      && ((devs == [] || devs[0].loopback) <==> forall k :: Enters(more, k) ==> more[k].0.loopback)
      && (devs != [] && !devs[0].loopback ==>
            exists k :: Enters(more, k) && more[k].0 == devs[0]
              && forall j :: Enters(more, j) && !more[j].0.loopback && j != k ==>
                   || Instance(devs[0].name) < Instance(more[j].0.name)
                   || (Instance(devs[0].name) == Instance(more[j].0.name) && k < j))
  {
    var devs := AddAll([], more);
    LookupFindsLeast(more);
    InOrderOfAdding(more);
    forall k | Enters(more, k) ensures more[k].0 in devs { ListedIff(more, more[k].0); }
    if devs != [] && !devs[0].loopback {
      ListedIff(more, devs[0]);
      var k :| Enters(more, k) && more[k].0 == devs[0];
      forall j | Enters(more, j) && !more[j].0.loopback && j != k
        ensures || Instance(devs[0].name) < Instance(more[j].0.name)
                || (Instance(devs[0].name) == Instance(more[j].0.name) && k < j)
      {
        var i :| 0 <= i < |devs| && devs[i] == more[j].0;
        EnterOnce(more, j, k);
        if SameRank(devs[0], devs[i]) {
          assert Earlier(more, devs[0], devs[i]);
        }
      }
    }
  }

  lemma EnterOnce(more: seq<(Dev, bool)>, j: int, k: int)
    requires Enters(more, j) && Enters(more, k)
    ensures more[j].0.name == more[k].0.name ==> j == k
  {
  }
}
