/** Runs of table updates on a module, and the round trip of a table from one module to another. */
module RoutingRuns {
  import opened Prelude
  import opened Frames
  import opened Routing

  /** A control message that changes a module's table. */
  datatype Update =
    | Flows(ids: seq<nat>)
    | Links(wellSized: bool, links: seq<LinkRecord>)
    | Dual(wellSized: bool, table: Table)

  /** The link records a message brings along. */
  function Records(u: Update): set<LinkRecord> {
    match u
    case Flows(_) => {}
    case Links(_, links) => set r | r in links
    case Dual(_, table) => if table.links.Some? then set r | r in table.links.value else {}
  }

  /** The records the module knows of: those in its list and those it has freed. */
  ghost function Known(m: FinsModule): set<LinkRecord>
    reads m
  {
    m.freed + (if m.links.Some? then set r | r in m.links.value else {})
  }

  /** Each message brings newly allocated records, and the flows in a dual message fit its list. */
  ghost predicate Proper(updates: seq<Update>, known: set<LinkRecord>)
  {
    if updates == [] then true
    else
      && Records(updates[0]) !! known
      && (updates[0].Dual? ==> CoherentFlows(updates[0].table.links, updates[0].table.flows))
      && Proper(updates[1..], known + Records(updates[0]))
  }

  /** The message has a flow looked up. */
  predicate Searches(u: Update, flowsMax: nat) {
    u.Flows? && 0 < |u.ids| <= flowsMax
  }

  /** The message gives the module a link list. */
  predicate SetsList(u: Update, flowsMax: nat) {
    match u
    case Flows(_) => false
    case Links(wellSized, _) => wellSized
    case Dual(wellSized, table) => wellSized && |table.flows| <= flowsMax && table.links.Some?
  }

  predicate HasList(listed: bool, updates: seq<Update>, flowsMax: nat) {
    listed || exists k :: 0 <= k < |updates| && SetsList(updates[k], flowsMax)
  }

  /** Flows are set before the module has a list. */
  predicate SearchesNull(listed: bool, updates: seq<Update>, flowsMax: nat) {
    exists k :: 0 <= k < |updates| && Searches(updates[k], flowsMax) && !HasList(listed, updates[..k], flowsMax)
  }

  lemma HasListNext(listed: bool, updates: seq<Update>, flowsMax: nat, i: nat)
    requires i < |updates|
    ensures HasList(listed, updates[..i + 1], flowsMax) <==>
      HasList(listed, updates[..i], flowsMax) || SetsList(updates[i], flowsMax)
  {
    var now := updates[..i + 1];
    assert now[i] == updates[i] && forall k :: 0 <= k < i ==> now[k] == updates[..i][k];
    if HasList(listed, updates[..i], flowsMax) && !listed {
      var k :| 0 <= k < i && SetsList(updates[..i][k], flowsMax);
      assert SetsList(now[k], flowsMax);
    }
  }

  /** One message; `fault` stands for a search on NULL. */
  method Serve(m: FinsModule, u: Update) returns (fault: bool)
    requires m.Valid() && Records(u) !! Known(m)
    requires u.Dual? ==> CoherentFlows(u.table.links, u.table.flows)
    modifies m`links, m`flowsNum, m`freed, m`lost, m.flows
    ensures m.Valid() && Known(m) <= old(Known(m)) + Records(u)
    ensures fault <==> Searches(u, m.flowsMax) && old(m.links).None?
    ensures m.links.Some? <==> old(m.links).Some? || SetsList(u, m.flowsMax)
  {
    fault := false;
    match u {
      case Flows(ids) =>
        fault := m.SetParamFlows(ids);
      case Links(wellSized, links) =>
        assert forall k :: 0 <= k < |links| ==> links[k] in Records(u);
        m.SetParamLinks(wellSized, links);
      case Dual(wellSized, table) =>
        assert table.links.Some? ==> forall k :: 0 <= k < |table.links.value| ==> table.links.value[k] in Records(u);
        var accepted := m.SetParamDual(wellSized, table);
    }
  }

  /**
    Any sequence of table messages, from the new module on. It runs into a search on NULL exactly when
    flows are set before the first list; otherwise every flow in use then caches exactly what a search of
    the current list finds, and that record has not been freed.
   */
  method ServeAll(m: FinsModule, updates: seq<Update>) returns (fault: bool)
    requires m.Valid() && Proper(updates, Known(m))
    modifies m`links, m`flowsNum, m`freed, m`lost, m.flows
    ensures fault <==> SearchesNull(old(m.links).Some?, updates, m.flowsMax)
    ensures m.Valid()
    ensures forall j :: 0 <= j < m.flowsNum ==>
      && m.flows[j].record == Target(m.links, m.flows[j].linkId)
      && (m.flows[j].record != null ==> m.flows[j].record !in m.freed)
  {
    ghost var known := Known(m);
    ghost var listed := m.links.Some?;
    fault := false;
    for i := 0 to |updates|
      invariant m.Valid() && Known(m) <= known && Proper(updates[i..], known)
      invariant m.links.Some? <==> HasList(listed, updates[..i], m.flowsMax)
      invariant !fault
      invariant forall k :: 0 <= k < i && Searches(updates[k], m.flowsMax) ==> HasList(listed, updates[..k], m.flowsMax)
    {
      assert updates[i..][0] == updates[i] && updates[i..][1..] == updates[i + 1..];
      HasListNext(listed, updates, m.flowsMax, i);
      known := known + Records(updates[i]);
      fault := Serve(m, updates[i]);
      if fault { break; }
    }
    forall j | 0 <= j < m.flowsNum
      ensures m.flows[j].record == Target(m.links, m.flows[j].linkId)
      ensures m.flows[j].record != null ==> m.flows[j].record !in m.freed
    {
      FollowedRecord(m, j);
    }
  }

  /**
    A send after any sequence of table messages: it goes to the destinations of the first record in the
    current list with the flow's id, which has not been freed, and nowhere if there is none.
   */
  method ServeThenSend(m: FinsModule, updates: seq<Update>, ff: Frame, flow: nat)
    returns (fault: bool, ret: int, ghost sent: seq<Frame>)
    requires m.Valid() && Proper(updates, Known(m)) && ff.Valid()
    modifies m`links, m`flowsNum, m`freed, m`lost, m.flows, m.output, m.output.cells, ff`destinationID
    ensures fault <==> SearchesNull(old(m.links).Some?, updates, m.flowsMax)
    ensures m.Valid()
    ensures !fault && flow < m.flowsNum ==>
      var id := m.flows[flow].linkId; var record := Target(m.links, id);
      var ds := if id == LINK_NULL || record == null then [] else record.link.dsts;
      && (ds != [] ==> record in m.links.value && record !in m.freed)
      && (ds == [] ==> ret == 0 && sent == [])
      && (ds != [] && old(m.output.size) + |ds| <= MAX_QUEUE_SIZE ==>
            ret == |ds| && Sent(sent, ds[1..] + [ds[0]], old(ContentOf(ff))))
  {
    ret, sent := 0, [];
    fault := ServeAll(m, updates);
    if !fault {
      ret, sent := m.SendFlow(ff, flow);
    }
  }

  /** Flows set on a new module: the search is made on NULL. */
  method FlowsBeforeLinks(id: nat) returns (fault: bool)
    ensures fault
  {
    var m := new FinsModule(0, MAX_MOD_FLOWS);
    var u := Flows([id]);
    assert Searches([u][0], MAX_MOD_FLOWS) && !HasList(false, [u][..0], MAX_MOD_FLOWS);
    fault := ServeAll(m, [u]);
  }

  /**
    A dual message whose flow caches a record that is not in its list is accepted as it is: the flow then
    leads to the foreign record's destinations although the module's list is empty.
   */
  method ForeignRecordIsCached(m: FinsModule, foreign: LinkRecord) returns (accepted: bool)
    requires m.Valid() && m.flowsMax > 0 && foreign.link.id != LINK_NULL
    modifies m`links, m`flowsNum, m`lost, m.flows
    ensures accepted && !m.Valid()
    ensures m.flowsNum == 1 && m.links == Some([]) && m.flows.Length == MAX_MOD_FLOWS
    ensures m.Leads(0) == foreign.link.dsts
  {
    var table := Table(Some([]), [Flow(foreign.link.id, foreign)]);
    accepted := m.SetParamDual(true, table);
    assert m.flows[..m.flowsNum][0] == m.flows[0];
    assert !CoherentFlows(table.links, table.flows) by { assert table.flows[0].record != Target(table.links, foreign.link.id); }
  }

  /**
    A table read from one module and set in another, or the same, makes every flow lead where it led in
    the first; it is accepted exactly when the first has a list and the second enough flows.
   */
  method CopyTable(from: FinsModule, to: FinsModule) returns (accepted: bool)
    requires from.Valid() && to.Valid()
    modifies to`links, to`flowsNum, to`lost, to.flows
    ensures to.Valid() && accepted == (old(from.links).Some? && old(from.flowsNum) <= to.flowsMax)
    ensures accepted ==> to.flowsNum == old(from.flowsNum)
    ensures accepted ==> forall j :: 0 <= j < to.flowsNum ==> to.Leads(j) == old(from.Leads(j))
  {
    var table := from.ReadParamDual();
    assert forall j :: 0 <= j < from.flowsNum ==> Destinations(table.flows[j]) == from.Leads(j);
    accepted := to.SetParamDual(true, table);
    assert accepted ==>
      forall j :: 0 <= j < to.flowsNum ==> to.flows[j] == to.flows[..to.flowsNum][j] == table.flows[j];
  }
}
