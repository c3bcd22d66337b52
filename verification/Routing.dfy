/**
  Flow and link tables: libs/data_structure/finsmodule.c. Each flow of a module caches the link record
  that a search of the module's link list for the flow's link id finds.
 */
module Routing {
  import opened Prelude
  import opened Frames
  import FrameQueue

  const MAX_MODULES: nat := 32
  const MAX_MOD_FLOWS: nat := 256
  const MAX_TABLE_LINKS: nat := 1024
  const MAX_QUEUE_SIZE: nat := 100000
  const LINK_NULL: nat := 0

  /** What a link record says: dsts_num is the length of dsts. */
  datatype Link = Link(id: nat, src: nat, dsts: seq<nat>)

  /** struct link_record; a record is not changed once it is in a list. */
  class LinkRecord {
    const link: Link

    constructor (link: Link)
      ensures this.link == link
    {
      this.link := link;
    }
  }

  /** struct fins_module_flow */
  datatype Flow = Flow(linkId: nat, record: LinkRecord?)

  /** struct fins_module_table as a message carries it; flows_num is the length of flows. */
  datatype Table = Table(links: Option<seq<LinkRecord>>, flows: seq<Flow>)

  /** The first record with the id is at position k. */
  predicate FoundAt(links: seq<LinkRecord>, id: nat, k: int) {
    0 <= k < |links| && links[k].link.id == id && forall j :: 0 <= j < k ==> links[j].link.id != id
  }

  /** list_find1(links, link_id_test, id) */
  function Find(links: seq<LinkRecord>, id: nat): (r: LinkRecord?)
    ensures r != null ==> r in links && r.link.id == id
    ensures r != null ==> exists k :: FoundAt(links, id, k) && links[k] == r
    ensures r == null ==> forall k :: 0 <= k < |links| ==> links[k].link.id != id
  {
    if links == [] then null
    else if links[0].link.id == id then assert FoundAt(links, id, 0); links[0]
    else
      var r := Find(links[1..], id);
      assert forall j :: 1 <= j < |links| ==> links[j] == links[1..][j - 1];
      assert forall k :: FoundAt(links[1..], id, k) ==> FoundAt(links, id, k + 1);
      r
  }

  /** The same search on what the records say. */
  function FindLink(links: seq<Link>, id: nat): Option<Link> {
    if links == [] then None
    else if links[0].id == id then Some(links[0])
    else FindLink(links[1..], id)
  }

  function Says(records: seq<LinkRecord>): (ls: seq<Link>)
    ensures |ls| == |records| && forall k :: 0 <= k < |ls| ==> ls[k] == records[k].link
  {
    seq(|records|, k requires 0 <= k < |records| => records[k].link)
  }

  lemma {:induction false} FindSays(records: seq<LinkRecord>, id: nat)
    ensures FindLink(Says(records), id) == if Find(records, id) == null then None else Some(Find(records, id).link)
  {
    if records != [] {
      FindSays(records[1..], id);
      assert Says(records)[1..] == Says(records[1..]);
    }
  }

  /** The record a flow should cache, given the link list (NULL before one was set). */
  function Target(links: Option<seq<LinkRecord>>, id: nat): LinkRecord? {
    if links.Some? then Find(links.value, id) else null
  }

  predicate CoherentFlows(links: Option<seq<LinkRecord>>, flows: seq<Flow>) {
    forall i :: 0 <= i < |flows| ==> flows[i].record == Target(links, flows[i].linkId)
  }

  /** Where a flow leads: nowhere without a link id or a record. */
  function Destinations(flow: Flow): seq<nat> {
    if flow.linkId == LINK_NULL || flow.record == null then [] else flow.record.link.dsts
  }

  /**
    struct fins_module with its table and output queue; `freed` are the records given back to the
    allocator, `lost` those in lists that were replaced without being freed.
   */
  class FinsModule {
    const index: nat
    const flowsMax: nat
    var links: Option<seq<LinkRecord>>
    var flowsNum: nat
    const flows: array<Flow>
    const output: FrameQueue.Queue
    ghost var freed: set<LinkRecord>
    ghost var lost: set<LinkRecord>

    constructor (index: nat, flowsMax: nat)
      requires flowsMax <= MAX_MOD_FLOWS
      ensures Valid() && flowsNum == 0 && Pending() == [] && freed == lost == {}
      ensures fresh(flows) && fresh(output) && fresh(output.cells)
      ensures this.index == index && this.flowsMax == flowsMax && links.None?
    {
      this.index, this.flowsMax := index, flowsMax;
      links, flowsNum, freed, lost := None, 0, {}, {};
      flows := new Flow[MAX_MOD_FLOWS](_ => Flow(LINK_NULL, null));
      output := new FrameQueue.Queue(MAX_QUEUE_SIZE);
    }

    /**
      Every flow in use caches what the search finds, no record in the list has been freed, and without
      a list no flow is in use.
     */
    ghost predicate Valid()
      reads this, flows, output
    {
      && flowsNum <= flowsMax <= MAX_MOD_FLOWS == flows.Length
      && CoherentFlows(links, flows[..flowsNum])
      && (if links.Some? then NoneFreed(links.value, freed) else flowsNum == 0)
      && QueueOk()
    }

    ghost predicate QueueOk()
      reads this, output
    {
      output.Ring() && output.capacity == MAX_QUEUE_SIZE
    }

    /** The frames waiting for the switch. */
    ghost function Pending(): seq<Frame?>
      requires QueueOk()
      reads this, output, output.cells
    {
      output.Contents()
    }

    /** Where flow j of this module leads. */
    ghost function Leads(j: nat): seq<nat>
      requires flows.Length == MAX_MOD_FLOWS && flowsNum <= MAX_MOD_FLOWS
      reads this, flows
    {
      if j < flowsNum then Destinations(flows[j]) else []
    }

    /**
      module_set_param_flows. Without a list the first search is made on NULL; `fault` stands for that,
      and nothing after it is modelled.
     */
    method SetParamFlows(ids: seq<nat>) returns (fault: bool)
      requires Valid()
      modifies this`flowsNum, flows
      ensures Valid()
      ensures fault <==> links.None? && 0 < |ids| <= flowsMax
      ensures fault || |ids| > flowsMax ==> flowsNum == old(flowsNum) && flows[..] == old(flows[..])
      ensures !fault && |ids| <= flowsMax ==>
        flowsNum == |ids| && forall i :: 0 <= i < |ids| ==> flows[i] == Flow(ids[i], Target(links, ids[i]))
    {
      if flowsMax < |ids| { return false; }
      if links.None? && |ids| > 0 { return true; }
      flowsNum := |ids|;
      for i := 0 to flowsNum
        modifies flows
        invariant forall k :: 0 <= k < i ==> flows[k] == Flow(ids[k], Target(links, ids[k]))
      {
        flows[i] := Flow(ids[i], Find(links.value, ids[i]));
      }
      return false;
    }

    /** module_set_param_links; the old list is freed, and every flow in use is looked up again */
    method SetParamLinks(wellSized: bool, newLinks: seq<LinkRecord>)
      requires Valid() && NoneFreed(newLinks, freed)
      requires links.Some? ==> NoneFreed(newLinks, set r | r in links.value)
      modifies this`links, this`freed, flows
      ensures Valid()
      ensures !wellSized ==> links == old(links) && freed == old(freed) && flows[..] == old(flows[..])
      ensures wellSized ==>
        && links == Some(newLinks)
        && freed == old(freed) + (if old(links).Some? then set r | r in old(links).value else {})
        && forall i :: 0 <= i < flowsNum ==> flows[i].linkId == old(flows[i].linkId)
    {
      if !wellSized { return; }
      if links.Some? {
        freed := freed + set r | r in links.value;
      }
      links := Some(newLinks);
      for i := 0 to flowsNum
        modifies flows
        invariant forall k :: 0 <= k < i ==>
          flows[k] == Flow(old(flows[k].linkId), Find(newLinks, old(flows[k].linkId)))
        invariant forall k :: i <= k < flowsNum ==> flows[k] == old(flows[k])
      {
        flows[i] := flows[i].(record := Find(links.value, flows[i].linkId));
      }
    }

    /**
      module_set_param_dual. The list and the cached records are taken over as they come, so the flows
      are coherent afterwards exactly when they were in the message. The old list is not freed.
     */
    method SetParamDual(wellSized: bool, table: Table) returns (accepted: bool)
      requires Valid() && (table.links.Some? ==> NoneFreed(table.links.value, freed))
      modifies this`links, this`flowsNum, this`lost, flows
      ensures accepted == (wellSized && |table.flows| <= flowsMax && table.links.Some?)
      ensures !accepted ==> Valid() && links == old(links) && flowsNum == old(flowsNum) && flows[..] == old(flows[..])
      ensures lost == old(lost) + if accepted && old(links).Some? then set r | r in old(links).value else {}
      ensures accepted ==> links == table.links && flowsNum == |table.flows| && flows[..flowsNum] == table.flows
      ensures accepted ==> (Valid() <==> CoherentFlows(table.links, table.flows))
    {
      if !wellSized { return false; }
      if flowsMax < |table.flows| || table.links.None? { return false; }
      if links.Some? { lost := lost + set r | r in links.value; }
      links := table.links;
      flowsNum := |table.flows|;
      for i := 0 to flowsNum
        modifies flows
        invariant forall k :: 0 <= k < i ==> flows[k] == table.flows[k]
      {
        flows[i] := table.flows[i];
      }
      assert flows[..flowsNum] == table.flows;
      return true;
    }

    /** module_read_param_dual */
    method ReadParamDual() returns (table: Table)
      requires Valid()
      ensures table.links.Some? <==> links.Some?
      ensures table.links.Some? ==> fresh(table.links.value) && Says(table.links.value) == Says(links.value)
      ensures |table.flows| == flowsNum && CoherentFlows(table.links, table.flows)
      ensures forall j :: 0 <= j < flowsNum ==>
        table.flows[j].linkId == flows[j].linkId && Destinations(table.flows[j]) == Destinations(flows[j])
    {
      var copy := None;
      if links.Some? {
        var always := (_: Link) => true;
        var records := CloneLinks(links.value, always);
        FilterKeepsAll(Says(links.value), always);
        copy := Some(records);
      }
      var fs := [];
      for i := 0 to flowsNum
        invariant copy.Some? <==> links.Some?
        invariant copy.Some? ==> Says(copy.value) == Says(links.value)
        invariant |fs| == i && CoherentFlows(copy, fs)
        invariant forall j :: 0 <= j < i ==>
          fs[j].linkId == flows[j].linkId && Destinations(fs[j]) == Destinations(flows[j])
      {
        var id := flows[i].linkId;
        fs := fs + [Flow(id, Find(copy.value, id))];
        FindSays(copy.value, id);
        FindSays(links.value, id);
        assert flows[..flowsNum][i] == flows[i];
      }
      table := Table(copy, fs);
    }

    /** module_to_switch: write_queue, that is Enqueue, on the output queue; the process exits when it is full */
    method ToSwitch(ff: Frame) returns (ok: bool)
      requires QueueOk()
      modifies output, output.cells
      ensures QueueOk() && ok == (|old(Pending())| < MAX_QUEUE_SIZE)
      ensures Pending() == old(Pending()) + if ok then [ff] else []
      ensures old(output.Clean()) ==> output.Clean()
    {
      ok := output.Enqueue(ff);
    }

    /** The copy of the frame for destination d. */
    static method CopyFor(ff: Frame, d: nat, ghost copies: seq<Frame>, ghost ds: seq<nat>) returns (copy: Frame)
      requires ff.Valid() && Sent(copies, ds, ContentOf(ff)) && Unshared(copies, ff)
      ensures fresh(copy) && Sent(copies + [copy], ds + [d], ContentOf(ff)) && Unshared(copies + [copy], ff)
    {
      copy := CloneFinsFrame(ff);
      copy.destinationID := d;
      SentAppend(copies, ds, copy, ContentOf(ff));
    }

    /** A copy of the frame goes out to destination d, after `copies` went to `ds`. */
    method SendCopy(ff: Frame, d: nat, ghost copies: seq<Frame>, ghost ds: seq<nat>) returns (ok: bool, ghost clone: Frame)
      requires ff.Valid() && QueueOk()
      requires Sent(copies, ds, ContentOf(ff)) && Unshared(copies, ff)
      modifies output, output.cells
      ensures fresh(clone) && Sent(copies + [clone], ds + [d], ContentOf(ff)) && Unshared(copies + [clone], ff)
      ensures QueueOk() && ok == (|old(Pending())| < MAX_QUEUE_SIZE)
      ensures Pending() == old(Pending()) + if ok then [clone] else []
    {
      var copy := CopyFor(ff, d, copies, ds);
      ok := ToSwitch(copy);
      clone := copy;
    }

    /** The loop of module_send_flow over the second and later destinations. */
    method SendCopies(ff: Frame, ds: seq<nat>) returns (ok: bool, ghost copies: seq<Frame>)
      requires ff.Valid() && QueueOk()
      modifies output, output.cells
      ensures QueueOk() && Pending() == old(Pending()) + copies && fresh(copies)
      ensures ok <==> ds == [] || |old(Pending())| + |ds| <= MAX_QUEUE_SIZE
      ensures ok ==> Sent(copies, ds, ContentOf(ff)) && Unshared(copies, ff)
    {
      copies := [];
      for i := 0 to |ds|
        modifies output, output.cells
        invariant QueueOk() && Pending() == old(Pending()) + copies && |copies| == i && fresh(copies)
        invariant i == 0 || |old(Pending())| + i <= MAX_QUEUE_SIZE
        invariant Sent(copies, ds[..i], ContentOf(ff)) && Unshared(copies, ff)
      {
        ghost var clone;
        ok, clone := SendCopy(ff, ds[i], copies, ds[..i]);
        if !ok { return; }
        assert ds[..i] + [ds[i]] == ds[..i + 1];
        copies := copies + [clone];
        assert Pending() == old(Pending()) + copies;
      }
      ok := true;
      assert ds[..|ds|] == ds;
    }

    /** The frame itself goes out to destination d, after `copies` went to `ds`. */
    method SendItself(ff: Frame, d: nat, ghost copies: seq<Frame>, ghost ds: seq<nat>) returns (ok: bool)
      requires QueueOk() && Sent(copies, ds, ContentOf(ff)) && Unshared(copies, ff)
      modifies output, output.cells, ff`destinationID
      ensures Sent(copies + [ff], ds + [d], old(ContentOf(ff)))
      ensures QueueOk() && ok == (|old(Pending())| < MAX_QUEUE_SIZE)
      ensures Pending() == old(Pending()) + if ok then [ff] else []
    {
      ff.destinationID := d;
      SentAppend(copies, ds, ff, ContentOf(ff));
      ok := ToSwitch(ff);
    }

    /** The sending part of module_send_flow: the frame itself goes to the first destination, last. */
    method SendTo(ff: Frame, ds: seq<nat>) returns (ret: int, ghost sent: seq<Frame>)
      requires ff.Valid() && QueueOk() && ds != []
      modifies output, output.cells, ff`destinationID
      ensures QueueOk() && Pending() == old(Pending()) + sent
      ensures |old(Pending())| + |ds| > MAX_QUEUE_SIZE ==> ret == -1
      ensures |old(Pending())| + |ds| <= MAX_QUEUE_SIZE ==>
        && ret == |ds| && Sent(sent, ds[1..] + [ds[0]], old(ContentOf(ff)))
        && sent[|sent| - 1] == ff && fresh(sent[..|sent| - 1])
    {
      var ok;
      ok, sent := SendCopies(ff, ds[1..]);
      if !ok { return -1, sent; }
      ok := SendItself(ff, ds[0], sent, ds[1..]);
      if !ok { return -1, sent; }
      ret, sent := |ds|, sent + [ff];
    }

    /**
      module_send_flow. One frame per destination goes out: copies for the second and later ones, then
      the frame itself for the first. The copies equal the frame in everything but the destination, and
      no two frames share a payload. The record followed is in the current list and has not been freed.
      -1 stands for the exit on a full queue.
     */
    method SendFlow(ff: Frame, flow: nat) returns (ret: int, ghost sent: seq<Frame>)
      requires Valid() && ff.Valid()
      modifies output, output.cells, ff`destinationID
      ensures Valid() && Pending() == old(Pending()) + sent && Leads(flow) == old(Leads(flow))
      ensures Leads(flow) == [] ==> ret == 0 && sent == [] && ff.destinationID == old(ff.destinationID)
      ensures Leads(flow) != [] ==>
        && links.Some? && flows[flow].record in links.value && flows[flow].record !in freed
        && flows[flow].record.link.id == flows[flow].linkId
      ensures Leads(flow) != [] && |old(Pending())| + |Leads(flow)| > MAX_QUEUE_SIZE ==> ret == -1
      ensures Leads(flow) != [] && |old(Pending())| + |Leads(flow)| <= MAX_QUEUE_SIZE ==>
        var ds := Leads(flow);
        && ret == |ds| && Sent(sent, ds[1..] + [ds[0]], old(ContentOf(ff)))
        && sent[|sent| - 1] == ff && fresh(sent[..|sent| - 1])
    {
      ret, sent := 0, [];
      if flow >= flowsNum { return; }
      if flows[flow].linkId == LINK_NULL { return; }
      if flows[flow].record == null { return; }
      FollowedRecord(this, flow);
      var ds := flows[flow].record.link.dsts;
      if |ds| == 0 { return; }
      ret, sent := SendTo(ff, ds);
    }
  }

  /** The record a flow in use caches is what the search of the current list finds, and has not been freed. */
  lemma FollowedRecord(m: FinsModule, j: nat)
    requires m.Valid() && j < m.flowsNum
    ensures m.flows[j].record == Target(m.links, m.flows[j].linkId)
    ensures var record := m.flows[j].record;
      record != null ==>
        m.links.Some? && record in m.links.value && record !in m.freed && record.link.id == m.flows[j].linkId
  {
    assert m.flows[..m.flowsNum][j] == m.flows[j];
    if m.flows[j].record != null {
      var k :| 0 <= k < |m.links.value| && m.links.value[k] == m.flows[j].record;
    }
  }

  /** What a frame carries besides its destination. */
  datatype Content = Content(kind: Kind, metaData: map<string, int>, bytes: seq<Byte>)

  ghost function ContentOf(f: Frame): Content
    reads f, f.payload
  {
    Content(f.kind, f.metaData, f.Bytes())
  }

  /** f is none of the frames and shares its payload with none. */
  ghost predicate Unshared(frames: seq<Frame>, f: Frame)
    reads frames, f
  {
    forall k :: 0 <= k < |frames| ==> frames[k] != f && (f.payload != null ==> frames[k].payload != f.payload)
  }

  /** One frame for each destination, all of the given content, no two the same or sharing a payload. */
  ghost predicate Sent(frames: seq<Frame>, ds: seq<nat>, content: Content)
    reads frames, set f | f in frames :: f.payload
  {
    && |frames| == |ds|
    && (forall k :: 0 <= k < |ds| ==> frames[k].destinationID == ds[k] && ContentOf(frames[k]) == content)
    && (forall k :: 0 <= k < |ds| ==> Unshared(frames[..k], frames[k]))
  }

  lemma SentAppend(frames: seq<Frame>, ds: seq<nat>, f: Frame, content: Content)
    requires Sent(frames, ds, content) && Unshared(frames, f)
    requires f.destinationID >= 0 && ContentOf(f) == content
    ensures Sent(frames + [f], ds + [f.destinationID], content)
  {
    var all := frames + [f];
    forall k | 0 <= k < |all| ensures Unshared(all[..k], all[k]) {
      if k < |frames| {
        assert all[..k] == frames[..k];
      } else {
        assert all[..k] == frames;
      }
    }
  }

  function FilterLinks(links: seq<Link>, p: Link -> bool): seq<Link> {
    if links == [] then []
    else
      var n := |links| - 1;
      FilterLinks(links[..n], p) + (if p(links[n]) then [links[n]] else [])
  }

  lemma {:induction false} FilterKeepsAll(links: seq<Link>, p: Link -> bool)
    requires forall l :: p(l)
    ensures FilterLinks(links, p) == links
  {
    if links != [] { FilterKeepsAll(links[..|links| - 1], p); }
  }

  /** list_clone and list_filter1 with link_clone */
  method CloneLinks(records: seq<LinkRecord>, p: Link -> bool) returns (copy: seq<LinkRecord>)
    ensures fresh(copy) && Says(copy) == FilterLinks(Says(records), p)
  {
    copy := [];
    for i := 0 to |records|
      invariant fresh(copy) && Says(copy) == FilterLinks(Says(records)[..i], p)
    {
      assert Says(records)[..i + 1][..i] == Says(records)[..i];
      if p(records[i].link) {
        var record := new LinkRecord(records[i].link);
        copy := copy + [record];
      }
    }
    assert Says(records)[..|records|] == Says(records);
  }

  predicate NoneFreed(records: seq<LinkRecord>, freed: set<LinkRecord>) {
    forall k :: 0 <= k < |records| ==> records[k] !in freed
  }
}
