/**
  Start-up of the stack (execs/core/core.c): links of the configuration are resolved to module indices,
  and every module is handed its own links and flows.
 */
module StackConfig {
  import opened Prelude
  import opened Frames
  import opened Routing

  /** An entry of stack.modules, and one of stack.links with modules named by id. */
  datatype ModuleConf = ModuleConf(id: nat, flows: seq<nat>)
  datatype LinkConf = LinkConf(id: nat, src: nat, dsts: seq<nat>)

  // ----- resolving ids to indices -----

  /** The index of the module with this id; the search does not stop at the first. */
  function ModuleIndex(mods: seq<ModuleConf>, id: nat): Option<nat> {
    if mods == [] then None
    else if mods[|mods| - 1].id == id then Some(|mods| - 1)
    else ModuleIndex(mods[..|mods| - 1], id)
  }

  /** The last module with the id; None exactly when no module has it. */
  method FindModule(mods: seq<ModuleConf>, id: nat) returns (index: Option<nat>)
    requires |mods| <= MAX_MODULES
    ensures index == ModuleIndex(mods, id)
    ensures index.None? <==> !Known(mods, id)
    ensures index.Some? ==>
      && index.value < |mods| && mods[index.value].id == id
      && forall j :: index.value < j < |mods| ==> mods[j].id != id
  {
    index := None;
    for j := 0 to |mods|
      invariant index == ModuleIndex(mods[..j], id)
    {
      assert mods[..j + 1][..j] == mods[..j];
      if mods[j].id == id { index := Some(j); }
    }
    assert mods[..|mods|] == mods;
    IndexIsLast(mods, id);
  }

  /** Some module has this id. */
  predicate Known(mods: seq<ModuleConf>, id: nat) {
    exists i :: 0 <= i < |mods| && mods[i].id == id
  }

  lemma {:induction false} IndexIsLast(mods: seq<ModuleConf>, id: nat)
    ensures ModuleIndex(mods, id).None? <==> !Known(mods, id)
    ensures var i := ModuleIndex(mods, id);
      i.Some? ==> i.value < |mods| && mods[i.value].id == id && forall j :: i.value < j < |mods| ==> mods[j].id != id
  {
    if mods != [] {
      var n := |mods| - 1;
      IndexIsLast(mods[..n], id);
      assert forall j :: 0 <= j < n ==> mods[..n][j] == mods[j];
    }
  }

  /** The source and every destination of a link are modules of the configuration. */
  predicate LinkKnown(mods: seq<ModuleConf>, lc: LinkConf) {
    Known(mods, lc.src) && forall k :: 0 <= k < |lc.dsts| ==> Known(mods, lc.dsts[k])
  }

  predicate AllKnown(mods: seq<ModuleConf>, lcs: seq<LinkConf>) {
    forall i :: 0 <= i < |lcs| ==> LinkKnown(mods, lcs[i])
  }

  /** A link that keeps its id and names by index the modules the configuration names by id. */
  predicate Names(link: Link, mods: seq<ModuleConf>, lc: LinkConf) {
    && link.id == lc.id && link.src < |mods| && mods[link.src].id == lc.src
    && |link.dsts| == |lc.dsts|
    && forall k :: 0 <= k < |lc.dsts| ==> link.dsts[k] < |mods| && mods[link.dsts[k]].id == lc.dsts[k]
  }

  lemma {:induction false} IndicesIff(mods: seq<ModuleConf>, ids: seq<nat>)
    ensures Indices(mods, ids).Some? <==> forall k :: 0 <= k < |ids| ==> Known(mods, ids[k])
  {
    if ids != [] {
      var n := |ids| - 1;
      IndicesIff(mods, ids[..n]);
      IndexIsLast(mods, ids[n]);
      assert forall k :: 0 <= k < n ==> ids[..n][k] == ids[k];
    }
  }

  /** A link resolves exactly when all modules it names are there, and then to their indices. */
  lemma ResolveIff(mods: seq<ModuleConf>, lc: LinkConf)
    ensures Resolve(mods, lc).Some? <==> LinkKnown(mods, lc)
    ensures Resolve(mods, lc).Some? ==> Names(Resolve(mods, lc).value, mods, lc)
  {
    IndexIsLast(mods, lc.src);
    IndicesIff(mods, lc.dsts);
    IndicesNameModules(mods, lc.dsts);
  }

  /** A configuration resolves exactly when every id its links name is that of some module. */
  lemma {:induction false} ResolveAllIff(mods: seq<ModuleConf>, lcs: seq<LinkConf>)
    ensures ResolveAll(mods, lcs).Some? <==> AllKnown(mods, lcs)
    ensures ResolveAll(mods, lcs).Some? ==>
      var links := ResolveAll(mods, lcs).value;
      |links| == |lcs| && forall i :: 0 <= i < |lcs| ==> Names(links[i], mods, lcs[i])
  {
    if lcs != [] {
      var n := |lcs| - 1;
      ResolveAllIff(mods, lcs[..n]);
      ResolveIff(mods, lcs[n]);
      assert forall i :: 0 <= i < n ==> lcs[..n][i] == lcs[i];
    }
  }

  predicate UniqueIds(mods: seq<ModuleConf>) {
    forall i, j :: 0 <= i < j < |mods| ==> mods[i].id != mods[j].id
  }

  /** With unique ids the index found is the index of the one module that has the id. */
  lemma {:induction false} ModuleIndexUnique(mods: seq<ModuleConf>, id: nat, i: nat)
    requires UniqueIds(mods) && i < |mods|
    ensures ModuleIndex(mods, id) == Some(i) <==> mods[i].id == id
  {
    var n := |mods| - 1;
    if i < n {
      assert mods[..n][i] == mods[i];
      ModuleIndexUnique(mods[..n], id, i);
    } else {
      IndexNames(mods[..n], id);
    }
  }

  lemma {:induction false} IndexNames(mods: seq<ModuleConf>, id: nat)
    ensures var i := ModuleIndex(mods, id); i.Some? ==> i.value < |mods| && mods[i.value].id == id
  {
    if mods != [] { IndexNames(mods[..|mods| - 1], id); }
  }

  function Indices(mods: seq<ModuleConf>, ids: seq<nat>): Option<seq<nat>> {
    if ids == [] then Some([])
    else
      var n := |ids| - 1;
      var rest, last := Indices(mods, ids[..n]), ModuleIndex(mods, ids[n]);
      if rest.Some? && last.Some? then Some(rest.value + [last.value]) else None
  }

  function Resolve(mods: seq<ModuleConf>, lc: LinkConf): Option<Link> {
    var src, dsts := ModuleIndex(mods, lc.src), Indices(mods, lc.dsts);
    if src.Some? && dsts.Some? then Some(Link(lc.id, src.value, dsts.value)) else None
  }

  /** None stands for the exits on an unknown module. */
  function ResolveAll(mods: seq<ModuleConf>, lcs: seq<LinkConf>): Option<seq<Link>> {
    if lcs == [] then Some([])
    else
      var n := |lcs| - 1;
      var rest, last := ResolveAll(mods, lcs[..n]), Resolve(mods, lcs[n]);
      if rest.Some? && last.Some? then Some(rest.value + [last.value]) else None
  }

  method ResolveLink(mods: seq<ModuleConf>, lc: LinkConf) returns (r: Option<Link>)
    requires |mods| <= MAX_MODULES && |lc.dsts| <= MAX_MODULES
    ensures r == Resolve(mods, lc)
    ensures r.Some? <==> LinkKnown(mods, lc)
    ensures r.Some? ==> Names(r.value, mods, lc)
  {
    ResolveIff(mods, lc);
    var src := FindModule(mods, lc.src);
    if src.None? { return None; }
    var dsts := [];
    for j := 0 to |lc.dsts|
      invariant Indices(mods, lc.dsts[..j]) == Some(dsts)
    {
      assert lc.dsts[..j + 1][..j] == lc.dsts[..j];
      var dst := FindModule(mods, lc.dsts[j]);
      if dst.None? {
        IndicesFail(mods, lc.dsts, j);
        return None;
      }
      dsts := dsts + [dst.value];
    }
    assert lc.dsts[..|lc.dsts|] == lc.dsts;
    return Some(Link(lc.id, src.value, dsts));
  }

  lemma {:induction false} IndicesFail(mods: seq<ModuleConf>, ids: seq<nat>, j: nat)
    requires j < |ids| && ModuleIndex(mods, ids[j]).None?
    ensures Indices(mods, ids).None?
  {
    if j < |ids| - 1 { IndicesFail(mods, ids[..|ids| - 1], j); }
  }

  lemma {:induction false} ResolveAllFail(mods: seq<ModuleConf>, lcs: seq<LinkConf>, j: nat)
    requires j < |lcs| && Resolve(mods, lcs[j]).None?
    ensures ResolveAll(mods, lcs).None?
  {
    if j < |lcs| - 1 { ResolveAllFail(mods, lcs[..|lcs| - 1], j); }
  }

  /** The loop over stack.links; None stands for the exits, the one on a full link list included. */
  method BuildLinks(mods: seq<ModuleConf>, lcs: seq<LinkConf>) returns (r: Option<seq<LinkRecord>>)
    requires |mods| <= MAX_MODULES && forall i :: 0 <= i < |lcs| ==> |lcs[i].dsts| <= MAX_MODULES
    ensures r.Some? <==> AllKnown(mods, lcs) && |lcs| <= MAX_TABLE_LINKS
    ensures r.Some? ==> fresh(r.value) && ResolveAll(mods, lcs) == Some(Says(r.value))
    ensures r.Some? ==> |r.value| == |lcs| && forall i :: 0 <= i < |lcs| ==> Names(r.value[i].link, mods, lcs[i])
  {
    ResolveAllIff(mods, lcs);
    var records: seq<LinkRecord> := [];
    for i := 0 to |lcs|
      invariant fresh(records) && |records| == i <= MAX_TABLE_LINKS
      invariant ResolveAll(mods, lcs[..i]) == Some(Says(records))
    {
      assert lcs[..i + 1][..i] == lcs[..i];
      var link := ResolveLink(mods, lcs[i]);
      if link.None? {
        ResolveAllFail(mods, lcs, i);
        return None;
      }
      if |records| >= MAX_TABLE_LINKS { return None; }
      var record := new LinkRecord(link.value);
      records := records + [record];
      assert ResolveAll(mods, lcs[..i + 1]).value == Says(records);
    }
    assert lcs[..|lcs|] == lcs;
    return Some(records);
  }

  // ----- distribution to the modules -----

  /** link_src_test */
  function SrcTest(src: nat): Link -> bool {
    (l: Link) => l.src == src
  }

  /** Where a flow with this link id leads in the module with this index, given the resolved links. */
  function Routed(links: seq<Link>, index: nat, id: nat): seq<nat> {
    var found := FindLink(FilterLinks(links, SrcTest(index)), id);
    if id == LINK_NULL || found.None? then [] else found.value.dsts
  }

  /** The table of one module, and its delivery to the module as a set-dual message. */
  method StartModule(m: FinsModule, records: seq<LinkRecord>, flows: seq<nat>)
    requires m.Valid() && |flows| <= m.flowsMax
    modifies m`links, m`flowsNum, m`lost, m.flows
    ensures m.Valid() && m.flowsNum == |flows|
    ensures m.links.Some? && fresh(m.links.value)
    ensures forall j :: 0 <= j < |flows| ==> m.Leads(j) == Routed(Says(records), m.index, flows[j])
  {
    var own := CloneLinks(records, SrcTest(m.index));
    var fs := [];
    for j := 0 to |flows|
      invariant |fs| == j
      invariant forall k :: 0 <= k < j ==> fs[k] == Flow(flows[k], Find(own, flows[k]))
    {
      fs := fs + [Flow(flows[j], Find(own, flows[j]))];
    }
    var accepted := m.SetParamDual(true, Table(Some(own), fs));
    forall j | 0 <= j < |flows| ensures m.Leads(j) == Routed(Says(records), m.index, flows[j]) {
      assert m.flows[..m.flowsNum][j] == m.flows[j];
      FindSays(own, flows[j]);
    }
  }

  // ----- end to end -----

  /** The first link of the configuration with this id whose source is the module with this index. */
  function FirstLink(mods: seq<ModuleConf>, lcs: seq<LinkConf>, index: nat, id: nat): Option<LinkConf> {
    if lcs == [] then None
    else
      var n := |lcs| - 1;
      var earlier := FirstLink(mods, lcs[..n], index, id);
      if earlier.Some? then earlier
      else if lcs[n].id == id && ModuleIndex(mods, lcs[n].src) == Some(index) then Some(lcs[n])
      else None
  }

  /** Where the configuration says that flow leads. */
  function Configured(mods: seq<ModuleConf>, lcs: seq<LinkConf>, index: nat, id: nat): seq<nat> {
    var lc := FirstLink(mods, lcs, index, id);
    if id == LINK_NULL || lc.None? then []
    else
      var dsts := Indices(mods, lc.value.dsts);
      if dsts.Some? then dsts.value else []
  }

  lemma {:induction false} FindAppend(links: seq<Link>, link: Link, id: nat)
    ensures FindLink(links + [link], id)
         == if FindLink(links, id).Some? then FindLink(links, id) else if link.id == id then Some(link) else None
  {
    if links == [] {
      assert links + [link] == [link];
    } else {
      FindAppend(links[1..], link, id);
      assert (links + [link])[1..] == links[1..] + [link];
    }
  }

  lemma {:induction false} FoundIsFirst(mods: seq<ModuleConf>, lcs: seq<LinkConf>, index: nat, id: nat)
    requires ResolveAll(mods, lcs).Some?
    ensures var lc := FirstLink(mods, lcs, index, id);
      && FindLink(FilterLinks(ResolveAll(mods, lcs).value, SrcTest(index)), id)
         == (if lc.Some? then Resolve(mods, lc.value) else None)
      && (lc.Some? ==> Resolve(mods, lc.value).Some? && lc.value.id == id)
  {
    if lcs != [] {
      var n := |lcs| - 1;
      FoundIsFirst(mods, lcs[..n], index, id);
      var links, link := ResolveAll(mods, lcs[..n]).value, Resolve(mods, lcs[n]).value;
      assert (links + [link])[..|links|] == links;
      FindAppend(FilterLinks(links, SrcTest(index)), link, id);
      assert FilterLinks(links, SrcTest(index)) + [] == FilterLinks(links, SrcTest(index));
    }
  }

  /**
    A send follows the configuration: the first configured link with the flow's id and this module as
    source, its destinations in order. A flow that names no link of this module leads nowhere.
   */
  lemma RoutedAsConfigured(mods: seq<ModuleConf>, lcs: seq<LinkConf>, index: nat, id: nat)
    requires ResolveAll(mods, lcs).Some?
    ensures Routed(ResolveAll(mods, lcs).value, index, id) == Configured(mods, lcs, index, id)
  {
    FoundIsFirst(mods, lcs, index, id);
  }

  predicate OwnLink(lc: LinkConf, id: nat, src: nat) {
    lc.id == id && lc.src == src
  }

  /** With unique ids, the link followed is the first configured one with this id and this module's id as source. */
  lemma {:induction false} FirstLinkById(mods: seq<ModuleConf>, lcs: seq<LinkConf>, index: nat, id: nat)
    requires UniqueIds(mods) && index < |mods|
    ensures var lc := FirstLink(mods, lcs, index, id); var src := mods[index].id;
      && (lc.None? <==> forall k :: 0 <= k < |lcs| ==> !OwnLink(lcs[k], id, src))
      && (lc.Some? ==> exists k :: 0 <= k < |lcs| && lcs[k] == lc.value && OwnLink(lcs[k], id, src)
                                   && forall j :: 0 <= j < k ==> !OwnLink(lcs[j], id, src))
  {
    if lcs != [] {
      var n := |lcs| - 1;
      FirstLinkById(mods, lcs[..n], index, id);
      ModuleIndexUnique(mods, lcs[n].src, index);
      var src := mods[index].id;
      assert forall k :: 0 <= k < n ==> lcs[..n][k] == lcs[k];
      var earlier := FirstLink(mods, lcs[..n], index, id);
      if earlier.Some? {
        var k :| 0 <= k < n && lcs[..n][k] == earlier.value && OwnLink(lcs[..n][k], id, src)
                 && forall j :: 0 <= j < k ==> !OwnLink(lcs[..n][j], id, src);
        assert OwnLink(lcs[k], id, src) && lcs[k] == earlier.value;
        assert forall j :: 0 <= j < k ==> !OwnLink(lcs[j], id, src);
      } else if OwnLink(lcs[n], id, src) {
        assert forall j :: 0 <= j < n ==> !OwnLink(lcs[j], id, src);
      }
    }
  }

  /** The indices a link gets are those of the modules whose ids it names, in order. */
  lemma {:induction false} IndicesNameModules(mods: seq<ModuleConf>, ids: seq<nat>)
    ensures var ix := Indices(mods, ids);
      ix.Some? ==> |ix.value| == |ids|
                   && forall k :: 0 <= k < |ids| ==> ix.value[k] < |mods| && mods[ix.value[k]].id == ids[k]
  {
    if ids != [] {
      IndicesNameModules(mods, ids[..|ids| - 1]);
      IndexNames(mods, ids[|ids| - 1]);
    }
  }

  /**
    With unique ids and every module there: where the configuration says a flow leads are the modules that
    the first link with this id and this source names, in order, and nowhere if there is no such link or
    the id is 0.
   */
  lemma ConfiguredByIds(mods: seq<ModuleConf>, lcs: seq<LinkConf>, index: nat, id: nat)
    requires UniqueIds(mods) && index < |mods| && AllKnown(mods, lcs)
    ensures var ds := Configured(mods, lcs, index, id); var src := mods[index].id;
      if id == 0 then ds == []
      else
        || (ds == [] && forall k :: 0 <= k < |lcs| ==> !OwnLink(lcs[k], id, src))
        || (exists k :: 0 <= k < |lcs| && OwnLink(lcs[k], id, src)
                        && (forall j :: 0 <= j < k ==> !OwnLink(lcs[j], id, src))
                        && LeadsTo(ds, mods, lcs[k].dsts))
  {
    FirstLinkById(mods, lcs, index, id);
    var lc := FirstLink(mods, lcs, index, id);
    if id != LINK_NULL && lc.Some? {
      var src := mods[index].id;
      var k :| 0 <= k < |lcs| && lcs[k] == lc.value && OwnLink(lcs[k], id, src)
               && forall j :: 0 <= j < k ==> !OwnLink(lcs[j], id, src);
      assert LinkKnown(mods, lcs[k]);
      IndicesIff(mods, lcs[k].dsts);
      IndicesNameModules(mods, lcs[k].dsts);
      assert LeadsTo(Configured(mods, lcs, index, id), mods, lcs[k].dsts);
    }
  }

  /** These indices are those of the modules with these ids. */
  predicate LeadsTo(ds: seq<nat>, mods: seq<ModuleConf>, ids: seq<nat>) {
    |ds| == |ids| && forall k :: 0 <= k < |ids| ==> ds[k] < |mods| && mods[ds[k]].id == ids[k]
  }

  /** With unique ids, a flow that names only links of other modules leads nowhere. */
  lemma ForeignLinkLeadsNowhere(mods: seq<ModuleConf>, lcs: seq<LinkConf>, index: nat, id: nat)
    requires UniqueIds(mods) && index < |mods|
    requires forall k :: 0 <= k < |lcs| && lcs[k].id == id ==> lcs[k].src != mods[index].id
    ensures Configured(mods, lcs, index, id) == []
  {
    FirstLinkById(mods, lcs, index, id);
  }

  /** The module at each index has that index, and no two share an object. */
  ghost predicate Separate(modules: seq<FinsModule>)
    reads modules
  {
    && (forall i :: 0 <= i < |modules| ==> modules[i].index == i)
    && (forall i, j :: 0 <= i < j < |modules| ==> modules[i] != modules[j] && modules[i].flows != modules[j].flows)
  }

  /** Module i has the flows of its configuration, and each leads where the configuration says. */
  ghost predicate Follows(m: FinsModule, mods: seq<ModuleConf>, lcs: seq<LinkConf>, i: nat)
    requires i < |mods|
    reads m, m.flows, m.output
  {
    && m.Valid() && m.flowsNum == |mods[i].flows|
    && forall j :: 0 <= j < m.flowsNum ==> m.Leads(j) == Configured(mods, lcs, i, mods[i].flows[j])
  }

  /**
    The part of core_main that builds the module tables, the link list and the tables' links; the
    update messages are taken as delivered. false stands for the exits.
   */
  method StartUp(mods: seq<ModuleConf>, lcs: seq<LinkConf>, modules: seq<FinsModule>) returns (ok: bool)
    requires |modules| == |mods| <= MAX_MODULES && Separate(modules)
    requires forall i :: 0 <= i < |modules| ==> modules[i].Valid()
    requires forall i :: 0 <= i < |lcs| ==> |lcs[i].dsts| <= MAX_MODULES
    requires forall i :: 0 <= i < |mods| ==> |mods[i].flows| <= MAX_MOD_FLOWS
    modifies modules, set m | m in modules :: m.flows
    ensures ok <==>
      && (forall i :: 0 <= i < |mods| ==> |mods[i].flows| <= modules[i].flowsMax)
      && AllKnown(mods, lcs) && |lcs| <= MAX_TABLE_LINKS
    ensures ok ==> forall i :: 0 <= i < |modules| ==> Follows(modules[i], mods, lcs, i)
  {
    var mtList: seq<seq<nat>> := [];
    for i := 0 to |mods|
      invariant |mtList| == i && forall k :: 0 <= k < i ==> mtList[k] == mods[k].flows && |mtList[k]| <= modules[k].flowsMax
    {
      if modules[i].flowsMax < |mods[i].flows| { return false; }
      mtList := mtList + [mods[i].flows];
    }
    var records := BuildLinks(mods, lcs);
    if records.None? { return false; }
    ok := Distribute(mods, lcs, modules, records.value, mtList);
  }

  /** The loop that takes the tables off the list in the order of the modules. */
  method Distribute(mods: seq<ModuleConf>, lcs: seq<LinkConf>, modules: seq<FinsModule>,
                    records: seq<LinkRecord>, tables: seq<seq<nat>>) returns (ok: bool)
    requires |modules| == |mods| == |tables| && Separate(modules)
    requires forall i :: 0 <= i < |modules| ==> modules[i].Valid()
    requires forall i :: 0 <= i < |mods| ==> tables[i] == mods[i].flows && |mods[i].flows| <= modules[i].flowsMax
    requires ResolveAll(mods, lcs) == Some(Says(records))
    modifies modules, set m | m in modules :: m.flows
    ensures ok && forall i :: 0 <= i < |modules| ==> Follows(modules[i], mods, lcs, i)
  {
    var mtList := tables;
    for i := 0 to |modules|
      invariant mtList == tables[i..]
      invariant forall k :: 0 <= k < i ==> Follows(modules[k], mods, lcs, k)
      invariant forall k :: i <= k < |modules| ==> modules[k].Valid()
    {
      var mt := mtList[0];
      mtList := mtList[1..];
      StartModule(modules[i], records, mt);
      forall j | 0 <= j < |mt| ensures modules[i].Leads(j) == Configured(mods, lcs, i, mt[j]) {
        RoutedAsConfigured(mods, lcs, i, mt[j]);
      }
    }
    ok := true;
  }

  /**
    A send on a flow of a started module: one frame per destination of the configured link, second to
    last and then first, copies sharing nothing with the frame; nothing if there is no such link.
   */
  method SendAsConfigured(m: FinsModule, mods: seq<ModuleConf>, lcs: seq<LinkConf>, i: nat, ff: Frame, flow: nat)
    returns (ret: int, ghost sent: seq<Frame>)
    requires i < |mods| && Follows(m, mods, lcs, i) && ff.Valid() && flow < |mods[i].flows|
    modifies m.output, m.output.cells, ff`destinationID
    ensures Follows(m, mods, lcs, i) && m.Pending() == old(m.Pending()) + sent
    ensures var ds := Configured(mods, lcs, i, mods[i].flows[flow]);
      if ds == [] then ret == 0 && sent == []
      else if |old(m.Pending())| + |ds| > MAX_QUEUE_SIZE then ret == -1
      else ret == |ds| && Sent(sent, ds[1..] + [ds[0]], old(ContentOf(ff)))
  {
    assert m.Leads(flow) == Configured(mods, lcs, i, mods[i].flows[flow]);
    ret, sent := m.SendFlow(ff, flow);
  }
}
