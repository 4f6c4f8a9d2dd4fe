/** The closure validator as the source runs it, loop by loop, against `FailureCode`. */
module ClosureValidator {
  import opened Basics
  import opened WitCapability
  import opened ClosureWalk
  import opened WasmClosure

  lemma FirstOfStep<T>(s: seq<T>, code: T -> Option<string>, i: nat)
    requires i < |s| && FirstOf(s[..i], code).None?
    ensures FirstOf(s[..i + 1], code) == code(s[i])
    ensures code(s[i]).Some? ==> FirstOf(s, code) == code(s[i])
  {
    assert s[..i + 1][..i] == s[..i];
    if code(s[i]).Some? { FirstOfPrefix(s, code, i + 1); }
  }

  // ------------------------------------------------------------------ step 2

  method CheckGraph(g: Graph) returns (ok: bool)
    ensures ok <==> GraphOk(g)
  {
    var ids: set<string> := {};
    var i := 0;
    while i < |g.nodes|
      invariant 0 <= i <= |g.nodes|
      invariant ids == set k | 0 <= k < i :: g.nodes[k].id
      invariant forall k :: 0 <= k < i ==> g.nodes[k].id != ""
      invariant forall a, b :: 0 <= a < b < i ==> g.nodes[a].id != g.nodes[b].id
    {
      if g.nodes[i].id == "" || g.nodes[i].id in ids {
        return false;
      }
      ids := ids + {g.nodes[i].id};
      i := i + 1;
    }
    if g.entryNodeId !in ids {
      return false;
    }
    i := 0;
    while i < |g.edges|
      invariant 0 <= i <= |g.edges|
      invariant forall k :: 0 <= k < i ==> g.edges[k].source in ids && g.edges[k].target in ids
    {
      if g.edges[i].source !in ids || g.edges[i].target !in ids {
        return false;
      }
      i := i + 1;
    }
    ok := true;
  }

  // ------------------------------------------------------------------ step 3

  lemma TargetsStep(edges: seq<Edge>, i: nat, id: string)
    requires i < |edges|
    ensures Targets(edges[..i + 1], id) == Targets(edges[..i], id) + if edges[i].source == id then [edges[i].target]
            else []
  {
    assert edges[..i + 1][..i] == edges[..i];
  }

  lemma AllTargetsStep(edges: seq<Edge>, i: nat)
    requires i < |edges|
    ensures forall id :: Targets(edges[..i + 1], id) ==
              Targets(edges[..i], id) + if edges[i].source == id then [edges[i].target] else []
  {
    forall id ensures Targets(edges[..i + 1], id) ==
                      Targets(edges[..i], id) + if edges[i].source == id then [edges[i].target] else [] {
      TargetsStep(edges, i, id);
    }
  }

  method EmptyAdjacency(nodes: seq<Node>) returns (adjacency: Adjacency)
    ensures adjacency.Keys == Ids(nodes) && forall id :: id in adjacency ==> adjacency[id] == []
  {
    adjacency := map[];
    var i := 0;
    while i < |nodes|
      invariant 0 <= i <= |nodes|
      invariant adjacency.Keys == set k | 0 <= k < i :: nodes[k].id
      invariant forall id :: id in adjacency ==> adjacency[id] == []
    {
      adjacency := adjacency[nodes[i].id := []];
      i := i + 1;
    }
  }

  method BuildAdjacency(g: Graph) returns (adjacency: Adjacency)
    requires GraphOk(g)
    ensures adjacency == AdjacencyOf(g)
  {
    adjacency := EmptyAdjacency(g.nodes);
    var i := 0;
    while i < |g.edges|
      invariant 0 <= i <= |g.edges|
      invariant adjacency.Keys == Ids(g.nodes)
      invariant forall id :: id in adjacency ==> adjacency[id] == Targets(g.edges[..i], id)
    {
      var edge := g.edges[i];
      AllTargetsStep(g.edges, i);
      if edge.source in adjacency {
        adjacency := adjacency[edge.source := adjacency[edge.source] + [edge.target]];
      }
      i := i + 1;
    }
    assert g.edges[..|g.edges|] == g.edges;
  }

  method CheckStructure(g: Graph, m: Matrix) returns (code: Option<string>)
    ensures code == StructureCode(g, m)
  {
    if g.world != m.world {
      return Some(WASM_WORLD_UNSUPPORTED);
    }
    if g.hostABI != m.hostABI {
      return Some(WASM_HOST_ABI_MISMATCH);
    }
    var fine := CheckGraph(g);
    if !fine {
      return Some(WASM_CLOSURE_GRAPH_INVALID);
    }
    if |g.nodes| > g.budget.maxNodes || |g.edges| > g.budget.maxEdges {
      return Some(WASM_CLOSURE_BUDGET_EXCEEDED);
    }
    var adjacency := BuildAdjacency(g);
    AdjacencyIsClosed(g);
    var walker := new Walker(adjacency);
    var acyclic := walker.HasNoCycle(g.entryNodeId, 1);
    if !acyclic {
      return Some(WASM_CLOSURE_CYCLE);
    }
    if walker.maxDepth > g.budget.maxDepth {
      return Some(WASM_CLOSURE_BUDGET_EXCEEDED);
    }
    code := None;
  }

  // ------------------------------------------------------------------ step 4

  method Uncovered(raw: seq<string>, translated: set<string>, bound: seq<string>) returns (found: bool)
    ensures found <==> !AllCovered(raw, translated, bound)
  {
    var k := 0;
    while k < |raw|
      invariant 0 <= k <= |raw|
      invariant forall x :: 0 <= x < k ==> raw[x] in translated || raw[x] in bound
    {
      if raw[k] !in translated && raw[k] !in bound {
        return true;
      }
      k := k + 1;
    }
    found := false;
  }

  method CollectTranslations(nodes: seq<Node>) returns (translated: set<string>)
    ensures translated == Translated(nodes)
  {
    translated := {};
    var i := 0;
    while i < |nodes|
      invariant 0 <= i <= |nodes|
      invariant translated == set a, b | 0 <= a < i
                && 0 <= b < |nodes[a].adapterTranslations| :: nodes[a].adapterTranslations[b]
    {
      translated := translated + set b | 0 <= b < |nodes[i].adapterTranslations| :: nodes[i].adapterTranslations[b];
      i := i + 1;
    }
  }

  method CheckRawImports(g: Graph) returns (code: Option<string>)
    ensures code == FirstRawCode(g.nodes, Translated(g.nodes))
  {
    var translated := CollectTranslations(g.nodes);
    ghost var rule := (n: Node) => RawCode(n, translated);
    var i := 0;
    while i < |g.nodes|
      invariant 0 <= i <= |g.nodes|
      invariant FirstOf(g.nodes[..i], rule).None?
    {
      var node := g.nodes[i];
      FirstOfStep(g.nodes, rule, i);
      if node.kind == CoreModule {
        var bad := Uncovered(node.rawImports, translated, node.instanceBoundImports);
        if bad {
          return Some(WASM_IMPORT_UNMAPPABLE);
        }
      } else if node.kind == Adapter {
        var bad := Uncovered(node.rawImports, translated, []);
        if bad {
          return Some(WASM_ADAPTER_EXTERNAL_IMPORT);
        }
      }
      i := i + 1;
    }
    assert g.nodes[..i] == g.nodes;
    code := None;
  }

  // ------------------------------------------------------------------ step 5

  lemma OffersInStep(es: seq<Occurrence>, k: nat, exporter: string, wanted: Occurrence)
    requires k < |es|
    ensures OffersIn(es[..k + 1], exporter, wanted) ==
            OffersIn(es[..k], exporter, wanted) + if IsOffer(es[k], wanted) then [OfferOf(es[k], exporter)] else []
  {
    assert es[..k + 1][..k] == es[..k];
  }

  lemma OffersStep(nodes: seq<Node>, i: nat, importer: string, wanted: Occurrence)
    requires i < |nodes|
    ensures Offers(nodes[..i + 1], importer, wanted) ==
            Offers(nodes[..i], importer, wanted) + if nodes[i].id == importer then []
              else OffersIn(nodes[i].interfaces, nodes[i].id, wanted)
  {
    assert nodes[..i + 1][..i] == nodes[..i];
  }

  lemma ProvidersStep(offers: seq<Offer>, o: Offer, importer: string)
    ensures Providers(offers + [o], importer) ==
            var before := Providers(offers, importer);
            if o.providerId == importer || o.providerId in before then before else before[o.providerId := o.typeTag]
  {
    assert (offers + [o])[..|offers|] == offers;
  }

  lemma {:induction false} OffersGrow(nodes: seq<Node>, i: nat, importer: string, wanted: Occurrence)
    requires i <= |nodes|
    ensures Offers(nodes[..i], importer, wanted) <= Offers(nodes, importer, wanted)
    decreases |nodes| - i
  {
    if i < |nodes| {
      OffersStep(nodes, i, importer, wanted);
      OffersGrow(nodes, i + 1, importer, wanted);
    } else {
      assert nodes[..i] == nodes;
    }
  }

  lemma {:induction false} OffersInGrow(es: seq<Occurrence>, k: nat, exporter: string, wanted: Occurrence)
    requires k <= |es|
    ensures OffersIn(es[..k], exporter, wanted) <= OffersIn(es, exporter, wanted)
    decreases |es| - k
  {
    if k < |es| {
      OffersInStep(es, k, exporter, wanted);
      OffersInGrow(es, k + 1, exporter, wanted);
    } else {
      assert es[..k] == es;
    }
  }

  lemma BadPrefix(ids: set<string>, importer: string, prefix: seq<Offer>, all: seq<Offer>)
    requires prefix <= all && !NoBadOffer(ids, importer, prefix)
    ensures !NoBadOffer(ids, importer, all)
  {
    var i :| 0 <= i < |prefix| && BadOffer(ids, importer, prefix[i]);
    assert all[i] == prefix[i];
  }

  /** One occurrence more: the offer it makes, if any, joins the list. */
  function OffersWith(offers: seq<Offer>, es: seq<Occurrence>, exporter: string, wanted: Occurrence): seq<Offer> {
    offers + OffersIn(es, exporter, wanted)
  }

  lemma OffersWithStep(offers: seq<Offer>, es: seq<Occurrence>, k: nat, exporter: string, wanted: Occurrence)
    requires k < |es|
    ensures var now := OffersWith(offers, es[..k], exporter, wanted);
            OffersWith(offers, es[..k + 1], exporter, wanted) == if IsOffer(es[k], wanted)
              then now + [OfferOf(es[k], exporter)] else now
    ensures OffersWith(offers, es[..k + 1], exporter, wanted) <= OffersWith(offers, es, exporter, wanted)
  {
    OffersInStep(es, k, exporter, wanted);
    OffersInGrow(es, k + 1, exporter, wanted);
  }

  lemma OneMoreOffer(ids: set<string>, importer: string, offers: seq<Offer>, o: Offer)
    requires NoBadOffer(ids, importer, offers)
    ensures NoBadOffer(ids, importer, offers + [o]) <==> !BadOffer(ids, importer, o)
  {
    assert (offers + [o])[|offers|] == o;
  }

  /** One exporting node: records each new provider, or meets a bad offer. */
  method ScanExporter(
    ids: set<string>, exporter: Node, importer: string, wanted: Occurrence,
    ghost offers: seq<Offer>, before: map<string, string>) returns (bad: bool, providers: map<string, string>)
    requires before == Providers(offers, importer) && NoBadOffer(ids, importer, offers)
    ensures bad <==> !NoBadOffer(ids, importer, OffersWith(offers, exporter.interfaces, exporter.id, wanted))
    ensures !bad ==> providers == Providers(OffersWith(offers, exporter.interfaces, exporter.id, wanted), importer)
  {
    providers := before;
    bad := false;
    ghost var all := OffersWith(offers, exporter.interfaces, exporter.id, wanted);
    assert offers + [] == offers;
    ghost var now := offers;
    var k := 0;
    while k < |exporter.interfaces|
      invariant 0 <= k <= |exporter.interfaces|
      invariant now == OffersWith(offers, exporter.interfaces[..k], exporter.id, wanted)
      invariant NoBadOffer(ids, importer, now) && providers == Providers(now, importer)
    {
      OffersWithStep(offers, exporter.interfaces, k, exporter.id, wanted);
      if IsOffer(exporter.interfaces[k], wanted) {
        var offer := OfferOf(exporter.interfaces[k], exporter.id);
        bad, providers := TakeOffer(ids, importer, offer, now, all, providers);
        if bad {
          return;
        }
        now := now + [offer];
      }
      k := k + 1;
    }
    assert exporter.interfaces[..k] == exporter.interfaces;
  }

  /** One offer more: rejected, passed over, or recorded for a new provider. */
  method TakeOffer(
    ids: set<string>, importer: string, offer: Offer, ghost now: seq<Offer>, ghost all: seq<Offer>,
    before: map<string, string>)
    returns (bad: bool, providers: map<string, string>)
    requires NoBadOffer(ids, importer, now) && before == Providers(now, importer) && now + [offer] <= all
    ensures bad ==> !NoBadOffer(ids, importer, all)
    ensures !bad ==> NoBadOffer(ids, importer, now + [offer])
    ensures providers == Providers(now + [offer], importer)
  {
    OneMoreOffer(ids, importer, now, offer);
    ProvidersStep(now, offer, importer);
    bad := BadOffer(ids, importer, offer);
    if bad { BadPrefix(ids, importer, now + [offer], all); }
    providers := before;
    if offer.providerId != importer && offer.providerId !in providers {
      providers := providers[offer.providerId := offer.typeTag];
    }
  }

  method CollectProviders(g: Graph, importer: string, wanted: Occurrence)
      returns (bad: bool, providers: map<string, string>)
    ensures bad <==> !NoBadOffer(Ids(g.nodes), importer, Offers(g.nodes, importer, wanted))
    ensures !bad ==> providers == Providers(Offers(g.nodes, importer, wanted), importer)
  {
    providers := map[];
    bad := false;
    ghost var now: seq<Offer> := [];
    var i := 0;
    while i < |g.nodes|
      invariant 0 <= i <= |g.nodes| && now == Offers(g.nodes[..i], importer, wanted)
      invariant NoBadOffer(Ids(g.nodes), importer, now) && providers == Providers(now, importer)
    {
      OffersNow(g.nodes, i, importer, wanted);
      if g.nodes[i].id != importer {
        bad, providers := ScanExporter(Ids(g.nodes), g.nodes[i], importer, wanted, now, providers);
        now := OffersWith(now, g.nodes[i].interfaces, g.nodes[i].id, wanted);
        if bad {
          BadPrefix(Ids(g.nodes), importer, now, Offers(g.nodes, importer, wanted));
          return;
        }
      }
      i := i + 1;
    }
    assert g.nodes[..i] == g.nodes;
  }

  lemma OffersNow(nodes: seq<Node>, i: nat, importer: string, wanted: Occurrence)
    requires i < |nodes|
    ensures var now := Offers(nodes[..i], importer, wanted);
            Offers(nodes[..i + 1], importer, wanted) ==
            if nodes[i].id == importer then now else OffersWith(now, nodes[i].interfaces, nodes[i].id, wanted)
    ensures Offers(nodes[..i + 1], importer, wanted) <= Offers(nodes, importer, wanted)
  {
    OffersStep(nodes, i, importer, wanted);
    OffersGrow(nodes, i + 1, importer, wanted);
  }

  /** One occurrence: its code, and whether it is asked of the host. */
  method CheckOccurrence(g: Graph, m: Matrix, importer: string, e: Occurrence)
      returns (code: Option<string>, asked: bool)
    ensures code == OccurrenceCode(g, m, importer, e)
    ensures code.None? ==> (asked <==> AsksHost(g, importer, e))
  {
    asked := false;
    if !GrammarOk(e) {
      return Some(WASM_IMPORT_UNMAPPABLE), asked;
    }
    var direction := DirectionCode(e);
    if direction.Some? {
      return direction, asked;
    }
    if e.direction != Import {
      return None, asked;
    }
    var bad, providers := CollectProviders(g, importer, e);
    if bad {
      return Some(WASM_CLOSURE_GRAPH_INVALID), asked;
    }
    if providers != map[] {
      if !AllOfType(providers, e.typeTag) {
        return Some(WASM_INTERNAL_TYPE_MISMATCH), asked;
      }
      if |providers| > 1 {
        return Some(WASM_IMPORT_AMBIGUOUS), asked;
      }
      return None, asked;
    }
    asked := true;
    code := ClassifyWasmHostImport(m, e.package, e.iface);
  }

  /** The discovered capabilities in order of discovery, and their keys. */
  ghost predicate Keyed(keys: set<string>, found: seq<Capability>) {
    && NoDuplicates(found)
    && (forall c :: c in found ==> IsIdentityText(c.package) && c.direction == Import && WasmCapabilityKey(c) in keys)
    && forall k :: k in keys ==> exists c :: c in found && WasmCapabilityKey(c) == k
  }

  lemma KeyedAdd(keys: set<string>, found: seq<Capability>, c: Capability)
    requires Keyed(keys, found) && IsIdentityText(c.package) && c.direction == Import
    ensures WasmCapabilityKey(c) in keys ==> c in found
    ensures WasmCapabilityKey(c) !in keys ==> Keyed(keys + {WasmCapabilityKey(c)}, found + [c]) && c !in found
  {
    if WasmCapabilityKey(c) in keys {
      var d :| d in found && WasmCapabilityKey(d) == WasmCapabilityKey(c);
      CapabilityKeyInjective(c, d);
    } else {
      var more := found + [c];
      forall k | k in keys + {WasmCapabilityKey(c)} ensures exists d :: d in more && WasmCapabilityKey(d) == k {
        if k in keys {
          var d :| d in found && WasmCapabilityKey(d) == k;
          assert d in more;
        } else {
          assert c in more;
        }
      }
    }
  }

  /** Setting a key of the insertion-ordered map: a known key keeps its place. */
  method Discover(keysBefore: set<string>, foundBefore: seq<Capability>, c: Capability)
    returns (keys: set<string>, found: seq<Capability>)
    requires Keyed(keysBefore, foundBefore) && IsIdentityText(c.package) && c.direction == Import
    ensures Keyed(keys, found) && SetOf(found) == SetOf(foundBefore) + {c}
  {
    keys, found := keysBefore, foundBefore;
    KeyedAdd(keys, found, c);
    if WasmCapabilityKey(c) !in keys {
      keys, found := keys + {WasmCapabilityKey(c)}, found + [c];
    }
  }

  lemma AskedIsIdentity(g: Graph, m: Matrix, importer: string, e: Occurrence)
    requires OccurrenceCode(g, m, importer, e).None?
    ensures IsIdentityText(e.package)
  {
  }

  lemma DiscoveredInStep(g: Graph, id: string, es: seq<Occurrence>, k: nat)
    requires k < |es|
    ensures DiscoveredIn(g, id, es[..k + 1]) ==
            DiscoveredIn(g, id, es[..k]) + if AsksHost(g, id, es[k])
              then {Capability(es[k].package, es[k].iface, Import)} else {}
  {
    assert es[..k + 1][..k] == es[..k];
  }

  lemma DiscoveredStep(g: Graph, i: nat)
    requires i < |g.nodes|
    ensures Discovered(g, g.nodes[..i + 1]) == Discovered(g, g.nodes[..i])
            + DiscoveredIn(g, g.nodes[i].id, g.nodes[i].interfaces)
  {
    assert g.nodes[..i + 1][..i] == g.nodes[..i];
  }

  /** The first `k` occurrences of a node passed, and these are their discoveries. */
  ghost predicate NodeProgress(
    g: Graph, m: Matrix, node: Node, k: nat, keys: set<string>, found: seq<Capability>, before: set<Capability>)
    requires k <= |node.interfaces|
  {
    && FirstOf(node.interfaces[..k], (e: Occurrence) => OccurrenceCode(g, m, node.id, e)).None?
    && Keyed(keys, found) && SetOf(found) == before + DiscoveredIn(g, node.id, node.interfaces[..k])
  }

  lemma NodeStep(g: Graph, m: Matrix, node: Node, k: nat, keys: set<string>, found: seq<Capability>,
                 before: set<Capability>)
    requires k < |node.interfaces| && NodeProgress(g, m, node, k, keys, found, before)
    ensures var e := node.interfaces[k];
            && (OccurrenceCode(g, m, node.id, e).Some? ==> NodeCode(g, m, node) == OccurrenceCode(g, m, node.id, e))
            && (OccurrenceCode(g, m, node.id, e).None? && !AsksHost(g, node.id, e) ==>
                  NodeProgress(g, m, node, k + 1, keys, found, before))
  {
    FirstOfStep(node.interfaces, (e: Occurrence) => OccurrenceCode(g, m, node.id, e), k);
    DiscoveredInStep(g, node.id, node.interfaces, k);
  }

  lemma NodeDiscovers(
    g: Graph, m: Matrix, node: Node, k: nat, keys: set<string>, found: seq<Capability>, before: set<Capability>,
    newKeys: set<string>, newFound: seq<Capability>)
    requires k < |node.interfaces| && NodeProgress(g, m, node, k, keys, found, before)
    requires OccurrenceCode(g, m, node.id, node.interfaces[k]).None? && AsksHost(g, node.id, node.interfaces[k])
    requires Keyed(newKeys, newFound)
    requires SetOf(newFound) == SetOf(found)
             + {Capability(node.interfaces[k].package, node.interfaces[k].iface, Import)}
    ensures NodeProgress(g, m, node, k + 1, newKeys, newFound, before)
  {
    FirstOfStep(node.interfaces, (e: Occurrence) => OccurrenceCode(g, m, node.id, e), k);
    DiscoveredInStep(g, node.id, node.interfaces, k);
  }

  method CheckNode(g: Graph, m: Matrix, node: Node, keysBefore: set<string>, foundBefore: seq<Capability>)
    returns (code: Option<string>, keys: set<string>, found: seq<Capability>)
    requires Keyed(keysBefore, foundBefore)
    ensures code == NodeCode(g, m, node)
    ensures code.None? ==>
              Keyed(keys, found) && SetOf(found) == SetOf(foundBefore) + DiscoveredIn(g, node.id, node.interfaces)
  {
    keys, found := keysBefore, foundBefore;
    var k := 0;
    while k < |node.interfaces|
      invariant 0 <= k <= |node.interfaces|
      invariant NodeProgress(g, m, node, k, keys, found, SetOf(foundBefore))
    {
      NodeStep(g, m, node, k, keys, found, SetOf(foundBefore));
      var asked;
      code, asked := CheckOccurrence(g, m, node.id, node.interfaces[k]);
      if code.Some? {
        return;
      }
      if asked {
        AskedIsIdentity(g, m, node.id, node.interfaces[k]);
        var newKeys, newFound :=
            Discover(keys, found, Capability(node.interfaces[k].package, node.interfaces[k].iface, Import));
        NodeDiscovers(g, m, node, k, keys, found, SetOf(foundBefore), newKeys, newFound);
        keys, found := newKeys, newFound;
      }
      k := k + 1;
    }
    assert node.interfaces[..k] == node.interfaces;
    code := None;
  }

  method CheckOccurrences(g: Graph, m: Matrix) returns (code: Option<string>, found: seq<Capability>)
    ensures code == FirstCode(g, m, g.nodes)
    ensures code.None? ==> NoDuplicates(found) && SetOf(found) == Discovered(g, g.nodes)
  {
    var keys: set<string> := {};
    found := [];
    ghost var rule := (n: Node) => NodeCode(g, m, n);
    var i := 0;
    while i < |g.nodes|
      invariant 0 <= i <= |g.nodes|
      invariant FirstOf(g.nodes[..i], rule).None?
      invariant Keyed(keys, found) && SetOf(found) == Discovered(g, g.nodes[..i])
    {
      FirstOfStep(g.nodes, rule, i);
      DiscoveredStep(g, i);
      code, keys, found := CheckNode(g, m, g.nodes[i], keys, found);
      if code.Some? {
        return;
      }
      i := i + 1;
    }
    assert g.nodes[..i] == g.nodes;
    code := None;
  }

  // ------------------------------------------------------------------ steps 6 and 7

  method CheckRootExport(g: Graph, m: Matrix) returns (ok: bool)
    requires GraphOk(g)
    ensures ok <==> EntryExportsOk(g, m)
  {
    var i := 0;
    while g.nodes[i].id != g.entryNodeId
      invariant 0 <= i < |g.nodes|
      invariant forall k :: 0 <= k < i ==> g.nodes[k].id != g.entryNodeId
      decreases |g.nodes| - i
    {
      i := i + 1;
    }
    var es := g.nodes[i].interfaces;
    var keys: set<string> := {};
    var k := 0;
    while k < |es|
      invariant 0 <= k <= |es|
      invariant keys == set x | 0 <= x < k && es[x].direction == Export :: WasmInterfaceKey(es[x].package, es[x].iface)
    {
      if es[k].direction == Export {
        keys := keys + {WasmInterfaceKey(es[k].package, es[k].iface)};
      }
      k := k + 1;
    }
    ok := keys == {WasmInterfaceKey(m.requiredRootExport.package, m.requiredRootExport.iface)};
  }

  lemma KeysOfStep(declared: seq<Capability>, i: nat)
    requires i < |declared|
    ensures KeysOf(declared[..i + 1]) == KeysOf(declared[..i]) + {WasmCapabilityKey(declared[i])}
  {
    assert forall k :: 0 <= k < i ==> declared[..i + 1][k] == declared[k] && declared[..i][k] == declared[k];
    assert declared[..i + 1][i] == declared[i];
  }

  lemma KeyStaysDistinct(declared: seq<Capability>, i: nat)
    requires i < |declared| && DistinctKeys(declared[..i])
    ensures WasmCapabilityKey(declared[i]) !in KeysOf(declared[..i]) ==> DistinctKeys(declared[..i + 1])
    ensures WasmCapabilityKey(declared[i]) in KeysOf(declared[..i]) ==> !DistinctKeys(declared)
  {
    assert forall k :: 0 <= k < i ==> declared[..i + 1][k] == declared[k] && declared[..i][k] == declared[k];
    assert declared[..i + 1][i] == declared[i];
    assert forall k :: 0 <= k < i ==> WasmCapabilityKey(declared[..i][k]) in KeysOf(declared[..i]);
  }

  lemma AllAreStep<T>(s: seq<T>, ok: T -> bool, i: nat)
    requires i < |s| && AllAre(s[..i], ok)
    ensures ok(s[i]) ==> AllAre(s[..i + 1], ok)
    ensures !ok(s[i]) ==> !AllAre(s, ok)
  {
    assert forall k :: 0 <= k < i ==> s[..i + 1][k] == s[..i][k];
    assert s[..i + 1][i] == s[i];
  }

  predicate WellDeclared(m: Matrix, declared: seq<Capability>) { ShapesValid(m, declared) && DistinctKeys(declared) }

  lemma DeclarationStep(m: Matrix, declared: seq<Capability>, i: nat)
    requires i < |declared| && WellDeclared(m, declared[..i])
    ensures if WasmCapabilityKey(declared[i]) in KeysOf(declared[..i]) || !ShapeValid(m, declared[i])
            then !WellDeclared(m, declared) else WellDeclared(m, declared[..i + 1])
  {
    KeyStaysDistinct(declared, i);
    AllAreStep(declared, (c: Capability) => ShapeValid(m, c), i);
  }

  method DeclareOne(m: Matrix, declared: seq<Capability>, i: nat, before: set<string>)
      returns (ok: bool, keys: set<string>)
    requires i < |declared| && WellDeclared(m, declared[..i]) && before == KeysOf(declared[..i]) && |before| == i
    ensures if ok then WellDeclared(m, declared[..i + 1]) && keys == KeysOf(declared[..i + 1]) && |keys| == i + 1
            else !WellDeclared(m, declared)
  {
    KeysOfStep(declared, i);
    DeclarationStep(m, declared, i);
    keys := before + {WasmCapabilityKey(declared[i])};
    ok := WasmCapabilityKey(declared[i]) !in before && ShapeValid(m, declared[i]);
  }

  method CollectDeclarations(m: Matrix, declared: seq<Capability>) returns (ok: bool, keys: set<string>)
    ensures ok <==> WellDeclared(m, declared)
    ensures ok ==> |keys| == |declared| && keys == KeysOf(declared)
  {
    keys := {};
    var i := 0;
    while i < |declared|
      invariant 0 <= i <= |declared|
      invariant keys == KeysOf(declared[..i]) && |keys| == i
      invariant WellDeclared(m, declared[..i])
    {
      ok, keys := DeclareOne(m, declared, i, keys);
      if !ok {
        return;
      }
      i := i + 1;
    }
    assert declared[..i] == declared;
    ok := true;
  }

  method FindUndeclared(found: seq<Capability>, keys: set<string>) returns (ok: bool)
    ensures ok <==> AllDeclared(SetOf(found), keys)
  {
    var i := 0;
    while i < |found|
      invariant 0 <= i <= |found|
      invariant forall k :: 0 <= k < i ==> WasmCapabilityKey(found[k]) in keys
    {
      if WasmCapabilityKey(found[i]) !in keys {
        assert found[i] in SetOf(found);
        return false;
      }
      i := i + 1;
    }
    ok := true;
  }

  method CheckDeclarations(m: Matrix, declared: seq<Capability>, found: seq<Capability>) returns (ok: bool)
    requires NoDuplicates(found)
    ensures ok <==> DeclaredOk(m, declared, SetOf(found))
  {
    SetOfSize(found);
    var keys;
    ok, keys := CollectDeclarations(m, declared);
    if !ok || |keys| != |found| {
      return false;
    }
    ok := FindUndeclared(found, keys);
  }

  // ------------------------------------------------------------------ the validator

  /** Rejected with the first failing step's code, or accepted with the discovered imports
      as a sorted list without duplicates. */
  method ValidateWasmCapabilityClosure(g: Graph, m: Matrix) returns (r: Validation)
    ensures r.Rejected? <==> FailureCode(g, m).Some?
    ensures r.Rejected? ==> FailureCode(g, m) == Some(r.code)
    ensures r.Accepted? ==> SortedCapabilities(r.discovered) && SetOf(r.discovered) == Discovered(g, g.nodes)
  {
    var structure := CheckStructure(g, m);
    if structure.Some? {
      return Rejected(structure.value);
    }
    var raw := CheckRawImports(g);
    if raw.Some? {
      return Rejected(raw.value);
    }
    var code, found := CheckOccurrences(g, m);
    if code.Some? {
      return Rejected(code.value);
    }
    var exported := CheckRootExport(g, m);
    if !exported {
      return Rejected(WASM_EXPORT_MISMATCH);
    }
    var declared := CheckDeclarations(m, g.declaredHostImports, found);
    if !declared {
      return Rejected(WASM_DECLARATION_MISMATCH);
    }
    SortedResult(found);
    r := Accepted(SortWasmCapabilityIds(found));
  }
}
