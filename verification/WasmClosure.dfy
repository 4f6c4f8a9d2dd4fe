/** The interface-level closure validator: which graphs it accepts, and with which code it
    rejects the others. */
module WasmClosure {
  import opened Basics
  import opened WitCapability
  import opened ClosureWalk

  const WASM_WORLD_UNSUPPORTED := "WASM_WORLD_UNSUPPORTED"
  const WASM_HOST_ABI_MISMATCH := "WASM_HOST_ABI_MISMATCH"
  const WASM_CLOSURE_GRAPH_INVALID := "WASM_CLOSURE_GRAPH_INVALID"
  const WASM_CLOSURE_BUDGET_EXCEEDED := "WASM_CLOSURE_BUDGET_EXCEEDED"
  const WASM_CLOSURE_CYCLE := "WASM_CLOSURE_CYCLE"
  const WASM_IMPORT_UNMAPPABLE := "WASM_IMPORT_UNMAPPABLE"
  const WASM_ADAPTER_EXTERNAL_IMPORT := "WASM_ADAPTER_EXTERNAL_IMPORT"
  const WASM_INTERNAL_TYPE_MISMATCH := "WASM_INTERNAL_TYPE_MISMATCH"
  const WASM_IMPORT_AMBIGUOUS := "WASM_IMPORT_AMBIGUOUS"
  const WASM_EXPORT_MISMATCH := "WASM_EXPORT_MISMATCH"
  const WASM_DECLARATION_MISMATCH := "WASM_DECLARATION_MISMATCH"
  const IWEB_SECRET_WIT_DIRECTION_INVALID := "IWEB_SECRET_WIT_DIRECTION_INVALID"
  const IWEB_CONFIG_WIT_DIRECTION_INVALID := "IWEB_CONFIG_WIT_DIRECTION_INVALID"

  datatype Occurrence = Occurrence(
    package: string,
    iface: string,
    direction: Direction,
    typeTag: string,
    providerAlias: Option<string>)

  datatype Kind = Component | CoreModule | Adapter

  datatype Node = Node(
    id: string,
    kind: Kind,
    interfaces: seq<Occurrence>,
    rawImports: seq<string>,
    instanceBoundImports: seq<string>,
    adapterTranslations: seq<string>)

  datatype Edge = Edge(source: string, target: string)

  datatype Budget = Budget(maxNodes: int, maxEdges: int, maxDepth: int)

  datatype Graph = Graph(
    world: string,
    hostABI: string,
    entryNodeId: string,
    nodes: seq<Node>,
    edges: seq<Edge>,
    declaredHostImports: seq<Capability>,
    budget: Budget)

  datatype Validation = Accepted(discovered: seq<Capability>) | Rejected(code: string)

  // ------------------------------------------------------------------ the graph itself

  function Ids(nodes: seq<Node>): set<string> {
    set i | 0 <= i < |nodes| :: nodes[i].id
  }

  predicate IdsOk(nodes: seq<Node>) {
    && (forall i :: 0 <= i < |nodes| ==> nodes[i].id != "")
    && forall i, k :: 0 <= i < k < |nodes| ==> nodes[i].id != nodes[k].id
  }

  predicate GraphOk(g: Graph) {
    && IdsOk(g.nodes) && g.entryNodeId in Ids(g.nodes)
    && forall i :: 0 <= i < |g.edges| ==> g.edges[i].source in Ids(g.nodes) && g.edges[i].target in Ids(g.nodes)
  }

  function Targets(edges: seq<Edge>, id: string): seq<string> {
    if edges == [] then []
    else
      var last := edges[|edges| - 1];
      Targets(edges[..|edges| - 1], id) + if last.source == id then [last.target] else []
  }

  lemma {:induction false} TargetsAreEdges(edges: seq<Edge>, id: string, t: string)
    ensures t in Targets(edges, id) <==> Edge(id, t) in edges
  {
    if edges != [] {
      TargetsAreEdges(edges[..|edges| - 1], id, t);
      assert edges == edges[..|edges| - 1] + [edges[|edges| - 1]];
    }
  }

  function AdjacencyOf(g: Graph): Adjacency {
    map id | id in Ids(g.nodes) :: Targets(g.edges, id)
  }

  lemma AdjacencyIsClosed(g: Graph)
    requires GraphOk(g)
    ensures Closed(AdjacencyOf(g)) && g.entryNodeId in AdjacencyOf(g)
  {
    var adj := AdjacencyOf(g);
    forall n, i | n in adj && 0 <= i < |adj[n]| ensures adj[n][i] in adj {
      TargetsAreEdges(g.edges, n, adj[n][i]);
      assert adj[n][i] in Targets(g.edges, n);
      var e :| 0 <= e < |g.edges| && g.edges[e] == Edge(n, adj[n][i]);
    }
  }

  // ------------------------------------------------------------------ first failures

  /** The code of the first element that has one. */
  function FirstOf<T>(s: seq<T>, code: T -> Option<string>): Option<string> {
    if s == [] then None
    else
      var before := FirstOf(s[..|s| - 1], code);
      if before.Some? then before else code(s[|s| - 1])
  }

  lemma {:induction false} FirstOfIsFirst<T>(s: seq<T>, code: T -> Option<string>)
    ensures FirstOf(s, code).None? <==> forall i :: 0 <= i < |s| ==> code(s[i]).None?
    ensures FirstOf(s, code).Some? ==>
              exists i :: 0 <= i < |s| && code(s[i]) == FirstOf(s, code) && forall k :: 0 <= k < i ==> code(s[k]).None?
  {
    if s != [] {
      var m := |s| - 1;
      FirstOfIsFirst(s[..m], code);
      assert forall i :: 0 <= i < m ==> s[..m][i] == s[i];
    }
  }

  lemma {:induction false} FirstOfPrefix<T>(s: seq<T>, code: T -> Option<string>, n: nat)
    requires n <= |s| && FirstOf(s[..n], code).Some?
    ensures FirstOf(s, code) == FirstOf(s[..n], code)
    decreases |s| - n
  {
    if n < |s| {
      assert s[..n + 1][..n] == s[..n];
      FirstOfPrefix(s, code, n + 1);
    } else {
      assert s[..n] == s;
    }
  }

  // ------------------------------------------------------------------ raw imports

  function Translated(nodes: seq<Node>): set<string> {
    set i, k | 0 <= i < |nodes| && 0 <= k < |nodes[i].adapterTranslations| :: nodes[i].adapterTranslations[k]
  }

  predicate AllCovered(raw: seq<string>, translated: set<string>, bound: seq<string>) {
    forall k :: 0 <= k < |raw| ==> raw[k] in translated || raw[k] in bound
  }

  function RawCode(node: Node, translated: set<string>): Option<string> {
    if node.kind == CoreModule && !AllCovered(node.rawImports, translated, node.instanceBoundImports)
    then Some(WASM_IMPORT_UNMAPPABLE)
    else if node.kind == Adapter && !AllCovered(node.rawImports, translated, [])
    then Some(WASM_ADAPTER_EXTERNAL_IMPORT)
    else None
  }

  function FirstRawCode(nodes: seq<Node>, translated: set<string>): Option<string> {
    FirstOf(nodes, (n: Node) => RawCode(n, translated))
  }

  // ------------------------------------------------------------------ providers

  /** An export of the wanted interface: who provides it, with which type. */
  datatype Offer = Offer(providerId: string, typeTag: string)

  predicate IsOffer(e: Occurrence, wanted: Occurrence) {
    e.direction == Export && e.package == wanted.package && e.iface == wanted.iface
  }

  /** A re-export stands for the original provider. */
  function OfferOf(e: Occurrence, exporter: string): Offer {
    Offer(if e.providerAlias.Some? then e.providerAlias.value else exporter, e.typeTag)
  }

  function OffersIn(es: seq<Occurrence>, exporter: string, wanted: Occurrence): seq<Offer> {
    if es == [] then []
    else
      var last := es[|es| - 1];
      OffersIn(es[..|es| - 1], exporter, wanted) + if IsOffer(last, wanted) then [OfferOf(last, exporter)] else []
  }

  /** All offers of the other nodes, in node order and then in order of occurrence. */
  function Offers(nodes: seq<Node>, importer: string, wanted: Occurrence): seq<Offer> {
    if nodes == [] then []
    else
      var last := nodes[|nodes| - 1];
      Offers(nodes[..|nodes| - 1], importer, wanted) + if last.id == importer then []
        else OffersIn(last.interfaces, last.id, wanted)
  }

  predicate BadOffer(ids: set<string>, importer: string, o: Offer) {
    o.typeTag == "" || (o.providerId != importer && o.providerId !in ids)
  }

  predicate NoBadOffer(ids: set<string>, importer: string, offers: seq<Offer>) {
    forall i :: 0 <= i < |offers| ==> !BadOffer(ids, importer, offers[i])
  }

  /** The provider map: the first type recorded for a provider stays. */
  function Providers(offers: seq<Offer>, importer: string): map<string, string> {
    if offers == [] then map[]
    else
      var last := offers[|offers| - 1];
      var before := Providers(offers[..|offers| - 1], importer);
      if last.providerId == importer || last.providerId in before then before
      else before[last.providerId := last.typeTag]
  }

  /** The first offer of that provider. */
  predicate FirstOffer(offers: seq<Offer>, id: string, i: nat) {
    i < |offers| && offers[i].providerId == id && forall k :: 0 <= k < i ==> offers[k].providerId != id
  }

  /** Each provider other than the importer is recorded, with the type of its first offer. */
  lemma {:induction false} ProvidersRecordFirst(offers: seq<Offer>, importer: string, id: string)
    ensures id in Providers(offers, importer) <==> id != importer && exists i: nat :: FirstOffer(offers, id, i)
    ensures id in Providers(offers, importer) ==>
              exists i: nat :: FirstOffer(offers, id, i) && Providers(offers, importer)[id] == offers[i].typeTag
  {
    if offers != [] {
      var m := |offers| - 1;
      ProvidersRecordFirst(offers[..m], importer, id);
      if i: nat :| FirstOffer(offers[..m], id, i) { assert FirstOffer(offers, id, i); }
      if i: nat :| FirstOffer(offers, id, i) {
        assert i < m ==> FirstOffer(offers[..m], id, i);
      }
      if id == offers[m].providerId && id !in Providers(offers[..m], importer) && id != importer {
        forall k | 0 <= k < m ensures offers[k].providerId != id {
          if offers[k].providerId == id { var f := FirstOfferOf(offers[..m], id, k); }
        }
        assert FirstOffer(offers, id, m);
      }
    }
  }

  lemma {:induction false} FirstOfferOf(offers: seq<Offer>, id: string, k: nat) returns (i: nat)
    requires k < |offers| && offers[k].providerId == id
    ensures FirstOffer(offers, id, i)
  {
    i := 0;
    while offers[i].providerId != id
      invariant i <= k && forall x :: 0 <= x < i ==> offers[x].providerId != id
      decreases k - i
    {
      i := i + 1;
    }
  }

  // ------------------------------------------------------------------ one occurrence

  function DirectionCode(e: Occurrence): Option<string> {
    if e.direction != Export || e.iface != "store" then None
    else if e.package == IWEB_SECRETS then Some(IWEB_SECRET_WIT_DIRECTION_INVALID)
    else if e.package == IWEB_CONFIG then Some(IWEB_CONFIG_WIT_DIRECTION_INVALID)
    else None
  }

  predicate GrammarOk(e: Occurrence) { IsIdentityText(e.package) && IsWitName(e.iface) && e.typeTag != "" }

  predicate AllOfType(providers: map<string, string>, typeTag: string) {
    forall id :: id in providers ==> providers[id] == typeTag
  }

  function ImportCode(g: Graph, m: Matrix, importer: string, e: Occurrence): Option<string> {
    var offers := Offers(g.nodes, importer, e);
    var providers := Providers(offers, importer);
    if !NoBadOffer(Ids(g.nodes), importer, offers) then Some(WASM_CLOSURE_GRAPH_INVALID)
    else if providers == map[] then ClassifyWasmHostImport(m, e.package, e.iface)
    else if !AllOfType(providers, e.typeTag) then Some(WASM_INTERNAL_TYPE_MISMATCH)
    else if |providers| > 1 then Some(WASM_IMPORT_AMBIGUOUS)
    else None
  }

  function OccurrenceCode(g: Graph, m: Matrix, importer: string, e: Occurrence): Option<string> {
    if !GrammarOk(e) then Some(WASM_IMPORT_UNMAPPABLE)
    else if DirectionCode(e).Some? then DirectionCode(e)
    else if e.direction != Import then None
    else ImportCode(g, m, importer, e)
  }

  /** An import without internal provider is asked of the host. */
  predicate AsksHost(g: Graph, importer: string, e: Occurrence) {
    e.direction == Import && Providers(Offers(g.nodes, importer, e), importer) == map[]
  }

  function NodeCode(g: Graph, m: Matrix, n: Node): Option<string> {
    FirstOf(n.interfaces, (e: Occurrence) => OccurrenceCode(g, m, n.id, e))
  }

  function FirstCode(g: Graph, m: Matrix, nodes: seq<Node>): Option<string> {
    FirstOf(nodes, (n: Node) => NodeCode(g, m, n))
  }

  function DiscoveredIn(g: Graph, id: string, es: seq<Occurrence>): set<Capability> {
    if es == [] then {}
    else
      var last := es[|es| - 1];
      DiscoveredIn(g, id, es[..|es| - 1]) + if AsksHost(g, id, last)
        then {Capability(last.package, last.iface, Import)} else {}
  }

  function Discovered(g: Graph, nodes: seq<Node>): set<Capability> {
    if nodes == [] then {}
    else
      var last := nodes[|nodes| - 1];
      Discovered(g, nodes[..|nodes| - 1]) + DiscoveredIn(g, last.id, last.interfaces)
  }

  // ------------------------------------------------------------------ exports and declarations

  function ExportKeys(es: seq<Occurrence>): set<string> {
    set i | 0 <= i < |es| && es[i].direction == Export :: WasmInterfaceKey(es[i].package, es[i].iface)
  }

  predicate EntryExportsOk(g: Graph, m: Matrix) {
    forall i :: 0 <= i < |g.nodes| && g.nodes[i].id == g.entryNodeId ==>
      ExportKeys(g.nodes[i].interfaces) == {WasmInterfaceKey(m.requiredRootExport.package, m.requiredRootExport.iface)}
  }

  predicate ShapeValid(m: Matrix, c: Capability) {
    c.direction == Import && IsIdentityText(c.package) && IsWitName(c.iface)
      && ClassifyWasmHostImport(m, c.package, c.iface).None?
  }

  predicate AllAre<T>(s: seq<T>, ok: T -> bool) {
    forall i :: 0 <= i < |s| ==> ok(s[i])
  }

  predicate ShapesValid(m: Matrix, declared: seq<Capability>) {
    AllAre(declared, (c: Capability) => ShapeValid(m, c))
  }

  predicate DistinctKeys(declared: seq<Capability>) {
    forall i, k :: 0 <= i < k < |declared| ==> WasmCapabilityKey(declared[i]) != WasmCapabilityKey(declared[k])
  }

  function KeysOf(declared: seq<Capability>): set<string> {
    set k | 0 <= k < |declared| :: WasmCapabilityKey(declared[k])
  }

  predicate AllDeclared(found: set<Capability>, keys: set<string>) {
    forall c :: c in found ==> WasmCapabilityKey(c) in keys
  }

  predicate DeclaredOk(m: Matrix, declared: seq<Capability>, found: set<Capability>) {
    ShapesValid(m, declared) && DistinctKeys(declared) && |declared| == |found| && AllDeclared(found, KeysOf(declared))
  }

  // ------------------------------------------------------------------ the verdict

  /** Steps 1 to 3: world, ABI, integrity, budgets and cycles. */
  ghost function StructureCode(g: Graph, m: Matrix): Option<string> {
    if g.world != m.world then Some(WASM_WORLD_UNSUPPORTED)
    else if g.hostABI != m.hostABI then Some(WASM_HOST_ABI_MISMATCH)
    else if !GraphOk(g) then Some(WASM_CLOSURE_GRAPH_INVALID)
    else if |g.nodes| > g.budget.maxNodes || |g.edges| > g.budget.maxEdges then Some(WASM_CLOSURE_BUDGET_EXCEEDED)
    else
      AdjacencyIsClosed(g);
      var walk := WholeWalk(AdjacencyOf(g), g.entryNodeId);
      if !walk.ok then Some(WASM_CLOSURE_CYCLE)
      else if walk.maxDepth > g.budget.maxDepth then Some(WASM_CLOSURE_BUDGET_EXCEEDED)
      else None
  }

  /** Steps 4 to 7: raw imports, occurrences, root export, declarations. */
  function InterfaceCode(g: Graph, m: Matrix): Option<string> {
    var raw, first := FirstRawCode(g.nodes, Translated(g.nodes)), FirstCode(g, m, g.nodes);
    if raw.Some? then raw
    else if first.Some? then first
    else if !EntryExportsOk(g, m) then Some(WASM_EXPORT_MISMATCH)
    else if !DeclaredOk(m, g.declaredHostImports, Discovered(g, g.nodes)) then Some(WASM_DECLARATION_MISMATCH)
    else None
  }

  /** The code of the first failing step. */
  ghost function FailureCode(g: Graph, m: Matrix): Option<string> {
    if StructureCode(g, m).Some? then StructureCode(g, m) else InterfaceCode(g, m)
  }

  // ------------------------------------------------------------------ what a verdict means

  predicate InterfaceCodeText(code: string) {
    code != WASM_CLOSURE_CYCLE && code != WASM_CLOSURE_BUDGET_EXCEEDED
  }

  lemma RawCodesDiffer(nodes: seq<Node>, translated: set<string>)
    ensures FirstRawCode(nodes, translated).Some? ==> InterfaceCodeText(FirstRawCode(nodes, translated).value)
  {
    FirstOfIsFirst(nodes, (n: Node) => RawCode(n, translated));
  }

  lemma OccurrenceCodesDiffer(g: Graph, m: Matrix, importer: string, e: Occurrence)
    ensures OccurrenceCode(g, m, importer, e).Some? ==> InterfaceCodeText(OccurrenceCode(g, m, importer, e).value)
  {
  }

  lemma NodeCodes(g: Graph, m: Matrix, n: Node)
    ensures NodeCode(g, m, n).None?
            <==> forall i :: 0 <= i < |n.interfaces| ==> OccurrenceCode(g, m, n.id, n.interfaces[i]).None?
    ensures NodeCode(g, m, n).Some? ==> InterfaceCodeText(NodeCode(g, m, n).value)
  {
    var code := (e: Occurrence) => OccurrenceCode(g, m, n.id, e);
    FirstOfIsFirst(n.interfaces, code);
    if NodeCode(g, m, n).Some? {
      var i :| 0 <= i < |n.interfaces| && code(n.interfaces[i]) == NodeCode(g, m, n);
      OccurrenceCodesDiffer(g, m, n.id, n.interfaces[i]);
    }
  }

  /** Passed: no occurrence of any node has a code. */
  lemma PassedOccurrence(g: Graph, m: Matrix, i: nat, k: nat)
    requires FirstCode(g, m, g.nodes).None? && i < |g.nodes| && k < |g.nodes[i].interfaces|
    ensures OccurrenceCode(g, m, g.nodes[i].id, g.nodes[i].interfaces[k]).None?
  {
    var code := (n: Node) => NodeCode(g, m, n);
    FirstOfIsFirst(g.nodes, code);
    assert code(g.nodes[i]).None?;
    NodeCodes(g, m, g.nodes[i]);
  }

  lemma FirstCodesDiffer(g: Graph, m: Matrix)
    ensures FirstCode(g, m, g.nodes).Some? ==> InterfaceCodeText(FirstCode(g, m, g.nodes).value)
  {
    var code := (n: Node) => NodeCode(g, m, n);
    FirstOfIsFirst(g.nodes, code);
    if FirstCode(g, m, g.nodes).Some? {
      var i :| 0 <= i < |g.nodes| && code(g.nodes[i]) == FirstCode(g, m, g.nodes);
      NodeCodes(g, m, g.nodes[i]);
    }
  }

  lemma {:induction false} DiscoveredInIs(g: Graph, id: string, es: seq<Occurrence>, c: Capability)
    ensures c in DiscoveredIn(g, id, es) <==>
            exists k :: 0 <= k < |es| && AsksHost(g, id, es[k]) && c == Capability(es[k].package, es[k].iface, Import)
  {
    if es != [] {
      var m := |es| - 1;
      DiscoveredInIs(g, id, es[..m], c);
      assert forall k :: 0 <= k < m ==> es[..m][k] == es[k];
    }
  }

  lemma {:induction false} DiscoveredIs(g: Graph, nodes: seq<Node>, c: Capability)
    ensures c in Discovered(g, nodes) <==>
            exists i, k :: 0 <= i < |nodes| && 0 <= k < |nodes[i].interfaces|
              && AsksHost(g, nodes[i].id, nodes[i].interfaces[k])
              && c == Capability(nodes[i].interfaces[k].package, nodes[i].interfaces[k].iface, Import)
  {
    if nodes != [] {
      var m := |nodes| - 1;
      DiscoveredIs(g, nodes[..m], c);
      DiscoveredInIs(g, nodes[m].id, nodes[m].interfaces, c);
      assert forall i :: 0 <= i < m ==> nodes[..m][i] == nodes[i];
    }
  }

  lemma InterfaceCodesDiffer(g: Graph, m: Matrix)
    ensures InterfaceCode(g, m).Some? ==> InterfaceCodeText(InterfaceCode(g, m).value)
  {
    RawCodesDiffer(g.nodes, Translated(g.nodes));
    FirstCodesDiffer(g, m);
  }

  /** The validator answers CYCLE exactly when a cycle is reachable from the entry, given
      the matrix world and ABI and a well-formed graph within its node and edge budgets. */
  lemma CycleExactly(g: Graph, m: Matrix)
    ensures FailureCode(g, m) == Some(WASM_CLOSURE_CYCLE) <==>
            && g.world == m.world && g.hostABI == m.hostABI && GraphOk(g)
            && |g.nodes| <= g.budget.maxNodes && |g.edges| <= g.budget.maxEdges
            && CycleReachable(AdjacencyOf(g), g.entryNodeId)
  {
    InterfaceCodesDiffer(g, m);
    if GraphOk(g) {
      AdjacencyIsClosed(g);
      WalkFindsCycles(AdjacencyOf(g), g.entryNodeId);
    }
  }

  lemma EntryPath(adj: Adjacency, entry: string)
    requires entry in adj
    ensures PathFrom(adj, entry, [entry])
  {
  }

  /** A budget rejection names a count over budget or a real path with more nodes than the
      depth budget; past the budgets, every reachable node is within depth of the entry. */
  lemma BudgetIsReal(g: Graph, m: Matrix)
    ensures FailureCode(g, m) == Some(WASM_CLOSURE_BUDGET_EXCEEDED) ==>
              || |g.nodes| > g.budget.maxNodes || |g.edges| > g.budget.maxEdges
              || exists n: nat :: n > g.budget.maxDepth && HasPathOfLength(AdjacencyOf(g), g.entryNodeId, n)
    ensures StructureCode(g, m).None? ==>
              g.budget.maxDepth >= 0 &&
              forall p :: PathFrom(AdjacencyOf(g), g.entryNodeId, p) ==>
                ReachedWithin(AdjacencyOf(g), g.entryNodeId, p[|p| - 1], g.budget.maxDepth)
  {
    InterfaceCodesDiffer(g, m);
    if GraphOk(g) {
      AdjacencyIsClosed(g);
      var adj := AdjacencyOf(g);
      if WholeWalk(adj, g.entryNodeId).ok {
        EntryPath(adj, g.entryNodeId);
        forall p | PathFrom(adj, g.entryNodeId, p)
          ensures HasPathOfLength(adj, g.entryNodeId, WholeWalk(adj, g.entryNodeId).maxDepth)
          ensures ReachedWithin(adj, g.entryNodeId, p[|p| - 1], WholeWalk(adj, g.entryNodeId).maxDepth)
        {
          MeasuredDepth(adj, g.entryNodeId, p);
        }
      }
    }
  }

  /** Exactly one provider, another node of the graph, whose recorded type is the import's. */
  ghost predicate InternallyResolved(g: Graph, importer: string, e: Occurrence) {
    exists id :: Providers(Offers(g.nodes, importer, e), importer) == map[id := e.typeTag] && id != importer
      && id in Ids(g.nodes)
  }

  lemma OneProvider(m: map<string, string>, typeTag: string)
    requires m != map[] && |m| <= 1 && AllOfType(m, typeTag)
    ensures exists id :: m == map[id := typeTag]
  {
    var id :| id in m;
    assert m.Keys == {id} by {
      assert |m.Keys| == |m|;
      assert {id} <= m.Keys;
      if other :| other in m.Keys && other != id {
        SubsetSize({id, other}, m.Keys);
      }
    }
    assert m == map[id := typeTag];
  }

  lemma SubsetSize(a: set<string>, b: set<string>)
    requires a <= b
    ensures |a| <= |b|
  {
    assert b == a + (b - a);
  }

  /** Accepted: every import resolves to exactly one internal provider of its own type, or
      is an exact matrix entry that the configuration declares. */
  lemma AcceptedImportsResolve(g: Graph, m: Matrix, i: nat, k: nat)
    requires MatrixOk(m) && FailureCode(g, m).None? && i < |g.nodes| && k < |g.nodes[i].interfaces|
    requires g.nodes[i].interfaces[k].direction == Import
    ensures var e := g.nodes[i].interfaces[k];
            var c := Capability(e.package, e.iface, Import);
            if AsksHost(g, g.nodes[i].id, e) then c in m.hostImports && c in g.declaredHostImports
            else InternallyResolved(g, g.nodes[i].id, e)
  {
    var e := g.nodes[i].interfaces[k];
    var importer := g.nodes[i].id;
    PassedOccurrence(g, m, i, k);
    assert ImportCode(g, m, importer, e).None?;
    if AsksHost(g, importer, e) {
      AllowedIffListed(m, e.package, e.iface);
      DiscoveredIs(g, g.nodes, Capability(e.package, e.iface, Import));
      DeclaredAreDiscovered(g, m);
    } else {
      ResolvedInside(g, m, importer, e);
    }
  }

  lemma ResolvedInside(g: Graph, m: Matrix, importer: string, e: Occurrence)
    requires e.direction == Import && ImportCode(g, m, importer, e).None? && !AsksHost(g, importer, e)
    ensures InternallyResolved(g, importer, e)
  {
    var offers := Offers(g.nodes, importer, e);
    OneProvider(Providers(offers, importer), e.typeTag);
    var id :| Providers(offers, importer) == map[id := e.typeTag];
    ProvidersRecordFirst(offers, importer, id);
    var f: nat :| FirstOffer(offers, id, f);
    assert !BadOffer(Ids(g.nodes), importer, offers[f]);
  }

  function SetOf(s: seq<Capability>): set<Capability> { set c | c in s }

  lemma {:induction false} SetOfSize(s: seq<Capability>)
    requires NoDuplicates(s)
    ensures |SetOf(s)| == |s|
  {
    if s != [] {
      var m := |s| - 1;
      SetOfSize(s[..m]);
      assert s == s[..m] + [s[m]];
      assert SetOf(s) == SetOf(s[..m]) + {s[m]};
      assert s[m] !in s[..m];
    }
  }

  lemma SubsetOfSameSize(a: set<Capability>, b: set<Capability>)
    requires a <= b && |a| == |b|
    ensures a == b
  {
    assert b == a + (b - a);
  }

  /** Whatever a passed graph asks of the host is a well-formed matrix entry. */
  lemma DiscoveredAreListed(g: Graph, m: Matrix, c: Capability)
    requires MatrixOk(m) && FirstCode(g, m, g.nodes).None? && c in Discovered(g, g.nodes)
    ensures c in m.hostImports && IsIdentityText(c.package) && c.direction == Import
  {
    DiscoveredIs(g, g.nodes, c);
    var i, k :| 0 <= i < |g.nodes| && 0 <= k < |g.nodes[i].interfaces|
      && AsksHost(g, g.nodes[i].id, g.nodes[i].interfaces[k])
                && c == Capability(g.nodes[i].interfaces[k].package, g.nodes[i].interfaces[k].iface, Import);
    PassedOccurrence(g, m, i, k);
    AllowedIffListed(m, c.package, c.iface);
  }

  lemma KeyIsDeclared(m: Matrix, declared: seq<Capability>, c: Capability)
    requires ShapesValid(m, declared) && WasmCapabilityKey(c) in KeysOf(declared)
    requires IsIdentityText(c.package) && c.direction == Import
    ensures c in declared
  {
    var i :| 0 <= i < |declared| && WasmCapabilityKey(declared[i]) == WasmCapabilityKey(c);
    CapabilityKeyInjective(declared[i], c);
  }

  /** The declared imports are, as a set, exactly the discovered ones. */
  lemma DeclaredAreDiscovered(g: Graph, m: Matrix)
    requires MatrixOk(m) && FailureCode(g, m).None?
    ensures SetOf(g.declaredHostImports) == Discovered(g, g.nodes)
    ensures NoDuplicates(g.declaredHostImports)
  {
    var declared, found := g.declaredHostImports, Discovered(g, g.nodes);
    assert NoDuplicates(declared);
    SetOfSize(declared);
    forall c | c in found ensures c in SetOf(declared) {
      DiscoveredAreListed(g, m, c);
      KeyIsDeclared(m, declared, c);
    }
    SubsetOfSameSize(found, SetOf(declared));
  }

  /** The entry exports the matrix root export and no other interface. */
  lemma RootExportIsExact(g: Graph, m: Matrix, i: nat, k: nat)
    requires MatrixOk(m) && FailureCode(g, m).None? && i < |g.nodes| && g.nodes[i].id == g.entryNodeId
    requires k < |g.nodes[i].interfaces| && g.nodes[i].interfaces[k].direction == Export
    ensures g.nodes[i].interfaces[k].package == m.requiredRootExport.package
    ensures g.nodes[i].interfaces[k].iface == m.requiredRootExport.iface
  {
    var e := g.nodes[i].interfaces[k];
    PassedOccurrence(g, m, i, k);
    assert WasmInterfaceKey(e.package, e.iface) in ExportKeys(g.nodes[i].interfaces);
    RootKey(m, e.package, e.iface);
  }

  lemma RootKey(m: Matrix, package: string, iface: string)
    requires MatrixOk(m) && IsIdentityText(package)
    requires WasmInterfaceKey(package, iface) ==
             WasmInterfaceKey(m.requiredRootExport.package, m.requiredRootExport.iface)
    ensures package == m.requiredRootExport.package && iface == m.requiredRootExport.iface
  {
    InterfaceKeyInjective(package, iface, m.requiredRootExport.package, m.requiredRootExport.iface);
  }
}
