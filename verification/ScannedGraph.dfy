/** The shape of every graph the scanner returns, and what the validator can no longer
    answer on such a graph. */
module ScannedGraph {
  import opened Basics
  import opened Decimal
  import opened WitCapability
  import opened ClosureWalk
  import opened WasmClosure
  import opened ClosureDepth

  /** `n` and the allocation number. */
  function NodeId(n: nat): string { "n" + DecimalText(n) }

  lemma NodeIdInjective(a: nat, b: nat)
    requires NodeId(a) == NodeId(b)
    ensures a == b
  {
    assert NodeId(a)[1..] == DecimalText(a) && NodeId(b)[1..] == DecimalText(b);
    DecimalInjective(a, b);
  }

  // ------------------------------------------------------------------ shape

  ghost predicate Numbered(nodes: seq<Node>) {
    |nodes| > 0 && forall i :: 0 <= i < |nodes| ==> nodes[i].id == NodeId(i)
  }

  /** The edge leads from an earlier allocated node to a later one. */
  ghost predicate Rises(e: Edge, n: nat) {
    exists a: nat, b: nat :: a < b < n && e == Edge(NodeId(a), NodeId(b))
  }

  ghost predicate EdgesRise(g: Graph) {
    forall k :: 0 <= k < |g.edges| ==> Rises(g.edges[k], |g.nodes|)
  }

  ghost predicate HasParent(g: Graph, b: nat) {
    exists a: nat :: a < b && Edge(NodeId(a), NodeId(b)) in g.edges
  }

  ghost predicate Rooted(g: Graph) {
    g.entryNodeId == NodeId(0) && forall b :: 0 < b < |g.nodes| ==> HasParent(g, b)
  }

  /** Edges to one node come from one node. */
  predicate SingleParent(edges: seq<Edge>) {
    forall i, k :: 0 <= i < |edges| && 0 <= k < |edges| && edges[i].target == edges[k].target ==>
      edges[i].source == edges[k].source
  }

  predicate Anchored(e: Occurrence, ids: set<string>) {
    e.typeTag != "" && (e.providerAlias.Some? ==> e.providerAlias.value in ids)
  }

  predicate OccurrencesOk(g: Graph) {
    forall i, k :: 0 <= i < |g.nodes| && 0 <= k < |g.nodes[i].interfaces|
      ==> Anchored(g.nodes[i].interfaces[k], Ids(g.nodes))
  }

  ghost predicate ScanShape(g: Graph) {
    Numbered(g.nodes) && EdgesRise(g) && Rooted(g) && SingleParent(g.edges) && OccurrencesOk(g)
  }

  // ------------------------------------------------------------------ consequences

  lemma NumberedIsInIds(nodes: seq<Node>, i: nat)
    requires Numbered(nodes) && i < |nodes|
    ensures NodeId(i) in Ids(nodes)
  {
    assert nodes[i].id == NodeId(i);
  }

  lemma ScannedGraphIsOk(g: Graph)
    requires ScanShape(g)
    ensures GraphOk(g)
  {
    forall i, k | 0 <= i < k < |g.nodes| ensures g.nodes[i].id != g.nodes[k].id {
      if g.nodes[i].id == g.nodes[k].id { NodeIdInjective(i, k); }
    }
    forall i | 0 <= i < |g.nodes| ensures g.nodes[i].id != "" {
      assert |NodeId(i)| > 0;
    }
    NumberedIsInIds(g.nodes, 0);
    forall k | 0 <= k < |g.edges| ensures g.edges[k].source in Ids(g.nodes) && g.edges[k].target in Ids(g.nodes) {
      assert Rises(g.edges[k], |g.nodes|);
      var a: nat, b: nat :| a < b < |g.nodes| && g.edges[k] == Edge(NodeId(a), NodeId(b));
      NumberedIsInIds(g.nodes, a);
      NumberedIsInIds(g.nodes, b);
    }
  }

  /** Along a path the allocation numbers rise strictly. */
  lemma {:induction false} PathRises(g: Graph, p: seq<string>, i: nat, j: nat, a: nat) returns (b: nat)
    requires ScanShape(g) && IsPath(AdjacencyOf(g), p) && i < j < |p| && p[i] == NodeId(a)
    ensures p[j] == NodeId(b) && a < b
    decreases j - i
  {
    TargetsAreEdges(g.edges, p[i], p[i + 1]);
    assert p[i + 1] in AdjacencyOf(g)[p[i]];
    var k :| 0 <= k < |g.edges| && g.edges[k] == Edge(p[i], p[i + 1]);
    assert Rises(g.edges[k], |g.nodes|);
    var x: nat, y: nat :| x < y < |g.nodes| && g.edges[k] == Edge(NodeId(x), NodeId(y));
    NodeIdInjective(a, x);
    if i + 1 == j { return y; }
    b := PathRises(g, p, i + 1, j, y);
  }

  /** No cycle at all: edges rise in allocation order. */
  lemma ScannedGraphIsAcyclic(g: Graph)
    requires ScanShape(g)
    ensures !CycleReachable(AdjacencyOf(g), g.entryNodeId)
  {
    forall p ensures !IsLasso(AdjacencyOf(g), g.entryNodeId, p) {
      if PathFrom(AdjacencyOf(g), g.entryNodeId, p) {
        forall i | 0 <= i < |p| - 1 ensures p[i] != p[|p| - 1] {
          var a := 0;
          if i > 0 { a := PathRises(g, p, 0, i, 0); }
          var b := PathRises(g, p, i, |p| - 1, a);
          if p[i] == p[|p| - 1] { NodeIdInjective(a, b); }
        }
      }
    }
  }

  /** Every node is reachable from the entry. */
  lemma {:induction false} ScannedGraphIsRooted(g: Graph, b: nat)
    requires ScanShape(g) && b < |g.nodes|
    ensures exists p :: PathFrom(AdjacencyOf(g), g.entryNodeId, p) && Ends(p, NodeId(b))
    decreases b
  {
    NumberedIsInIds(g.nodes, b);
    if b == 0 {
      assert PathFrom(AdjacencyOf(g), g.entryNodeId, [g.entryNodeId]);
      assert Ends([g.entryNodeId], NodeId(0));
    } else {
      assert HasParent(g, b);
      var a: nat :| a < b && Edge(NodeId(a), NodeId(b)) in g.edges;
      ScannedGraphIsRooted(g, a);
      var q :| PathFrom(AdjacencyOf(g), g.entryNodeId, q) && Ends(q, NodeId(a));
      OneStepFurther(g, q, NodeId(a), NodeId(b));
    }
  }

  predicate Ends(p: seq<string>, id: string) { |p| > 0 && p[|p| - 1] == id }

  lemma OneStepFurther(g: Graph, q: seq<string>, a: string, b: string)
    requires PathFrom(AdjacencyOf(g), g.entryNodeId, q) && Ends(q, a) && Edge(a, b) in g.edges && b in Ids(g.nodes)
    ensures PathFrom(AdjacencyOf(g), g.entryNodeId, q + [b]) && Ends(q + [b], b)
  {
    TargetsAreEdges(g.edges, a, b);
    PathExtends(AdjacencyOf(g), g.entryNodeId, q, b);
  }

  // ------------------------------------------------------------------ the validator on scanned graphs

  lemma {:induction false} OffersInAreGood(es: seq<Occurrence>, exporter: string, wanted: Occurrence,
                                           ids: set<string>, importer: string)
    requires exporter in ids && forall k :: 0 <= k < |es| ==> Anchored(es[k], ids)
    ensures NoBadOffer(ids, importer, OffersIn(es, exporter, wanted))
  {
    if es != [] { OffersInAreGood(es[..|es| - 1], exporter, wanted, ids, importer); }
  }

  lemma {:induction false} OffersAreGood(nodes: seq<Node>, importer: string, wanted: Occurrence, ids: set<string>)
    requires forall i :: 0 <= i < |nodes| ==> nodes[i].id in ids
    requires forall i, k :: 0 <= i < |nodes| && 0 <= k < |nodes[i].interfaces| ==> Anchored(nodes[i].interfaces[k], ids)
    ensures NoBadOffer(ids, importer, Offers(nodes, importer, wanted))
  {
    if nodes != [] {
      var last := nodes[|nodes| - 1];
      OffersAreGood(nodes[..|nodes| - 1], importer, wanted, ids);
      OffersInAreGood(last.interfaces, last.id, wanted, ids, importer);
    }
  }

  predicate NotGraphInvalid(code: Option<string>) { code != Some(WASM_CLOSURE_GRAPH_INVALID) }

  lemma OccurrenceIsNotInvalid(g: Graph, m: Matrix, importer: string, e: Occurrence)
    requires ScanShape(g)
    ensures NotGraphInvalid(OccurrenceCode(g, m, importer, e))
  {
    OffersAreGood(g.nodes, importer, e, Ids(g.nodes));
  }

  lemma NodeIsNotInvalid(g: Graph, m: Matrix, n: Node)
    requires ScanShape(g)
    ensures NotGraphInvalid(NodeCode(g, m, n))
  {
    var code := (e: Occurrence) => OccurrenceCode(g, m, n.id, e);
    FirstOfIsFirst(n.interfaces, code);
    if NodeCode(g, m, n).Some? {
      var i :| 0 <= i < |n.interfaces| && code(n.interfaces[i]) == NodeCode(g, m, n);
      OccurrenceIsNotInvalid(g, m, n.id, n.interfaces[i]);
    }
  }

  lemma InterfacesAreNotInvalid(g: Graph, m: Matrix)
    requires ScanShape(g)
    ensures NotGraphInvalid(InterfaceCode(g, m))
  {
    var code := (n: Node) => NodeCode(g, m, n);
    FirstOfIsFirst(g.nodes, code);
    if FirstCode(g, m, g.nodes).Some? {
      var i :| 0 <= i < |g.nodes| && code(g.nodes[i]) == FirstCode(g, m, g.nodes);
      NodeIsNotInvalid(g, m, g.nodes[i]);
    }
    FirstOfIsFirst(g.nodes, (n: Node) => RawCode(n, Translated(g.nodes)));
  }

  /** On a scanned graph the validator never answers CYCLE or GRAPH_INVALID. */
  lemma ScannedNeverInvalidOrCyclic(g: Graph, m: Matrix)
    requires ScanShape(g)
    ensures FailureCode(g, m) != Some(WASM_CLOSURE_CYCLE)
    ensures FailureCode(g, m) != Some(WASM_CLOSURE_GRAPH_INVALID)
  {
    ScannedGraphIsOk(g);
    ScannedGraphIsAcyclic(g);
    CycleExactly(g, m);
    InterfacesAreNotInvalid(g, m);
  }

  // ------------------------------------------------------------------ a tree

  /** A scanned graph is a tree: each node other than the entry has one parent. */
  lemma ScannedGraphIsATree(g: Graph)
    requires ScanShape(g)
    ensures OneParent(AdjacencyOf(g))
  {
    var adj := AdjacencyOf(g);
    forall a, b, t | a in adj && b in adj && t in adj[a] && t in adj[b] ensures a == b {
      TargetsAreEdges(g.edges, a, t);
      TargetsAreEdges(g.edges, b, t);
      var i :| 0 <= i < |g.edges| && g.edges[i] == Edge(a, t);
      var k :| 0 <= k < |g.edges| && g.edges[k] == Edge(b, t);
      assert g.edges[i].target == g.edges[k].target;
    }
  }

  /** On a scanned graph no path goes unmeasured: past world, ABI and the counts, the budget
      code is answered if and only if some path has more nodes than the depth budget. */
  lemma ScannedDepthIsExact(g: Graph, m: Matrix)
    requires ScanShape(g) && g.world == m.world && g.hostABI == m.hostABI
    requires |g.nodes| <= g.budget.maxNodes && |g.edges| <= g.budget.maxEdges
    ensures FailureCode(g, m) == Some(WASM_CLOSURE_BUDGET_EXCEEDED) <==>
            HasPathLongerThan(AdjacencyOf(g), g.entryNodeId, g.budget.maxDepth)
  {
    ScannedGraphIsOk(g);
    ScannedGraphIsAcyclic(g);
    ScannedGraphIsATree(g);
    BudgetExactlyOnTrees(g, m);
  }
}
