/** What a scan answers: the graph of the component, or the code of the first failure in
    the order of scanning; and when there is no failure. */
module ScanVerdict {
  import opened Basics
  import opened WitCapability
  import opened WasmClosure
  import opened ScannedGraph
  import opened ScannerSpec

  // ------------------------------------------------------------------ links in order

  /** The links of the first `n` items in the order they are added: a component is linked
      once everything nested in it is. */
  function LinkSeq(c: Component, self: nat, n: nat): (r: seq<Link>)
    requires n <= |c.items|
    ensures |r| == Allocated(c, n)
    decreases c, n
  {
    if n == 0 then []
    else
      var item := c.items[n - 1];
      var child := self + 1 + Allocated(c, n - 1);
      LinkSeq(c, self, n - 1) +
      if item.NestedItem? then LinkSeq(item.body, child, |item.body.items|) + [Link(self, child)] else []
  }

  lemma {:induction false} LinkSeqIs(c: Component, self: nat, n: nat, l: Link)
    requires n <= |c.items|
    ensures l in LinkSeq(c, self, n) <==> l in NestedLinks(c, self, n)
    decreases c, n
  {
    if n > 0 {
      var item := c.items[n - 1];
      LinkSeqIs(c, self, n - 1, l);
      if item.NestedItem? { LinkSeqIs(item.body, self + 1 + Allocated(c, n - 1), |item.body.items|, l); }
    }
  }

  /** Targets of links lie above the component and within the allocated numbers. */
  lemma LinkSeqRises(c: Component, self: nat, n: nat)
    requires n <= |c.items|
    ensures forall l :: l in LinkSeq(c, self, n) ==> self < l.target <= self + Allocated(c, n)
  {
    forall l | l in LinkSeq(c, self, n) ensures self < l.target <= self + Allocated(c, n) {
      LinkSeqIs(c, self, n, l);
      NestedLinksRise(c, self, n, l);
    }
  }

  function ModuleLinkSeq(modules: seq<Module>, start: nat): (r: seq<Link>)
    ensures |r| == |modules|
  {
    seq(|modules|, i requires 0 <= i < |modules| => Link(modules[i].owner, start + i))
  }

  predicate AllBelow(links: seq<Link>, n: nat) {
    forall l :: l in links ==> l.target < n
  }

  // ------------------------------------------------------------------ the graph

  function AllLinkSeq(c: Component): seq<Link> {
    LinkSeq(c, 0, |c.items|) + ModuleLinkSeq(Modules(ScopesOf(c, 0)), |ScopesOf(c, 0)|)
  }

  function EdgesOf(links: seq<Link>): (r: seq<Edge>)
    ensures |r| == |links| && forall i :: 0 <= i < |r| ==> r[i] == EdgeOf(links[i])
  {
    seq(|links|, i requires 0 <= i < |links| => EdgeOf(links[i]))
  }

  function GraphOf(
    c: Component, world: string, hostABI: string, declared: seq<Capability>, budget: Budget, subsumed: Subsumes): Graph
  {
    Graph(world, hostABI, NodeId(0), GraphNodes(ScopesOf(c, 0), subsumed), EdgesOf(AllLinkSeq(c)), declared, budget)
  }

  lemma AllLinkSeqIs(c: Component, l: Link)
    ensures l in AllLinkSeq(c) <==> l in AllLinks(c)
  {
    var modules, start := Modules(ScopesOf(c, 0)), |ScopesOf(c, 0)|;
    LinkSeqIs(c, 0, |c.items|, l);
    if l in LinksOf(modules, start) {
      var i :| 0 <= i < |modules| && l == Link(modules[i].owner, start + i);
      assert ModuleLinkSeq(modules, start)[i] == l;
    }
  }

  /** That graph is the one the component stands for. */
  lemma GraphOfMatches(
    c: Component, world: string, hostABI: string, declared: seq<Capability>, budget: Budget, subsumed: Subsumes)
    ensures GraphMatches(GraphOf(c, world, hostABI, declared, budget, subsumed), c, subsumed)
  {
    var g := GraphOf(c, world, hostABI, declared, budget, subsumed);
    var links := AllLinkSeq(c);
    forall k | 0 <= k < |g.edges| ensures IsEdgeOfLink(g.edges[k], AllLinks(c)) {
      assert g.edges[k] == EdgeOf(links[k]);
      AllLinkSeqIs(c, links[k]);
    }
    forall l | l in AllLinks(c) ensures EdgeOf(l) in g.edges {
      AllLinkSeqIs(c, l);
      var k :| 0 <= k < |links| && links[k] == l;
      assert g.edges[k] == EdgeOf(l);
    }
  }

  // ------------------------------------------------------------------ the first failure

  /** Parsing a component at a depth, after `linked` links. */
  function ParseCode(c: Component, self: nat, depth: int, linked: nat, b: Budget): Option<string>
    decreases c, |c.items| + 1
  {
    if depth > b.maxDepth then Some(WASM_CLOSURE_BUDGET_EXCEEDED)
    else ItemsCode(c, self, depth, linked, b, |c.items|)
  }

  function ItemsCode(c: Component, self: nat, depth: int, linked: nat, b: Budget, n: nat): Option<string>
    requires n <= |c.items|
    decreases c, n
  {
    if n == 0 then None
    else
      var before := ItemsCode(c, self, depth, linked, b, n - 1);
      if before.Some? then before
      else
        var item := c.items[n - 1];
        if item.MalformedItem? then Some(BinaryCode(item.error))
        else if item.NestedItem? then
          var child := self + 1 + Allocated(c, n - 1);
          NestedCode(item.body, child, depth + 1, linked + Allocated(c, n - 1), b)
        else None
  }

  /** Allocating a nested component, parsing it, linking it. */
  function NestedCode(body: Component, child: nat, depth: int, linked: nat, b: Budget): Option<string>
    decreases body, |body.items| + 2
  {
    if child + 1 > b.maxNodes then Some(WASM_CLOSURE_BUDGET_EXCEEDED)
    else
      var inner := ParseCode(body, child, depth, linked, b);
      if inner.Some? then inner
      else if linked + Allocated(body, |body.items|) + 1 > b.maxEdges then Some(WASM_CLOSURE_BUDGET_EXCEEDED)
      else None
  }

  predicate ImportsTyped(entry: Scope) {
    forall k :: 0 <= k < |entry.imports| ==> IsTypedImport(entry.imports[k])
  }

  /** The entry imports typed interfaces only and exports exactly one entry. */
  function EntryCode(entry: Scope): Option<string> {
    if !ImportsTyped(entry) then Some(WASM_IMPORT_UNMAPPABLE)
    else if |entry.exports| != 1 then Some(WASM_EXPORT_MISMATCH)
    else None
  }

  predicate AllDecodable(scopes: seq<Scope>) {
    forall i :: 0 <= i < |scopes| ==> !Undecodable(scopes[i])
  }

  /** `k` more nodes and links fit. */
  predicate Fits(b: Budget, nodes: nat, links: nat, k: nat) {
    k == 0 || (nodes + k <= b.maxNodes && links + k <= b.maxEdges)
  }

  function ScanCodeOf(c: Component, b: Budget): Option<string> {
    var scopes := ScopesOf(c, 0);
    var linked := Allocated(c, |c.items|);
    if 1 > b.maxNodes then Some(WASM_CLOSURE_BUDGET_EXCEEDED)
    else if ParseCode(c, 0, 1, 0, b).Some? then ParseCode(c, 0, 1, 0, b)
    else if EntryCode(scopes[0]).Some? then EntryCode(scopes[0])
    else if !AllDecodable(scopes) then Some(BinaryCode(SectionInvalid))
    else if !Fits(b, |scopes|, linked, |Modules(scopes)|) then Some(WASM_CLOSURE_BUDGET_EXCEEDED)
    else None
  }

  // ------------------------------------------------------------------ when nothing fails

  /** No item of the first `n`, nested ones included, is malformed. */
  predicate WellFormed(c: Component, n: nat)
    requires n <= |c.items|
    decreases c, n
  {
    n == 0 ||
    (&& WellFormed(c, n - 1)
     && !c.items[n - 1].MalformedItem?
     && (c.items[n - 1].NestedItem? ==> WellFormed(c.items[n - 1].body, |c.items[n - 1].body.items|)))
  }

  /** How many levels of components are nested in the first `n` items. */
  function Nesting(c: Component, n: nat): nat
    requires n <= |c.items|
    decreases c, n
  {
    if n == 0 then 0
    else
      var before := Nesting(c, n - 1);
      if !c.items[n - 1].NestedItem? then before
      else
        var inner := 1 + Nesting(c.items[n - 1].body, |c.items[n - 1].body.items|);
        if before < inner then inner else before
  }

  /** What the first `n` items need of the budget. */
  predicate WithinLimits(c: Component, self: nat, depth: int, linked: nat, b: Budget, n: nat)
    requires n <= |c.items|
  {
    WellFormed(c, n) && depth + Nesting(c, n) <= b.maxDepth && Fits(b, self + 1, linked, Allocated(c, n))
  }

  lemma {:induction false} ItemsPassIff(c: Component, self: nat, depth: int, linked: nat, b: Budget, n: nat)
    requires n <= |c.items| && depth <= b.maxDepth
    ensures ItemsCode(c, self, depth, linked, b, n).None? <==> WithinLimits(c, self, depth, linked, b, n)
    decreases c, n
  {
    if n > 0 {
      ItemsPassIff(c, self, depth, linked, b, n - 1);
      var item := c.items[n - 1];
      if item.NestedItem? {
        NestedPassIff(item.body, self + 1 + Allocated(c, n - 1), depth + 1, linked + Allocated(c, n - 1), b);
      }
    }
  }

  lemma {:induction false} NestedPassIff(body: Component, child: nat, depth: int, linked: nat, b: Budget)
    ensures NestedCode(body, child, depth, linked, b).None? <==>
            && WellFormed(body, |body.items|) && depth + Nesting(body, |body.items|) <= b.maxDepth
            && Fits(b, child, linked, 1 + Allocated(body, |body.items|))
    decreases body, |body.items| + 1
  {
    if depth <= b.maxDepth {
      ItemsPassIff(body, child, depth, linked, b, |body.items|);
    }
  }

  /** A component is scanned if and only if no item of it is malformed, its nesting and the
      numbers of its nodes and edges are within budget, its entry imports typed interfaces
      only and exports once, and every typed import has a decodable instance type. */
  lemma ScannedIff(c: Component, b: Budget)
    ensures ScanCodeOf(c, b).None? <==>
            var scopes := ScopesOf(c, 0);
            var edges := Allocated(c, |c.items|) + |Modules(scopes)|;
            && WellFormed(c, |c.items|) && 1 + Nesting(c, |c.items|) <= b.maxDepth
            && edges + 1 <= b.maxNodes && (edges == 0 || edges <= b.maxEdges)
            && ImportsTyped(scopes[0]) && |scopes[0].exports| == 1 && AllDecodable(scopes)
  {
    if 1 <= b.maxDepth {
      ItemsPassIff(c, 0, 1, 0, b, |c.items|);
    }
  }
}
