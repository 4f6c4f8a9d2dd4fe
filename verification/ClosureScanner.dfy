/** The closure scanner as the source runs it: one mutable context, components parsed
    recursively, then occurrences, type tags and module nodes. */
module ClosureScanner {
  import opened Basics
  import opened Decimal
  import opened WitCapability
  import opened WasmClosure
  import opened ClosureValidator
  import opened ScannedGraph
  import opened ScannerSpec
  import opened ScanVerdict

  datatype ScanResult = Scanned(graph: Graph) | Aborted(code: string)

  /** What a scan answers. */
  function ScanSpec(
    entry: Component, world: string, hostABI: string, declared: seq<Capability>, budget: Budget,
    subsumed: Subsumes): ScanResult
  {
    var code := ScanCodeOf(entry, budget);
    if code.Some? then Aborted(code.value) else Scanned(GraphOf(entry, world, hostABI, declared, budget, subsumed))
  }

  predicate IsScanCode(code: string) {
    || code == WASM_CLOSURE_BUDGET_EXCEEDED || code == WASM_IMPORT_UNMAPPABLE || code == WASM_EXPORT_MISMATCH
    || exists e :: code == BinaryCode(e)
  }

  lemma {:induction false} ItemsCodeIsScanCode(c: Component, self: nat, depth: int, linked: nat, b: Budget, n: nat)
    requires n <= |c.items| && ItemsCode(c, self, depth, linked, b, n).Some?
    ensures IsScanCode(ItemsCode(c, self, depth, linked, b, n).value)
    decreases c, n
  {
    var item := c.items[n - 1];
    if ItemsCode(c, self, depth, linked, b, n - 1).Some? {
      ItemsCodeIsScanCode(c, self, depth, linked, b, n - 1);
    } else if item.MalformedItem? {
      assert IsScanCode(BinaryCode(item.error));
    } else {
      NestedCodeIsScanCode(item.body, self + 1 + Allocated(c, n - 1), depth + 1, linked + Allocated(c, n - 1), b);
    }
  }

  lemma {:induction false} NestedCodeIsScanCode(body: Component, child: nat, depth: int, linked: nat, b: Budget)
    requires NestedCode(body, child, depth, linked, b).Some?
    ensures IsScanCode(NestedCode(body, child, depth, linked, b).value)
    decreases body, |body.items| + 1
  {
    if depth <= b.maxDepth && ItemsCode(body, child, depth, linked, b, |body.items|).Some? {
      ItemsCodeIsScanCode(body, child, depth, linked, b, |body.items|);
    }
  }

  lemma ScanCodesDiffer(c: Component, b: Budget)
    requires ScanCodeOf(c, b).Some?
    ensures ScanCodeOf(c, b).value != WASM_CLOSURE_CYCLE && ScanCodeOf(c, b).value != WASM_CLOSURE_GRAPH_INVALID
  {
    if 1 <= b.maxDepth && ItemsCode(c, 0, 1, 0, b, |c.items|).Some? {
      ItemsCodeIsScanCode(c, 0, 1, 0, b, |c.items|);
    }
    assert IsScanCode(ScanCodeOf(c, b).value);
    assert BinaryCode(InvalidHeader)[5] == 'B' && WASM_CLOSURE_CYCLE[5] == 'C' && WASM_CLOSURE_GRAPH_INVALID[5] == 'C';
    assert forall e: BinaryError :: BinaryCode(e)[5] == 'B';
  }

  function EmptyNode(n: nat, kind: Kind): Node { Node(NodeId(n), kind, [], [], [], []) }

  function EmptyNodes(n: nat): seq<Node> { seq(n, i requires 0 <= i < n => EmptyNode(i, WasmClosure.Kind.Component)) }

  // ------------------------------------------------------------------ parsing

  class ParseContext {
    const budget: Budget
    var nodes: seq<Node>
    var links: seq<Link>
    var scopes: seq<Scope>

    constructor (budget: Budget)
      ensures this.budget == budget && nodes == [] && links == [] && scopes == []
    {
      this.budget := budget;
      nodes, links, scopes := [], [], [];
    }

    /** The next number, unless the node budget is used up. */
    method AllocateNode(kind: Kind) returns (id: Option<nat>)
      modifies this`nodes
      ensures id == if |old(nodes)| + 1 <= budget.maxNodes then Some(|old(nodes)|) else None
      ensures nodes == if id.Some? then old(nodes) + [EmptyNode(|old(nodes)|, kind)] else old(nodes)
    {
      if |nodes| + 1 > budget.maxNodes {
        return None;
      }
      id := Some(|nodes|);
      nodes := nodes + [EmptyNode(|nodes|, kind)];
    }

    /** A link is kept once; a new one needs room in the edge budget. */
    method AddLink(l: Link) returns (ok: bool)
      modifies this`links
      ensures ok <==> l in old(links) || |old(links)| + 1 <= budget.maxEdges
      ensures links == if ok && l !in old(links) then old(links) + [l] else old(links)
    {
      if l in links {
        return true;
      }
      if |links| + 1 > budget.maxEdges {
        return false;
      }
      links := links + [l];
      ok := true;
    }

    /** The nodes and links of some modules stand behind those of the components. */
    ghost predicate Embedded(base: seq<Node>, linked: seq<Link>, modules: seq<Module>)
      reads this
    {
      && nodes == base + ModuleNodes(modules, |base|) && links == linked + ModuleLinkSeq(modules, |base|)
      && AllBelow(linked, |base|) && Fits(budget, |base|, |linked|, |modules|)
    }

    /** The node and the link of one embedded module. */
    method AddModule(embedded: Module, ghost modules: seq<Module>, ghost base: seq<Node>, ghost linked: seq<Link>)
      returns (error: Option<string>)
      requires Embedded(base, linked, modules)
      modifies this
      ensures scopes == old(scopes)
      ensures error == if Fits(budget, |base|, |linked|, |modules| + 1) then None
              else Some(WASM_CLOSURE_BUDGET_EXCEEDED)
      ensures error.None? ==> Embedded(base, linked, modules + [embedded])
    {
      var facts := embedded.facts;
      OneMoreModule(modules, embedded, |base|);
      NewModuleLink(linked, modules, |base|, embedded.owner);
      ghost var had := nodes;
      var id := AllocateNode(if facts.AdapterFacts? then Adapter else CoreModule);
      if id.None? {
        return Some(WASM_CLOSURE_BUDGET_EXCEEDED);
      }
      var ok := AddLink(Link(embedded.owner, id.value));
      if !ok {
        return Some(WASM_CLOSURE_BUDGET_EXCEEDED);
      }
      nodes := nodes[id.value := ModuleNode(id.value, facts)];
      assert nodes == had + [ModuleNode(|had|, facts)];
      error := None;
    }

    /** One node and one link for each embedded module of one component. */
    method AddSlots(s: Scope, ghost modules: seq<Module>, ghost base: seq<Node>, ghost linked: seq<Link>)
      returns (error: Option<string>)
      requires Embedded(base, linked, modules)
      modifies this
      ensures scopes == old(scopes)
      ensures var all := modules + SlotModules(s, |s.slots|);
              && error == (if Fits(budget, |base|, |linked|, |all|) then None else Some(WASM_CLOSURE_BUDGET_EXCEEDED))
              && (error.None? ==> Embedded(base, linked, all))
    {
      ghost var all := modules;
      assert modules + [] == modules;
      var k := 0;
      while k < |s.slots|
        invariant 0 <= k <= |s.slots| && scopes == old(scopes)
        invariant all == modules + SlotModules(s, k) && Embedded(base, linked, all)
      {
        SlotStep(s, k);
        if s.slots[k].Some? {
          error := AddModule(Module(s.self, s.slots[k].value), all, base, linked);
          if error.Some? {
            SlotModulesGrow(s, k + 1, |s.slots|);
            return;
          }
          all := all + [Module(s.self, s.slots[k].value)];
          assert all == modules + SlotModules(s, k + 1);
        }
        k := k + 1;
      }
      error := None;
    }

    /** One node and one link for each embedded module, if they all fit. */
    method AddModules(all: seq<Scope>) returns (error: Option<string>)
      requires |nodes| == |all| && AllBelow(links, |all|)
      modifies this
      ensures error == if Fits(budget, |all|, |old(links)|, |Modules(all)|) then None
              else Some(WASM_CLOSURE_BUDGET_EXCEEDED)
      ensures error.None? ==>
                nodes == old(nodes) + ModuleNodes(Modules(all), |all|)
                  && links == old(links) + ModuleLinkSeq(Modules(all), |all|)
    {
      ghost var base, linked := nodes, links;
      assert base + ModuleNodes([], |all|) == base && linked + ModuleLinkSeq([], |all|) == linked;
      var i := 0;
      while i < |all|
        invariant 0 <= i <= |all| && Embedded(base, linked, Modules(all[..i]))
      {
        ModulesStep(all, i);
        error := AddSlots(all[i], Modules(all[..i]), base, linked);
        if error.Some? {
          ModulesGrow(all, i + 1);
          return;
        }
        i := i + 1;
      }
      assert all[..i] == all;
      error := None;
    }

    /** Nodes are those allocated so far, and no link leads beyond them. */
    ghost predicate Numbering()
      reads this
    {
      nodes == EmptyNodes(|nodes|) && AllBelow(links, |nodes|)
    }

    /** Parses one component into its scope; nested components are parsed where they stand. */
    method ParseComponent(c: Component, self: nat, depth: int) returns (error: Option<string>)
      requires |scopes| == self && |nodes| == self + 1 && Numbering()
      modifies this
      ensures error == ParseCode(c, self, depth, |old(links)|, budget)
      ensures error.None? ==>
                && Numbering() && |nodes| == self + 1 + Allocated(c, |c.items|)
                && scopes == old(scopes) + ScopesOf(c, self)
                && links == old(links) + LinkSeq(c, self, |c.items|)
      decreases c, 2
    {
      if depth > budget.maxDepth {
        return Some(WASM_CLOSURE_BUDGET_EXCEEDED);
      }
      ghost var linked := links;
      var scope := Scope(self, [], [], [], [], []);
      scopes := scopes + [scope];
      ghost var prefix := scopes;
      var i := 0;
      while i < |c.items|
        invariant 0 <= i <= |c.items| && Numbering()
        invariant ItemsCode(c, self, depth, |linked|, budget, i).None?
        invariant scope == ScopeUpTo(c, self, i)
        invariant scopes == prefix + NestedScopes(c, self, i) && |nodes| == |scopes|
        invariant links == linked + LinkSeq(c, self, i)
      {
        scope, error := ParseItem(c, self, scope, i, depth, prefix, linked);
        if error.Some? {
          ItemsCodeStays(c, self, depth, |linked|, budget, i + 1, |c.items|);
          return;
        }
        i := i + 1;
      }
      scopes := scopes[self := scope];
      error := None;
    }

    /** One item: what it adds to the scope, and for a nested component all that parsing it adds. */
    method ParseItem(
      c: Component, self: nat, before: Scope, i: nat, depth: int, ghost prefix: seq<Scope>, ghost linked: seq<Link>)
      returns (scope: Scope, error: Option<string>)
      requires i < |c.items| && before == ScopeUpTo(c, self, i) && Numbering()
      requires ItemsCode(c, self, depth, |linked|, budget, i).None?
      requires |prefix| == self + 1 && scopes == prefix + NestedScopes(c, self, i) && |nodes| == |scopes|
      requires links == linked + LinkSeq(c, self, i)
      modifies this
      ensures error == ItemsCode(c, self, depth, |linked|, budget, i + 1)
      ensures error.None? ==>
                && Numbering() && scope == ScopeUpTo(c, self, i + 1)
                && scopes == prefix + NestedScopes(c, self, i + 1) && |nodes| == |scopes|
                && links == linked + LinkSeq(c, self, i + 1)
      decreases c, 1
    {
      var item := c.items[i];
      scope := before;
      if item.MalformedItem? {
        return scope, Some(BinaryCode(item.error));
      } else if item.NestedItem? {
        ghost var was, had := scopes, links;
        ScopeUpToOk(c, self, i);
        scope, error := ParseNested(item.body, scope, depth);
        if error.None? { NestedStep(c, self, i, linked, prefix, was, had, scopes, links); }
      } else {
        PlainStep(c, self, i);
        scope := ParsePlain(c, self, before, i, linked);
        error := None;
      }
    }

    /** An item that nests nothing adds to the scope only. */
    method ParsePlain(c: Component, self: nat, before: Scope, i: nat, ghost linked: seq<Link>) returns (scope: Scope)
      requires i < |c.items| && before == ScopeUpTo(c, self, i) && !c.items[i].NestedItem?
      requires links == linked + LinkSeq(c, self, i)
      modifies this`links
      ensures scope == ScopeUpTo(c, self, i + 1) && links == old(links)
    {
      PlainStep(c, self, i);
      ScopeUpToOk(c, self, i + 1);
      scope := Extend(before, c.items[i], self + 1 + Allocated(c, i));
      LinkInstance(c, scope, i + 1, c.items[i]);
    }

    /** Allocates the nested component, lists it, parses it and links it, in this order. */
    method ParseNested(body: Component, listed: Scope, depth: int) returns (scope: Scope, error: Option<string>)
      requires Numbering() && |nodes| == |scopes| && listed.self < |scopes|
      modifies this
      ensures error == NestedCode(body, |old(scopes)|, depth + 1, |old(links)|, budget)
      ensures error.None? ==>
                var child := |old(scopes)|;
                && Numbering() && |nodes| == |scopes|
                && scope == Extend(listed, NestedItem(body), child)
                && scopes == old(scopes) + ScopesOf(body, child)
                && links == old(links) + (LinkSeq(body, child, |body.items|) + [Link(listed.self, child)])
      decreases body, 3
    {
      scope := listed;
      ghost var had, linked := nodes, links;
      var id := AllocateNode(WasmClosure.Kind.Component);
      if id.None? {
        return scope, Some(WASM_CLOSURE_BUDGET_EXCEEDED);
      }
      assert had + [EmptyNode(|had|, WasmClosure.Kind.Component)] == EmptyNodes(|had| + 1);
      scope := Extend(scope, NestedItem(body), id.value);
      error := ParseComponent(body, id.value, depth + 1);
      if error.Some? {
        return;
      }
      NewNestedLink(linked, body, id.value, scope.self);
      var ok := AddLink(Link(scope.self, id.value));
      if !ok {
        return scope, Some(WASM_CLOSURE_BUDGET_EXCEEDED);
      }
    }

    /** An instantiation links its component, which was linked when it was parsed. */
    method LinkInstance(c: Component, scope: Scope, n: nat, item: Item)
      requires 0 < n <= |c.items| && c.items[n - 1] == item && scope == ScopeUpTo(c, scope.self, n)
      requires forall l :: l in LinkSeq(c, scope.self, n) ==> l in links
      modifies this`links
      ensures links == old(links)
    {
      if item.InstanceItem? && item.prov.Instantiated? {
        var k := item.prov.componentIdx;
        if k < |scope.components| && scope.components[k].Some? {
          ListedIsLinked(c, scope.self, n, k);
          LinkSeqIs(c, scope.self, n, Link(scope.self, scope.components[k].value));
          var ok := AddLink(Link(scope.self, scope.components[k].value));
          assert ok;
        }
      }
    }
  }

  // ------------------------------------------------------------------ occurrences

  method CollectImports(s: Scope) returns (bad: bool, ds: seq<Draft>)
    ensures bad <==> Undecodable(s)
    ensures !bad ==> ds == ImportDrafts(s, |s.imports|)
  {
    ds := [];
    var k := 0;
    while k < |s.imports|
      invariant 0 <= k <= |s.imports| && ds == ImportDrafts(s, k)
      invariant forall j :: 0 <= j < k ==> !(IsTypedImport(s.imports[j]) && s.imports[j].shape.None?)
    {
      var imp := s.imports[k];
      if imp.sort == SortInstance && imp.wit.Some? {
        if imp.shape.None? {
          return true, ds;
        }
        ds := ds + [Draft(s.self, imp.wit.value, Import, imp.shape.value, None)];
      }
      k := k + 1;
    }
    bad := false;
  }

  /** Follows alias exports back to the instantiated component. */
  method FindProviderAlias(s: Scope, index: nat) returns (alias: Option<nat>)
    ensures alias == ProviderAliasOfExport(s, index)
  {
    var current: nat, guard: nat := index, 0;
    while guard <= |s.provs| + 1
      invariant guard <= |s.provs| + 2
      invariant ProviderAliasOfExport(s, index) == AliasFrom(s, current, |s.provs| + 2 - guard)
    {
      guard := guard + 1;
      if current >= |s.provs| {
        return None;
      }
      var prov := s.provs[current];
      if prov.Instantiated? {
        return if prov.componentIdx < |s.components| then s.components[prov.componentIdx] else None;
      }
      if !prov.ExportOf? {
        return None;
      }
      current := prov.instanceIdx;
    }
    alias := None;
  }

  method CollectExports(s: Scope) returns (ds: seq<Draft>)
    ensures ds == ExportDrafts(s, |s.exports|)
  {
    ds := [];
    var k := 0;
    while k < |s.exports|
      invariant 0 <= k <= |s.exports| && ds == ExportDrafts(s, k)
    {
      var exp := s.exports[k];
      if exp.sort == SortInstance && exp.wit.Some? {
        var alias := FindProviderAlias(s, exp.index);
        ds := ds + [Draft(s.self, exp.wit.value, Export, exp.shape, alias)];
      }
      k := k + 1;
    }
  }

  method CollectDrafts(scopes: seq<Scope>) returns (bad: bool, ds: seq<Draft>)
    ensures bad <==> exists i :: 0 <= i < |scopes| && Undecodable(scopes[i])
    ensures !bad ==> ds == Drafts(scopes)
  {
    ds := [];
    var i := 0;
    while i < |scopes|
      invariant 0 <= i <= |scopes| && ds == Drafts(scopes[..i])
      invariant forall j :: 0 <= j < i ==> !Undecodable(scopes[j])
    {
      var undecodable, imports := CollectImports(scopes[i]);
      if undecodable {
        return true, ds;
      }
      var exports := CollectExports(scopes[i]);
      assert scopes[..i + 1][..i] == scopes[..i];
      ds := ds + imports + exports;
      i := i + 1;
    }
    assert scopes[..i] == scopes;
    bad := false;
  }

  method FindDiverged(ds: seq<Draft>, subsumed: Subsumes) returns (diverged: set<string>)
    ensures diverged == Diverged(ds, subsumed)
  {
    diverged := {};
    var i := 0;
    while i < |ds|
      invariant 0 <= i <= |ds|
      invariant diverged == set a, b | 0 <= a < i && 0 <= b < |ds| && Clash(ds[a], ds[b], subsumed) :: Anchor(ds[a])
    {
      var clashes := Clashes(ds, i, subsumed);
      if clashes {
        diverged := diverged + {Anchor(ds[i])};
      }
      i := i + 1;
    }
  }

  method Clashes(ds: seq<Draft>, i: nat, subsumed: Subsumes) returns (found: bool)
    requires i < |ds|
    ensures found <==> exists k :: 0 <= k < |ds| && Clash(ds[i], ds[k], subsumed)
  {
    found := false;
    if ds[i].direction != Import {
      return;
    }
    var k := 0;
    while k < |ds|
      invariant 0 <= k <= |ds|
      invariant found <==> exists j :: 0 <= j < k && Clash(ds[i], ds[j], subsumed)
    {
      if ds[k].direction == Export && Anchor(ds[k]) == Anchor(ds[i]) && !subsumed(ds[i].shape, ds[k].shape) {
        found := true;
      }
      k := k + 1;
    }
  }

  function ListOf(m: map<nat, seq<Occurrence>>, n: nat): seq<Occurrence> {
    if n in m then m[n] else []
  }

  /** The occurrence of one draft, and the next number for a diverged one. */
  method TagDraft(ds: seq<Draft>, diverged: set<string>, i: nat, divergeSeq: nat) returns (e: Occurrence, next: nat)
    requires i < |ds| && divergeSeq == DivergedBefore(ds, diverged, i)
    ensures e == OccurrenceOf(ds, diverged, i) && next == DivergedBefore(ds, diverged, i + 1)
  {
    var d := ds[i];
    next := divergeSeq;
    var typeTag := "wit:v1:" + Anchor(d);
    if Anchor(d) in diverged {
      typeTag := typeTag + "#div:" + DecimalText(divergeSeq);
      next := next + 1;
    }
    e := Occurrence(d.wit.package, d.wit.iface, d.direction, typeTag,
                    if d.alias.Some? then Some(NodeId(d.alias.value)) else None);
  }

  /** One tag per draft, numbered apart where the interface diverged, grouped by node. */
  method GroupInterfaces(ds: seq<Draft>, diverged: set<string>) returns (byNode: map<nat, seq<Occurrence>>)
    ensures forall n: nat :: ListOf(byNode, n) == InterfacesOf(ds, diverged, n, |ds|)
  {
    byNode := map[];
    var divergeSeq := 0;
    var i := 0;
    while i < |ds|
      invariant 0 <= i <= |ds| && divergeSeq == DivergedBefore(ds, diverged, i)
      invariant forall n: nat :: ListOf(byNode, n) == InterfacesOf(ds, diverged, n, i)
    {
      var occurrence;
      occurrence, divergeSeq := TagDraft(ds, diverged, i, divergeSeq);
      InterfacesStep(ds, diverged, i);
      byNode := byNode[ds[i].node := ListOf(byNode, ds[i].node) + [occurrence]];
      i := i + 1;
    }
  }

  lemma InterfacesStep(ds: seq<Draft>, diverged: set<string>, i: nat)
    requires i < |ds|
    ensures forall n: nat :: InterfacesOf(ds, diverged, n, i + 1) ==
              if ds[i].node == n then InterfacesOf(ds, diverged, n, i) + [OccurrenceOf(ds, diverged, i)]
              else InterfacesOf(ds, diverged, n, i)
  {
  }

  method BuildComponentNodes(ds: seq<Draft>, diverged: set<string>, n: nat) returns (nodes: seq<Node>)
    ensures nodes == ComponentNodes(ds, diverged, n)
  {
    var byNode := GroupInterfaces(ds, diverged);
    nodes := [];
    var i := 0;
    while i < n
      invariant 0 <= i <= n && nodes == ComponentNodes(ds, diverged, i)
    {
      nodes := nodes + [Node(NodeId(i), WasmClosure.Kind.Component, ListOf(byNode, i), [], [], [])];
      i := i + 1;
    }
  }

  // ------------------------------------------------------------------ the scan

  /** The entry imports typed interfaces only and exports exactly one entry. */
  method CheckEntry(entry: Scope) returns (code: Option<string>)
    ensures code == EntryCode(entry)
  {
    var k := 0;
    while k < |entry.imports|
      invariant 0 <= k <= |entry.imports| && forall j :: 0 <= j < k ==> IsTypedImport(entry.imports[j])
    {
      if entry.imports[k].sort != SortInstance || entry.imports[k].wit.None? {
        return Some(WASM_IMPORT_UNMAPPABLE);
      }
      k := k + 1;
    }
    if |entry.exports| != 1 {
      return Some(WASM_EXPORT_MISMATCH);
    }
    code := None;
  }

  method RenderEdges(links: seq<Link>) returns (edges: seq<Edge>)
    ensures edges == EdgesOf(links)
  {
    edges := [];
    var i := 0;
    while i < |links|
      invariant 0 <= i <= |links| && |edges| == i && forall k :: 0 <= k < i ==> edges[k] == EdgeOf(links[k])
    {
      edges := edges + [EdgeOf(links[i])];
      i := i + 1;
    }
  }

  /** A scan yields the graph of the component, or the code of the first failure. */
  method ScanWasmClosure(
    entry: Component, world: string, hostABI: string, declared: seq<Capability>, budget: Budget, subsumed: Subsumes)
    returns (r: ScanResult)
    ensures r == ScanSpec(entry, world, hostABI, declared, budget, subsumed)
  {
    var ctx := new ParseContext(budget);
    var id := ctx.AllocateNode(WasmClosure.Kind.Component);
    if id.None? {
      return Aborted(WASM_CLOSURE_BUDGET_EXCEEDED);
    }
    assert ctx.nodes == EmptyNodes(1);
    var error := ctx.ParseComponent(entry, 0, 1);
    if error.Some? {
      return Aborted(error.value);
    }
    var scopes := ctx.scopes;
    assert scopes == ScopesOf(entry, 0) && ctx.links == LinkSeq(entry, 0, |entry.items|);
    error := CheckEntry(scopes[0]);
    if error.Some? {
      return Aborted(error.value);
    }
    var bad, ds := CollectDrafts(scopes);
    if bad {
      return Aborted(BinaryCode(SectionInvalid));
    }
    var diverged := FindDiverged(ds, subsumed);
    ctx.nodes := BuildComponentNodes(ds, diverged, |scopes|);
    LinkSeqRises(entry, 0, |entry.items|);
    error := ctx.AddModules(scopes);
    if error.Some? {
      return Aborted(error.value);
    }
    var edges := RenderEdges(ctx.links);
    r := Scanned(Graph(world, hostABI, NodeId(0), ctx.nodes, edges, declared, budget));
  }

  // ------------------------------------------------------------------ scan and validate

  datatype ScanValidation = Valid(graph: Graph, discovered: seq<Capability>) | Invalid(code: string)

  /** Scanning and validating: the code of the scan, or else of the validator's first failing
      step on the component's graph, and never CYCLE or GRAPH_INVALID; accepted exactly when
      neither fails. */
  method ScanAndValidateWasmClosure(
    entry: Component, world: string, hostABI: string, declared: seq<Capability>, budget: Budget, subsumed: Subsumes,
    m: Matrix)
    returns (r: ScanValidation)
    ensures var g := GraphOf(entry, world, hostABI, declared, budget, subsumed);
            var code := if ScanCodeOf(entry, budget).Some? then ScanCodeOf(entry, budget) else FailureCode(g, m);
            if code.Some? then r == Invalid(code.value)
            else r.Valid? && r.graph == g && SortedCapabilities(r.discovered)
    ensures r.Invalid? ==> r.code != WASM_CLOSURE_CYCLE && r.code != WASM_CLOSURE_GRAPH_INVALID
    ensures r.Valid? && MatrixOk(m) ==> SetOf(r.discovered) == SetOf(declared)
  {
    var scanned := ScanWasmClosure(entry, world, hostABI, declared, budget, subsumed);
    if scanned.Aborted? {
      ScanCodesDiffer(entry, budget);
      return Invalid(scanned.code);
    }
    var g := scanned.graph;
    GraphOfMatches(entry, world, hostABI, declared, budget, subsumed);
    MatchedGraphHasShape(g, entry, subsumed);
    ScannedNeverInvalidOrCyclic(g, m);
    var verdict := ValidateWasmCapabilityClosure(g, m);
    if verdict.Rejected? {
      return Invalid(verdict.code);
    }
    if MatrixOk(m) { DeclaredAreDiscovered(g, m); }
    r := Valid(g, verdict.discovered);
  }

  // ------------------------------------------------------------------ steps of the specification

  lemma Associates<T>(a: seq<T>, b: seq<T>, c: seq<T>)
    ensures a + b + c == a + (b + c)
  {
  }

  lemma SlotStep(s: Scope, k: nat)
    requires k < |s.slots|
    ensures SlotModules(s, k + 1) == SlotModules(s, k) + if s.slots[k].Some? then [Module(s.self, s.slots[k].value)]
            else []
  {
  }

  lemma ModulesStep(scopes: seq<Scope>, i: nat)
    requires i < |scopes|
    ensures Modules(scopes[..i + 1]) == Modules(scopes[..i]) + SlotModules(scopes[i], |scopes[i].slots|)
  {
    assert scopes[..i + 1][..i] == scopes[..i];
  }

  lemma OneMoreModule(modules: seq<Module>, m: Module, start: nat)
    ensures ModuleNodes(modules + [m], start) == ModuleNodes(modules, start) + [ModuleNode(start + |modules|, m.facts)]
    ensures ModuleLinkSeq(modules + [m], start) == ModuleLinkSeq(modules, start) + [Link(m.owner, start + |modules|)]
  {
  }

  lemma NewModuleLink(linked: seq<Link>, modules: seq<Module>, start: nat, owner: nat)
    requires AllBelow(linked, start)
    ensures Link(owner, start + |modules|) !in linked + ModuleLinkSeq(modules, start)
  {
  }

  lemma {:induction false} SlotModulesGrow(s: Scope, k: nat, n: nat)
    requires k <= n <= |s.slots|
    ensures |SlotModules(s, k)| <= |SlotModules(s, n)|
    decreases n
  {
    if k < n { SlotModulesGrow(s, k, n - 1); }
  }

  lemma {:induction false} ModulesGrow(scopes: seq<Scope>, i: nat)
    requires i <= |scopes|
    ensures |Modules(scopes[..i])| <= |Modules(scopes)|
    decreases |scopes| - i
  {
    if i < |scopes| {
      ModulesStep(scopes, i);
      ModulesGrow(scopes, i + 1);
    } else {
      assert scopes[..i] == scopes;
    }
  }

  lemma {:induction false} ItemsCodeStays(c: Component, self: nat, depth: int, linked: nat, b: Budget, i: nat, n: nat)
    requires i <= n <= |c.items| && ItemsCode(c, self, depth, linked, b, i).Some?
    ensures ItemsCode(c, self, depth, linked, b, n) == ItemsCode(c, self, depth, linked, b, i)
    decreases n
  {
    if i < n { ItemsCodeStays(c, self, depth, linked, b, i, n - 1); }
  }

  /** A component just parsed is not linked yet, and its link is within the allocated numbers. */
  lemma NewNestedLink(linked: seq<Link>, body: Component, child: nat, owner: nat)
    requires AllBelow(linked, child) && owner < child
    ensures Link(owner, child) !in linked + LinkSeq(body, child, |body.items|)
    ensures AllBelow(linked + LinkSeq(body, child, |body.items|) + [Link(owner, child)],
                     child + 1 + Allocated(body, |body.items|))
  {
    LinkSeqRises(body, child, |body.items|);
  }

  /** What a nested component adds, behind all that was there before. */
  lemma NestedStep(
    c: Component, self: nat, i: nat, linked: seq<Link>, prefix: seq<Scope>,
    was: seq<Scope>, had: seq<Link>, scopes: seq<Scope>, links: seq<Link>)
    requires i < |c.items| && c.items[i].NestedItem?
    requires was == prefix + NestedScopes(c, self, i) && had == linked + LinkSeq(c, self, i)
    requires var body, child := c.items[i].body, self + 1 + Allocated(c, i);
             && scopes == was + ScopesOf(body, child)
             && links == had + (LinkSeq(body, child, |body.items|) + [Link(self, child)])
    ensures scopes == prefix + NestedScopes(c, self, i + 1) && links == linked + LinkSeq(c, self, i + 1)
  {
    var body, child := c.items[i].body, self + 1 + Allocated(c, i);
    Associates(linked, LinkSeq(c, self, i), LinkSeq(body, child, |body.items|) + [Link(self, child)]);
    Associates(prefix, NestedScopes(c, self, i), ScopesOf(body, child));
  }

  lemma PlainStep(c: Component, self: nat, i: nat)
    requires i < |c.items| && !c.items[i].NestedItem?
    ensures NestedScopes(c, self, i + 1) == NestedScopes(c, self, i) && Allocated(c, i + 1) == Allocated(c, i)
    ensures LinkSeq(c, self, i + 1) == LinkSeq(c, self, i)
  {
  }
}
