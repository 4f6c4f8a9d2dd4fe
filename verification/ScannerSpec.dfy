/** What the scanner builds from a decoded component: scopes in order of parsing, links
    between allocated nodes, typed interface occurrences and module nodes.

    Decoding to sections, type rendering and component names are not modelled: a component
    comes as the list of its decoded items, the first malformed one included. */
module ScannerSpec {
  import opened Basics
  import opened Decimal
  import opened WitCapability
  import opened WasmClosure
  import opened ScannedGraph

  datatype BinaryError = InvalidHeader | Truncated | SectionInvalid | LebInvalid | StringInvalid

  function BinaryCode(e: BinaryError): string {
    match e
    case InvalidHeader => "WASM_BINARY_INVALID_HEADER"
    case Truncated => "WASM_BINARY_TRUNCATED"
    case SectionInvalid => "WASM_BINARY_SECTION_INVALID"
    case LebInvalid => "WASM_BINARY_LEB_INVALID"
    case StringInvalid => "WASM_BINARY_STRING_INVALID"
  }

  datatype Interface = Interface(package: string, iface: string)

  datatype Sort = SortModule | SortFunc | SortValue | SortType | SortComponent | SortInstance

  /** `wit` is the interface identity its name parses to, `shape` its decoded instance type. */
  datatype ImportEntry = ImportEntry(sort: Sort, wit: Option<Interface>, shape: Option<string>)

  datatype ExportEntry = ExportEntry(sort: Sort, index: nat, wit: Option<Interface>, shape: string)

  datatype Provenance = Instantiated(componentIdx: nat) | Imported | Inline | ExportOf(instanceIdx: nat) | Outer

  datatype Facts =
    | AdapterFacts(translations: seq<string>)
    | CoreFacts(rawImports: seq<string>, instanceBound: seq<string>)

  datatype Item =
    | ModuleItem(facts: Facts)
    | NestedItem(body: Component)
    | InstanceItem(prov: Provenance)
    | OuterComponentItem
    | OuterModuleItem
    | ImportItem(imp: ImportEntry)
    | ExportItem(exp: ExportEntry)
    | MalformedItem(error: BinaryError)

  datatype Component = Component(items: seq<Item>)

  /** The index spaces of one component, filled in the order of its items. */
  datatype Scope = Scope(
    self: nat,
    imports: seq<ImportEntry>,
    exports: seq<ExportEntry>,
    provs: seq<Provenance>,
    components: seq<Option<nat>>,
    slots: seq<Option<Facts>>)

  datatype Link = Link(source: nat, target: nat)

  // ------------------------------------------------------------------ scopes and links

  /** How many nodes the first `n` items allocate, nested ones included. */
  function Allocated(c: Component, n: nat): nat
    requires n <= |c.items|
    decreases c, n
  {
    if n == 0 then 0
    else
      Allocated(c, n - 1) +
      if c.items[n - 1].NestedItem? then 1 + Allocated(c.items[n - 1].body, |c.items[n - 1].body.items|) else 0
  }

  function ProvOf(provs: seq<Provenance>, index: nat): Provenance {
    if index < |provs| then provs[index] else Outer
  }

  /** The scope after one more item; `child` is the number of a component nested there. */
  function Extend(s: Scope, item: Item, child: nat): Scope {
    match item
    case ModuleItem(facts) => s.(slots := s.slots + [Some(facts)])
    case NestedItem(_) => s.(components := s.components + [Some(child)])
    case InstanceItem(prov) => s.(provs := s.provs + [prov])
    case OuterComponentItem => s.(components := s.components + [None])
    case OuterModuleItem => s.(slots := s.slots + [None])
    case ImportItem(imp) =>
      var t := s.(imports := s.imports + [imp]);
      (match imp.sort
       case SortModule => t.(slots := t.slots + [None])
       case SortComponent => t.(components := t.components + [None])
       case SortInstance => t.(provs := t.provs + [Imported])
       case _ => t)
    case ExportItem(exp) =>
      var t := s.(exports := s.exports + [exp]);
      if exp.sort == SortInstance then t.(provs := t.provs + [ProvOf(t.provs, exp.index)]) else t
    case MalformedItem(_) => s
  }

  function ScopeUpTo(c: Component, self: nat, n: nat): Scope
    requires n <= |c.items|
  {
    if n == 0 then Scope(self, [], [], [], [], [])
    else Extend(ScopeUpTo(c, self, n - 1), c.items[n - 1], self + 1 + Allocated(c, n - 1))
  }

  /** The scopes of the components nested in the first `n` items, in order of parsing. */
  function NestedScopes(c: Component, self: nat, n: nat): (r: seq<Scope>)
    requires n <= |c.items|
    ensures |r| == Allocated(c, n)
    decreases c, n
  {
    if n == 0 then []
    else
      var item := c.items[n - 1];
      var child := self + 1 + Allocated(c, n - 1);
      NestedScopes(c, self, n - 1) +
      if item.NestedItem? then
        [ScopeUpTo(item.body, child, |item.body.items|)] + NestedScopes(item.body, child, |item.body.items|)
      else []
  }

  function ScopesOf(c: Component, self: nat): seq<Scope> {
    [ScopeUpTo(c, self, |c.items|)] + NestedScopes(c, self, |c.items|)
  }

  /** One link from every component to each component nested directly in it. */
  function NestedLinks(c: Component, self: nat, n: nat): set<Link>
    requires n <= |c.items|
    decreases c, n
  {
    if n == 0 then {}
    else
      var item := c.items[n - 1];
      var child := self + 1 + Allocated(c, n - 1);
      NestedLinks(c, self, n - 1) +
      if item.NestedItem? then {Link(self, child)} + NestedLinks(item.body, child, |item.body.items|) else {}
  }

  /** A component listed in the scope was linked when it was parsed. */
  lemma {:induction false} ListedIsLinked(c: Component, self: nat, n: nat, k: nat)
    requires n <= |c.items| && k < |ScopeUpTo(c, self, n).components| && ScopeUpTo(c, self, n).components[k].Some?
    ensures Link(self, ScopeUpTo(c, self, n).components[k].value) in NestedLinks(c, self, n)
  {
    if n > 0 {
      var before := ScopeUpTo(c, self, n - 1).components;
      if k < |before| { ListedIsLinked(c, self, n - 1, k); }
    }
  }

  /** Links rise and stay within the allocated numbers. */
  lemma {:induction false} NestedLinksRise(c: Component, self: nat, n: nat, l: Link)
    requires n <= |c.items| && l in NestedLinks(c, self, n)
    ensures self <= l.source < l.target <= self + Allocated(c, n)
    decreases c, n
  {
    var item := c.items[n - 1];
    var child := self + 1 + Allocated(c, n - 1);
    if l in NestedLinks(c, self, n - 1) {
      NestedLinksRise(c, self, n - 1, l);
    } else if l != Link(self, child) {
      NestedLinksRise(item.body, child, |item.body.items|, l);
    }
  }

  /** Every number after `self` is the target of a link. */
  lemma {:induction false} NestedAreLinked(c: Component, self: nat, n: nat, b: nat)
    requires n <= |c.items| && self < b <= self + Allocated(c, n)
    ensures exists a :: Link(a, b) in NestedLinks(c, self, n)
    decreases c, n
  {
    var item := c.items[n - 1];
    var child := self + 1 + Allocated(c, n - 1);
    if b < child {
      NestedAreLinked(c, self, n - 1, b);
      var a :| Link(a, b) in NestedLinks(c, self, n - 1);
      assert Link(a, b) in NestedLinks(c, self, n);
    } else if b == child {
      assert Link(self, b) in NestedLinks(c, self, n);
    } else {
      NestedAreLinked(item.body, child, |item.body.items|, b);
      var a :| Link(a, b) in NestedLinks(item.body, child, |item.body.items|);
      assert Link(a, b) in NestedLinks(c, self, n);
    }
  }

  /** A number is the target of one link: a component is nested in one place. */
  lemma {:induction false} NestedOnce(c: Component, self: nat, n: nat, l: Link, k: Link)
    requires n <= |c.items| && l in NestedLinks(c, self, n) && k in NestedLinks(c, self, n) && l.target == k.target
    ensures l == k
    decreases c, n
  {
    var item := c.items[n - 1];
    var child := self + 1 + Allocated(c, n - 1);
    NestedLinksSplit(c, self, n, l);
    NestedLinksSplit(c, self, n, k);
    if l.target < child {
      NestedOnce(c, self, n - 1, l, k);
    } else if l.target > child {
      NestedOnce(item.body, child, |item.body.items|, l, k);
    }
  }

  /** The target tells where a link comes from: earlier items, this one, or inside it. */
  lemma NestedLinksSplit(c: Component, self: nat, n: nat, l: Link)
    requires 0 < n <= |c.items| && l in NestedLinks(c, self, n)
    ensures var item := c.items[n - 1];
            var child := self + 1 + Allocated(c, n - 1);
            && (l.target < child <==> l in NestedLinks(c, self, n - 1))
            && (l.target == child <==> l == Link(self, child))
            && (l.target > child ==> item.NestedItem? && l in NestedLinks(item.body, child, |item.body.items|))
  {
    var item := c.items[n - 1];
    var child := self + 1 + Allocated(c, n - 1);
    if l in NestedLinks(c, self, n - 1) {
      NestedLinksRise(c, self, n - 1, l);
    }
    if item.NestedItem? && l in NestedLinks(item.body, child, |item.body.items|) {
      NestedLinksRise(item.body, child, |item.body.items|, l);
    }
  }

  predicate ScopeOk(s: Scope, bound: nat) {
    forall k :: 0 <= k < |s.components| && s.components[k].Some? ==> s.self < s.components[k].value <= bound
  }

  lemma {:induction false} ScopeUpToOk(c: Component, self: nat, n: nat)
    requires n <= |c.items|
    ensures ScopeUpTo(c, self, n).self == self && ScopeOk(ScopeUpTo(c, self, n), self + Allocated(c, n))
  {
    if n > 0 { ScopeUpToOk(c, self, n - 1); }
  }

  /** Scope number `i` of the list belongs to node `self + 1 + i`. */
  lemma {:induction false} NestedScopesOk(c: Component, self: nat, n: nat, i: nat)
    requires n <= |c.items| && i < Allocated(c, n)
    ensures NestedScopes(c, self, n)[i].self == self + 1 + i
    ensures ScopeOk(NestedScopes(c, self, n)[i], self + Allocated(c, n))
    decreases c, n
  {
    var item := c.items[n - 1];
    var before := Allocated(c, n - 1);
    var child := self + 1 + before;
    if i < before {
      NestedScopesOk(c, self, n - 1, i);
      assert NestedScopes(c, self, n)[i] == NestedScopes(c, self, n - 1)[i];
    } else if i == before {
      ScopeUpToOk(item.body, child, |item.body.items|);
      assert NestedScopes(c, self, n)[i] == ScopeUpTo(item.body, child, |item.body.items|);
    } else {
      NestedScopesOk(item.body, child, |item.body.items|, i - before - 1);
      assert NestedScopes(c, self, n)[i] == NestedScopes(item.body, child, |item.body.items|)[i - before - 1];
    }
  }

  lemma ScopesOfOk(c: Component, i: nat)
    requires i < |ScopesOf(c, 0)|
    ensures ScopesOf(c, 0)[i].self == i && ScopeOk(ScopesOf(c, 0)[i], |ScopesOf(c, 0)| - 1)
  {
    if i == 0 { ScopeUpToOk(c, 0, |c.items|); } else { NestedScopesOk(c, 0, |c.items|, i - 1); }
  }

  // ------------------------------------------------------------------ occurrences

  datatype Draft = Draft(node: nat, wit: Interface, direction: Direction, shape: string, alias: Option<nat>)

  function Anchor(d: Draft): string { WasmInterfaceKey(d.wit.package, d.wit.iface) }

  /** The nested component an exported instance was instantiated from, if it was; `guard`
      bounds the chain of aliases as the source's counter does. */
  function AliasFrom(s: Scope, index: nat, guard: nat): Option<nat>
    decreases guard
  {
    if guard == 0 || index >= |s.provs| then None
    else match s.provs[index]
      case Instantiated(k) => if k < |s.components| then s.components[k] else None
      case ExportOf(i) => AliasFrom(s, i, guard - 1)
      case _ => None
  }

  function ProviderAliasOfExport(s: Scope, index: nat): Option<nat> { AliasFrom(s, index, |s.provs| + 2) }

  lemma {:induction false} AliasIsNested(s: Scope, index: nat, guard: nat, bound: nat)
    requires ScopeOk(s, bound) && AliasFrom(s, index, guard).Some?
    ensures s.self < AliasFrom(s, index, guard).value <= bound
    decreases guard
  {
    if s.provs[index].ExportOf? { AliasIsNested(s, s.provs[index].instanceIdx, guard - 1, bound); }
  }

  predicate IsTypedImport(i: ImportEntry) { i.sort == SortInstance && i.wit.Some? }

  predicate IsTypedExport(e: ExportEntry) { e.sort == SortInstance && e.wit.Some? }

  function ImportDrafts(s: Scope, n: nat): seq<Draft>
    requires n <= |s.imports|
  {
    if n == 0 then []
    else
      var i := s.imports[n - 1];
      ImportDrafts(s, n - 1) +
      if IsTypedImport(i) && i.shape.Some? then [Draft(s.self, i.wit.value, Import, i.shape.value, None)] else []
  }

  function ExportDrafts(s: Scope, n: nat): seq<Draft>
    requires n <= |s.exports|
  {
    if n == 0 then []
    else
      var e := s.exports[n - 1];
      ExportDrafts(s, n - 1) +
      if IsTypedExport(e) then [Draft(s.self, e.wit.value, Export, e.shape, ProviderAliasOfExport(s, e.index))] else []
  }

  function Drafts(scopes: seq<Scope>): seq<Draft> {
    if scopes == [] then []
    else
      var last := scopes[|scopes| - 1];
      Drafts(scopes[..|scopes| - 1]) + ImportDrafts(last, |last.imports|) + ExportDrafts(last, |last.exports|)
  }

  /** A typed import whose instance type could not be decoded. */
  predicate Undecodable(s: Scope) {
    exists k :: 0 <= k < |s.imports| && IsTypedImport(s.imports[k]) && s.imports[k].shape.None?
  }

  predicate DraftOk(d: Draft, n: nat) {
    d.node < n && (d.alias.Some? ==> d.alias.value < n)
  }

  predicate DraftsOk(ds: seq<Draft>, n: nat) { forall i :: 0 <= i < |ds| ==> DraftOk(ds[i], n) }

  lemma {:induction false} ImportDraftsOk(s: Scope, k: nat, n: nat)
    requires k <= |s.imports| && s.self < n
    ensures DraftsOk(ImportDrafts(s, k), n)
  {
    if k > 0 { ImportDraftsOk(s, k - 1, n); }
  }

  lemma {:induction false} ExportDraftsOk(s: Scope, k: nat, n: nat)
    requires k <= |s.exports| && s.self < n && ScopeOk(s, n - 1)
    ensures DraftsOk(ExportDrafts(s, k), n)
  {
    if k > 0 {
      ExportDraftsOk(s, k - 1, n);
      var index := s.exports[k - 1].index;
      if ProviderAliasOfExport(s, index).Some? { AliasIsNested(s, index, |s.provs| + 2, n - 1); }
    }
  }

  lemma {:induction false} AllDraftsOk(scopes: seq<Scope>, n: nat)
    requires forall i :: 0 <= i < |scopes| ==> scopes[i].self < n && ScopeOk(scopes[i], n - 1)
    ensures DraftsOk(Drafts(scopes), n)
  {
    if scopes != [] {
      AllDraftsOk(scopes[..|scopes| - 1], n);
      var last := scopes[|scopes| - 1];
      ImportDraftsOk(last, |last.imports|, n);
      ExportDraftsOk(last, |last.exports|, n);
    }
  }

  // ------------------------------------------------------------------ type tags

  type Subsumes = (string, string) -> bool

  predicate Clash(a: Draft, b: Draft, subsumed: Subsumes) {
    a.direction == Import && b.direction == Export && Anchor(a) == Anchor(b) && !subsumed(a.shape, b.shape)
  }

  /** Interfaces with an import some export of the same name does not satisfy. */
  function Diverged(ds: seq<Draft>, subsumed: Subsumes): set<string> {
    set i, k | 0 <= i < |ds| && 0 <= k < |ds| && Clash(ds[i], ds[k], subsumed) :: Anchor(ds[i])
  }

  /** How many of the first `n` drafts are of diverged interfaces. */
  function DivergedBefore(ds: seq<Draft>, diverged: set<string>, n: nat): nat
    requires n <= |ds|
  {
    if n == 0 then 0 else DivergedBefore(ds, diverged, n - 1) + if Anchor(ds[n - 1]) in diverged then 1 else 0
  }

  function TypeTag(ds: seq<Draft>, diverged: set<string>, i: nat): string
    requires i < |ds|
  {
    if Anchor(ds[i]) in diverged
    then "wit:v1:" + Anchor(ds[i]) + "#div:" + DecimalText(DivergedBefore(ds, diverged, i))
    else "wit:v1:" + Anchor(ds[i])
  }

  lemma {:induction false} DivergedCounts(ds: seq<Draft>, diverged: set<string>, i: nat, k: nat)
    requires i < k <= |ds| && Anchor(ds[i]) in diverged
    ensures DivergedBefore(ds, diverged, i) < DivergedBefore(ds, diverged, k)
    decreases k
  {
    if i < k - 1 { DivergedCounts(ds, diverged, i, k - 1); }
  }

  lemma SameStart(start: string, a: string, b: string)
    requires start + a == start + b
    ensures a == b
  {
    assert (start + a)[|start|..] == a && (start + b)[|start|..] == b;
  }

  /** Two occurrences of a diverged interface never carry the same tag. */
  lemma DivergedTagsDiffer(ds: seq<Draft>, diverged: set<string>, i: nat, k: nat)
    requires i < k < |ds| && Anchor(ds[i]) == Anchor(ds[k]) && Anchor(ds[i]) in diverged
    ensures TypeTag(ds, diverged, i) != TypeTag(ds, diverged, k)
  {
    DivergedCounts(ds, diverged, i, k);
    var start := "wit:v1:" + Anchor(ds[i]) + "#div:";
    var a, b := DivergedBefore(ds, diverged, i), DivergedBefore(ds, diverged, k);
    if start + DecimalText(a) == start + DecimalText(b) {
      SameStart(start, DecimalText(a), DecimalText(b));
      DecimalInjective(a, b);
    }
  }

  function OccurrenceOf(ds: seq<Draft>, diverged: set<string>, i: nat): Occurrence
    requires i < |ds|
  {
    Occurrence(ds[i].wit.package, ds[i].wit.iface, ds[i].direction, TypeTag(ds, diverged, i),
               if ds[i].alias.Some? then Some(NodeId(ds[i].alias.value)) else None)
  }

  /** The occurrences of one node among the first `n` drafts, in order. */
  function InterfacesOf(ds: seq<Draft>, diverged: set<string>, node: nat, n: nat): seq<Occurrence>
    requires n <= |ds|
  {
    if n == 0 then []
    else
      InterfacesOf(ds, diverged, node, n - 1) + if ds[n - 1].node == node then [OccurrenceOf(ds, diverged, n - 1)]
        else []
  }

  lemma {:induction false} InterfacesComeFromDrafts(ds: seq<Draft>, diverged: set<string>, node: nat, n: nat,
                                                    e: Occurrence)
    requires n <= |ds| && e in InterfacesOf(ds, diverged, node, n)
    ensures exists i: nat :: i < n && ds[i].node == node && e == OccurrenceOf(ds, diverged, i)
  {
    if n > 0 && e in InterfacesOf(ds, diverged, node, n - 1) {
      InterfacesComeFromDrafts(ds, diverged, node, n - 1, e);
    }
  }

  // ------------------------------------------------------------------ modules

  /** An embedded module and the component it is embedded in. */
  datatype Module = Module(owner: nat, facts: Facts)

  function SlotModules(s: Scope, n: nat): seq<Module>
    requires n <= |s.slots|
  {
    if n == 0 then []
    else SlotModules(s, n - 1) + if s.slots[n - 1].Some? then [Module(s.self, s.slots[n - 1].value)] else []
  }

  function Modules(scopes: seq<Scope>): seq<Module> {
    if scopes == [] then []
    else
      var last := scopes[|scopes| - 1];
      Modules(scopes[..|scopes| - 1]) + SlotModules(last, |last.slots|)
  }

  function ModuleNode(n: nat, facts: Facts): Node {
    match facts
    case AdapterFacts(translations) => Node(NodeId(n), Adapter, [], [], [], translations)
    case CoreFacts(raw, bound) => Node(NodeId(n), CoreModule, [], raw, if raw == [] then [] else bound, [])
  }

  function ComponentNode(ds: seq<Draft>, diverged: set<string>, n: nat): Node {
    Node(NodeId(n), WasmClosure.Kind.Component, InterfacesOf(ds, diverged, n, |ds|), [], [], [])
  }

  function ComponentNodes(ds: seq<Draft>, diverged: set<string>, n: nat): seq<Node> {
    seq(n, i requires 0 <= i < n => ComponentNode(ds, diverged, i))
  }

  function ModuleNodes(modules: seq<Module>, start: nat): seq<Node> {
    seq(|modules|, i requires 0 <= i < |modules| => ModuleNode(start + i, modules[i].facts))
  }

  /** The nodes: components in order of parsing, then the embedded modules. */
  function GraphNodes(scopes: seq<Scope>, subsumed: Subsumes): seq<Node> {
    var ds := Drafts(scopes);
    ComponentNodes(ds, Diverged(ds, subsumed), |scopes|) + ModuleNodes(Modules(scopes), |scopes|)
  }

  function LinksOf(modules: seq<Module>, start: nat): set<Link> {
    set i | 0 <= i < |modules| :: Link(modules[i].owner, start + i)
  }

  function ModuleLinks(scopes: seq<Scope>): set<Link> { LinksOf(Modules(scopes), |scopes|) }

  function AllLinks(c: Component): set<Link> {
    NestedLinks(c, 0, |c.items|) + ModuleLinks(ScopesOf(c, 0))
  }

  function EdgeOf(l: Link): Edge { Edge(NodeId(l.source), NodeId(l.target)) }

  lemma {:induction false} SlotModulesOk(s: Scope, n: nat, i: nat)
    requires n <= |s.slots| && i < |SlotModules(s, n)|
    ensures SlotModules(s, n)[i].owner == s.self
  {
    if n > 0 && i < |SlotModules(s, n - 1)| { SlotModulesOk(s, n - 1, i); }
  }

  lemma {:induction false} ModulesOk(scopes: seq<Scope>, n: nat, i: nat)
    requires forall k :: 0 <= k < |scopes| ==> scopes[k].self < n
    requires i < |Modules(scopes)|
    ensures Modules(scopes)[i].owner < n
  {
    if scopes != [] {
      var before := Modules(scopes[..|scopes| - 1]);
      if i < |before| {
        ModulesOk(scopes[..|scopes| - 1], n, i);
      } else {
        var last := scopes[|scopes| - 1];
        SlotModulesOk(last, |last.slots|, i - |before|);
      }
    }
  }

  // ------------------------------------------------------------------ the graph

  predicate IsEdgeOfLink(e: Edge, links: set<Link>) {
    exists l :: l in links && e == EdgeOf(l)
  }

  /** The graph is the one the component stands for. */
  ghost predicate GraphMatches(g: Graph, c: Component, subsumed: Subsumes) {
    && g.nodes == GraphNodes(ScopesOf(c, 0), subsumed)
    && g.entryNodeId == NodeId(0)
    && (forall k :: 0 <= k < |g.edges| ==> IsEdgeOfLink(g.edges[k], AllLinks(c)))
    && forall l :: l in AllLinks(c) ==> EdgeOf(l) in g.edges
  }

  lemma ScopeNumbers(c: Component)
    ensures forall i :: 0 <= i < |ScopesOf(c, 0)| ==>
              ScopesOf(c, 0)[i].self < |ScopesOf(c, 0)| && ScopeOk(ScopesOf(c, 0)[i], |ScopesOf(c, 0)| - 1)
  {
    forall i | 0 <= i < |ScopesOf(c, 0)|
      ensures ScopesOf(c, 0)[i].self < |ScopesOf(c, 0)| && ScopeOk(ScopesOf(c, 0)[i], |ScopesOf(c, 0)| - 1)
    {
      ScopesOfOk(c, i);
    }
  }

  lemma AllLinksRise(c: Component, l: Link)
    requires l in AllLinks(c)
    ensures l.source < l.target < |ScopesOf(c, 0)| + |Modules(ScopesOf(c, 0))|
  {
    var scopes := ScopesOf(c, 0);
    if l in NestedLinks(c, 0, |c.items|) {
      NestedLinksRise(c, 0, |c.items|, l);
    } else {
      var i :| 0 <= i < |Modules(scopes)| && l == Link(Modules(scopes)[i].owner, |scopes| + i);
      ScopeNumbers(c);
      ModulesOk(scopes, |scopes|, i);
    }
  }

  /** Every number is the target of one link at most: nesting is a tree, and a module has
      one owner. */
  lemma OneLinkPerTarget(c: Component, l: Link, k: Link)
    requires l in AllLinks(c) && k in AllLinks(c) && l.target == k.target
    ensures l == k
  {
    var scopes := ScopesOf(c, 0);
    if l in NestedLinks(c, 0, |c.items|) { NestedLinksRise(c, 0, |c.items|, l); }
    if k in NestedLinks(c, 0, |c.items|) { NestedLinksRise(c, 0, |c.items|, k); }
    if l.target < |scopes| {
      NestedOnce(c, 0, |c.items|, l, k);
    }
  }

  lemma EveryNumberIsLinked(c: Component, b: nat)
    requires 0 < b < |ScopesOf(c, 0)| + |Modules(ScopesOf(c, 0))|
    ensures exists a :: Link(a, b) in AllLinks(c)
  {
    var scopes := ScopesOf(c, 0);
    if b < |scopes| {
      NestedAreLinked(c, 0, |c.items|, b);
      var a :| Link(a, b) in NestedLinks(c, 0, |c.items|);
      assert Link(a, b) in AllLinks(c);
    } else {
      var i := b - |scopes|;
      assert Link(Modules(scopes)[i].owner, |scopes| + i) in ModuleLinks(scopes);
      assert Link(Modules(scopes)[i].owner, b) in AllLinks(c);
    }
  }

  lemma NodesAreNumbered(scopes: seq<Scope>, subsumed: Subsumes)
    requires scopes != []
    ensures Numbered(GraphNodes(scopes, subsumed))
    ensures |GraphNodes(scopes, subsumed)| == |scopes| + |Modules(scopes)|
  {
  }

  lemma ComponentInterfacesOk(ds: seq<Draft>, diverged: set<string>, node: nat, n: nat, nodes: seq<Node>)
    requires DraftsOk(ds, n) && Numbered(nodes) && n <= |nodes|
    ensures forall k :: 0 <= k < |InterfacesOf(ds, diverged, node, |ds|)| ==>
              Anchored(InterfacesOf(ds, diverged, node, |ds|)[k], Ids(nodes))
  {
    var es := InterfacesOf(ds, diverged, node, |ds|);
    forall k | 0 <= k < |es| ensures Anchored(es[k], Ids(nodes)) {
      InterfacesComeFromDrafts(ds, diverged, node, |ds|, es[k]);
      var i: nat :| i < |ds| && es[k] == OccurrenceOf(ds, diverged, i);
      assert TypeTag(ds, diverged, i)[0] == 'w';
      assert DraftOk(ds[i], n);
      if ds[i].alias.Some? { NumberedIsInIds(nodes, ds[i].alias.value); }
    }
  }

  lemma MatchedOccurrencesOk(g: Graph, c: Component, subsumed: Subsumes)
    requires g.nodes == GraphNodes(ScopesOf(c, 0), subsumed)
    ensures OccurrencesOk(g)
  {
    var scopes := ScopesOf(c, 0);
    var ds := Drafts(scopes);
    ScopeNumbers(c);
    AllDraftsOk(scopes, |scopes|);
    NodesAreNumbered(scopes, subsumed);
    forall i, k | 0 <= i < |g.nodes| && 0 <= k < |g.nodes[i].interfaces|
      ensures Anchored(g.nodes[i].interfaces[k], Ids(g.nodes))
    {
      assert i < |scopes|;
      assert g.nodes[i] == ComponentNode(ds, Diverged(ds, subsumed), i);
      ComponentInterfacesOk(ds, Diverged(ds, subsumed), i, |scopes|, g.nodes);
    }
  }

  lemma MatchedGraphHasSingleParents(g: Graph, c: Component, subsumed: Subsumes)
    requires GraphMatches(g, c, subsumed)
    ensures SingleParent(g.edges)
  {
    forall i, k | 0 <= i < |g.edges| && 0 <= k < |g.edges| && g.edges[i].target == g.edges[k].target
      ensures g.edges[i].source == g.edges[k].source
    {
      assert IsEdgeOfLink(g.edges[i], AllLinks(c)) && IsEdgeOfLink(g.edges[k], AllLinks(c));
      var l :| l in AllLinks(c) && g.edges[i] == EdgeOf(l);
      var x :| x in AllLinks(c) && g.edges[k] == EdgeOf(x);
      NodeIdInjective(l.target, x.target);
      OneLinkPerTarget(c, l, x);
    }
  }

  /** The graph of a component has the scanned shape: a rising graph
      rooted at the entry, each node with one parent. */
  lemma MatchedGraphHasShape(g: Graph, c: Component, subsumed: Subsumes)
    requires GraphMatches(g, c, subsumed)
    ensures ScanShape(g)
  {
    NodesAreNumbered(ScopesOf(c, 0), subsumed);
    MatchedOccurrencesOk(g, c, subsumed);
    forall k | 0 <= k < |g.edges| ensures Rises(g.edges[k], |g.nodes|) {
      assert IsEdgeOfLink(g.edges[k], AllLinks(c));
      var l :| l in AllLinks(c) && g.edges[k] == EdgeOf(l);
      AllLinksRise(c, l);
    }
    MatchedGraphHasSingleParents(g, c, subsumed);
    forall b | 0 < b < |g.nodes| ensures HasParent(g, b) {
      EveryNumberIsLinked(c, b);
      var a :| Link(a, b) in AllLinks(c);
      AllLinksRise(c, Link(a, b));
      assert EdgeOf(Link(a, b)) == Edge(NodeId(a), NodeId(b));
    }
  }

  // ------------------------------------------------------------------ types agree

  lemma {:induction false} OfferInComesFrom(es: seq<Occurrence>, exporter: string, wanted: Occurrence, o: Offer)
    requires o in OffersIn(es, exporter, wanted)
    ensures exists k: nat :: k < |es| && IsOffer(es[k], wanted) && es[k].typeTag == o.typeTag
  {
    var m := |es| - 1;
    if o in OffersIn(es[..m], exporter, wanted) {
      OfferInComesFrom(es[..m], exporter, wanted, o);
      var k: nat :| k < m && IsOffer(es[..m][k], wanted) && es[..m][k].typeTag == o.typeTag;
      assert es[k] == es[..m][k];
    } else {
      assert IsOffer(es[m], wanted);
    }
  }

  lemma {:induction false} OfferComesFrom(nodes: seq<Node>, importer: string, wanted: Occurrence, o: Offer)
    requires o in Offers(nodes, importer, wanted)
    ensures exists i: nat, k: nat :: i < |nodes| && k < |nodes[i].interfaces|
              && IsOffer(nodes[i].interfaces[k], wanted) && nodes[i].interfaces[k].typeTag == o.typeTag
  {
    var m := |nodes| - 1;
    if o in Offers(nodes[..m], importer, wanted) {
      OfferComesFrom(nodes[..m], importer, wanted, o);
      var i: nat, k: nat :| i < m && k < |nodes[..m][i].interfaces|
                   && IsOffer(nodes[..m][i].interfaces[k], wanted) && nodes[..m][i].interfaces[k].typeTag == o.typeTag;
      assert nodes[i] == nodes[..m][i];
    } else {
      OfferInComesFrom(nodes[m].interfaces, nodes[m].id, wanted, o);
    }
  }

  /** The type an internal resolution rests on is that of some export of the same interface. */
  lemma ResolvedByExport(g: Graph, importer: string, e: Occurrence)
    requires InternallyResolved(g, importer, e)
    ensures exists i: nat, k: nat :: i < |g.nodes| && k < |g.nodes[i].interfaces|
              && IsOffer(g.nodes[i].interfaces[k], e) && g.nodes[i].interfaces[k].typeTag == e.typeTag
  {
    var offers := Offers(g.nodes, importer, e);
    var id :| Providers(offers, importer) == map[id := e.typeTag];
    ProvidersRecordFirst(offers, importer, id);
    var f: nat :| FirstOffer(offers, id, f) && offers[f].typeTag == e.typeTag;
    OfferComesFrom(g.nodes, importer, e, offers[f]);
  }

  predicate FromDraft(ds: seq<Draft>, diverged: set<string>, e: Occurrence) {
    exists j: nat :: j < |ds| && e == OccurrenceOf(ds, diverged, j)
  }

  lemma ExportIsADraft(g: Graph, scopes: seq<Scope>, subsumed: Subsumes, i: nat, k: nat)
    requires g.nodes == GraphNodes(scopes, subsumed) && i < |g.nodes| && k < |g.nodes[i].interfaces|
    ensures FromDraft(Drafts(scopes), Diverged(Drafts(scopes), subsumed), g.nodes[i].interfaces[k])
  {
    var ds := Drafts(scopes);
    assert i < |scopes|;
    var diverged := Diverged(ds, subsumed);
    assert g.nodes[i] == ComponentNode(ds, diverged, i);
    InterfacesComeFromDrafts(ds, diverged, i, |ds|, g.nodes[i].interfaces[k]);
  }

  /** An import resolved inside the closure is satisfied by every export of its interface
      anywhere in the closure: one failing pair leaves all tags of the interface different. */
  lemma ResolvedImportsAreSatisfied(g: Graph, c: Component, subsumed: Subsumes, i: nat, k: nat)
    requires GraphMatches(g, c, subsumed)
    requires var ds := Drafts(ScopesOf(c, 0));
             && i < |ds| && k < |ds| && ds[i].direction == Import && ds[k].direction == Export
                && Anchor(ds[i]) == Anchor(ds[k])
             && InternallyResolved(g, NodeId(ds[i].node), OccurrenceOf(ds, Diverged(ds, subsumed), i))
    ensures var ds := Drafts(ScopesOf(c, 0)); subsumed(ds[i].shape, ds[k].shape)
  {
    var ds := Drafts(ScopesOf(c, 0));
    var diverged := Diverged(ds, subsumed);
    var e := OccurrenceOf(ds, diverged, i);
    ResolvedByExport(g, NodeId(ds[i].node), e);
    var a: nat, b: nat :| a < |g.nodes| && b < |g.nodes[a].interfaces|
                 && IsOffer(g.nodes[a].interfaces[b], e) && g.nodes[a].interfaces[b].typeTag == e.typeTag;
    ExportIsADraft(g, ScopesOf(c, 0), subsumed, a, b);
    var j: nat :| j < |ds| && g.nodes[a].interfaces[b] == OccurrenceOf(ds, diverged, j);
    assert Anchor(ds[j]) == Anchor(ds[i]) && j != i;
    assert Clash(ds[i], ds[k], subsumed) ==> Anchor(ds[i]) in diverged;
    if Anchor(ds[i]) in diverged {
      DivergedTagsDiffer(ds, diverged, if i < j then i else j, if i < j then j else i);
    }
  }
}
