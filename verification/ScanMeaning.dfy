/** The scanned graph told from the items of the component: which component is which node,
    what each index refers to, which occurrences, links, module nodes and tags there are. */
module ScanMeaning {
  import opened Basics
  import opened WitCapability
  import opened WasmClosure
  import opened ScannedGraph
  import opened ScannerSpec
  import opened ScanVerdict

  // ------------------------------------------------------------------ which component is which node

  /** The components nested in the first `n` items, each one before those nested in it. */
  function Preorder(c: Component, n: nat): (r: seq<Component>)
    requires n <= |c.items|
    ensures |r| == Allocated(c, n)
    decreases c, n
  {
    if n == 0 then []
    else
      Preorder(c, n - 1) +
      match c.items[n - 1]
      case NestedItem(body) => [body] + Preorder(body, |body.items|)
      case _ => []
  }

  /** Node `i` of the graph stands for component `i`, as long as there are components. */
  function Components(c: Component): (r: seq<Component>)
    ensures |r| == 1 + Allocated(c, |c.items|) && r[0] == c
  {
    [c] + Preorder(c, |c.items|)
  }

  lemma {:induction false} NestedScopesAre(c: Component, self: nat, n: nat, i: nat)
    requires n <= |c.items| && i < Allocated(c, n)
    ensures NestedScopes(c, self, n)[i]
            == ScopeUpTo(Preorder(c, n)[i], self + 1 + i, |Preorder(c, n)[i].items|)
    decreases c, n
  {
    var item, before := c.items[n - 1], Allocated(c, n - 1);
    var child := self + 1 + before;
    if i < before {
      NestedScopesAre(c, self, n - 1, i);
      assert NestedScopes(c, self, n)[i] == NestedScopes(c, self, n - 1)[i];
    } else if i == before {
      assert NestedScopes(c, self, n)[i] == ScopeUpTo(item.body, child, |item.body.items|);
    } else {
      NestedScopesAre(item.body, child, |item.body.items|, i - before - 1);
      assert NestedScopes(c, self, n)[i] == NestedScopes(item.body, child, |item.body.items|)[i - before - 1];
      assert Preorder(c, n)[i] == Preorder(item.body, |item.body.items|)[i - before - 1];
    }
  }

  /** The scope of node `i` is that of component `i`. */
  lemma ScopesAre(c: Component, i: nat)
    requires i < |Components(c)|
    ensures |ScopesOf(c, 0)| == |Components(c)|
    ensures ScopesOf(c, 0)[i] == ScopeUpTo(Components(c)[i], i, |Components(c)[i].items|)
  {
    if i > 0 { NestedScopesAre(c, 0, |c.items|, i - 1); }
  }

  lemma SliceBefore<T>(a: seq<T>, b: seq<T>, i: nat, k: nat)
    requires i <= k <= |a|
    ensures (a + b)[i..k] == a[i..k]
  {
  }

  lemma SliceBehind<T>(a: seq<T>, b: seq<T>, i: nat, k: nat)
    requires i <= k <= |b|
    ensures (a + b)[|a| + i..|a| + k] == b[i..k]
  {
  }

  /** What is nested in component `i` of the list follows it directly. */
  predicate FollowsAt(cs: seq<Component>, i: nat)
    requires i < |cs|
  {
    var inside := Preorder(cs[i], |cs[i].items|);
    i + 1 + |inside| <= |cs| && cs[i + 1..i + 1 + |inside|] == inside
  }

  lemma FollowsBefore(a: seq<Component>, b: seq<Component>, i: nat)
    requires i < |a| && FollowsAt(a, i)
    ensures FollowsAt(a + b, i)
  {
    SliceBefore(a, b, i + 1, i + 1 + |Preorder(a[i], |a[i].items|)|);
  }

  lemma FollowsBehind(a: seq<Component>, b: seq<Component>, i: nat)
    requires i < |b| && FollowsAt(b, i)
    ensures FollowsAt(a + b, |a| + i)
  {
    SliceBehind(a, b, i + 1, i + 1 + |Preorder(b[i], |b[i].items|)|);
  }

  lemma FollowsJoined(a: seq<Component>, b: seq<Component>, i: nat)
    requires i < |a| + |b| && if i < |a| then FollowsAt(a, i) else FollowsAt(b, i - |a|)
    ensures FollowsAt(a + b, i)
  {
    if i < |a| { FollowsBefore(a, b, i); } else { FollowsBehind(a, b, i - |a|); }
  }

  lemma FollowsFirst(body: Component)
    ensures FollowsAt([body] + Preorder(body, |body.items|), 0)
  {
    SliceBehind([body], Preorder(body, |body.items|), 0, |Preorder(body, |body.items|)|);
  }

  lemma {:induction false} NestedFollows(c: Component, n: nat, i: nat)
    requires n <= |c.items| && i < |Preorder(c, n)|
    ensures FollowsAt(Preorder(c, n), i)
    decreases c, n
  {
    var before := Preorder(c, n - 1);
    if c.items[n - 1].NestedItem? {
      var body := c.items[n - 1].body;
      var inside := [body] + Preorder(body, |body.items|);
      assert Preorder(c, n) == before + inside;
      if i < |before| { NestedFollows(c, n - 1, i); } else { InsideFollows(body, i - |before|); }
      FollowsJoined(before, inside, i);
    } else {
      NestedFollows(c, n - 1, i);
    }
  }

  lemma {:induction false} InsideFollows(body: Component, i: nat)
    requires i < 1 + |Preorder(body, |body.items|)|
    ensures FollowsAt([body] + Preorder(body, |body.items|), i)
    decreases body, |body.items| + 1
  {
    if i == 0 {
      FollowsFirst(body);
    } else {
      NestedFollows(body, |body.items|, i - 1);
      FollowsBehind([body], Preorder(body, |body.items|), i - 1);
    }
  }

  lemma {:induction false} NestedIsNumbered(c: Component, n: nat, k: nat)
    requires k < n <= |c.items| && c.items[k].NestedItem?
    ensures Allocated(c, k) < |Preorder(c, n)| && Preorder(c, n)[Allocated(c, k)] == c.items[k].body
    decreases n
  {
    if k < n - 1 { NestedIsNumbered(c, n - 1, k); }
  }

  lemma ComponentsFollow(c: Component, a: nat)
    requires a < |Components(c)|
    ensures FollowsAt(Components(c), a)
  {
    InsideFollows(c, a);
  }

  /** The component nested in component `a` by item `k` is component `a + 1 + Allocated(.., k)`. */
  lemma NestedNumber(c: Component, a: nat, k: nat)
    requires a < |Components(c)| && Nests(Components(c)[a], k)
    ensures var x := Components(c)[a];
            && a + 1 + Allocated(x, k) < |Components(c)|
            && Components(c)[a + 1 + Allocated(x, k)] == x.items[k].body
  {
    ComponentsFollow(c, a);
    NumberBehind(Components(c), a, k);
  }

  lemma NumberBehind(cs: seq<Component>, a: nat, k: nat)
    requires a < |cs| && FollowsAt(cs, a) && Nests(cs[a], k)
    ensures var x := cs[a];
            a + 1 + Allocated(x, k) < |cs| && cs[a + 1 + Allocated(x, k)] == x.items[k].body
  {
    var x := cs[a];
    var inside := Preorder(x, |x.items|);
    NestedIsNumbered(x, |x.items|, k);
    assert cs[a + 1..a + 1 + |inside|][Allocated(x, k)] == cs[a + 1 + Allocated(x, k)];
  }

  // ------------------------------------------------------------------ links

  predicate Nests(x: Component, k: nat) { k < |x.items| && x.items[k].NestedItem? }

  /** From component number `a` to the one its item `k` nests. */
  function NestLink(x: Component, a: nat, k: nat): Link
    requires k <= |x.items|
  {
    Link(a, a + 1 + Allocated(x, k))
  }

  ghost predicate OwnLink(c: Component, self: nat, n: nat, l: Link) {
    exists k: nat :: k < n && Nests(c, k) && l == NestLink(c, self, k)
  }

  ghost predicate InnerLink(cs: seq<Component>, start: nat, l: Link) {
    exists i: nat, k: nat :: i < |cs| && Nests(cs[i], k) && l == NestLink(cs[i], start + i, k)
  }

  lemma OwnLinkStep(c: Component, self: nat, n: nat, l: Link)
    requires 0 < n <= |c.items|
    ensures OwnLink(c, self, n, l) <==>
            OwnLink(c, self, n - 1, l) || (Nests(c, n - 1) && l == NestLink(c, self, n - 1))
  {
  }

  lemma InnerLinkConcat(a: seq<Component>, b: seq<Component>, start: nat, l: Link)
    ensures InnerLink(a + b, start, l) <==> InnerLink(a, start, l) || InnerLink(b, start + |a|, l)
  {
    var cs := a + b;
    if i: nat, k: nat :| i < |a| && Nests(a[i], k) && l == NestLink(a[i], start + i, k) { assert cs[i] == a[i]; }
    if i: nat, k: nat :| i < |b| && Nests(b[i], k) && l == NestLink(b[i], start + |a| + i, k) {
      assert cs[|a| + i] == b[i];
    }
    if i: nat, k: nat :| i < |cs| && Nests(cs[i], k) && l == NestLink(cs[i], start + i, k) {
      if i < |a| {
        assert a[i] == cs[i];
      } else {
        assert b[i - |a|] == cs[i];
      }
    }
  }

  lemma InnerLinkOne(c: Component, start: nat, l: Link)
    ensures InnerLink([c], start, l) <==> OwnLink(c, start, |c.items|, l)
  {
    if k: nat :| k < |c.items| && Nests(c, k) && l == NestLink(c, start, k) { assert [c][0] == c; }
  }

  ghost predicate LinkBelow(c: Component, self: nat, n: nat, l: Link)
    requires n <= |c.items|
  {
    OwnLink(c, self, n, l) || InnerLink(Preorder(c, n), self + 1, l)
  }

  lemma LinkBelowStep(c: Component, self: nat, n: nat, l: Link)
    requires 0 < n <= |c.items| && c.items[n - 1].NestedItem?
    ensures var body, child := c.items[n - 1].body, self + 1 + Allocated(c, n - 1);
            LinkBelow(c, self, n, l) <==>
            LinkBelow(c, self, n - 1, l) || l == Link(self, child) || LinkBelow(body, child, |body.items|, l)
  {
    var body, child := c.items[n - 1].body, self + 1 + Allocated(c, n - 1);
    OwnLinkStep(c, self, n, l);
    assert Preorder(c, n) == Preorder(c, n - 1) + ([body] + Preorder(body, |body.items|));
    InnerLinkConcat(Preorder(c, n - 1), [body] + Preorder(body, |body.items|), self + 1, l);
    InnerLinkConcat([body], Preorder(body, |body.items|), child, l);
    InnerLinkOne(body, child, l);
  }

  lemma LinkBelowSame(c: Component, self: nat, n: nat, l: Link)
    requires 0 < n <= |c.items| && !c.items[n - 1].NestedItem?
    ensures LinkBelow(c, self, n, l) <==> LinkBelow(c, self, n - 1, l)
  {
    OwnLinkStep(c, self, n, l);
    assert Preorder(c, n) == Preorder(c, n - 1);
  }

  /** The links are exactly those from a component to what one of its items nests. */
  lemma {:induction false} NestedLinksAre(c: Component, self: nat, n: nat, l: Link)
    requires n <= |c.items|
    ensures l in NestedLinks(c, self, n) <==> LinkBelow(c, self, n, l)
    decreases c, n
  {
    if n > 0 {
      NestedLinksAre(c, self, n - 1, l);
      if c.items[n - 1].NestedItem? {
        var body := c.items[n - 1].body;
        NestedLinksAre(body, self + 1 + Allocated(c, n - 1), |body.items|, l);
        LinkBelowStep(c, self, n, l);
      } else {
        LinkBelowSame(c, self, n, l);
      }
    }
  }

  /** Component `a` is linked to component `b` exactly if one of its items nests it there. */
  lemma LinksAre(c: Component, l: Link)
    ensures l in NestedLinks(c, 0, |c.items|) <==> InnerLink(Components(c), 0, l)
  {
    NestedLinksAre(c, 0, |c.items|, l);
    InnerLinkConcat([c], Preorder(c, |c.items|), 0, l);
    InnerLinkOne(c, 0, l);
  }

  // ------------------------------------------------------------------ what an index refers to

  predicate DefinesInstance(item: Item) {
    item.InstanceItem? || (item.ImportItem? && item.imp.sort == SortInstance)
    || (item.ExportItem? && item.exp.sort == SortInstance)
  }

  predicate DefinesComponent(item: Item) {
    item.NestedItem? || item.OuterComponentItem? || (item.ImportItem? && item.imp.sort == SortComponent)
  }

  /** How many of the first `n` items define one: the index the next one gets. */
  function Defined(c: Component, defines: Item -> bool, n: nat): nat
    requires n <= |c.items|
  {
    if n == 0 then 0 else Defined(c, defines, n - 1) + if defines(c.items[n - 1]) then 1 else 0
  }

  /** An instance comes from what its item says; an exported one from the instance it exports. */
  function ProvenanceOf(c: Component, self: nat, k: nat): Provenance
    requires k < |c.items| && DefinesInstance(c.items[k])
  {
    match c.items[k]
    case InstanceItem(prov) => prov
    case ImportItem(_) => Imported
    case ExportItem(exp) =>
      var earlier := ScopeUpTo(c, self, k).provs;
      if exp.index < |earlier| then earlier[exp.index] else Outer
  }

  lemma {:induction false} InstancesAre(c: Component, self: nat, n: nat, k: nat)
    requires k < n <= |c.items| && DefinesInstance(c.items[k])
    ensures |ScopeUpTo(c, self, n).provs| == Defined(c, DefinesInstance, n)
    ensures Defined(c, DefinesInstance, k) < |ScopeUpTo(c, self, n).provs|
    ensures ScopeUpTo(c, self, n).provs[Defined(c, DefinesInstance, k)] == ProvenanceOf(c, self, k)
    decreases n
  {
    InstanceCount(c, self, n - 1);
    if k < n - 1 {
      InstancesAre(c, self, n - 1, k);
    }
  }

  lemma {:induction false} InstanceCount(c: Component, self: nat, n: nat)
    requires n <= |c.items|
    ensures |ScopeUpTo(c, self, n).provs| == Defined(c, DefinesInstance, n)
  {
    if n > 0 { InstanceCount(c, self, n - 1); }
  }

  lemma {:induction false} ComponentCount(c: Component, self: nat, n: nat)
    requires n <= |c.items|
    ensures |ScopeUpTo(c, self, n).components| == Defined(c, DefinesComponent, n)
  {
    if n > 0 { ComponentCount(c, self, n - 1); }
  }

  /** A component index refers to the nested component's node, or to none of this graph. */
  lemma {:induction false} ComponentsAre(c: Component, self: nat, n: nat, k: nat)
    requires k < n <= |c.items| && DefinesComponent(c.items[k])
    ensures Defined(c, DefinesComponent, k) < |ScopeUpTo(c, self, n).components|
    ensures ScopeUpTo(c, self, n).components[Defined(c, DefinesComponent, k)]
            == if c.items[k].NestedItem? then Some(NestLink(c, self, k).target) else None
    decreases n
  {
    ComponentCount(c, self, n - 1);
    ComponentStep(c, self, n);
    if k < n - 1 { ComponentsAre(c, self, n - 1, k); }
  }

  lemma ComponentStep(c: Component, self: nat, n: nat)
    requires 0 < n <= |c.items|
    ensures ScopeUpTo(c, self, n).components == ScopeUpTo(c, self, n - 1).components +
              if !DefinesComponent(c.items[n - 1]) then []
              else [if c.items[n - 1].NestedItem? then Some(NestLink(c, self, n - 1).target) else None]
  {
  }

  // ------------------------------------------------------------------ re-exports

  /** After exactly `hops` exports of instances the instance is one of this component. */
  predicate LeadsTo(s: Scope, index: nat, hops: nat, target: nat)
    decreases hops
  {
    && index < |s.provs|
    && if hops == 0
       then s.provs[index].Instantiated? && s.provs[index].componentIdx < |s.components|
            && s.components[s.provs[index].componentIdx] == Some(target)
       else s.provs[index].ExportOf? && LeadsTo(s, s.provs[index].instanceIdx, hops - 1, target)
  }

  lemma {:induction false} LeadsOneWay(s: Scope, index: nat, a: nat, b: nat, x: nat, y: nat)
    requires LeadsTo(s, index, a, x) && LeadsTo(s, index, b, y)
    ensures a == b && x == y
    decreases a
  {
    if a > 0 && b > 0 { LeadsOneWay(s, s.provs[index].instanceIdx, a - 1, b - 1, x, y); }
  }

  /** The instances a chain that ends passes through. */
  function Passed(s: Scope, index: nat, hops: nat, target: nat): set<nat>
    requires LeadsTo(s, index, hops, target)
    decreases hops
  {
    {index} + if hops == 0 then {} else Passed(s, s.provs[index].instanceIdx, hops - 1, target)
  }

  lemma {:induction false} PassedLeads(s: Scope, index: nat, hops: nat, target: nat, x: nat) returns (rest: nat)
    requires LeadsTo(s, index, hops, target) && x in Passed(s, index, hops, target)
    ensures rest <= hops && LeadsTo(s, x, rest, target) && x < |s.provs|
    decreases hops
  {
    if x == index {
      rest := hops;
    } else {
      rest := PassedLeads(s, s.provs[index].instanceIdx, hops - 1, target, x);
    }
  }

  /** It passes through no instance twice. */
  lemma {:induction false} PassedCount(s: Scope, index: nat, hops: nat, target: nat)
    requires LeadsTo(s, index, hops, target)
    ensures |Passed(s, index, hops, target)| == hops + 1
    decreases hops
  {
    if hops > 0 {
      var next := s.provs[index].instanceIdx;
      PassedCount(s, next, hops - 1, target);
      if index in Passed(s, next, hops - 1, target) {
        var rest := PassedLeads(s, next, hops - 1, target, index);
        LeadsOneWay(s, index, hops, rest, target, target);
      }
    }
  }

  function Below(n: nat): (r: set<nat>)
    ensures forall x: nat :: x in r <==> x < n
  {
    if n == 0 then {} else Below(n - 1) + {n - 1}
  }

  lemma {:induction false} BelowCount(n: nat)
    ensures |Below(n)| == n
  {
    if n > 0 { BelowCount(n - 1); }
  }

  lemma SubsetCount(a: set<nat>, b: set<nat>)
    requires a <= b
    ensures |a| <= |b|
  {
    assert b == a + (b - a);
  }

  lemma HopsAreFew(s: Scope, index: nat, hops: nat, target: nat)
    requires LeadsTo(s, index, hops, target)
    ensures hops < |s.provs|
  {
    var passed := Passed(s, index, hops, target);
    PassedCount(s, index, hops, target);
    forall x | x in passed ensures x in Below(|s.provs|) { var rest := PassedLeads(s, index, hops, target, x); }
    BelowCount(|s.provs|);
    SubsetCount(passed, Below(|s.provs|));
  }

  ghost predicate LeadsWithin(s: Scope, index: nat, guard: nat, target: nat) {
    exists hops: nat :: hops < guard && LeadsTo(s, index, hops, target)
  }

  lemma {:induction false} AliasFollows(s: Scope, index: nat, guard: nat, target: nat)
    ensures AliasFrom(s, index, guard) == Some(target) <==> LeadsWithin(s, index, guard, target)
    decreases guard
  {
    if guard > 0 && index < |s.provs| && s.provs[index].ExportOf? {
      var next := s.provs[index].instanceIdx;
      AliasFollows(s, next, guard - 1, target);
      if hops: nat :| hops < guard - 1 && LeadsTo(s, next, hops, target) { assert LeadsTo(s, index, hops + 1, target); }
      if hops: nat :| hops < guard && LeadsTo(s, index, hops, target) { assert LeadsTo(s, next, hops - 1, target); }
    } else if AliasFrom(s, index, guard) == Some(target) {
      var none: nat := 0;
      assert none < guard && LeadsTo(s, index, none, target);
    }
  }

  ghost predicate Leads(s: Scope, index: nat, target: nat) { exists hops: nat :: LeadsTo(s, index, hops, target) }

  lemma LeadsIsWithin(s: Scope, index: nat, target: nat)
    ensures Leads(s, index, target) <==> LeadsWithin(s, index, |s.provs| + 2, target)
  {
    if Leads(s, index, target) {
      var hops: nat :| LeadsTo(s, index, hops, target);
      HopsAreFew(s, index, hops, target);
    }
  }

  /** An exported instance is attributed to a nested component exactly if the chain of
      re-exports, however long, ends at an instance of it: the counter cuts no chain that ends. */
  lemma AliasIsProvider(s: Scope, index: nat, target: nat)
    ensures ProviderAliasOfExport(s, index) == Some(target) <==> Leads(s, index, target)
  {
    AliasFollows(s, index, |s.provs| + 2, target);
    LeadsIsWithin(s, index, target);
  }

  // ------------------------------------------------------------------ occurrences

  /** An import of an interface whose instance type can be decoded. */
  predicate IsImportDraft(item: Item) {
    item.ImportItem? && item.imp.sort == SortInstance && item.imp.wit.Some? && item.imp.shape.Some?
  }

  predicate IsExportDraft(item: Item) { item.ExportItem? && item.exp.sort == SortInstance && item.exp.wit.Some? }

  predicate IsImport(item: Item) { item.ImportItem? }

  predicate IsExport(item: Item) { item.ExportItem? }

  lemma {:induction false} ImportsAre(c: Component, self: nat, n: nat, k: nat)
    requires k < n <= |c.items| && c.items[k].ImportItem?
    ensures |ScopeUpTo(c, self, n).imports| == Defined(c, IsImport, n)
            && Defined(c, IsImport, k) < Defined(c, IsImport, n)
    ensures ScopeUpTo(c, self, n).imports[Defined(c, IsImport, k)] == c.items[k].imp
    decreases n
  {
    ImportCount(c, self, n - 1);
    if k < n - 1 { ImportsAre(c, self, n - 1, k); }
  }

  lemma {:induction false} ImportCount(c: Component, self: nat, n: nat)
    requires n <= |c.items|
    ensures |ScopeUpTo(c, self, n).imports| == Defined(c, IsImport, n)
  {
    if n > 0 { ImportCount(c, self, n - 1); }
  }

  lemma {:induction false} ExportsAre(c: Component, self: nat, n: nat, k: nat)
    requires k < n <= |c.items| && c.items[k].ExportItem?
    ensures |ScopeUpTo(c, self, n).exports| == Defined(c, IsExport, n)
            && Defined(c, IsExport, k) < Defined(c, IsExport, n)
    ensures ScopeUpTo(c, self, n).exports[Defined(c, IsExport, k)] == c.items[k].exp
    decreases n
  {
    ExportCount(c, self, n - 1);
    if k < n - 1 { ExportsAre(c, self, n - 1, k); }
  }

  lemma {:induction false} ExportCount(c: Component, self: nat, n: nat)
    requires n <= |c.items|
    ensures |ScopeUpTo(c, self, n).exports| == Defined(c, IsExport, n)
  {
    if n > 0 { ExportCount(c, self, n - 1); }
  }

  lemma {:induction false} DefinedWithin(c: Component, defines: Item -> bool, k: nat, n: nat)
    requires k <= n <= |c.items|
    ensures Defined(c, defines, k) <= Defined(c, defines, n)
    decreases n
  {
    if k < n { DefinedWithin(c, defines, k, n - 1); }
  }

  ghost function WholeScope(c: Component, self: nat): (s: Scope)
    ensures s.self == self
    ensures |s.imports| == Defined(c, IsImport, |c.items|) && |s.exports| == Defined(c, IsExport, |c.items|)
  {
    ScopeUpToOk(c, self, |c.items|);
    ImportCount(c, self, |c.items|);
    ExportCount(c, self, |c.items|);
    ScopeUpTo(c, self, |c.items|)
  }

  function ImportDraftOf(item: Item, self: nat): Draft
    requires IsImportDraft(item)
  {
    Draft(self, item.imp.wit.value, Import, item.imp.shape.value, None)
  }

  /** A re-export names the component its chain of re-exports ends at, if it ends. */
  ghost predicate IsExportDraftOf(d: Draft, c: Component, self: nat, item: Item) {
    && IsExportDraft(item) && d.node == self && d.wit == item.exp.wit.value && d.direction == Export
    && d.shape == item.exp.shape
    && forall target: nat :: d.alias == Some(target) <==> Leads(WholeScope(c, self), item.exp.index, target)
  }

  ghost function ImportsUpTo(c: Component, self: nat, n: nat): seq<Draft>
    requires n <= |c.items|
  {
    DefinedWithin(c, IsImport, n, |c.items|);
    ImportDrafts(WholeScope(c, self), Defined(c, IsImport, n))
  }

  ghost function ExportsUpTo(c: Component, self: nat, n: nat): seq<Draft>
    requires n <= |c.items|
  {
    DefinedWithin(c, IsExport, n, |c.items|);
    ExportDrafts(WholeScope(c, self), Defined(c, IsExport, n))
  }

  lemma ImportStep(c: Component, self: nat, n: nat)
    requires 0 < n <= |c.items|
    ensures ImportsUpTo(c, self, n) == ImportsUpTo(c, self, n - 1)
              + if IsImportDraft(c.items[n - 1]) then [ImportDraftOf(c.items[n - 1], self)] else []
  {
    if c.items[n - 1].ImportItem? { ImportsAre(c, self, |c.items|, n - 1); }
  }

  lemma ExportStep(c: Component, self: nat, n: nat) returns (d: Draft)
    requires 0 < n <= |c.items|
    ensures ExportsUpTo(c, self, n) == ExportsUpTo(c, self, n - 1) + if IsExportDraft(c.items[n - 1]) then [d] else []
    ensures IsExportDraft(c.items[n - 1]) ==> IsExportDraftOf(d, c, self, c.items[n - 1])
  {
    d := Draft(self, Interface("", ""), Export, "", None);
    if IsExportDraft(c.items[n - 1]) {
      var exp, s := c.items[n - 1].exp, WholeScope(c, self);
      ExportsAre(c, self, |c.items|, n - 1);
      d := Draft(self, exp.wit.value, Export, exp.shape, ProviderAliasOfExport(s, exp.index));
      forall target: nat ensures d.alias == Some(target) <==> Leads(s, exp.index, target) {
        AliasIsProvider(s, exp.index, target);
      }
    } else if c.items[n - 1].ExportItem? {
      ExportsAre(c, self, |c.items|, n - 1);
    }
  }

  /** Each such import is one draft, in the order of the items. */
  lemma {:induction false} ImportDraftsAre(c: Component, self: nat, n: nat, k: nat)
    requires k < n <= |c.items|
    ensures |ImportsUpTo(c, self, n)| == Defined(c, IsImportDraft, n)
    ensures IsImportDraft(c.items[k]) ==>
              Defined(c, IsImportDraft, k) < |ImportsUpTo(c, self, n)|
              && ImportsUpTo(c, self, n)[Defined(c, IsImportDraft, k)] == ImportDraftOf(c.items[k], self)
    decreases n
  {
    ImportStep(c, self, n);
    ImportDraftCount(c, self, n - 1);
    if k < n - 1 { ImportDraftsAre(c, self, n - 1, k); }
  }

  lemma {:induction false} ImportDraftCount(c: Component, self: nat, n: nat)
    requires n <= |c.items|
    ensures |ImportsUpTo(c, self, n)| == Defined(c, IsImportDraft, n)
  {
    if n > 0 {
      ImportDraftCount(c, self, n - 1);
      ImportStep(c, self, n);
    }
  }

  lemma {:induction false} ExportDraftsAre(c: Component, self: nat, n: nat, k: nat)
    requires k < n <= |c.items|
    ensures |ExportsUpTo(c, self, n)| == Defined(c, IsExportDraft, n)
    ensures IsExportDraft(c.items[k]) ==>
              Defined(c, IsExportDraft, k) < |ExportsUpTo(c, self, n)|
              && IsExportDraftOf(ExportsUpTo(c, self, n)[Defined(c, IsExportDraft, k)], c, self, c.items[k])
    decreases n
  {
    var d := ExportStep(c, self, n);
    ExportDraftCount(c, self, n - 1);
    if k < n - 1 { ExportDraftsAre(c, self, n - 1, k); }
  }

  lemma {:induction false} ExportDraftCount(c: Component, self: nat, n: nat)
    requires n <= |c.items|
    ensures |ExportsUpTo(c, self, n)| == Defined(c, IsExportDraft, n)
  {
    if n > 0 {
      ExportDraftCount(c, self, n - 1);
      var d := ExportStep(c, self, n);
    }
  }

  // ------------------------------------------------------------------ all drafts

  /** How many drafts a component has, and all components before number `i` have. */
  function DraftsIn(x: Component): nat { Defined(x, IsImportDraft, |x.items|) + Defined(x, IsExportDraft, |x.items|) }

  function DraftsBefore(cs: seq<Component>, i: nat): nat
    requires i <= |cs|
  {
    if i == 0 then 0 else DraftsBefore(cs, i - 1) + DraftsIn(cs[i - 1])
  }

  lemma DraftsOfScope(c: Component, self: nat)
    ensures var s := ScopeUpTo(c, self, |c.items|);
            ImportDrafts(s, |s.imports|) + ExportDrafts(s, |s.exports|)
            == ImportsUpTo(c, self, |c.items|) + ExportsUpTo(c, self, |c.items|)
  {
    assert WholeScope(c, self) == ScopeUpTo(c, self, |c.items|);
  }

  ghost function DraftsUpTo(c: Component, i: nat): seq<Draft>
    requires i <= |Components(c)|
  {
    if i == 0 then []
    else
      var x := Components(c)[i - 1];
      DraftsUpTo(c, i - 1) + (ImportsUpTo(x, i - 1, |x.items|) + ExportsUpTo(x, i - 1, |x.items|))
  }

  lemma DraftsStep(scopes: seq<Scope>, i: nat)
    requires 0 < i <= |scopes|
    ensures var last := scopes[i - 1];
            Drafts(scopes[..i]) == Drafts(scopes[..i - 1])
              + (ImportDrafts(last, |last.imports|) + ExportDrafts(last, |last.exports|))
  {
    assert scopes[..i][..i - 1] == scopes[..i - 1];
  }

  lemma DraftCount(x: Component, i: nat)
    ensures |ImportsUpTo(x, i, |x.items|) + ExportsUpTo(x, i, |x.items|)| == DraftsIn(x)
  {
    ImportDraftCount(x, i, |x.items|);
    ExportDraftCount(x, i, |x.items|);
  }

  lemma {:induction false} DraftsAreUpTo(c: Component, i: nat)
    requires i <= |Components(c)|
    ensures |ScopesOf(c, 0)| == |Components(c)| && Drafts(ScopesOf(c, 0)[..i]) == DraftsUpTo(c, i)
  {
    ScopesAre(c, 0);
    if i > 0 {
      DraftsAreUpTo(c, i - 1);
      ScopesAre(c, i - 1);
      DraftsOfScope(Components(c)[i - 1], i - 1);
      DraftsStep(ScopesOf(c, 0), i);
    }
  }

  lemma {:induction false} DraftsBeforeCount(c: Component, i: nat)
    requires i <= |Components(c)|
    ensures |DraftsUpTo(c, i)| == DraftsBefore(Components(c), i)
  {
    if i > 0 {
      DraftsBeforeCount(c, i - 1);
      DraftCount(Components(c)[i - 1], i - 1);
    }
  }

  lemma {:induction false} DraftsGrow(c: Component, i: nat, j: nat)
    requires i <= j <= |Components(c)|
    ensures DraftsUpTo(c, i) <= DraftsUpTo(c, j)
    decreases j
  {
    if i < j { DraftsGrow(c, i, j - 1); }
  }

  /** All drafts, and those up to component `i`. */
  lemma DraftsBegin(c: Component, i: nat)
    requires i <= |Components(c)|
    ensures Drafts(ScopesOf(c, 0)) == DraftsUpTo(c, |Components(c)|)
    ensures |Drafts(ScopesOf(c, 0))| == DraftsBefore(Components(c), |Components(c)|)
    ensures DraftsUpTo(c, i) <= Drafts(ScopesOf(c, 0)) && |DraftsUpTo(c, i)| == DraftsBefore(Components(c), i)
  {
    var all := |Components(c)|;
    DraftsAreUpTo(c, all);
    assert ScopesOf(c, 0)[..all] == ScopesOf(c, 0);
    DraftsGrow(c, i, all);
    DraftsBeforeCount(c, i);
    DraftsBeforeCount(c, all);
  }

  lemma NextDrafts(c: Component, i: nat)
    requires i < |Components(c)|
    ensures var x := Components(c)[i];
            DraftsUpTo(c, i + 1)
            == DraftsUpTo(c, i) + (ImportsUpTo(x, i, |x.items|) + ExportsUpTo(x, i, |x.items|))
  {
  }

  lemma DraftsStandAt(c: Component, i: nat, k: nat)
    requires i < |Components(c)|
    ensures var x, ds, start := Components(c)[i], Drafts(ScopesOf(c, 0)), DraftsBefore(Components(c), i);
            var imports, exports := ImportsUpTo(x, i, |x.items|), ExportsUpTo(x, i, |x.items|);
            && (k < |imports| ==> start + k < |ds| && ds[start + k] == imports[k])
            && (k < |exports| ==> start + |imports| + k < |ds| && ds[start + |imports| + k] == exports[k])
  {
    OneComponentStands(c, i);
  }

  lemma OneComponentStands(c: Component, i: nat)
    requires i < |Components(c)|
    ensures var x, ds, start := Components(c)[i], Drafts(ScopesOf(c, 0)), DraftsBefore(Components(c), i);
            var imports, exports := ImportsUpTo(x, i, |x.items|), ExportsUpTo(x, i, |x.items|);
            StandsAt(ds, start, imports) && StandsAt(ds, start + |imports|, exports)
  {
    var x := Components(c)[i];
    DraftsBegin(c, i);
    DraftsBegin(c, i + 1);
    NextDrafts(c, i);
    PartsStand(Drafts(ScopesOf(c, 0)), DraftsUpTo(c, i), ImportsUpTo(x, i, |x.items|), ExportsUpTo(x, i, |x.items|));
  }

  predicate StandsAt<T(==)>(all: seq<T>, at: nat, part: seq<T>) {
    at + |part| <= |all| && forall k :: 0 <= k < |part| ==> all[at + k] == part[k]
  }

  lemma PartsStand<T>(all: seq<T>, a: seq<T>, b: seq<T>, d: seq<T>)
    requires a + (b + d) <= all
    ensures StandsAt(all, |a|, b) && StandsAt(all, |a| + |b|, d)
  {
    var c := a + (b + d);
    forall k | 0 <= k < |b| ensures all[|a| + k] == b[k] { assert all[|a| + k] == c[|a| + k] == (b + d)[k]; }
    forall k | 0 <= k < |d| ensures all[|a| + |b| + k] == d[k] {
      assert all[|a| + |b| + k] == c[|a| + |b| + k] == (b + d)[|b| + k];
    }
  }

  /** Where the draft of an import stands: behind those of earlier components and items. */
  lemma ImportDraftAt(c: Component, i: nat, k: nat)
    requires i < |Components(c)| && k < |Components(c)[i].items| && IsImportDraft(Components(c)[i].items[k])
    ensures var x, ds := Components(c)[i], Drafts(ScopesOf(c, 0));
            var at := DraftsBefore(Components(c), i) + Defined(x, IsImportDraft, k);
            at < |ds| && ds[at] == ImportDraftOf(x.items[k], i)
  {
    var x := Components(c)[i];
    ImportDraftsAre(x, i, |x.items|, k);
    DraftsStandAt(c, i, Defined(x, IsImportDraft, k));
  }

  /** Where the draft of an export stands: behind all imports of its component too. */
  lemma ExportDraftAt(c: Component, i: nat, k: nat)
    requires i < |Components(c)| && k < |Components(c)[i].items| && IsExportDraft(Components(c)[i].items[k])
    ensures var x, ds := Components(c)[i], Drafts(ScopesOf(c, 0));
            var at := DraftsBefore(Components(c), i) + Defined(x, IsImportDraft, |x.items|)
                + Defined(x, IsExportDraft, k);
            at < |ds| && IsExportDraftOf(ds[at], x, i, x.items[k])
  {
    var x := Components(c)[i];
    ImportDraftCount(x, i, |x.items|);
    ExportDraftsAre(x, i, |x.items|, k);
    DraftsStandAt(c, i, Defined(x, IsExportDraft, k));
  }

  /** The occurrences of node `i`: one for each of its drafts, in their order. */
  lemma {:induction false} InterfacesAre(ds: seq<Draft>, diverged: set<string>, node: nat, n: nat, j: nat)
    requires j < n <= |ds|
    ensures |InterfacesOf(ds, diverged, node, n)| == DraftsFor(ds, node, n)
    ensures ds[j].node == node ==>
              DraftsFor(ds, node, j) < DraftsFor(ds, node, n)
              && InterfacesOf(ds, diverged, node, n)[DraftsFor(ds, node, j)] == OccurrenceOf(ds, diverged, j)
    decreases n
  {
    InterfaceCount(ds, diverged, node, n - 1);
    if j < n - 1 { InterfacesAre(ds, diverged, node, n - 1, j); }
  }

  function DraftsFor(ds: seq<Draft>, node: nat, n: nat): nat
    requires n <= |ds|
  {
    if n == 0 then 0 else DraftsFor(ds, node, n - 1) + if ds[n - 1].node == node then 1 else 0
  }

  lemma {:induction false} InterfaceCount(ds: seq<Draft>, diverged: set<string>, node: nat, n: nat)
    requires n <= |ds|
    ensures |InterfacesOf(ds, diverged, node, n)| == DraftsFor(ds, node, n)
  {
    if n > 0 { InterfaceCount(ds, diverged, node, n - 1); }
  }

  /** An occurrence says what its draft says; a re-export names the node it re-exports. */
  lemma OccurrenceIs(ds: seq<Draft>, diverged: set<string>, j: nat)
    requires j < |ds|
    ensures var e := OccurrenceOf(ds, diverged, j);
            && e.package == ds[j].wit.package && e.iface == ds[j].wit.iface && e.direction == ds[j].direction
            && (e.providerAlias == None <==> ds[j].alias == None)
            && (ds[j].alias.Some? ==> e.providerAlias == Some(NodeId(ds[j].alias.value)))
            && e.typeTag != ""
  {
    assert TypeTag(ds, diverged, j)[0] == 'w';
  }

  // ------------------------------------------------------------------ type tags

  /** The interface of this name has an import in the closure that some export of it does not
      satisfy. */
  ghost predicate Unsatisfied(ds: seq<Draft>, name: string, subsumed: Subsumes) {
    exists i, k :: 0 <= i < |ds| && 0 <= k < |ds| && ds[i].direction == Import && ds[k].direction == Export
                   && NameOf(ds[i]) == name && NameOf(ds[k]) == name && !subsumed(ds[i].shape, ds[k].shape)
  }

  function NameOf(d: Draft): string { d.wit.package + "/" + d.wit.iface }

  lemma DivergedIff(ds: seq<Draft>, subsumed: Subsumes, i: nat)
    requires i < |ds|
    ensures Anchor(ds[i]) in Diverged(ds, subsumed) <==> Unsatisfied(ds, NameOf(ds[i]), subsumed)
  {
    forall k | 0 <= k < |ds| ensures Anchor(ds[k]) == NameOf(ds[k]) {}
    if Unsatisfied(ds, NameOf(ds[i]), subsumed) {
      var a, b :| 0 <= a < |ds| && 0 <= b < |ds| && ds[a].direction == Import && ds[b].direction == Export
        && NameOf(ds[a]) == NameOf(ds[i]) && NameOf(ds[b]) == NameOf(ds[i]) && !subsumed(ds[a].shape, ds[b].shape);
      assert Clash(ds[a], ds[b], subsumed);
    }
  }

  /** Two occurrences of one interface carry one tag exactly if every import of the interface is
      satisfied by every export of it. */
  lemma TagsAgreeIff(ds: seq<Draft>, subsumed: Subsumes, i: nat, k: nat)
    requires i < k < |ds| && NameOf(ds[i]) == NameOf(ds[k])
    ensures TypeTag(ds, Diverged(ds, subsumed), i) == TypeTag(ds, Diverged(ds, subsumed), k)
            <==> !Unsatisfied(ds, NameOf(ds[i]), subsumed)
  {
    DivergedIff(ds, subsumed, i);
    assert Anchor(ds[i]) == NameOf(ds[i]) && Anchor(ds[k]) == NameOf(ds[k]);
    if Unsatisfied(ds, NameOf(ds[i]), subsumed) { DivergedTagsDiffer(ds, Diverged(ds, subsumed), i, k); }
  }

  // ------------------------------------------------------------------ modules

  predicate IsModule(item: Item) { item.ModuleItem? }

  function ModulesBefore(cs: seq<Component>, i: nat): nat
    requires i <= |cs|
  {
    if i == 0 then 0 else ModulesBefore(cs, i - 1) + Defined(cs[i - 1], IsModule, |cs[i - 1].items|)
  }

  lemma {:induction false} SlotsAre(c: Component, self: nat, n: nat, k: nat)
    requires k < n <= |c.items|
    ensures var s := ScopeUpTo(c, self, n); |SlotModules(s, |s.slots|)| == Defined(c, IsModule, n)
    ensures c.items[k].ModuleItem? ==>
              var s := ScopeUpTo(c, self, n);
              Defined(c, IsModule, k) < Defined(c, IsModule, n)
              && SlotModules(s, |s.slots|)[Defined(c, IsModule, k)] == Module(self, c.items[k].facts)
    decreases n
  {
    SlotStep(c, self, n);
    SlotCount(c, self, n - 1);
    if k < n - 1 { SlotsAre(c, self, n - 1, k); }
  }

  lemma {:induction false} SlotCount(c: Component, self: nat, n: nat)
    requires n <= |c.items|
    ensures var s := ScopeUpTo(c, self, n); |SlotModules(s, |s.slots|)| == Defined(c, IsModule, n)
  {
    if n > 0 {
      SlotCount(c, self, n - 1);
      SlotStep(c, self, n);
    }
  }

  lemma SlotStep(c: Component, self: nat, n: nat)
    requires 0 < n <= |c.items|
    ensures var before, s := ScopeUpTo(c, self, n - 1), ScopeUpTo(c, self, n);
            SlotModules(s, |s.slots|) == SlotModules(before, |before.slots|)
              + if c.items[n - 1].ModuleItem? then [Module(self, c.items[n - 1].facts)] else []
  {
    var before, s := ScopeUpTo(c, self, n - 1), ScopeUpTo(c, self, n);
    ScopeUpToOk(c, self, n - 1);
    SlotsPrefix(before, s, |before.slots|);
  }

  lemma {:induction false} SlotsPrefix(a: Scope, b: Scope, n: nat)
    requires n <= |a.slots| && a.slots <= b.slots && a.self == b.self
    ensures SlotModules(a, n) == SlotModules(b, n)
  {
    if n > 0 { SlotsPrefix(a, b, n - 1); }
  }

  ghost function ModulesUpTo(c: Component, i: nat): seq<Module>
    requires i <= |Components(c)| && |ScopesOf(c, 0)| == |Components(c)|
  {
    Modules(ScopesOf(c, 0)[..i])
  }

  lemma ModulesStep(c: Component, i: nat)
    requires 0 < i <= |Components(c)| && |ScopesOf(c, 0)| == |Components(c)|
    ensures var s := ScopeUpTo(Components(c)[i - 1], i - 1, |Components(c)[i - 1].items|);
            ModulesUpTo(c, i) == ModulesUpTo(c, i - 1) + SlotModules(s, |s.slots|)
  {
    ScopesAre(c, i - 1);
    assert ScopesOf(c, 0)[..i][..i - 1] == ScopesOf(c, 0)[..i - 1];
  }

  lemma {:induction false} ModuleCount(c: Component, i: nat)
    requires i <= |Components(c)| && |ScopesOf(c, 0)| == |Components(c)|
    ensures |ModulesUpTo(c, i)| == ModulesBefore(Components(c), i)
  {
    if i > 0 {
      ModuleCount(c, i - 1);
      ModulesStep(c, i);
      SlotCount(Components(c)[i - 1], i - 1, |Components(c)[i - 1].items|);
    }
  }

  lemma {:induction false} ModulesGrow(c: Component, i: nat, j: nat)
    requires i <= j <= |Components(c)| && |ScopesOf(c, 0)| == |Components(c)|
    ensures ModulesUpTo(c, i) <= ModulesUpTo(c, j)
    decreases j
  {
    if i < j {
      ModulesGrow(c, i, j - 1);
      ModulesStep(c, j);
    }
  }

  /** Every embedded module is listed once, with its component, in order of components and items. */
  lemma ModuleAt(c: Component, i: nat, k: nat)
    requires i < |Components(c)| && k < |Components(c)[i].items| && Components(c)[i].items[k].ModuleItem?
    ensures var x, modules := Components(c)[i], Modules(ScopesOf(c, 0));
            var at := ModulesBefore(Components(c), i) + Defined(x, IsModule, k);
            && |modules| == ModulesBefore(Components(c), |Components(c)|)
            && at < |modules| && modules[at] == Module(i, x.items[k].facts)
  {
    var x := Components(c)[i];
    ModulesOfOneStand(c, i);
    SlotsAre(x, i, |x.items|, k);
  }

  lemma ModulesOfOneStand(c: Component, i: nat)
    requires i < |Components(c)|
    ensures var s, modules := ScopeUpTo(Components(c)[i], i, |Components(c)[i].items|), Modules(ScopesOf(c, 0));
            && |modules| == ModulesBefore(Components(c), |Components(c)|)
            && StandsAt(modules, ModulesBefore(Components(c), i), SlotModules(s, |s.slots|))
  {
    var all := |Components(c)|;
    ScopesAre(c, i);
    assert ScopesOf(c, 0)[..all] == ScopesOf(c, 0);
    ModuleCount(c, all);
    ModuleCount(c, i);
    ModulesStep(c, i + 1);
    ModulesGrow(c, i + 1, all);
    var s := ScopeUpTo(Components(c)[i], i, |Components(c)[i].items|);
    PartsStand(ModulesUpTo(c, all), ModulesUpTo(c, i), SlotModules(s, |s.slots|), []);
  }

  /** A module node says what its module's facts say, and is linked from its component. */
  lemma ModuleNodeIs(c: Component, subsumed: Subsumes, at: nat)
    requires at < |Modules(ScopesOf(c, 0))|
    ensures var scopes := ScopesOf(c, 0);
            var m, n := Modules(scopes)[at], GraphNodes(scopes, subsumed)[|scopes| + at];
            && n.id == NodeId(|scopes| + at) && n.interfaces == []
            && Link(m.owner, |scopes| + at) in AllLinks(c)
            && (m.facts.AdapterFacts? ==>
                  n.kind == Adapter && n.adapterTranslations == m.facts.translations
                  && n.rawImports == [] && n.instanceBoundImports == [])
            && (m.facts.CoreFacts? ==>
                  n.kind == CoreModule && n.rawImports == m.facts.rawImports && n.adapterTranslations == []
                  && (n.rawImports != [] ==> n.instanceBoundImports == m.facts.instanceBound))
  {
    assert Link(Modules(ScopesOf(c, 0))[at].owner, |ScopesOf(c, 0)| + at) in ModuleLinks(ScopesOf(c, 0));
  }

  /** A component node carries the occurrences of its component and nothing else. */
  lemma ComponentNodeIs(c: Component, subsumed: Subsumes, i: nat)
    requires i < |Components(c)|
    ensures var scopes := ScopesOf(c, 0);
            var ds := Drafts(scopes);
            var n := GraphNodes(scopes, subsumed)[i];
            && |GraphNodes(scopes, subsumed)| == |Components(c)| + |Modules(scopes)|
            && n.id == NodeId(i) && n.kind == Kind.Component
            && n.interfaces == InterfacesOf(ds, Diverged(ds, subsumed), i, |ds|)
            && n.rawImports == [] && n.instanceBoundImports == [] && n.adapterTranslations == []
  {
    ScopesAre(c, i);
  }

  // ------------------------------------------------------------------ codes

  /** The first malformed item of the first `n`, looking into nested components on the way. */
  function FirstMalformed(c: Component, n: nat): Option<BinaryError>
    requires n <= |c.items|
    decreases c, n
  {
    if n == 0 then None
    else if FirstMalformed(c, n - 1).Some? then FirstMalformed(c, n - 1)
    else match c.items[n - 1]
      case MalformedItem(error) => Some(error)
      case NestedItem(body) => FirstMalformed(body, |body.items|)
      case _ => None
  }

  function CodeOf(e: Option<BinaryError>): Option<string> {
    if e.None? then None else Some(BinaryCode(e.value))
  }

  lemma FitsLess(b: Budget, nodes: nat, links: nat, k: nat, m: nat)
    requires Fits(b, nodes, links, m) && k <= m
    ensures Fits(b, nodes, links, k)
  {
  }

  /** Within the budget the code of a parse is that of the first malformed item. */
  lemma {:induction false} ItemsCodeTells(c: Component, self: nat, depth: int, linked: nat, b: Budget, n: nat)
    requires n <= |c.items| && depth + Nesting(c, n) <= b.maxDepth && Fits(b, self + 1, linked, Allocated(c, n))
    ensures ItemsCode(c, self, depth, linked, b, n) == CodeOf(FirstMalformed(c, n))
    decreases c, n
  {
    if n > 0 {
      FitsLess(b, self + 1, linked, Allocated(c, n - 1), Allocated(c, n));
      ItemsCodeTells(c, self, depth, linked, b, n - 1);
      var item := c.items[n - 1];
      if item.NestedItem? {
        NestedCodeTells(item.body, self + 1 + Allocated(c, n - 1), depth + 1, linked + Allocated(c, n - 1), b);
      }
    }
  }

  lemma {:induction false} NestedCodeTells(body: Component, child: nat, depth: int, linked: nat, b: Budget)
    requires depth + Nesting(body, |body.items|) <= b.maxDepth
    requires Fits(b, child, linked, 1 + Allocated(body, |body.items|))
    ensures NestedCode(body, child, depth, linked, b) == CodeOf(FirstMalformed(body, |body.items|))
    decreases body, |body.items| + 1
  {
    ItemsCodeTells(body, child, depth, linked, b, |body.items|);
  }

  /** Without malformed items a parse fails for the budget only. */
  lemma {:induction false} WellFormedCode(c: Component, self: nat, depth: int, linked: nat, b: Budget, n: nat)
    requires n <= |c.items| && WellFormed(c, n) && ItemsCode(c, self, depth, linked, b, n).Some?
    ensures ItemsCode(c, self, depth, linked, b, n) == Some("WASM_CLOSURE_BUDGET_EXCEEDED")
    decreases c, n
  {
    if ItemsCode(c, self, depth, linked, b, n - 1).Some? {
      WellFormedCode(c, self, depth, linked, b, n - 1);
    } else {
      var item := c.items[n - 1];
      WellFormedNestedCode(item.body, self + 1 + Allocated(c, n - 1), depth + 1, linked + Allocated(c, n - 1), b);
    }
  }

  lemma {:induction false} WellFormedNestedCode(body: Component, child: nat, depth: int, linked: nat, b: Budget)
    requires WellFormed(body, |body.items|) && NestedCode(body, child, depth, linked, b).Some?
    ensures NestedCode(body, child, depth, linked, b) == Some("WASM_CLOSURE_BUDGET_EXCEEDED")
    decreases body, |body.items| + 1
  {
    if depth <= b.maxDepth && ItemsCode(body, child, depth, linked, b, |body.items|).Some? {
      WellFormedCode(body, child, depth, linked, b, |body.items|);
    }
  }

  /** The nesting and the components alone are within the budget. */
  predicate NestingFits(c: Component, b: Budget) {
    1 <= b.maxNodes && 1 + Nesting(c, |c.items|) <= b.maxDepth && Fits(b, 1, 0, Allocated(c, |c.items|))
  }

  /** Why a component is not scanned: what it nests does not fit the budget, an item is
      malformed, the entry imports something untyped or does not export once, an instance type
      cannot be decoded, or the modules do not fit; each with its code, in this order. */
  lemma ScanCodeTells(c: Component, b: Budget)
    ensures WellFormed(c, |c.items|) && !NestingFits(c, b) ==> ScanCodeOf(c, b) == Some("WASM_CLOSURE_BUDGET_EXCEEDED")
    ensures NestingFits(c, b) && FirstMalformed(c, |c.items|).Some? ==>
              ScanCodeOf(c, b) == Some(BinaryCode(FirstMalformed(c, |c.items|).value))
    ensures NestingFits(c, b) && FirstMalformed(c, |c.items|).None? ==>
              var scopes := ScopesOf(c, 0);
              ScanCodeOf(c, b) ==
              if !ImportsTyped(scopes[0]) then Some("WASM_IMPORT_UNMAPPABLE")
              else if |scopes[0].exports| != 1 then Some("WASM_EXPORT_MISMATCH")
              else if !AllDecodable(scopes) then Some("WASM_BINARY_SECTION_INVALID")
              else if !Fits(b, 1, 0, Allocated(c, |c.items|) + |Modules(scopes)|)
              then Some("WASM_CLOSURE_BUDGET_EXCEEDED")
              else None
  {
    if NestingFits(c, b) {
      FittingParse(c, b);
      BehindTheParse(c, b);
    }
    if WellFormed(c, |c.items|) && !NestingFits(c, b) && 1 <= b.maxNodes { TooMuchNested(c, b); }
  }

  lemma FittingParse(c: Component, b: Budget)
    requires NestingFits(c, b)
    ensures ParseCode(c, 0, 1, 0, b) == CodeOf(FirstMalformed(c, |c.items|))
  {
    ItemsCodeTells(c, 0, 1, 0, b, |c.items|);
  }

  lemma TooMuchNested(c: Component, b: Budget)
    requires WellFormed(c, |c.items|) && !NestingFits(c, b) && 1 <= b.maxNodes
    ensures ParseCode(c, 0, 1, 0, b) == Some("WASM_CLOSURE_BUDGET_EXCEEDED")
  {
    if 1 <= b.maxDepth {
      ItemsPassIff(c, 0, 1, 0, b, |c.items|);
      WellFormedCode(c, 0, 1, 0, b, |c.items|);
    }
  }

  lemma BehindTheParse(c: Component, b: Budget)
    requires NestingFits(c, b)
    ensures ParseCode(c, 0, 1, 0, b).Some? ==> ScanCodeOf(c, b) == ParseCode(c, 0, 1, 0, b)
    ensures ParseCode(c, 0, 1, 0, b).None? ==>
              var scopes := ScopesOf(c, 0);
              ScanCodeOf(c, b) ==
              if !ImportsTyped(scopes[0]) then Some("WASM_IMPORT_UNMAPPABLE")
              else if |scopes[0].exports| != 1 then Some("WASM_EXPORT_MISMATCH")
              else if !AllDecodable(scopes) then Some("WASM_BINARY_SECTION_INVALID")
              else if !Fits(b, 1, 0, Allocated(c, |c.items|) + |Modules(scopes)|)
              then Some("WASM_CLOSURE_BUDGET_EXCEEDED")
              else None
  {
  }

  /** The entry's requirements on its own items. */
  lemma EntryIsTyped(c: Component)
    ensures ImportsTyped(ScopesOf(c, 0)[0]) <==>
            forall k :: 0 <= k < |c.items| && c.items[k].ImportItem? ==>
              c.items[k].imp.sort == SortInstance && c.items[k].imp.wit.Some?
    ensures |ScopesOf(c, 0)[0].exports| == Defined(c, IsExport, |c.items|)
  {
    ScopesAre(c, 0);
    var s := ScopeUpTo(c, 0, |c.items|);
    ExportCount(c, 0, |c.items|);
    ImportCount(c, 0, |c.items|);
    forall k | 0 <= k < |c.items| && c.items[k].ImportItem?
      ensures Defined(c, IsImport, k) < |s.imports| && s.imports[Defined(c, IsImport, k)] == c.items[k].imp
    {
      ImportsAre(c, 0, |c.items|, k);
    }
    forall j | 0 <= j < |s.imports| ensures exists k :: 0 <= k < |c.items| && c.items[k] == ImportItem(s.imports[j]) {
      var k := ImportOrigin(c, 0, |c.items|, j);
    }
  }

  lemma {:induction false} ImportOrigin(c: Component, self: nat, n: nat, j: nat) returns (k: nat)
    requires n <= |c.items| && j < |ScopeUpTo(c, self, n).imports|
    ensures k < n && c.items[k] == ImportItem(ScopeUpTo(c, self, n).imports[j])
  {
    if j < |ScopeUpTo(c, self, n - 1).imports| {
      k := ImportOrigin(c, self, n - 1, j);
    } else {
      k := n - 1;
    }
  }

  lemma {:induction false} DecodableIff(c: Component, self: nat)
    ensures Undecodable(ScopeUpTo(c, self, |c.items|)) <==>
            exists k :: 0 <= k < |c.items| && IsUndecodable(c.items[k])
  {
    var s := ScopeUpTo(c, self, |c.items|);
    if Undecodable(s) {
      var j :| 0 <= j < |s.imports| && IsTypedImport(s.imports[j]) && s.imports[j].shape.None?;
      var k := ImportOrigin(c, self, |c.items|, j);
      assert IsUndecodable(c.items[k]);
    }
    if k :| 0 <= k < |c.items| && IsUndecodable(c.items[k]) {
      ImportsAre(c, self, |c.items|, k);
      assert s.imports[Defined(c, IsImport, k)] == c.items[k].imp;
    }
  }

  /** A typed import whose instance type cannot be decoded. */
  predicate IsUndecodable(item: Item) {
    item.ImportItem? && item.imp.sort == SortInstance && item.imp.wit.Some? && item.imp.shape.None?
  }

  /** Every component's typed imports decode exactly if no item of any component is undecodable. */
  lemma AllDecodableIff(c: Component)
    ensures AllDecodable(ScopesOf(c, 0)) <==>
            forall x, k :: x in Components(c) && 0 <= k < |x.items| ==> !IsUndecodable(x.items[k])
  {
    ScopesAre(c, 0);
    forall i: nat | i < |Components(c)|
      ensures Undecodable(ScopesOf(c, 0)[i]) <==>
              exists k :: 0 <= k < |Components(c)[i].items| && IsUndecodable(Components(c)[i].items[k])
    {
      ScopesAre(c, i);
      DecodableIff(Components(c)[i], i);
    }
    if AllDecodable(ScopesOf(c, 0)) {
      forall x, k | x in Components(c) && 0 <= k < |x.items| ensures !IsUndecodable(x.items[k]) {
        var i :| 0 <= i < |Components(c)| && Components(c)[i] == x;
        assert !Undecodable(ScopesOf(c, 0)[i]);
      }
    } else {
      var i :| 0 <= i < |ScopesOf(c, 0)| && Undecodable(ScopesOf(c, 0)[i]);
      assert Components(c)[i] in Components(c);
    }
  }
}
