/** The verdict of the closure validator told from the graph itself: from its raw imports,
    from who exports what, from the entry's exports and from the declared imports. */
module ClosureVerdict {
  import opened Basics
  import opened WitCapability
  import opened ClosureWalk
  import opened WasmClosure
  import opened ClosureDepth

  // ------------------------------------------------------------------ raw imports

  /** Some node of the graph translates it. */
  ghost predicate TranslatedBySome(g: Graph, raw: string) {
    exists i, k :: 0 <= i < |g.nodes| && 0 <= k < |g.nodes[i].adapterTranslations|
                   && g.nodes[i].adapterTranslations[k] == raw
  }

  /** What is left over of a core module's or an adapter's raw imports: nothing translates it,
      and a core module has not bound it to an instance either. */
  ghost predicate LeftOver(g: Graph, i: nat, raw: string)
    requires i < |g.nodes|
  {
    var n := g.nodes[i];
    && raw in n.rawImports && !TranslatedBySome(g, raw)
    && (n.kind == Adapter || (n.kind == CoreModule && raw !in n.instanceBoundImports))
  }

  ghost predicate Offends(g: Graph, i: nat)
    requires i < |g.nodes|
  {
    exists raw :: LeftOver(g, i, raw)
  }

  lemma TranslatedIff(g: Graph, raw: string)
    ensures raw in Translated(g.nodes) <==> TranslatedBySome(g, raw)
  {
  }

  lemma RawCodeIff(g: Graph, i: nat)
    requires i < |g.nodes|
    ensures RawCode(g.nodes[i], Translated(g.nodes)) ==
            if !Offends(g, i) then None
            else if g.nodes[i].kind == Adapter then Some(WASM_ADAPTER_EXTERNAL_IMPORT) else Some(WASM_IMPORT_UNMAPPABLE)
  {
    var n := g.nodes[i];
    forall raw ensures raw in Translated(g.nodes) <==> TranslatedBySome(g, raw) { TranslatedIff(g, raw); }
    if raw :| LeftOver(g, i, raw) {
      var k :| 0 <= k < |n.rawImports| && n.rawImports[k] == raw;
    } else {
      forall k | 0 <= k < |n.rawImports| ensures !LeftOver(g, i, n.rawImports[k]) {}
    }
  }

  /** The first node that leaves a raw import over decides the code of this step. */
  ghost predicate FirstOffends(g: Graph, i: nat) {
    i < |g.nodes| && Offends(g, i) && forall k: nat :: k < i ==> !Offends(g, k)
  }

  lemma RawStepIff(g: Graph)
    ensures FirstRawCode(g.nodes, Translated(g.nodes)).None? <==> forall i: nat :: i < |g.nodes| ==> !Offends(g, i)
    ensures forall i: nat :: FirstOffends(g, i) ==>
              FirstRawCode(g.nodes, Translated(g.nodes)) ==
              Some(if g.nodes[i].kind == Adapter then WASM_ADAPTER_EXTERNAL_IMPORT else WASM_IMPORT_UNMAPPABLE)
  {
    var code := (n: Node) => RawCode(n, Translated(g.nodes));
    FirstOfIsFirst(g.nodes, code);
    forall i: nat | i < |g.nodes|
      ensures code(g.nodes[i]) == if !Offends(g, i) then None
                                  else if g.nodes[i].kind == Adapter then Some(WASM_ADAPTER_EXTERNAL_IMPORT)
                                  else Some(WASM_IMPORT_UNMAPPABLE)
    {
      RawCodeIff(g, i);
    }
  }

  /** Past the structure steps: a graph is rejected for its raw imports exactly if some node
      leaves one over, with the code of the first such node. */
  lemma RawImportsDecide(g: Graph, m: Matrix, i: nat)
    requires StructureCode(g, m).None? && FirstOffends(g, i)
    ensures g.nodes[i].kind == Adapter ==> FailureCode(g, m) == Some("WASM_ADAPTER_EXTERNAL_IMPORT")
    ensures g.nodes[i].kind == CoreModule ==> FailureCode(g, m) == Some("WASM_IMPORT_UNMAPPABLE")
    ensures g.nodes[i].kind != Component
  {
    RawStepIff(g);
  }

  /** In an accepted graph an adapter's raw imports are translated somewhere, and a core
      module's are translated somewhere or bound by the module itself. */
  lemma AcceptedRawImportsAreMet(g: Graph, m: Matrix, i: nat, raw: string)
    requires FailureCode(g, m).None? && i < |g.nodes| && raw in g.nodes[i].rawImports
    ensures g.nodes[i].kind == Adapter ==> TranslatedBySome(g, raw)
    ensures g.nodes[i].kind == CoreModule ==> TranslatedBySome(g, raw) || raw in g.nodes[i].instanceBoundImports
  {
    RawStepIff(g);
    assert !Offends(g, i) && !LeftOver(g, i, raw);
  }

  // ------------------------------------------------------------------ who exports what

  predicate IsExportOf(e: Occurrence, package: string, iface: string) {
    e.direction == Export && e.package == package && e.iface == iface
  }

  /** A re-export counts for the node it names. */
  function ProviderOf(e: Occurrence, exporter: string): string {
    if e.providerAlias.Some? then e.providerAlias.value else exporter
  }

  /** Another node than the importer exports the interface with this occurrence. */
  predicate ExportAt(nodes: seq<Node>, importer: string, wanted: Occurrence, p: nat, x: nat) {
    && p < |nodes| && nodes[p].id != importer
    && x < |nodes[p].interfaces| && IsExportOf(nodes[p].interfaces[x], wanted.package, wanted.iface)
  }

  function ProviderAt(nodes: seq<Node>, p: nat, x: nat): string
    requires p < |nodes| && x < |nodes[p].interfaces|
  {
    ProviderOf(nodes[p].interfaces[x], nodes[p].id)
  }

  lemma {:induction false} OffersInAre(es: seq<Occurrence>, exporter: string, wanted: Occurrence, o: Offer)
    ensures o in OffersIn(es, exporter, wanted) <==>
            exists x :: 0 <= x < |es| && IsExportOf(es[x], wanted.package, wanted.iface)
                        && o == Offer(ProviderOf(es[x], exporter), es[x].typeTag)
  {
    if es != [] {
      var n := |es| - 1;
      OffersInAre(es[..n], exporter, wanted, o);
      assert forall x :: 0 <= x < n ==> es[..n][x] == es[x];
    }
  }

  lemma {:induction false} OffersAre(nodes: seq<Node>, importer: string, wanted: Occurrence, o: Offer)
    ensures o in Offers(nodes, importer, wanted) <==>
            exists p: nat, x: nat :: ExportAt(nodes, importer, wanted, p, x)
                                     && o == Offer(ProviderAt(nodes, p, x), nodes[p].interfaces[x].typeTag)
  {
    if nodes != [] {
      var n := |nodes| - 1;
      OffersAre(nodes[..n], importer, wanted, o);
      OffersInAre(nodes[n].interfaces, nodes[n].id, wanted, o);
      forall p: nat, x: nat | p < n
        ensures ExportAt(nodes, importer, wanted, p, x) <==> ExportAt(nodes[..n], importer, wanted, p, x) {}
      if nodes[n].id != importer && o in OffersIn(nodes[n].interfaces, nodes[n].id, wanted) {
        var x :| 0 <= x < |nodes[n].interfaces| && IsExportOf(nodes[n].interfaces[x], wanted.package, wanted.iface)
                 && o == Offer(ProviderOf(nodes[n].interfaces[x], nodes[n].id), nodes[n].interfaces[x].typeTag);
        assert ExportAt(nodes, importer, wanted, n, x);
      }
    }
  }

  /** The first offer of a provider has this type. */
  ghost predicate HasFirst(offers: seq<Offer>, id: string, tag: string) {
    exists i: nat :: FirstOffer(offers, id, i) && offers[i].typeTag == tag
  }

  ghost predicate NoneOf(offers: seq<Offer>, id: string) {
    forall i :: 0 <= i < |offers| ==> offers[i].providerId != id
  }

  lemma HasFirstConcat(a: seq<Offer>, b: seq<Offer>, id: string, tag: string)
    ensures HasFirst(a + b, id, tag) <==> HasFirst(a, id, tag) || (NoneOf(a, id) && HasFirst(b, id, tag))
  {
    var c := a + b;
    if i: nat :| FirstOffer(a, id, i) && a[i].typeTag == tag { assert FirstOffer(c, id, i) && c[i] == a[i]; }
    if NoneOf(a, id) && HasFirst(b, id, tag) {
      var i: nat :| FirstOffer(b, id, i) && b[i].typeTag == tag;
      assert c[|a| + i] == b[i];
      assert FirstOffer(c, id, |a| + i);
    }
    if i: nat :| FirstOffer(c, id, i) && c[i].typeTag == tag {
      if i < |a| {
        forall k | 0 <= k <= i ensures a[k] == c[k] {}
        assert FirstOffer(a, id, i);
      } else {
        forall k | 0 <= k < |a| ensures a[k].providerId != id { assert c[k] == a[k]; }
        forall k | 0 <= k < i - |a| ensures b[k].providerId != id { assert c[|a| + k] == b[k]; }
        assert FirstOffer(b, id, i - |a|) && b[i - |a|] == c[i];
      }
    }
  }

  ghost predicate CountsFor(e: Occurrence, exporter: string, wanted: Occurrence, id: string) {
    IsExportOf(e, wanted.package, wanted.iface) && ProviderOf(e, exporter) == id
  }

  /** The first occurrence of a node that counts for the provider. */
  ghost predicate FirstIn(es: seq<Occurrence>, exporter: string, wanted: Occurrence, id: string, x: nat) {
    && x < |es| && CountsFor(es[x], exporter, wanted, id)
    && forall y :: 0 <= y < x ==> !CountsFor(es[y], exporter, wanted, id)
  }

  lemma OneOffer(o: Offer, id: string, tag: string)
    ensures HasFirst([o], id, tag) <==> o == Offer(id, tag)
  {
    if o == Offer(id, tag) { assert FirstOffer([o], id, 0); }
  }

  lemma {:induction false} NoneIn(es: seq<Occurrence>, exporter: string, wanted: Occurrence, id: string)
    ensures NoneOf(OffersIn(es, exporter, wanted), id) <==> NoneCounts(es, exporter, wanted, id)
  {
    if es != [] {
      var n := |es| - 1;
      NoneIn(es[..n], exporter, wanted, id);
      assert forall x :: 0 <= x < n ==> es[..n][x] == es[x];
      var before, now := OffersIn(es[..n], exporter, wanted), OffersIn(es, exporter, wanted);
      forall i | 0 <= i < |before| ensures now[i] == before[i] {}
      if IsExportOf(es[n], wanted.package, wanted.iface) {
        assert now == before + [OfferOf(es[n], exporter)];
        assert now[|before|] == OfferOf(es[n], exporter);
      }
    }
  }

  ghost predicate SomeFirstIn(es: seq<Occurrence>, exporter: string, wanted: Occurrence, id: string, tag: string) {
    exists x: nat :: FirstIn(es, exporter, wanted, id, x) && es[x].typeTag == tag
  }

  ghost predicate NoneCounts(es: seq<Occurrence>, exporter: string, wanted: Occurrence, id: string) {
    forall x :: 0 <= x < |es| ==> !CountsFor(es[x], exporter, wanted, id)
  }

  lemma {:induction false} FirstInIs(es: seq<Occurrence>, exporter: string, wanted: Occurrence, id: string, tag: string)
    ensures HasFirst(OffersIn(es, exporter, wanted), id, tag) <==> SomeFirstIn(es, exporter, wanted, id, tag)
  {
    if es != [] {
      var n := |es| - 1;
      FirstInIs(es[..n], exporter, wanted, id, tag);
      NoneIn(es[..n], exporter, wanted, id);
      SomeFirstInStep(es, exporter, wanted, id, tag);
      OffersInStep(es, exporter, wanted, id, tag);
    }
  }

  lemma OffersInStep(es: seq<Occurrence>, exporter: string, wanted: Occurrence, id: string, tag: string)
    requires es != []
    ensures var n := |es| - 1;
            HasFirst(OffersIn(es, exporter, wanted), id, tag) <==>
            HasFirst(OffersIn(es[..n], exporter, wanted), id, tag)
            || (NoneOf(OffersIn(es[..n], exporter, wanted), id)
                && CountsFor(es[n], exporter, wanted, id) && es[n].typeTag == tag)
  {
    var n := |es| - 1;
    var before, o := OffersIn(es[..n], exporter, wanted), OfferOf(es[n], exporter);
    HasFirstConcat(before, [o], id, tag);
    OneOffer(o, id, tag);
    assert before + [] == before;
  }

  lemma SomeFirstInStep(es: seq<Occurrence>, exporter: string, wanted: Occurrence, id: string, tag: string)
    requires es != []
    ensures var n := |es| - 1;
            SomeFirstIn(es, exporter, wanted, id, tag) <==>
            SomeFirstIn(es[..n], exporter, wanted, id, tag)
            || (NoneCounts(es[..n], exporter, wanted, id)
                && CountsFor(es[n], exporter, wanted, id) && es[n].typeTag == tag)
  {
    var n := |es| - 1;
    assert forall x :: 0 <= x < n ==> es[..n][x] == es[x];
    if x: nat :| FirstIn(es[..n], exporter, wanted, id, x) && es[..n][x].typeTag == tag {
      assert FirstIn(es, exporter, wanted, id, x);
    }
    if x: nat :| FirstIn(es, exporter, wanted, id, x) && es[x].typeTag == tag {
      if x < n { assert FirstIn(es[..n], exporter, wanted, id, x); }
    }
    if NoneCounts(es[..n], exporter, wanted, id) && CountsFor(es[n], exporter, wanted, id) {
      forall y | 0 <= y < n ensures !CountsFor(es[y], exporter, wanted, id) {
        assert !CountsFor(es[..n][y], exporter, wanted, id);
      }
      assert FirstIn(es, exporter, wanted, id, n);
    }
  }

  /** The first occurrence, node by node, that counts for the provider. */
  ghost predicate FirstExportAt(nodes: seq<Node>, importer: string, wanted: Occurrence, id: string, p: nat, x: nat) {
    && p < |nodes| && nodes[p].id != importer && FirstIn(nodes[p].interfaces, nodes[p].id, wanted, id, x)
    && forall q :: 0 <= q < p ==> NoExportIn(nodes[q], importer, wanted, id)
  }

  ghost predicate NoExportIn(n: Node, importer: string, wanted: Occurrence, id: string) {
    n.id == importer || NoneCounts(n.interfaces, n.id, wanted, id)
  }

  ghost function NodeOffers(n: Node, importer: string, wanted: Occurrence): seq<Offer> {
    if n.id == importer then [] else OffersIn(n.interfaces, n.id, wanted)
  }

  lemma {:induction false} NoneAt(nodes: seq<Node>, importer: string, wanted: Occurrence, id: string)
    ensures NoneOf(Offers(nodes, importer, wanted), id) <==> NoExports(nodes, importer, wanted, id)
  {
    if nodes != [] {
      var n := |nodes| - 1;
      NoneAt(nodes[..n], importer, wanted, id);
      NoneIn(nodes[n].interfaces, nodes[n].id, wanted, id);
      assert forall q :: 0 <= q < n ==> nodes[..n][q] == nodes[q];
      NoneConcat(Offers(nodes[..n], importer, wanted), NodeOffers(nodes[n], importer, wanted), id);
    }
  }

  lemma NoneConcat(a: seq<Offer>, b: seq<Offer>, id: string)
    ensures NoneOf(a + b, id) <==> NoneOf(a, id) && NoneOf(b, id)
  {
    var c := a + b;
    if NoneOf(c, id) {
      forall i | 0 <= i < |a| ensures a[i].providerId != id { assert c[i] == a[i]; }
      forall i | 0 <= i < |b| ensures b[i].providerId != id { assert c[|a| + i] == b[i]; }
    }
  }

  ghost predicate SomeFirstAt(nodes: seq<Node>, importer: string, wanted: Occurrence, id: string, tag: string) {
    exists p: nat, x: nat :: FirstExportAt(nodes, importer, wanted, id, p, x) && nodes[p].interfaces[x].typeTag == tag
  }

  ghost predicate NoExports(nodes: seq<Node>, importer: string, wanted: Occurrence, id: string) {
    forall q :: 0 <= q < |nodes| ==> NoExportIn(nodes[q], importer, wanted, id)
  }

  lemma {:induction false} FirstAtIs(nodes: seq<Node>, importer: string, wanted: Occurrence, id: string, tag: string)
    ensures HasFirst(Offers(nodes, importer, wanted), id, tag) <==> SomeFirstAt(nodes, importer, wanted, id, tag)
  {
    if nodes != [] {
      var n := |nodes| - 1;
      FirstAtIs(nodes[..n], importer, wanted, id, tag);
      NoneAt(nodes[..n], importer, wanted, id);
      FirstInIs(nodes[n].interfaces, nodes[n].id, wanted, id, tag);
      HasFirstConcat(Offers(nodes[..n], importer, wanted), NodeOffers(nodes[n], importer, wanted), id, tag);
      FirstAtStep(nodes, importer, wanted, id, tag);
    }
  }

  lemma FirstAtStep(nodes: seq<Node>, importer: string, wanted: Occurrence, id: string, tag: string)
    requires nodes != []
    ensures var n := |nodes| - 1;
            SomeFirstAt(nodes, importer, wanted, id, tag) <==>
            SomeFirstAt(nodes[..n], importer, wanted, id, tag)
            || (NoExports(nodes[..n], importer, wanted, id) && nodes[n].id != importer
                && SomeFirstIn(nodes[n].interfaces, nodes[n].id, wanted, id, tag))
  {
    var n := |nodes| - 1;
    assert forall q :: 0 <= q < n ==> nodes[..n][q] == nodes[q];
    if p: nat, x: nat :| FirstExportAt(nodes[..n], importer, wanted, id, p, x)
                         && nodes[..n][p].interfaces[x].typeTag == tag {
      assert FirstExportAt(nodes, importer, wanted, id, p, x);
    }
    if p: nat, x: nat :| FirstExportAt(nodes, importer, wanted, id, p, x) && nodes[p].interfaces[x].typeTag == tag {
      if p < n {
        assert FirstExportAt(nodes[..n], importer, wanted, id, p, x);
      } else {
        forall q | 0 <= q < n ensures NoExportIn(nodes[..n][q], importer, wanted, id) {
          assert NoExportIn(nodes[q], importer, wanted, id);
        }
      }
    }
    if NoExports(nodes[..n], importer, wanted, id) && nodes[n].id != importer
       && SomeFirstIn(nodes[n].interfaces, nodes[n].id, wanted, id, tag) {
      var x: nat :| FirstIn(nodes[n].interfaces, nodes[n].id, wanted, id, x)
                    && nodes[n].interfaces[x].typeTag == tag;
      forall q | 0 <= q < n ensures NoExportIn(nodes[q], importer, wanted, id) {
        assert NoExportIn(nodes[..n][q], importer, wanted, id);
      }
      assert FirstExportAt(nodes, importer, wanted, id, n, x);
    }
  }

  // ------------------------------------------------------------------ one import

  /** An export nobody may rely on: it has no type, or it re-exports a node that is not there. */
  ghost predicate SomeBadExport(g: Graph, importer: string, wanted: Occurrence) {
    exists p: nat, x: nat :: ExportAt(g.nodes, importer, wanted, p, x)
      && (g.nodes[p].interfaces[x].typeTag == ""
          || (ProviderAt(g.nodes, p, x) != importer && ProviderAt(g.nodes, p, x) !in Ids(g.nodes)))
  }

  /** Node `id`, not the importer, provides the interface, first declared with this type. */
  ghost predicate Provides(g: Graph, importer: string, wanted: Occurrence, id: string, tag: string) {
    id != importer && SomeFirstAt(g.nodes, importer, wanted, id, tag)
  }

  lemma ProvidersAre(g: Graph, importer: string, wanted: Occurrence, id: string, tag: string)
    ensures var providers := Providers(Offers(g.nodes, importer, wanted), importer);
            id in providers && providers[id] == tag <==> Provides(g, importer, wanted, id, tag)
  {
    var offers := Offers(g.nodes, importer, wanted);
    FirstAtIs(g.nodes, importer, wanted, id, tag);
    ProvidersRecordFirst(offers, importer, id);
    if HasFirst(offers, id, tag) {
      var i: nat :| FirstOffer(offers, id, i) && offers[i].typeTag == tag;
      forall k: nat | FirstOffer(offers, id, k) ensures k == i {}
    }
  }

  lemma BadExportIff(g: Graph, importer: string, wanted: Occurrence)
    ensures NoBadOffer(Ids(g.nodes), importer, Offers(g.nodes, importer, wanted))
            <==> !SomeBadExport(g, importer, wanted)
  {
    var offers := Offers(g.nodes, importer, wanted);
    forall o: Offer
      ensures o in offers <==>
              exists p: nat, x: nat ::
                ExportAt(g.nodes, importer, wanted, p, x)
                  && o == Offer(ProviderAt(g.nodes, p, x), g.nodes[p].interfaces[x].typeTag)
    {
      OffersAre(g.nodes, importer, wanted, o);
    }
    if SomeBadExport(g, importer, wanted) {
      var p: nat, x: nat :| ExportAt(g.nodes, importer, wanted, p, x)
        && (g.nodes[p].interfaces[x].typeTag == ""
            || (ProviderAt(g.nodes, p, x) != importer && ProviderAt(g.nodes, p, x) !in Ids(g.nodes)));
      var o := Offer(ProviderAt(g.nodes, p, x), g.nodes[p].interfaces[x].typeTag);
      assert o in offers;
      var i :| 0 <= i < |offers| && offers[i] == o;
      assert BadOffer(Ids(g.nodes), importer, offers[i]);
    } else {
      forall i | 0 <= i < |offers| ensures !BadOffer(Ids(g.nodes), importer, offers[i]) { assert offers[i] in offers; }
    }
  }

  /** No other node provides the interface: the import is asked of the host. */
  ghost predicate Nobody(g: Graph, importer: string, e: Occurrence) {
    forall id, tag :: !Provides(g, importer, e, id, tag)
  }

  /** Some provider's type is not the wanted one. */
  ghost predicate TypesDiffer(g: Graph, importer: string, e: Occurrence) {
    exists id, tag :: Provides(g, importer, e, id, tag) && tag != e.typeTag
  }

  ghost predicate ProvidesSome(g: Graph, importer: string, e: Occurrence, id: string) {
    exists tag :: Provides(g, importer, e, id, tag)
  }

  ghost predicate TwoProvide(g: Graph, importer: string, e: Occurrence) {
    exists id, other :: id != other && ProvidesSome(g, importer, e, id) && ProvidesSome(g, importer, e, other)
  }

  lemma ProviderMap(g: Graph, importer: string, e: Occurrence)
    ensures var providers := Providers(Offers(g.nodes, importer, e), importer);
            && (forall id, tag :: id in providers && providers[id] == tag <==> Provides(g, importer, e, id, tag))
            && (forall id :: id in providers <==> ProvidesSome(g, importer, e, id))
  {
    var providers := Providers(Offers(g.nodes, importer, e), importer);
    forall id, tag ensures id in providers && providers[id] == tag <==> Provides(g, importer, e, id, tag) {
      ProvidersAre(g, importer, e, id, tag);
    }
    forall id ensures id in providers <==> ProvidesSome(g, importer, e, id) {
      if id in providers { assert Provides(g, importer, e, id, providers[id]); }
    }
  }

  lemma MapHasTwo(m: map<string, string>)
    ensures |m| > 1 <==> exists id, other :: id in m && other in m && id != other
  {
    if |m| > 1 {
      assert |m.Keys| == |m|;
      var id :| id in m;
      assert m.Keys == {id} + (m.Keys - {id});
      var other :| other in m.Keys - {id};
      assert other in m && id != other;
    }
    if id, other :| id in m && other in m && id != other {
      SubsetSize({id, other}, m.Keys);
      assert |m.Keys| == |m|;
    }
  }

  lemma NobodyIff(g: Graph, importer: string, e: Occurrence)
    ensures Providers(Offers(g.nodes, importer, e), importer) == map[] <==> Nobody(g, importer, e)
  {
    ProviderMap(g, importer, e);
    var providers := Providers(Offers(g.nodes, importer, e), importer);
    if providers != map[] {
      var id :| id in providers;
      assert Provides(g, importer, e, id, providers[id]);
    }
  }

  lemma TypesDifferIff(g: Graph, importer: string, e: Occurrence)
    ensures AllOfType(Providers(Offers(g.nodes, importer, e), importer), e.typeTag) <==> !TypesDiffer(g, importer, e)
  {
    ProviderMap(g, importer, e);
    var providers := Providers(Offers(g.nodes, importer, e), importer);
    if id :| id in providers && providers[id] != e.typeTag { assert Provides(g, importer, e, id, providers[id]); }
  }

  lemma TwoProvideIff(g: Graph, importer: string, e: Occurrence)
    ensures |Providers(Offers(g.nodes, importer, e), importer)| > 1 <==> TwoProvide(g, importer, e)
  {
    ProviderMap(g, importer, e);
    MapHasTwo(Providers(Offers(g.nodes, importer, e), importer));
  }

  /** The code of an import, in the order of the tests: an unreliable export anywhere else, no
      provider and then the matrix's verdict, a provider of another type, more than one provider. */
  lemma ImportVerdict(g: Graph, m: Matrix, importer: string, e: Occurrence)
    ensures ImportCode(g, m, importer, e) ==
            if SomeBadExport(g, importer, e) then Some("WASM_CLOSURE_GRAPH_INVALID")
            else if Nobody(g, importer, e) then ClassifyWasmHostImport(m, e.package, e.iface)
            else if TypesDiffer(g, importer, e) then Some("WASM_INTERNAL_TYPE_MISMATCH")
            else if TwoProvide(g, importer, e) then Some("WASM_IMPORT_AMBIGUOUS")
            else None
  {
    BadExportIff(g, importer, e);
    NobodyIff(g, importer, e);
    TypesDifferIff(g, importer, e);
    TwoProvideIff(g, importer, e);
  }

  // ------------------------------------------------------------------ one occurrence

  /** The stores of secrets and of config are imported, never exported. */
  predicate ExportsStore(e: Occurrence, package: string) {
    e.direction == Export && e.iface == "store" && e.package == package
  }

  /** Exactly one other node provides the interface, first declared with the wanted type. */
  ghost predicate MetInside(g: Graph, importer: string, e: Occurrence) {
    exists id :: Provides(g, importer, e, id, e.typeTag)
                 && forall other :: ProvidesSome(g, importer, e, other) ==> other == id
  }

  /** A met import: no unreliable export, and either one provider of its type inside the graph,
      or none at all and an exact entry of the matrix. */
  ghost predicate Met(g: Graph, m: Matrix, importer: string, e: Occurrence) {
    && !SomeBadExport(g, importer, e)
    && if Nobody(g, importer, e) then Capability(e.package, e.iface, Import) in m.hostImports
       else MetInside(g, importer, e)
  }

  ghost predicate Fine(g: Graph, m: Matrix, importer: string, e: Occurrence) {
    && IsIdentityText(e.package) && IsWitName(e.iface) && e.typeTag != ""
    && !ExportsStore(e, IWEB_SECRETS) && !ExportsStore(e, IWEB_CONFIG)
    && (e.direction == Import ==> Met(g, m, importer, e))
  }

  lemma MetInsideIff(g: Graph, importer: string, e: Occurrence)
    requires !Nobody(g, importer, e)
    ensures MetInside(g, importer, e) <==> !TypesDiffer(g, importer, e) && !TwoProvide(g, importer, e)
  {
    ProviderMap(g, importer, e);
    var id, tag :| Provides(g, importer, e, id, tag);
    assert ProvidesSome(g, importer, e, id);
    if !TypesDiffer(g, importer, e) && !TwoProvide(g, importer, e) {
      assert tag == e.typeTag;
      forall other | ProvidesSome(g, importer, e, other) ensures other == id {}
    }
    if MetInside(g, importer, e) {
      var one :| Provides(g, importer, e, one, e.typeTag)
                 && forall other :: ProvidesSome(g, importer, e, other) ==> other == one;
      forall other, t | Provides(g, importer, e, other, t) ensures t == e.typeTag {
        assert ProvidesSome(g, importer, e, other);
      }
    }
  }

  lemma MetIff(g: Graph, m: Matrix, importer: string, e: Occurrence)
    requires MatrixOk(m)
    ensures ImportCode(g, m, importer, e).None? <==> Met(g, m, importer, e)
  {
    ImportVerdict(g, m, importer, e);
    if Nobody(g, importer, e) {
      AllowedIffListed(m, e.package, e.iface);
    } else {
      MetInsideIff(g, importer, e);
    }
  }

  lemma DirectionIff(e: Occurrence)
    ensures DirectionCode(e) ==
            if ExportsStore(e, IWEB_SECRETS) then Some("IWEB_SECRET_WIT_DIRECTION_INVALID")
            else if ExportsStore(e, IWEB_CONFIG) then Some("IWEB_CONFIG_WIT_DIRECTION_INVALID")
            else None
  {
  }

  /** The code of an occurrence: ill-formed text, a store exported, then an import's own code. */
  lemma OccurrenceVerdict(g: Graph, m: Matrix, importer: string, e: Occurrence)
    ensures OccurrenceCode(g, m, importer, e) ==
            if !(IsIdentityText(e.package) && IsWitName(e.iface) && e.typeTag != "") then Some("WASM_IMPORT_UNMAPPABLE")
            else if ExportsStore(e, IWEB_SECRETS) then Some("IWEB_SECRET_WIT_DIRECTION_INVALID")
            else if ExportsStore(e, IWEB_CONFIG) then Some("IWEB_CONFIG_WIT_DIRECTION_INVALID")
            else if e.direction == Import then ImportCode(g, m, importer, e)
            else None
  {
    DirectionIff(e);
  }

  lemma FineIff(g: Graph, m: Matrix, importer: string, e: Occurrence)
    requires MatrixOk(m)
    ensures OccurrenceCode(g, m, importer, e).None? <==> Fine(g, m, importer, e)
  {
    OccurrenceVerdict(g, m, importer, e);
    MetIff(g, m, importer, e);
  }

  /** Occurrences are judged node by node, each in its own order. */
  ghost predicate FirstFault(g: Graph, m: Matrix, i: nat, k: nat) {
    && i < |g.nodes| && k < |g.nodes[i].interfaces|
    && OccurrenceCode(g, m, g.nodes[i].id, g.nodes[i].interfaces[k]).Some?
    && (forall y: nat :: y < k ==> OccurrenceCode(g, m, g.nodes[i].id, g.nodes[i].interfaces[y]).None?)
    && forall p: nat, y: nat :: p < i && y < |g.nodes[p].interfaces| ==>
         OccurrenceCode(g, m, g.nodes[p].id, g.nodes[p].interfaces[y]).None?
  }

  lemma NoFaultIff(g: Graph, m: Matrix)
    requires MatrixOk(m)
    ensures FirstCode(g, m, g.nodes).None? <==> AllFine(g, m)
  {
    var code := (n: Node) => NodeCode(g, m, n);
    FirstOfIsFirst(g.nodes, code);
    forall i: nat | i < |g.nodes| ensures code(g.nodes[i]).None? <==> NodeFine(g, m, g.nodes[i]) {
      NodeFineIff(g, m, g.nodes[i]);
    }
  }

  ghost predicate NodeFine(g: Graph, m: Matrix, n: Node) {
    forall k :: 0 <= k < |n.interfaces| ==> Fine(g, m, n.id, n.interfaces[k])
  }

  ghost predicate AllFine(g: Graph, m: Matrix) {
    forall i :: 0 <= i < |g.nodes| ==> NodeFine(g, m, g.nodes[i])
  }

  lemma NodeFineIff(g: Graph, m: Matrix, n: Node)
    requires MatrixOk(m)
    ensures NodeCode(g, m, n).None? <==> NodeFine(g, m, n)
  {
    NodeCodes(g, m, n);
    forall k | 0 <= k < |n.interfaces|
      ensures OccurrenceCode(g, m, n.id, n.interfaces[k]).None? <==> Fine(g, m, n.id, n.interfaces[k])
    {
      FineIff(g, m, n.id, n.interfaces[k]);
    }
  }

  lemma {:induction false} FirstOfAt<T>(s: seq<T>, code: T -> Option<string>, i: nat)
    requires i < |s| && code(s[i]).Some? && forall k: nat :: k < i ==> code(s[k]).None?
    ensures FirstOf(s, code) == code(s[i])
  {
    FirstOfIsFirst(s, code);
  }

  lemma NodeCodeAt(g: Graph, m: Matrix, i: nat, k: nat)
    requires FirstFault(g, m, i, k)
    ensures NodeCode(g, m, g.nodes[i]) == OccurrenceCode(g, m, g.nodes[i].id, g.nodes[i].interfaces[k])
  {
    var id := g.nodes[i].id;
    FirstOfAt(g.nodes[i].interfaces, (e: Occurrence) => OccurrenceCode(g, m, id, e), k);
  }

  lemma FirstCodeAt(g: Graph, m: Matrix, i: nat)
    requires i < |g.nodes| && NodeCode(g, m, g.nodes[i]).Some?
    requires forall p: nat :: p < i ==> NodeCode(g, m, g.nodes[p]).None?
    ensures FirstCode(g, m, g.nodes) == NodeCode(g, m, g.nodes[i])
  {
    FirstOfAt(g.nodes, (n: Node) => NodeCode(g, m, n), i);
  }

  lemma PastRawImports(g: Graph, m: Matrix)
    requires StructureCode(g, m).None? && FirstRawCode(g.nodes, Translated(g.nodes)).None?
    requires FirstCode(g, m, g.nodes).Some?
    ensures FailureCode(g, m) == FirstCode(g, m, g.nodes)
  {
  }

  /** Past the raw imports, the first faulty occurrence decides the code. */
  lemma OccurrencesDecide(g: Graph, m: Matrix, i: nat, k: nat)
    requires StructureCode(g, m).None? && (forall p: nat :: p < |g.nodes| ==> !Offends(g, p)) && FirstFault(g, m, i, k)
    ensures FailureCode(g, m) == OccurrenceCode(g, m, g.nodes[i].id, g.nodes[i].interfaces[k])
  {
    RawStepIff(g);
    forall p: nat | p < i ensures NodeCode(g, m, g.nodes[p]).None? {
      NodeCodes(g, m, g.nodes[p]);
    }
    NodeCodeAt(g, m, i, k);
    FirstCodeAt(g, m, i);
    PastRawImports(g, m);
  }

  // ------------------------------------------------------------------ exports of the entry, declarations

  /** The entry exports the matrix root export and no other interface. */
  ghost predicate EntryExportsRoot(g: Graph, m: Matrix) {
    forall i :: 0 <= i < |g.nodes| && g.nodes[i].id == g.entryNodeId ==> ExportsOnlyRoot(g.nodes[i].interfaces, m)
  }

  ghost predicate ExportsOnlyRoot(es: seq<Occurrence>, m: Matrix) {
    && (exists k :: 0 <= k < |es| && es[k].direction == Export)
    && forall k :: 0 <= k < |es| && es[k].direction == Export ==>
         es[k].package == m.requiredRootExport.package && es[k].iface == m.requiredRootExport.iface
  }

  lemma ExportsOnlyRootIff(g: Graph, m: Matrix, n: Node)
    requires MatrixOk(m) && NodeFine(g, m, n)
    ensures ExportKeys(n.interfaces) == {WasmInterfaceKey(m.requiredRootExport.package, m.requiredRootExport.iface)}
            <==> ExportsOnlyRoot(n.interfaces, m)
  {
    var es, key := n.interfaces, WasmInterfaceKey(m.requiredRootExport.package, m.requiredRootExport.iface);
    if ExportKeys(es) == {key} {
      assert key in ExportKeys(es);
      forall k | 0 <= k < |es| && es[k].direction == Export
        ensures es[k].package == m.requiredRootExport.package && es[k].iface == m.requiredRootExport.iface
      {
        assert WasmInterfaceKey(es[k].package, es[k].iface) in ExportKeys(es);
        assert Fine(g, m, n.id, es[k]);
        RootKey(m, es[k].package, es[k].iface);
      }
    }
    if ExportsOnlyRoot(es, m) {
      var k :| 0 <= k < |es| && es[k].direction == Export;
      assert key in ExportKeys(es);
    }
  }

  lemma EntryExportsIff(g: Graph, m: Matrix)
    requires MatrixOk(m) && AllFine(g, m)
    ensures EntryExportsOk(g, m) <==> EntryExportsRoot(g, m)
  {
    forall i | 0 <= i < |g.nodes|
      ensures ExportKeys(g.nodes[i].interfaces)
              == {WasmInterfaceKey(m.requiredRootExport.package, m.requiredRootExport.iface)}
              <==> ExportsOnlyRoot(g.nodes[i].interfaces, m)
    {
      ExportsOnlyRootIff(g, m, g.nodes[i]);
    }
  }

  /** Some import of the graph that nobody inside provides is this capability. */
  ghost predicate Asked(g: Graph, c: Capability) {
    exists i, k :: 0 <= i < |g.nodes| && 0 <= k < |g.nodes[i].interfaces|
      && AskedBy(g, g.nodes[i], g.nodes[i].interfaces[k], c)
  }

  ghost predicate AskedBy(g: Graph, n: Node, e: Occurrence, c: Capability) {
    e.direction == Import && Nobody(g, n.id, e) && c == Capability(e.package, e.iface, Import)
  }

  /** Each asked capability is declared, nothing else is, and nothing twice. */
  ghost predicate DeclaredIsAsked(g: Graph) {
    NoDuplicates(g.declaredHostImports) && forall c :: c in g.declaredHostImports <==> Asked(g, c)
  }

  lemma DiscoveredIff(g: Graph, c: Capability)
    ensures c in Discovered(g, g.nodes) <==> Asked(g, c)
  {
    DiscoveredIs(g, g.nodes, c);
    forall i, k | 0 <= i < |g.nodes| && 0 <= k < |g.nodes[i].interfaces|
      ensures AsksHost(g, g.nodes[i].id, g.nodes[i].interfaces[k])
              <==> AskedBy(g, g.nodes[i], g.nodes[i].interfaces[k],
                           Capability(g.nodes[i].interfaces[k].package, g.nodes[i].interfaces[k].iface, Import))
    {
      NobodyIff(g, g.nodes[i].id, g.nodes[i].interfaces[k]);
    }
  }

  lemma DeclaredIff(g: Graph, m: Matrix)
    requires MatrixOk(m) && AllFine(g, m)
    ensures DeclaredOk(m, g.declaredHostImports, Discovered(g, g.nodes)) <==> DeclaredIsAsked(g)
  {
    if DeclaredOk(m, g.declaredHostImports, Discovered(g, g.nodes)) { DeclaredOkIsAsked(g, m); }
    if DeclaredIsAsked(g) { AskedIsDeclaredOk(g, m); }
  }

  lemma DeclaredOkIsAsked(g: Graph, m: Matrix)
    requires MatrixOk(m) && AllFine(g, m) && DeclaredOk(m, g.declaredHostImports, Discovered(g, g.nodes))
    ensures DeclaredIsAsked(g)
  {
    NoFaultIff(g, m);
    DeclaredTwoWays(g, m);
    SameMembers(g.declaredHostImports, Discovered(g, g.nodes));
    forall c ensures c in g.declaredHostImports <==> Asked(g, c) { DiscoveredIff(g, c); }
  }

  lemma SameMembers(s: seq<Capability>, found: set<Capability>)
    requires SetOf(s) == found
    ensures forall c :: c in s <==> c in found
  {
  }

  lemma DeclaredTwoWays(g: Graph, m: Matrix)
    requires MatrixOk(m) && FirstCode(g, m, g.nodes).None?
    requires DeclaredOk(m, g.declaredHostImports, Discovered(g, g.nodes))
    ensures NoDuplicates(g.declaredHostImports) && SetOf(g.declaredHostImports) == Discovered(g, g.nodes)
  {
    var declared, found := g.declaredHostImports, Discovered(g, g.nodes);
    assert NoDuplicates(declared);
    SetOfSize(declared);
    forall c | c in found ensures c in SetOf(declared) {
      DiscoveredAreListed(g, m, c);
      KeyIsDeclared(m, declared, c);
    }
    SubsetOfSameSize(found, SetOf(declared));
  }

  lemma AskedIsDeclaredOk(g: Graph, m: Matrix)
    requires MatrixOk(m) && AllFine(g, m) && DeclaredIsAsked(g)
    ensures DeclaredOk(m, g.declaredHostImports, Discovered(g, g.nodes))
  {
    var declared, found := g.declaredHostImports, Discovered(g, g.nodes);
    forall c ensures c in found <==> c in declared { DiscoveredIff(g, c); }
    assert SetOf(declared) == found;
    SetOfSize(declared);
    forall i | 0 <= i < |declared| ensures ShapeValid(m, declared[i]) {
      AskedIsShaped(g, m, declared[i]);
    }
    forall i, k | 0 <= i < k < |declared| ensures WasmCapabilityKey(declared[i]) != WasmCapabilityKey(declared[k]) {
      if WasmCapabilityKey(declared[i]) == WasmCapabilityKey(declared[k]) {
        assert ShapeValid(m, declared[i]) && ShapeValid(m, declared[k]);
        CapabilityKeyInjective(declared[i], declared[k]);
      }
    }
    forall c | c in found ensures WasmCapabilityKey(c) in KeysOf(declared) {
      var i :| 0 <= i < |declared| && declared[i] == c;
    }
  }

  lemma AskedIsShaped(g: Graph, m: Matrix, c: Capability)
    requires MatrixOk(m) && AllFine(g, m) && Asked(g, c)
    ensures ShapeValid(m, c)
  {
    var i, k :| 0 <= i < |g.nodes| && 0 <= k < |g.nodes[i].interfaces|
      && AskedBy(g, g.nodes[i], g.nodes[i].interfaces[k], c);
    assert NodeFine(g, m, g.nodes[i]);
    assert Fine(g, m, g.nodes[i].id, g.nodes[i].interfaces[k]);
    AllowedIffListed(m, c.package, c.iface);
  }

  // ------------------------------------------------------------------ acceptance

  ghost predicate HasNode(g: Graph, id: string) { exists n :: n in g.nodes && n.id == id }

  /** Named nodes of different names, the entry among them, and edges between nodes. */
  ghost predicate IsWhole(g: Graph) {
    && (forall n :: n in g.nodes ==> n.id != "")
    && (forall i, k :: 0 <= i < k < |g.nodes| ==> g.nodes[i].id != g.nodes[k].id)
    && HasNode(g, g.entryNodeId) && forall e :: e in g.edges ==> HasNode(g, e.source) && HasNode(g, e.target)
  }

  lemma HasNodeIff(g: Graph, id: string)
    ensures id in Ids(g.nodes) <==> HasNode(g, id)
  {
    if n :| n in g.nodes && n.id == id { var i :| 0 <= i < |g.nodes| && g.nodes[i] == n; }
    if i :| 0 <= i < |g.nodes| && g.nodes[i].id == id { assert g.nodes[i] in g.nodes; }
  }

  lemma WholeIff(g: Graph)
    ensures GraphOk(g) <==> IsWhole(g)
  {
    forall id ensures id in Ids(g.nodes) <==> HasNode(g, id) { HasNodeIff(g, id); }
    assert (forall n :: n in g.nodes ==> n.id != "") <==> forall i :: 0 <= i < |g.nodes| ==> g.nodes[i].id != "";
    assert (forall e :: e in g.edges ==> HasNode(g, e.source) && HasNode(g, e.target)) <==>
           forall i :: 0 <= i < |g.edges| ==> HasNode(g, g.edges[i].source) && HasNode(g, g.edges[i].target);
  }

  /** World and ABI of the matrix, a whole graph within its counts, no cycle to reach, no
      depth-first path beyond the depth budget. */
  ghost predicate Structured(g: Graph, m: Matrix) {
    && g.world == m.world && g.hostABI == m.hostABI && IsWhole(g)
    && |g.nodes| <= g.budget.maxNodes && |g.edges| <= g.budget.maxEdges
    && !CycleReachable(AdjacencyOf(g), g.entryNodeId)
    && Closed(AdjacencyOf(g)) && g.entryNodeId in AdjacencyOf(g)
    && !HasDepthFirstLongerThan(AdjacencyOf(g), g.entryNodeId, g.budget.maxDepth)
  }

  lemma StructuredIff(g: Graph, m: Matrix)
    ensures StructureCode(g, m).None? <==> Structured(g, m)
  {
    WholeIff(g);
    if GraphOk(g) {
      AdjacencyIsClosed(g);
      WalkFindsCycles(AdjacencyOf(g), g.entryNodeId);
      if WholeWalk(AdjacencyOf(g), g.entryNodeId).ok {
        MeasuresDepthFirst(AdjacencyOf(g), g.entryNodeId, g.budget.maxDepth);
      }
    }
  }

  /** A graph is accepted if and only if it is structured, leaves no raw import over, each of
      its occurrences is fine, its entry exports the root export only, and it declares what it
      asks of the host. */
  lemma AcceptedIff(g: Graph, m: Matrix)
    requires MatrixOk(m)
    ensures FailureCode(g, m).None? <==>
            && Structured(g, m) && (forall i: nat :: i < |g.nodes| ==> !Offends(g, i))
            && AllFine(g, m) && EntryExportsRoot(g, m) && DeclaredIsAsked(g)
  {
    StructuredIff(g, m);
    RawStepIff(g);
    NoFaultIff(g, m);
    if AllFine(g, m) {
      EntryExportsIff(g, m);
      DeclaredIff(g, m);
    }
  }

  /** The remaining codes: of the first three tests, and past all occurrences of the last two. */
  lemma OtherCodes(g: Graph, m: Matrix)
    requires MatrixOk(m)
    ensures g.world != m.world ==> FailureCode(g, m) == Some("WASM_WORLD_UNSUPPORTED")
    ensures g.world == m.world && g.hostABI != m.hostABI ==> FailureCode(g, m) == Some("WASM_HOST_ABI_MISMATCH")
    ensures g.world == m.world && g.hostABI == m.hostABI && !IsWhole(g) ==>
              FailureCode(g, m) == Some("WASM_CLOSURE_GRAPH_INVALID")
    ensures Structured(g, m) && (forall i: nat :: i < |g.nodes| ==> !Offends(g, i)) && AllFine(g, m) ==>
              FailureCode(g, m) == if !EntryExportsRoot(g, m) then Some("WASM_EXPORT_MISMATCH")
                                   else if !DeclaredIsAsked(g) then Some("WASM_DECLARATION_MISMATCH") else None
  {
    WholeIff(g);
    StructuredIff(g, m);
    RawStepIff(g);
    NoFaultIff(g, m);
    if AllFine(g, m) {
      EntryExportsIff(g, m);
      DeclaredIff(g, m);
    }
  }
}
