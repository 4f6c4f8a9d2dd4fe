/** When a revocation can be undone by later updates: exactly when a catalog dropped it. */
module CatalogRevocation {
  import opened Basics
  import opened ByteOrder
  import opened RuntimeCatalog

  /** The entry grammar admits an active status wherever it admits the rest of the entry. */
  ghost predicate ActivationLaw(g: Grammar) {
    forall e: Entry :: g.entryOk(e) ==> g.entryOk(e.(status := Active))
  }

  /** The key of `e` is listed with another status or another revocation. */
  predicate ListsOtherwise(entries: seq<Entry>, e: Entry) {
    exists k :: 0 <= k < |entries| && entries[k].entryKey == e.entryKey && entries[k].status != e.status
  }

  /** The key of a revoked entry is listed with that very revocation. */
  ghost predicate ListsAlike(d: Catalog, e: Entry) {
    exists k :: 0 <= k < |d.entries| && d.entries[k].entryKey == e.entryKey && d.entries[k].status == e.status
  }

  /** Some update a catalog accepts, under any references the host holds, lists `e` otherwise. */
  ghost predicate Reactivable(g: Grammar, d: Catalog, refs: seq<Reference>, e: Entry) {
    exists u: Update :: (u.AppendUpdate? ==> u.refs == refs) && ReactivatedBy(g, d, u, e)
  }

  ghost predicate ReactivatedBy(g: Grammar, d: Catalog, u: Update, e: Entry) {
    UpdateResult(g, d, u).Ok? && ListsOtherwise(UpdateResult(g, d, u).value.entries, e)
  }

  predicate HasRoom(d: Catalog) {
    d.revision < U53_MAX && |d.entries| < WASM_CATALOG_MAX_ENTRIES
  }

  // ------------------------------------------------------------------ listing a dropped key again

  /** The place of a key among sorted entries that do not list it. */
  function Place(entries: seq<Entry>, key: string): (p: nat)
    requires SortedByKey(entries) && !HasKey(entries, key)
    ensures p <= |entries|
    ensures forall k :: 0 <= k < p ==> Before(entries[k].entryKey, key)
    ensures forall k :: p <= k < |entries| ==> Before(key, entries[k].entryKey)
  {
    if entries == [] then 0
    else
      var last := |entries| - 1;
      BeforeTotal(entries[last].entryKey, key);
      if Before(entries[last].entryKey, key) then
        AllBefore(entries, key);
        |entries|
      else
        assert forall k :: 0 <= k < last ==> entries[..last][k] == entries[k];
        Place(entries[..last], key)
  }

  lemma AllBefore(entries: seq<Entry>, key: string)
    requires SortedByKey(entries) && entries != [] && Before(entries[|entries| - 1].entryKey, key)
    ensures forall k :: 0 <= k < |entries| ==> Before(entries[k].entryKey, key)
  {
    forall k | 0 <= k < |entries| ensures Before(entries[k].entryKey, key) {
      if k < |entries| - 1 {
        BeforeTransitive(entries[k].entryKey, entries[|entries| - 1].entryKey, key);
      }
    }
  }

  function Inserted(entries: seq<Entry>, e: Entry): (r: seq<Entry>)
    requires SortedByKey(entries) && !HasKey(entries, e.entryKey)
  {
    var p := Place(entries, e.entryKey);
    entries[..p] + [e] + entries[p..]
  }

  /** Inserting a new key keeps the order and every entry. */
  lemma InsertedIsSorted(entries: seq<Entry>, e: Entry)
    requires SortedByKey(entries) && !HasKey(entries, e.entryKey)
    ensures var r := Inserted(entries, e);
            && SortedByKey(r) && |r| == |entries| + 1 && e in r
            && (forall x :: x in entries ==> x in r) && (forall x :: x in r ==> x == e || x in entries)
  {
    var p, r := Place(entries, e.entryKey), Inserted(entries, e);
    assert r[p] == e;
    forall x | x in entries ensures x in r {
      var k :| 0 <= k < |entries| && entries[k] == x;
      assert r[if k < p then k else k + 1] == x;
    }
    forall i, k | 0 <= i < k < |r| ensures Before(r[i].entryKey, r[k].entryKey) {
      if i < p && p < k { BeforeTransitive(r[i].entryKey, e.entryKey, r[k].entryKey); }
    }
  }

  /** Keeping every entry drops no protected key and regresses no revocation. */
  lemma KeepingAllIsAllowed(current: seq<Entry>, next: seq<Entry>, refs: seq<Reference>)
    requires SortedByKey(current) && SortedByKey(next) && forall x :: x in current ==> x in next
    ensures !DropsProtected(current, next, refs) && !RegressesRevocation(current, next)
  {
    forall i | 0 <= i < |current|
      ensures HasKey(next, current[i].entryKey) && next[FindEntry(next, current[i].entryKey)] == current[i]
    {
      assert current[i] in next;
      var k :| 0 <= k < |next| && next[k] == current[i];
      FindEntryAt(next, k);
    }
  }

  /** A key a catalog with room does not list can be listed as active, whatever is referred to. */
  lemma DroppedIsReactivable(g: Grammar, d: Catalog, refs: seq<Reference>, e: Entry)
    requires ActivationLaw(g) && CatalogOk(g, d) && HasRoom(d)
    requires g.entryOk(e) && e.status.Revoked? && !HasKey(d.entries, e.entryKey)
    ensures Reactivable(g, d, refs, e)
  {
    var again := e.(status := Active);
    var next := Payload(d.revision + 1, Inserted(d.entries, again));
    InsertedIsSorted(d.entries, again);
    KeepingAllIsAllowed(d.entries, next.entries, refs);
    var u := AppendUpdate(Pin(d.revision, d.catalogHash), next, refs);
    assert forall i :: 0 <= i < |next.entries| ==> next.entries[i] in next.entries;
    assert UpdateResult(g, d, u) == Ok(Seal(next));
    var k :| 0 <= k < |next.entries| && next.entries[k] == again;
    assert ReactivatedBy(g, d, u, e);
  }

  /** A revocation a catalog still lists survives every update. */
  lemma ListedIsNotReactivable(g: Grammar, d: Catalog, refs: seq<Reference>, e: Entry)
    requires CatalogOk(g, d) && e.status.Revoked? && ListsAlike(d, e)
    ensures !Reactivable(g, d, refs, e)
  {
    forall u: Update | UpdateResult(g, d, u).Ok?
      ensures !ListsOtherwise(UpdateResult(g, d, u).value.entries, e)
    {
      UpdateStep(g, d, u, e.entryKey);
    }
  }

  // ------------------------------------------------------------------ one update

  /** One-way revocation, exactly.  After any accepted update of a catalog with a revoked
      entry, some next update lists its key otherwise if and only if the first one dropped it. */
  lemma ReactivableIffDropped(g: Grammar, c: Catalog, i: nat, u: Update, refs: seq<Reference>)
    requires ActivationLaw(g) && CatalogOk(g, c) && i < |c.entries| && c.entries[i].status.Revoked?
    requires UpdateResult(g, c, u).Ok? && HasRoom(UpdateResult(g, c, u).value)
    ensures var d := UpdateResult(g, c, u).value;
            Reactivable(g, d, refs, c.entries[i]) <==> !HasKey(d.entries, c.entries[i].entryKey)
  {
    var d, e := UpdateResult(g, c, u).value, c.entries[i];
    UpdateStep(g, c, u, e.entryKey);
    if HasKey(d.entries, e.entryKey) {
      assert ListsAlike(d, e);
      ListedIsNotReactivable(g, d, refs, e);
    } else {
      DroppedIsReactivable(g, d, refs, e);
    }
  }

  // ------------------------------------------------------------------ chains

  /** The guard: every revoked key is listed again. */
  predicate ListsRevoked(current: seq<Entry>, next: seq<Entry>) {
    forall i :: 0 <= i < |current| && current[i].status.Revoked? ==> HasKey(next, current[i].entryKey)
  }

  /** One update more. */
  lemma {:induction false} ChainAppend(g: Grammar, c: Catalog, us: seq<Update>, u: Update)
    ensures Chain(g, c, us + [u]) == Updated(g, Chain(g, c, us), u)
    decreases |us|
  {
    if us == [] {
      assert (us + [u])[1..] == [];
    } else {
      assert (us + [u])[1..] == us[1..] + [u];
      ChainAppend(g, Updated(g, c, us[0]), us[1..], u);
    }
  }

  lemma ChainStep(g: Grammar, c: Catalog, us: seq<Update>, j: nat)
    requires j < |us|
    ensures Chain(g, c, us[..j + 1]) == Updated(g, Chain(g, c, us[..j]), us[j])
  {
    assert us[..j + 1] == us[..j] + [us[j]];
    ChainAppend(g, c, us[..j], us[j]);
  }

  predicate GuardedAt(g: Grammar, c: Catalog, us: seq<Update>, j: nat)
    requires j < |us|
  {
    ListsRevoked(Chain(g, c, us[..j]).entries, Chain(g, c, us[..j + 1]).entries)
  }

  ghost predicate Guarded(g: Grammar, c: Catalog, us: seq<Update>) {
    forall j :: 0 <= j < |us| ==> GuardedAt(g, c, us, j)
  }

  ghost predicate Roomy(g: Grammar, c: Catalog, us: seq<Update>) {
    forall j :: 0 <= j <= |us| ==> HasRoom(Chain(g, c, us[..j]))
  }

  /** An entry revoked somewhere along the chain can be listed otherwise from a later catalog. */
  ghost predicate Reactivates(g: Grammar, c: Catalog, us: seq<Update>, refs: seq<Reference>) {
    exists a: nat, b: nat, i: nat | a <= b <= |us| && i < |Chain(g, c, us[..a]).entries| ::
      ReactivatesFrom(g, c, us, refs, a, b, i)
  }

  ghost predicate ReactivatesFrom(g: Grammar, c: Catalog, us: seq<Update>, refs: seq<Reference>, a: nat, b: nat, i: nat)
    requires a <= b <= |us| && i < |Chain(g, c, us[..a]).entries|
  {
    var e := Chain(g, c, us[..a]).entries[i];
    e.status.Revoked? && Reactivable(g, Chain(g, c, us[..b]), refs, e)
  }

  lemma GuardedStepKeeps(g: Grammar, d: Catalog, u: Update, e: Entry)
    requires CatalogOk(g, d) && ListsAlike(d, e) && e.status.Revoked?
             && ListsRevoked(d.entries, Updated(g, d, u).entries)
    ensures ListsAlike(Updated(g, d, u), e)
  {
    var next := Updated(g, d, u);
    UpdateStep(g, d, u, e.entryKey);
    var i :| 0 <= i < |d.entries| && d.entries[i].entryKey == e.entryKey && d.entries[i].status == e.status;
    var k :| 0 <= k < |next.entries| && next.entries[k].entryKey == d.entries[i].entryKey;
    assert next.entries[k].status == e.status;
  }

  /** In a guarded chain a revocation stays listed, identical. */
  lemma {:induction false} GuardedKeeps(g: Grammar, c: Catalog, us: seq<Update>, a: nat, b: nat, e: Entry)
    requires CatalogOk(g, c) && Guarded(g, c, us) && a <= b <= |us|
    requires ListsAlike(Chain(g, c, us[..a]), e) && e.status.Revoked?
    ensures ListsAlike(Chain(g, c, us[..b]), e)
    decreases b
  {
    if a == b {
    } else {
      GuardedKeeps(g, c, us, a, b - 1, e);
      ChainRevision(g, c, us[..b - 1]);
      assert GuardedAt(g, c, us, b - 1);
      ChainStep(g, c, us, b - 1);
      GuardedStepKeeps(g, Chain(g, c, us[..b - 1]), us[b - 1], e);
    }
  }

  /** The chain version: along a chain whose catalogs have room, some revocation can be
      undone from some later catalog if and only if some update did not list every revoked
      key of the catalog it was applied to. */
  lemma ReactivatesIffUnguarded(g: Grammar, c: Catalog, us: seq<Update>, refs: seq<Reference>)
    requires ActivationLaw(g) && CatalogOk(g, c) && Roomy(g, c, us)
    ensures Reactivates(g, c, us, refs) <==> !Guarded(g, c, us)
  {
    if Guarded(g, c, us) {
      forall a: nat, b: nat, i: nat | a <= b <= |us| && i < |Chain(g, c, us[..a]).entries|
        ensures !ReactivatesFrom(g, c, us, refs, a, b, i)
      {
        var e := Chain(g, c, us[..a]).entries[i];
        if e.status.Revoked? {
          GuardedKeeps(g, c, us, a, b, e);
          ChainRevision(g, c, us[..b]);
          ListedIsNotReactivable(g, Chain(g, c, us[..b]), refs, e);
        }
      }
    } else {
      UnguardedReactivates(g, c, us, refs);
    }
  }

  lemma UnguardedReactivates(g: Grammar, c: Catalog, us: seq<Update>, refs: seq<Reference>)
    requires ActivationLaw(g) && CatalogOk(g, c) && Roomy(g, c, us) && !Guarded(g, c, us)
    ensures Reactivates(g, c, us, refs)
  {
    var j: nat :| j < |us| && !GuardedAt(g, c, us, j);
    var entries, d := Chain(g, c, us[..j]).entries, Chain(g, c, us[..j + 1]);
    var i: nat :| i < |entries| && entries[i].status.Revoked? && !HasKey(d.entries, entries[i].entryKey);
    ChainRevision(g, c, us[..j]);
    ChainRevision(g, c, us[..j + 1]);
    assert HasRoom(d);
    DroppedIsReactivable(g, d, refs, entries[i]);
    assert ReactivatesFrom(g, c, us, refs, j, j + 1, i);
  }
}
