/** The runtime catalog's owner updates: sealing, appending a revision, revoking an
    entry, releasing one, and collecting a history revision. */
module RuntimeCatalog {
  import opened Basics
  import opened ByteOrder

  const WASM_CATALOG_MAX_ENTRIES: nat := 128
  const RELEASE_RETENTION_MILLIS: nat := 31536000 * 1000

  const WASM_CATALOG_INVALID := "WASM_CATALOG_INVALID"
  const CATALOG_REVISION_CONFLICT := "CATALOG_REVISION_CONFLICT"
  const WASM_CATALOG_ENTRY_PROTECTED := "WASM_CATALOG_ENTRY_PROTECTED"
  const WASM_CATALOG_ENTRY_NOT_FOUND := "WASM_CATALOG_ENTRY_NOT_FOUND"
  const WASM_CATALOG_REVOCATION_REGRESSION := "WASM_CATALOG_REVOCATION_REGRESSION"
  const WASM_CATALOG_ENTRY_ALREADY_REVOKED := "WASM_CATALOG_ENTRY_ALREADY_REVOKED"
  const WASM_CATALOG_RELEASE_INVALID := "WASM_CATALOG_RELEASE_INVALID"
  const WASM_CATALOG_DELETE_AUDIT_INVALID := "WASM_CATALOG_DELETE_AUDIT_INVALID"
  const CATALOG_RELEASE_RECEIPT_MISMATCH := "CATALOG_RELEASE_RECEIPT_MISMATCH"
  const CATALOG_RELEASE_RETENTION_ACTIVE := "CATALOG_RELEASE_RETENTION_ACTIVE"

  datatype Revocation = Revocation(cve: string, reasonCode: string, revokedAt: int)

  datatype Status = Active | Revoked(revocation: Revocation)

  datatype Entry = Entry(
    entryKey: string,
    imageDigest: string,
    hostABI: string,
    world: string,
    architecture: string,
    status: Status)

  datatype Payload = Payload(revision: int, entries: seq<Entry>)

  /** The domain-separated digest of a payload: injective by construction. */
  datatype Hash = CatalogHash(payload: Payload)

  datatype Catalog = Catalog(revision: nat, entries: seq<Entry>, catalogHash: Hash)

  datatype Pin = Pin(revision: int, catalogHash: Hash)

  /** A binding held by an active version, a candidate or a rollback target. */
  datatype Reference = Reference(entryKey: string, catalogRevision: nat)

  /** The field grammars this model does not look into. */
  datatype Grammar = Grammar(
    entryKeyOk: string -> bool,
    entryOk: Entry -> bool,
    revocationOk: Revocation -> bool,
    uuidOk: string -> bool,
    reasonOk: string -> bool)

  /** A valid entry has a valid key, and stays valid with a valid revocation. */
  ghost predicate GrammarLaws(g: Grammar) {
    && (forall e: Entry :: g.entryOk(e) ==> g.entryKeyOk(e.entryKey))
    && (forall e: Entry, v: Revocation :: g.entryOk(e) && g.revocationOk(v) ==> g.entryOk(e.(status := Revoked(v))))
  }

  // ------------------------------------------------------------------ payloads

  predicate SortedByKey(entries: seq<Entry>) {
    forall i, k :: 0 <= i < k < |entries| ==> Before(entries[i].entryKey, entries[k].entryKey)
  }

  predicate EntriesOk(g: Grammar, entries: seq<Entry>) {
    && |entries| <= WASM_CATALOG_MAX_ENTRIES
    && (forall i :: 0 <= i < |entries| ==> g.entryOk(entries[i]))
    && SortedByKey(entries)
  }

  predicate PayloadOk(g: Grammar, p: Payload) {
    1 <= p.revision <= U53_MAX && EntriesOk(g, p.entries)
  }

  predicate CatalogOk(g: Grammar, c: Catalog) {
    PayloadOk(g, Payload(c.revision, c.entries)) && c.catalogHash == CatalogHash(Payload(c.revision, c.entries))
  }

  /** The list validator compares neighbours only; that is enough for the whole list. */
  method RequireEntries(g: Grammar, entries: seq<Entry>) returns (ok: bool)
    ensures ok <==> EntriesOk(g, entries)
  {
    if |entries| > WASM_CATALOG_MAX_ENTRIES {
      return false;
    }
    var i := 0;
    while i < |entries|
      invariant 0 <= i <= |entries|
      invariant forall k :: 0 <= k < i ==> g.entryOk(entries[k])
    {
      if !g.entryOk(entries[i]) {
        return false;
      }
      i := i + 1;
    }
    i := 1;
    while i < |entries|
      invariant 1 <= i
      invariant i <= |entries| || |entries| == 0
      invariant forall a, b :: 0 <= a < b < i && b < |entries| ==> Before(entries[a].entryKey, entries[b].entryKey)
    {
      if !Before(entries[i - 1].entryKey, entries[i].entryKey) {
        return false;
      }
      forall a | 0 <= a < i ensures Before(entries[a].entryKey, entries[i].entryKey) {
        if a < i - 1 {
          BeforeTransitive(entries[a].entryKey, entries[i - 1].entryKey, entries[i].entryKey);
        }
      }
      i := i + 1;
    }
    ok := true;
  }

  function Seal(p: Payload): Catalog
    requires p.revision >= 0
  {
    Catalog(p.revision, p.entries, CatalogHash(p))
  }

  function SealRuntimeCatalog(g: Grammar, p: Payload): (r: Result<Catalog>)
    ensures r.Ok? <==> PayloadOk(g, p)
    ensures r.Ok? ==> CatalogOk(g, r.value)
  {
    if PayloadOk(g, p) then Ok(Seal(p)) else Err(WASM_CATALOG_INVALID)
  }

  // ------------------------------------------------------------------ finding entries

  function FindEntry(entries: seq<Entry>, key: string): (i: nat)
    ensures i <= |entries|
    ensures i < |entries| ==> entries[i].entryKey == key
    ensures forall k :: 0 <= k < i ==> entries[k].entryKey != key
  {
    if entries == [] || entries[0].entryKey == key then 0 else 1 + FindEntry(entries[1..], key)
  }

  predicate HasKey(entries: seq<Entry>, key: string) {
    exists i :: 0 <= i < |entries| && entries[i].entryKey == key
  }

  /** Sorted entries hold a key at most once. */
  lemma KeyIsUnique(entries: seq<Entry>, i: nat, k: nat)
    requires SortedByKey(entries) && i < |entries| && k < |entries| && entries[i].entryKey == entries[k].entryKey
    ensures i == k
  {
    if i != k {
      BeforeIrreflexive(entries[i].entryKey);
    }
  }

  lemma FindEntryAt(entries: seq<Entry>, i: nat)
    requires SortedByKey(entries) && i < |entries|
    ensures FindEntry(entries, entries[i].entryKey) == i
  {
    var k := FindEntry(entries, entries[i].entryKey);
    KeyIsUnique(entries, i, k);
  }

  // ------------------------------------------------------------------ append and revoke

  predicate IsProtected(refs: seq<Reference>, key: string) {
    exists i :: 0 <= i < |refs| && refs[i].entryKey == key
  }

  predicate DropsProtected(current: seq<Entry>, next: seq<Entry>, refs: seq<Reference>) {
    exists i :: 0 <= i < |current| && IsProtected(refs, current[i].entryKey) && !HasKey(next, current[i].entryKey)
  }

  /** A revoked entry that is still listed is no longer revoked the same way. */
  predicate RegressesRevocation(current: seq<Entry>, next: seq<Entry>) {
    exists i :: 0 <= i < |current| && current[i].status.Revoked? &&
      var k := FindEntry(next, current[i].entryKey);
      k < |next| && next[k].status != current[i].status
  }

  /** Every revoked entry that is still listed carries the identical revocation. */
  ghost predicate RevocationsKept(current: seq<Entry>, next: seq<Entry>) {
    forall i, k :: (0 <= i < |current| && 0 <= k < |next| && current[i].status.Revoked?
                    && next[k].entryKey == current[i].entryKey) ==> next[k].status == current[i].status
  }

  predicate PinOk(pin: Pin) { 1 <= pin.revision <= U53_MAX }

  function AppendRevision(g: Grammar, current: Catalog, expected: Pin, next: Payload,
                          refs: seq<Reference>): Result<Catalog> {
    if !PinOk(expected) then Err(WASM_CATALOG_INVALID)
    else if expected != Pin(current.revision, current.catalogHash) then Err(CATALOG_REVISION_CONFLICT)
    else if !PayloadOk(g, next) then Err(WASM_CATALOG_INVALID)
    else if next.revision != current.revision + 1 then Err(CATALOG_REVISION_CONFLICT)
    else if DropsProtected(current.entries, next.entries, refs) then Err(WASM_CATALOG_ENTRY_PROTECTED)
    else if RegressesRevocation(current.entries, next.entries) then Err(WASM_CATALOG_REVOCATION_REGRESSION)
    else Ok(Seal(next))
  }

  function RevokeAll(entries: seq<Entry>, key: string, v: Revocation): (r: seq<Entry>)
    ensures |r| == |entries|
    ensures forall i :: 0 <= i < |r| ==>
              r[i] == if entries[i].entryKey == key then entries[i].(status := Revoked(v)) else entries[i]
  {
    seq(|entries|, i requires 0 <= i < |entries| =>
      if entries[i].entryKey == key then entries[i].(status := Revoked(v)) else entries[i])
  }

  function RevokeEntry(g: Grammar, current: Catalog, expected: Pin, key: string, v: Revocation): Result<Catalog> {
    if !g.entryKeyOk(key) then Err(WASM_CATALOG_INVALID)
    else if !g.revocationOk(v) then Err(WASM_CATALOG_INVALID)
    else
      var i := FindEntry(current.entries, key);
      if i == |current.entries| then Err(WASM_CATALOG_ENTRY_NOT_FOUND)
      else if current.entries[i].status.Revoked? then Err(WASM_CATALOG_ENTRY_ALREADY_REVOKED)
      else AppendRevision(g, current, expected, Payload(current.revision + 1, RevokeAll(current.entries, key, v)), [])
  }

  lemma AppendResult(g: Grammar, current: Catalog, expected: Pin, next: Payload, refs: seq<Reference>)
    requires AppendRevision(g, current, expected, next, refs).Ok?
    ensures var c := AppendRevision(g, current, expected, next, refs).value;
            && CatalogOk(g, c) && c.revision == current.revision + 1 && c.entries == next.entries
            && expected == Pin(current.revision, current.catalogHash)
            && (forall i :: 0 <= i < |current.entries| && IsProtected(refs, current.entries[i].entryKey) ==>
                  HasKey(c.entries, current.entries[i].entryKey))
            && RevocationsKept(current.entries, c.entries)
  {
    var c := AppendRevision(g, current, expected, next, refs).value;
    forall i, k | 0 <= i < |current.entries| && 0 <= k < |c.entries|
        && current.entries[i].status.Revoked? && c.entries[k].entryKey == current.entries[i].entryKey
      ensures c.entries[k].status == current.entries[i].status
    {
      FindEntryAt(next.entries, k);
    }
  }

  /** Revoking an active entry with the right pin succeeds exactly below the revision
      maximum, and then changes that entry and the revision, nothing else. */
  lemma RevokeSucceeds(g: Grammar, current: Catalog, i: nat, v: Revocation)
    requires GrammarLaws(g) && CatalogOk(g, current) && g.revocationOk(v)
    requires i < |current.entries| && current.entries[i].status == Active
    ensures var r := RevokeEntry(g, current, Pin(current.revision, current.catalogHash), current.entries[i].entryKey,
                                 v);
            && (r.Ok? <==> current.revision < U53_MAX)
            && (r.Ok? ==> CatalogOk(g, r.value) && r.value.revision == current.revision + 1
                          && r.value.entries == current.entries[i := current.entries[i].(status := Revoked(v))])
  {
    var key := current.entries[i].entryKey;
    var next := RevokeAll(current.entries, key, v);
    FindEntryAt(current.entries, i);
    forall k | 0 <= k < |current.entries| && k != i ensures next[k] == current.entries[k] {
      if current.entries[k].entryKey == key { KeyIsUnique(current.entries, i, k); }
    }
    assert next == current.entries[i := current.entries[i].(status := Revoked(v))];
    assert SortedByKey(next);
    forall k | 0 <= k < |current.entries| && current.entries[k].status.Revoked?
      ensures FindEntry(next, current.entries[k].entryKey) == k && next[k].status == current.entries[k].status
    {
      FindEntryAt(next, k);
    }
  }

  // ------------------------------------------------------------------ chains of updates

  datatype Update =
    | AppendUpdate(expected: Pin, next: Payload, refs: seq<Reference>)
    | RevokeUpdate(expected: Pin, key: string, revocation: Revocation)

  function UpdateResult(g: Grammar, c: Catalog, u: Update): Result<Catalog> {
    match u
    case AppendUpdate(expected, next, refs) => AppendRevision(g, c, expected, next, refs)
    case RevokeUpdate(expected, key, v) => RevokeEntry(g, c, expected, key, v)
  }

  /** A refused update changes nothing. */
  function Updated(g: Grammar, c: Catalog, u: Update): Catalog {
    if UpdateResult(g, c, u).Ok? then UpdateResult(g, c, u).value else c
  }

  function Chain(g: Grammar, c: Catalog, us: seq<Update>): Catalog
    decreases |us|
  {
    if us == [] then c else Chain(g, Updated(g, c, us[0]), us[1..])
  }

  function Successes(g: Grammar, c: Catalog, us: seq<Update>): nat
    decreases |us|
  {
    if us == [] then 0
    else (if UpdateResult(g, c, us[0]).Ok? then 1 else 0) + Successes(g, Updated(g, c, us[0]), us[1..])
  }

  /** The key is named by the references of every append of the chain. */
  predicate ProtectedThroughout(us: seq<Update>, key: string) {
    forall i :: 0 <= i < |us| && us[i].AppendUpdate? ==> IsProtected(us[i].refs, key)
  }

  /** The key is listed by every catalog the chain passes through. */
  ghost predicate ListedThroughout(g: Grammar, c: Catalog, us: seq<Update>, key: string)
    decreases |us|
  {
    HasKey(c.entries, key) && (us != [] ==> ListedThroughout(g, Updated(g, c, us[0]), us[1..], key))
  }

  /** One update: one revision up, or nothing; a stale pin is refused; protected keys and
      revocations survive. */
  lemma UpdateStep(g: Grammar, c: Catalog, u: Update, key: string)
    requires CatalogOk(g, c)
    ensures var d := Updated(g, c, u);
            && CatalogOk(g, d)
            && d.revision == c.revision + (if UpdateResult(g, c, u).Ok? then 1 else 0)
            && (u.expected != Pin(c.revision, c.catalogHash) ==> UpdateResult(g, c, u).Err? && d == c)
            && (HasKey(c.entries, key) && (u.AppendUpdate? ==> IsProtected(u.refs, key)) ==> HasKey(d.entries, key))
            && RevocationsKept(c.entries, d.entries)
  {
    var d := Updated(g, c, u);
    if UpdateResult(g, c, u).Ok? {
      match u {
        case AppendUpdate(expected, next, refs) => AppendResult(g, c, expected, next, refs);
        case RevokeUpdate(expected, k, v) =>
          var entries := RevokeAll(c.entries, k, v);
          AppendResult(g, c, expected, Payload(c.revision + 1, entries), []);
          if HasKey(c.entries, key) {
            var i :| 0 <= i < |c.entries| && c.entries[i].entryKey == key;
            assert d.entries[i].entryKey == key;
          }
      }
    } else {
      forall i, k | 0 <= i < |c.entries| && 0 <= k < |d.entries|
          && c.entries[i].status.Revoked? && d.entries[k].entryKey == c.entries[i].entryKey
        ensures d.entries[k].status == c.entries[i].status
      {
        KeyIsUnique(c.entries, i, k);
      }
    }
  }

  /** Along any chain of appends and revokes, refused ones included: the revision is the
      number of successes above the first, a key protected at every append stays listed,
      and an entry revoked at the start and listed all along keeps that very revocation. */
  lemma {:induction false} ChainKeeps(g: Grammar, c: Catalog, us: seq<Update>, i: nat)
    requires CatalogOk(g, c) && i < |c.entries|
    ensures var d := Chain(g, c, us);
            var key := c.entries[i].entryKey;
            && CatalogOk(g, d)
            && d.revision == c.revision + Successes(g, c, us)
            && (ProtectedThroughout(us, key) ==> ListedThroughout(g, c, us, key) && HasKey(d.entries, key))
            && (c.entries[i].status.Revoked? && ListedThroughout(g, c, us, key) ==>
                  var k := FindEntry(d.entries, key);
                  k < |d.entries| && d.entries[k].status == c.entries[i].status)
    decreases |us|
  {
    var key := c.entries[i].entryKey;
    if us == [] {
      FindEntryAt(c.entries, i);
    } else {
      UpdateStep(g, c, us[0], key);
      var n := Updated(g, c, us[0]);
      if HasKey(n.entries, key) {
        var k :| 0 <= k < |n.entries| && n.entries[k].entryKey == key;
        ChainKeeps(g, n, us[1..], k);
      } else {
        assert !ListedThroughout(g, n, us[1..], key);
        ChainRevision(g, n, us[1..]);
      }
    }
  }

  lemma {:induction false} ChainRevision(g: Grammar, c: Catalog, us: seq<Update>)
    requires CatalogOk(g, c)
    ensures CatalogOk(g, Chain(g, c, us)) && Chain(g, c, us).revision == c.revision + Successes(g, c, us)
    decreases |us|
  {
    if us == [] {
    } else {
      UpdateStep(g, c, us[0], "");
      ChainRevision(g, Updated(g, c, us[0]), us[1..]);
    }
  }

  /** The hypothesis is needed: dropping a revoked entry nothing refers to and listing it
      again makes it active. */
  lemma DroppedRevocationIsForgotten(g: Grammar, e: Entry, v: Revocation)
    requires g.entryOk(e) && g.entryOk(e.(status := Revoked(v))) && e.status == Active
    ensures var c := Seal(Payload(1, [e.(status := Revoked(v))]));
            var us := [AppendUpdate(Pin(1, c.catalogHash), Payload(2, []), []),
                       AppendUpdate(Pin(2, CatalogHash(Payload(2, []))), Payload(3, [e]), [])];
            CatalogOk(g, c) && Chain(g, c, us) == Seal(Payload(3, [e]))
  {
    var c := Seal(Payload(1, [e.(status := Revoked(v))]));
    var u0 := AppendUpdate(Pin(1, c.catalogHash), Payload(2, []), []);
    var u1 := AppendUpdate(Pin(2, CatalogHash(Payload(2, []))), Payload(3, [e]), []);
    var d := Updated(g, c, u0);
    assert d == Seal(Payload(2, []));
    assert Updated(g, d, u1) == Seal(Payload(3, [e]));
    assert [u0, u1][1..] == [u1] && [u1][1..] == [];
    assert Chain(g, d, [u1]) == Chain(g, Updated(g, d, u1), []);
  }

  // ------------------------------------------------------------------ release and collection

  datatype Receipt = Receipt(
    releaseId: string,
    entryKey: string,
    catalogRevision: nat,
    catalogHash: Hash,
    ownerCommandId: string,
    drainedAt: int,
    releasedAt: int,
    releaseRetentionUntil: int)

  predicate ReceiptOk(g: Grammar, r: Receipt) {
    && g.uuidOk(r.releaseId) && g.entryKeyOk(r.entryKey) && g.uuidOk(r.ownerCommandId)
    && 1 <= r.catalogRevision <= U53_MAX
    && r.drainedAt <= r.releasedAt
    && r.releasedAt + RELEASE_RETENTION_MILLIS <= r.releaseRetentionUntil
  }

  /** A release: nothing may refer to the entry, and the receipt keeps it a year. */
  function ReleaseEntry(
    g: Grammar, catalog: Catalog, entryKey: string, refs: seq<Reference>,
    releaseId: string, ownerCommandId: string, drainedAt: int, releasedAt: int): (r: Result<Receipt>)
    ensures r.Ok? ==> ReceiptOk(g, r.value) && r.value.entryKey == entryKey
                      && HasKey(catalog.entries, entryKey) && !IsProtected(refs, entryKey)
                      && r.value.releaseId == releaseId && r.value.ownerCommandId == ownerCommandId
                      && r.value.drainedAt == drainedAt && r.value.releasedAt == releasedAt
                      && r.value.releaseRetentionUntil == releasedAt + 31536000000
                      && r.value.catalogRevision == catalog.revision && r.value.catalogHash == catalog.catalogHash
  {
    if FindEntry(catalog.entries, entryKey) == |catalog.entries| then Err(WASM_CATALOG_ENTRY_NOT_FOUND)
    else if IsProtected(refs, entryKey) then Err(WASM_CATALOG_ENTRY_PROTECTED)
    else
      var receipt := Receipt(releaseId, entryKey, catalog.revision, catalog.catalogHash, ownerCommandId,
                             drainedAt, releasedAt, releasedAt + RELEASE_RETENTION_MILLIS);
      if ReceiptOk(g, receipt) then Ok(receipt) else Err(WASM_CATALOG_RELEASE_INVALID)
  }

  datatype Record = Record(revision: nat, catalogHash: Hash, catalog: Catalog, storedAt: int)

  predicate RecordOk(g: Grammar, r: Record) {
    CatalogOk(g, r.catalog) && r.revision == r.catalog.revision && r.catalogHash == r.catalog.catalogHash
  }

  /** `objectDigest` is the digest of the collected record: modelled by the record. */
  datatype Audit = Audit(
    deleteId: string,
    revision: nat,
    catalogHash: Hash,
    releaseId: string,
    ownerCommandId: string,
    deletedAt: int,
    reason: string,
    objectDigest: Record)

  predicate AuditOk(g: Grammar, a: Audit) {
    g.uuidOk(a.deleteId) && g.uuidOk(a.releaseId) && g.uuidOk(a.ownerCommandId) && g.reasonOk(a.reason)
    && 1 <= a.revision <= U53_MAX
  }

  predicate RevisionIsReferenced(refs: seq<Reference>, revision: nat) {
    exists i :: 0 <= i < |refs| && refs[i].catalogRevision == revision
  }

  /** The audit of a collection, once the receipt names the record, nothing refers to the
      revision and its retention has elapsed. */
  function CollectRevision(
    g: Grammar, record: Record, receipt: Receipt, refs: seq<Reference>,
    deleteId: string, ownerCommandId: string, deletedAt: int, reason: string): (r: Result<Audit>)
    ensures r.Ok? ==>
              && AuditOk(g, r.value)
              && r.value.deleteId == deleteId && r.value.releaseId == receipt.releaseId
              && r.value.ownerCommandId == ownerCommandId && r.value.deletedAt == deletedAt && r.value.reason == reason
              && receipt.catalogRevision == record.revision == r.value.revision
              && receipt.catalogHash == record.catalogHash == r.value.catalogHash
              && receipt.releaseRetentionUntil <= r.value.deletedAt
              && !RevisionIsReferenced(refs, record.revision)
              && r.value.objectDigest == record
  {
    if !g.uuidOk(deleteId) || !g.uuidOk(ownerCommandId) || !g.reasonOk(reason)
    then Err(WASM_CATALOG_DELETE_AUDIT_INVALID)
    else if receipt.catalogRevision != record.revision || receipt.catalogHash != record.catalogHash
    then Err(CATALOG_RELEASE_RECEIPT_MISMATCH)
    else if FindEntry(record.catalog.entries, receipt.entryKey) == |record.catalog.entries|
    then Err(CATALOG_RELEASE_RECEIPT_MISMATCH)
    else if RevisionIsReferenced(refs, record.revision) then Err(WASM_CATALOG_ENTRY_PROTECTED)
    else if deletedAt < receipt.releaseRetentionUntil then Err(CATALOG_RELEASE_RETENTION_ACTIVE)
    else
      var audit := Audit(deleteId, record.revision, record.catalogHash, receipt.releaseId, ownerCommandId, deletedAt,
                         reason, record);
      if AuditOk(g, audit) then Ok(audit) else Err(WASM_CATALOG_DELETE_AUDIT_INVALID)
  }
}
