/** The owner's catalog store: recovery of the directory and the update operations. */
module CatalogStore {
  import opened Basics
  import opened RuntimeCatalog
  import opened CatalogIndex
  import opened CatalogFiles

  const WASM_CATALOG_STORE_UNINITIALIZED := "WASM_CATALOG_STORE_UNINITIALIZED"
  const WASM_CATALOG_STORE_ALREADY_INITIALIZED := "WASM_CATALOG_STORE_ALREADY_INITIALIZED"
  const CATALOG_RELEASE_RECEIPT_MISSING := "CATALOG_RELEASE_RECEIPT_MISSING"
  const CATALOG_RELEASE_RECEIPT_STORE_MISMATCH := "CATALOG_RELEASE_RECEIPT_STORE_MISMATCH"
  const CATALOG_HISTORY_RECORD_MISSING := "CATALOG_HISTORY_RECORD_MISSING"
  const CATALOG_HISTORY_LAST_PRESENT := "CATALOG_HISTORY_LAST_PRESENT"
  const CATALOG_DELETE_AUDIT_STORE_MISMATCH := "CATALOG_DELETE_AUDIT_STORE_MISMATCH"

  /** What recovery hands to an operation. */
  datatype Recovered = Recovered(
    records: seq<Record>,
    receipts: seq<Receipt>,
    audits: seq<Audit>,
    index: Option<Index>,
    current: Option<Catalog>)

  // ------------------------------------------------------------------ listings

  ghost predicate ListsRecords(f: Files, records: seq<Record>) {
    && RecordsRise(records)
    && (forall r :: r in records <==> (NameOf(r) in f.revisions && f.revisions[NameOf(r)] == r))
  }

  ghost predicate ListsReceipts(f: Files, receipts: seq<Receipt>) {
    forall r :: r in receipts <==> (r.releaseId in f.receipts && f.receipts[r.releaseId] == r)
  }

  ghost predicate ListsAudits(f: Files, audits: seq<Audit>) {
    && (forall a :: a in audits <==> (a.deleteId in f.audits && f.audits[a.deleteId] == a))
    && (forall i, k :: 0 <= i < k < |audits| ==> audits[i].deleteId != audits[k].deleteId)
  }

  ghost predicate Lists(f: Files, s: Recovered) {
    ListsRecords(f, s.records) && ListsReceipts(f, s.receipts) && ListsAudits(f, s.audits)
  }

  // ------------------------------------------------------------------ what an index tells besides its rows

  /** The references to a revision, by place. */
  ghost function ReferencesTo(refs: seq<Reference>, revision: nat): set<int> {
    set i | 0 <= i < |refs| && refs[i].catalogRevision == revision
  }

  /** The latest end of retention among the receipts for the revision, if there is one. */
  ghost predicate RetainedUntil(f: Files, revision: nat, hash: Hash, until: Option<int>) {
    match until
    case None => forall id :: id in f.receipts ==> !ReceiptFor(f.receipts[id], revision, hash)
    case Some(u) =>
      && (exists id :: id in f.receipts && ReceiptFor(f.receipts[id], revision, hash)
                       && f.receipts[id].releaseRetentionUntil == u)
      && forall id :: id in f.receipts && ReceiptFor(f.receipts[id], revision, hash) ==>
           f.receipts[id].releaseRetentionUntil <= u
  }

  predicate ReceiptFor(r: Receipt, revision: nat, hash: Hash) { r.catalogRevision == revision && r.catalogHash == hash }

  /** A present entry counts the references to its revision; a deleted one tells when its audit
      says it was deleted; both tell the latest retention. */
  ghost predicate EntryTells(f: Files, refs: seq<Reference>, e: IndexEntry) {
    && RetainedUntil(f, e.revision, e.catalogHash, e.releaseRetentionUntil)
    && match e.status
       case Present => e.protectedReferenceCount == |ReferencesTo(refs, e.revision)| && e.deletedAt == None
       case Deleted =>
         e.protectedReferenceCount == 0
         && exists id :: id in f.audits && f.audits[id].revision == e.revision
              && f.audits[id].catalogHash == e.catalogHash && e.deletedAt == Some(f.audits[id].deletedAt)
  }

  ghost predicate IndexTells(f: Files, refs: seq<Reference>, index: Index) {
    forall e :: e in index.revisions ==> EntryTells(f, refs, e)
  }

  /** The stored index is up to date, counts and retention included. */
  ghost predicate IsFresh(f: Files, refs: seq<Reference>) {
    f.index.ParsedIndex? && IndexRows(f.index.index) == FilesRows(f) && IndexTells(f, refs, f.index.index)
  }

  lemma {:induction false} CountAppend(refs: seq<Reference>, r: Reference, revision: nat)
    ensures CountReferences(refs + [r], revision)
            == CountReferences(refs, revision) + if r.catalogRevision == revision then 1 else 0
  {
    if refs == [] {
      assert (refs + [r])[1..] == [];
    } else {
      assert (refs + [r])[1..] == refs[1..] + [r];
      CountAppend(refs[1..], r, revision);
    }
  }

  lemma {:induction false} CountIs(refs: seq<Reference>, revision: nat)
    ensures CountReferences(refs, revision) == |ReferencesTo(refs, revision)|
  {
    if refs != [] {
      var n := |refs| - 1;
      CountIs(refs[..n], revision);
      CountAppend(refs[..n], refs[n], revision);
      assert refs == refs[..n] + [refs[n]];
      var before, now := ReferencesTo(refs[..n], revision), ReferencesTo(refs, revision);
      assert n !in before;
      assert now == before + if refs[n].catalogRevision == revision then {n} else {};
    }
  }

  lemma {:induction false} LatestIs(receipts: seq<Receipt>, revision: nat, hash: Hash)
    ensures var until := LatestRetention(receipts, revision, hash);
            && (until.None? ==> forall r :: r in receipts ==> !ReceiptFor(r, revision, hash))
            && (until.Some? ==>
                  && (exists r ::
                        r in receipts && ReceiptFor(r, revision, hash) && r.releaseRetentionUntil == until.value)
                  && forall r :: r in receipts && ReceiptFor(r, revision, hash) ==>
                       r.releaseRetentionUntil <= until.value)
  {
    if receipts != [] {
      var n := |receipts| - 1;
      LatestIs(receipts[..n], revision, hash);
      assert receipts == receipts[..n] + [receipts[n]];
      assert receipts[n] in receipts;
    }
  }

  lemma LatestIsRetained(f: Files, receipts: seq<Receipt>, revision: nat, hash: Hash)
    requires ListsReceipts(f, receipts) && forall id :: id in f.receipts ==> f.receipts[id].releaseId == id
    ensures RetainedUntil(f, revision, hash, LatestRetention(receipts, revision, hash))
  {
    LatestIs(receipts, revision, hash);
    forall id | id in f.receipts ensures f.receipts[id] in receipts {}
    var until := LatestRetention(receipts, revision, hash);
    if until.Some? {
      var r :| r in receipts && ReceiptFor(r, revision, hash) && r.releaseRetentionUntil == until.value;
      assert r.releaseId in f.receipts && f.receipts[r.releaseId] == r;
    }
  }

  lemma AssembledTells(
    g: Grammar, f: Files, records: seq<Record>, audits: seq<Audit>, receipts: seq<Receipt>, refs: seq<Reference>,
    now: int)
    requires ObjectsOk(g, f) && ListsAudits(f, audits) && ListsReceipts(f, receipts) && records != []
    ensures IndexTells(f, refs, Assemble(records, audits, receipts, refs, now))
  {
    var present, deleted := PresentEntries(records, refs, receipts), DeletedEntries(audits, records, receipts);
    forall e | e in Assemble(records, audits, receipts, refs, now).revisions ensures EntryTells(f, refs, e) {
      assert e in present + deleted;
      LatestIsRetained(f, receipts, e.revision, e.catalogHash);
      if e in present {
        var i :| 0 <= i < |present| && present[i] == e;
        CountIs(refs, e.revision);
      } else {
        var a :| 0 <= a < |audits| && !HasRevision(records, audits[a].revision)
          && e == DeletedEntry(audits[a], receipts);
        assert audits[a] in audits;
      }
    }
  }

  function InsertRecord(rs: seq<Record>, r: Record): (s: seq<Record>)
    ensures forall x :: x in s <==> x == r || x in rs
  {
    if rs == [] || r.revision <= rs[0].revision then [r] + rs
    else
      assert rs == [rs[0]] + rs[1..];
      [rs[0]] + InsertRecord(rs[1..], r)
  }

  lemma {:induction false} InsertRecordRises(rs: seq<Record>, r: Record)
    requires RecordsRise(rs) && forall x :: x in rs ==> x.revision != r.revision
    ensures RecordsRise(InsertRecord(rs, r))
  {
    if rs == [] || r.revision <= rs[0].revision {
    } else {
      InsertRecordRises(rs[1..], r);
      var s := InsertRecord(rs[1..], r);
      forall k | 0 <= k < |s| ensures rs[0].revision < s[k].revision {
        assert s[k] in s;
        if s[k] in rs[1..] { var m :| 0 <= m < |rs[1..]| && rs[1..][m] == s[k]; assert rs[m + 1] == s[k]; }
      }
    }
  }

  /** Listed records have the files' rows, and the last one is the top file. */
  lemma ListedRows(g: Grammar, f: Files, records: seq<Record>, audits: seq<Audit>)
    requires ListsRecords(f, records) && ListsAudits(f, audits) && ObjectsOk(g, f)
    ensures ObjectRows(records, audits) == FilesRows(f)
  {
    forall revision ensures HasRevision(records, revision) <==> RevisionPresent(f, revision) {
      if HasRevision(records, revision) {
        var i :| 0 <= i < |records| && records[i].revision == revision;
        assert records[i] in records;
        assert NameOf(records[i]) in f.revisions;
      }
      if RevisionPresent(f, revision) {
        var n :| n in f.revisions && n.revision == revision;
        assert f.revisions[n] in records;
      }
    }
    forall row ensures row in ObjectRows(records, audits) <==> row in FilesRows(f) {
      if r :| r in records && row == Row(r.revision, r.catalogHash, Present) {
        assert NameOf(r) in f.revisions;
      }
      if n :| n in f.revisions && row == Row(n.revision, n.catalogHash, Present) {
        assert f.revisions[n] in records;
      }
      if id :| id in f.audits && !RevisionPresent(f, f.audits[id].revision)
               && row == Row(f.audits[id].revision, f.audits[id].catalogHash, Deleted) {
        assert f.audits[id] in audits;
      }
    }
  }

  lemma LastListedIsTop(g: Grammar, f: Files, records: seq<Record>)
    requires ListsRecords(f, records) && ObjectsOk(g, f) && UniqueRevisions(f) && records != []
    ensures f.revisions != map[]
    ensures IsTop(f, NameOf(records[|records| - 1])) && CurrentOf(f) == records[|records| - 1].catalog
  {
    var last := records[|records| - 1];
    assert last in records;
    forall m | m in f.revisions ensures m.revision <= last.revision {
      assert f.revisions[m] in records;
      var i :| 0 <= i < |records| && records[i] == f.revisions[m];
    }
    CurrentIsTop(f, NameOf(last));
  }

  lemma ListedAuditsDistinct(f: Files, audits: seq<Audit>)
    requires ListsAudits(f, audits) && OneAuditPerRevision(f)
    ensures AuditsDistinct(audits)
  {
    forall i, k | 0 <= i < k < |audits| ensures audits[i].revision != audits[k].revision {
      assert audits[i] in audits && audits[k] in audits;
    }
  }

  lemma ListedNothing(f: Files, records: seq<Record>)
    requires ListsRecords(f, records)
    ensures (forall n :: n in f.revisions ==> NameOf(f.revisions[n]) == n) ==> (records == [] <==> f.revisions == map[])
  {
    if records != [] { assert records[0] in records; }
    if f.revisions != map[] {
      var n :| n in f.revisions;
      if NameOf(f.revisions[n]) == n { assert f.revisions[n] in records; }
    }
  }

  predicate BackedBy(byReleaseId: map<string, Receipt>, a: Audit) {
    && a.releaseId in byReleaseId
    && byReleaseId[a.releaseId].catalogRevision == a.revision
    && byReleaseId[a.releaseId].catalogHash == a.catalogHash
  }

  /** Checking each listed audit checks each audit file. */
  lemma ListedAuditsChecked(f: Files, audits: seq<Audit>)
    requires ListsAudits(f, audits) && forall id :: id in f.audits ==> f.audits[id].deleteId == id
    ensures (forall k :: 0 <= k < |audits| ==> BackedBy(f.receipts, audits[k])) && AuditsDistinct(audits)
            <==> AuditsBacked(f) && OneAuditPerRevision(f)
    ensures forall v :: Audited(f, v) <==> exists k :: 0 <= k < |audits| && audits[k].revision == v
  {
    forall id | id in f.audits ensures exists k :: 0 <= k < |audits| && audits[k] == f.audits[id] {
      assert f.audits[id] in audits;
    }
    forall k | 0 <= k < |audits| ensures audits[k].deleteId in f.audits && f.audits[audits[k].deleteId] == audits[k] {
      assert audits[k] in audits;
    }
    forall v | Audited(f, v) ensures exists k :: 0 <= k < |audits| && audits[k].revision == v {
      var id :| id in f.audits && f.audits[id].revision == v;
      var k :| 0 <= k < |audits| && audits[k] == f.audits[id];
    }
    if AuditsBacked(f) {
      forall k | 0 <= k < |audits| ensures BackedBy(f.receipts, audits[k]) {
        assert Backed(f, f.audits[audits[k].deleteId]);
      }
    }
    if OneAuditPerRevision(f) { ListedAuditsDistinct(f, audits); }
  }

  lemma ListedNothings(g: Grammar, f: Files, receipts: seq<Receipt>, audits: seq<Audit>)
    requires ListsReceipts(f, receipts) && ListsAudits(f, audits) && ObjectsOk(g, f)
    ensures receipts == [] <==> f.receipts == map[]
    ensures audits == [] <==> f.audits == map[]
  {
    if receipts != [] { assert receipts[0] in receipts; }
    if f.receipts != map[] { var id :| id in f.receipts; assert f.receipts[id] in receipts; }
    if audits != [] { assert audits[0] in audits; }
    if f.audits != map[] { var id :| id in f.audits; assert f.audits[id] in audits; }
  }

  /** What recovery answers, with or without looking at the stored index. */
  ghost function RecoverSpec(g: Grammar, f: Files, ignoreStoredIndex: bool): Opening {
    if ignoreStoredIndex then RebuildSpec(g, f) else OpenSpec(g, f)
  }

  ghost predicate RecoveredFrom(f: Files, s: Recovered) {
    && Lists(f, s)
    && if HoldsNothing(f) then s.index.None? && s.current.None? && s.records == []
       else s.index.Some? && IsRefresh(f, PutIndex(s.index.value)) && f.revisions != map[]
            && s.records != [] && s.current == Some(CurrentOf(f))
  }

  /** An index assembled from listings lists the files' rows, and validates when no
      revision has two audits. */
  lemma AssembledMatchesFiles(
    g: Grammar, f: Files, records: seq<Record>, audits: seq<Audit>, receipts: seq<Receipt>, refs: seq<Reference>,
    now: int)
    requires ListsRecords(f, records) && ListsAudits(f, audits) && ObjectsOk(g, f) && |refs| <= U53_MAX
    ensures records != [] ==> IndexRows(Assemble(records, audits, receipts, refs, now)) == FilesRows(f)
    ensures records != [] && OneAuditPerRevision(f) ==> IndexOk(Assemble(records, audits, receipts, refs, now))
  {
    if records != [] {
      AssembledRows(records, audits, receipts, refs, now);
      ListedRows(g, f, records, audits);
      if OneAuditPerRevision(f) {
        ListedAuditsDistinct(f, audits);
        forall r | r in records ensures 1 <= r.revision <= U53_MAX {
          assert RecordOk(g, f.revisions[NameOf(r)]);
        }
        forall a | a in audits ensures 1 <= a.revision <= U53_MAX {
          assert AuditOk(g, f.audits[a.deleteId]);
        }
        AssembledIsOk(records, audits, receipts, refs, now);
      }
    }
  }

  lemma ListedGoneAudits(f: Files, records: seq<Record>, audits: seq<Audit>)
    requires ListsRecords(f, records) && ListsAudits(f, audits) && GoneAuditsDistinct(audits, records)
    requires forall id :: id in f.audits ==> f.audits[id].deleteId == id
    ensures OneAuditPerGone(f)
  {
    forall a, b | a in f.audits && b in f.audits && f.audits[a].revision == f.audits[b].revision
        && !RevisionPresent(f, f.audits[a].revision)
      ensures a == b
    {
      assert f.audits[a] in audits && f.audits[b] in audits;
      var i :| 0 <= i < |audits| && audits[i] == f.audits[a];
      var k :| 0 <= k < |audits| && audits[k] == f.audits[b];
      forall m | 0 <= m < |records| ensures records[m].revision != audits[i].revision {
        assert records[m] in records;
      }
      assert i == k;
    }
  }

  /** The given object writes and then, unless two audits stand against it, the index. */
  ghost predicate WritesThenRefresh(f: Files, objects: seq<Write>, ws: seq<Write>) {
    || (|ws| == |objects| + 1 && ws[..|objects|] == objects && IsRefresh(ApplyAll(f, objects), ws[|objects|]))
    || (ws == objects && !OneAuditPerRevision(ApplyAll(f, objects)))
  }

  lemma RefreshAfter(f: Files, objects: seq<Write>, ws: seq<Write>)
    requires objects <= ws && |ws| <= |objects| + 1
    ensures ws == objects ==> ApplyAll(f, ws) == ApplyAll(f, objects)
    ensures |ws| == |objects| + 1 ==> ApplyAll(f, ws) == Apply(ApplyAll(f, objects), ws[|objects|])
    ensures |objects| == 1 ==> ApplyAll(f, objects) == Apply(f, objects[0])
    ensures |objects| == 2 ==> ApplyAll(f, objects) == Apply(Apply(f, objects[0]), objects[1])
  {
    if |ws| == |objects| + 1 {
      assert ws == objects + [ws[|objects|]];
      ApplyAllAppend(f, objects, ws[|objects|]);
    }
    if |objects| == 1 { RepairIsOneWrite(f, objects); }
    if |objects| == 2 {
      RepairIsOneWrite(f, objects[..1]);
      assert objects == objects[..1] + [objects[1]];
    }
  }

  /** What a refresh attempt leaves of the files and the trace. */
  ghost predicate Attempted(f: Files, before: seq<Write>, h: Files, trace: seq<Write>, ok: bool) {
    if ok then exists x :: IsRefresh(f, x) && h == Apply(f, x) && trace == before + [x]
    else h == f && trace == before && !OneAuditPerRevision(f)
  }

  lemma OneThenRefresh(f: Files, w: Write, before: seq<Write>, h: Files, trace: seq<Write>, ok: bool)
    requires Attempted(Apply(f, w), before + [w], h, trace, ok)
    ensures before <= trace && WritesThenRefresh(f, [w], trace[|before|..]) && h == ApplyAll(f, trace[|before|..])
  {
    RepairIsOneWrite(f, [w]);
    if ok {
      var x :| IsRefresh(Apply(f, w), x) && h == Apply(Apply(f, w), x) && trace == (before + [w]) + [x];
      assert trace[|before|..] == [w] + [x];
      ApplyAllAppend(f, [w], x);
    } else {
      assert trace[|before|..] == [w];
    }
  }

  lemma NewRevisionIsListed(g: Grammar, f: Files, s: Recovered, record: Record)
    requires ObjectsOk(g, f) && Lists(f, s) && RecordOk(g, record)
    requires forall r :: r in s.records ==> r.revision < record.revision
    ensures var h := Apply(f, PutRevision(record));
            ListsRecords(h, s.records + [record]) && ListsAudits(h, s.audits) && ObjectsOk(g, h)
  {
    forall i | 0 <= i < |s.records| ensures s.records[i].revision < record.revision {
      assert s.records[i] in s.records;
    }
    var h := Apply(f, PutRevision(record));
    assert NameOf(record) !in f.revisions by {
      assert forall n :: n in f.revisions ==> f.revisions[n] in s.records;
    }
  }

  /** Putting the index back changes nothing the operations read. */
  lemma CurrentIsAboveAll(g: Grammar, f: Files, s: Recovered)
    requires Lists(f, s) && ObjectsOk(g, f) && UniqueRevisions(f) && f.revisions != map[]
    ensures CatalogOk(g, CurrentOf(f)) && forall r :: r in s.records ==> r.revision <= CurrentOf(f).revision
  {
    TopExists(f);
    var n :| IsTop(f, n);
    CurrentIsTop(f, n);
    assert RecordOk(g, f.revisions[n]) && NameOf(f.revisions[n]) == n;
    forall r | r in s.records ensures r.revision <= CurrentOf(f).revision {
      assert NameOf(r) in f.revisions;
    }
  }

  lemma RevokeResult(g: Grammar, current: Catalog, expected: Pin, key: string, v: Revocation)
    requires RevokeEntry(g, current, expected, key, v).Ok?
    ensures var c := RevokeEntry(g, current, expected, key, v).value;
            CatalogOk(g, c) && c.revision == current.revision + 1
  {
    AppendResult(g, current, expected, Payload(current.revision + 1, RevokeAll(current.entries, key, v)), []);
  }

  /** The writes since `before` are the repair followed by the rest. */
  lemma SplitTrace(f: Files, repair: seq<Write>, before: seq<Write>, trace: seq<Write>)
    requires |repair| <= 1 && before + repair <= trace
    ensures trace[|before|..] == repair + trace[|before| + |repair|..]
    ensures ApplyAll(f, trace[|before|..]) == ApplyAll(ApplyAll(f, repair), trace[|before| + |repair|..])
    ensures |repair| == 1 ==> trace[|before|..][1..] == trace[|before| + 1..] && trace[|before|..][0] == repair[0]
  {
    ApplyAllConcat(f, repair, trace[|before| + |repair|..]);
  }

  lemma NewReceiptIsListed(g: Grammar, f: Files, s: Recovered, receipt: Receipt)
    requires ObjectsOk(g, f) && Lists(f, s) && ReceiptOk(g, receipt)
    ensures var h := Apply(f, PutReceipt(receipt));
            ListsRecords(h, s.records) && ListsAudits(h, s.audits) && ObjectsOk(g, h)
  {
  }

  lemma NewAuditIsListed(g: Grammar, f: Files, s: Recovered, audit: Audit)
    requires ObjectsOk(g, f) && Lists(f, s) && AuditOk(g, audit) && audit.deleteId !in f.audits
    ensures var h := Apply(f, PutAudit(audit));
            ListsRecords(h, s.records) && ListsAudits(h, s.audits + [audit]) && ObjectsOk(g, h)
  {
    forall i | 0 <= i < |s.audits| ensures s.audits[i].deleteId != audit.deleteId {
      assert s.audits[i] in s.audits;
    }
  }

  function WithoutName(records: seq<Record>, name: HistoryName): (r: seq<Record>)
    ensures forall x :: x in r <==> x in records && NameOf(x) != name
  {
    if records == [] then []
    else
      assert records == [records[0]] + records[1..];
      var tail := WithoutName(records[1..], name);
      if NameOf(records[0]) == name then tail else [records[0]] + tail
  }

  lemma {:induction false} WithoutNameRises(records: seq<Record>, name: HistoryName)
    requires RecordsRise(records)
    ensures RecordsRise(WithoutName(records, name))
  {
    if records != [] {
      WithoutNameRises(records[1..], name);
      var tail := WithoutName(records[1..], name);
      forall k | 0 <= k < |tail| ensures records[0].revision < tail[k].revision {
        assert tail[k] in tail;
        var m :| 0 <= m < |records[1..]| && records[1..][m] == tail[k];
        assert records[m + 1] == tail[k];
      }
    }
  }

  lemma AnotherRevision(f: Files, name: HistoryName)
    requires name in f.revisions && |f.revisions| > 1
    ensures exists other :: other in f.revisions && other != name
  {
    var rest := f.revisions.Keys - {name};
    assert |rest| == |f.revisions.Keys| - 1;
    var other :| other in rest;
  }

  lemma DropIsListed(g: Grammar, f: Files, records: seq<Record>, name: HistoryName)
    requires ObjectsOk(g, f) && ListsRecords(f, records) && name in f.revisions && |f.revisions| > 1
    ensures var h := Apply(f, DropRevision(name));
            ListsRecords(h, WithoutName(records, name)) && ObjectsOk(g, h)
    ensures WithoutName(records, name) != []
  {
    WithoutNameRises(records, name);
    DropKeepsObjects(g, f, name);
    DropKeepsListing(f, records, name);
    AnotherRevision(f, name);
    var other :| other in f.revisions && other != name;
    assert NameOf(f.revisions[other]) == other;
    assert f.revisions[other] in records;
  }

  lemma DropKeepsObjects(g: Grammar, f: Files, name: HistoryName)
    requires ObjectsOk(g, f)
    ensures ObjectsOk(g, Apply(f, DropRevision(name)))
  {
  }

  lemma DropKeepsListing(f: Files, records: seq<Record>, name: HistoryName)
    requires forall r :: r in records <==> (NameOf(r) in f.revisions && f.revisions[NameOf(r)] == r)
    ensures var h := Apply(f, DropRevision(name));
            forall r :: r in WithoutName(records, name) <==> (NameOf(r) in h.revisions && h.revisions[NameOf(r)] == r)
  {
  }

  lemma AfterFirst(before: seq<Write>, w: Write, mid: seq<Write>, trace: seq<Write>)
    requires mid == before + [w] && mid <= trace
    ensures before <= trace && trace[|before|..] == [w] + trace[|mid|..]
  {
  }

  lemma TwoThenRefresh(f: Files, a: Write, b: Write, ws: seq<Write>)
    requires WritesThenRefresh(Apply(f, a), [b], ws)
    ensures WritesThenRefresh(f, [a, b], [a] + ws)
    ensures ApplyAll(f, [a] + ws) == ApplyAll(Apply(f, a), ws)
  {
    RepairIsOneWrite(f, [a]);
    ApplyAllConcat(f, [a], ws);
    ApplyAllConcat(f, [a], [b]);
    assert [a, b] == [a] + [b];
    if ws != [b] { assert ws == [b] + [ws[1]]; assert ([a] + ws)[..2] == [a, b]; }
  }

  /** After a collection's writes the audit is there and the revision file is not. */
  lemma GcLeavesAudit(f: Files, audit: Audit, name: HistoryName, ws: seq<Write>)
    requires || WritesThenRefresh(f, [PutAudit(audit), DropRevision(name)], ws)
             || (audit.deleteId in f.audits && f.audits[audit.deleteId] == audit
                 && WritesThenRefresh(f, [DropRevision(name)], ws))
    ensures var h := ApplyAll(f, ws);
            audit.deleteId in h.audits && h.audits[audit.deleteId] == audit && name !in h.revisions
  {
    if WritesThenRefresh(f, [PutAudit(audit), DropRevision(name)], ws) {
      RefreshAfter(f, [PutAudit(audit), DropRevision(name)], ws);
    } else {
      RefreshAfter(f, [DropRevision(name)], ws);
    }
  }

  /** The revision of an audit has no other one. */
  ghost predicate SameAuditOnly(f: Files, audit: Audit) {
    forall id :: id in f.audits && f.audits[id].revision == audit.revision ==> id == audit.deleteId
  }

  /** What a refresh after the drop of a file says of its audits. */
  ghost predicate RefreshVerdict(f: Files, name: HistoryName, ok: bool) {
    if ok then OneAuditPerGone(Apply(f, DropRevision(name))) else !OneAuditPerRevision(f)
  }

  /** With the audit stored and the file gone, an index can be assembled exactly when no other
      audit stands for the revision. */
  lemma VerdictIsSameAuditOnly(f: Files, h: Files, name: HistoryName, audit: Audit, ok: bool)
    requires UniqueRevisions(f) && OneAuditPerRevision(f) && name in f.revisions && audit.revision == name.revision
    requires audit.deleteId in f.audits ==> f.audits[audit.deleteId] == audit
    requires h == (if audit.deleteId in f.audits then f else Apply(f, PutAudit(audit))) && RefreshVerdict(h, name, ok)
    ensures ok <==> SameAuditOnly(f, audit)
  {
    var dropped := Apply(h, DropRevision(name));
    assert !RevisionPresent(dropped, audit.revision);
    assert audit.deleteId in dropped.audits && dropped.audits[audit.deleteId] == audit;
    forall id | id in f.audits && f.audits[id].revision == audit.revision && OneAuditPerGone(dropped)
      ensures id == audit.deleteId
    {
      assert id in dropped.audits && dropped.audits[id].revision == audit.revision;
    }
  }

  lemma RepairIsOneWrite(f: Files, ws: seq<Write>)
    ensures ws == [] ==> ApplyAll(f, ws) == f
    ensures |ws| == 1 ==> ApplyAll(f, ws) == Apply(f, ws[0])
  {
    if |ws| == 1 { assert ws[..0] == []; }
  }

  /** What recovery for a mutation writes: a missing or unreadable index put back. */
  ghost predicate IsRepair(f: Files, repair: seq<Write>) {
    if !HoldsNothing(f) && !IndexStored(f) then |repair| == 1 && IsRefresh(f, repair[0]) else repair == []
  }

  /** Recovered files hold the same objects, and the state lists them. */
  /** The audit says what was asked for, about the revision its receipt names. */
  ghost predicate AuditSays(
    f: Files, a: Audit, releaseId: string, deleteId: string, owner: string, deletedAt: int, reason: string)
  {
    && a.deleteId == deleteId && a.releaseId == releaseId && a.ownerCommandId == owner
    && a.deletedAt == deletedAt && a.reason == reason
    && releaseId in f.receipts
    && a.revision == f.receipts[releaseId].catalogRevision && a.catalogHash == f.receipts[releaseId].catalogHash
  }

  /** What is collected was there, was not the last revision, is referred to by nothing, is out
      of its retention, and is digested by the audit. */
  ghost predicate WasCollectable(f: Files, a: Audit, refs: seq<Reference>)
    requires a.releaseId in f.receipts && HistoryName(a.revision, a.catalogHash) in f.revisions
  {
    && |f.revisions| > 1 && a.objectDigest == f.revisions[HistoryName(a.revision, a.catalogHash)]
    && f.receipts[a.releaseId].releaseRetentionUntil <= a.deletedAt
    && forall i :: 0 <= i < |refs| ==> refs[i].catalogRevision != a.revision
  }

  /** Why a collection that is not granted on recovered files is refused. */
  ghost function GcRefusal(
    g: Grammar, f: Files, releaseId: string, deleteId: string, owner: string, deletedAt: int, reason: string,
    refs: seq<Reference>)
    : string
  {
    if releaseId !in f.receipts then "CATALOG_RELEASE_RECEIPT_MISSING"
    else
      var receipt := f.receipts[releaseId];
      var name := HistoryName(receipt.catalogRevision, receipt.catalogHash);
      if name !in f.revisions then
        if deleteId in f.audits then "CATALOG_DELETE_AUDIT_STORE_MISMATCH" else "CATALOG_HISTORY_RECORD_MISSING"
      else if |f.revisions| == 1 then "CATALOG_HISTORY_LAST_PRESENT"
      else
        match CollectRevision(g, f.revisions[name], receipt, refs, deleteId, owner, deletedAt, reason)
        case Err(code) => code
        case Ok(audit) =>
          if deleteId in f.audits && f.audits[deleteId] != audit then "CATALOG_DELETE_AUDIT_STORE_MISMATCH"
          else "WASM_CATALOG_STORE_CORRUPT"
  }

  /** What a collection answers on recovered files, granted or not. */
  ghost predicate GcTold(
    g: Grammar, f: Files, r: Result<Audit>, releaseId: string, deleteId: string, owner: string, deletedAt: int,
    reason: string, refs: seq<Reference>)
  {
    match r
    case Ok(audit) =>
      && AuditSays(f, audit, releaseId, deleteId, owner, deletedAt, reason)
      && (HistoryName(audit.revision, audit.catalogHash) in f.revisions ==> WasCollectable(f, audit, refs))
    case Err(code) => code == GcRefusal(g, f, releaseId, deleteId, owner, deletedAt, reason, refs)
  }

  lemma SameGcTold(
    g: Grammar, f: Files, h: Files, r: Result<Audit>, releaseId: string, deleteId: string, owner: string,
    deletedAt: int, reason: string, refs: seq<Reference>)
    requires f.revisions == h.revisions && f.receipts == h.receipts && f.audits == h.audits
    ensures GcTold(g, f, r, releaseId, deleteId, owner, deletedAt, reason, refs)
            <==> GcTold(g, h, r, releaseId, deleteId, owner, deletedAt, reason, refs)
  {
  }

  /** Where every object checks, a refused open answers its own code. */
  ghost predicate RefusalTold<T>(g: Grammar, f: Files, r: Result<T>) {
    OpenSpec(g, f).Refused? && ObjectsOk(g, f) ==> r == Err("WASM_CATALOG_STORE_DIVERGENT")
  }

  ghost predicate RecoveredFor(g: Grammar, f: Files, h: Files, s: Recovered) {
    && Lists(h, s) && ObjectsOk(g, h) && CrossChecked(h)
    && h.revisions == f.revisions && h.receipts == f.receipts && h.audits == f.audits
    && (h.revisions != map[] ==> s.records != [] && CurrentOf(h) == CurrentOf(f))
    && s.current == if h.revisions == map[] then None else Some(CurrentOf(h))
  }

  /** The files outside `names` are read: valid, of distinct revisions, and listed in order. */
  ghost predicate ReadSoFar(g: Grammar, f: Files, names: set<HistoryName>, seen: set<nat>, records: seq<Record>) {
    && names <= f.revisions.Keys
    && (forall n :: n in f.revisions && n !in names ==>
          RecordOk(g, f.revisions[n]) && NameOf(f.revisions[n]) == n && n.revision in seen)
    && (forall n, m ::
          n in f.revisions && m in f.revisions && n !in names && m !in names && n.revision == m.revision ==> n == m)
    && (forall v :: v in seen ==> exists n :: n in f.revisions && n !in names && n.revision == v)
    && RecordsRise(records)
    && (forall x :: x in records <==>
          (NameOf(x) in f.revisions && NameOf(x) !in names && f.revisions[NameOf(x)] == x))
  }

  lemma SeenTwice(g: Grammar, f: Files, names: set<HistoryName>, seen: set<nat>, records: seq<Record>,
                  name: HistoryName)
    requires ReadSoFar(g, f, names, seen, records) && name in names && name.revision in seen
    ensures !UniqueRevisions(f)
  {
    var m :| m in f.revisions && m !in names && m.revision == name.revision;
    assert m != name;
  }

  lemma OneRecordMore(g: Grammar, f: Files, names: set<HistoryName>, seen: set<nat>, records: seq<Record>,
                      name: HistoryName)
    requires ReadSoFar(g, f, names, seen, records) && name in names && name.revision !in seen
    requires RecordOk(g, f.revisions[name]) && NameOf(f.revisions[name]) == name
    ensures ReadSoFar(g, f, names - {name}, seen + {name.revision}, InsertRecord(records, f.revisions[name]))
  {
    var record := f.revisions[name];
    forall x | x in records ensures x.revision != record.revision {
      assert NameOf(x).revision in seen;
    }
    InsertRecordRises(records, record);
    forall v | v in seen + {name.revision}
      ensures exists n :: n in f.revisions && n !in names - {name} && n.revision == v
    {
      if v in seen {
        var n :| n in f.revisions && n !in names && n.revision == v;
        assert n !in names - {name};
      } else {
        assert name !in names - {name};
      }
    }
  }

  lemma RecoveryIsFor(g: Grammar, f: Files, h: Files, s: Recovered, repair: seq<Write>)
    requires ObjectsOk(g, f) && CrossChecked(f) && RecoveredFrom(f, s)
    requires if !HoldsNothing(f) && !IndexStored(f)
             then s.index.Some? && repair == [PutIndex(s.index.value)] && h == Apply(f, PutIndex(s.index.value))
             else repair == [] && h == f
    ensures IsRepair(f, repair) && RecoveredFor(g, f, h, s)
  {
    if repair == [] {
      assert RecoveredFor(g, f, f, s);
    } else {
      RepairedIsFor(g, f, s, s.index.value);
    }
  }

  lemma RepairedIsFor(g: Grammar, f: Files, s: Recovered, i: Index)
    requires ObjectsOk(g, f) && CrossChecked(f) && RecoveredFrom(f, s) && !HoldsNothing(f)
    ensures RecoveredFor(g, f, Apply(f, PutIndex(i)), s)
  {
    var h := Apply(f, PutIndex(i));
    ListsAgain(f, i, s);
    SameObjectsCrossChecked(f, h);
    SameObjectsCurrent(f, h);
    ObjectsOkAgain(g, f, i);
  }

  lemma ListsAgain(f: Files, i: Index, s: Recovered)
    requires Lists(f, s)
    ensures Lists(Apply(f, PutIndex(i)), s)
  {
  }

  lemma ObjectsOkAgain(g: Grammar, f: Files, i: Index)
    requires ObjectsOk(g, f)
    ensures ObjectsOk(g, Apply(f, PutIndex(i)))
  {
  }

  /** A repair, where one is due, and then the plan: that is the whole operation. */
  lemma RepairedPerforms(g: Grammar, f: Files, op: Op, repair: seq<Write>, rest: seq<Write>)
    requires !op.RebuildOp? && !op.BootstrapOp? && OpenSpec(g, f).Opened? && Plan(g, ApplyAll(f, repair), op, rest)
    requires IsRepair(f, repair)
    ensures Performs(g, f, op, repair + rest)
  {
    RepairIsOneWrite(f, repair);
    if repair == [] {
      assert repair + rest == rest;
    } else {
      assert (repair + rest)[1..] == rest;
    }
  }

  class WasmCatalogStore {
    const grammar: Grammar
    var files: Files
    /** Every write ever performed, in order. */
    ghost var trace: seq<Write>

    constructor (grammar: Grammar, files: Files)
      ensures this.grammar == grammar && this.files == files && trace == []
    {
      this.grammar := grammar;
      this.files := files;
      trace := [];
    }

    /** The writes since `before` of the trace. */
    ghost function Since(before: seq<Write>): seq<Write>
      requires before <= trace
      reads this
    {
      trace[|before|..]
    }

    // ---------------------------------------------------------------- atomic file operations

    method WriteRevision(record: Record)
      modifies this
      ensures files == Apply(old(files), PutRevision(record)) && trace == old(trace) + [PutRevision(record)]
    {
      files := files.(revisions := files.revisions[NameOf(record) := record]);
      trace := trace + [PutRevision(record)];
    }

    method WriteReceipt(receipt: Receipt)
      modifies this
      ensures files == Apply(old(files), PutReceipt(receipt)) && trace == old(trace) + [PutReceipt(receipt)]
    {
      files := files.(receipts := files.receipts[receipt.releaseId := receipt]);
      trace := trace + [PutReceipt(receipt)];
    }

    method WriteAudit(audit: Audit)
      modifies this
      ensures files == Apply(old(files), PutAudit(audit)) && trace == old(trace) + [PutAudit(audit)]
    {
      files := files.(audits := files.audits[audit.deleteId := audit]);
      trace := trace + [PutAudit(audit)];
    }

    method DeleteRevision(name: HistoryName)
      modifies this
      ensures files == Apply(old(files), DropRevision(name)) && trace == old(trace) + [DropRevision(name)]
    {
      files := files.(revisions := files.revisions - {name});
      trace := trace + [DropRevision(name)];
    }

    method WriteIndex(index: Index)
      modifies this
      ensures files == Apply(old(files), PutIndex(index)) && trace == old(trace) + [PutIndex(index)]
    {
      files := files.(index := ParsedIndex(index));
      trace := trace + [PutIndex(index)];
    }

    // ---------------------------------------------------------------- reading the directory

    method ReadHistoryRecords() returns (r: Result<seq<Record>>)
      ensures r.Ok? <==>
              (forall n :: n in files.revisions ==>
                 RecordOk(grammar, files.revisions[n]) && NameOf(files.revisions[n]) == n)
              && UniqueRevisions(files)
      ensures r.Ok? ==> ListsRecords(files, r.value)
      ensures r.Err? && ObjectsOk(grammar, files) ==> r.code == WASM_CATALOG_STORE_DIVERGENT
    {
      var names := files.revisions.Keys;
      var seen: set<nat> := {};
      var records: seq<Record> := [];
      while names != {}
        invariant ReadSoFar(grammar, files, names, seen, records)
        decreases |names|
      {
        var name :| name in names;
        var record := files.revisions[name];
        if !RecordOk(grammar, record) {
          return Err(WASM_CATALOG_STORE_CORRUPT);
        }
        if NameOf(record) != name {
          return Err(WASM_CATALOG_STORE_CORRUPT);
        }
        if record.revision in seen {
          SeenTwice(grammar, files, names, seen, records, name);
          return Err(WASM_CATALOG_STORE_DIVERGENT);
        }
        OneRecordMore(grammar, files, names, seen, records, name);
        seen := seen + {record.revision};
        records := InsertRecord(records, record);
        names := names - {name};
      }
      r := Ok(records);
    }

    method ReadReleaseReceipts() returns (r: Result<seq<Receipt>>)
      ensures r.Ok? <==>
              forall id :: id in files.receipts ==>
                ReceiptOk(grammar, files.receipts[id]) && files.receipts[id].releaseId == id
      ensures r.Ok? ==> ListsReceipts(files, r.value)
      ensures r.Err? ==> r.code == WASM_CATALOG_STORE_CORRUPT
    {
      var names := files.receipts.Keys;
      var receipts: seq<Receipt> := [];
      while names != {}
        invariant names <= files.receipts.Keys
        invariant forall id :: id in files.receipts && id !in names ==>
                    ReceiptOk(grammar, files.receipts[id]) && files.receipts[id].releaseId == id
        invariant forall x :: x in receipts <==>
                    (x.releaseId in files.receipts && x.releaseId !in names && files.receipts[x.releaseId] == x)
        decreases |names|
      {
        var name :| name in names;
        var receipt := files.receipts[name];
        if !ReceiptOk(grammar, receipt) || receipt.releaseId != name {
          return Err(WASM_CATALOG_STORE_CORRUPT);
        }
        receipts := receipts + [receipt];
        names := names - {name};
      }
      r := Ok(receipts);
    }

    method ReadDeleteAudits() returns (r: Result<seq<Audit>>)
      ensures r.Ok? <==>
              forall id :: id in files.audits ==>
                AuditOk(grammar, files.audits[id]) && files.audits[id].deleteId == id
      ensures r.Ok? ==> ListsAudits(files, r.value)
      ensures r.Err? ==> r.code == WASM_CATALOG_STORE_CORRUPT
    {
      var names := files.audits.Keys;
      var audits: seq<Audit> := [];
      while names != {}
        invariant names <= files.audits.Keys
        invariant forall id :: id in files.audits && id !in names ==>
                    AuditOk(grammar, files.audits[id]) && files.audits[id].deleteId == id
        invariant forall x :: x in audits <==>
                    (x.deleteId in files.audits && x.deleteId !in names && files.audits[x.deleteId] == x)
        invariant forall i, k :: 0 <= i < k < |audits| ==> audits[i].deleteId != audits[k].deleteId
        decreases |names|
      {
        var name :| name in names;
        var audit := files.audits[name];
        if !AuditOk(grammar, audit) || audit.deleteId != name {
          return Err(WASM_CATALOG_STORE_CORRUPT);
        }
        forall i | 0 <= i < |audits| ensures audits[i].deleteId != name {
          assert audits[i] in audits;
        }
        audits := audits + [audit];
        names := names - {name};
      }
      r := Ok(audits);
    }

    method ReceiptsById(receipts: seq<Receipt>) returns (byReleaseId: map<string, Receipt>)
      requires ListsReceipts(files, receipts) && ObjectsOk(grammar, files)
      ensures byReleaseId == files.receipts
    {
      byReleaseId := map[];
      var i := 0;
      while i < |receipts|
        invariant 0 <= i <= |receipts|
        invariant forall k :: 0 <= k < i ==> receipts[k].releaseId in byReleaseId
        invariant forall id :: id in byReleaseId ==> id in files.receipts && files.receipts[id] == byReleaseId[id]
      {
        assert receipts[i] in receipts;
        byReleaseId := byReleaseId[receipts[i].releaseId := receipts[i]];
        i := i + 1;
      }
      forall id | id in files.receipts ensures id in byReleaseId {
        assert files.receipts[id] in receipts;
        var k :| 0 <= k < |receipts| && receipts[k] == files.receipts[id];
      }
    }

    /** Each audit is backed by its receipt, and no revision has two. */
    method CrossCheckAudits(byReleaseId: map<string, Receipt>, audits: seq<Audit>) returns (ok: bool, audited: set<nat>)
      ensures ok <==> (forall k :: 0 <= k < |audits| ==> BackedBy(byReleaseId, audits[k])) && AuditsDistinct(audits)
      ensures ok ==> forall v :: v in audited <==> exists k :: 0 <= k < |audits| && audits[k].revision == v
    {
      audited := {};
      var i := 0;
      while i < |audits|
        invariant 0 <= i <= |audits|
        invariant forall k :: 0 <= k < i ==> BackedBy(byReleaseId, audits[k]) && audits[k].revision in audited
        invariant forall k, m :: 0 <= k < m < i ==> audits[k].revision != audits[m].revision
        invariant forall v :: v in audited ==> exists k :: 0 <= k < i && audits[k].revision == v
      {
        var audit := audits[i];
        if audit.releaseId !in byReleaseId
           || byReleaseId[audit.releaseId].catalogRevision != audit.revision
           || byReleaseId[audit.releaseId].catalogHash != audit.catalogHash {
          assert !BackedBy(byReleaseId, audits[i]);
          return false, {};
        }
        if audit.revision in audited {
          var k :| 0 <= k < i && audits[k].revision == audit.revision;
          return false, {};
        }
        audited := audited + {audit.revision};
        i := i + 1;
      }
      ok := true;
    }

    /** Every released revision has its file or an audit. */
    method CrossCheckReceipts(records: seq<Record>, receipts: seq<Receipt>, audited: set<nat>) returns (ok: bool)
      requires ListsRecords(files, records) && ListsReceipts(files, receipts) && ObjectsOk(grammar, files)
      requires forall v :: v in audited <==> Audited(files, v)
      ensures ok <==> ReceiptsCovered(files)
    {
      var names := set r | r in records :: NameOf(r);
      assert names == files.revisions.Keys by {
        forall n | n in files.revisions ensures n in names { assert files.revisions[n] in records; }
      }
      var i := 0;
      while i < |receipts|
        invariant 0 <= i <= |receipts|
        invariant forall k :: 0 <= k < i ==>
                    HistoryName(receipts[k].catalogRevision, receipts[k].catalogHash) in files.revisions
                    || Audited(files, receipts[k].catalogRevision)
      {
        var receipt := receipts[i];
        assert receipt in receipts;
        if HistoryName(receipt.catalogRevision, receipt.catalogHash) !in names && receipt.catalogRevision !in audited {
          assert files.receipts[receipt.releaseId] == receipt;
          return false;
        }
        i := i + 1;
      }
      forall id | id in files.receipts ensures exists k :: 0 <= k < |receipts| && receipts[k] == files.receipts[id] {
        assert files.receipts[id] in receipts;
      }
      ok := true;
    }

    // ---------------------------------------------------------------- recovery

    /** The stored index if it is there and validates. */
    method ReadStoredIndex() returns (stored: Option<Index>)
      ensures stored == if IndexStored(files) then Some(files.index.index) else None
    {
      if !files.index.ParsedIndex? {
        return None;
      }
      var ok := ValidateIndex(files.index.index);
      stored := if ok then Some(files.index.index) else None;
    }

    /** The index the listed objects assemble to, if it validates. */
    method AssembleIndex(records: seq<Record>, audits: seq<Audit>, receipts: seq<Receipt>, refs: seq<Reference>,
                         now: int)
      returns (index: Option<Index>)
      requires ListsRecords(files, records) && ListsAudits(files, audits) && ObjectsOk(grammar, files)
               && |refs| <= U53_MAX
      ensures index.Some? ==> records != [] && IsRefresh(files, PutIndex(index.value))
      ensures index.Some? && ListsReceipts(files, receipts) ==> IndexTells(files, refs, index.value)
      ensures index.Some? ==> OneAuditPerGone(files)
      ensures index.None? ==> records == [] || !OneAuditPerRevision(files)
    {
      if records == [] {
        return None;
      }
      var assembled := Assemble(records, audits, receipts, refs, now);
      AssembledMatchesFiles(grammar, files, records, audits, receipts, refs, now);
      if ListsReceipts(files, receipts) {
        AssembledTells(grammar, files, records, audits, receipts, refs, now);
      }
      var ok := ValidateIndex(assembled);
      if ok {
        AssembledOnlyIf(records, audits, receipts, refs, now);
        ListedGoneAudits(files, records, audits);
      }
      index := if ok then Some(assembled) else None;
    }

    /** The three listings, once every object validates and the cross-checks hold. */
    method ReadObjects() returns (r: Result<Recovered>)
      ensures r.Ok? <==> ObjectsOk(grammar, files) && CrossChecked(files)
      ensures r.Ok? ==> Lists(files, r.value) && r.value.index.None? && r.value.current.None?
      ensures r.Err? && ObjectsOk(grammar, files) ==> r.code == WASM_CATALOG_STORE_DIVERGENT
    {
      var records := ReadHistoryRecords();
      if records.Err? {
        return Err(records.code);
      }
      var receipts := ReadReleaseReceipts();
      if receipts.Err? {
        return Err(receipts.code);
      }
      var audits := ReadDeleteAudits();
      if audits.Err? {
        return Err(audits.code);
      }
      var byReleaseId := ReceiptsById(receipts.value);
      var backed, audited := CrossCheckAudits(byReleaseId, audits.value);
      ListedAuditsChecked(files, audits.value);
      if !backed {
        return Err(WASM_CATALOG_STORE_DIVERGENT);
      }
      var covered := CrossCheckReceipts(records.value, receipts.value, audited);
      if !covered {
        return Err(WASM_CATALOG_STORE_DIVERGENT);
      }
      r := Ok(Recovered(records.value, receipts.value, audits.value, None, None));
    }

    /** The index and the pointer for checked objects: rebuilt where the stored one is
        missing or ignored, the stored one where the two agree. */
    method ChooseIndex(state: Recovered, refs: seq<Reference>, now: int, persistRepairs: bool, ignoreStoredIndex: bool)
      returns (r: Result<Recovered>)
      requires ObjectsOk(grammar, files) && CrossChecked(files) && Lists(files, state) && !HoldsNothing(files)
      requires |refs| <= U53_MAX
      modifies this
      ensures r.Ok? <==> old(files).revisions != map[]
                         && (ignoreStoredIndex || !IndexStored(old(files))
                             || IndexRows(old(files).index.index) == FilesRows(old(files)))
      ensures r.Err? ==> r.code == WASM_CATALOG_STORE_DIVERGENT
      ensures r.Ok? ==> RecoveredFrom(old(files), r.value)
      ensures if r.Ok? && persistRepairs && (ignoreStoredIndex || !IndexStored(old(files)))
              then files == Apply(old(files), PutIndex(r.value.index.value))
                   && trace == old(trace) + [PutIndex(r.value.index.value)] && IsFresh(files, refs)
              else files == old(files) && trace == old(trace)
    {
      ListedNothing(files, state.records);
      var stored := ReadStoredIndex();
      var assembled := AssembleIndex(state.records, state.audits, state.receipts, refs, now);
      if assembled.None? {
        return Err(WASM_CATALOG_STORE_DIVERGENT);
      }
      LastListedIsTop(grammar, files, state.records);
      var current := state.records[|state.records| - 1].catalog;
      if ignoreStoredIndex || stored.None? {
        if persistRepairs {
          WriteIndex(assembled.value);
        }
        return Ok(state.(index := assembled, current := Some(current)));
      }
      SameCoreIffSameRows(stored.value, assembled.value);
      if SemanticCore(stored.value) != SemanticCore(assembled.value) {
        return Err(WASM_CATALOG_STORE_DIVERGENT);
      }
      r := Ok(state.(index := stored, current := Some(current)));
    }

    method RecoverState(refs: seq<Reference>, now: int, persistRepairs: bool, ignoreStoredIndex: bool)
        returns (r: Result<Recovered>)
      requires |refs| <= U53_MAX
      modifies this
      ensures r.Ok? <==> RecoverSpec(grammar, old(files), ignoreStoredIndex).Opened?
      ensures r.Err? && ObjectsOk(grammar, old(files))
              ==> r.code == RecoverSpec(grammar, old(files), ignoreStoredIndex).code
      ensures r.Ok? ==> RecoveredFrom(old(files), r.value)
      ensures if r.Ok? && persistRepairs && !HoldsNothing(old(files)) && (ignoreStoredIndex || !IndexStored(old(files)))
              then files == Apply(old(files), PutIndex(r.value.index.value))
                   && trace == old(trace) + [PutIndex(r.value.index.value)] && IsFresh(files, refs)
              else files == old(files) && trace == old(trace)
    {
      RebuildLooksAtObjects(grammar, files);
      var objects := ReadObjects();
      if objects.Err? {
        return Err(objects.code);
      }
      var state := objects.value;
      ListedNothing(files, state.records);
      ListedNothings(grammar, files, state.receipts, state.audits);
      if state.records == [] && state.audits == [] && state.receipts == [] {
        var stored := ReadStoredIndex();
        if stored.Some? {
          return Err(WASM_CATALOG_STORE_DIVERGENT);
        }
        return Ok(state);
      }
      r := ChooseIndex(state, refs, now, persistRepairs, ignoreStoredIndex);
    }

    /** The index of the given objects, written last; false where none can be assembled. */
    method WriteRefreshedIndex(records: seq<Record>, audits: seq<Audit>, receipts: seq<Receipt>, refs: seq<Reference>,
                               now: int)
      returns (ok: bool)
      requires |refs| <= U53_MAX
      requires ListsRecords(files, records) && ListsAudits(files, audits) && ObjectsOk(grammar, files) && records != []
      modifies this
      ensures ok ==> OneAuditPerGone(old(files))
      ensures ok && ListsReceipts(old(files), receipts) ==> IsFresh(files, refs)
      ensures Attempted(old(files), old(trace), files, trace, ok)
    {
      var assembled := AssembleIndex(records, audits, receipts, refs, now);
      if assembled.None? {
        return false;
      }
      WriteIndex(assembled.value);
      ok := true;
    }

    // ---------------------------------------------------------------- owner operations

    /** Opening at start-up: recover, and put a missing or unreadable index back. */
    method Open(refs: seq<Reference>, now: int) returns (r: Result<Option<Catalog>>)
      requires |refs| <= U53_MAX
      modifies this
      ensures old(trace) <= trace && files == ApplyAll(old(files), Since(old(trace)))
      ensures Performs(grammar, old(files), OpenOp, Since(old(trace)))
      ensures var spec := OpenSpec(grammar, old(files));
              r.Ok? <==> spec.Opened?
      ensures r.Ok? ==> r.value == OpenSpec(grammar, old(files)).current
      ensures RefusalTold(grammar, old(files), r)
    {
      ghost var before, start := trace, files;
      var state := RecoverState(refs, now, true, false);
      RepairIsOneWrite(start, trace[|before|..]);
      r := if state.Ok? then Ok(state.value.current) else Err(state.code);
    }

    method RebuildIndex(refs: seq<Reference>, now: int) returns (r: Result<Index>)
      requires |refs| <= U53_MAX
      modifies this
      ensures old(trace) <= trace && files == ApplyAll(old(files), Since(old(trace)))
      ensures Performs(grammar, old(files), RebuildOp, Since(old(trace)))
      ensures r.Ok? <==> RebuildSpec(grammar, old(files)).Opened? && !HoldsNothing(old(files))
      ensures r.Ok? ==> IndexOk(r.value) && IndexRows(r.value) == FilesRows(old(files))
      ensures r.Ok? ==> IsFresh(files, refs) && files.index == ParsedIndex(r.value)
      ensures r.Err? && ObjectsOk(grammar, old(files)) ==>
                r == Err(if HoldsNothing(old(files)) && RebuildSpec(grammar, old(files)).Opened?
                         then "WASM_CATALOG_STORE_UNINITIALIZED" else "WASM_CATALOG_STORE_DIVERGENT")
    {
      ghost var before, start := trace, files;
      var state := RecoverState(refs, now, true, true);
      RepairIsOneWrite(start, trace[|before|..]);
      if state.Err? {
        return Err(state.code);
      }
      if state.value.index.None? {
        return Err(WASM_CATALOG_STORE_UNINITIALIZED);
      }
      r := Ok(state.value.index.value);
    }

    /** The revision file first, then the index. */
    method PersistAppendedRevision(state: Recovered, catalog: Catalog, storedAt: int, refs: seq<Reference>, now: int)
      requires ObjectsOk(grammar, files) && CrossChecked(files) && Lists(files, state) && |refs| <= U53_MAX
      requires CatalogOk(grammar, catalog) && forall r :: r in state.records ==> r.revision < catalog.revision
      modifies this
      ensures old(trace) <= trace && files == ApplyAll(old(files), Since(old(trace)))
      ensures WritesThenRefresh(old(files),
                                [PutRevision(Record(catalog.revision, catalog.catalogHash, catalog, storedAt))],
                                  Since(old(trace)))
      ensures IsFresh(files, refs)
    {
      ghost var before, start := trace, files;
      var record := Record(catalog.revision, catalog.catalogHash, catalog, storedAt);
      NewRevisionIsListed(grammar, files, state, record);
      WriteRevision(record);
      var ok := WriteRefreshedIndex(state.records + [record], state.audits, state.receipts, refs, now);
      assert ok;
      OneThenRefresh(start, PutRevision(record), before, files, trace, ok);
    }

    method Bootstrap(payload: Payload, storedAt: int, now: int) returns (r: Result<Catalog>)
      modifies this
      ensures old(trace) <= trace && files == ApplyAll(old(files), Since(old(trace)))
      ensures Performs(grammar, old(files), BootstrapOp(payload, storedAt), Since(old(trace)))
      ensures r.Ok? <==>
              OpenSpec(grammar, old(files)).Opened? && HoldsNothing(old(files)) && PayloadOk(grammar, payload)
      ensures r.Ok? ==> r.value == Catalog(payload.revision, payload.entries, CatalogHash(payload))
      ensures r.Ok? ==> IsFresh(files, [])
      ensures OpenSpec(grammar, old(files)).Opened? && r.Err? ==>
                r == Err(if HoldsNothing(old(files)) then "WASM_CATALOG_INVALID"
                         else "WASM_CATALOG_STORE_ALREADY_INITIALIZED")
      ensures RefusalTold(grammar, old(files), r)
    {
      ghost var before, start := trace, files;
      RepairIsOneWrite(start, []);
      var state := RecoverState([], now, false, false);
      if state.Err? {
        return Err(state.code);
      }
      if state.value.index.Some? || state.value.current.Some? {
        return Err(WASM_CATALOG_STORE_ALREADY_INITIALIZED);
      }
      var sealed_ := SealRuntimeCatalog(grammar, payload);
      if sealed_.Err? {
        return Err(sealed_.code);
      }
      PersistAppendedRevision(state.value, sealed_.value, storedAt, [], now);
      r := sealed_;
    }

    /** Recovery with a missing or unreadable index put back. */
    method RecoverForMutation(refs: seq<Reference>, now: int) returns (r: Result<Recovered>, ghost repair: seq<Write>)
      requires |refs| <= U53_MAX
      modifies this
      ensures trace == old(trace) + repair && files == ApplyAll(old(files), repair)
      ensures r.Ok? <==> OpenSpec(grammar, old(files)).Opened?
      ensures r.Ok? ==> IsRepair(old(files), repair) && RecoveredFor(grammar, old(files), files, r.value)
      ensures r.Err? ==> repair == []
      ensures RefusalTold(grammar, old(files), r)
    {
      ghost var before, start := trace, files;
      r := RecoverState(refs, now, true, false);
      repair := trace[|before|..];
      RepairIsOneWrite(start, repair);
      if r.Ok? { RecoveryIsFor(grammar, start, files, r.value, repair); }
    }

    method AppendRecovered(
      state: Recovered, expected: Pin, next: Payload, refs: seq<Reference>, storedAt: int, now: int)
      returns (r: Result<Catalog>)
      requires RecoveredFor(grammar, files, files, state) && |refs| <= U53_MAX
      modifies this
      ensures old(trace) <= trace && files == ApplyAll(old(files), Since(old(trace)))
      ensures Plan(grammar, old(files), AppendOp(expected, next, refs, storedAt), Since(old(trace)))
      ensures r == if old(files).revisions == map[] then Err("WASM_CATALOG_STORE_UNINITIALIZED")
                   else AppendRevision(grammar, CurrentOf(old(files)), expected, next, refs)
      ensures r.Ok? ==> IsFresh(files, refs)
    {
      RepairIsOneWrite(files, []);
      if state.current.None? {
        return Err(WASM_CATALOG_STORE_UNINITIALIZED);
      }
      r := AppendRevision(grammar, state.current.value, expected, next, refs);
      if r.Err? {
        return;
      }
      CurrentIsAboveAll(grammar, files, state);
      AppendResult(grammar, state.current.value, expected, next, refs);
      PersistAppendedRevision(state, r.value, storedAt, refs, now);
    }

    method Append(expected: Pin, next: Payload, refs: seq<Reference>, storedAt: int, now: int)
        returns (r: Result<Catalog>)
      requires |refs| <= U53_MAX
      modifies this
      ensures old(trace) <= trace && files == ApplyAll(old(files), Since(old(trace)))
      ensures Performs(grammar, old(files), AppendOp(expected, next, refs, storedAt), Since(old(trace)))
      ensures OpenSpec(grammar, old(files)).Refused? ==> r.Err?
      ensures OpenSpec(grammar, old(files)).Opened? ==>
                r == if old(files).revisions == map[] then Err("WASM_CATALOG_STORE_UNINITIALIZED")
                     else AppendRevision(grammar, CurrentOf(old(files)), expected, next, refs)
      ensures r.Ok? ==> IsFresh(files, refs)
      ensures RefusalTold(grammar, old(files), r)
    {
      ghost var before, start := trace, files;
      var state, repair := RecoverForMutation(refs, now);
      if state.Err? {
        RepairIsOneWrite(start, []);
        return Err(state.code);
      }
      r := AppendRecovered(state.value, expected, next, refs, storedAt, now);
      SplitTrace(start, repair, before, trace);
      RepairedPerforms(grammar, start, AppendOp(expected, next, refs, storedAt), repair, trace[|before| + |repair|..]);
    }

    method RevokeRecovered(
      state: Recovered, expected: Pin, key: string, revocation: Revocation, refs: seq<Reference>, storedAt: int,
      now: int)
      returns (r: Result<Catalog>)
      requires RecoveredFor(grammar, files, files, state) && |refs| <= U53_MAX
      modifies this
      ensures old(trace) <= trace && files == ApplyAll(old(files), Since(old(trace)))
      ensures Plan(grammar, old(files), RevokeOp(expected, key, revocation, storedAt), Since(old(trace)))
      ensures r == if old(files).revisions == map[] then Err("WASM_CATALOG_STORE_UNINITIALIZED")
                   else RevokeEntry(grammar, CurrentOf(old(files)), expected, key, revocation)
      ensures r.Ok? ==> IsFresh(files, refs)
    {
      RepairIsOneWrite(files, []);
      if state.current.None? {
        return Err(WASM_CATALOG_STORE_UNINITIALIZED);
      }
      r := RevokeEntry(grammar, state.current.value, expected, key, revocation);
      if r.Err? {
        return;
      }
      CurrentIsAboveAll(grammar, files, state);
      RevokeResult(grammar, state.current.value, expected, key, revocation);
      PersistAppendedRevision(state, r.value, storedAt, refs, now);
    }

    method Revoke(expected: Pin, key: string, revocation: Revocation, refs: seq<Reference>, storedAt: int, now: int)
      returns (r: Result<Catalog>)
      requires |refs| <= U53_MAX
      modifies this
      ensures old(trace) <= trace && files == ApplyAll(old(files), Since(old(trace)))
      ensures Performs(grammar, old(files), RevokeOp(expected, key, revocation, storedAt), Since(old(trace)))
      ensures OpenSpec(grammar, old(files)).Refused? ==> r.Err?
      ensures OpenSpec(grammar, old(files)).Opened? ==>
                r == if old(files).revisions == map[] then Err("WASM_CATALOG_STORE_UNINITIALIZED")
                     else RevokeEntry(grammar, CurrentOf(old(files)), expected, key, revocation)
      ensures r.Ok? ==> IsFresh(files, refs)
      ensures RefusalTold(grammar, old(files), r)
    {
      ghost var before, start := trace, files;
      var state, repair := RecoverForMutation(refs, now);
      if state.Err? {
        RepairIsOneWrite(start, []);
        return Err(state.code);
      }
      r := RevokeRecovered(state.value, expected, key, revocation, refs, storedAt, now);
      SplitTrace(start, repair, before, trace);
      RepairedPerforms(grammar, start, RevokeOp(expected, key, revocation, storedAt), repair,
                       trace[|before| + |repair|..]);
    }

    /** Release proper, on recovered files. */
    method ReleaseRecovered(
      state: Recovered, entryKey: string, refs: seq<Reference>, releaseId: string, ownerCommandId: string,
      drainedAt: int, releasedAt: int, now: int) returns (r: Result<Receipt>)
      requires RecoveredFor(grammar, files, files, state) && |refs| <= U53_MAX
      modifies this
      ensures old(trace) <= trace && files == ApplyAll(old(files), Since(old(trace)))
      ensures Plan(grammar, old(files), ReleaseOp(entryKey, refs, releaseId, ownerCommandId, drainedAt, releasedAt),
                   Since(old(trace)))
      ensures r.Ok? <==> ReleaseGranted(grammar, old(files),
                                        ReleaseOp(entryKey, refs, releaseId, ownerCommandId, drainedAt, releasedAt))
      ensures r.Ok? ==> releaseId in files.receipts && files.receipts[releaseId] == r.value
      ensures r.Ok? ==> r.value.releaseId == releaseId && r.value.entryKey == entryKey
                        && r.value.ownerCommandId == ownerCommandId
                        && r.value.drainedAt == drainedAt && r.value.releasedAt == releasedAt
      ensures r.Ok? && releaseId in old(files).receipts ==> r.value == old(files).receipts[releaseId]
      ensures r.Ok? && releaseId !in old(files).receipts ==>
                && r.value.releaseRetentionUntil == releasedAt + 31536000000
                && (forall i :: 0 <= i < |refs| ==> refs[i].entryKey != r.value.entryKey)
                && old(files).revisions != map[]
                && r.value.catalogRevision == CurrentOf(old(files)).revision
                && r.value.catalogHash == CurrentOf(old(files)).catalogHash
                && HasKey(CurrentOf(old(files)).entries, r.value.entryKey) && IsFresh(files, refs)
      ensures r.Err? ==>
                r == if releaseId in old(files).receipts then Err("CATALOG_RELEASE_RECEIPT_STORE_MISMATCH")
                     else if old(files).revisions == map[] then Err("WASM_CATALOG_STORE_UNINITIALIZED")
                     else ReleaseEntry(grammar, CurrentOf(old(files)), entryKey, refs, releaseId, ownerCommandId,
                                       drainedAt, releasedAt)
    {
      RepairIsOneWrite(files, []);
      if releaseId in files.receipts {
        var existing := files.receipts[releaseId];
        if existing.entryKey == entryKey && existing.ownerCommandId == ownerCommandId
           && existing.drainedAt == drainedAt && existing.releasedAt == releasedAt {
          return Ok(existing);
        }
        return Err(CATALOG_RELEASE_RECEIPT_STORE_MISMATCH);
      }
      if state.current.None? {
        return Err(WASM_CATALOG_STORE_UNINITIALIZED);
      }
      var receipt := ReleaseEntry(grammar, state.current.value, entryKey, refs, releaseId, ownerCommandId, drainedAt,
                                  releasedAt);
      if receipt.Err? {
        return receipt;
      }
      PersistReceipt(state, receipt.value, refs, now);
      r := receipt;
    }

    /** The receipt first, then the index, which can always be assembled. */
    method PersistReceipt(state: Recovered, receipt: Receipt, refs: seq<Reference>, now: int)
      requires ObjectsOk(grammar, files) && Lists(files, state) && state.records != [] && |refs| <= U53_MAX
      requires OneAuditPerRevision(files)
      requires ReceiptOk(grammar, receipt) && receipt.releaseId !in files.receipts
      modifies this
      ensures old(trace) <= trace && files == ApplyAll(old(files), Since(old(trace)))
      ensures WritesThenRefresh(old(files), [PutReceipt(receipt)], Since(old(trace)))
      ensures receipt.releaseId in files.receipts && files.receipts[receipt.releaseId] == receipt
      ensures IsFresh(files, refs)
    {
      ghost var before, start := trace, files;
      NewReceiptIsListed(grammar, files, state, receipt);
      WriteReceipt(receipt);
      var ok := WriteRefreshedIndex(state.records, state.audits, state.receipts + [receipt], refs, now);
      assert ok;
      OneThenRefresh(start, PutReceipt(receipt), before, files, trace, ok);
    }

    lemma SameReleaseGranted(f: Files, h: Files, s: Recovered, op: Op)
      requires op.ReleaseOp? && RecoveredFor(grammar, f, h, s)
      ensures ReleaseGranted(grammar, h, op) <==> ReleaseGranted(grammar, f, op)
    {
    }

    method Release(
      entryKey: string, refs: seq<Reference>, releaseId: string, ownerCommandId: string,
      drainedAt: int, releasedAt: int, now: int) returns (r: Result<Receipt>)
      requires |refs| <= U53_MAX
      modifies this
      ensures old(trace) <= trace && files == ApplyAll(old(files), Since(old(trace)))
      ensures Performs(grammar, old(files),
                       ReleaseOp(entryKey, refs, releaseId, ownerCommandId, drainedAt, releasedAt), Since(old(trace)))
      ensures r.Ok? <==> OpenSpec(grammar, old(files)).Opened?
                         && ReleaseGranted(grammar, old(files),
                                           ReleaseOp(entryKey, refs, releaseId, ownerCommandId, drainedAt, releasedAt))
      ensures r.Ok? ==> releaseId in files.receipts && files.receipts[releaseId] == r.value
      ensures r.Ok? ==> r.value.releaseId == releaseId && r.value.entryKey == entryKey
                        && r.value.ownerCommandId == ownerCommandId
                        && r.value.drainedAt == drainedAt && r.value.releasedAt == releasedAt
      ensures r.Ok? && releaseId in old(files).receipts ==> r.value == old(files).receipts[releaseId]
      ensures r.Ok? && releaseId !in old(files).receipts ==>
                && r.value.releaseRetentionUntil == releasedAt + 31536000000
                && (forall i :: 0 <= i < |refs| ==> refs[i].entryKey != r.value.entryKey)
                && old(files).revisions != map[]
                && r.value.catalogRevision == CurrentOf(old(files)).revision
                && r.value.catalogHash == CurrentOf(old(files)).catalogHash
                && HasKey(CurrentOf(old(files)).entries, r.value.entryKey) && IsFresh(files, refs)
      ensures OpenSpec(grammar, old(files)).Opened? && r.Err? ==>
                r == if releaseId in old(files).receipts then Err("CATALOG_RELEASE_RECEIPT_STORE_MISMATCH")
                     else if old(files).revisions == map[] then Err("WASM_CATALOG_STORE_UNINITIALIZED")
                     else ReleaseEntry(grammar, CurrentOf(old(files)), entryKey, refs, releaseId, ownerCommandId,
                                       drainedAt, releasedAt)
      ensures RefusalTold(grammar, old(files), r)
    {
      ghost var before, start := trace, files;
      var state, repair := RecoverForMutation(refs, now);
      if state.Err? {
        RepairIsOneWrite(start, []);
        return Err(state.code);
      }
      SameReleaseGranted(start, files, state.value,
                         ReleaseOp(entryKey, refs, releaseId, ownerCommandId, drainedAt, releasedAt));
      r := ReleaseRecovered(state.value, entryKey, refs, releaseId, ownerCommandId, drainedAt, releasedAt, now);
      SplitTrace(start, repair, before, trace);
      RepairedPerforms(grammar, start, ReleaseOp(entryKey, refs, releaseId, ownerCommandId, drainedAt, releasedAt),
                       repair, trace[|before| + |repair|..]);
    }

    /** The tail of a collection: delete the revision file, then refresh the index. */
    method DropAndRefresh(state: Recovered, name: HistoryName, audits: seq<Audit>, refs: seq<Reference>, now: int)
      returns (ok: bool)
      requires ObjectsOk(grammar, files) && ListsRecords(files, state.records) && ListsAudits(files, audits)
               && |refs| <= U53_MAX
      requires name in files.revisions && |files.revisions| > 1
      modifies this
      ensures old(trace) <= trace
      ensures WritesThenRefresh(old(files), [DropRevision(name)], Since(old(trace)))
      ensures files == ApplyAll(old(files), Since(old(trace)))
      ensures RefreshVerdict(old(files), name, ok)
      ensures ok && ListsReceipts(old(files), state.receipts) ==> IsFresh(files, refs)
    {
      ghost var before, start := trace, files;
      var rest := WithoutName(state.records, name);
      DropIsListed(grammar, files, state.records, name);
      DeleteRevision(name);
      ok := WriteRefreshedIndex(rest, audits, state.receipts, refs, now);
      OneThenRefresh(start, DropRevision(name), before, files, trace, ok);
    }

    /** The revision file is gone: the stored audit answers if it is the request's. */
    method CollectedBefore(receipt: Receipt, deleteId: string, ownerCommandId: string, deletedAt: int, reason: string)
      returns (r: Result<Audit>)
      ensures r.Ok? <==>
              deleteId in files.audits
              && AuditMatchesRequest(files.audits[deleteId], receipt, ownerCommandId, deletedAt, reason)
      ensures r.Ok? ==> r.value == files.audits[deleteId]
      ensures r.Err? ==> r.code == if deleteId in files.audits then "CATALOG_DELETE_AUDIT_STORE_MISMATCH"
                                   else "CATALOG_HISTORY_RECORD_MISSING"
    {
      if deleteId !in files.audits {
        return Err(CATALOG_HISTORY_RECORD_MISSING);
      }
      if !AuditMatchesRequest(files.audits[deleteId], receipt, ownerCommandId, deletedAt, reason) {
        return Err(CATALOG_DELETE_AUDIT_STORE_MISMATCH);
      }
      r := Ok(files.audits[deleteId]);
    }

    /** The cases of a collection. */
    lemma GcGrantedWhen(f: Files, op: Op)
      requires op.GcOp? && ObjectsOk(grammar, f)
      ensures op.releaseId !in f.receipts ==> ObjectWrites(grammar, f, op).None? && !GcGranted(grammar, f, op)
      ensures op.releaseId in f.receipts ==>
                var receipt := f.receipts[op.releaseId];
                var name := HistoryName(receipt.catalogRevision, receipt.catalogHash);
                if name !in f.revisions
                then ObjectWrites(grammar, f, op).None? && (GcGranted(grammar, f, op) <==> GcReplays(f, op))
                else if |f.revisions| == 1 then ObjectWrites(grammar, f, op).None? && !GcGranted(grammar, f, op)
                else
                  var computed := CollectRevision(grammar, f.revisions[name], receipt, op.refs, op.deleteId,
                                                  op.ownerCommandId, op.deletedAt, op.reason);
                  && ObjectWrites(grammar, f, op) == CollectWrites(f, name, op.deleteId, computed)
                  && (GcGranted(grammar, f, op) <==>
                        computed.Ok? && CollectWrites(f, name, op.deleteId, computed).Some?
                          && SameAuditOnly(f, computed.value))
    {
    }

    /** Collection proper, on recovered files. */
    method GcRecovered(
      state: Recovered, releaseId: string, deleteId: string, ownerCommandId: string,
      deletedAt: int, reason: string, refs: seq<Reference>, now: int) returns (r: Result<Audit>)
      requires ObjectsOk(grammar, files) && CrossChecked(files) && Lists(files, state) && |refs| <= U53_MAX
      modifies this
      ensures old(trace) <= trace && files == ApplyAll(old(files), Since(old(trace)))
      ensures Plan(grammar, old(files), GcOp(releaseId, deleteId, ownerCommandId, deletedAt, reason, refs),
                   Since(old(trace)))
      ensures r.Ok? <==> GcGranted(grammar, old(files),
                                   GcOp(releaseId, deleteId, ownerCommandId, deletedAt, reason, refs))
      ensures r.Ok? ==> deleteId in files.audits && files.audits[deleteId] == r.value
                        && HistoryName(r.value.revision, r.value.catalogHash) !in files.revisions
      ensures GcTold(grammar, old(files), r, releaseId, deleteId, ownerCommandId, deletedAt, reason, refs)
      ensures r.Ok? && HistoryName(r.value.revision, r.value.catalogHash) in old(files).revisions
              ==> IsFresh(files, refs)
    {
      ghost var before, start := trace, files;
      ghost var op := GcOp(releaseId, deleteId, ownerCommandId, deletedAt, reason, refs);
      RepairIsOneWrite(start, []);
      GcGrantedWhen(files, op);
      if releaseId !in files.receipts {
        return Err(CATALOG_RELEASE_RECEIPT_MISSING);
      }
      var receipt := files.receipts[releaseId];
      var name := HistoryName(receipt.catalogRevision, receipt.catalogHash);
      if name !in files.revisions {
        r := CollectedBefore(receipt, deleteId, ownerCommandId, deletedAt, reason);
        return;
      }
      if |files.revisions| == 1 {
        return Err(CATALOG_HISTORY_LAST_PRESENT);
      }
      var computed := CollectRevision(grammar, files.revisions[name], receipt, refs, deleteId, ownerCommandId,
                                      deletedAt, reason);
      r := CollectPresent(state, name, deleteId, computed, refs, now);
    }

    /** A file to collect: what was computed for it decides. */
    method CollectPresent(
      state: Recovered, name: HistoryName, deleteId: string, computed: Result<Audit>, refs: seq<Reference>, now: int)
      returns (r: Result<Audit>)
      requires ObjectsOk(grammar, files) && CrossChecked(files) && Lists(files, state) && |refs| <= U53_MAX
      requires name in files.revisions && |files.revisions| > 1
      requires computed.Ok? ==> AuditOk(grammar, computed.value) && computed.value.revision == name.revision
                                && computed.value.catalogHash == name.catalogHash && computed.value.deleteId == deleteId
      modifies this
      ensures old(trace) <= trace && files == ApplyAll(old(files), Since(old(trace)))
      ensures PlanOf(old(files), CollectWrites(old(files), name, deleteId, computed), Since(old(trace)))
      ensures r.Ok? <==> computed.Ok? && CollectWrites(old(files), name, deleteId, computed).Some?
                         && SameAuditOnly(old(files), computed.value)
      ensures r.Ok? ==> deleteId in files.audits && files.audits[deleteId] == r.value
                        && HistoryName(r.value.revision, r.value.catalogHash) !in files.revisions
      ensures r.Ok? ==> r == computed && IsFresh(files, refs)
      ensures r.Err? ==>
                r.code == if computed.Err? then computed.code
                          else if deleteId in old(files).audits && old(files).audits[deleteId] != computed.value
                          then "CATALOG_DELETE_AUDIT_STORE_MISMATCH" else "WASM_CATALOG_STORE_CORRUPT"
    {
      ghost var before, start := trace, files;
      RepairIsOneWrite(start, []);
      if computed.Err? {
        if computed.code == WASM_CATALOG_ENTRY_PROTECTED {
          ListedNothing(files, state.records);
          var refreshed := WriteRefreshedIndex(state.records, state.audits, state.receipts, refs, now);
          assert refreshed;
          RefreshAfter(start, [], trace[|before|..]);
        }
        return computed;
      }
      if deleteId in files.audits && files.audits[deleteId] != computed.value {
        return Err(CATALOG_DELETE_AUDIT_STORE_MISMATCH);
      }
      var ok := CollectAudited(state, name, computed.value, refs, now);
      r := if ok then computed else Err(WASM_CATALOG_STORE_CORRUPT);
    }

    /** The audit, unless it is there already, before the file it accounts for goes. */
    method CollectAudited(state: Recovered, name: HistoryName, audit: Audit, refs: seq<Reference>, now: int)
      returns (ok: bool)
      requires ObjectsOk(grammar, files) && CrossChecked(files) && Lists(files, state) && |refs| <= U53_MAX
      requires AuditOk(grammar, audit) && audit.revision == name.revision
      requires name in files.revisions && |files.revisions| > 1
      requires audit.deleteId in files.audits ==> files.audits[audit.deleteId] == audit
      modifies this
      ensures old(trace) <= trace && files == ApplyAll(old(files), Since(old(trace)))
      ensures WritesThenRefresh(old(files),
                                if audit.deleteId in old(files).audits then [DropRevision(name)]
                                else [PutAudit(audit), DropRevision(name)],
                                Since(old(trace)))
      ensures audit.deleteId in files.audits && files.audits[audit.deleteId] == audit && name !in files.revisions
      ensures ok <==> SameAuditOnly(old(files), audit)
      ensures ok ==> IsFresh(files, refs)
    {
      ghost var before, start := trace, files;
      if audit.deleteId in files.audits {
        ok := DropAndRefresh(state, name, state.audits, refs, now);
        VerdictIsSameAuditOnly(start, start, name, audit, ok);
      } else {
        ok := AuditThenDrop(state, name, audit, refs, now);
        VerdictIsSameAuditOnly(start, Apply(start, PutAudit(audit)), name, audit, ok);
      }
      GcLeavesAudit(start, audit, name, trace[|before|..]);
    }

    method AuditThenDrop(state: Recovered, name: HistoryName, audit: Audit, refs: seq<Reference>, now: int)
      returns (ok: bool)
      requires ObjectsOk(grammar, files) && Lists(files, state) && |refs| <= U53_MAX && AuditOk(grammar, audit)
      requires name in files.revisions && |files.revisions| > 1 && audit.deleteId !in files.audits
      modifies this
      ensures old(trace) <= trace && files == ApplyAll(old(files), Since(old(trace)))
      ensures WritesThenRefresh(old(files), [PutAudit(audit), DropRevision(name)], Since(old(trace)))
      ensures RefreshVerdict(Apply(old(files), PutAudit(audit)), name, ok)
      ensures ok ==> IsFresh(files, refs)
    {
      ghost var before, start := trace, files;
      NewAuditIsListed(grammar, files, state, audit);
      WriteAudit(audit);
      ghost var mid := trace;
      ok := DropAndRefresh(state, name, state.audits + [audit], refs, now);
      AfterFirst(before, PutAudit(audit), mid, trace);
      TwoThenRefresh(start, PutAudit(audit), DropRevision(name), trace[|mid|..]);
    }

    lemma SameGcGranted(f: Files, h: Files, s: Recovered, op: Op)
      requires op.GcOp? && RecoveredFor(grammar, f, h, s)
      ensures GcGranted(grammar, h, op) <==> GcGranted(grammar, f, op)
    {
      SameGcWrites(f, h, s, op);
    }

    lemma SameGcWrites(f: Files, h: Files, s: Recovered, op: Op)
      requires op.GcOp? && RecoveredFor(grammar, f, h, s)
      ensures GcWrites(grammar, h, op) == GcWrites(grammar, f, op)
    {
    }

    method Gc(
      releaseId: string, deleteId: string, ownerCommandId: string,
      deletedAt: int, reason: string, refs: seq<Reference>, now: int) returns (r: Result<Audit>)
      requires |refs| <= U53_MAX
      modifies this
      ensures old(trace) <= trace && files == ApplyAll(old(files), Since(old(trace)))
      ensures Performs(grammar, old(files), GcOp(releaseId, deleteId, ownerCommandId, deletedAt, reason, refs),
                       Since(old(trace)))
      ensures r.Ok? <==> OpenSpec(grammar, old(files)).Opened?
                         && GcGranted(grammar, old(files),
                                      GcOp(releaseId, deleteId, ownerCommandId, deletedAt, reason, refs))
      ensures r.Ok? ==> deleteId in files.audits && files.audits[deleteId] == r.value
                        && HistoryName(r.value.revision, r.value.catalogHash) !in files.revisions
      ensures OpenSpec(grammar, old(files)).Opened? ==>
                GcTold(grammar, old(files), r, releaseId, deleteId, ownerCommandId, deletedAt, reason, refs)
      ensures r.Ok? && HistoryName(r.value.revision, r.value.catalogHash) in old(files).revisions
              ==> IsFresh(files, refs)
      ensures RefusalTold(grammar, old(files), r)
    {
      ghost var before, start := trace, files;
      var state, repair := RecoverForMutation(refs, now);
      if state.Err? {
        RepairIsOneWrite(start, []);
        return Err(state.code);
      }
      SameGcGranted(start, files, state.value, GcOp(releaseId, deleteId, ownerCommandId, deletedAt, reason, refs));
      ghost var recovered := files;
      r := GcRecovered(state.value, releaseId, deleteId, ownerCommandId, deletedAt, reason, refs, now);
      SameGcTold(grammar, start, recovered, r, releaseId, deleteId, ownerCommandId, deletedAt, reason, refs);
      SplitTrace(start, repair, before, trace);
      RepairedPerforms(grammar, start, GcOp(releaseId, deleteId, ownerCommandId, deletedAt, reason, refs),
                       repair, trace[|before| + |repair|..]);
    }
  }
}
