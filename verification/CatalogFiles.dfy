/** The catalog store's directory as maps from file names to parsed objects, what opening
    it answers, and which writes each owner operation performs, in order.

    Revision, receipt and audit files are the authority; the index is a cache. */
module CatalogFiles {
  import opened Basics
  import opened RuntimeCatalog
  import opened CatalogIndex

  const WASM_CATALOG_STORE_CORRUPT := "WASM_CATALOG_STORE_CORRUPT"
  const WASM_CATALOG_STORE_DIVERGENT := "WASM_CATALOG_STORE_DIVERGENT"

  /** The name `<revision>-<catalogHash>.json`. */
  datatype HistoryName = HistoryName(revision: nat, catalogHash: Hash)

  /** Missing, not readable as a valid index, or a parsed index. */
  datatype IndexFile = NoIndex | UnreadableIndex | ParsedIndex(index: Index)

  datatype Files = Files(
    revisions: map<HistoryName, Record>,
    receipts: map<string, Receipt>,
    audits: map<string, Audit>,
    index: IndexFile)

  const NO_FILES := Files(map[], map[], map[], NoIndex)

  function NameOf(r: Record): HistoryName { HistoryName(r.revision, r.catalogHash) }

  // ------------------------------------------------------------------ what recovery checks

  ghost predicate ObjectsOk(g: Grammar, f: Files) {
    && (forall n :: n in f.revisions ==> RecordOk(g, f.revisions[n]) && NameOf(f.revisions[n]) == n)
    && (forall id :: id in f.receipts ==> ReceiptOk(g, f.receipts[id]) && f.receipts[id].releaseId == id)
    && (forall id :: id in f.audits ==> AuditOk(g, f.audits[id]) && f.audits[id].deleteId == id)
  }

  ghost predicate UniqueRevisions(f: Files) {
    forall n, m :: n in f.revisions && m in f.revisions && n.revision == m.revision ==> n == m
  }

  /** An audit names a receipt that binds the same revision and hash. */
  predicate Backed(f: Files, a: Audit) {
    && a.releaseId in f.receipts
    && f.receipts[a.releaseId].catalogRevision == a.revision
    && f.receipts[a.releaseId].catalogHash == a.catalogHash
  }

  ghost predicate AuditsBacked(f: Files) {
    forall id :: id in f.audits ==> Backed(f, f.audits[id])
  }

  ghost predicate OneAuditPerRevision(f: Files) {
    forall a, b :: a in f.audits && b in f.audits && f.audits[a].revision == f.audits[b].revision ==> a == b
  }

  /** No two audits stand for one revision whose file is gone. */
  ghost predicate OneAuditPerGone(f: Files) {
    forall a, b :: (a in f.audits && b in f.audits && f.audits[a].revision == f.audits[b].revision
                    && !RevisionPresent(f, f.audits[a].revision)) ==> a == b
  }

  ghost predicate Audited(f: Files, revision: nat) {
    exists id :: id in f.audits && f.audits[id].revision == revision
  }

  /** A released revision still has its file, or an audit that accounts for it. */
  ghost predicate ReceiptsCovered(f: Files) {
    forall id :: id in f.receipts ==>
      HistoryName(f.receipts[id].catalogRevision, f.receipts[id].catalogHash) in f.revisions
      || Audited(f, f.receipts[id].catalogRevision)
  }

  ghost predicate CrossChecked(f: Files) {
    UniqueRevisions(f) && AuditsBacked(f) && OneAuditPerRevision(f) && ReceiptsCovered(f)
  }

  predicate HoldsNothing(f: Files) { f.revisions == map[] && f.receipts == map[] && f.audits == map[] }

  ghost predicate RevisionPresent(f: Files, revision: nat) {
    exists n :: n in f.revisions && n.revision == revision
  }

  ghost function FilesRows(f: Files): set<Row> {
    (set n | n in f.revisions :: Row(n.revision, n.catalogHash, Present))
    + (set id | id in f.audits && !RevisionPresent(f, f.audits[id].revision) ::
         Row(f.audits[id].revision, f.audits[id].catalogHash, Deleted))
  }

  ghost predicate IndexStored(f: Files) { f.index.ParsedIndex? && IndexOk(f.index.index) }

  ghost predicate IsTop(f: Files, n: HistoryName) {
    n in f.revisions && forall m :: m in f.revisions ==> m.revision <= n.revision
  }

  lemma {:induction false} TopOf(names: set<HistoryName>) returns (top: HistoryName)
    requires names != {}
    ensures top in names && forall m :: m in names ==> m.revision <= top.revision
    decreases |names|
  {
    var n :| n in names;
    top := n;
    if names != {n} {
      var rest := TopOf(names - {n});
      if rest.revision > n.revision { top := rest; }
    }
  }

  lemma TopExists(f: Files)
    requires f.revisions != map[]
    ensures exists n :: IsTop(f, n)
  {
    var n :| n in f.revisions;
    var top := TopOf(f.revisions.Keys);
    assert IsTop(f, top);
  }

  /** The catalog of the highest revision file. */
  ghost function CurrentOf(f: Files): Catalog
    requires f.revisions != map[]
  {
    TopExists(f);
    var n :| IsTop(f, n);
    f.revisions[n].catalog
  }

  lemma CurrentIsTop(f: Files, n: HistoryName)
    requires UniqueRevisions(f) && IsTop(f, n)
    ensures CurrentOf(f) == f.revisions[n].catalog
  {
  }

  // ------------------------------------------------------------------ opening

  /** Recovered: the current catalog and the rows of the history; or a refusal. */
  datatype Opening = Opened(current: Option<Catalog>, rows: set<Row>) | Refused(code: string)

  ghost function OpenSpec(g: Grammar, f: Files): Opening {
    if !ObjectsOk(g, f) then Refused(WASM_CATALOG_STORE_CORRUPT)
    else if !CrossChecked(f) then Refused(WASM_CATALOG_STORE_DIVERGENT)
    else if HoldsNothing(f) then
      if IndexStored(f) then Refused(WASM_CATALOG_STORE_DIVERGENT) else Opened(None, {})
    else if f.revisions == map[] then Refused(WASM_CATALOG_STORE_DIVERGENT)
    else if IndexStored(f) && IndexRows(f.index.index) != FilesRows(f) then Refused(WASM_CATALOG_STORE_DIVERGENT)
    else Opened(Some(CurrentOf(f)), FilesRows(f))
  }

  /** What an owner's explicit rebuild answers: the stored index is not looked at. */
  ghost function RebuildSpec(g: Grammar, f: Files): Opening {
    OpenSpec(g, if HoldsNothing(f) then f else f.(index := NoIndex))
  }

  /** Two directories that differ in the index file only. */
  predicate SameObjects(f: Files, h: Files) {
    f.revisions == h.revisions && f.receipts == h.receipts && f.audits == h.audits
  }

  lemma SameObjectsCrossChecked(f: Files, h: Files)
    requires SameObjects(f, h) && CrossChecked(f)
    ensures CrossChecked(h)
  {
    assert UniqueRevisions(h) && AuditsBacked(h) && OneAuditPerRevision(h);
    forall id | id in h.receipts
      ensures HistoryName(h.receipts[id].catalogRevision, h.receipts[id].catalogHash) in h.revisions
              || Audited(h, h.receipts[id].catalogRevision)
    {
      if Audited(f, h.receipts[id].catalogRevision) {
        var a :| a in f.audits && f.audits[a].revision == h.receipts[id].catalogRevision;
        assert a in h.audits;
      }
    }
  }

  lemma SameObjectsCurrent(f: Files, h: Files)
    requires SameObjects(f, h) && UniqueRevisions(f) && f.revisions != map[]
    ensures CurrentOf(h) == CurrentOf(f)
  {
    TopExists(f);
    var n :| IsTop(f, n);
    assert IsTop(h, n) && UniqueRevisions(h);
    CurrentIsTop(f, n);
    CurrentIsTop(h, n);
  }

  lemma SameObjectsRows(f: Files, h: Files)
    requires SameObjects(f, h)
    ensures FilesRows(h) == FilesRows(f)
  {
    assert forall revision :: RevisionPresent(h, revision) <==> RevisionPresent(f, revision);
  }

  /** What a rebuild answers: it checks the same objects and looks at them alone. */
  lemma RebuildLooksAtObjects(g: Grammar, f: Files)
    ensures !HoldsNothing(f) ==>
              RebuildSpec(g, f) ==
              if !ObjectsOk(g, f) then Refused(WASM_CATALOG_STORE_CORRUPT)
              else if !CrossChecked(f) || f.revisions == map[] then Refused(WASM_CATALOG_STORE_DIVERGENT)
              else Opened(Some(CurrentOf(f)), FilesRows(f))
  {
    var h := f.(index := NoIndex);
    SameObjectsRows(f, h);
    if CrossChecked(f) {
      SameObjectsCrossChecked(f, h);
      if f.revisions != map[] { SameObjectsCurrent(f, h); }
    }
    if CrossChecked(h) { SameObjectsCrossChecked(h, f); }
    assert ObjectsOk(g, h) == ObjectsOk(g, f);
  }

  // ------------------------------------------------------------------ writes

  datatype Write =
    | PutRevision(record: Record)
    | PutReceipt(receipt: Receipt)
    | PutAudit(audit: Audit)
    | DropRevision(name: HistoryName)
    | PutIndex(index: Index)

  /** Each write is one atomic rename, or one delete. */
  function Apply(f: Files, w: Write): Files {
    match w
    case PutRevision(r) => f.(revisions := f.revisions[NameOf(r) := r])
    case PutReceipt(r) => f.(receipts := f.receipts[r.releaseId := r])
    case PutAudit(a) => f.(audits := f.audits[a.deleteId := a])
    case DropRevision(n) => f.(revisions := f.revisions - {n})
    case PutIndex(i) => f.(index := ParsedIndex(i))
  }

  function ApplyAll(f: Files, ws: seq<Write>): Files {
    if ws == [] then f else Apply(ApplyAll(f, ws[..|ws| - 1]), ws[|ws| - 1])
  }

  lemma ApplyAllAppend(f: Files, ws: seq<Write>, w: Write)
    ensures ApplyAll(f, ws + [w]) == Apply(ApplyAll(f, ws), w)
  {
    assert (ws + [w])[..|ws|] == ws;
  }

  lemma {:induction false} ApplyAllConcat(f: Files, vs: seq<Write>, ws: seq<Write>)
    ensures ApplyAll(f, vs + ws) == ApplyAll(ApplyAll(f, vs), ws)
    decreases |ws|
  {
    if ws == [] {
      assert vs + ws == vs;
    } else {
      var m := |ws| - 1;
      assert (vs + ws)[..|vs + ws| - 1] == vs + ws[..m];
      ApplyAllConcat(f, vs, ws[..m]);
    }
  }

  // ------------------------------------------------------------------ owner operations

  datatype Op =
    | OpenOp
    | RebuildOp
    | BootstrapOp(payload: Payload, storedAt: int)
    | AppendOp(expected: Pin, next: Payload, refs: seq<Reference>, storedAt: int)
    | RevokeOp(pin: Pin, key: string, revocation: Revocation, storedAt: int)
    | ReleaseOp(entryKey: string, refs: seq<Reference>, releaseId: string, ownerCommandId: string, drainedAt: int,
                releasedAt: int)
    | GcOp(releaseId: string, deleteId: string, ownerCommandId: string, deletedAt: int, reason: string,
           refs: seq<Reference>)

  function StoreRecord(r: Result<Catalog>, storedAt: int): Option<seq<Write>> {
    if r.Err? then None
    else Some([PutRevision(Record(r.value.revision, r.value.catalogHash, r.value, storedAt))])
  }

  ghost function GcWrites(g: Grammar, f: Files, op: Op): Option<seq<Write>>
    requires op.GcOp?
  {
    if op.releaseId !in f.receipts then None
    else
      var receipt := f.receipts[op.releaseId];
      var name := HistoryName(receipt.catalogRevision, receipt.catalogHash);
      if name !in f.revisions || |f.revisions| == 1 then None
      else
        CollectWrites(f, name, op.deleteId,
                      CollectRevision(g, f.revisions[name], receipt, op.refs, op.deleteId, op.ownerCommandId,
                                      op.deletedAt, op.reason))
  }

  /** The audit, unless it is there already, and then the file it accounts for. */
  function CollectWrites(f: Files, name: HistoryName, deleteId: string, computed: Result<Audit>): Option<seq<Write>> {
    match computed
    case Err(code) => if code == WASM_CATALOG_ENTRY_PROTECTED then Some([]) else None
    case Ok(audit) =>
      if deleteId !in f.audits then Some([PutAudit(audit), DropRevision(name)])
      else if f.audits[deleteId] == audit then Some([DropRevision(name)])
      else None
  }

  /** The writes to history objects of an operation that starts on recovered files; None
      where it writes nothing at all, not even the index. */
  ghost function ObjectWrites(g: Grammar, f: Files, op: Op): Option<seq<Write>> {
    match op
    case OpenOp => None
    case RebuildOp => if HoldsNothing(f) then None else Some([])
    case BootstrapOp(payload, storedAt) =>
      if !HoldsNothing(f) then None else StoreRecord(SealRuntimeCatalog(g, payload), storedAt)
    case AppendOp(expected, next, refs, storedAt) =>
      if f.revisions == map[] then None
      else StoreRecord(AppendRevision(g, CurrentOf(f), expected, next, refs), storedAt)
    case RevokeOp(pin, key, v, storedAt) =>
      if f.revisions == map[] then None else StoreRecord(RevokeEntry(g, CurrentOf(f), pin, key, v), storedAt)
    case ReleaseOp(entryKey, refs, releaseId, owner, drainedAt, releasedAt) =>
      if releaseId in f.receipts || f.revisions == map[] then None
      else
        var r := ReleaseEntry(g, CurrentOf(f), entryKey, refs, releaseId, owner, drainedAt, releasedAt);
        if r.Err? then None else Some([PutReceipt(r.value)])
    case GcOp(_, _, _, _, _, _) => GcWrites(g, f, op)
  }

  /** No other audit stands for the revision to be collected. */
  ghost predicate GcSameDeleteId(f: Files, op: Op) {
    op.GcOp? && op.releaseId in f.receipts ==>
      forall id :: id in f.audits && f.audits[id].revision == f.receipts[op.releaseId].catalogRevision
        ==> id == op.deleteId
  }

  /** A collection that would store a second audit for its revision. */
  ghost predicate Locks(g: Grammar, f: Files, op: Op) {
    op.GcOp? && GcCollects(g, f, op) && !GcSameDeleteId(f, op)
  }

  /** The request's own audit already stands for a collected file. */
  predicate GcReplays(f: Files, op: Op)
    requires op.GcOp?
  {
    && op.releaseId in f.receipts && op.deleteId in f.audits
    && HistoryName(f.receipts[op.releaseId].catalogRevision, f.receipts[op.releaseId].catalogHash) !in f.revisions
    && AuditMatchesRequest(f.audits[op.deleteId], f.receipts[op.releaseId], op.ownerCommandId, op.deletedAt, op.reason)
  }

  predicate AuditMatchesRequest(audit: Audit, receipt: Receipt, ownerCommandId: string, deletedAt: int,
                                reason: string) {
    && audit.releaseId == receipt.releaseId && audit.revision == receipt.catalogRevision
    && audit.catalogHash == receipt.catalogHash && audit.ownerCommandId == ownerCommandId
    && audit.deletedAt == deletedAt && audit.reason == reason
  }

  /** A collection has a file to delete, and nothing stands against it. */
  ghost predicate GcCollects(g: Grammar, f: Files, op: Op)
    requires op.GcOp?
  {
    GcWrites(g, f, op).Some? && GcWrites(g, f, op).value != []
  }

  /** What a collection is granted on: a replay of its own audit, or a collection no other
      audit for the revision stands against. */
  ghost predicate GcGranted(g: Grammar, f: Files, op: Op)
    requires op.GcOp?
  {
    GcReplays(f, op) || (GcCollects(g, f, op) && GcSameDeleteId(f, op))
  }

  /** What a release is granted on: the same request's receipt, or a new one. */
  ghost predicate ReleaseGranted(g: Grammar, f: Files, op: Op)
    requires op.ReleaseOp?
  {
    if op.releaseId in f.receipts then
      var existing := f.receipts[op.releaseId];
      existing.entryKey == op.entryKey && existing.ownerCommandId == op.ownerCommandId
      && existing.drainedAt == op.drainedAt && existing.releasedAt == op.releasedAt
    else ObjectWrites(g, f, op).Some?
  }

  ghost predicate IsRefresh(f: Files, w: Write) {
    w.PutIndex? && IndexOk(w.index) && IndexRows(w.index) == FilesRows(f)
  }

  /** Object writes first, the refreshed index last; it is left out only where the history
      would hold two audits for one revision and no index can be assembled. */
  ghost predicate PlanOf(f: Files, objects: Option<seq<Write>>, ws: seq<Write>) {
    if objects.None? then ws == []
    else
      || (|ws| == |objects.value| + 1 && ws[..|objects.value|] == objects.value
          && IsRefresh(ApplyAll(f, objects.value), ws[|objects.value|]))
      || (ws == objects.value && !OneAuditPerRevision(ApplyAll(f, objects.value)))
  }

  ghost predicate Plan(g: Grammar, f: Files, op: Op, ws: seq<Write>) {
    PlanOf(f, ObjectWrites(g, f, op), ws)
  }

  /** A missing or unreadable index of a store that holds something is put back first,
      except by a bootstrap, which only reads. */
  ghost predicate NeedsRepair(f: Files, op: Op) {
    !HoldsNothing(f) && !IndexStored(f) && !op.BootstrapOp? && !op.RebuildOp?
  }

  /** All writes of one operation, in order. */
  ghost predicate Performs(g: Grammar, f: Files, op: Op, ws: seq<Write>) {
    if (if op.RebuildOp? then RebuildSpec(g, f) else OpenSpec(g, f)).Refused? then ws == []
    else if NeedsRepair(f, op) then
      ws != [] && IsRefresh(f, ws[0]) && Plan(g, Apply(f, ws[0]), op, ws[1..])
    else Plan(g, f, op, ws)
  }
}
