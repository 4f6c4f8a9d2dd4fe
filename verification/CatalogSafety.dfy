/** What every write of the catalog store keeps: its objects stay checked after every prefix
    of every operation's writes, or a second audit for one revision locks the store. */
module CatalogSafety {
  import opened Basics
  import opened RuntimeCatalog
  import opened CatalogIndex
  import opened CatalogFiles

  // ------------------------------------------------------------------ the top revision

  /** The highest revision number with a file. */
  ghost function TopRevision(f: Files): (top: nat)
    requires f.revisions != map[]
    ensures forall n :: n in f.revisions ==> n.revision <= top
    ensures RevisionPresent(f, top)
  {
    TopExists(f);
    var n :| IsTop(f, n);
    n.revision
  }

  ghost predicate AtMostTop(f: Files, revision: nat) { f.revisions != map[] && revision <= TopRevision(f) }

  ghost predicate BelowTop(f: Files, revision: nat) { f.revisions != map[] && revision < TopRevision(f) }

  /** The collected revision is below the current one. */
  ghost predicate GcBelowCurrent(f: Files, op: Op) {
    op.GcOp? && op.releaseId in f.receipts ==> BelowTop(f, f.receipts[op.releaseId].catalogRevision)
  }

  lemma TopIsAtLeast(f: Files, n: HistoryName)
    requires n in f.revisions
    ensures AtMostTop(f, n.revision)
  {
  }

  lemma SameObjectsTop(f: Files, h: Files, revision: nat)
    requires SameObjects(f, h)
    ensures BelowTop(f, revision) ==> BelowTop(h, revision)
    ensures AtMostTop(f, revision) ==> AtMostTop(h, revision)
  {
    if f.revisions != map[] {
      var n :| n in f.revisions && n.revision == TopRevision(f);
      TopIsAtLeast(h, n);
    }
  }

  // ------------------------------------------------------------------ the invariant

  ghost predicate BornWithRevision(f: Files) { f.revisions == map[] ==> HoldsNothing(f) }

  /** Every object checks, and something is stored only under a revision. */
  ghost predicate StoreInv(g: Grammar, f: Files) {
    ObjectsOk(g, f) && CrossChecked(f) && BornWithRevision(f)
  }

  /** The audit holds the record's digest and names a receipt for its revision and hash
      whose retention had elapsed when the record was deleted. */
  predicate Accounts(f: Files, a: Audit, r: Record) {
    && a.objectDigest == r && a.revision == r.revision && a.catalogHash == r.catalogHash
    && Backed(f, a) && f.receipts[a.releaseId].releaseRetentionUntil <= a.deletedAt
  }

  ghost predicate AuditAccounts(f: Files, r: Record) {
    exists id :: id in f.audits && Accounts(f, f.audits[id], r)
  }

  // ------------------------------------------------------------------ one write

  ghost predicate HasOther(f: Files, name: HistoryName) {
    exists n :: n in f.revisions && n != name
  }

  /** A write that keeps the objects checked; a conserving one keeps the history as well. */
  ghost predicate SafeWrite(g: Grammar, f: Files, w: Write, conserving: bool) {
    match w
    case PutIndex(_) => true
    case PutRevision(r) => RecordOk(g, r) && forall n :: n in f.revisions ==> n.revision < r.revision
    case PutReceipt(r) =>
      ReceiptOk(g, r) && r.releaseId !in f.receipts && HistoryName(r.catalogRevision, r.catalogHash) in f.revisions
    case PutAudit(a) =>
      && AuditOk(g, a) && a.deleteId !in f.audits && Backed(f, a)
      && (forall id :: id in f.audits ==> f.audits[id].revision != a.revision)
      && (conserving ==> Accounts(f, a, a.objectDigest) && BelowTop(f, a.revision))
    case DropRevision(n) =>
      && n in f.revisions && Audited(f, n.revision) && HasOther(f, n)
      && (conserving ==> AuditAccounts(f, f.revisions[n]))
  }

  /** Receipts and audits are never dropped or rewritten. */
  ghost predicate Keeps(f: Files, h: Files) {
    && (forall id :: id in f.receipts ==> id in h.receipts && h.receipts[id] == f.receipts[id])
    && (forall id :: id in f.audits ==> id in h.audits && h.audits[id] == f.audits[id])
  }

  lemma SafeWriteKeeps(g: Grammar, f: Files, w: Write)
    requires SafeWrite(g, f, w, false)
    ensures Keeps(f, Apply(f, w))
  {
  }

  lemma ObjectsOkKept(g: Grammar, f: Files, w: Write)
    requires ObjectsOk(g, f) && SafeWrite(g, f, w, false)
    ensures ObjectsOk(g, Apply(f, w))
  {
  }

  lemma UniqueRevisionsKept(g: Grammar, f: Files, w: Write)
    requires UniqueRevisions(f) && SafeWrite(g, f, w, false)
    ensures UniqueRevisions(Apply(f, w))
  {
    var h := Apply(f, w);
    forall n, m | n in h.revisions && m in h.revisions && n.revision == m.revision ensures n == m {
      if w.PutRevision? {
        assert n in f.revisions || n == NameOf(w.record);
        assert m in f.revisions || m == NameOf(w.record);
      } else {
        assert n in f.revisions && m in f.revisions;
      }
    }
  }

  lemma OneAuditKept(g: Grammar, f: Files, w: Write)
    requires OneAuditPerRevision(f) && SafeWrite(g, f, w, false)
    ensures OneAuditPerRevision(Apply(f, w))
  {
  }

  lemma AuditsBackedKept(g: Grammar, f: Files, w: Write)
    requires AuditsBacked(f) && SafeWrite(g, f, w, false)
    ensures AuditsBacked(Apply(f, w))
  {
    var h := Apply(f, w);
    SafeWriteKeeps(g, f, w);
    forall id | id in h.audits ensures Backed(h, h.audits[id]) {
      assert Backed(f, h.audits[id]);
    }
  }

  ghost predicate Covered(f: Files, r: Receipt) {
    HistoryName(r.catalogRevision, r.catalogHash) in f.revisions || Audited(f, r.catalogRevision)
  }

  lemma CoveredKept(g: Grammar, f: Files, w: Write, r: Receipt)
    requires SafeWrite(g, f, w, false) && Covered(f, r)
    ensures Covered(Apply(f, w), r)
  {
    var h := Apply(f, w);
    SafeWriteKeeps(g, f, w);
    if Audited(f, r.catalogRevision) {
      var a :| a in f.audits && f.audits[a].revision == r.catalogRevision;
      assert a in h.audits;
    }
  }

  lemma ReceiptsCoveredKept(g: Grammar, f: Files, w: Write)
    requires SafeWrite(g, f, w, false) && ReceiptsCovered(f)
    ensures ReceiptsCovered(Apply(f, w))
  {
    var h := Apply(f, w);
    forall id | id in h.receipts ensures Covered(h, h.receipts[id]) {
      if id in f.receipts && h.receipts[id] == f.receipts[id] {
        assert Covered(f, f.receipts[id]);
        CoveredKept(g, f, w, f.receipts[id]);
      }
    }
  }

  lemma BornKept(g: Grammar, f: Files, w: Write)
    requires SafeWrite(g, f, w, false) && BornWithRevision(f)
    ensures BornWithRevision(Apply(f, w))
    ensures f.revisions != map[] || w.PutRevision? ==> Apply(f, w).revisions != map[]
  {
    var h := Apply(f, w);
    if w.DropRevision? {
      var n :| n in f.revisions && n != w.name;
      assert n in h.revisions;
    } else if w.PutRevision? {
      assert NameOf(w.record) in h.revisions;
    } else if f.revisions != map[] {
      var n :| n in f.revisions;
      assert n in h.revisions;
    }
  }

  lemma SafeWriteKeepsStore(g: Grammar, f: Files, w: Write)
    requires StoreInv(g, f) && SafeWrite(g, f, w, false)
    ensures StoreInv(g, Apply(f, w))
    ensures f.revisions != map[] || w.PutRevision? ==> Apply(f, w).revisions != map[]
  {
    ObjectsOkKept(g, f, w);
    UniqueRevisionsKept(g, f, w);
    AuditsBackedKept(g, f, w);
    OneAuditKept(g, f, w);
    ReceiptsCoveredKept(g, f, w);
    BornKept(g, f, w);
  }

  // ------------------------------------------------------------------ the writes of an operation are safe

  ghost predicate AllSafe(g: Grammar, f: Files, ws: seq<Write>, conserving: bool) {
    forall k :: 0 <= k < |ws| ==> SafeWrite(g, ApplyAll(f, ws[..k]), ws[k], conserving)
  }

  lemma AllSafeAppend(g: Grammar, f: Files, ws: seq<Write>, w: Write, conserving: bool)
    requires AllSafe(g, f, ws, conserving) && SafeWrite(g, ApplyAll(f, ws), w, conserving)
    ensures AllSafe(g, f, ws + [w], conserving)
  {
    var vs := ws + [w];
    forall k | 0 <= k < |vs| ensures SafeWrite(g, ApplyAll(f, vs[..k]), vs[k], conserving) {
      assert vs[..k] == ws[..k];
      assert ws[..|ws|] == ws;
    }
  }

  lemma AllSafeOne(g: Grammar, f: Files, w: Write, conserving: bool)
    requires SafeWrite(g, f, w, conserving)
    ensures AllSafe(g, f, [w], conserving)
  {
    AllSafeAppend(g, f, [], w, conserving);
    assert [] + [w] == [w];
  }

  lemma AllSafeAfterIndex(g: Grammar, f: Files, i: Index, ws: seq<Write>, conserving: bool)
    requires AllSafe(g, Apply(f, PutIndex(i)), ws, conserving)
    ensures AllSafe(g, f, [PutIndex(i)] + ws, conserving)
  {
    var vs := [PutIndex(i)] + ws;
    forall k | 0 <= k < |vs| ensures SafeWrite(g, ApplyAll(f, vs[..k]), vs[k], conserving) {
      if k > 0 {
        assert vs[..k] == [PutIndex(i)] + ws[..k - 1];
        ApplyAllConcat(f, [PutIndex(i)], ws[..k - 1]);
        ApplyAllAppend(f, [], PutIndex(i));
        assert [] + [PutIndex(i)] == [PutIndex(i)];
      }
    }
  }

  /** The current catalog is that of a stored record above all others. */
  lemma CurrentRecord(g: Grammar, f: Files) returns (top: HistoryName)
    requires ObjectsOk(g, f) && f.revisions != map[]
    ensures IsTop(f, top) && CurrentOf(f) == f.revisions[top].catalog
    ensures top == HistoryName(CurrentOf(f).revision, CurrentOf(f).catalogHash)
  {
    TopExists(f);
    top :| IsTop(f, top) && CurrentOf(f) == f.revisions[top].catalog;
  }

  lemma StoredRecordIsSafe(g: Grammar, f: Files, r: Result<Catalog>, storedAt: int, conserving: bool)
    requires r.Ok? ==> CatalogOk(g, r.value) && forall n :: n in f.revisions ==> n.revision < r.value.revision
    ensures StoreRecord(r, storedAt).Some? ==> AllSafe(g, f, StoreRecord(r, storedAt).value, conserving)
  {
    if r.Ok? {
      AllSafeOne(g, f, StoreRecord(r, storedAt).value[0], conserving);
    }
  }

  lemma UpdateIsAboveAll(g: Grammar, f: Files, u: Update)
    requires ObjectsOk(g, f) && f.revisions != map[] && UpdateResult(g, CurrentOf(f), u).Ok?
    ensures CatalogOk(g, UpdateResult(g, CurrentOf(f), u).value)
    ensures forall n :: n in f.revisions ==> n.revision < UpdateResult(g, CurrentOf(f), u).value.revision
  {
    var top := CurrentRecord(g, f);
    UpdateStep(g, CurrentOf(f), u, "");
  }

  lemma CollectedHasOther(g: Grammar, f: Files, op: Op)
    requires op.GcOp? && GcCollects(g, f, op)
    ensures op.releaseId in f.receipts
    ensures var name := HistoryName(f.receipts[op.releaseId].catalogRevision, f.receipts[op.releaseId].catalogHash);
            name in f.revisions && HasOther(f, name)
  {
    var name := HistoryName(f.receipts[op.releaseId].catalogRevision, f.receipts[op.releaseId].catalogHash);
    assert f.revisions.Keys == (f.revisions.Keys - {name}) + {name};
    assert |f.revisions.Keys| == |f.revisions|;
    assert |f.revisions.Keys - {name}| > 0;
    var n :| n in f.revisions.Keys - {name};
  }

  lemma GcWritesAreSafe(g: Grammar, f: Files, op: Op, conserving: bool)
    requires op.GcOp? && ObjectsOk(g, f) && GcWrites(g, f, op).Some?
    requires !Locks(g, f, op) && (conserving ==> GcBelowCurrent(f, op))
    ensures AllSafe(g, f, GcWrites(g, f, op).value, conserving)
  {
    if GcCollects(g, f, op) {
      CollectedHasOther(g, f, op);
      CollectionIsSafe(g, f, op, conserving);
    }
  }

  lemma CollectionIsSafe(g: Grammar, f: Files, op: Op, conserving: bool)
    requires op.GcOp? && ObjectsOk(g, f) && GcCollects(g, f, op) && GcSameDeleteId(f, op)
    requires conserving ==> GcBelowCurrent(f, op)
    requires HasOther(f, HistoryName(f.receipts[op.releaseId].catalogRevision, f.receipts[op.releaseId].catalogHash))
    ensures AllSafe(g, f, GcWrites(g, f, op).value, conserving)
  {
    var receipt := f.receipts[op.releaseId];
    var name := HistoryName(receipt.catalogRevision, receipt.catalogHash);
    var audit := CollectRevision(g, f.revisions[name], receipt, op.refs, op.deleteId, op.ownerCommandId, op.deletedAt,
                                 op.reason).value;
    assert Accounts(f, audit, f.revisions[name]);
    if op.deleteId !in f.audits {
      var h := Apply(f, PutAudit(audit));
      assert op.deleteId in h.audits && Accounts(h, h.audits[op.deleteId], h.revisions[name]);
      var n :| n in f.revisions && n != name;
      assert n in h.revisions;
      TwoSafe(g, f, PutAudit(audit), DropRevision(name), conserving);
    } else {
      assert f.audits[op.deleteId] == audit;
      AllSafeOne(g, f, DropRevision(name), conserving);
    }
  }

  lemma TwoSafe(g: Grammar, f: Files, a: Write, b: Write, conserving: bool)
    requires SafeWrite(g, f, a, conserving) && SafeWrite(g, Apply(f, a), b, conserving)
    ensures AllSafe(g, f, [a, b], conserving)
  {
    AllSafeOne(g, f, a, conserving);
    ApplyAllAppend(f, [], a);
    assert [] + [a] == [a] && [a] + [b] == [a, b];
    AllSafeAppend(g, f, [a], b, conserving);
  }

  lemma ObjectWritesAreSafe(g: Grammar, f: Files, op: Op, conserving: bool)
    requires ObjectsOk(g, f) && ObjectWrites(g, f, op).Some?
    requires !Locks(g, f, op) && (conserving ==> GcBelowCurrent(f, op))
    ensures AllSafe(g, f, ObjectWrites(g, f, op).value, conserving)
  {
    match op
    case OpenOp =>
    case RebuildOp =>
    case BootstrapOp(payload, storedAt) =>
      StoredRecordIsSafe(g, f, SealRuntimeCatalog(g, payload), storedAt, conserving);
    case AppendOp(expected, next, refs, storedAt) =>
      if AppendRevision(g, CurrentOf(f), expected, next, refs).Ok? {
        UpdateIsAboveAll(g, f, AppendUpdate(expected, next, refs));
      }
      StoredRecordIsSafe(g, f, AppendRevision(g, CurrentOf(f), expected, next, refs), storedAt, conserving);
    case RevokeOp(pin, key, v, storedAt) =>
      if RevokeEntry(g, CurrentOf(f), pin, key, v).Ok? { UpdateIsAboveAll(g, f, RevokeUpdate(pin, key, v)); }
      StoredRecordIsSafe(g, f, RevokeEntry(g, CurrentOf(f), pin, key, v), storedAt, conserving);
    case ReleaseOp(entryKey, refs, releaseId, owner, drainedAt, releasedAt) =>
      var top := CurrentRecord(g, f);
      AllSafeOne(g, f, ObjectWrites(g, f, op).value[0], conserving);
    case GcOp(_, _, _, _, _, _) => GcWritesAreSafe(g, f, op, conserving);
  }

  lemma PlanIsSafe(g: Grammar, f: Files, op: Op, ws: seq<Write>, conserving: bool)
    requires ObjectsOk(g, f) && Plan(g, f, op, ws) && !Locks(g, f, op) && (conserving ==> GcBelowCurrent(f, op))
    ensures AllSafe(g, f, ws, conserving)
  {
    if ObjectWrites(g, f, op).Some? {
      var objects := ObjectWrites(g, f, op).value;
      ObjectWritesAreSafe(g, f, op, conserving);
      if ws != objects {
        AllSafeAppend(g, f, objects, ws[|objects|], conserving);
        assert ws == objects + [ws[|objects|]];
      }
    }
  }

  lemma LocksSameObjects(g: Grammar, f: Files, h: Files, op: Op)
    requires SameObjects(f, h)
    ensures Locks(g, h, op) <==> Locks(g, f, op)
    ensures GcBelowCurrent(f, op) ==> GcBelowCurrent(h, op)
  {
    if op.GcOp? {
      assert GcWrites(g, h, op) == GcWrites(g, f, op);
      if op.releaseId in f.receipts { SameObjectsTop(f, h, f.receipts[op.releaseId].catalogRevision); }
    }
  }

  lemma RepairedPlanIsSafe(g: Grammar, f: Files, op: Op, i: Index, ws: seq<Write>, conserving: bool)
    requires ObjectsOk(g, f) && Plan(g, Apply(f, PutIndex(i)), op, ws) && !Locks(g, f, op)
             && (conserving ==> GcBelowCurrent(f, op))
    ensures AllSafe(g, f, [PutIndex(i)] + ws, conserving)
  {
    var h := Apply(f, PutIndex(i));
    LocksSameObjects(g, f, h, op);
    PlanIsSafe(g, h, op, ws, conserving);
    AllSafeAfterIndex(g, f, i, ws, conserving);
  }

  /** What an operation that opens the store performs: nothing, its plan, or a repaired
      index and then its plan. */
  ghost predicate PerformedAs(g: Grammar, f: Files, op: Op, ws: seq<Write>) {
    || ws == []
    || (NeedsRepair(f, op) && ws[0].PutIndex? && IsRefresh(f, ws[0])
        && ws == [PutIndex(ws[0].index)] + ws[1..] && Plan(g, Apply(f, PutIndex(ws[0].index)), op, ws[1..]))
    || (!NeedsRepair(f, op) && Plan(g, f, op, ws))
  }

  lemma PerformedRepair(g: Grammar, f: Files, op: Op, ws: seq<Write>)
    requires Performs(g, f, op, ws) && ws != [] && NeedsRepair(f, op)
    ensures ws[0].PutIndex? && IsRefresh(f, ws[0]) && Plan(g, Apply(f, PutIndex(ws[0].index)), op, ws[1..])
  {
  }

  lemma PerformedPlan(g: Grammar, f: Files, op: Op, ws: seq<Write>)
    requires Performs(g, f, op, ws) && ws != [] && !NeedsRepair(f, op)
    ensures Plan(g, f, op, ws)
  {
  }

  lemma PerformedParts(g: Grammar, f: Files, op: Op, ws: seq<Write>)
    requires Performs(g, f, op, ws)
    ensures PerformedAs(g, f, op, ws)
  {
    if ws == [] {
    } else if NeedsRepair(f, op) {
      PerformedRepair(g, f, op, ws);
      assert ws == [PutIndex(ws[0].index)] + ws[1..];
    } else {
      PerformedPlan(g, f, op, ws);
    }
  }

  lemma PerformedWritesAreSafe(g: Grammar, f: Files, op: Op, ws: seq<Write>, conserving: bool)
    requires ObjectsOk(g, f) && Performs(g, f, op, ws) && !Locks(g, f, op) && (conserving ==> GcBelowCurrent(f, op))
    ensures AllSafe(g, f, ws, conserving)
  {
    PerformedParts(g, f, op, ws);
    if ws == [] {
    } else if NeedsRepair(f, op) {
      RepairedPlanIsSafe(g, f, op, ws[0].index, ws[1..], conserving);
    } else {
      PlanIsSafe(g, f, op, ws, conserving);
    }
  }

  /** Cut short after any of its writes, a safe list keeps the store's invariant. */
  lemma {:induction false} SafeWritesKeepStore(g: Grammar, f: Files, ws: seq<Write>, k: nat)
    requires StoreInv(g, f) && AllSafe(g, f, ws, false) && k <= |ws|
    ensures StoreInv(g, ApplyAll(f, ws[..k]))
    ensures f.revisions != map[] || (k > 0 && ws[0].PutRevision?) ==> ApplyAll(f, ws[..k]).revisions != map[]
    decreases k
  {
    if k > 0 {
      SafeWritesKeepStore(g, f, ws, k - 1);
      assert ws[..k][..k - 1] == ws[..k - 1];
      SafeWriteKeepsStore(g, ApplyAll(f, ws[..k - 1]), ws[k - 1]);
    }
  }

  // ------------------------------------------------------------------ a second audit

  /** Two audits for one revision: no open, no rebuild and no operation ever gets past them. */
  lemma TwoAuditsLockTheStore(g: Grammar, f: Files)
    requires !OneAuditPerRevision(f)
    ensures OpenSpec(g, f).Refused? && RebuildSpec(g, f).Refused?
    ensures ObjectsOk(g, f) ==> OpenSpec(g, f) == Refused(WASM_CATALOG_STORE_DIVERGENT)
    ensures forall op, ws :: Performs(g, f, op, ws) ==> ws == []
  {
    RebuildLooksAtObjects(g, f);
  }

  /** Objects that check one by one, but are locked by a second audit. */
  ghost predicate Locked(g: Grammar, f: Files) { ObjectsOk(g, f) && !OneAuditPerRevision(f) }

  lemma SecondAuditLocks(g: Grammar, f: Files, audit: Audit, id: string)
    requires ObjectsOk(g, f) && AuditOk(g, audit)
    requires id in f.audits && f.audits[id].revision == audit.revision && id != audit.deleteId
    ensures Locked(g, Apply(f, PutAudit(audit)))
  {
    var h := Apply(f, PutAudit(audit));
    assert id in h.audits && audit.deleteId in h.audits && h.audits[id].revision == h.audits[audit.deleteId].revision;
  }

  /** The second audit is the first thing stored. */
  lemma LockingForms(g: Grammar, f: Files, op: Op) returns (audit: Audit, name: HistoryName)
    requires StoreInv(g, f) && Locks(g, f, op)
    ensures ObjectWrites(g, f, op) == Some([PutAudit(audit), DropRevision(name)])
    ensures Locked(g, Apply(f, PutAudit(audit)))
  {
    var receipt := f.receipts[op.releaseId];
    name := HistoryName(receipt.catalogRevision, receipt.catalogHash);
    audit := CollectRevision(g, f.revisions[name], receipt, op.refs, op.deleteId, op.ownerCommandId, op.deletedAt,
                             op.reason).value;
    var id :| id in f.audits && f.audits[id].revision == receipt.catalogRevision && id != op.deleteId;
    SecondAuditLocks(g, f, audit, id);
  }

  /** The rest of a collection's plan, after its audit. */
  ghost predicate DropsAndIndexes(ws: seq<Write>) {
    forall k :: 0 <= k < |ws| ==> ws[k].DropRevision? || ws[k].PutIndex?
  }

  lemma {:induction false} StaysLocked(g: Grammar, f: Files, ws: seq<Write>)
    requires Locked(g, f) && DropsAndIndexes(ws)
    ensures Locked(g, ApplyAll(f, ws))
    decreases |ws|
  {
    if ws != [] {
      StaysLocked(g, f, ws[..|ws| - 1]);
      var before, after := ApplyAll(f, ws[..|ws| - 1]), ApplyAll(f, ws);
      assert before.audits == after.audits && before.receipts == after.receipts;
    }
  }

  lemma LockedFromFirst(g: Grammar, f: Files, a: Write, rest: seq<Write>, k: nat)
    requires Locked(g, Apply(f, a)) && DropsAndIndexes(rest) && k <= |rest|
    ensures Locked(g, ApplyAll(f, ([a] + rest)[..k + 1]))
  {
    assert ([a] + rest)[..k + 1] == [a] + rest[..k];
    ApplyAllConcat(f, [a], rest[..k]);
    assert [a] == [] + [a];
    ApplyAllAppend(f, [], a);
    StaysLocked(g, Apply(f, a), rest[..k]);
  }

  lemma PlanOfTwo(f: Files, a: Write, b: Write, ws: seq<Write>)
    requires PlanOf(f, Some([a, b]), ws) && b.DropRevision?
    ensures ws != [] && ws == [a] + ws[1..] && DropsAndIndexes(ws[1..])
  {
    if ws != [a, b] {
      assert ws[..2] == [a, b];
      assert ws[0] == ws[..2][0] && ws[1] == ws[..2][1];
    }
  }

  lemma LockedPlan(g: Grammar, f: Files, audit: Audit, name: HistoryName, ws: seq<Write>, k: nat)
    requires Locked(g, Apply(f, PutAudit(audit))) && PlanOf(f, Some([PutAudit(audit), DropRevision(name)]), ws)
    requires 0 < k <= |ws|
    ensures Locked(g, ApplyAll(f, ws[..k]))
  {
    PlanOfTwo(f, PutAudit(audit), DropRevision(name), ws);
    LockedFromFirst(g, f, PutAudit(audit), ws[1..], k - 1);
  }

  /** Every non-empty prefix of a locking collection's writes locks the store. */
  lemma LockingPlanLocks(g: Grammar, f: Files, op: Op, ws: seq<Write>, k: nat)
    requires StoreInv(g, f) && Locks(g, f, op) && Plan(g, f, op, ws) && 0 < k <= |ws|
    ensures Locked(g, ApplyAll(f, ws[..k]))
  {
    var audit, name := LockingForms(g, f, op);
    LockedPlan(g, f, audit, name, ws, k);
  }

  // ------------------------------------------------------------------ whole runs

  /** Checked, or locked by a second audit. */
  ghost predicate RunInv(g: Grammar, f: Files) { StoreInv(g, f) || Locked(g, f) }

  /** An operation that stopped after `done` of its writes, or an index file lost or replaced
      by anything at all between two operations. */
  datatype Step =
    | Operation(op: Op, writes: seq<Write>, done: nat)
    | IndexDamaged(index: IndexFile)

  ghost predicate StepOk(g: Grammar, f: Files, s: Step) {
    s.Operation? ==> Performs(g, f, s.op, s.writes) && s.done <= |s.writes|
  }

  function StepFiles(f: Files, s: Step): Files {
    match s
    case Operation(_, writes, done) => if done <= |writes| then ApplyAll(f, writes[..done]) else f
    case IndexDamaged(i) => f.(index := i)
  }

  ghost predicate ValidHistory(g: Grammar, f: Files, steps: seq<Step>)
    decreases |steps|
  {
    steps != [] ==> StepOk(g, f, steps[0]) && ValidHistory(g, StepFiles(f, steps[0]), steps[1..])
  }

  function FilesAfter(f: Files, steps: seq<Step>): Files
    decreases |steps|
  {
    if steps == [] then f else FilesAfter(StepFiles(f, steps[0]), steps[1..])
  }

  lemma AfterIndex(f: Files, i: Index, ws: seq<Write>, k: nat)
    requires k <= |ws|
    ensures ApplyAll(f, ([PutIndex(i)] + ws)[..k + 1]) == ApplyAll(Apply(f, PutIndex(i)), ws[..k])
    ensures ApplyAll(f, [PutIndex(i)] + ws) == ApplyAll(Apply(f, PutIndex(i)), ws)
  {
    assert ([PutIndex(i)] + ws)[..k + 1] == [PutIndex(i)] + ws[..k];
    ApplyAllConcat(f, [PutIndex(i)], ws[..k]);
    ApplyAllConcat(f, [PutIndex(i)], ws);
    assert [PutIndex(i)] == [] + [PutIndex(i)];
    ApplyAllAppend(f, [], PutIndex(i));
  }

  lemma SameObjectsStore(g: Grammar, f: Files, h: Files)
    requires SameObjects(f, h)
    ensures StoreInv(g, f) ==> StoreInv(g, h)
    ensures Locked(g, f) ==> Locked(g, h)
  {
    if StoreInv(g, f) { SameObjectsCrossChecked(f, h); }
  }

  lemma CutPlanKeepsInv(g: Grammar, f: Files, op: Op, ws: seq<Write>, k: nat)
    requires StoreInv(g, f) && Plan(g, f, op, ws) && k <= |ws|
    ensures RunInv(g, ApplyAll(f, ws[..k]))
  {
    if !Locks(g, f, op) {
      PlanIsSafe(g, f, op, ws, false);
      SafeWritesKeepStore(g, f, ws, k);
    } else if k > 0 {
      LockingPlanLocks(g, f, op, ws, k);
    }
  }

  lemma CutKeepsInv(g: Grammar, f: Files, op: Op, ws: seq<Write>, k: nat)
    requires StoreInv(g, f) && PerformedAs(g, f, op, ws) && k <= |ws|
    ensures RunInv(g, ApplyAll(f, ws[..k]))
  {
    if k == 0 {
    } else if NeedsRepair(f, op) {
      var h := Apply(f, PutIndex(ws[0].index));
      SameObjectsStore(g, f, h);
      AfterIndex(f, ws[0].index, ws[1..], k - 1);
      CutPlanKeepsInv(g, h, op, ws[1..], k - 1);
    } else {
      CutPlanKeepsInv(g, f, op, ws, k);
    }
  }

  lemma StepKeepsInv(g: Grammar, f: Files, s: Step)
    requires RunInv(g, f) && StepOk(g, f, s)
    ensures RunInv(g, StepFiles(f, s))
  {
    if s.IndexDamaged? {
      SameObjectsStore(g, f, StepFiles(f, s));
    } else if StoreInv(g, f) {
      PerformedParts(g, f, s.op, s.writes);
      CutKeepsInv(g, f, s.op, s.writes, s.done);
    } else {
      TwoAuditsLockTheStore(g, f);
    }
  }

  lemma NothingIsStored(g: Grammar)
    ensures RunInv(g, NO_FILES)
  {
  }

  /** Over every run, crashes and damaged indexes included, the objects check or a second
      audit locks the store. */
  lemma {:induction false} RunKeepsInv(g: Grammar, f: Files, steps: seq<Step>)
    requires RunInv(g, f) && ValidHistory(g, f, steps)
    ensures RunInv(g, FilesAfter(f, steps))
    decreases |steps|
  {
    if steps != [] {
      StepKeepsInv(g, f, steps[0]);
      RunKeepsInv(g, StepFiles(f, steps[0]), steps[1..]);
    }
  }
}
