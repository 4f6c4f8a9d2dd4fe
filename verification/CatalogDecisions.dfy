/** When an owner's update, release or collection is accepted, with which answer, and what
    a repeated release finds. */
module CatalogDecisions {
  import opened Basics
  import opened ByteOrder
  import opened RuntimeCatalog
  import opened CatalogIndex
  import opened CatalogFiles
  import opened CatalogSafety
  import opened CatalogCrash

  // ------------------------------------------------------------------ sealing

  /** A payload is sealed exactly with a revision of 1 to 2^53 - 1 and at most 128 valid entries
      in strictly ascending order of the codes of their keys. */
  lemma SealDecides(g: Grammar, p: Payload)
    ensures SealRuntimeCatalog(g, p) ==
            if && 1 <= p.revision <= 9007199254740991 && |p.entries| <= 128
               && (forall e :: e in p.entries ==> g.entryOk(e))
               && forall i, k :: 0 <= i < k < |p.entries| ==>
                    LexLess(Codes(p.entries[i].entryKey), Codes(p.entries[k].entryKey))
            then Ok(Catalog(p.revision, p.entries, CatalogHash(p))) else Err("WASM_CATALOG_INVALID")
  {
    assert (forall e :: e in p.entries ==> g.entryOk(e)) <==>
           forall i :: 0 <= i < |p.entries| ==> g.entryOk(p.entries[i]);
    assert forall i, k :: 0 <= i < k < |p.entries| ==>
        (Before(p.entries[i].entryKey, p.entries[k].entryKey)
         <==> LexLess(Codes(p.entries[i].entryKey), Codes(p.entries[k].entryKey)));
  }

  // ------------------------------------------------------------------ append

  ghost predicate Lists(entries: seq<Entry>, key: string) { exists e :: e in entries && e.entryKey == key }

  ghost predicate Refers(refs: seq<Reference>, key: string) { exists r :: r in refs && r.entryKey == key }

  /** A listed key that something refers to is listed no more. */
  ghost predicate DropsReferenced(current: seq<Entry>, next: seq<Entry>, refs: seq<Reference>) {
    exists e :: e in current && Refers(refs, e.entryKey) && !Lists(next, e.entryKey)
  }

  /** A revoked entry is listed again with another status. */
  ghost predicate ChangesRevocation(current: seq<Entry>, next: seq<Entry>) {
    exists e, x :: e in current && x in next && e.status.Revoked? && x.entryKey == e.entryKey && x.status != e.status
  }

  lemma ListsIff(entries: seq<Entry>, key: string)
    ensures HasKey(entries, key) <==> Lists(entries, key)
  {
    if e :| e in entries && e.entryKey == key { var i :| 0 <= i < |entries| && entries[i] == e; }
    if i :| 0 <= i < |entries| && entries[i].entryKey == key { assert entries[i] in entries; }
  }

  lemma RefersIff(refs: seq<Reference>, key: string)
    ensures IsProtected(refs, key) <==> Refers(refs, key)
  {
    if r :| r in refs && r.entryKey == key { var i :| 0 <= i < |refs| && refs[i] == r; }
    if i :| 0 <= i < |refs| && refs[i].entryKey == key { assert refs[i] in refs; }
  }

  lemma DropsIff(current: seq<Entry>, next: seq<Entry>, refs: seq<Reference>)
    ensures DropsProtected(current, next, refs) <==> DropsReferenced(current, next, refs)
  {
    forall e | e in current
      ensures HasKey(next, e.entryKey) <==> Lists(next, e.entryKey)
      ensures IsProtected(refs, e.entryKey) <==> Refers(refs, e.entryKey)
    {
      ListsIff(next, e.entryKey);
      RefersIff(refs, e.entryKey);
    }
    if DropsProtected(current, next, refs) {
      var i :| 0 <= i < |current| && IsProtected(refs, current[i].entryKey) && !HasKey(next, current[i].entryKey);
      assert current[i] in current;
    }
    if DropsReferenced(current, next, refs) {
      var e :| e in current && Refers(refs, e.entryKey) && !Lists(next, e.entryKey);
      var i :| 0 <= i < |current| && current[i] == e;
    }
  }

  lemma ChangesIff(current: seq<Entry>, next: seq<Entry>)
    requires SortedByKey(next)
    ensures RegressesRevocation(current, next) <==> ChangesRevocation(current, next)
  {
    if RegressesRevocation(current, next) {
      var i :| 0 <= i < |current| && current[i].status.Revoked? &&
        var k := FindEntry(next, current[i].entryKey); k < |next| && next[k].status != current[i].status;
      var k := FindEntry(next, current[i].entryKey);
      assert current[i] in current && next[k] in next;
    }
    if ChangesRevocation(current, next) {
      var e, x :| e in current && x in next && e.status.Revoked? && x.entryKey == e.entryKey && x.status != e.status;
      var i :| 0 <= i < |current| && current[i] == e;
      var k :| 0 <= k < |next| && next[k] == x;
      FindEntryAt(next, k);
    }
  }

  /** An append is accepted exactly under the current pin, for a valid payload one revision up
      that drops nothing referred to and changes no revocation, and then seals that payload; the
      codes come in this order. */
  lemma AppendDecides(g: Grammar, current: Catalog, expected: Pin, next: Payload, refs: seq<Reference>)
    ensures AppendRevision(g, current, expected, next, refs) ==
            if !(1 <= expected.revision <= 9007199254740991) then Err("WASM_CATALOG_INVALID")
            else if expected.revision != current.revision || expected.catalogHash != current.catalogHash
            then Err("CATALOG_REVISION_CONFLICT")
            else if !PayloadOk(g, next) then Err("WASM_CATALOG_INVALID")
            else if next.revision != current.revision + 1 then Err("CATALOG_REVISION_CONFLICT")
            else if DropsReferenced(current.entries, next.entries, refs) then Err("WASM_CATALOG_ENTRY_PROTECTED")
            else if ChangesRevocation(current.entries, next.entries) then Err("WASM_CATALOG_REVOCATION_REGRESSION")
            else Ok(Catalog(next.revision, next.entries, CatalogHash(next)))
  {
    DropsIff(current.entries, next.entries, refs);
    if PayloadOk(g, next) { ChangesIff(current.entries, next.entries); }
  }

  // ------------------------------------------------------------------ revoke

  /** A revocation is refused for a bad key or revocation, for a key not listed, for an entry
      revoked already, for a stale pin, and at the last revision; nothing else stands against it. */
  lemma RevokeDecides(g: Grammar, current: Catalog, expected: Pin, key: string, v: Revocation)
    requires GrammarLaws(g) && CatalogOk(g, current)
    ensures var r := RevokeEntry(g, current, expected, key, v);
            if !g.entryKeyOk(key) || !g.revocationOk(v) then r == Err("WASM_CATALOG_INVALID")
            else if !Lists(current.entries, key) then r == Err("WASM_CATALOG_ENTRY_NOT_FOUND")
            else if exists e :: e in current.entries && e.entryKey == key && e.status.Revoked?
            then r == Err("WASM_CATALOG_ENTRY_ALREADY_REVOKED")
            else if 1 <= expected.revision <= 9007199254740991
                    && (expected.revision != current.revision || expected.catalogHash != current.catalogHash)
            then r == Err("CATALOG_REVISION_CONFLICT")
            else r.Ok? <==> expected.revision == current.revision && current.revision < 9007199254740991
  {
    ListsIff(current.entries, key);
    var i := FindEntry(current.entries, key);
    if i < |current.entries| {
      forall e | e in current.entries && e.entryKey == key ensures e == current.entries[i] {
        var k :| 0 <= k < |current.entries| && current.entries[k] == e;
        KeyIsUnique(current.entries, i, k);
      }
      assert current.entries[i] in current.entries;
      if current.entries[i].status == Active && g.revocationOk(v) { RevokeSucceeds(g, current, i, v); }
    }
  }

  // ------------------------------------------------------------------ release

  /** What a release's receipt says: the request's own fields, the catalog it was made against,
      and a year of retention. */
  predicate ReceiptSays(
    r: Receipt, catalog: Catalog, entryKey: string, releaseId: string, owner: string, drainedAt: int, releasedAt: int)
  {
    && r.entryKey == entryKey && r.releaseId == releaseId && r.ownerCommandId == owner
    && r.drainedAt == drainedAt && r.releasedAt == releasedAt
    && r.releaseRetentionUntil == releasedAt + 31536000000
    && r.catalogRevision == catalog.revision && r.catalogHash == catalog.catalogHash
  }

  /** A release is granted exactly for a listed entry nothing refers to, with valid ids and times
      in order; its receipt says what was asked. */
  lemma ReleaseDecides(
    g: Grammar, catalog: Catalog, entryKey: string, refs: seq<Reference>,
    releaseId: string, owner: string, drainedAt: int, releasedAt: int)
    requires GrammarLaws(g) && CatalogOk(g, catalog)
    ensures var r := ReleaseEntry(g, catalog, entryKey, refs, releaseId, owner, drainedAt, releasedAt);
            if !Lists(catalog.entries, entryKey) then r == Err("WASM_CATALOG_ENTRY_NOT_FOUND")
            else if Refers(refs, entryKey) then r == Err("WASM_CATALOG_ENTRY_PROTECTED")
            else if g.uuidOk(releaseId) && g.uuidOk(owner) && drainedAt <= releasedAt
            then r.Ok? && ReceiptSays(r.value, catalog, entryKey, releaseId, owner, drainedAt, releasedAt)
            else r == Err("WASM_CATALOG_RELEASE_INVALID")
  {
    ListsIff(catalog.entries, entryKey);
    RefersIff(refs, entryKey);
    var i := FindEntry(catalog.entries, entryKey);
    if i < |catalog.entries| { assert g.entryOk(catalog.entries[i]); }
  }

  // ------------------------------------------------------------------ collection

  /** A revision is collected exactly with valid ids and reason, under a receipt for this very
      revision and one of its entries, with nothing referring to the revision, once the receipt's
      retention is over; the audit says who deleted what, when and why. */
  lemma CollectDecides(
    g: Grammar, record: Record, receipt: Receipt, refs: seq<Reference>,
    deleteId: string, owner: string, deletedAt: int, reason: string)
    requires RecordOk(g, record) && ReceiptOk(g, receipt)
    ensures var r := CollectRevision(g, record, receipt, refs, deleteId, owner, deletedAt, reason);
            if !g.uuidOk(deleteId) || !g.uuidOk(owner) || !g.reasonOk(reason)
            then r == Err("WASM_CATALOG_DELETE_AUDIT_INVALID")
            else if receipt.catalogRevision != record.revision || receipt.catalogHash != record.catalogHash
                    || !Lists(record.catalog.entries, receipt.entryKey)
            then r == Err("CATALOG_RELEASE_RECEIPT_MISMATCH")
            else if exists x :: x in refs && x.catalogRevision == record.revision
            then r == Err("WASM_CATALOG_ENTRY_PROTECTED")
            else if deletedAt < receipt.releaseRetentionUntil then r == Err("CATALOG_RELEASE_RETENTION_ACTIVE")
            else r == Ok(Audit(deleteId, record.revision, record.catalogHash, receipt.releaseId, owner, deletedAt,
                               reason, record))
  {
    ListsIff(record.catalog.entries, receipt.entryKey);
    if x :| x in refs && x.catalogRevision == record.revision { var i :| 0 <= i < |refs| && refs[i] == x; }
    if i :| 0 <= i < |refs| && refs[i].catalogRevision == record.revision { assert refs[i] in refs; }
  }

  // ------------------------------------------------------------------ asking again

  /** The stored receipt is the one this request asked for. */
  predicate Answers(r: Receipt, op: Op)
    requires op.ReleaseOp?
  {
    && r.releaseId == op.releaseId && r.entryKey == op.entryKey && r.ownerCommandId == op.ownerCommandId
    && r.drainedAt == op.drainedAt && r.releasedAt == op.releasedAt
  }

  /** The request's receipt, or the audit of its completed collection, is there. */
  predicate IsAnswered(f: Files, op: Op) {
    (op.ReleaseOp? && op.releaseId in f.receipts) || (op.GcOp? && GcReplays(f, op))
  }

  lemma AnsweredPlansNothing(g: Grammar, f: Files, op: Op, ws: seq<Write>)
    requires IsAnswered(f, op) && Plan(g, f, op, ws)
    ensures ws == []
  {
  }

  /** An answered request stores no object. */
  lemma AnsweredStoresNothing(g: Grammar, f: Files, op: Op, ws: seq<Write>)
    requires IsAnswered(f, op) && Performs(g, f, op, ws)
    ensures SameObjects(f, ApplyAll(f, ws)) && (ws == [] || (|ws| == 1 && NeedsRepair(f, op) && IsRefresh(f, ws[0])))
  {
    PerformedParts(g, f, op, ws);
    if ws == [] {
    } else if NeedsRepair(f, op) {
      AnsweredRepairs(g, f, op, ws[0].index, ws[1..]);
      OneOrTwo(f, ws);
    } else {
      AnsweredPlansNothing(g, f, op, ws);
    }
  }

  lemma AnsweredRepairs(g: Grammar, f: Files, op: Op, i: Index, ws: seq<Write>)
    requires IsAnswered(f, op) && Plan(g, Apply(f, PutIndex(i)), op, ws)
    ensures ws == []
  {
    assert IsAnswered(Apply(f, PutIndex(i)), op);
    AnsweredPlansNothing(g, Apply(f, PutIndex(i)), op, ws);
  }

  lemma AnsweredOpens(g: Grammar, f: Files, op: Op, ws: seq<Write>)
    requires StoreInv(g, f) && OpenSpec(g, f).Opened? && IsAnswered(f, op) && Performs(g, f, op, ws)
    ensures OpenSpec(g, ApplyAll(f, ws)).Opened?
  {
    AnsweredStoresNothing(g, f, op, ws);
    if ws != [] {
      RepairOpens(g, f, op, ws[0].index);
      OneOrTwo(f, ws);
    }
  }

  lemma NewReceiptWrites(g: Grammar, f: Files, op: Op) returns (r: Receipt)
    requires op.ReleaseOp? && op.releaseId !in f.receipts && ReleaseGranted(g, f, op)
    ensures ObjectWrites(g, f, op) == Some([PutReceipt(r)]) && Answers(r, op) && !Locks(g, f, op)
    ensures ApplyAll(f, [PutReceipt(r)]) == Apply(f, PutReceipt(r))
  {
    r := ReleaseEntry(g, CurrentOf(f), op.entryKey, op.refs, op.releaseId, op.ownerCommandId, op.drainedAt,
                      op.releasedAt).value;
    OneOrTwo(f, [PutReceipt(r)]);
  }

  /** What an operation stored, whatever it did to the index. */
  lemma PerformedObjects(g: Grammar, f: Files, op: Op, ws: seq<Write>, objects: seq<Write>)
    requires StoreInv(g, f) && !Locks(g, f, op) && Performs(g, f, op, ws) && OpenSpec(g, f).Opened?
    requires ObjectWrites(g, f, op) == Some(objects) && objects != [] && !op.RebuildOp?
    ensures ws != [] && SameObjects(ApplyAll(f, objects), ApplyAll(f, ws))
  {
    PerformedParts(g, f, op, ws);
    if NeedsRepair(f, op) {
      RepairedObjects(g, f, op, ws[0].index, ws[1..], objects);
    } else {
      PlannedObjects(g, f, op, ws, objects);
    }
  }

  lemma PlannedObjects(g: Grammar, f: Files, op: Op, ws: seq<Write>, objects: seq<Write>)
    requires StoreInv(g, f) && !Locks(g, f, op) && Plan(g, f, op, ws) && ObjectWrites(g, f, op) == Some(objects)
    ensures SameObjects(ApplyAll(f, objects), ApplyAll(f, ws))
  {
    PlannedObjectsAreSound(g, f, op);
    PlanRefreshes(g, f, objects, ws);
  }

  lemma RepairedObjects(g: Grammar, f: Files, op: Op, i: Index, ws: seq<Write>, objects: seq<Write>)
    requires StoreInv(g, f) && !Locks(g, f, op) && NeedsRepair(f, op) && IsRefresh(f, PutIndex(i))
    requires Plan(g, Apply(f, PutIndex(i)), op, ws) && ObjectWrites(g, f, op) == Some(objects)
    ensures SameObjects(ApplyAll(f, objects), ApplyAll(f, [PutIndex(i)] + ws))
  {
    RepairOpens(g, f, op, i);
    RepairedWrites(g, f, op, i);
    PlannedObjects(g, Apply(f, PutIndex(i)), op, ws, objects);
    ObjectsAfterIndex(f, i, ws, objects);
  }

  lemma ObjectsAfterIndex(f: Files, i: Index, ws: seq<Write>, objects: seq<Write>)
    requires SameObjects(ApplyAll(Apply(f, PutIndex(i)), objects), ApplyAll(Apply(f, PutIndex(i)), ws))
    ensures SameObjects(ApplyAll(f, objects), ApplyAll(f, [PutIndex(i)] + ws))
  {
    AfterIndex(f, i, ws, 0);
    SameObjectsAfter(f, Apply(f, PutIndex(i)), objects);
  }

  /** A release granted once is granted for good: on the files it leaves, the store opens, the
      request finds the receipt it asked for, and asking again stores no other object. */
  lemma ReleaseAgain(g: Grammar, f: Files, op: Op, ws: seq<Write>)
    requires StoreInv(g, f) && OpenSpec(g, f).Opened? && op.ReleaseOp? && ReleaseGranted(g, f, op)
             && Performs(g, f, op, ws)
    requires op.releaseId in f.receipts ==> f.receipts[op.releaseId].releaseId == op.releaseId
    ensures var h := ApplyAll(f, ws);
            && OpenSpec(g, h).Opened? && ReleaseGranted(g, h, op)
            && op.releaseId in h.receipts && Answers(h.receipts[op.releaseId], op)
            && (op.releaseId in f.receipts ==> SameObjects(f, h))
            && (op.releaseId !in f.receipts ==>
                  h.revisions == f.revisions && h.audits == f.audits
                  && h.receipts == f.receipts[op.releaseId := h.receipts[op.releaseId]])
            && forall vs :: Performs(g, h, op, vs) ==> SameObjects(h, ApplyAll(h, vs))
  {
    var h := ApplyAll(f, ws);
    if op.releaseId in f.receipts {
      AnsweredStoresNothing(g, f, op, ws);
      AnsweredOpens(g, f, op, ws);
    } else {
      var r := NewReceiptWrites(g, f, op);
      PerformedObjects(g, f, op, ws, [PutReceipt(r)]);
      CompletedOpens(g, f, op, ws, [PutReceipt(r)]);
    }
    forall vs | Performs(g, h, op, vs) ensures SameObjects(h, ApplyAll(h, vs)) {
      AnsweredStoresNothing(g, h, op, vs);
    }
  }

  lemma CollectedAuditAnswers(g: Grammar, f: Files, op: Op)
    requires op.GcOp? && ObjectsOk(g, f) && GcCollects(g, f, op)
    ensures GcReplays(ApplyAll(f, ObjectWrites(g, f, op).value), op)
  {
    var receipt := f.receipts[op.releaseId];
    var name := HistoryName(receipt.catalogRevision, receipt.catalogHash);
    var audit := CollectRevision(g, f.revisions[name], receipt, op.refs, op.deleteId, op.ownerCommandId, op.deletedAt,
                                 op.reason).value;
    assert AuditMatchesRequest(audit, receipt, op.ownerCommandId, op.deletedAt, op.reason);
    OneOrTwo(f, ObjectWrites(g, f, op).value);
  }

  /** A collection granted once is answered for good by its own audit. */
  lemma GcAgain(g: Grammar, f: Files, op: Op, ws: seq<Write>)
    requires StoreInv(g, f) && OpenSpec(g, f).Opened? && op.GcOp? && GcGranted(g, f, op) && Performs(g, f, op, ws)
    ensures var h := ApplyAll(f, ws);
            && OpenSpec(g, h).Opened? && GcReplays(h, op) && GcGranted(g, h, op)
            && (GcReplays(f, op) ==> SameObjects(f, h))
            && forall vs :: Performs(g, h, op, vs) ==> SameObjects(h, ApplyAll(h, vs))
  {
    var h := ApplyAll(f, ws);
    if GcReplays(f, op) {
      AnsweredStoresNothing(g, f, op, ws);
      AnsweredOpens(g, f, op, ws);
    } else {
      var objects := ObjectWrites(g, f, op).value;
      CollectedAuditAnswers(g, f, op);
      PerformedObjects(g, f, op, ws, objects);
      CompletedOpens(g, f, op, ws, objects);
    }
    forall vs | Performs(g, h, op, vs) ensures SameObjects(h, ApplyAll(h, vs)) {
      AnsweredStoresNothing(g, h, op, vs);
    }
  }
}
