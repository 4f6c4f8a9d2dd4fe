/** The two limits of a collection: a second audit for its revision locks the store, and a
    collection of the current revision lets a number be issued again.  Each is exactly where
    the property fails, with a run that gets there. */
module CatalogLimits {
  import opened Basics
  import opened RuntimeCatalog
  import opened CatalogIndex
  import opened CatalogFiles
  import opened CatalogSafety
  import opened CatalogCrash

  // ------------------------------------------------------------------ a pending collection

  lemma RetryWrites(g: Grammar, f: Files, op: Op, a: Audit, n: HistoryName)
    requires op.GcOp? && ObjectWrites(g, f, op) == Some([PutAudit(a), DropRevision(n)])
    ensures ObjectWrites(g, Apply(f, PutAudit(a)), op) == Some([DropRevision(n)])
  {
    var receipt := f.receipts[op.releaseId];
    assert n == HistoryName(receipt.catalogRevision, receipt.catalogHash) by {
      assert [PutAudit(a), DropRevision(n)][1] == DropRevision(n);
    }
    var h := Apply(f, PutAudit(a));
    assert [PutAudit(a), DropRevision(n)][0] == PutAudit(a);
    assert a.deleteId == op.deleteId && h.audits[op.deleteId] == a;
  }

  lemma RetriedObjects(f: Files, a: Audit, n: HistoryName)
    ensures ApplyAll(Apply(f, PutAudit(a)), [DropRevision(n)]) == ApplyAll(f, [PutAudit(a), DropRevision(n)])
  {
    assert [PutAudit(a), DropRevision(n)] == ([] + [PutAudit(a)]) + [DropRevision(n)];
    ApplyAllAppend(f, [] + [PutAudit(a)], DropRevision(n));
    ApplyAllAppend(f, [], PutAudit(a));
    assert [DropRevision(n)] == [] + [DropRevision(n)];
    ApplyAllAppend(Apply(f, PutAudit(a)), [], DropRevision(n));
  }

  lemma AuditedInv(g: Grammar, f: Files, op: Op, a: Audit, n: HistoryName)
    requires StoreInv(g, f) && !Locks(g, f, op) && ObjectWrites(g, f, op) == Some([PutAudit(a), DropRevision(n)])
    ensures StoreInv(g, Apply(f, PutAudit(a)))
  {
    var ws := ObjectWrites(g, f, op).value;
    ObjectWritesAreSafe(g, f, op, false);
    assert ws[..0] == [] && ws[0] == PutAudit(a);
    SafeWriteKeepsStore(g, f, PutAudit(a));
  }

  lemma NoLockWhilePending(g: Grammar, f: Files, op: Op, a: Audit, n: HistoryName)
    requires op.GcOp? && !Locks(g, f, op) && ObjectWrites(g, f, op) == Some([PutAudit(a), DropRevision(n)])
    ensures !Locks(g, Apply(f, PutAudit(a)), op)
  {
    assert [PutAudit(a), DropRevision(n)][0] == PutAudit(a);
  }

  lemma PendingOpens(g: Grammar, f: Files, op: Op, a: Audit, n: HistoryName)
    requires StoreInv(g, f) && !Locks(g, f, op) && ObjectWrites(g, f, op) == Some([PutAudit(a), DropRevision(n)])
    ensures OpenSpec(g, Apply(f, PutAudit(a))) == OpenSpec(g, f)
  {
    assert [PutAudit(a), DropRevision(n)][0] == PutAudit(a);
    AuditedObjectsAreSound(g, f, op);
    TwoWritesCollect(g, f, op);
    PendingAuditIsInvisible(g, f, a);
  }

  /** A collection cut after its audit, re-entered with the same arguments, ends where the
      uninterrupted one does. */
  lemma PendingCollectionCompletes(
    g: Grammar, f: Files, op: Op, ws: seq<Write>, retry: seq<Write>, a: Audit, n: HistoryName)
    requires StoreInv(g, f) && op.GcOp? && !Locks(g, f, op)
    requires ObjectWrites(g, f, op) == Some([PutAudit(a), DropRevision(n)])
    requires Performs(g, f, op, ws) && ws != [] && Performs(g, Apply(f, PutAudit(a)), op, retry)
    ensures retry != []
    ensures OpenSpec(g, ApplyAll(Apply(f, PutAudit(a)), retry)) == OpenSpec(g, ApplyAll(f, ws))
  {
    CompletedOpens(g, f, op, ws, [PutAudit(a), DropRevision(n)]);
    AuditedInv(g, f, op, a, n);
    NoLockWhilePending(g, f, op, a, n);
    RetryWrites(g, f, op, a, n);
    PendingOpens(g, f, op, a, n);
    RetriedObjects(f, a, n);
    RetryIsSomething(g, Apply(f, PutAudit(a)), op, retry, [DropRevision(n)]);
    CompletedOpens(g, Apply(f, PutAudit(a)), op, retry, [DropRevision(n)]);
  }

  lemma RetryIsSomething(g: Grammar, f: Files, op: Op, ws: seq<Write>, objects: seq<Write>)
    requires op.GcOp? && Performs(g, f, op, ws) && OpenSpec(g, f).Opened?
    requires ObjectWrites(g, f, op) == Some(objects) && objects != []
    ensures ws != []
  {
  }

  // ------------------------------------------------------------------ two audits for one revision

  lemma LockedByPlan(g: Grammar, f: Files, op: Op, ws: seq<Write>)
    requires StoreInv(g, f) && Locks(g, f, op) && Plan(g, f, op, ws)
    ensures Locked(g, ApplyAll(f, ws))
  {
    var audit, name := LockingForms(g, f, op);
    PlanOfTwo(f, PutAudit(audit), DropRevision(name), ws);
    assert ws[..|ws|] == ws;
    LockedPlan(g, f, audit, name, ws, |ws|);
  }

  lemma StillLocks(g: Grammar, f: Files, op: Op, i: Index)
    requires Locks(g, f, op)
    ensures Locks(g, Apply(f, PutIndex(i)), op)
  {
    LocksSameObjects(g, f, Apply(f, PutIndex(i)), op);
  }

  lemma StillChecked(g: Grammar, f: Files, i: Index)
    requires StoreInv(g, f)
    ensures StoreInv(g, Apply(f, PutIndex(i)))
  {
    SameObjectsStore(g, f, Apply(f, PutIndex(i)));
  }

  lemma LockedByRepairedPlan(g: Grammar, f: Files, op: Op, i: Index, ws: seq<Write>)
    requires StoreInv(g, f) && Locks(g, f, op) && Plan(g, Apply(f, PutIndex(i)), op, ws)
    ensures Locked(g, ApplyAll(f, [PutIndex(i)] + ws))
  {
    StillChecked(g, f, i);
    StillLocks(g, f, op, i);
    LockedByPlan(g, Apply(f, PutIndex(i)), op, ws);
    AfterIndex(f, i, ws, 0);
  }

  lemma LockedAfterCompletion(g: Grammar, f: Files, op: Op, ws: seq<Write>)
    requires StoreInv(g, f) && Locks(g, f, op) && PerformedAs(g, f, op, ws) && ws != []
    ensures Locked(g, ApplyAll(f, ws))
  {
    if NeedsRepair(f, op) {
      LockedByRepairedPlan(g, f, op, ws[0].index, ws[1..]);
    } else {
      LockedByPlan(g, f, op, ws);
    }
  }

  /** A collection leaves a store that opens exactly when no other audit stood for its
      revision; otherwise the store is locked: no rebuild and no operation gets past it. */
  lemma CollectionStaysOpenIff(g: Grammar, f: Files, op: Op, ws: seq<Write>, objects: seq<Write>)
    requires StoreInv(g, f) && op.GcOp? && Performs(g, f, op, ws) && ws != []
    requires ObjectWrites(g, f, op) == Some(objects) && objects != []
    ensures OpenSpec(g, ApplyAll(f, ws)).Opened? <==> GcSameDeleteId(f, op)
    ensures !GcSameDeleteId(f, op) ==>
              RebuildSpec(g, ApplyAll(f, ws)).Refused?
              && forall later, vs :: Performs(g, ApplyAll(f, ws), later, vs) ==> vs == []
  {
    if GcSameDeleteId(f, op) {
      CompletedOpens(g, f, op, ws, objects);
    } else {
      PerformedParts(g, f, op, ws);
      LockedAfterCompletion(g, f, op, ws);
      TwoAuditsLockTheStore(g, ApplyAll(f, ws));
    }
  }

  // ------------------------------------------------------------------ collecting the current revision

  lemma CollectionLeavesOthers(g: Grammar, f: Files, op: Op, objects: seq<Write>)
    requires op.GcOp? && ObjectWrites(g, f, op) == Some(objects) && objects != []
    ensures ApplyAll(f, objects).revisions != map[]
  {
    ObjectsAfterCollection(g, f, op);
    CollectedHasOther(g, f, op);
    var name := HistoryName(f.receipts[op.releaseId].catalogRevision, f.receipts[op.releaseId].catalogHash);
    var n :| n in f.revisions && n != name;
    assert n in ApplyAll(f, objects).revisions;
  }

  lemma CurrentWitness(f: Files) returns (top: HistoryName)
    requires f.revisions != map[]
    ensures IsTop(f, top) && CurrentOf(f) == f.revisions[top].catalog
  {
    TopExists(f);
    top :| IsTop(f, top) && CurrentOf(f) == f.revisions[top].catalog;
  }

  ghost predicate NamesOk(f: Files) {
    forall n :: n in f.revisions ==> f.revisions[n].catalog.revision == n.revision
  }

  lemma TopAfterDrop(f: Files, h: Files, name: HistoryName)
    requires NamesOk(f) && UniqueRevisions(f)
    requires name in f.revisions && h.revisions == f.revisions - {name} && h.revisions != map[]
    ensures CurrentOf(h).revision == CurrentOf(f).revision <==> BelowTop(f, name.revision)
    ensures CurrentOf(h).revision <= CurrentOf(f).revision
  {
    var top := CurrentWitness(f);
    var high := CurrentWitness(h);
    assert high in f.revisions && f.revisions[high] == h.revisions[high];
    assert top.revision == TopRevision(f);
    if top != name { assert top in h.revisions; }
  }

  /** A collection keeps the current revision number exactly when it is below it; otherwise
      the number drops and the next successful append issues a number that is not new. */
  lemma CollectionKeepsCurrentIff(g: Grammar, f: Files, op: Op, objects: seq<Write>)
    requires ObjectsOk(g, f) && UniqueRevisions(f)
    requires op.GcOp? && ObjectWrites(g, f, op) == Some(objects) && objects != []
    ensures var h := ApplyAll(f, objects);
            && f.revisions != map[] && h.revisions != map[]
            && (CurrentOf(h).revision == CurrentOf(f).revision <==> GcBelowCurrent(f, op))
            && (!GcBelowCurrent(f, op) ==>
                  forall pin, next, refs :: AppendRevision(g, CurrentOf(h), pin, next, refs).Ok? ==>
                    AppendRevision(g, CurrentOf(h), pin, next, refs).value.revision <= CurrentOf(f).revision)
  {
    CollectionLeavesOthers(g, f, op, objects);
    var name := CollectedName(g, f, op, objects);
    TopAfterDrop(f, ApplyAll(f, objects), name);
    AppendIsNext(g, CurrentOf(ApplyAll(f, objects)));
  }

  lemma CollectedName(g: Grammar, f: Files, op: Op, objects: seq<Write>) returns (name: HistoryName)
    requires op.GcOp? && ObjectWrites(g, f, op) == Some(objects) && objects != []
    ensures name in f.revisions && ApplyAll(f, objects).revisions == f.revisions - {name}
    ensures op.releaseId in f.receipts && name.revision == f.receipts[op.releaseId].catalogRevision
  {
    ObjectsAfterCollection(g, f, op);
    name := HistoryName(f.receipts[op.releaseId].catalogRevision, f.receipts[op.releaseId].catalogHash);
  }

  lemma AppendIsNext(g: Grammar, c: Catalog)
    ensures forall pin, next, refs :: AppendRevision(g, c, pin, next, refs).Ok? ==>
              AppendRevision(g, c, pin, next, refs).value.revision == c.revision + 1
  {
  }
}
