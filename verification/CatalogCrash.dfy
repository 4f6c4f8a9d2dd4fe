/** Crash atomicity: what opening or rebuilding the store answers after an operation was
    cut short between any two of its writes, and what a completed operation leaves. */
module CatalogCrash {
  import opened Basics
  import opened RuntimeCatalog
  import opened CatalogIndex
  import opened CatalogFiles
  import opened CatalogSafety

  /** The answer the history objects stand for. */
  ghost function Truth(f: Files): Opening
    requires f.revisions != map[]
  {
    Opened(Some(CurrentOf(f)), FilesRows(f))
  }

  ghost predicate Sound(g: Grammar, f: Files) {
    ObjectsOk(g, f) && CrossChecked(f) && f.revisions != map[]
  }

  /** Sound objects open to what they stand for unless a readable index says otherwise. */
  lemma SoundOpens(g: Grammar, f: Files)
    requires Sound(g, f)
    ensures RebuildSpec(g, f) == Truth(f)
    ensures OpenSpec(g, f) == if IndexStored(f) && IndexRows(f.index.index) != FilesRows(f)
                              then Refused(WASM_CATALOG_STORE_DIVERGENT) else Truth(f)
  {
    RebuildLooksAtObjects(g, f);
  }

  lemma SameObjectsTruth(g: Grammar, f: Files, h: Files)
    requires Sound(g, f) && SameObjects(f, h)
    ensures Sound(g, h) && Truth(h) == Truth(f)
  {
    SameObjectsCrossChecked(f, h);
    SameObjectsCurrent(f, h);
    SameObjectsRows(f, h);
  }

  lemma RefreshedOpens(g: Grammar, f: Files, w: Write)
    requires Sound(g, f) && IsRefresh(f, w)
    ensures Sound(g, Apply(f, w)) && OpenSpec(g, Apply(f, w)) == Truth(f)
  {
    SameObjectsTruth(g, f, Apply(f, w));
    SoundOpens(g, Apply(f, w));
  }

  lemma PendingAuditKeepsRows(f: Files, a: Audit)
    requires a.deleteId !in f.audits && RevisionPresent(f, a.revision)
    ensures FilesRows(Apply(f, PutAudit(a))) == FilesRows(f)
  {
    var h := Apply(f, PutAudit(a));
    assert forall revision :: RevisionPresent(h, revision) <==> RevisionPresent(f, revision);
    assert forall id :: id in h.audits <==> id == a.deleteId || id in f.audits;
    forall row ensures row in FilesRows(h) <==> row in FilesRows(f) {
      if id :| id in f.audits && !RevisionPresent(f, f.audits[id].revision)
               && row == Row(f.audits[id].revision, f.audits[id].catalogHash, Deleted) {
        assert id in h.audits;
      }
    }
  }

  lemma SameRevisionsCurrent(g: Grammar, f: Files, h: Files)
    requires Sound(g, f) && Sound(g, h) && f.revisions == h.revisions
    ensures CurrentOf(h) == CurrentOf(f)
  {
    var top := CurrentRecord(g, f);
    CurrentIsTop(h, top);
  }

  /** A pending collection is invisible: its audit changes neither the catalog nor a row. */
  lemma PendingAuditIsInvisible(g: Grammar, f: Files, a: Audit)
    requires Sound(g, f) && Sound(g, Apply(f, PutAudit(a)))
    requires a.deleteId !in f.audits && RevisionPresent(f, a.revision)
    ensures OpenSpec(g, Apply(f, PutAudit(a))) == OpenSpec(g, f)
  {
    var h := Apply(f, PutAudit(a));
    SameRevisionsCurrent(g, f, h);
    PendingAuditKeepsRows(f, a);
    SoundOpens(g, f);
    SoundOpens(g, h);
  }

  // ------------------------------------------------------------------ one operation

  /** Before, after, or refused as divergent and rebuilt to after. */
  predicate AtomicAnswer(before: Opening, cut: Opening, rebuilt: Opening, after: Opening) {
    cut == before || cut == after || (cut == Refused(WASM_CATALOG_STORE_DIVERGENT) && rebuilt == after)
  }

  ghost predicate Atomic(g: Grammar, f: Files, cut: Files, done: Files) {
    AtomicAnswer(OpenSpec(g, f), OpenSpec(g, cut), RebuildSpec(g, cut), OpenSpec(g, done))
  }

  /** A plan with anything to store starts from, or at once makes, a non-empty history. */
  lemma PlannedHistoryIsSomething(g: Grammar, f: Files, op: Op)
    requires StoreInv(g, f) && ObjectWrites(g, f, op).Some?
    ensures var ws := ObjectWrites(g, f, op).value;
            f.revisions != map[] || (|ws| > 0 && ws[0].PutRevision?)
  {
    if f.revisions == map[] {
      assert HoldsNothing(f);
      assert op.BootstrapOp?;
    }
  }

  /** The objects after a plan's object writes are sound. */
  lemma PlannedObjectsAreSound(g: Grammar, f: Files, op: Op)
    requires StoreInv(g, f) && !Locks(g, f, op) && ObjectWrites(g, f, op).Some?
    ensures Sound(g, ApplyAll(f, ObjectWrites(g, f, op).value))
  {
    ObjectWritesAreSafe(g, f, op, false);
    PlannedHistoryIsSomething(g, f, op);
    SafeWritesAreSound(g, f, ObjectWrites(g, f, op).value);
  }

  lemma SafeWritesAreSound(g: Grammar, f: Files, ws: seq<Write>)
    requires StoreInv(g, f) && AllSafe(g, f, ws, false)
    requires f.revisions != map[] || (|ws| > 0 && ws[0].PutRevision?)
    ensures Sound(g, ApplyAll(f, ws))
  {
    SafeWritesKeepStore(g, f, ws, |ws|);
    assert ws[..|ws|] == ws;
  }

  lemma PlanEndsWithRefresh(f: Files, objects: seq<Write>, ws: seq<Write>)
    requires PlanOf(f, Some(objects), ws) && OneAuditPerRevision(ApplyAll(f, objects))
    ensures |ws| == |objects| + 1 && ws[..|objects|] == objects
    ensures ws[|objects|].PutIndex? && IsRefresh(ApplyAll(f, objects), ws[|objects|])
    ensures ApplyAll(f, ws) == Apply(ApplyAll(f, objects), ws[|objects|])
  {
    assert ws == objects + [ws[|objects|]];
    ApplyAllAppend(f, objects, ws[|objects|]);
  }

  /** So the index is always refreshed at the end, and the answers are the objects'. */
  lemma PlanRefreshes(g: Grammar, f: Files, objects: seq<Write>, ws: seq<Write>)
    requires PlanOf(f, Some(objects), ws) && Sound(g, ApplyAll(f, objects))
    ensures |ws| == |objects| + 1 && ws[..|objects|] == objects
    ensures SameObjects(ApplyAll(f, objects), ApplyAll(f, ws))
    ensures OpenSpec(g, ApplyAll(f, ws)) == Truth(ApplyAll(f, objects))
  {
    PlanEndsWithRefresh(f, objects, ws);
    RefreshedOpens(g, ApplyAll(f, objects), ws[|objects|]);
  }

  lemma AuditedObjectsAreSound(g: Grammar, f: Files, op: Op)
    requires StoreInv(g, f) && !Locks(g, f, op)
    requires ObjectWrites(g, f, op).Some? && |ObjectWrites(g, f, op).value| == 2
    ensures var w := ObjectWrites(g, f, op).value[0]; Sound(g, f) && Sound(g, Apply(f, w))
  {
    var ws := ObjectWrites(g, f, op).value;
    ObjectWritesAreSafe(g, f, op, false);
    assert ws[..0] == [];
    assert f.revisions != map[];
    SafeWriteKeepsStore(g, f, ws[0]);
  }

  lemma TwoWritesCollect(g: Grammar, f: Files, op: Op)
    requires ObjectWrites(g, f, op).Some? && |ObjectWrites(g, f, op).value| == 2
    ensures var w := ObjectWrites(g, f, op).value[0];
            w.PutAudit? && RevisionPresent(f, w.audit.revision) && w.audit.deleteId !in f.audits
    ensures ApplyAll(f, ObjectWrites(g, f, op).value[..1]) == Apply(f, ObjectWrites(g, f, op).value[0])
  {
    var ws := ObjectWrites(g, f, op).value;
    assert op.GcOp?;
    var name := HistoryName(f.receipts[op.releaseId].catalogRevision, f.receipts[op.releaseId].catalogHash);
    assert name in f.revisions && name.revision == ws[0].audit.revision;
    assert ws[..1] == [] + [ws[0]];
    ApplyAllAppend(f, [], ws[0]);
  }

  /** Cut between the audit and the delete of a collection. */
  lemma CutCollection(g: Grammar, f: Files, objects: seq<Write>)
    requires Sound(g, f) && |objects| == 2 && objects[0].PutAudit? && Sound(g, Apply(f, objects[0]))
    requires objects[0].audit.deleteId !in f.audits && RevisionPresent(f, objects[0].audit.revision)
    requires ApplyAll(f, objects[..1]) == Apply(f, objects[0])
    ensures OpenSpec(g, ApplyAll(f, objects[..1])) == OpenSpec(g, f)
  {
    PendingAuditIsInvisible(g, f, objects[0].audit);
  }

  lemma SoundAnswers(g: Grammar, f: Files)
    requires Sound(g, f)
    ensures RebuildSpec(g, f) == Truth(f)
            && (OpenSpec(g, f) == Truth(f) || OpenSpec(g, f) == Refused(WASM_CATALOG_STORE_DIVERGENT))
  {
    SoundOpens(g, f);
  }

  lemma CutPlan(g: Grammar, f: Files, objects: seq<Write>, ws: seq<Write>, k: nat)
    requires PlanOf(f, Some(objects), ws) && Sound(g, ApplyAll(f, objects)) && 0 < k < |ws|
    requires |objects| <= 2
    requires |objects| == 2 ==> OpenSpec(g, ApplyAll(f, objects[..1])) == OpenSpec(g, f)
    ensures Atomic(g, f, ApplyAll(f, ws[..k]), ApplyAll(f, ws))
  {
    PlanRefreshes(g, f, objects, ws);
    if k == |objects| {
      SoundAnswers(g, ApplyAll(f, objects));
    } else {
      assert ws[..k] == objects[..1];
    }
  }

  lemma CutPlannedCollection(g: Grammar, f: Files, op: Op)
    requires StoreInv(g, f) && !Locks(g, f, op) && ObjectWrites(g, f, op).Some?
    ensures |ObjectWrites(g, f, op).value| == 2 ==>
              OpenSpec(g, ApplyAll(f, ObjectWrites(g, f, op).value[..1])) == OpenSpec(g, f)
  {
    if |ObjectWrites(g, f, op).value| == 2 {
      TwoWritesCollect(g, f, op);
      AuditedObjectsAreSound(g, f, op);
      CutCollection(g, f, ObjectWrites(g, f, op).value);
    }
  }

  lemma AtMostTwoWrites(g: Grammar, f: Files, op: Op)
    requires ObjectWrites(g, f, op).Some?
    ensures |ObjectWrites(g, f, op).value| <= 2
  {
  }

  lemma SafePlanIsAtomic(g: Grammar, f: Files, op: Op, ws: seq<Write>, k: nat)
    requires StoreInv(g, f) && !Locks(g, f, op) && Plan(g, f, op, ws) && 0 < k < |ws|
    ensures Atomic(g, f, ApplyAll(f, ws[..k]), ApplyAll(f, ws))
  {
    PlannedObjectsAreSound(g, f, op);
    CutPlannedCollection(g, f, op);
    AtMostTwoWrites(g, f, op);
    CutPlan(g, f, ObjectWrites(g, f, op).value, ws, k);
  }

  /** A collection that locks the store has locked it from its first write on. */
  lemma LockingPlanIsAtomic(g: Grammar, f: Files, op: Op, ws: seq<Write>, k: nat)
    requires StoreInv(g, f) && Locks(g, f, op) && Plan(g, f, op, ws) && 0 < k <= |ws|
    ensures Atomic(g, f, ApplyAll(f, ws[..k]), ApplyAll(f, ws))
  {
    LockingPlanLocks(g, f, op, ws, k);
    LockingPlanLocks(g, f, op, ws, |ws|);
    assert ws[..|ws|] == ws;
    TwoAuditsLockTheStore(g, ApplyAll(f, ws[..k]));
    TwoAuditsLockTheStore(g, ApplyAll(f, ws));
  }

  lemma PlanIsAtomic(g: Grammar, f: Files, op: Op, ws: seq<Write>, k: nat)
    requires StoreInv(g, f) && Plan(g, f, op, ws) && k <= |ws|
    ensures Atomic(g, f, ApplyAll(f, ws[..k]), ApplyAll(f, ws))
  {
    assert ws[..|ws|] == ws;
    if 0 < k < |ws| {
      if Locks(g, f, op) {
        LockingPlanIsAtomic(g, f, op, ws, k);
      } else {
        SafePlanIsAtomic(g, f, op, ws, k);
      }
    }
  }

  lemma RepairOpens(g: Grammar, f: Files, op: Op, i: Index)
    requires StoreInv(g, f) && NeedsRepair(f, op) && IsRefresh(f, PutIndex(i))
    ensures StoreInv(g, Apply(f, PutIndex(i)))
    ensures OpenSpec(g, Apply(f, PutIndex(i))) == OpenSpec(g, f)
  {
    assert f.revisions != map[];
    RefreshedOpens(g, f, PutIndex(i));
    SoundOpens(g, f);
    SafeWriteKeepsStore(g, f, PutIndex(i));
  }

  lemma SameObjectsWrites(g: Grammar, f: Files, h: Files, op: Op)
    requires Sound(g, f) && SameObjects(f, h)
    ensures ObjectWrites(g, h, op) == ObjectWrites(g, f, op)
  {
    SameObjectsCurrent(f, h);
  }

  lemma RepairedWrites(g: Grammar, f: Files, op: Op, i: Index)
    requires StoreInv(g, f) && NeedsRepair(f, op)
    ensures ObjectWrites(g, Apply(f, PutIndex(i)), op) == ObjectWrites(g, f, op)
    ensures Locks(g, Apply(f, PutIndex(i)), op) <==> Locks(g, f, op)
  {
    SameObjectsWrites(g, f, Apply(f, PutIndex(i)), op);
    LocksSameObjects(g, f, Apply(f, PutIndex(i)), op);
  }

  lemma RepairedPlanIsAtomic(g: Grammar, f: Files, op: Op, i: Index, ws: seq<Write>, k: nat)
    requires StoreInv(g, Apply(f, PutIndex(i))) && OpenSpec(g, Apply(f, PutIndex(i))) == OpenSpec(g, f)
    requires Plan(g, Apply(f, PutIndex(i)), op, ws) && k <= |ws|
    ensures Atomic(g, f, ApplyAll(f, ([PutIndex(i)] + ws)[..k + 1]), ApplyAll(f, [PutIndex(i)] + ws))
  {
    PlanIsAtomic(g, Apply(f, PutIndex(i)), op, ws, k);
    AfterIndex(f, i, ws, k);
  }

  lemma RepairedCut(g: Grammar, f: Files, op: Op, i: Index, ws: seq<Write>, k: nat)
    requires StoreInv(g, f) && NeedsRepair(f, op) && IsRefresh(f, PutIndex(i))
    requires Plan(g, Apply(f, PutIndex(i)), op, ws) && k <= |ws|
    ensures Atomic(g, f, ApplyAll(f, ([PutIndex(i)] + ws)[..k + 1]), ApplyAll(f, [PutIndex(i)] + ws))
  {
    RepairOpens(g, f, op, i);
    RepairedPlanIsAtomic(g, f, op, i, ws, k);
  }

  lemma CutPerformed(g: Grammar, f: Files, op: Op, ws: seq<Write>, k: nat)
    requires StoreInv(g, f) && PerformedAs(g, f, op, ws) && 0 < k <= |ws|
    ensures Atomic(g, f, ApplyAll(f, ws[..k]), ApplyAll(f, ws))
  {
    if NeedsRepair(f, op) {
      RepairedCut(g, f, op, ws[0].index, ws[1..], k - 1);
    } else {
      PlanIsAtomic(g, f, op, ws, k);
    }
  }

  lemma NothingCut(g: Grammar, f: Files, ws: seq<Write>)
    ensures Atomic(g, f, ApplyAll(f, ws[..0]), ApplyAll(f, ws))
  {
    assert ws[..0] == [];
  }

  /** Crash atomicity: cut any owner operation after any of its writes; opening answers the
      state before or the state after it, or refuses as divergent and the owner's rebuild
      answers the state after it. */
  lemma EveryCutIsAtomic(g: Grammar, f: Files, op: Op, ws: seq<Write>, k: nat)
    requires RunInv(g, f) && Performs(g, f, op, ws) && k <= |ws|
    ensures Atomic(g, f, ApplyAll(f, ws[..k]), ApplyAll(f, ws))
  {
    if Locked(g, f) { TwoAuditsLockTheStore(g, f); }
    PerformedParts(g, f, op, ws);
    if k == 0 {
      NothingCut(g, f, ws);
    } else {
      CutPerformed(g, f, op, ws, k);
    }
  }

  /** The same over every run from an empty directory, with earlier crashes, damaged indexes
      and any collections. */
  lemma EveryCutOfEveryRunIsAtomic(g: Grammar, steps: seq<Step>, op: Op, ws: seq<Write>, k: nat)
    requires ValidHistory(g, NO_FILES, steps)
    requires Performs(g, FilesAfter(NO_FILES, steps), op, ws) && k <= |ws|
    ensures var f := FilesAfter(NO_FILES, steps); Atomic(g, f, ApplyAll(f, ws[..k]), ApplyAll(f, ws))
  {
    NothingIsStored(g);
    RunKeepsInv(g, NO_FILES, steps);
    EveryCutIsAtomic(g, FilesAfter(NO_FILES, steps), op, ws, k);
  }

  // ------------------------------------------------------------------ completed operations

  lemma {:induction false} SameObjectsAfter(f: Files, h: Files, ws: seq<Write>)
    requires SameObjects(f, h)
    ensures SameObjects(ApplyAll(f, ws), ApplyAll(h, ws))
    decreases |ws|
  {
    if ws != [] { SameObjectsAfter(f, h, ws[..|ws| - 1]); }
  }

  lemma PlanOpens(g: Grammar, f: Files, op: Op, ws: seq<Write>, objects: seq<Write>)
    requires StoreInv(g, f) && !Locks(g, f, op) && Plan(g, f, op, ws) && ObjectWrites(g, f, op) == Some(objects)
    ensures Sound(g, ApplyAll(f, objects)) && OpenSpec(g, ApplyAll(f, ws)) == Truth(ApplyAll(f, objects))
  {
    PlannedObjectsAreSound(g, f, op);
    PlanRefreshes(g, f, objects, ws);
  }

  lemma TruthLooksAtObjects(g: Grammar, f: Files, i: Index, ws: seq<Write>)
    requires Sound(g, ApplyAll(Apply(f, PutIndex(i)), ws))
    ensures Sound(g, ApplyAll(f, ws)) && Truth(ApplyAll(f, ws)) == Truth(ApplyAll(Apply(f, PutIndex(i)), ws))
  {
    SameObjectsAfter(f, Apply(f, PutIndex(i)), ws);
    SameObjectsTruth(g, ApplyAll(Apply(f, PutIndex(i)), ws), ApplyAll(f, ws));
  }

  lemma RepairedPlanOpens(g: Grammar, f: Files, op: Op, i: Index, ws: seq<Write>, objects: seq<Write>)
    requires StoreInv(g, Apply(f, PutIndex(i))) && !Locks(g, Apply(f, PutIndex(i)), op)
    requires Plan(g, Apply(f, PutIndex(i)), op, ws) && ObjectWrites(g, Apply(f, PutIndex(i)), op) == Some(objects)
    ensures Sound(g, ApplyAll(f, objects))
            && OpenSpec(g, ApplyAll(f, [PutIndex(i)] + ws)) == Truth(ApplyAll(f, objects))
  {
    PlanOpens(g, Apply(f, PutIndex(i)), op, ws, objects);
    AfterIndex(f, i, ws, 0);
    TruthLooksAtObjects(g, f, i, objects);
  }

  lemma RepairedStartOpens(g: Grammar, f: Files, op: Op, i: Index, ws: seq<Write>, objects: seq<Write>)
    requires StoreInv(g, f) && !Locks(g, f, op) && NeedsRepair(f, op) && IsRefresh(f, PutIndex(i))
    requires Plan(g, Apply(f, PutIndex(i)), op, ws) && ObjectWrites(g, f, op) == Some(objects)
    ensures Sound(g, ApplyAll(f, objects))
            && OpenSpec(g, ApplyAll(f, [PutIndex(i)] + ws)) == Truth(ApplyAll(f, objects))
  {
    RepairOpens(g, f, op, i);
    RepairedWrites(g, f, op, i);
    RepairedPlanOpens(g, f, op, i, ws, objects);
  }

  /** An operation that wrote anything leaves a store that opens to its object writes, unless
      it locked the store by a second audit. */
  lemma CompletedOpens(g: Grammar, f: Files, op: Op, ws: seq<Write>, objects: seq<Write>)
    requires StoreInv(g, f) && !Locks(g, f, op) && Performs(g, f, op, ws) && ws != []
    requires ObjectWrites(g, f, op) == Some(objects)
    ensures Sound(g, ApplyAll(f, objects)) && OpenSpec(g, ApplyAll(f, ws)) == Truth(ApplyAll(f, objects))
  {
    PerformedParts(g, f, op, ws);
    if NeedsRepair(f, op) {
      RepairedStartOpens(g, f, op, ws[0].index, ws[1..], objects);
    } else {
      PlanOpens(g, f, op, ws, objects);
    }
  }

  lemma StoreIsSafe(g: Grammar, f: Files, op: Op, r: Record)
    requires ObjectsOk(g, f) && ObjectWrites(g, f, op) == Some([PutRevision(r)])
    ensures !Locks(g, f, op) && SafeWrite(g, f, PutRevision(r), false)
    ensures ApplyAll(f, [PutRevision(r)]) == Apply(f, PutRevision(r))
  {
    assert [PutRevision(r)][0] == PutRevision(r);
    assert !op.GcOp?;
    ObjectWritesAreSafe(g, f, op, false);
    assert [PutRevision(r)] == [] + [PutRevision(r)];
    ApplyAllAppend(f, [], PutRevision(r));
    assert [PutRevision(r)][..0] == [];
  }

  /** The rows after storing a record: its own, and none of a collected one of its number. */
  ghost function RowsWith(f: Files, r: Record): set<Row> {
    (set row | row in FilesRows(f) && row.revision != r.revision) + {Row(r.revision, r.catalogHash, Present)}
  }

  lemma TruthAfterStore(g: Grammar, f: Files, r: Record)
    requires SafeWrite(g, f, PutRevision(r), false) && Sound(g, Apply(f, PutRevision(r)))
    ensures Truth(Apply(f, PutRevision(r))) == Opened(Some(r.catalog), RowsWith(f, r))
  {
    var h := Apply(f, PutRevision(r));
    assert IsTop(h, NameOf(r));
    CurrentIsTop(h, NameOf(r));
    RowsAfterStore(g, f, r);
  }

  /** A stored catalog becomes the current one, and one row is added; it replaces the row of a
      collected revision exactly where the number is not new. */
  lemma StoredCatalogIsCurrent(g: Grammar, f: Files, op: Op, ws: seq<Write>, r: Record)
    requires StoreInv(g, f) && Performs(g, f, op, ws) && ws != []
    requires ObjectWrites(g, f, op) == Some([PutRevision(r)])
    ensures OpenSpec(g, ApplyAll(f, ws)) == Opened(Some(r.catalog), RowsWith(f, r))
    ensures RowsWith(f, r) == FilesRows(f) + {Row(r.revision, r.catalogHash, Present)} <==> !Audited(f, r.revision)
  {
    StoreIsSafe(g, f, op, r);
    CompletedOpens(g, f, op, ws, [PutRevision(r)]);
    TruthAfterStore(g, f, r);
    NumberIsNewIff(g, f, r);
  }

  lemma NumberIsNewIff(g: Grammar, f: Files, r: Record)
    requires SafeWrite(g, f, PutRevision(r), false)
    ensures RowsWith(f, r) == FilesRows(f) + {Row(r.revision, r.catalogHash, Present)} <==> !Audited(f, r.revision)
  {
    if id :| id in f.audits && f.audits[id].revision == r.revision {
      assert !RevisionPresent(f, r.revision);
      assert Row(r.revision, f.audits[id].catalogHash, Deleted) in FilesRows(f);
      assert Row(r.revision, f.audits[id].catalogHash, Deleted) !in RowsWith(f, r);
    } else {
      forall row | row in FilesRows(f) ensures row.revision != r.revision {
        if n :| n in f.revisions && row == Row(n.revision, n.catalogHash, Present) { assert n.revision < r.revision; }
      }
    }
  }

  lemma RowsAfterStore(g: Grammar, f: Files, r: Record)
    requires SafeWrite(g, f, PutRevision(r), false)
    ensures FilesRows(Apply(f, PutRevision(r))) == RowsWith(f, r)
  {
    var h := Apply(f, PutRevision(r));
    forall n ensures n in h.revisions <==> n in f.revisions || n == NameOf(r) {}
    assert NameOf(r) in h.revisions;
    forall revision: nat | revision != r.revision ensures RevisionPresent(h, revision)
      <==> RevisionPresent(f, revision) {
      if m :| m in f.revisions && m.revision == revision { assert m in h.revisions; }
    }
    assert RevisionPresent(h, r.revision);
    forall row ensures row in FilesRows(h) <==> row in RowsWith(f, r) {
      if n :| n in f.revisions && row == Row(n.revision, n.catalogHash, Present) {
        assert n in h.revisions && n.revision < r.revision;
      }
      if id :| id in f.audits && !RevisionPresent(f, f.audits[id].revision)
               && row == Row(f.audits[id].revision, f.audits[id].catalogHash, Deleted) && row.revision != r.revision {
        assert id in h.audits && !RevisionPresent(h, h.audits[id].revision);
      }
    }
  }

  /** A collection turns one present row into a deleted one; it keeps the current catalog while
      it is below the current revision. */
  lemma CollectedRowIsDeleted(g: Grammar, f: Files, op: Op, ws: seq<Write>, objects: seq<Write>)
    requires StoreInv(g, f) && op.GcOp? && !Locks(g, f, op) && Performs(g, f, op, ws) && ws != []
    requires ObjectWrites(g, f, op) == Some(objects) && objects != []
    ensures var r, h := f.receipts[op.releaseId], ApplyAll(f, objects);
            && h.revisions != map[]
            && OpenSpec(g, ApplyAll(f, ws)) ==
               Opened(Some(CurrentOf(h)),
                      FilesRows(f) - {Row(r.catalogRevision, r.catalogHash, Present)}
                        + {Row(r.catalogRevision, r.catalogHash, Deleted)})
            && (GcBelowCurrent(f, op) ==> CurrentOf(h) == CurrentOf(f))
  {
    CompletedOpens(g, f, op, ws, objects);
    ObjectsAfterCollection(g, f, op);
    var r, h := f.receipts[op.releaseId], ApplyAll(f, objects);
    var name := HistoryName(r.catalogRevision, r.catalogHash);
    RowsAfterCollection(g, f, h, name, op.deleteId);
    if GcBelowCurrent(f, op) { CurrentAfterDrop(g, f, h, name); }
  }

  lemma CurrentAfterDrop(g: Grammar, f: Files, h: Files, name: HistoryName)
    requires Sound(g, f) && Sound(g, h) && BelowTop(f, name.revision) && h.revisions == f.revisions - {name}
    ensures CurrentOf(h) == CurrentOf(f)
  {
    var top := CurrentRecord(g, f);
    assert top != name && top in h.revisions;
    CurrentIsTop(h, top);
  }

  lemma CollectionForms(g: Grammar, f: Files, op: Op)
    requires op.GcOp? && ObjectWrites(g, f, op).Some? && ObjectWrites(g, f, op).value != []
    ensures op.releaseId in f.receipts
    ensures var r := f.receipts[op.releaseId];
            var name := HistoryName(r.catalogRevision, r.catalogHash);
            var ws := ObjectWrites(g, f, op).value;
            && name in f.revisions
            && if op.deleteId in f.audits
               then ws == [DropRevision(name)] && f.audits[op.deleteId].revision == name.revision
                    && f.audits[op.deleteId].catalogHash == name.catalogHash
               else |ws| == 2 && ws[0].PutAudit? && ws[1] == DropRevision(name) && ws[0].audit.deleteId == op.deleteId
                    && ws[0].audit.revision == name.revision && ws[0].audit.catalogHash == name.catalogHash
  {
  }

  lemma OneOrTwo(f: Files, ws: seq<Write>)
    ensures |ws| == 1 ==> ApplyAll(f, ws) == Apply(f, ws[0])
    ensures |ws| == 2 ==> ApplyAll(f, ws) == Apply(Apply(f, ws[0]), ws[1])
  {
    if |ws| == 1 {
      assert ws == [] + [ws[0]];
      ApplyAllAppend(f, [], ws[0]);
    } else if |ws| == 2 {
      assert [ws[0]] == [] + [ws[0]] && ws == [ws[0]] + [ws[1]];
      ApplyAllAppend(f, [], ws[0]);
      ApplyAllAppend(f, [ws[0]], ws[1]);
    }
  }

  lemma ObjectsAfterCollection(g: Grammar, f: Files, op: Op)
    requires op.GcOp? && ObjectWrites(g, f, op).Some? && ObjectWrites(g, f, op).value != []
    ensures op.releaseId in f.receipts
    ensures var name := HistoryName(f.receipts[op.releaseId].catalogRevision, f.receipts[op.releaseId].catalogHash);
            var h := ApplyAll(f, ObjectWrites(g, f, op).value);
            && name in f.revisions && h.revisions == f.revisions - {name} && h.receipts == f.receipts
            && op.deleteId in h.audits && h.audits == f.audits[op.deleteId := h.audits[op.deleteId]]
            && h.audits[op.deleteId].revision == name.revision && h.audits[op.deleteId].catalogHash == name.catalogHash
            && (op.deleteId in f.audits ==> h.audits == f.audits)
  {
    CollectionForms(g, f, op);
    OneOrTwo(f, ObjectWrites(g, f, op).value);
  }

  lemma RowsAfterCollection(g: Grammar, f: Files, h: Files, name: HistoryName, deleteId: string)
    requires UniqueRevisions(f) && name in f.revisions && h.revisions == f.revisions - {name}
    requires deleteId in h.audits && h.audits == f.audits[deleteId := h.audits[deleteId]]
    requires h.audits[deleteId].revision == name.revision && h.audits[deleteId].catalogHash == name.catalogHash
    requires OneAuditPerRevision(h) && (deleteId in f.audits ==> h.audits == f.audits)
    ensures FilesRows(h) ==
            FilesRows(f) - {Row(name.revision, name.catalogHash, Present)}
              + {Row(name.revision, name.catalogHash, Deleted)}
  {
    var gone := Row(name.revision, name.catalogHash, Present);
    var kept := Row(name.revision, name.catalogHash, Deleted);
    assert !RevisionPresent(h, name.revision);
    forall revision: nat | revision != name.revision ensures RevisionPresent(h, revision)
      <==> RevisionPresent(f, revision) {
      if n :| n in f.revisions && n.revision == revision { assert n in h.revisions; }
    }
    forall row ensures row in FilesRows(h) <==> row in FilesRows(f) - {gone} + {kept} {
      if n :| n in h.revisions && row == Row(n.revision, n.catalogHash, Present) {
        assert n in f.revisions;
      }
      if id :| id in h.audits && !RevisionPresent(h, h.audits[id].revision)
               && row == Row(h.audits[id].revision, h.audits[id].catalogHash, Deleted) {
        if id != deleteId { assert h.audits[id].revision != name.revision; assert id in f.audits; }
      }
      if row in FilesRows(f) && row != gone {
        if n :| n in f.revisions && row == Row(n.revision, n.catalogHash, Present) {
          assert n in h.revisions;
        } else {
          var id :| id in f.audits && !RevisionPresent(f, f.audits[id].revision)
                    && row == Row(f.audits[id].revision, f.audits[id].catalogHash, Deleted);
          assert f.audits[id].revision != name.revision;
          assert id != deleteId && id in h.audits;
        }
      }
      if row == kept { assert deleteId in h.audits; }
    }
  }
}
