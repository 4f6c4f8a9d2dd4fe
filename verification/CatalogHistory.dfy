/** Conservation of the catalog's history over every sequence of owner operations, each cut
    short after any of its writes, while collections stay below the current revision and none
    stores a second audit.  CatalogLimits and CatalogLimitRuns show what happens otherwise. */
module CatalogHistory {
  import opened RuntimeCatalog
  import opened CatalogFiles
  import opened CatalogSafety

  // ------------------------------------------------------------------ the invariant

  predicate StillThere(f: Files, r: Record) {
    NameOf(r) in f.revisions && f.revisions[NameOf(r)] == r
  }

  /** The record is there unchanged, or an audit accounts for it. */
  ghost predicate Accounted(f: Files, r: Record) {
    StillThere(f, r) || AuditAccounts(f, r)
  }

  ghost predicate AuditsInv(f: Files) {
    forall id :: id in f.audits
      ==> Accounts(f, f.audits[id], f.audits[id].objectDigest) && BelowTop(f, f.audits[id].revision)
  }

  ghost predicate EverListed(f: Files, ever: set<Record>) {
    forall n :: n in f.revisions ==> f.revisions[n] in ever
  }

  ghost predicate EverAccounted(f: Files, ever: set<Record>) {
    forall r :: r in ever ==> Accounted(f, r)
  }

  ghost predicate EverBelowTop(f: Files, ever: set<Record>) {
    forall r :: r in ever ==> AtMostTop(f, r.revision)
  }

  ghost predicate EverUnique(ever: set<Record>) {
    forall r, s :: r in ever && s in ever && r.revision == s.revision ==> r == s
  }

  /** `ever` is every record a revision file was ever written with. */
  ghost predicate HistoryInv(g: Grammar, f: Files, ever: set<Record>) {
    && StoreInv(g, f) && AuditsInv(f)
    && EverListed(f, ever) && EverAccounted(f, ever) && EverBelowTop(f, ever) && EverUnique(ever)
  }

  function EverAfter(ever: set<Record>, w: Write): set<Record> {
    if w.PutRevision? then ever + {w.record} else ever
  }

  function EverAfterAll(ever: set<Record>, ws: seq<Write>): set<Record> {
    if ws == [] then ever else EverAfter(EverAfterAll(ever, ws[..|ws| - 1]), ws[|ws| - 1])
  }

  // ------------------------------------------------------------------ one write

  /** A collected record is never the highest one. */
  lemma DroppedIsBelowTop(g: Grammar, f: Files, name: HistoryName)
    requires ObjectsOk(g, f) && AuditsInv(f) && SafeWrite(g, f, DropRevision(name), true)
    ensures Audited(Apply(f, DropRevision(name)), name.revision)
    ensures BelowTop(f, name.revision)
  {
    var d :| d in f.audits && Accounts(f, f.audits[d], f.revisions[name]);
    assert NameOf(f.revisions[name]) == name;
    assert d in Apply(f, DropRevision(name)).audits;
  }

  lemma TopKept(g: Grammar, f: Files, w: Write, revision: nat)
    requires ObjectsOk(g, f) && AuditsInv(f) && SafeWrite(g, f, w, true)
    ensures AtMostTop(f, revision) ==> AtMostTop(Apply(f, w), revision)
    ensures BelowTop(f, revision) ==> BelowTop(Apply(f, w), revision)
  {
    var h := Apply(f, w);
    if f.revisions != map[] {
      var n :| n in f.revisions && n.revision == TopRevision(f);
      if w == DropRevision(n) { DroppedIsBelowTop(g, f, n); }
      assert n in h.revisions;
      TopIsAtLeast(h, n);
    }
  }

  /** While the history is conserved, the number of a record stored next is that of no audit. */
  lemma NextNumberIsNew(g: Grammar, f: Files, r: Record)
    requires AuditsInv(f) && SafeWrite(g, f, PutRevision(r), false)
    ensures !Audited(f, r.revision)
  {
    forall id | id in f.audits ensures f.audits[id].revision < r.revision {
      assert BelowTop(f, f.audits[id].revision);
      var n :| n in f.revisions && n.revision == TopRevision(f);
    }
  }

  lemma AccountsKept(f: Files, h: Files, a: Audit, r: Record)
    requires Keeps(f, h) && Accounts(f, a, r)
    ensures Accounts(h, a, r)
  {
  }

  lemma AuditsInvKept(g: Grammar, f: Files, w: Write)
    requires ObjectsOk(g, f) && AuditsInv(f) && SafeWrite(g, f, w, true)
    ensures AuditsInv(Apply(f, w))
  {
    var h := Apply(f, w);
    SafeWriteKeeps(g, f, w);
    forall id | id in h.audits
      ensures Accounts(h, h.audits[id], h.audits[id].objectDigest) && BelowTop(h, h.audits[id].revision)
    {
      var a := h.audits[id];
      assert Accounts(f, a, a.objectDigest) && BelowTop(f, a.revision);
      AccountsKept(f, h, a, a.objectDigest);
      TopKept(g, f, w, a.revision);
    }
  }

  lemma AccountedKept(g: Grammar, f: Files, w: Write, r: Record)
    requires ObjectsOk(g, f) && SafeWrite(g, f, w, true) && Accounted(f, r)
    requires AtMostTop(f, r.revision)
    ensures Accounted(Apply(f, w), r)
  {
    var h := Apply(f, w);
    SafeWriteKeeps(g, f, w);
    if !StillThere(f, r) || (w.DropRevision? && w.name == NameOf(r)) {
      var id :| id in f.audits && Accounts(f, f.audits[id], r);
      AccountsKept(f, h, f.audits[id], r);
      assert id in h.audits && Accounts(h, h.audits[id], r);
    } else {
      assert StillThere(h, r);
    }
  }

  lemma EverKept(g: Grammar, f: Files, ever: set<Record>, w: Write)
    requires ObjectsOk(g, f) && AuditsInv(f) && SafeWrite(g, f, w, true)
    requires EverAccounted(f, ever) && EverBelowTop(f, ever)
    ensures EverAccounted(Apply(f, w), EverAfter(ever, w)) && EverBelowTop(Apply(f, w), EverAfter(ever, w))
  {
    var h := Apply(f, w);
    forall r | r in EverAfter(ever, w) ensures Accounted(h, r) && AtMostTop(h, r.revision) {
      if r in ever {
        AccountedKept(g, f, w, r);
        TopKept(g, f, w, r.revision);
      } else {
        assert NameOf(r) in h.revisions && StillThere(h, r);
        TopIsAtLeast(h, NameOf(r));
      }
    }
  }

  lemma EverUniqueKept(g: Grammar, f: Files, ever: set<Record>, w: Write)
    requires EverUnique(ever) && EverBelowTop(f, ever) && SafeWrite(g, f, w, true)
    ensures EverUnique(EverAfter(ever, w))
  {
  }

  lemma EverListedKept(f: Files, ever: set<Record>, w: Write)
    requires EverListed(f, ever)
    ensures EverListed(Apply(f, w), EverAfter(ever, w))
  {
  }

  lemma SafeWriteKeepsInv(g: Grammar, f: Files, ever: set<Record>, w: Write)
    requires HistoryInv(g, f, ever) && SafeWrite(g, f, w, true)
    ensures HistoryInv(g, Apply(f, w), EverAfter(ever, w))
  {
    SafeWriteKeepsStore(g, f, w);
    AuditsInvKept(g, f, w);
    EverListedKept(f, ever, w);
    EverKept(g, f, ever, w);
    EverUniqueKept(g, f, ever, w);
  }

  /** Cut short after any of its writes, a safe list keeps the invariant. */
  lemma {:induction false} SafeWritesKeepInv(g: Grammar, f: Files, ever: set<Record>, ws: seq<Write>, k: nat)
    requires HistoryInv(g, f, ever) && AllSafe(g, f, ws, true) && k <= |ws|
    ensures HistoryInv(g, ApplyAll(f, ws[..k]), EverAfterAll(ever, ws[..k]))
    decreases k
  {
    if k > 0 {
      SafeWritesKeepInv(g, f, ever, ws, k - 1);
      assert ws[..k][..k - 1] == ws[..k - 1];
      SafeWriteKeepsInv(g, ApplyAll(f, ws[..k - 1]), EverAfterAll(ever, ws[..k - 1]), ws[k - 1]);
    }
  }

  // ------------------------------------------------------------------ conservation over whole runs

  /** No collection of the run is of the current revision or stores a second audit. */
  ghost predicate CollectsWithinLimits(g: Grammar, f: Files, steps: seq<Step>)
    decreases |steps|
  {
    steps != [] ==>
      && (steps[0].Operation? ==> GcBelowCurrent(f, steps[0].op) && !Locks(g, f, steps[0].op))
      && CollectsWithinLimits(g, StepFiles(f, steps[0]), steps[1..])
  }

  function StepEver(ever: set<Record>, s: Step): set<Record> {
    if s.Operation? && s.done <= |s.writes| then EverAfterAll(ever, s.writes[..s.done]) else ever
  }

  /** Every record written to a revision file by the run. */
  function EverStored(ever: set<Record>, steps: seq<Step>): set<Record>
    decreases |steps|
  {
    if steps == [] then ever else EverStored(StepEver(ever, steps[0]), steps[1..])
  }

  lemma SameObjectsAccounted(f: Files, h: Files, r: Record)
    requires SameObjects(f, h) && Accounted(f, r)
    ensures Accounted(h, r)
  {
    if id :| id in f.audits && Accounts(f, f.audits[id], r) {
      assert id in h.audits && Accounts(h, h.audits[id], r);
    }
  }

  lemma SameObjectsAudits(f: Files, h: Files)
    requires SameObjects(f, h) && AuditsInv(f)
    ensures AuditsInv(h)
  {
    forall id | id in h.audits
      ensures Accounts(h, h.audits[id], h.audits[id].objectDigest) && BelowTop(h, h.audits[id].revision)
    {
      assert Accounts(f, f.audits[id], f.audits[id].objectDigest);
      SameObjectsTop(f, h, f.audits[id].revision);
    }
  }

  lemma SameObjectsEver(f: Files, h: Files, ever: set<Record>)
    requires SameObjects(f, h) && EverAccounted(f, ever) && EverBelowTop(f, ever) && EverListed(f, ever)
    ensures EverAccounted(h, ever) && EverBelowTop(h, ever) && EverListed(h, ever)
  {
    forall r | r in ever ensures Accounted(h, r) && AtMostTop(h, r.revision) {
      SameObjectsAccounted(f, h, r);
      SameObjectsTop(f, h, r.revision);
    }
  }

  lemma SameObjectsInv(g: Grammar, f: Files, h: Files, ever: set<Record>)
    requires SameObjects(f, h) && HistoryInv(g, f, ever)
    ensures HistoryInv(g, h, ever)
  {
    SameObjectsStore(g, f, h);
    SameObjectsAudits(f, h);
    SameObjectsEver(f, h, ever);
  }

  lemma {:induction false} HistoryKeepsInv(g: Grammar, f: Files, ever: set<Record>, steps: seq<Step>)
    requires HistoryInv(g, f, ever) && ValidHistory(g, f, steps) && CollectsWithinLimits(g, f, steps)
    ensures HistoryInv(g, FilesAfter(f, steps), EverStored(ever, steps))
    decreases |steps|
  {
    if steps != [] {
      var s := steps[0];
      if s.Operation? {
        PerformedWritesAreSafe(g, f, s.op, s.writes, true);
        SafeWritesKeepInv(g, f, ever, s.writes, s.done);
      } else {
        SameObjectsInv(g, f, StepFiles(f, s), ever);
      }
      HistoryKeepsInv(g, StepFiles(f, s), StepEver(ever, s), steps[1..]);
    }
  }

  lemma NothingIsAnInv(g: Grammar)
    ensures HistoryInv(g, NO_FILES, {})
  {
  }

  /** The one audit of the record's revision accounts for it. */
  ghost predicate OneAuditAccounts(f: Files, r: Record) {
    exists id :: id in f.audits && Accounts(f, f.audits[id], r)
      && forall other :: other in f.audits && f.audits[other].revision == r.revision ==> other == id
  }

  lemma AccountedOnce(f: Files, r: Record)
    requires OneAuditPerRevision(f) && Accounted(f, r)
    ensures StillThere(f, r) || OneAuditAccounts(f, r)
  {
  }

  /** Conservation of history: after any run from an empty directory, crashes included, whose
      collections stay within limits, every record ever stored is still present unchanged, or
      exactly one audit stands for its revision, holds its digest and names a receipt whose
      retention had elapsed; and no two records ever stored share a revision number. */
  lemma HistoryIsConserved(g: Grammar, steps: seq<Step>, r: Record)
    requires ValidHistory(g, NO_FILES, steps) && CollectsWithinLimits(g, NO_FILES, steps) && r in EverStored({}, steps)
    ensures var f := FilesAfter(NO_FILES, steps);
            StillThere(f, r) || OneAuditAccounts(f, r)
    ensures forall s :: s in EverStored({}, steps) && s.revision == r.revision ==> s == r
  {
    NothingIsAnInv(g);
    HistoryKeepsInv(g, NO_FILES, {}, steps);
    AccountedOnce(FilesAfter(NO_FILES, steps), r);
  }
}
