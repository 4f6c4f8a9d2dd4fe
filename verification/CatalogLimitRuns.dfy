/** Runs from an empty directory that reach the two limits of a collection. */
module CatalogLimitRuns {
  import opened Basics
  import opened RuntimeCatalog
  import opened CatalogIndex
  import opened CatalogFiles
  import opened CatalogSafety
  import opened CatalogHistory
  import opened CatalogCrash
  import opened CatalogLimits

  /** What the two runs name: an entry, a release, its owner, two deletes and a reason. */
  datatype Names = Names(entry: Entry, releaseId: string, owner: string, first: string, second: string, reason: string)

  ghost predicate NamesAccepted(g: Grammar, n: Names) {
    && g.entryOk(n.entry) && g.entryKeyOk(n.entry.entryKey)
    && g.uuidOk(n.releaseId) && g.uuidOk(n.owner) && g.uuidOk(n.first) && g.uuidOk(n.second)
    && g.reasonOk(n.reason) && n.first != n.second
  }

  // ------------------------------------------------------------------ the objects

  function First(n: Names): Catalog { Seal(Payload(1, [n.entry])) }

  function Second(n: Names): Catalog { Seal(Payload(2, [n.entry])) }

  /** Another catalog of the second one's number. */
  function OtherSecond(): Catalog { Seal(Payload(2, [])) }

  function RecordOf(c: Catalog): Record { Record(c.revision, c.catalogHash, c, 0) }

  function Held(c: Catalog): map<HistoryName, Record> { map[NameOf(RecordOf(c)) := RecordOf(c)] }

  function ReceiptFor(n: Names, c: Catalog): Receipt {
    Receipt(n.releaseId, n.entry.entryKey, c.revision, c.catalogHash, n.owner, 0, 0, RELEASE_RETENTION_MILLIS)
  }

  function AuditFor(n: Names, c: Catalog, deleteId: string): Audit {
    Audit(deleteId, c.revision, c.catalogHash, n.releaseId, n.owner, RELEASE_RETENTION_MILLIS, n.reason, RecordOf(c))
  }

  // ------------------------------------------------------------------ the operations

  function Bootstrapped(n: Names): Op { BootstrapOp(Payload(1, [n.entry]), 0) }

  function Appended(n: Names, c: Catalog): Op {
    AppendOp(Pin(1, First(n).catalogHash), Payload(c.revision, c.entries), [], 0)
  }

  function Released(n: Names): Op { ReleaseOp(n.entry.entryKey, [], n.releaseId, n.owner, 0, 0) }

  function Collected(n: Names, deleteId: string): Op {
    GcOp(n.releaseId, deleteId, n.owner, RELEASE_RETENTION_MILLIS, n.reason, [])
  }

  /** A step that completes. */
  function Done(op: Op, objects: seq<Write>, index: Index): Step {
    Operation(op, objects + [PutIndex(index)], |objects| + 1)
  }

  function AfterDone(f: Files, objects: seq<Write>, index: Index): Files {
    Apply(ApplyAll(f, objects), PutIndex(index))
  }

  /** An operation with these object writes, after which the index is that of the files. */
  ghost predicate CanDo(g: Grammar, f: Files, op: Op, objects: seq<Write>, index: Index) {
    && !op.RebuildOp? && !Locks(g, f, op) && ObjectWrites(g, f, op) == Some(objects)
    && IsRefresh(ApplyAll(f, objects), PutIndex(index))
  }

  ghost predicate StepsTo(g: Grammar, f: Files, s: Step, h: Files) { StepOk(g, f, s) && StepFiles(f, s) == h }

  /** Checked, open, and with nothing to repair. */
  ghost predicate Ready(g: Grammar, f: Files) {
    StoreInv(g, f) && OpenSpec(g, f).Opened? && (HoldsNothing(f) || IndexStored(f))
  }

  lemma DonePlan(f: Files, op: Op, objects: seq<Write>, index: Index)
    requires IsRefresh(ApplyAll(f, objects), PutIndex(index))
    ensures PlanOf(f, Some(objects), objects + [PutIndex(index)])
    ensures StepFiles(f, Done(op, objects, index)) == AfterDone(f, objects, index)
  {
    var ws := objects + [PutIndex(index)];
    assert ws[..|objects|] == objects && ws[..|objects| + 1] == ws;
    ApplyAllAppend(f, objects, PutIndex(index));
  }

  lemma DonePerforms(g: Grammar, f: Files, op: Op, objects: seq<Write>, index: Index)
    requires Ready(g, f) && CanDo(g, f, op, objects, index)
    ensures Performs(g, f, op, objects + [PutIndex(index)])
    ensures StepsTo(g, f, Done(op, objects, index), AfterDone(f, objects, index))
  {
    DonePlan(f, op, objects, index);
  }

  lemma OpenIsReady(g: Grammar, f: Files)
    requires RunInv(g, f) && OpenSpec(g, f).Opened? && IndexStored(f)
    ensures Ready(g, f)
  {
    if Locked(g, f) { TwoAuditsLockTheStore(g, f); }
  }

  lemma DoneFiles(g: Grammar, f: Files, op: Op, objects: seq<Write>, index: Index)
    requires CanDo(g, f, op, objects, index)
    ensures ApplyAll(f, objects + [PutIndex(index)]) == AfterDone(f, objects, index)
    ensures IndexStored(AfterDone(f, objects, index))
    ensures !Locks(g, f, op) && ObjectWrites(g, f, op) == Some(objects)
  {
    ApplyAllAppend(f, objects, PutIndex(index));
  }

  lemma DoneOpens(g: Grammar, f: Files, op: Op, objects: seq<Write>, index: Index)
    requires StoreInv(g, f) && CanDo(g, f, op, objects, index) && Performs(g, f, op, objects + [PutIndex(index)])
    ensures OpenSpec(g, AfterDone(f, objects, index)).Opened? && IndexStored(AfterDone(f, objects, index))
  {
    DoneFiles(g, f, op, objects, index);
    SomethingOpens(g, f, op, objects + [PutIndex(index)], objects);
  }

  lemma SomethingOpens(g: Grammar, f: Files, op: Op, ws: seq<Write>, objects: seq<Write>)
    requires StoreInv(g, f) && !Locks(g, f, op) && Performs(g, f, op, ws) && ws != []
    requires ObjectWrites(g, f, op) == Some(objects)
    ensures OpenSpec(g, ApplyAll(f, ws)).Opened?
  {
    CompletedOpens(g, f, op, ws, objects);
  }

  lemma StepsKeepInv(g: Grammar, f: Files, s: Step, h: Files)
    requires StoreInv(g, f) && StepsTo(g, f, s, h)
    ensures RunInv(g, h)
  {
    StepKeepsInv(g, f, s);
  }

  lemma ReadyParts(g: Grammar, f: Files)
    requires Ready(g, f)
    ensures StoreInv(g, f)
  {
  }

  /** A completed step of a ready store that no second audit locks leaves a ready store. */
  lemma DoneIsReady(g: Grammar, f: Files, op: Op, objects: seq<Write>, index: Index)
    requires Ready(g, f) && CanDo(g, f, op, objects, index)
    ensures StepsTo(g, f, Done(op, objects, index), AfterDone(f, objects, index))
    ensures Ready(g, AfterDone(f, objects, index))
  {
    ReadyParts(g, f);
    DonePerforms(g, f, op, objects, index);
    DoneOpens(g, f, op, objects, index);
    StepsKeepInv(g, f, Done(op, objects, index), AfterDone(f, objects, index));
    OpenIsReady(g, AfterDone(f, objects, index));
  }

  // ------------------------------------------------------------------ indexes and rows

  function RowEntry(c: Catalog, status: EntryStatus): IndexEntry {
    IndexEntry(c.revision, c.catalogHash, status, 0, None, if status == Deleted then Some(0) else None)
  }

  function OneIndex(c: Catalog): Index { Index(c.revision, c.catalogHash, [RowEntry(c, Present)], 0) }

  /** The index of two catalogs: it points at the second one unless that is deleted. */
  function TwoIndex(a: Catalog, b: Catalog, first: EntryStatus, second: EntryStatus): Index {
    var top := if second == Present then b else a;
    Index(top.revision, top.catalogHash, [RowEntry(a, first), RowEntry(b, second)], 0)
  }

  function TwoRows(a: Catalog, b: Catalog, first: EntryStatus, second: EntryStatus): set<Row> {
    {Row(a.revision, a.catalogHash, first), Row(b.revision, b.catalogHash, second)}
  }

  lemma OneIndexRows(c: Catalog)
    requires 1 <= c.revision <= U53_MAX
    ensures IndexOk(OneIndex(c)) && IndexRows(OneIndex(c)) == {Row(c.revision, c.catalogHash, Present)}
  {
    var es := OneIndex(c).revisions;
    assert IsHighestPresent(es, 0);
    assert es[0] in es;
  }

  lemma TwoIndexRows(a: Catalog, b: Catalog, first: EntryStatus, second: EntryStatus)
    requires 1 <= a.revision < b.revision <= U53_MAX && (first == Present || second == Present)
    ensures IndexOk(TwoIndex(a, b, first, second))
    ensures IndexRows(TwoIndex(a, b, first, second)) == TwoRows(a, b, first, second)
  {
    var es := TwoIndex(a, b, first, second).revisions;
    assert IsHighestPresent(es, if second == Present then 1 else 0);
    assert es[0] in es && es[1] in es;
  }

  lemma RowsOfBoth(a: Catalog, b: Catalog, f: Files)
    requires f.revisions == Held(a) + Held(b) && a.revision < b.revision
    requires forall id :: id in f.audits ==> f.audits[id].revision == a.revision || f.audits[id].revision == b.revision
    ensures FilesRows(f) == TwoRows(a, b, Present, Present)
  {
    assert NameOf(RecordOf(a)) in f.revisions && NameOf(RecordOf(b)) in f.revisions;
    assert RevisionPresent(f, a.revision) && RevisionPresent(f, b.revision);
  }

  lemma RowsAfterDrop(n: Names, a: Catalog, b: Catalog, f: Files, deleteId: string)
    requires f.revisions == Held(a) && a.revision != b.revision && f.audits == map[deleteId := AuditFor(n, b, deleteId)]
    ensures FilesRows(f) == {Row(a.revision, a.catalogHash, Present), Row(b.revision, b.catalogHash, Deleted)}
  {
    assert NameOf(RecordOf(a)) in f.revisions && deleteId in f.audits;
    assert !RevisionPresent(f, b.revision);
  }

  lemma CurrentOfBoth(a: Catalog, b: Catalog, f: Files)
    requires f.revisions == Held(a) + Held(b) && a.revision < b.revision
    ensures f.revisions != map[] && CurrentOf(f) == b
  {
    assert IsTop(f, NameOf(RecordOf(b)));
    CurrentIsTop(f, NameOf(RecordOf(b)));
  }

  lemma CurrentOfOne(a: Catalog, f: Files)
    requires f.revisions == Held(a)
    ensures f.revisions != map[] && CurrentOf(f) == a
  {
    assert IsTop(f, NameOf(RecordOf(a)));
    CurrentIsTop(f, NameOf(RecordOf(a)));
  }

  // ------------------------------------------------------------------ each operation on the files it meets

  lemma AfterOne(f: Files, w: Write)
    ensures ApplyAll(f, [w]) == Apply(f, w)
  {
    OneOrTwo(f, [w]);
  }

  lemma CanBootstrap(g: Grammar, n: Names)
    requires NamesAccepted(g, n)
    ensures Ready(g, NO_FILES)
    ensures CanDo(g, NO_FILES, Bootstrapped(n), [PutRevision(RecordOf(First(n)))], OneIndex(First(n)))
  {
    AfterOne(NO_FILES, PutRevision(RecordOf(First(n))));
    OneIndexRows(First(n));
    assert FilesRows(Files(Held(First(n)), map[], map[], NoIndex)) == {Row(1, First(n).catalogHash, Present)} by {
      assert NameOf(RecordOf(First(n))) in Held(First(n));
    }
  }

  lemma AppendAnswers(g: Grammar, n: Names, c: Catalog)
    requires NamesAccepted(g, n) && (c == Second(n) || c == OtherSecond())
    ensures AppendRevision(g, First(n), Pin(1, First(n).catalogHash), Payload(c.revision, c.entries), []) == Ok(c)
  {
    assert PayloadOk(g, Payload(c.revision, c.entries));
    assert !DropsProtected(First(n).entries, c.entries, []);
    assert !RegressesRevocation(First(n).entries, c.entries);
  }

  lemma CanAppend(g: Grammar, n: Names, f: Files, c: Catalog)
    requires NamesAccepted(g, n) && (c == Second(n) || c == OtherSecond())
    requires f.revisions == Held(First(n)) && forall id :: id in f.audits ==> f.audits[id].revision == 2
    ensures CanDo(g, f, Appended(n, c), [PutRevision(RecordOf(c))], TwoIndex(First(n), c, Present, Present))
  {
    AppendAnswers(g, n, c);
    CurrentOfOne(First(n), f);
    AfterOne(f, PutRevision(RecordOf(c)));
    TwoIndexRows(First(n), c, Present, Present);
    RowsOfBoth(First(n), c, Apply(f, PutRevision(RecordOf(c))));
  }

  lemma CanRelease(g: Grammar, n: Names, f: Files, c: Catalog, index: Index)
    requires NamesAccepted(g, n) && f.revisions != map[] && CurrentOf(f) == c && f.receipts == map[]
    requires (c == First(n) || c == Second(n)) && IsRefresh(f, PutIndex(index))
    ensures CanDo(g, f, Released(n), [PutReceipt(ReceiptFor(n, c))], index)
  {
    assert FindEntry(c.entries, n.entry.entryKey) == 0;
    AfterOne(f, PutReceipt(ReceiptFor(n, c)));
    var h := Apply(f, PutReceipt(ReceiptFor(n, c)));
    assert forall revision :: RevisionPresent(h, revision) <==> RevisionPresent(f, revision);
  }

  /** Both revisions, a receipt for one of them, and audits that are not the request's. */
  ghost predicate Collectable(n: Names, f: Files, c: Catalog, deleteId: string) {
    && (c == First(n) || c == Second(n)) && f.revisions == Held(First(n)) + Held(Second(n))
    && f.receipts == map[n.releaseId := ReceiptFor(n, c)] && deleteId !in f.audits
  }

  lemma CollectAnswers(g: Grammar, n: Names, f: Files, c: Catalog, deleteId: string)
    requires NamesAccepted(g, n) && Collectable(n, f, c, deleteId) && g.uuidOk(deleteId)
    ensures ObjectWrites(g, f, Collected(n, deleteId)) ==
            Some([PutAudit(AuditFor(n, c, deleteId)), DropRevision(NameOf(RecordOf(c)))])
  {
    assert FindEntry(c.entries, n.entry.entryKey) == 0;
    assert f.revisions.Keys == {NameOf(RecordOf(First(n))), NameOf(RecordOf(Second(n)))};
    assert |f.revisions| == |f.revisions.Keys| == 2;
  }

  lemma CanCollect(g: Grammar, n: Names, f: Files, c: Catalog, index: Index)
    requires NamesAccepted(g, n) && Collectable(n, f, c, n.first) && f.audits == map[]
    requires index == if c == First(n) then TwoIndex(First(n), Second(n), Deleted, Present)
                      else TwoIndex(First(n), Second(n), Present, Deleted)
    ensures CanDo(g, f, Collected(n, n.first), [PutAudit(AuditFor(n, c, n.first)), DropRevision(NameOf(RecordOf(c)))],
                  index)
  {
    CollectAnswers(g, n, f, c, n.first);
    var objects := [PutAudit(AuditFor(n, c, n.first)), DropRevision(NameOf(RecordOf(c)))];
    OneOrTwo(f, objects);
    var h := ApplyAll(f, objects);
    var other := if c == First(n) then Second(n) else First(n);
    assert h.revisions == Held(other);
    RowsAfterDrop(n, other, c, h, n.first);
    TwoIndexRows(First(n), Second(n), if c == First(n) then Deleted else Present, if c == First(n) then Present
                 else Deleted);
  }

  // ------------------------------------------------------------------ runs

  lemma {:induction false} EverListedAfterAll(f: Files, ever: set<Record>, ws: seq<Write>)
    requires EverListed(f, ever)
    ensures EverListed(ApplyAll(f, ws), EverAfterAll(ever, ws)) && ever <= EverAfterAll(ever, ws)
    decreases |ws|
  {
    if ws != [] {
      EverListedAfterAll(f, ever, ws[..|ws| - 1]);
      EverListedKept(ApplyAll(f, ws[..|ws| - 1]), EverAfterAll(ever, ws[..|ws| - 1]), ws[|ws| - 1]);
    }
  }

  lemma {:induction false} RunGrows(g: Grammar, f: Files, ever: set<Record>, steps: seq<Step>, s: Step, h: Files)
    requires ValidHistory(g, f, steps) && StepsTo(g, FilesAfter(f, steps), s, h)
    ensures ValidHistory(g, f, steps + [s]) && FilesAfter(f, steps + [s]) == h
    ensures EverStored(ever, steps + [s]) == StepEver(EverStored(ever, steps), s)
    ensures CollectsWithinLimits(g, f, steps)
            && (s.Operation? ==> GcBelowCurrent(FilesAfter(f, steps), s.op) && !Locks(g, FilesAfter(f, steps), s.op))
            ==> CollectsWithinLimits(g, f, steps + [s])
    decreases |steps|
  {
    if steps == [] {
      assert (steps + [s])[1..] == [];
    } else {
      assert (steps + [s])[1..] == steps[1..] + [s];
      RunGrows(g, StepFiles(f, steps[0]), StepEver(ever, steps[0]), steps[1..], s, h);
    }
  }

  /** What the run leaves; every record it finds there was stored by the run. */
  ghost predicate Reached(g: Grammar, steps: seq<Step>, f: Files) {
    ValidHistory(g, NO_FILES, steps) && FilesAfter(NO_FILES, steps) == f && EverListed(f, EverStored({}, steps))
  }

  lemma ReachMore(g: Grammar, steps: seq<Step>, f: Files, s: Step, h: Files)
    requires Reached(g, steps, f) && StepsTo(g, f, s, h) && s.Operation?
    ensures Reached(g, steps + [s], h) && EverStored({}, steps) <= EverStored({}, steps + [s])
    ensures CollectsWithinLimits(g, NO_FILES, steps) && GcBelowCurrent(f, s.op) && !Locks(g, f, s.op)
            ==> CollectsWithinLimits(g, NO_FILES, steps + [s])
  {
    RunGrows(g, NO_FILES, {}, steps, s, h);
    EverListedAfterAll(f, EverStored({}, steps), s.writes[..s.done]);
  }

  /** A run that leaves a ready store; its collections are within limits if `limited`. */
  ghost predicate Stands(g: Grammar, steps: seq<Step>, f: Files, limited: bool) {
    Reached(g, steps, f) && Ready(g, f) && (limited ==> CollectsWithinLimits(g, NO_FILES, steps))
  }

  lemma Advance(g: Grammar, steps: seq<Step>, f: Files, op: Op, objects: seq<Write>, index: Index, limited: bool)
    requires Stands(g, steps, f, limited) && CanDo(g, f, op, objects, index) && (limited ==> GcBelowCurrent(f, op))
    ensures Stands(g, steps + [Done(op, objects, index)], AfterDone(f, objects, index), limited)
    ensures EverStored({}, steps) <= EverStored({}, steps + [Done(op, objects, index)])
  {
    DoneIsReady(g, f, op, objects, index);
    ReachMore(g, steps, f, Done(op, objects, index), AfterDone(f, objects, index));
  }

  // ------------------------------------------------------------------ a run that is locked by its next step

  function BootstrapStep(n: Names): Step {
    Done(Bootstrapped(n), [PutRevision(RecordOf(First(n)))], OneIndex(First(n)))
  }

  function AppendStep(n: Names, c: Catalog): Step {
    Done(Appended(n, c), [PutRevision(RecordOf(c))], TwoIndex(First(n), c, Present, Present))
  }

  function ReleaseStep(n: Names, c: Catalog, index: Index): Step {
    Done(Released(n), [PutReceipt(ReceiptFor(n, c))], index)
  }

  function CollectObjects(n: Names, c: Catalog, deleteId: string): seq<Write> {
    [PutAudit(AuditFor(n, c, deleteId)), DropRevision(NameOf(RecordOf(c)))]
  }

  /** A first revision, and a second one under way. */
  function FirstFiles(n: Names, receipts: map<string, Receipt>): Files {
    Files(Held(First(n)), receipts, map[], ParsedIndex(OneIndex(First(n))))
  }

  function BothFiles(n: Names, receipts: map<string, Receipt>, audits: map<string, Audit>): Files {
    Files(Held(First(n)) + Held(Second(n)), receipts, audits,
          ParsedIndex(TwoIndex(First(n), Second(n), Present, Present)))
  }

  lemma BootstrapStands(g: Grammar, n: Names)
    requires NamesAccepted(g, n)
    ensures Stands(g, [BootstrapStep(n)], FirstFiles(n, map[]), true)
  {
    CanBootstrap(g, n);
    AfterOne(NO_FILES, PutRevision(RecordOf(First(n))));
    Advance(g, [], NO_FILES, Bootstrapped(n), [PutRevision(RecordOf(First(n)))], OneIndex(First(n)), true);
    assert [] + [BootstrapStep(n)] == [BootstrapStep(n)];
  }

  lemma FirstRows(n: Names, receipts: map<string, Receipt>)
    ensures IsRefresh(FirstFiles(n, receipts), PutIndex(OneIndex(First(n))))
  {
    OneIndexRows(First(n));
    assert NameOf(RecordOf(First(n))) in Held(First(n));
  }

  lemma BothRows(n: Names, receipts: map<string, Receipt>)
    ensures IsRefresh(BothFiles(n, receipts, map[]), PutIndex(TwoIndex(First(n), Second(n), Present, Present)))
  {
    TwoIndexRows(First(n), Second(n), Present, Present);
    RowsOfBoth(First(n), Second(n), BothFiles(n, receipts, map[]));
  }

  lemma Appending(g: Grammar, n: Names, steps: seq<Step>, f: Files, c: Catalog, limited: bool)
    requires NamesAccepted(g, n) && Stands(g, steps, f, limited) && (c == Second(n) || c == OtherSecond())
    requires f.revisions == Held(First(n)) && forall id :: id in f.audits ==> f.audits[id].revision == 2
    ensures Stands(g, steps + [AppendStep(n, c)],
                   Files(Held(First(n)) + Held(c), f.receipts, f.audits,
                         ParsedIndex(TwoIndex(First(n), c, Present, Present))),
                   limited)
    ensures EverStored({}, steps) <= EverStored({}, steps + [AppendStep(n, c)])
  {
    CanAppend(g, n, f, c);
    AppendedFiles(n, f, c);
    Advance(g, steps, f, Appended(n, c), [PutRevision(RecordOf(c))], TwoIndex(First(n), c, Present, Present), limited);
  }

  lemma AppendedFiles(n: Names, f: Files, c: Catalog)
    requires f.revisions == Held(First(n))
    ensures AfterDone(f, [PutRevision(RecordOf(c))], TwoIndex(First(n), c, Present, Present)) ==
            Files(Held(First(n)) + Held(c), f.receipts, f.audits, ParsedIndex(TwoIndex(First(n), c, Present, Present)))
  {
    AfterOne(f, PutRevision(RecordOf(c)));
    assert f.revisions[NameOf(RecordOf(c)) := RecordOf(c)] == Held(First(n)) + Held(c);
  }

  lemma Releasing(g: Grammar, n: Names, steps: seq<Step>, f: Files, c: Catalog, index: Index)
    requires NamesAccepted(g, n) && Stands(g, steps, f, true) && f.index == ParsedIndex(index)
             && IsRefresh(f, PutIndex(index))
    requires f.revisions != map[] && CurrentOf(f) == c && f.receipts == map[] && (c == First(n) || c == Second(n))
    ensures Stands(g, steps + [ReleaseStep(n, c, index)], f.(receipts := map[n.releaseId := ReceiptFor(n, c)]), true)
  {
    CanRelease(g, n, f, c, index);
    ReleasedFiles(n, f, c, index);
    Advance(g, steps, f, Released(n), [PutReceipt(ReceiptFor(n, c))], index, true);
  }

  lemma ReleasedFiles(n: Names, f: Files, c: Catalog, index: Index)
    requires f.receipts == map[] && f.index == ParsedIndex(index)
    ensures AfterDone(f, [PutReceipt(ReceiptFor(n, c))], index) == f.(receipts := map[n.releaseId := ReceiptFor(n, c)])
  {
    AfterOne(f, PutReceipt(ReceiptFor(n, c)));
    assert f.receipts[n.releaseId := ReceiptFor(n, c)] == map[n.releaseId := ReceiptFor(n, c)];
  }

  /** Bootstrap, release, append. */
  function ReleasedFirst(n: Names): seq<Step> {
    [BootstrapStep(n)] + [ReleaseStep(n, First(n), OneIndex(First(n)))] + [AppendStep(n, Second(n))]
  }

  lemma ReleasedFirstStands(g: Grammar, n: Names)
    requires NamesAccepted(g, n)
    ensures Stands(g, ReleasedFirst(n), BothFiles(n, map[n.releaseId := ReceiptFor(n, First(n))], map[]), true)
  {
    var index := OneIndex(First(n));
    var f1 := FirstFiles(n, map[]);
    BootstrapStands(g, n);
    CurrentOfOne(First(n), f1);
    FirstRows(n, map[]);
    Releasing(g, n, [BootstrapStep(n)], f1, First(n), index);
    Appending(g, n, [BootstrapStep(n)] + [ReleaseStep(n, First(n), index)],
              FirstFiles(n, map[n.releaseId := ReceiptFor(n, First(n))]), Second(n), true);
  }

  /** Bootstrap, append, release of the second revision. */
  function ReleasedSecond(n: Names): seq<Step> {
    [BootstrapStep(n)] + [AppendStep(n, Second(n))]
    + [ReleaseStep(n, Second(n), TwoIndex(First(n), Second(n), Present, Present))]
  }

  lemma ReleasedSecondStands(g: Grammar, n: Names)
    requires NamesAccepted(g, n)
    ensures Stands(g, ReleasedSecond(n), BothFiles(n, map[n.releaseId := ReceiptFor(n, Second(n))], map[]), true)
    ensures RecordOf(Second(n)) in EverStored({}, ReleasedSecond(n))
  {
    var f1, f2 := FirstFiles(n, map[]), BothFiles(n, map[], map[]);
    BootstrapStands(g, n);
    Appending(g, n, [BootstrapStep(n)], f1, Second(n), true);
    CurrentOfBoth(First(n), Second(n), f2);
    BothRows(n, map[]);
    Releasing(g, n, [BootstrapStep(n)] + [AppendStep(n, Second(n))], f2, Second(n),
              TwoIndex(First(n), Second(n), Present, Present));
    HoldsBoth(g, ReleasedSecond(n), n, Second(n), BothFiles(n, map[n.releaseId := ReceiptFor(n, Second(n))], map[]));
  }

  lemma HoldsBoth(g: Grammar, steps: seq<Step>, n: Names, c: Catalog, f: Files)
    requires Reached(g, steps, f) && f.revisions == Held(First(n)) + Held(c)
    ensures RecordOf(c) in EverStored({}, steps)
  {
    assert NameOf(RecordOf(c)) in f.revisions;
  }

  // ------------------------------------------------------------------ a second delete id

  /** Then a collection of the first revision that is cut after its audit. */
  function CutCollectStep(n: Names): Step {
    Operation(Collected(n, n.first),
              CollectObjects(n, First(n), n.first) + [PutIndex(TwoIndex(First(n), Second(n), Deleted, Present))], 1)
  }

  function PendingFiles(n: Names): Files {
    BothFiles(n, map[n.releaseId := ReceiptFor(n, First(n))], map[n.first := AuditFor(n, First(n), n.first)])
  }

  lemma BelowSecond(n: Names, f: Files)
    requires f.revisions == Held(First(n)) + Held(Second(n))
    ensures f.revisions != map[] && TopRevision(f) == 2
  {
    assert NameOf(RecordOf(Second(n))) in f.revisions;
  }

  lemma CutCollectStepsTo(g: Grammar, n: Names, f: Files)
    requires NamesAccepted(g, n) && Ready(g, f) && f == BothFiles(n, map[n.releaseId := ReceiptFor(n, First(n))], map[])
    ensures StepsTo(g, f, CutCollectStep(n), PendingFiles(n))
    ensures GcBelowCurrent(f, Collected(n, n.first)) && !Locks(g, f, Collected(n, n.first))
  {
    var objects, index := CollectObjects(n, First(n), n.first), TwoIndex(First(n), Second(n), Deleted, Present);
    CanCollect(g, n, f, First(n), index);
    DonePerforms(g, f, Collected(n, n.first), objects, index);
    assert (objects + [PutIndex(index)])[..1] == [objects[0]];
    AfterOne(f, objects[0]);
    BelowSecond(n, f);
  }

  function PendingRun(n: Names): seq<Step> { ReleasedFirst(n) + [CutCollectStep(n)] }

  lemma PendingRunReached(g: Grammar, n: Names)
    requires NamesAccepted(g, n)
    ensures Reached(g, PendingRun(n), PendingFiles(n)) && CollectsWithinLimits(g, NO_FILES, PendingRun(n))
  {
    var f := BothFiles(n, map[n.releaseId := ReceiptFor(n, First(n))], map[]);
    ReleasedFirstStands(g, n);
    CutCollectStepsTo(g, n, f);
    ReachMore(g, ReleasedFirst(n), f, CutCollectStep(n), PendingFiles(n));
  }

  lemma PendingRunOpens(g: Grammar, n: Names)
    requires NamesAccepted(g, n)
    ensures OpenSpec(g, PendingFiles(n)).Opened?
  {
    var f := BothFiles(n, map[n.releaseId := ReceiptFor(n, First(n))], map[]);
    ReleasedFirstStands(g, n);
    CutCollectStepsTo(g, n, f);
    CollectAnswers(g, n, f, First(n), n.first);
    PendingOpens(g, f, Collected(n, n.first), AuditFor(n, First(n), n.first), NameOf(RecordOf(First(n))));
  }

  lemma SecondDeleteIdPerforms(g: Grammar, n: Names)
    requires NamesAccepted(g, n) && OpenSpec(g, PendingFiles(n)).Opened?
    ensures var f, op, objects := PendingFiles(n), Collected(n, n.second), CollectObjects(n, First(n), n.second);
            && ObjectWrites(g, f, op) == Some(objects) && !GcSameDeleteId(f, op)
            && Performs(g, f, op, objects) && OpenSpec(g, ApplyAll(f, objects)).Refused?
  {
    var f, op, objects := PendingFiles(n), Collected(n, n.second), CollectObjects(n, First(n), n.second);
    CollectAnswers(g, n, f, First(n), n.second);
    TwoAuditsStand(n);
    assert !NeedsRepair(f, op) by { TwoIndexRows(First(n), Second(n), Present, Present); }
    TwoAuditsLockTheStore(g, ApplyAll(f, objects));
  }

  lemma TwoAuditsStand(n: Names)
    requires n.first != n.second
    ensures !GcSameDeleteId(PendingFiles(n), Collected(n, n.second))
    ensures !OneAuditPerRevision(ApplyAll(PendingFiles(n), CollectObjects(n, First(n), n.second)))
  {
    var f := PendingFiles(n);
    assert n.first in f.audits && f.audits[n.first].revision == 1;
    OneOrTwo(f, CollectObjects(n, First(n), n.second));
    var h := ApplyAll(f, CollectObjects(n, First(n), n.second));
    assert n.first in h.audits && n.second in h.audits && h.audits[n.first].revision == h.audits[n.second].revision;
  }

  /** Bootstrap, release, append, and a collection cut after its audit: the store opens, every
      collection so far is within limits, and a collection under another delete id locks it. */
  lemma SecondDeleteIdLocks(g: Grammar, n: Names)
    requires NamesAccepted(g, n)
    ensures var f, op := FilesAfter(NO_FILES, PendingRun(n)), Collected(n, n.second);
            var objects := CollectObjects(n, First(n), n.second);
            && ValidHistory(g, NO_FILES, PendingRun(n)) && CollectsWithinLimits(g, NO_FILES, PendingRun(n))
            && OpenSpec(g, f).Opened? && !GcSameDeleteId(f, op)
            && ObjectWrites(g, f, op) == Some(objects) && Performs(g, f, op, objects)
            && OpenSpec(g, ApplyAll(f, objects)).Refused?
  {
    PendingRunReached(g, n);
    PendingRunOpens(g, n);
    SecondDeleteIdPerforms(g, n);
  }

  // ------------------------------------------------------------------ a number issued twice

  /** Then a collection of the second, current, revision. */
  function CollectCurrentStep(n: Names): Step {
    Done(Collected(n, n.first), CollectObjects(n, Second(n), n.first), TwoIndex(First(n), Second(n), Present, Deleted))
  }

  function CollectedFiles(n: Names): Files {
    Files(Held(First(n)), map[n.releaseId := ReceiptFor(n, Second(n))], map[n.first := AuditFor(n, Second(n), n.first)],
          ParsedIndex(TwoIndex(First(n), Second(n), Present, Deleted)))
  }

  function CollectedRun(n: Names): seq<Step> { ReleasedSecond(n) + [CollectCurrentStep(n)] }

  function ReissuingRun(n: Names): seq<Step> { CollectedRun(n) + [AppendStep(n, OtherSecond())] }

  lemma CollectedCurrentFiles(n: Names, f: Files)
    requires f == BothFiles(n, map[n.releaseId := ReceiptFor(n, Second(n))], map[])
    ensures AfterDone(f, CollectObjects(n, Second(n), n.first), TwoIndex(First(n), Second(n), Present, Deleted)) ==
            CollectedFiles(n)
  {
    OneOrTwo(f, CollectObjects(n, Second(n), n.first));
    assert f.revisions - {NameOf(RecordOf(Second(n)))} == Held(First(n));
  }

  lemma CollectedRunStands(g: Grammar, n: Names)
    requires NamesAccepted(g, n)
    ensures Stands(g, CollectedRun(n), CollectedFiles(n), false)
            && RecordOf(Second(n)) in EverStored({}, CollectedRun(n))
  {
    var f := BothFiles(n, map[n.releaseId := ReceiptFor(n, Second(n))], map[]);
    var index := TwoIndex(First(n), Second(n), Present, Deleted);
    ReleasedSecondStands(g, n);
    CanCollect(g, n, f, Second(n), index);
    CollectedCurrentFiles(n, f);
    Advance(g, ReleasedSecond(n), f, Collected(n, n.first), CollectObjects(n, Second(n), n.first), index, false);
  }

  lemma ReissuingRunStands(g: Grammar, n: Names)
    requires NamesAccepted(g, n)
    ensures ValidHistory(g, NO_FILES, ReissuingRun(n)) && RecordOf(Second(n)) in EverStored({}, ReissuingRun(n))
    ensures RecordOf(OtherSecond()) in EverStored({}, ReissuingRun(n))
  {
    var f := CollectedFiles(n);
    CollectedRunStands(g, n);
    Appending(g, n, CollectedRun(n), f, OtherSecond(), false);
    HoldsBoth(g, ReissuingRun(n), n, OtherSecond(),
              Files(Held(First(n)) + Held(OtherSecond()), f.receipts, f.audits,
                    ParsedIndex(TwoIndex(First(n), OtherSecond(), Present, Present))));
  }

  lemma CurrentDrops(n: Names, f: Files)
    requires f == BothFiles(n, map[n.releaseId := ReceiptFor(n, Second(n))], map[])
    ensures f.revisions != map[] && CurrentOf(f).revision == 2 && !GcBelowCurrent(f, CollectCurrentStep(n).op)
    ensures CollectedFiles(n).revisions != map[] && CurrentOf(CollectedFiles(n)).revision == 1
  {
    CurrentOfBoth(First(n), Second(n), f);
    CurrentOfOne(First(n), CollectedFiles(n));
    BelowSecond(n, f);
  }

  /** Bootstrap, append, release, and a collection of the current revision: the current number
      drops, and the next append stores another record under a number that was issued before. */
  lemma CollectedNumberIsIssuedAgain(g: Grammar, n: Names)
    requires NamesAccepted(g, n)
    ensures var f, h := FilesAfter(NO_FILES, ReleasedSecond(n)), FilesAfter(NO_FILES, CollectedRun(n));
            && f.revisions != map[] && CurrentOf(f).revision == 2 && h.revisions != map[] && CurrentOf(h).revision == 1
            && CollectsWithinLimits(g, NO_FILES, ReleasedSecond(n)) && !GcBelowCurrent(f, CollectCurrentStep(n).op)
    ensures var ever := EverStored({}, ReissuingRun(n));
            && ValidHistory(g, NO_FILES, ReissuingRun(n))
            && exists r, s :: r in ever && s in ever && r.revision == s.revision && r != s
  {
    ReleasedSecondStands(g, n);
    CollectedRunStands(g, n);
    ReissuingRunStands(g, n);
    CurrentDrops(n, FilesAfter(NO_FILES, ReleasedSecond(n)));
    assert RecordOf(Second(n)) != RecordOf(OtherSecond());
  }
}
