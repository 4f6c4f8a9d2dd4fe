/** The catalog history index: its validator, its rebuild from history objects, and the
    semantic core two indexes are compared by. */
module CatalogIndex {
  import opened Basics
  import opened RuntimeCatalog

  datatype EntryStatus = Present | Deleted

  datatype IndexEntry = IndexEntry(
    revision: nat,
    catalogHash: Hash,
    status: EntryStatus,
    protectedReferenceCount: nat,
    releaseRetentionUntil: Option<int>,
    deletedAt: Option<int>)

  datatype Index = Index(
    currentRevision: nat,
    currentHash: Hash,
    revisions: seq<IndexEntry>,
    updatedAt: int)

  /** One line of the semantic core. */
  datatype Row = Row(revision: nat, catalogHash: Hash, status: EntryStatus)

  // ------------------------------------------------------------------ validity

  predicate IndexEntryOk(e: IndexEntry) {
    && 1 <= e.revision <= U53_MAX && e.protectedReferenceCount <= U53_MAX
    && (e.status == Deleted <==> e.deletedAt.Some?)
  }

  ghost predicate StrictlyRising(es: seq<IndexEntry>) {
    forall i, k :: 0 <= i < k < |es| ==> es[i].revision < es[k].revision
  }

  /** The entry with the highest revision that is not deleted. */
  ghost predicate IsHighestPresent(es: seq<IndexEntry>, i: nat) {
    i < |es| && es[i].status == Present && forall k :: i < k < |es| ==> es[k].status == Deleted
  }

  ghost predicate IndexOk(index: Index) {
    && (forall i :: 0 <= i < |index.revisions| ==> IndexEntryOk(index.revisions[i]))
    && StrictlyRising(index.revisions)
    && exists i: nat :: IsHighestPresent(index.revisions, i)
                   && index.currentRevision == index.revisions[i].revision
                   && index.currentHash == index.revisions[i].catalogHash
  }

  /** The validator: entries, neighbours, then the pointer against the last present entry. */
  method ValidateIndex(index: Index) returns (ok: bool)
    ensures ok <==> IndexOk(index)
  {
    var es := index.revisions;
    var i := 0;
    while i < |es|
      invariant 0 <= i <= |es|
      invariant forall k :: 0 <= k < i ==> IndexEntryOk(es[k])
    {
      if !IndexEntryOk(es[i]) {
        return false;
      }
      i := i + 1;
    }
    i := 1;
    while i < |es|
      invariant 1 <= i
      invariant i <= |es| || |es| == 0
      invariant forall a, b :: 0 <= a < b < i && b < |es| ==> es[a].revision < es[b].revision
    {
      if es[i - 1].revision >= es[i].revision {
        return false;
      }
      i := i + 1;
    }
    var present: int := -1;
    i := 0;
    while i < |es|
      invariant 0 <= i <= |es|
      invariant -1 <= present < i
      invariant present >= 0 ==> es[present].status == Present
      invariant forall k :: present < k < i ==> es[k].status == Deleted
    {
      if es[i].status == Present {
        present := i;
      }
      i := i + 1;
    }
    if present < 0 {
      assert forall k: nat :: !IsHighestPresent(es, k);
      return false;
    }
    ok := index.currentRevision == es[present].revision && index.currentHash == es[present].catalogHash;
    assert IsHighestPresent(es, present);
    assert forall k: nat :: IsHighestPresent(es, k) ==> k == present;
  }

  // ------------------------------------------------------------------ the semantic core

  function RowOf(e: IndexEntry): Row { Row(e.revision, e.catalogHash, e.status) }

  function IndexRows(index: Index): set<Row> {
    set e | e in index.revisions :: RowOf(e)
  }

  /** The pointer and the list of (revision, hash, status): what `semanticIndexCore` encodes. */
  function SemanticCore(index: Index): (nat, Hash, seq<Row>) {
    (index.currentRevision, index.currentHash,
     seq(|index.revisions|, i requires 0 <= i < |index.revisions| => RowOf(index.revisions[i])))
  }

  ghost predicate RisingRows(rows: seq<Row>) {
    forall i, k :: 0 <= i < k < |rows| ==> rows[i].revision < rows[k].revision
  }

  lemma SomeRow(a: seq<Row>)
    ensures a != [] ==> exists r :: r in a
  {
    if a != [] { assert a[0] in a; }
  }

  lemma {:induction false} RisingRowsAreTheirSet(a: seq<Row>, b: seq<Row>)
    requires RisingRows(a) && RisingRows(b)
    requires forall r :: r in a <==> r in b
    ensures a == b
  {
    if |a| == 0 || |b| == 0 {
      SomeRow(a);
      SomeRow(b);
    } else {
      var m, n := |a| - 1, |b| - 1;
      assert a[m] in b && b[n] in a;
      assert a[m] == b[n];
      forall r ensures r in a[..m] <==> r in b[..n] {
        assert r in a[..m] ==> r in a && r.revision < a[m].revision;
        assert r in b[..n] ==> r in b && r.revision < b[n].revision;
        if r in a && r != a[m] { var i :| 0 <= i < |a| && a[i] == r; assert a[..m][i] == r; }
        if r in b && r != b[n] { var i :| 0 <= i < |b| && b[i] == r; assert b[..n][i] == r; }
      }
      RisingRowsAreTheirSet(a[..m], b[..n]);
      assert a == a[..m] + [a[m]] && b == b[..n] + [b[n]];
    }
  }

  lemma CoreListsTheRows(a: Index)
    ensures forall r :: r in SemanticCore(a).2 <==> r in IndexRows(a)
  {
    var x := SemanticCore(a).2;
    forall r ensures r in x <==> r in IndexRows(a) {
      if r in x { var i :| 0 <= i < |x| && x[i] == r; assert a.revisions[i] in a.revisions; }
      if r in IndexRows(a) {
        var e :| e in a.revisions && RowOf(e) == r;
        var i :| 0 <= i < |a.revisions| && a.revisions[i] == e;
        assert x[i] == r;
      }
    }
  }

  lemma EqualRowsEqualPointer(a: Index, b: Index)
    requires IndexOk(a) && IndexOk(b) && SemanticCore(a).2 == SemanticCore(b).2
    ensures a.currentRevision == b.currentRevision && a.currentHash == b.currentHash
  {
    var x := SemanticCore(a).2;
    assert |x| == |a.revisions| == |b.revisions|;
    assert forall m :: 0 <= m < |x| ==> x[m] == RowOf(a.revisions[m]) && x[m] == RowOf(b.revisions[m]);
    var i: nat :| IsHighestPresent(a.revisions, i) && a.currentRevision == a.revisions[i].revision
                  && a.currentHash == a.revisions[i].catalogHash;
    var k: nat :| IsHighestPresent(b.revisions, k) && b.currentRevision == b.revisions[k].revision
                  && b.currentHash == b.revisions[k].catalogHash;
    assert x[i].status == Present && x[k].status == Present;
  }

  /** Two valid indexes have the same core exactly when they list the same rows. */
  lemma SameCoreIffSameRows(a: Index, b: Index)
    requires IndexOk(a) && IndexOk(b)
    ensures SemanticCore(a) == SemanticCore(b) <==> IndexRows(a) == IndexRows(b)
  {
    CoreListsTheRows(a);
    CoreListsTheRows(b);
    if IndexRows(a) == IndexRows(b) {
      RisingRowsAreTheirSet(SemanticCore(a).2, SemanticCore(b).2);
      EqualRowsEqualPointer(a, b);
    }
  }

  // ------------------------------------------------------------------ the rebuild

  function CountReferences(refs: seq<Reference>, revision: nat): (n: nat)
    ensures n <= |refs|
  {
    if refs == [] then 0
    else (if refs[0].catalogRevision == revision then 1 else 0) + CountReferences(refs[1..], revision)
  }

  function LatestRetention(receipts: seq<Receipt>, revision: nat, hash: Hash): Option<int> {
    if receipts == [] then None
    else
      var last := receipts[|receipts| - 1];
      var before := LatestRetention(receipts[..|receipts| - 1], revision, hash);
      if last.catalogRevision != revision || last.catalogHash != hash then before
      else if before.None? || last.releaseRetentionUntil > before.value then Some(last.releaseRetentionUntil)
      else before
  }

  function PresentEntry(r: Record, refs: seq<Reference>, receipts: seq<Receipt>): IndexEntry {
    IndexEntry(r.revision, r.catalogHash, Present, CountReferences(refs, r.revision),
               LatestRetention(receipts, r.revision, r.catalogHash), None)
  }

  function PresentEntries(records: seq<Record>, refs: seq<Reference>, receipts: seq<Receipt>): (es: seq<IndexEntry>)
    ensures |es| == |records|
    ensures forall i :: 0 <= i < |es| ==> es[i] == PresentEntry(records[i], refs, receipts)
  {
    seq(|records|, i requires 0 <= i < |records| => PresentEntry(records[i], refs, receipts))
  }

  predicate HasRevision(records: seq<Record>, revision: nat) {
    exists i :: 0 <= i < |records| && records[i].revision == revision
  }

  function DeletedEntry(a: Audit, receipts: seq<Receipt>): IndexEntry {
    IndexEntry(a.revision, a.catalogHash, Deleted, 0,
               LatestRetention(receipts, a.revision, a.catalogHash), Some(a.deletedAt))
  }

  /** Audits whose revision file is gone; the others are collections still pending. */
  function DeletedEntries(audits: seq<Audit>, records: seq<Record>, receipts: seq<Receipt>): (es: seq<IndexEntry>)
    ensures forall e :: e in es <==>
              exists i :: 0 <= i < |audits| && !HasRevision(records, audits[i].revision)
                && e == DeletedEntry(audits[i], receipts)
  {
    if audits == [] then []
    else
      var tail := DeletedEntries(audits[1..], records, receipts);
      assert forall i :: 0 <= i < |audits[1..]| ==> audits[1..][i] == audits[i + 1];
      assert forall i :: 0 < i < |audits| ==> audits[i] == audits[1..][i - 1];
      if HasRevision(records, audits[0].revision) then tail else [DeletedEntry(audits[0], receipts)] + tail
  }

  function Insert(es: seq<IndexEntry>, e: IndexEntry): (r: seq<IndexEntry>)
    ensures |r| == |es| + 1
    ensures forall x :: x in r <==> x == e || x in es
  {
    if es == [] || e.revision <= es[0].revision then [e] + es
    else
      var r := [es[0]] + Insert(es[1..], e);
      assert es == [es[0]] + es[1..];
      r
  }

  function SortByRevision(es: seq<IndexEntry>): (r: seq<IndexEntry>)
    ensures |r| == |es|
    ensures forall x :: x in r <==> x in es
  {
    if es == [] then []
    else
      assert es == [es[0]] + es[1..];
      Insert(SortByRevision(es[1..]), es[0])
  }

  ghost predicate DistinctRevisions(es: seq<IndexEntry>) {
    forall i, k :: 0 <= i < k < |es| ==> es[i].revision != es[k].revision
  }

  lemma {:induction false} InsertRises(es: seq<IndexEntry>, e: IndexEntry)
    requires StrictlyRising(es) && forall x :: x in es ==> x.revision != e.revision
    ensures StrictlyRising(Insert(es, e))
  {
    if es == [] || e.revision <= es[0].revision {
    } else {
      InsertRises(es[1..], e);
      var r := Insert(es[1..], e);
      forall k | 0 <= k < |r| ensures es[0].revision < r[k].revision {
        assert r[k] in r;
        if r[k] in es[1..] { var m :| 0 <= m < |es[1..]| && es[1..][m] == r[k]; assert es[m + 1] == r[k]; }
      }
    }
  }

  lemma {:induction false} SortRises(es: seq<IndexEntry>)
    requires DistinctRevisions(es)
    ensures StrictlyRising(SortByRevision(es))
  {
    if es != [] {
      assert DistinctRevisions(es[1..]);
      SortRises(es[1..]);
      forall x | x in SortByRevision(es[1..]) ensures x.revision != es[0].revision {
        var m :| 0 <= m < |es[1..]| && es[1..][m] == x;
        assert es[m + 1] == x;
      }
      InsertRises(SortByRevision(es[1..]), es[0]);
    }
  }

  lemma TailRises(e: IndexEntry, es: seq<IndexEntry>)
    requires StrictlyRising([e] + es)
    ensures StrictlyRising(es) && forall x :: x in es ==> e.revision < x.revision
  {
    var r := [e] + es;
    assert forall i :: 0 <= i < |es| ==> es[i] == r[i + 1];
    forall x | x in es ensures e.revision < x.revision {
      var i :| 0 <= i < |es| && es[i] == x;
      assert r[0].revision < r[i + 1].revision;
    }
  }

  lemma HeadRises(e: IndexEntry, es: seq<IndexEntry>)
    requires StrictlyRising(es) && forall x :: x in es ==> e.revision < x.revision
    ensures StrictlyRising([e] + es)
  {
    assert forall i :: 0 <= i < |es| ==> es[i] in es;
  }

  /** Only distinct revisions sort to a strictly rising list. */
  lemma {:induction false} InsertRisesOnlyIf(es: seq<IndexEntry>, e: IndexEntry)
    requires StrictlyRising(Insert(es, e))
    ensures StrictlyRising(es) && forall x :: x in es ==> x.revision != e.revision
  {
    if es == [] || e.revision <= es[0].revision {
      TailRises(e, es);
    } else {
      TailRises(es[0], Insert(es[1..], e));
      InsertRisesOnlyIf(es[1..], e);
      HeadRises(es[0], es[1..]);
      assert es == [es[0]] + es[1..];
    }
  }

  lemma {:induction false} SortRisesOnlyIf(es: seq<IndexEntry>)
    requires StrictlyRising(SortByRevision(es))
    ensures DistinctRevisions(es)
  {
    if es != [] {
      InsertRisesOnlyIf(SortByRevision(es[1..]), es[0]);
      SortRisesOnlyIf(es[1..]);
      forall i, k | 0 <= i < k < |es| ensures es[i].revision != es[k].revision {
        assert es[k] == es[1..][k - 1];
        assert es[k] in SortByRevision(es[1..]);
        if i > 0 { assert es[i] == es[1..][i - 1]; }
      }
    }
  }

  ghost predicate RecordsRise(records: seq<Record>) {
    forall i, k :: 0 <= i < k < |records| ==> records[i].revision < records[k].revision
  }

  ghost predicate AuditsDistinct(audits: seq<Audit>) {
    forall i, k :: 0 <= i < k < |audits| ==> audits[i].revision != audits[k].revision
  }

  /** The assembled index: present entries from the records, deleted ones from the audits
      whose file is gone, the pointer at the highest record. */
  function Assemble(records: seq<Record>, audits: seq<Audit>, receipts: seq<Receipt>, refs: seq<Reference>,
                    now: int): Index
    requires records != []
  {
    var last := records[|records| - 1];
    Index(last.revision, last.catalogHash,
          SortByRevision(PresentEntries(records, refs, receipts) + DeletedEntries(audits, records, receipts)),
          now)
  }

  /** The rows history objects stand for. */
  ghost function ObjectRows(records: seq<Record>, audits: seq<Audit>): set<Row> {
    (set r | r in records :: Row(r.revision, r.catalogHash, Present))
    + (set a | a in audits && !HasRevision(records, a.revision) :: Row(a.revision, a.catalogHash, Deleted))
  }

  lemma {:induction false} DeletedEntriesDistinct(audits: seq<Audit>, records: seq<Record>, receipts: seq<Receipt>)
    requires AuditsDistinct(audits)
    ensures DistinctRevisions(DeletedEntries(audits, records, receipts))
  {
    if audits != [] {
      DeletedEntriesDistinct(audits[1..], records, receipts);
      var tail := DeletedEntries(audits[1..], records, receipts);
      forall k | 0 <= k < |tail| ensures tail[k].revision != audits[0].revision {
        assert tail[k] in tail;
        var i :| 0 <= i < |audits[1..]| && tail[k] == DeletedEntry(audits[1..][i], receipts);
        assert audits[1..][i] == audits[i + 1];
      }
    }
  }

  /** No two audits stand for one revision whose file is gone. */
  ghost predicate GoneAuditsDistinct(audits: seq<Audit>, records: seq<Record>) {
    forall i, k :: 0 <= i < k < |audits| && !HasRevision(records, audits[i].revision)
      ==> audits[i].revision != audits[k].revision
  }

  lemma {:induction false} DeletedDistinctOnlyIf(audits: seq<Audit>, records: seq<Record>, receipts: seq<Receipt>)
    requires DistinctRevisions(DeletedEntries(audits, records, receipts))
    ensures GoneAuditsDistinct(audits, records)
  {
    if audits != [] {
      var es, tail := DeletedEntries(audits, records, receipts), DeletedEntries(audits[1..], records, receipts);
      var gone := !HasRevision(records, audits[0].revision);
      assert forall i :: 0 <= i < |tail| ==> tail[i] == es[if gone then i + 1 else i];
      DeletedDistinctOnlyIf(audits[1..], records, receipts);
      forall i, k | 0 <= i < k < |audits| && !HasRevision(records, audits[i].revision)
        ensures audits[i].revision != audits[k].revision
      {
        assert audits[k] == audits[1..][k - 1];
        if i > 0 {
          assert audits[i] == audits[1..][i - 1];
        } else if !HasRevision(records, audits[k].revision) {
          assert DeletedEntry(audits[k], receipts) in tail;
          var m :| 0 <= m < |tail| && tail[m] == DeletedEntry(audits[k], receipts);
          assert es[m + 1] == tail[m] && es[0] == DeletedEntry(audits[0], receipts);
          assert es[0].revision != es[m + 1].revision;
        }
      }
    }
  }

  /** An assembled index that validates lists no revision for two audits. */
  lemma AssembledOnlyIf(records: seq<Record>, audits: seq<Audit>, receipts: seq<Receipt>, refs: seq<Reference>,
                        now: int)
    requires records != [] && IndexOk(Assemble(records, audits, receipts, refs, now))
    ensures GoneAuditsDistinct(audits, records)
  {
    var present, deleted := PresentEntries(records, refs, receipts), DeletedEntries(audits, records, receipts);
    SortRisesOnlyIf(present + deleted);
    assert forall i :: 0 <= i < |deleted| ==> (present + deleted)[|present| + i] == deleted[i];
    DeletedDistinctOnlyIf(audits, records, receipts);
  }

  lemma AssembledEntriesDistinct(records: seq<Record>, audits: seq<Audit>, receipts: seq<Receipt>, refs: seq<Reference>)
    requires RecordsRise(records) && AuditsDistinct(audits)
    ensures DistinctRevisions(PresentEntries(records, refs, receipts) + DeletedEntries(audits, records, receipts))
  {
    var present, deleted := PresentEntries(records, refs, receipts), DeletedEntries(audits, records, receipts);
    DeletedEntriesDistinct(audits, records, receipts);
    forall i, k | 0 <= i < |present| && 0 <= k < |deleted| ensures present[i].revision != deleted[k].revision {
      assert deleted[k] in deleted;
      var a :| 0 <= a < |audits| && !HasRevision(records, audits[a].revision)
        && deleted[k] == DeletedEntry(audits[a], receipts);
      assert records[i].revision == present[i].revision;
    }
  }

  lemma AssembledRows(records: seq<Record>, audits: seq<Audit>, receipts: seq<Receipt>, refs: seq<Reference>, now: int)
    requires records != []
    ensures IndexRows(Assemble(records, audits, receipts, refs, now)) == ObjectRows(records, audits)
  {
    var index := Assemble(records, audits, receipts, refs, now);
    var present, deleted := PresentEntries(records, refs, receipts), DeletedEntries(audits, records, receipts);
    forall row ensures row in IndexRows(index) <==> row in ObjectRows(records, audits) {
      if row in IndexRows(index) {
        var e :| e in index.revisions && RowOf(e) == row;
        assert e in present + deleted;
        if e in present {
          var i :| 0 <= i < |present| && present[i] == e;
          assert records[i] in records;
        } else {
          var a :| 0 <= a < |audits| && !HasRevision(records, audits[a].revision)
            && e == DeletedEntry(audits[a], receipts);
          assert audits[a] in audits;
        }
      }
      if row in ObjectRows(records, audits) {
        if r :| r in records && row == Row(r.revision, r.catalogHash, Present) {
          var i :| 0 <= i < |records| && records[i] == r;
          assert present[i] in present + deleted;
          assert present[i] in index.revisions && RowOf(present[i]) == row;
        } else {
          var a :| a in audits && !HasRevision(records, a.revision) && row == Row(a.revision, a.catalogHash, Deleted);
          var i :| 0 <= i < |audits| && audits[i] == a;
          assert DeletedEntry(audits[i], receipts) in deleted;
          assert DeletedEntry(a, receipts) in present + deleted;
          assert RowOf(DeletedEntry(a, receipts)) == row;
        }
      }
    }
  }

  /** Assembling from objects with distinct revisions always passes the validator. */
  lemma AssembledIsOk(records: seq<Record>, audits: seq<Audit>, receipts: seq<Receipt>, refs: seq<Reference>, now: int)
    requires records != [] && RecordsRise(records) && AuditsDistinct(audits) && |refs| <= U53_MAX
    requires forall r :: r in records ==> 1 <= r.revision <= U53_MAX
    requires forall a :: a in audits ==> 1 <= a.revision <= U53_MAX
    ensures IndexOk(Assemble(records, audits, receipts, refs, now))
  {
    var present, deleted := PresentEntries(records, refs, receipts), DeletedEntries(audits, records, receipts);
    AssembledEntriesDistinct(records, audits, receipts, refs);
    SortRises(present + deleted);
    AssembledEntriesOk(records, audits, receipts, refs, now);
    var es := SortByRevision(present + deleted);
    var last := |records| - 1;
    assert present[last] in present + deleted;
    forall x | x in present ensures x.revision <= present[last].revision {
      var m :| 0 <= m < |present| && present[m] == x;
      assert records[m].revision <= records[last].revision;
    }
    var top := HighestIsPresent(es, present, present[last]);
  }

  /** The entry of the highest record is the highest present one. */
  lemma HighestIsPresent(es: seq<IndexEntry>, present: seq<IndexEntry>, high: IndexEntry) returns (top: nat)
    requires StrictlyRising(es) && high in es && high.status == Present
    requires forall x :: x in present ==> x.revision <= high.revision
    requires forall i :: 0 <= i < |es| ==> es[i].status == Present ==> es[i] in present
    ensures top < |es| && es[top] == high && IsHighestPresent(es, top)
  {
    top :| 0 <= top < |es| && es[top] == high;
    forall k | top < k < |es| ensures es[k].status == Deleted {
      assert es[k].revision > es[top].revision;
    }
  }

  lemma AssembledEntriesOk(records: seq<Record>, audits: seq<Audit>, receipts: seq<Receipt>, refs: seq<Reference>,
                           now: int)
    requires records != [] && |refs| <= U53_MAX
    requires forall r :: r in records ==> 1 <= r.revision <= U53_MAX
    requires forall a :: a in audits ==> 1 <= a.revision <= U53_MAX
    ensures var es := Assemble(records, audits, receipts, refs, now).revisions;
            forall i :: 0 <= i < |es| ==>
              IndexEntryOk(es[i]) && (es[i].status == Present ==> es[i] in PresentEntries(records, refs, receipts))
  {
    var present, deleted := PresentEntries(records, refs, receipts), DeletedEntries(audits, records, receipts);
    var es := SortByRevision(present + deleted);
    forall i | 0 <= i < |es| ensures IndexEntryOk(es[i]) && (es[i].status == Present ==> es[i] in present) {
      assert es[i] in es;
      assert es[i] in present + deleted;
      if es[i] in present {
        var k :| 0 <= k < |present| && present[k] == es[i];
        assert records[k] in records;
      } else {
        assert es[i] in deleted;
        var a :| 0 <= a < |audits| && es[i] == DeletedEntry(audits[a], receipts);
        assert audits[a] in audits;
      }
    }
  }
}
