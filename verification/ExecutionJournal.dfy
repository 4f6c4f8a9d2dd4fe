/** The supervisor's execution journal: its validator, its lookup and its two
    compare-and-swap appends. */
module ExecutionJournal {
  import opened Basics
  import opened ExecutionTypes

  datatype Entry =
    | Received(
        commandId: string,
        commandDigest: Digest,
        command: Command,
        snapshotHandoffDigest: Option<Digest>,
        receivedAt: string,
        journalRevision: nat)
    | Completed(
        commandId: string,
        commandDigest: Digest,
        acknowledgement: Acknowledgement,
        snapshotHandoffDigest: Option<Digest>,
        completedAt: string,
        journalRevision: nat)

  datatype JournalFile = JournalFile(journalRevision: nat, entries: seq<Entry>)

  const EMPTY_JOURNAL := JournalFile(0, [])

  // ------------------------------------------------------------------ validity

  predicate EntryShapeOk(w: Wire, e: Entry) {
    && w.idOk(e.commandId)
    && e.journalRevision <= U53_MAX
    && match e
       case Received(_, digest, command, _, at, _) =>
         w.commandOk(command) && digest == CommandDigest(command) && w.timeOk(at)
       case Completed(id, _, ack, _, at, _) =>
         w.acknowledgementOk(ack) && w.timeOk(at) && ack.commandId == id
  }

  ghost predicate IsReceivedFor(e: Entry, id: string) { e.Received? && e.commandId == id }

  ghost predicate IsCompletedFor(e: Entry, id: string) { e.Completed? && e.commandId == id }

  /** Entry `i` is well formed, carries revision i + 1, and is the first of its kind
      for its commandId; a completion follows a reception with the same digest. */
  ghost predicate EntryOk(w: Wire, entries: seq<Entry>, i: nat)
    requires i < |entries|
  {
    var e := entries[i];
    && EntryShapeOk(w, e)
    && e.journalRevision == i + 1
    && match e
       case Received(id, _, _, _, _, _) =>
         forall k :: 0 <= k < i ==> entries[k].commandId != id
       case Completed(id, digest, ack, _, _, _) =>
         && ack.journalRevision == i + 1
         && (exists k :: 0 <= k < i && IsReceivedFor(entries[k], id) && entries[k].commandDigest == digest)
         && (forall k :: 0 <= k < i ==> !IsCompletedFor(entries[k], id))
  }

  ghost predicate ValidEntries(w: Wire, entries: seq<Entry>) {
    forall i :: 0 <= i < |entries| ==> EntryOk(w, entries, i)
  }

  ghost predicate ValidJournal(w: Wire, j: JournalFile) {
    j.journalRevision == |j.entries| <= U53_MAX && ValidEntries(w, j.entries)
  }

  /** The file validator: one pass that fills `receivedDigests` and `completedCommands`. */
  method ValidateJournal(w: Wire, j: JournalFile) returns (ok: bool)
    ensures ok <==> ValidJournal(w, j)
  {
    ok := j.journalRevision <= U53_MAX;
    var accepted := 0;
    var receivedDigests: map<string, Digest> := map[];
    var completedCommands: set<string> := {};
    var index := 0;
    while index < |j.entries|
      invariant 0 <= index <= |j.entries|
      invariant ok ==> j.journalRevision <= U53_MAX && accepted == index
      invariant ok ==> forall i :: 0 <= i < index ==> EntryOk(w, j.entries, i)
      invariant !ok ==> !ValidJournal(w, j)
      invariant ok ==> forall id :: id in receivedDigests <==>
                  exists k :: 0 <= k < index && IsReceivedFor(j.entries[k], id)
      invariant ok ==> forall k :: 0 <= k < index && j.entries[k].Received? ==>
                  j.entries[k].commandId in receivedDigests
                  && receivedDigests[j.entries[k].commandId] == j.entries[k].commandDigest
      invariant ok ==> forall id :: id in completedCommands <==>
                  exists k :: 0 <= k < index && IsCompletedFor(j.entries[k], id)
    {
      var raw := j.entries[index];
      var expectedRevision := index + 1;
      if !EntryShapeOk(w, raw) {
        assert !EntryOk(w, j.entries, index);
        ok := false;
      } else {
        match raw {
          case Received(id, digest, _, _, _, revision) =>
            if revision != expectedRevision || id in receivedDigests || id in completedCommands {
              assert ok ==> !EntryOk(w, j.entries, index);
              ok := false;
            }
            if id !in receivedDigests && id !in completedCommands {
              receivedDigests := receivedDigests[id := digest];
              accepted := accepted + 1;
            }
          case Completed(id, digest, ack, _, _, revision) =>
            if revision != expectedRevision || ack.journalRevision != expectedRevision
               || id !in receivedDigests || receivedDigests[id] != digest || id in completedCommands {
              assert ok ==> !EntryOk(w, j.entries, index);
              ok := false;
            }
            if id in receivedDigests && id !in completedCommands {
              completedCommands := completedCommands + {id};
              accepted := accepted + 1;
            }
        }
        assert ok ==> EntryOk(w, j.entries, index);
      }
      index := index + 1;
    }
    if j.journalRevision != accepted {
      ok := false;
    }
  }

  // ------------------------------------------------------------------ lookup

  datatype Lookup = Lookup(received: Option<Entry>, completed: Option<Entry>)

  /** What a forward scan that keeps the last match of each kind ends with. */
  function LookupIn(entries: seq<Entry>, id: string): (found: Lookup)
    ensures found.received.Some? ==> found.received.value in entries
                                     && found.received.value.Received? && found.received.value.commandId == id
    ensures found.completed.Some? ==> found.completed.value in entries
                                      && found.completed.value.Completed? && found.completed.value.commandId == id
    ensures found.received.None? ==> forall e :: e in entries && e.Received? ==> e.commandId != id
    ensures found.completed.None? ==> forall e :: e in entries && e.Completed? ==> e.commandId != id
  {
    if entries == [] then Lookup(None, None)
    else
      var last := entries[|entries| - 1];
      var before := LookupIn(entries[..|entries| - 1], id);
      assert entries == entries[..|entries| - 1] + [last];
      if last.commandId != id then before
      else if last.Received? then before.(received := Some(last))
      else before.(completed := Some(last))
  }

  predicate Known(found: Lookup) { found.received.Some? || found.completed.Some? }

  lemma LookupAfterAppend(entries: seq<Entry>, e: Entry, id: string)
    ensures LookupIn(entries + [e], id) ==
            if e.commandId != id then LookupIn(entries, id)
            else if e.Received? then LookupIn(entries, id).(received := Some(e))
            else LookupIn(entries, id).(completed := Some(e))
  {
    assert (entries + [e])[..|entries|] == entries;
  }

  method FindIn(entries: seq<Entry>, id: string) returns (found: Lookup)
    ensures found == LookupIn(entries, id)
  {
    found := Lookup(None, None);
    var i := 0;
    while i < |entries|
      invariant 0 <= i <= |entries|
      invariant found == LookupIn(entries[..i], id)
    {
      assert entries[..i + 1] == entries[..i] + [entries[i]];
      LookupAfterAppend(entries[..i], entries[i], id);
      if entries[i].commandId == id {
        if entries[i].Received? {
          found := found.(received := Some(entries[i]));
        } else {
          found := found.(completed := Some(entries[i]));
        }
      }
      i := i + 1;
    }
    assert entries[..i] == entries;
  }

  // ------------------------------------------------------------------ appends

  datatype ReceiveOutcome =
    | ReceiveAppended(entry: Entry)
    | RevisionConflict(currentRevision: nat)
    | ReceiveThrew

  datatype CompleteOutcome =
    | CompleteAppended(entry: Entry)
    | AlreadyCompleted(entry: Entry)
    | CompleteThrew

  function Extended(j: JournalFile, e: Entry): JournalFile {
    JournalFile(j.journalRevision + 1, j.entries + [e])
  }

  function ReceivedEntry(command: Command, receivedAt: string, revision: nat): Entry {
    Received(command.commandId, CommandDigest(command), command, None, receivedAt, revision)
  }

  /** The file and the answer after `appendReceived`. */
  ghost function AppendReceivedSpec(w: Wire, j: JournalFile, expected: nat, command: Command, receivedAt: string)
    : (r: (JournalFile, ReceiveOutcome))
  {
    if !ValidJournal(w, j) then (j, ReceiveThrew)
    else if j.journalRevision != expected then (j, RevisionConflict(j.journalRevision))
    else
      var entry := ReceivedEntry(command, receivedAt, expected + 1);
      if ValidJournal(w, Extended(j, entry)) then (Extended(j, entry), ReceiveAppended(entry)) else (j, ReceiveThrew)
  }

  /** The file and the answer after `appendCompleted`; `build` answers None where it throws. */
  ghost function AppendCompletedSpec(
    w: Wire, j: JournalFile, id: string, digest: Digest, build: nat -> Option<Acknowledgement>, completedAt: string)
    : (r: (JournalFile, CompleteOutcome))
  {
    if !ValidJournal(w, j) then (j, CompleteThrew)
    else
      var found := LookupIn(j.entries, id);
      if found.completed.Some? then (j, AlreadyCompleted(found.completed.value))
      else if found.received.None? || found.received.value.commandDigest != digest then (j, CompleteThrew)
      else if build(j.journalRevision + 1).None? then (j, CompleteThrew)
      else
        var entry := Completed(id, digest, build(j.journalRevision + 1).value,
                               found.received.value.snapshotHandoffDigest, completedAt, j.journalRevision + 1);
        if ValidJournal(w, Extended(j, entry)) then (Extended(j, entry), CompleteAppended(entry))
        else (j, CompleteThrew)
  }

  /** On a valid, unknown command sent at the head, appending a reception throws in
      exactly one case: the journal already holds 2^53 - 1 entries. */
  lemma ReceivedAppendThrowsOnlyWhenFull(w: Wire, j: JournalFile, command: Command, receivedAt: string)
    requires WireLaws(w) && ValidJournal(w, j) && w.commandOk(command) && w.timeOk(receivedAt)
    requires !Known(LookupIn(j.entries, command.commandId))
    ensures var (next, answer) := AppendReceivedSpec(w, j, j.journalRevision, command, receivedAt);
            if j.journalRevision < U53_MAX
            then answer == ReceiveAppended(ReceivedEntry(command, receivedAt, j.journalRevision + 1))
                 && next == Extended(j, answer.entry)
            else answer == ReceiveThrew && next == j
  {
    var next := Extended(j, ReceivedEntry(command, receivedAt, j.journalRevision + 1));
    assert LookupIn(j.entries, command.commandId).received.None?;
    assert LookupIn(j.entries, command.commandId).completed.None?;
    if j.journalRevision < U53_MAX {
      forall i | 0 <= i < |next.entries| ensures EntryOk(w, next.entries, i) {
        if i < |j.entries| {
          EntryOkExtends(w, j.entries, next.entries, i);
        } else {
          assert forall k :: 0 <= k < i ==> next.entries[k] == j.entries[k] && j.entries[k] in j.entries;
        }
      }
    }
  }

  lemma EntryOkExtends(w: Wire, entries: seq<Entry>, longer: seq<Entry>, i: nat)
    requires i < |entries| <= |longer| && longer[..|entries|] == entries
    requires EntryOk(w, entries, i)
    ensures EntryOk(w, longer, i)
  {
    assert forall k :: 0 <= k < |entries| ==> longer[k] == entries[k];
  }

  /** Appending a completion never throws for a received, incomplete command whose
      acknowledgement validates at the next revision. */
  lemma CompletedAppendNeverThrows(
    w: Wire, j: JournalFile, id: string, digest: Digest, build: nat -> Option<Acknowledgement>, completedAt: string)
    requires WireLaws(w) && ValidJournal(w, j) && w.timeOk(completedAt)
    requires var found := LookupIn(j.entries, id);
             found.received.Some? && found.received.value.commandDigest == digest && found.completed.None?
    requires var ack := build(j.journalRevision + 1);
             ack.Some? && w.acknowledgementOk(ack.value) && ack.value.commandId == id
             && ack.value.journalRevision == j.journalRevision + 1
    ensures var (next, answer) := AppendCompletedSpec(w, j, id, digest, build, completedAt);
            && answer.CompleteAppended?
            && answer.entry.acknowledgement == build(j.journalRevision + 1).value
            && next == Extended(j, answer.entry)
            && LookupIn(next.entries, id).completed == Some(answer.entry)
  {
    var found := LookupIn(j.entries, id);
    var entry := Completed(id, digest, build(j.journalRevision + 1).value,
                           found.received.value.snapshotHandoffDigest, completedAt, j.journalRevision + 1);
    var at :| 0 <= at < |j.entries| && j.entries[at] == found.received.value;
    assert EntryOk(w, j.entries, at);
    CompletionKeepsEntriesOk(w, j, entry, at);
    LookupAfterAppend(j.entries, entry, id);
  }

  lemma CompletionKeepsEntriesOk(w: Wire, j: JournalFile, entry: Entry, at: nat)
    requires ValidJournal(w, j) && entry.Completed? && EntryShapeOk(w, entry)
             && entry.journalRevision == |j.entries| + 1
    requires entry.acknowledgement.journalRevision == |j.entries| + 1
    requires at < |j.entries| && IsReceivedFor(j.entries[at], entry.commandId)
             && j.entries[at].commandDigest == entry.commandDigest
    requires LookupIn(j.entries, entry.commandId).completed.None?
    ensures ValidEntries(w, j.entries + [entry])
  {
    var longer := j.entries + [entry];
    forall i | 0 <= i < |longer| ensures EntryOk(w, longer, i) {
      if i < |j.entries| {
        EntryOkExtends(w, j.entries, longer, i);
      } else {
        assert longer[at] == j.entries[at];
        assert forall k :: 0 <= k < i ==> longer[k] == j.entries[k] && j.entries[k] in j.entries;
      }
    }
  }

  /** Reading back a valid journal: the lookup finds the one reception and the one completion. */
  lemma LookupIsUnique(w: Wire, entries: seq<Entry>, e: Entry)
    requires ValidEntries(w, entries) && e in entries
    ensures var found := LookupIn(entries, e.commandId);
            && found.received.Some?
            && (e.Received? ==> found.received == Some(e))
            && (e.Completed? ==> found.completed == Some(e) && found.received.value.commandDigest == e.commandDigest)
  {
    var found := LookupIn(entries, e.commandId);
    var i :| 0 <= i < |entries| && entries[i] == e;
    assert EntryOk(w, entries, i);
    if e.Completed? {
      var k :| 0 <= k < i && IsReceivedFor(entries[k], e.commandId) && entries[k].commandDigest == e.commandDigest;
      assert entries[k] in entries;
      OneReception(w, entries, entries[k], found.received.value);
      OneCompletion(w, entries, e, found.completed.value);
    } else {
      OneReception(w, entries, e, found.received.value);
    }
  }

  lemma OneReception(w: Wire, entries: seq<Entry>, a: Entry, b: Entry)
    requires ValidEntries(w, entries) && a in entries && b in entries
    requires a.Received? && b.Received? && a.commandId == b.commandId
    ensures a == b
  {
    var i :| 0 <= i < |entries| && entries[i] == a;
    var k :| 0 <= k < |entries| && entries[k] == b;
    assert EntryOk(w, entries, i) && EntryOk(w, entries, k);
  }

  lemma OneCompletion(w: Wire, entries: seq<Entry>, a: Entry, b: Entry)
    requires ValidEntries(w, entries) && a in entries && b in entries
    requires a.Completed? && b.Completed? && a.commandId == b.commandId
    ensures a == b
  {
    var i :| 0 <= i < |entries| && entries[i] == a;
    var k :| 0 <= k < |entries| && entries[k] == b;
    assert EntryOk(w, entries, i) && EntryOk(w, entries, k);
    assert IsCompletedFor(entries[i], a.commandId) && IsCompletedFor(entries[k], a.commandId);
  }

  // ------------------------------------------------------------------ the store

  /** The journal file and its owner.  `file` is the value whose canonical bytes are on disk. */
  class WasmExecutionJournalStore {
    const wire: Wire
    var file: Option<JournalFile>

    constructor (wire: Wire, file: Option<JournalFile>)
      ensures this.wire == wire && this.file == file
    {
      this.wire := wire;
      this.file := file;
    }

    function Contents(): JournalFile
      reads this
    {
      if file.None? then EMPTY_JOURNAL else file.value
    }

    /** None where reading throws: the file is there and does not validate. */
    method Read() returns (r: Option<JournalFile>)
      ensures r == if ValidJournal(wire, Contents()) then Some(Contents()) else None
    {
      if file.None? {
        return Some(EMPTY_JOURNAL);
      }
      var ok := ValidateJournal(wire, file.value);
      r := if ok then Some(file.value) else None;
    }

    method Find(id: string) returns (r: Option<Lookup>)
      ensures r == if ValidJournal(wire, Contents()) then Some(LookupIn(Contents().entries, id)) else None
    {
      var current := Read();
      if current.None? {
        return None;
      }
      var found := FindIn(current.value.entries, id);
      r := Some(found);
    }

    method AppendReceived(expected: nat, command: Command, receivedAt: string) returns (r: ReceiveOutcome)
      modifies this
      ensures (Contents(), r) == AppendReceivedSpec(wire, old(Contents()), expected, command, receivedAt)
    {
      var current := Read();
      if current.None? {
        return ReceiveThrew;
      }
      if current.value.journalRevision != expected {
        return RevisionConflict(current.value.journalRevision);
      }
      var entry := Received(command.commandId, CommandDigest(command), command, None, receivedAt, expected + 1);
      var next := JournalFile(expected + 1, current.value.entries + [entry]);
      var ok := ValidateJournal(wire, next);
      if !ok {
        return ReceiveThrew;
      }
      file := Some(next);
      r := ReceiveAppended(entry);
    }

    method AppendCompleted(id: string, digest: Digest, build: nat -> Option<Acknowledgement>, completedAt: string)
      returns (r: CompleteOutcome)
      modifies this
      ensures (Contents(), r) == AppendCompletedSpec(wire, old(Contents()), id, digest, build, completedAt)
    {
      var current := Read();
      if current.None? {
        return CompleteThrew;
      }
      var found := FindIn(current.value.entries, id);
      if found.completed.Some? {
        return AlreadyCompleted(found.completed.value);
      }
      if found.received.None? || found.received.value.commandDigest != digest {
        return CompleteThrew;
      }
      var revision := current.value.journalRevision + 1;
      var acknowledgement := build(revision);
      if acknowledgement.None? {
        return CompleteThrew;
      }
      var entry := Completed(id, digest, acknowledgement.value, found.received.value.snapshotHandoffDigest,
                             completedAt, revision);
      var next := JournalFile(revision, current.value.entries + [entry]);
      var ok := ValidateJournal(wire, next);
      if !ok {
        return CompleteThrew;
      }
      file := Some(next);
      r := CompleteAppended(entry);
    }
  }
}
