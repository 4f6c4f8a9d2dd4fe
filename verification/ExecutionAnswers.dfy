/** What every delivery and every query is answered, told from the entries of the journal
    and the table of deliveries in flight, in every state a run reaches. */
module ExecutionAnswers {
  import opened Basics
  import opened ExecutionTypes
  import opened ExecutionJournal
  import opened ExecutionRpc
  import opened ExecutionRuns

  // ------------------------------------------------------------------ what a journal knows of a command

  ghost predicate UnknownTo(j: JournalFile, id: string) { forall e :: e in j.entries ==> e.commandId != id }

  ghost predicate ReceivedFor(j: JournalFile, id: string, e: Entry) {
    e in j.entries && e.Received? && e.commandId == id
  }

  ghost predicate CompletedFor(j: JournalFile, id: string, e: Entry) {
    e in j.entries && e.Completed? && e.commandId == id
  }

  // ------------------------------------------------------------------ the journal itself

  /** Two entries of one kind are for different commands, and a command is received before it
      is completed, once. */
  ghost predicate InOrder(entries: seq<Entry>) {
    && (forall i, k :: 0 <= i < k < |entries| && entries[i].commandId == entries[k].commandId ==>
          entries[i].Received? && entries[k].Completed? && entries[i].commandDigest == entries[k].commandDigest)
    && forall k :: 0 <= k < |entries| && entries[k].Completed? ==> ReceivedBefore(entries, k)
  }

  ghost predicate ReceivedBefore(entries: seq<Entry>, k: nat)
    requires k < |entries|
  {
    exists i :: 0 <= i < k && entries[i].Received? && entries[i].commandId == entries[k].commandId
  }

  /** Entry `i` is well formed and carries revision `i + 1`, twice if it is a completion. */
  ghost predicate Numbered(w: Wire, entries: seq<Entry>, i: nat)
    requires i < |entries|
  {
    && EntryShapeOk(w, entries[i]) && entries[i].journalRevision == i + 1
    && (entries[i].Completed? ==> entries[i].acknowledgement.journalRevision == i + 1)
  }

  /** A journal is accepted exactly if its entries are numbered densely and in order. */
  lemma JournalIff(w: Wire, j: JournalFile)
    ensures ValidJournal(w, j) <==>
            && j.journalRevision == |j.entries| <= 9007199254740991 && InOrder(j.entries)
            && forall i :: 0 <= i < |j.entries| ==> Numbered(w, j.entries, i)
  {
    if ValidJournal(w, j) {
      ValidIsInOrder(w, j.entries);
      forall i | 0 <= i < |j.entries| ensures Numbered(w, j.entries, i) { assert EntryOk(w, j.entries, i); }
    } else if j.journalRevision == |j.entries| <= 9007199254740991 && InOrder(j.entries)
              && forall i :: 0 <= i < |j.entries| ==> Numbered(w, j.entries, i) {
      OrderedIsValid(w, j.entries);
    }
  }

  lemma ValidIsInOrder(w: Wire, entries: seq<Entry>)
    requires ValidEntries(w, entries)
    ensures InOrder(entries)
  {
    forall i, k | 0 <= i < k < |entries| && entries[i].commandId == entries[k].commandId
      ensures entries[i].Received? && entries[k].Completed? && entries[i].commandDigest == entries[k].commandDigest
    {
      assert EntryOk(w, entries, k) && EntryOk(w, entries, i);
      assert entries[k].Completed? && !IsCompletedFor(entries[i], entries[k].commandId);
      var r :| 0 <= r < k && IsReceivedFor(entries[r], entries[k].commandId)
               && entries[r].commandDigest == entries[k].commandDigest;
      assert EntryOk(w, entries, r);
    }
    forall k | 0 <= k < |entries| && entries[k].Completed? ensures ReceivedBefore(entries, k) {
      assert EntryOk(w, entries, k);
      var r :| 0 <= r < k && IsReceivedFor(entries[r], entries[k].commandId)
               && entries[r].commandDigest == entries[k].commandDigest;
      assert entries[r].Received?;
    }
  }

  lemma OrderedIsValid(w: Wire, entries: seq<Entry>)
    requires InOrder(entries) && forall i :: 0 <= i < |entries| ==> Numbered(w, entries, i)
    ensures ValidEntries(w, entries)
  {
    forall k | 0 <= k < |entries| ensures EntryOk(w, entries, k) {
      assert Numbered(w, entries, k);
      if entries[k].Completed? {
        assert ReceivedBefore(entries, k);
        var i :| 0 <= i < k && entries[i].Received? && entries[i].commandId == entries[k].commandId;
        assert IsReceivedFor(entries[i], entries[k].commandId) && entries[i].commandDigest == entries[k].commandDigest;
      }
    }
  }

  /** Appending a reception: a conflict at any other revision than the head, else the one new
      entry if the longer journal is accepted. */
  lemma ReceptionIsDecided(w: Wire, j: JournalFile, expected: nat, command: Command, at: string)
    requires ValidJournal(w, j)
    ensures var (k, answer) := AppendReceivedSpec(w, j, expected, command, at);
            var e := Received(command.commandId, CommandDigest(command), command, None, at, |j.entries| + 1);
            var longer := JournalFile(|j.entries| + 1, j.entries + [e]);
            if expected != |j.entries| then k == j && answer == RevisionConflict(|j.entries|)
            else if ValidJournal(w, longer) then k == longer && answer == ReceiveAppended(e)
            else k == j && answer == ReceiveThrew
  {
  }

  /** Appending a completion: the stored one is handed back; a command that was not received under
      this digest, or an acknowledgement that cannot be formed, throws; else the one new entry. */
  lemma CompletionIsDecided(
    w: Wire, j: JournalFile, id: string, digest: Digest, build: nat -> Option<Acknowledgement>, at: string)
    requires ValidJournal(w, j)
    ensures var (k, answer) := AppendCompletedSpec(w, j, id, digest, build, at);
            && (forall e :: CompletedFor(j, id, e) ==> k == j && answer == AlreadyCompleted(e))
            && ((NotCompleted(j, id) && forall r :: ReceivedFor(j, id, r) ==> r.commandDigest != digest) ==>
                  k == j && answer == CompleteThrew)
            && (forall r :: ReceivedFor(j, id, r) && r.commandDigest == digest && NotCompleted(j, id) ==>
                  match build(|j.entries| + 1)
                  case None => k == j && answer == CompleteThrew
                  case Some(ack) =>
                    var e := Completed(id, digest, ack, r.snapshotHandoffDigest, at, |j.entries| + 1);
                    var longer := JournalFile(|j.entries| + 1, j.entries + [e]);
                    if ValidJournal(w, longer) then k == longer && answer == CompleteAppended(e)
                    else k == j && answer == CompleteThrew)
  {
    var found := LookupIn(j.entries, id);
    forall e | e in j.entries && e.commandId == id
      ensures e.Received? ==> found.received == Some(e)
      ensures e.Completed? ==> found.completed == Some(e)
    {
      LookupIsUnique(w, j.entries, e);
    }
  }

  // ------------------------------------------------------------------ one delivery

  const CONFLICTING := Settled(Failed(409, "EXECUTION_COMMAND_ID_CONFLICT"))

  /** The five answers of `performDelivery` on a journal `j`, with what it leaves on disk. */
  ghost predicate Judged(j: JournalFile, command: Command, mode: Mode, at: string, k: JournalFile, phase: Phase) {
    var id := command.commandId;
    && (forall e :: CompletedFor(j, id, e) && e.commandDigest == CommandDigest(command) ==>
          k == j && phase == Settled(Answered(e.acknowledgement)))
    && (forall e :: ReceivedFor(j, id, e) && e.commandDigest != CommandDigest(command) ==>
          k == j && phase == CONFLICTING)
    && (forall e :: ReceivedFor(j, id, e) && e.commandDigest == CommandDigest(command) && NotCompleted(j, id) ==>
          k == j && phase == Executing(e))
    && (UnknownTo(j, id) && mode == ReplayMode ==>
          k == j && phase == Settled(Failed(404, "EXECUTION_COMMAND_UNKNOWN")))
    && (UnknownTo(j, id) && mode == CommandMode ==> FirstJudged(j, command, at, k, phase))
  }

  /** A command the journal does not know: stale, received and executing, or the journal is full. */
  ghost predicate FirstJudged(j: JournalFile, command: Command, at: string, k: JournalFile, phase: Phase) {
    if command.expectedJournalRevision != |j.entries| then
      k == j && phase == Settled(Failed(409, "JOURNAL_REVISION_CONFLICT"))
    else if |j.entries| == U53_MAX then k == j && phase == Settled(Threw)
    else
      var e := Received(command.commandId, CommandDigest(command), command, None, at, |j.entries| + 1);
      k == JournalFile(|j.entries| + 1, j.entries + [e]) && phase == Executing(e)
  }

  lemma PerformJudgesKnown(w: Wire, j: JournalFile, command: Command, mode: Mode, at: string, e: Entry)
    requires ValidJournal(w, j) && e in j.entries && e.commandId == command.commandId
    ensures var (k, phase) := PerformSpec(w, j, command, mode, at);
            && k == j
            && (e.Received? && e.commandDigest != CommandDigest(command) ==> phase == CONFLICTING)
            && (e.Completed? && e.commandDigest == CommandDigest(command) ==>
                  phase == Settled(Answered(e.acknowledgement)))
            && (e.Received? && e.commandDigest == CommandDigest(command) && NotCompleted(j, e.commandId) ==>
                  phase == Executing(e))
  {
    LookupIsUnique(w, j.entries, e);
    var found := LookupIn(j.entries, e.commandId);
    if found.completed.Some? {
      LookupIsUnique(w, j.entries, found.completed.value);
    }
  }

  lemma PerformJudgesUnknown(w: Wire, j: JournalFile, command: Command, mode: Mode, at: string)
    requires WireLaws(w) && ValidJournal(w, j) && w.commandOk(command) && w.timeOk(at)
    requires UnknownTo(j, command.commandId)
    ensures var (k, phase) := PerformSpec(w, j, command, mode, at);
            if mode == ReplayMode then k == j && phase == Settled(Failed(404, "EXECUTION_COMMAND_UNKNOWN"))
            else FirstJudged(j, command, at, k, phase)
  {
    var found := LookupIn(j.entries, command.commandId);
    assert !Known(found);
    ReceivedAppendThrowsOnlyWhenFull(w, j, command, at);
  }

  /** A delivery is judged by the entries of its command id alone. */
  lemma PerformJudges(w: Wire, j: JournalFile, command: Command, mode: Mode, at: string)
    requires WireLaws(w) && ValidJournal(w, j) && w.commandOk(command) && w.timeOk(at)
    ensures var (k, phase) := PerformSpec(w, j, command, mode, at); Judged(j, command, mode, at, k, phase)
  {
    forall e | e in j.entries && e.commandId == command.commandId
      ensures var (k, phase) := PerformSpec(w, j, command, mode, at);
              && k == j
              && (e.Received? && e.commandDigest != CommandDigest(command) ==> phase == CONFLICTING)
              && (e.Completed? && e.commandDigest == CommandDigest(command) ==>
                    phase == Settled(Answered(e.acknowledgement)))
              && (e.Received? && e.commandDigest == CommandDigest(command) && NotCompleted(j, e.commandId) ==>
                    phase == Executing(e))
    {
      PerformJudgesKnown(w, j, command, mode, at, e);
    }
    if UnknownTo(j, command.commandId) { PerformJudgesUnknown(w, j, command, mode, at); }
  }

  // ------------------------------------------------------------------ the invariant

  /** An answered delivery tells the completion of its own command body. */
  ghost predicate AnsweredRight(s: Supervisor, n: nat)
    requires n in s.deliveries
  {
    var d := s.deliveries[n];
    d.phase.Settled? && d.phase.result.Answered? ==>
      exists e :: CompletedFor(s.journal, d.commandId, e) && e.commandDigest == d.digest
                  && e.acknowledgement == d.phase.result.acknowledgement
  }

  /** The delivery in flight of a known command is answered already if the command is
      completed, and refused already if its body is not the received one. */
  ghost predicate InFlightRight(s: Supervisor, id: string)
    requires id in s.inFlight && s.inFlight[id].delivery in s.deliveries
  {
    var d := s.deliveries[s.inFlight[id].delivery];
    && (forall e :: CompletedFor(s.journal, id, e) && e.commandDigest == d.digest ==>
          d.phase == Settled(Answered(e.acknowledgement)))
    && (forall e :: ReceivedFor(s.journal, id, e) && e.commandDigest != d.digest ==> d.phase == CONFLICTING)
  }

  ghost predicate AnswersInv(w: Wire, s: Supervisor) {
    && SupervisorInv(w, s)
    && (forall n :: n in s.deliveries ==> AnsweredRight(s, n))
    && (forall id :: id in s.inFlight ==> InFlightInv(s, id) && InFlightRight(s, id))
  }

  lemma AnsweredStays(s: Supervisor, t: Supervisor, n: nat)
    requires n in s.deliveries && n in t.deliveries && t.deliveries[n] == s.deliveries[n] && AnsweredRight(s, n)
    requires s.journal.entries <= t.journal.entries
    ensures AnsweredRight(t, n)
  {
    var d := s.deliveries[n];
    if d.phase.Settled? && d.phase.result.Answered? {
      var e :| CompletedFor(s.journal, d.commandId, e) && e.commandDigest == d.digest
               && e.acknowledgement == d.phase.result.acknowledgement;
      assert CompletedFor(t.journal, d.commandId, e);
    }
  }

  /** The journal grew by entries of other commands at most. */
  ghost predicate SameFor(j: JournalFile, k: JournalFile, id: string) {
    forall e: Entry :: e.commandId == id ==> (e in j.entries <==> e in k.entries)
  }

  lemma InFlightStays(s: Supervisor, t: Supervisor, id: string)
    requires id in s.inFlight && id in t.inFlight && t.inFlight[id] == s.inFlight[id]
    requires s.inFlight[id].delivery in s.deliveries && s.inFlight[id].delivery in t.deliveries
    requires t.deliveries[s.inFlight[id].delivery] == s.deliveries[s.inFlight[id].delivery]
    requires InFlightRight(s, id) && SameFor(s.journal, t.journal, id)
    ensures InFlightRight(t, id)
  {
  }

  /** A settled answer was stored for the same body. */
  lemma JudgedAnswerIsStored(w: Wire, j: JournalFile, command: Command, mode: Mode, at: string)
    requires WireLaws(w) && ValidJournal(w, j) && w.commandOk(command) && w.timeOk(at)
    ensures var (k, phase) := PerformSpec(w, j, command, mode, at);
            && SameOrReceived(j, k, command)
            && (phase.Settled? && phase.result.Answered? ==>
                  exists e :: CompletedFor(k, command.commandId, e) && e.commandDigest == CommandDigest(command)
                              && e.acknowledgement == phase.result.acknowledgement)
  {
    PerformJudges(w, j, command, mode, at);
    var (k, phase) := PerformSpec(w, j, command, mode, at);
    if UnknownTo(j, command.commandId) {
    } else {
      var e :| e in j.entries && e.commandId == command.commandId;
      PerformJudgesKnown(w, j, command, mode, at, e);
      LookupIsUnique(w, j.entries, e);
      var found := LookupIn(j.entries, command.commandId);
      if found.completed.Some? {
        var c := found.completed.value;
        assert CompletedFor(j, command.commandId, c);
        LookupIsUnique(w, j.entries, c);
      }
    }
  }

  ghost predicate SameOrReceived(j: JournalFile, k: JournalFile, command: Command) {
    k == j || (UnknownTo(j, command.commandId)
               && exists e :: k.entries == j.entries + [e] && e.Received? && e.commandId == command.commandId
                              && e.commandDigest == CommandDigest(command))
  }

  lemma DeliveredIsRight(w: Wire, s: Supervisor, command: Command, mode: Mode, at: string)
    requires WireLaws(w) && AnswersInv(w, s) && w.commandOk(command) && w.timeOk(at)
    requires DeliverSpec(w, s, command, mode, at).0 != s
    ensures var t := DeliverSpec(w, s, command, mode, at).0;
            && s.nextDelivery in t.deliveries && AnsweredRight(t, s.nextDelivery)
            && command.commandId in t.inFlight && t.inFlight[command.commandId].delivery == s.nextDelivery
            && InFlightRight(t, command.commandId)
  {
    PerformJudges(w, s.journal, command, mode, at);
    JudgedAnswerIsStored(w, s.journal, command, mode, at);
    var t := DeliverSpec(w, s, command, mode, at).0;
    forall e | e in t.journal.entries && e.commandId == command.commandId
      ensures e in s.journal.entries || (e.Received? && e.commandDigest == CommandDigest(command)) {}
  }

  lemma DeliverKeepsAnswers(w: Wire, s: Supervisor, command: Command, mode: Mode, at: string)
    requires WireLaws(w) && AnswersInv(w, s) && w.commandOk(command) && w.timeOk(at)
    ensures AnswersInv(w, DeliverSpec(w, s, command, mode, at).0)
  {
    DeliverKeepsInv(w, s, command, mode, at);
    var t := DeliverSpec(w, s, command, mode, at).0;
    if t != s {
      DeliveredIsRight(w, s, command, mode, at);
      JudgedAnswerIsStored(w, s.journal, command, mode, at);
      forall n | n in t.deliveries ensures AnsweredRight(t, n) {
        if n != s.nextDelivery { AnsweredStays(s, t, n); }
      }
      forall id | id in t.inFlight ensures InFlightInv(t, id) && InFlightRight(t, id) {
        if id != command.commandId {
          assert InFlightInv(s, id) && DeliveryInv(s, s.inFlight[id].delivery);
          InFlightStays(s, t, id);
        }
      }
    }
  }

  lemma SettleKeepsAnswers(w: Wire, s: Supervisor, n: nat, outcome: Option<Outcome>, at: string)
    requires WireLaws(w) && AnswersInv(w, s) && Executes(s, n) && w.timeOk(at)
    ensures AnswersInv(w, SettledSpec(w, s, n, outcome, at))
  {
    SettleKeepsInv(w, s, n, outcome, at);
    assert DeliveryInv(s, n);
    var t := SettledSpec(w, s, n, outcome, at);
    var d := s.deliveries[n];
    SettleFacts(w, s.journal, d.phase.received, outcome, at);
    forall m | m in t.deliveries ensures AnsweredRight(t, m) {
      if m != n {
        AnsweredStays(s, t, m);
      } else if t.deliveries[n].phase.result.Answered? {
        assert CompletedFor(t.journal, d.commandId, t.journal.entries[|s.journal.entries|]);
      }
    }
    forall id | id in t.inFlight ensures InFlightInv(t, id) && InFlightRight(t, id) {
      assert InFlightInv(s, id);
      if id == d.commandId {
        SettledIsRight(w, s, n, outcome, at);
      } else {
        InFlightStays(s, t, id);
      }
    }
  }

  lemma SettledIsRight(w: Wire, s: Supervisor, n: nat, outcome: Option<Outcome>, at: string)
    requires WireLaws(w) && AnswersInv(w, s) && Executes(s, n) && w.timeOk(at)
    ensures var t := SettledSpec(w, s, n, outcome, at);
            var id := s.deliveries[n].commandId;
            && id in t.inFlight && t.inFlight[id].delivery == n && n in t.deliveries
            && InFlightRight(t, id)
  {
    assert DeliveryInv(s, n);
    var t := SettledSpec(w, s, n, outcome, at);
    var d := s.deliveries[n];
    SettleFacts(w, s.journal, d.phase.received, outcome, at);
    assert InFlightRight(s, d.commandId);
    forall e | e in t.journal.entries && e.commandId == d.commandId && e.Completed?
      ensures t.deliveries[n].phase == Settled(Answered(e.acknowledgement)) {}
  }

  lemma FinalizeKeepsAnswers(w: Wire, s: Supervisor, n: nat)
    requires AnswersInv(w, s) && n in s.deliveries && s.deliveries[n].phase.Settled?
    ensures AnswersInv(w, FinalizeSpec(s, n))
  {
    FinalizeKeepsInv(w, s, n);
    var t := FinalizeSpec(s, n);
    forall m | m in t.deliveries ensures AnsweredRight(t, m) { AnsweredStays(s, t, m); }
    forall id | id in t.inFlight ensures InFlightInv(t, id) && InFlightRight(t, id) {
      assert InFlightInv(s, id);
      InFlightStays(s, t, id);
    }
  }

  lemma NextKeepsAnswers(w: Wire, s: Supervisor, e: Event)
    requires WireLaws(w) && AnswersInv(w, s) && Enabled(w, s, e)
    ensures AnswersInv(w, Next(w, s, e))
  {
    match e
    case DeliverEvent(command, mode, at) => DeliverKeepsAnswers(w, s, command, mode, at);
    case SettleEvent(n, outcome, at) => SettleKeepsAnswers(w, s, n, outcome, at);
    case FinalizeEvent(n) => FinalizeKeepsAnswers(w, s, n);
    case CrashEvent =>
  }

  lemma {:induction false} RunKeepsAnswers(w: Wire, s: Supervisor, events: seq<Event>)
    requires WireLaws(w) && AnswersInv(w, s) && ValidRun(w, s, events)
    ensures AnswersInv(w, After(w, s, events))
    decreases |events|
  {
    if events != [] {
      NextKeepsAnswers(w, s, events[0]);
      RunKeepsAnswers(w, Next(w, s, events[0]), events[1..]);
    }
  }

  // ------------------------------------------------------------------ the answer to a delivery, in every reachable
  // state

  /** A state some run from a valid journal reaches. */
  ghost predicate Reachable(w: Wire, j: JournalFile, events: seq<Event>, s: Supervisor) {
    ValidJournal(w, j) && ValidRun(w, Boot(j), events) && s == After(w, Boot(j), events)
  }

  /** Another body is in flight under this command id. */
  ghost predicate OtherInFlight(s: Supervisor, command: Command) {
    command.commandId in s.inFlight && s.inFlight[command.commandId].digest != CommandDigest(command)
  }

  /** What the caller has been told once the call returns; None while the executor runs. */
  ghost function Reported(t: Supervisor, reply: Reply): Option<ServiceResult> {
    match reply
    case Immediate(result) => Some(result)
    case Promised(n) =>
      if n in t.deliveries && t.deliveries[n].phase.Settled? then Some(t.deliveries[n].phase.result) else None
  }

  lemma ReachableInv(w: Wire, j: JournalFile, events: seq<Event>, s: Supervisor)
    requires WireLaws(w) && Reachable(w, j, events, s)
    ensures AnswersInv(w, s)
  {
    RunKeepsAnswers(w, Boot(j), events);
  }

  /** A completed command redelivered or replayed writes nothing and is told the stored
      acknowledgement, exactly unless another body is in flight under its id. */
  lemma CompletedCommandIsToldItsAcknowledgement(
    w: Wire, j: JournalFile, events: seq<Event>, s: Supervisor, command: Command, mode: Mode, at: string, e: Entry)
    requires WireLaws(w) && Reachable(w, j, events, s) && w.commandOk(command) && w.timeOk(at)
    requires CompletedFor(s.journal, command.commandId, e) && e.commandDigest == CommandDigest(command)
    ensures var (t, reply) := DeliverSpec(w, s, command, mode, at);
            && t.journal == s.journal
            && Reported(t, reply) == Some(if OtherInFlight(s, command) then Failed(409, "EXECUTION_COMMAND_ID_CONFLICT")
                                          else Answered(e.acknowledgement))
  {
    ReachableInv(w, j, events, s);
    PerformJudgesKnown(w, s.journal, command, mode, at, e);
    LookupIsUnique(w, s.journal.entries, e);
    if command.commandId in s.inFlight {
      assert InFlightInv(s, command.commandId) && InFlightRight(s, command.commandId);
    }
  }

  /** That can happen: another body under the id, refused itself but still in flight, makes the
      completed command's own redelivery a conflict too. */
  lemma ConflictHidesCompletion(w: Wire, j: JournalFile, command: Command, other: Command, mode: Mode, at: string,
                                e: Entry)
    requires WireLaws(w) && ValidJournal(w, j) && w.commandOk(other) && w.timeOk(at)
    requires CompletedFor(j, command.commandId, e) && e.commandDigest == CommandDigest(command)
    requires other.commandId == command.commandId && other != command
    ensures var s := DeliverSpec(w, Boot(j), other, CommandMode, at).0;
            && ValidRun(w, Boot(j), [DeliverEvent(other, CommandMode, at)])
            && s == After(w, Boot(j), [DeliverEvent(other, CommandMode, at)])
            && DeliverSpec(w, s, command, mode, at) == (s, Immediate(Failed(409, "EXECUTION_COMMAND_ID_CONFLICT")))
  {
    var events := [DeliverEvent(other, CommandMode, at)];
    assert events[1..] == [];
    assert After(w, Next(w, Boot(j), events[0]), []) == Next(w, Boot(j), events[0]);
  }

  /** Another body under a known id, completed or only received, is refused and writes nothing. */
  lemma OtherBodyIsRefused(
    w: Wire, j: JournalFile, events: seq<Event>, s: Supervisor, command: Command, mode: Mode, at: string, e: Entry)
    requires WireLaws(w) && Reachable(w, j, events, s) && w.commandOk(command) && w.timeOk(at)
    requires ReceivedFor(s.journal, command.commandId, e) && e.commandDigest != CommandDigest(command)
    ensures var (t, reply) := DeliverSpec(w, s, command, mode, at);
            t.journal == s.journal && Reported(t, reply) == Some(Failed(409, "EXECUTION_COMMAND_ID_CONFLICT"))
  {
    ReachableInv(w, j, events, s);
    PerformJudgesKnown(w, s.journal, command, mode, at, e);
    LookupIsUnique(w, s.journal.entries, e);
    if command.commandId in s.inFlight {
      assert InFlightInv(s, command.commandId) && InFlightRight(s, command.commandId);
    }
  }

  /** A received, incomplete command runs the executor on its reception, or joins the delivery
      in flight; nothing is written. */
  lemma ReceivedCommandIsResumed(
    w: Wire, j: JournalFile, events: seq<Event>, s: Supervisor, command: Command, mode: Mode, at: string, e: Entry)
    requires WireLaws(w) && Reachable(w, j, events, s) && w.commandOk(command) && w.timeOk(at)
    requires ReceivedFor(s.journal, command.commandId, e) && e.commandDigest == CommandDigest(command)
    requires NotCompleted(s.journal, command.commandId) && !OtherInFlight(s, command)
    ensures var (t, reply) := DeliverSpec(w, s, command, mode, at);
            && t.journal == s.journal
            && if command.commandId in s.inFlight
               then t == s && reply == Promised(s.inFlight[command.commandId].delivery)
               else reply == Promised(s.nextDelivery) && s.nextDelivery !in s.deliveries
                    && s.nextDelivery in t.deliveries && t.deliveries[s.nextDelivery].phase == Executing(e)
  {
    ReachableInv(w, j, events, s);
    PerformJudgesKnown(w, s.journal, command, mode, at, e);
    LookupIsUnique(w, s.journal.entries, e);
    forall n | n in s.deliveries ensures n < s.nextDelivery { assert DeliveryInv(s, n); }
  }

  /** An unknown command joins the same body's command in flight; otherwise a replay is not
      found, and a command is refused at the wrong head, or received and executed. */
  lemma UnknownCommandIsJudged(
    w: Wire, j: JournalFile, events: seq<Event>, s: Supervisor, command: Command, mode: Mode, at: string)
    requires WireLaws(w) && Reachable(w, j, events, s) && w.commandOk(command) && w.timeOk(at)
    requires UnknownTo(s.journal, command.commandId) && !OtherInFlight(s, command)
    ensures var (t, reply) := DeliverSpec(w, s, command, mode, at);
            if command.commandId in s.inFlight && s.inFlight[command.commandId].mode == CommandMode
            then t == s && reply == Promised(s.inFlight[command.commandId].delivery)
            else
              && reply == Promised(s.nextDelivery) && s.nextDelivery in t.deliveries
              && var phase := t.deliveries[s.nextDelivery].phase;
                 if mode == ReplayMode
                 then t.journal == s.journal && phase == Settled(Failed(404, "EXECUTION_COMMAND_UNKNOWN"))
                 else FirstJudged(s.journal, command, at, t.journal, phase)
  {
    ReachableInv(w, j, events, s);
    PerformJudgesUnknown(w, s.journal, command, mode, at);
    assert !Known(LookupIn(s.journal.entries, command.commandId));
  }

  // ------------------------------------------------------------------ answers correlate

  /** Every stored acknowledgement echoes the command its completion is for. */
  ghost predicate JournalEchoes(j: JournalFile) {
    forall e :: e in j.entries && e.Completed? ==>
      e.commandDigest.CommandDigest? && Correlates(e.commandDigest.command, e.acknowledgement)
  }

  lemma NextKeepsEchoes(w: Wire, s: Supervisor, e: Event)
    requires WireLaws(w) && AnswersInv(w, s) && Enabled(w, s, e) && JournalEchoes(s.journal)
    ensures JournalEchoes(Next(w, s, e).journal)
  {
    match e
    case DeliverEvent(command, mode, at) => JudgedAnswerIsStored(w, s.journal, command, mode, at);
    case SettleEvent(n, outcome, at) =>
      assert DeliveryInv(s, n);
      ReceptionCarriesItsDigest(w, s.journal, s.deliveries[n].phase.received);
      SettleFacts(w, s.journal, s.deliveries[n].phase.received, outcome, at);
    case FinalizeEvent(n) =>
    case CrashEvent =>
  }

  lemma {:induction false} RunKeepsEchoes(w: Wire, s: Supervisor, events: seq<Event>)
    requires WireLaws(w) && AnswersInv(w, s) && ValidRun(w, s, events) && JournalEchoes(s.journal)
    ensures JournalEchoes(After(w, s, events).journal)
    decreases |events|
  {
    if events != [] {
      NextKeepsEchoes(w, s, events[0]);
      NextKeepsAnswers(w, s, events[0]);
      RunKeepsEchoes(w, Next(w, s, events[0]), events[1..]);
    }
  }

  /** In every state reached from a journal whose acknowledgements echo their commands, the
      empty one among them: whatever a delivery is answered echoes the command it was asked for. */
  lemma AnswersCorrelate(w: Wire, j: JournalFile, events: seq<Event>, s: Supervisor, n: nat)
    requires WireLaws(w) && Reachable(w, j, events, s) && JournalEchoes(j)
    requires n in s.deliveries && s.deliveries[n].phase.Settled? && s.deliveries[n].phase.result.Answered?
    ensures var d := s.deliveries[n];
            d.digest.CommandDigest? && Correlates(d.digest.command, d.phase.result.acknowledgement)
  {
    ReachableInv(w, j, events, s);
    RunKeepsEchoes(w, Boot(j), events);
    assert AnsweredRight(s, n);
  }

  /** The delivery a caller is promised is for the very body it sent. */
  lemma PromisedIsForTheSameBody(
    w: Wire, j: JournalFile, events: seq<Event>, s: Supervisor, command: Command, mode: Mode, at: string)
    requires WireLaws(w) && Reachable(w, j, events, s) && w.commandOk(command) && w.timeOk(at)
    ensures var (t, reply) := DeliverSpec(w, s, command, mode, at);
            && (reply.Immediate? <==> OtherInFlight(s, command))
            && (reply.Immediate? ==> t == s && reply.result == Failed(409, "EXECUTION_COMMAND_ID_CONFLICT"))
            && (reply.Promised? ==> reply.delivery in t.deliveries
                                    && t.deliveries[reply.delivery].commandId == command.commandId
                                    && t.deliveries[reply.delivery].digest == CommandDigest(command))
  {
    ReachableInv(w, j, events, s);
    if command.commandId in s.inFlight { assert InFlightInv(s, command.commandId); }
  }

  // ------------------------------------------------------------------ the executor's answer, and queries

  /** The three ways an executor call ends: it threw, its outcome tells nothing valid, or the
      acknowledgement that tells it is stored in the one new completion and answered. */
  ghost predicate Concluded(
    w: Wire, j: JournalFile, received: Entry, outcome: Option<Outcome>, at: string, k: JournalFile,
    result: ServiceResult)
    requires received.Received?
  {
    var revision := |j.entries| + 1;
    if outcome.None? then k == j && result == Failed(500, "EXECUTION_EXECUTOR_FAILED")
    else
      var draft := DraftAcknowledgement(w, received.command, outcome.value, revision);
      if draft.None? then k == j && result == Failed(500, "EXECUTION_EXECUTOR_OUTCOME_INVALID")
      else
        var e := Completed(received.commandId, received.commandDigest, draft.value, received.snapshotHandoffDigest,
                           at, revision);
        k == JournalFile(revision, j.entries + [e]) && result == Answered(draft.value)
  }

  lemma SettleConcludes(w: Wire, j: JournalFile, received: Entry, outcome: Option<Outcome>, at: string)
    requires WireLaws(w) && ValidJournal(w, j) && w.timeOk(at)
    requires ReceivedIn(j, received) && NotCompleted(j, received.commandId)
    requires received.command.commandId == received.commandId
    ensures var (k, result) := SettleSpec(w, j, received, received.commandDigest, outcome, at);
            Concluded(w, j, received, outcome, at, k, result)
  {
    LookupIsUnique(w, j.entries, received);
    SettleFacts(w, j, received, outcome, at);
  }

  lemma ExecutorAnswerIsStored(w: Wire, s: Supervisor, n: nat, outcome: Option<Outcome>, at: string)
    requires WireLaws(w) && AnswersInv(w, s) && Executes(s, n) && w.timeOk(at)
    ensures var t := SettledSpec(w, s, n, outcome, at);
            && n in t.deliveries && t.deliveries[n].phase.Settled?
            && t.deliveries[n] == s.deliveries[n].(phase := t.deliveries[n].phase)
            && Concluded(w, s.journal, s.deliveries[n].phase.received, outcome, at, t.journal,
                         t.deliveries[n].phase.result)
  {
    assert DeliveryInv(s, n);
    SettleConcludes(w, s.journal, s.deliveries[n].phase.received, outcome, at);
  }

  /** A query tells what the journal holds for the id: nothing, a reception, or a reception
      with the completion of its digest; it never finds the journal corrupt. */
  lemma QueryTells(w: Wire, j: JournalFile, id: string)
    requires ValidJournal(w, j)
    ensures UnknownTo(j, id) ==> QuerySpec(w, j, id) == QueryResult(id, Missing, None, None)
    ensures forall r :: ReceivedFor(j, id, r) && NotCompleted(j, id) ==>
              QuerySpec(w, j, id) == QueryResult(id, ReceivedOnly, Some(r), None)
    ensures forall r, e :: ReceivedFor(j, id, r) && CompletedFor(j, id, e) ==>
              e.commandDigest == r.commandDigest
              && QuerySpec(w, j, id) == QueryResult(id, CompletedToo, Some(r), Some(e.acknowledgement))
    ensures UnknownTo(j, id) || exists r :: ReceivedFor(j, id, r)
  {
    forall e | e in j.entries && e.commandId == id
      ensures LookupIn(j.entries, id).received.Some?
      ensures e.Received? ==> LookupIn(j.entries, id).received == Some(e)
      ensures e.Completed? ==> LookupIn(j.entries, id).completed == Some(e)
                               && LookupIn(j.entries, id).received.value.commandDigest == e.commandDigest
    {
      LookupIsUnique(w, j.entries, e);
    }
    var found := LookupIn(j.entries, id);
    if !UnknownTo(j, id) {
      var e :| e in j.entries && e.commandId == id;
      assert ReceivedFor(j, id, found.received.value);
    }
  }
}
