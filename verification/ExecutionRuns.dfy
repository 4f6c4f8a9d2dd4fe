/** Every interleaving of deliveries, executor answers, clean-ups and crashes of the
    execution supervisor, and what holds in all of them. */
module ExecutionRuns {
  import opened Basics
  import opened ExecutionTypes
  import opened ExecutionJournal
  import opened ExecutionRpc

  datatype Event =
    | DeliverEvent(command: Command, mode: Mode, at: string)
    | SettleEvent(delivery: nat, outcome: Option<Outcome>, at: string)
    | FinalizeEvent(delivery: nat)
    | CrashEvent

  /** A step can happen: the envelope validator passed the command, the clock gave a
      valid time, the delivery is where the step needs it. */
  ghost predicate Enabled(w: Wire, s: Supervisor, e: Event) {
    match e
    case DeliverEvent(command, _, at) => w.commandOk(command) && w.timeOk(at)
    case SettleEvent(n, _, at) => Executes(s, n) && w.timeOk(at)
    case FinalizeEvent(n) => n in s.deliveries && s.deliveries[n].phase.Settled?
    case CrashEvent => true
  }

  /** A crash drops the memory and keeps the file. */
  ghost function Next(w: Wire, s: Supervisor, e: Event): Supervisor
    requires Enabled(w, s, e)
  {
    match e
    case DeliverEvent(command, mode, at) => DeliverSpec(w, s, command, mode, at).0
    case SettleEvent(n, outcome, at) => SettledSpec(w, s, n, outcome, at)
    case FinalizeEvent(n) => FinalizeSpec(s, n)
    case CrashEvent => Boot(s.journal)
  }

  /** A process that has just started on a journal file. */
  function Boot(j: JournalFile): Supervisor {
    Supervisor(j, map[], map[], 0)
  }

  // ------------------------------------------------------------------ the invariant

  ghost predicate StoredFor(j: JournalFile, id: string, ack: Acknowledgement) {
    exists e :: e in j.entries && e.Completed? && e.commandId == id && e.acknowledgement == ack
  }

  ghost predicate ReceivedIn(j: JournalFile, e: Entry) { e in j.entries && e.Received? }

  ghost predicate NotCompleted(j: JournalFile, id: string) {
    forall e :: e in j.entries && e.Completed? ==> e.commandId != id
  }

  /** A delivery inside the executor is the in-flight one of a received, incomplete
      command; an answered one answered what is stored. */
  ghost predicate DeliveryInv(s: Supervisor, n: nat)
    requires n in s.deliveries
  {
    var d := s.deliveries[n];
    && n < s.nextDelivery
    && match d.phase
       case Executing(received) =>
         && ReceivedIn(s.journal, received)
         && received.commandId == d.commandId
         && received.command.commandId == d.commandId
         && received.commandDigest == d.digest
         && NotCompleted(s.journal, d.commandId)
         && d.commandId in s.inFlight && s.inFlight[d.commandId].delivery == n
       case Settled(result) =>
         && !result.QueryResult?
         && (result.Answered? ==> StoredFor(s.journal, d.commandId, result.acknowledgement))
         && (result.Threw? ==> s.journal.journalRevision == U53_MAX)
  }

  ghost predicate InFlightInv(s: Supervisor, id: string)
    requires id in s.inFlight
  {
    var n := s.inFlight[id].delivery;
    n in s.deliveries && s.deliveries[n].commandId == id && s.deliveries[n].digest == s.inFlight[id].digest
  }

  ghost predicate SupervisorInv(w: Wire, s: Supervisor) {
    && ValidJournal(w, s.journal)
    && (forall n :: n in s.deliveries ==> DeliveryInv(s, n))
    && (forall id :: id in s.inFlight ==> InFlightInv(s, id))
  }

  ghost predicate ExtendsJournal(old_: JournalFile, new_: JournalFile) {
    old_.entries <= new_.entries && old_.journalRevision <= new_.journalRevision
  }

  // ------------------------------------------------------------------ preservation

  lemma StoredForExtends(j: JournalFile, k: JournalFile, id: string, ack: Acknowledgement)
    requires StoredFor(j, id, ack) && j.entries <= k.entries
    ensures StoredFor(k, id, ack)
  {
    var e :| e in j.entries && e.Completed? && e.commandId == id && e.acknowledgement == ack;
    assert e in k.entries;
  }

  lemma ReceptionCarriesItsDigest(w: Wire, j: JournalFile, received: Entry)
    requires ValidJournal(w, j) && ReceivedIn(j, received)
    ensures received.commandDigest == CommandDigest(received.command)
  {
    var i :| 0 <= i < |j.entries| && j.entries[i] == received;
    assert EntryOk(w, j.entries, i);
  }

  /** What `performDelivery` does to the file and where it leaves the delivery. */
  lemma PerformFacts(w: Wire, j: JournalFile, command: Command, mode: Mode, at: string)
    requires WireLaws(w) && ValidJournal(w, j) && w.commandOk(command) && w.timeOk(at)
    ensures var (k, phase) := PerformSpec(w, j, command, mode, at);
            && ValidJournal(w, k)
            && (k == j || (k == Extended(j, ReceivedEntry(command, at, j.journalRevision + 1))
                           && !Known(LookupIn(j.entries, command.commandId))))
            && match phase
               case Executing(received) =>
                 && ReceivedIn(k, received) && received.commandId == command.commandId
                 && received.command == command && received.commandDigest == CommandDigest(command)
                 && NotCompleted(k, command.commandId)
               case Settled(result) =>
                 && k == j
                 && !result.QueryResult?
                 && (result.Answered? ==> StoredFor(k, command.commandId, result.acknowledgement))
                 && (result.Threw? ==> k.journalRevision == U53_MAX)
  {
    var found := LookupIn(j.entries, command.commandId);
    if !Known(found) {
      ReceivedAppendThrowsOnlyWhenFull(w, j, command, at);
    } else if found.received.Some? {
      ReceptionCarriesItsDigest(w, j, found.received.value);
    }
  }

  lemma DeliverKeepsInv(w: Wire, s: Supervisor, command: Command, mode: Mode, at: string)
    requires WireLaws(w) && SupervisorInv(w, s) && w.commandOk(command) && w.timeOk(at)
    ensures SupervisorInv(w, DeliverSpec(w, s, command, mode, at).0)
    ensures ExtendsJournal(s.journal, DeliverSpec(w, s, command, mode, at).0.journal)
  {
    PerformFacts(w, s.journal, command, mode, at);
    var id := command.commandId;
    var (t, reply) := DeliverSpec(w, s, command, mode, at);
    if t != s {
      assert id in s.inFlight ==> InFlightInv(s, id);
      forall n | n in t.deliveries ensures DeliveryInv(t, n) {
        if n in s.deliveries && n != s.nextDelivery {
          assert DeliveryInv(s, n);
          var d := s.deliveries[n];
          if d.phase.Executing? {
            assert ReceivedIn(s.journal, d.phase.received);
            assert d.commandId != id;
          } else if d.phase.result.Answered? {
            StoredForExtends(s.journal, t.journal, d.commandId, d.phase.result.acknowledgement);
          }
        }
      }
      forall k | k in t.inFlight ensures InFlightInv(t, k) {
        if k != id {
          assert InFlightInv(s, k);
          assert DeliveryInv(s, s.inFlight[k].delivery);
        }
      }
    }
  }

  /** Where the executor's answer leaves the file and the result. */
  lemma SettleFacts(w: Wire, j: JournalFile, received: Entry, outcome: Option<Outcome>, at: string)
    requires WireLaws(w) && ValidJournal(w, j) && w.timeOk(at)
    requires ReceivedIn(j, received) && NotCompleted(j, received.commandId)
    requires received.command.commandId == received.commandId
    ensures var (k, result) := SettleSpec(w, j, received, received.commandDigest, outcome, at);
            && ValidJournal(w, k)
            && (result.Answered? || result.Failed?)
            && (result.Failed? ==> k == j)
            && (result.Answered? ==>
                  && |k.entries| == |j.entries| + 1 && k == Extended(j, k.entries[|j.entries|])
                  && var e := k.entries[|j.entries|];
                     && e.Completed? && e.commandId == received.commandId && e.commandDigest == received.commandDigest
                     && e.acknowledgement == result.acknowledgement
                     && outcome.Some?
                     && Some(result.acknowledgement) ==
                        DraftAcknowledgement(w, received.command, outcome.value, j.journalRevision + 1))
            && (result.Answered? <==>
                outcome.Some? && DraftAcknowledgement(w, received.command, outcome.value, j.journalRevision + 1).Some?)
  {
    LookupIsUnique(w, j.entries, received);
    if outcome.Some? && DraftAcknowledgement(w, received.command, outcome.value, j.journalRevision + 1).Some? {
      var build := (revision: nat) => DraftAcknowledgement(w, received.command, outcome.value, revision);
      CompletedAppendNeverThrows(w, j, received.commandId, received.commandDigest, build, at);
    }
  }

  lemma SettleKeepsInv(w: Wire, s: Supervisor, n: nat, outcome: Option<Outcome>, at: string)
    requires WireLaws(w) && SupervisorInv(w, s) && Executes(s, n) && w.timeOk(at)
    ensures SupervisorInv(w, SettledSpec(w, s, n, outcome, at))
    ensures ExtendsJournal(s.journal, SettledSpec(w, s, n, outcome, at).journal)
  {
    assert DeliveryInv(s, n);
    var d := s.deliveries[n];
    var received := d.phase.received;
    SettleFacts(w, s.journal, received, outcome, at);
    var t := SettledSpec(w, s, n, outcome, at);
    var result := t.deliveries[n].phase.result;
    if result.Answered? {
      assert t.journal.entries[|s.journal.entries|] in t.journal.entries;
    }
    forall m | m in t.deliveries ensures DeliveryInv(t, m) {
      assert DeliveryInv(s, m);
      var other := s.deliveries[m];
      if m == n {
        assert result.Answered? ==> StoredFor(t.journal, d.commandId, result.acknowledgement);
      } else if other.phase.Executing? {
        assert other.phase.received in t.journal.entries;
        assert other.commandId != d.commandId;
      } else if other.phase.result.Answered? {
        StoredForExtends(s.journal, t.journal, other.commandId, other.phase.result.acknowledgement);
      }
    }
    forall k | k in t.inFlight ensures InFlightInv(t, k) {
      assert InFlightInv(s, k);
    }
  }

  lemma FinalizeKeepsInv(w: Wire, s: Supervisor, n: nat)
    requires SupervisorInv(w, s) && n in s.deliveries && s.deliveries[n].phase.Settled?
    ensures SupervisorInv(w, FinalizeSpec(s, n))
  {
    var t := FinalizeSpec(s, n);
    forall m | m in t.deliveries ensures DeliveryInv(t, m) {
      assert DeliveryInv(s, m);
    }
    forall k | k in t.inFlight ensures InFlightInv(t, k) {
      assert InFlightInv(s, k);
    }
  }

  /** Every step keeps the invariant and only ever appends to the journal. */
  lemma NextKeepsInv(w: Wire, s: Supervisor, e: Event)
    requires WireLaws(w) && SupervisorInv(w, s) && Enabled(w, s, e)
    ensures SupervisorInv(w, Next(w, s, e))
    ensures ExtendsJournal(s.journal, Next(w, s, e).journal)
  {
    match e
    case DeliverEvent(command, mode, at) => DeliverKeepsInv(w, s, command, mode, at);
    case SettleEvent(n, outcome, at) => SettleKeepsInv(w, s, n, outcome, at);
    case FinalizeEvent(n) => FinalizeKeepsInv(w, s, n);
    case CrashEvent =>
  }

  // ------------------------------------------------------------------ runs

  ghost predicate ValidRun(w: Wire, s: Supervisor, events: seq<Event>)
    decreases |events|
  {
    events == [] || (Enabled(w, s, events[0]) && ValidRun(w, Next(w, s, events[0]), events[1..]))
  }

  ghost function After(w: Wire, s: Supervisor, events: seq<Event>): Supervisor
    requires ValidRun(w, s, events)
    decreases |events|
  {
    if events == [] then s else After(w, Next(w, s, events[0]), events[1..])
  }

  lemma {:induction false} RunKeepsInv(w: Wire, s: Supervisor, events: seq<Event>)
    requires WireLaws(w) && SupervisorInv(w, s) && ValidRun(w, s, events)
    ensures SupervisorInv(w, After(w, s, events))
    ensures ExtendsJournal(s.journal, After(w, s, events).journal)
    decreases |events|
  {
    if events == [] {
    } else {
      NextKeepsInv(w, s, events[0]);
      RunKeepsInv(w, Next(w, s, events[0]), events[1..]);
    }
  }

  /** What the caller of a delivery, or of a query, was told. */
  ghost predicate Told(w: Wire, s: Supervisor, id: string, ack: Acknowledgement) {
    || (exists n ::
          n in s.deliveries && s.deliveries[n] == Delivery(id, s.deliveries[n].digest, Settled(Answered(ack))))
    || (var q := QuerySpec(w, s.journal, id); q.QueryResult? && q.stored == Some(ack))
  }

  lemma ToldIsStored(w: Wire, s: Supervisor, id: string, ack: Acknowledgement)
    requires SupervisorInv(w, s) && Told(w, s, id, ack)
    ensures StoredFor(s.journal, id, ack)
  {
    var q := QuerySpec(w, s.journal, id);
    if q.QueryResult? && q.stored == Some(ack) {
      assert LookupIn(s.journal.entries, id).completed.value in s.journal.entries;
    } else {
      var n :| n in s.deliveries && s.deliveries[n] == Delivery(id, s.deliveries[n].digest, Settled(Answered(ack)));
      assert DeliveryInv(s, n);
    }
  }

  /** Over every interleaving of deliveries, replays, executor failures and crashes:
      an acknowledgement told at any time is the one stored at every later time. */
  lemma AcknowledgementIsFinal(w: Wire, j: JournalFile, before: seq<Event>, after: seq<Event>, id: string,
                               ack: Acknowledgement)
    requires WireLaws(w) && ValidJournal(w, j)
    requires ValidRun(w, Boot(j), before) && ValidRun(w, After(w, Boot(j), before), after)
    requires Told(w, After(w, Boot(j), before), id, ack)
    ensures var s := After(w, After(w, Boot(j), before), after);
            && StoredFor(s.journal, id, ack)
            && LookupIn(s.journal.entries, id).completed.value.acknowledgement == ack
            && (forall other :: Told(w, s, id, other) ==> other == ack)
  {
    var s := After(w, Boot(j), before);
    RunKeepsInv(w, Boot(j), before);
    RunKeepsInv(w, s, after);
    var t := After(w, s, after);
    ToldIsStored(w, s, id, ack);
    StoredForExtends(s.journal, t.journal, id, ack);
    var e :| e in t.journal.entries && e.Completed? && e.commandId == id && e.acknowledgement == ack;
    LookupIsUnique(w, t.journal.entries, e);
    forall other | Told(w, t, id, other) ensures other == ack {
      ToldIsStored(w, t, id, other);
      var o :| o in t.journal.entries && o.Completed? && o.commandId == id && o.acknowledgement == other;
      OneCompletion(w, t.journal.entries, e, o);
    }
  }

  /** No two executor calls for one command overlap, none runs for a completed command,
      and each runs only after its reception is on disk. */
  lemma ExecutorCallsNeverOverlap(w: Wire, j: JournalFile, events: seq<Event>, n: nat, m: nat)
    requires WireLaws(w) && ValidJournal(w, j) && ValidRun(w, Boot(j), events)
    requires var s := After(w, Boot(j), events);
             Executes(s, n) && Executes(s, m) && s.deliveries[n].commandId == s.deliveries[m].commandId
    ensures n == m
    ensures var s := After(w, Boot(j), events);
            s.deliveries[n].phase.received in s.journal.entries && NotCompleted(s.journal, s.deliveries[n].commandId)
  {
    RunKeepsInv(w, Boot(j), events);
    var s := After(w, Boot(j), events);
    assert DeliveryInv(s, n) && DeliveryInv(s, m);
  }

  /** Every journal a run reaches validates, has the first one as a prefix, holds at most
      one completion per command, and as long as it is not full no append has thrown. */
  lemma JournalOfEveryRun(w: Wire, j: JournalFile, events: seq<Event>)
    requires WireLaws(w) && ValidJournal(w, j) && ValidRun(w, Boot(j), events)
    ensures var s := After(w, Boot(j), events);
            && ValidJournal(w, s.journal)
            && j.entries <= s.journal.entries
            && (forall i, k :: (0 <= i < |s.journal.entries| && 0 <= k < |s.journal.entries|
                                && s.journal.entries[k].Completed?
                                && IsCompletedFor(s.journal.entries[i], s.journal.entries[k].commandId)) ==> i == k)
            && (s.journal.journalRevision < U53_MAX ==>
                  forall n :: n in s.deliveries ==> s.deliveries[n].phase != Settled(Threw))
  {
    RunKeepsInv(w, Boot(j), events);
    var s := After(w, Boot(j), events);
    forall i, k | 0 <= i < |s.journal.entries| && 0 <= k < |s.journal.entries|
        && IsCompletedFor(s.journal.entries[i], s.journal.entries[k].commandId) && s.journal.entries[k].Completed?
      ensures i == k
    {
      assert EntryOk(w, s.journal.entries, i) && EntryOk(w, s.journal.entries, k);
      assert IsCompletedFor(s.journal.entries[k], s.journal.entries[i].commandId);
    }
    forall n | n in s.deliveries
      && s.journal.journalRevision < U53_MAX ensures s.deliveries[n].phase != Settled(Threw) {
      assert DeliveryInv(s, n);
    }
  }

  /** Every reception a delivery writes carries revision expectedJournalRevision + 1. */
  lemma ReceptionRevision(w: Wire, s: Supervisor, command: Command, mode: Mode, at: string)
    requires WireLaws(w) && SupervisorInv(w, s) && w.commandOk(command) && w.timeOk(at)
    ensures var t := DeliverSpec(w, s, command, mode, at).0;
            t.journal != s.journal ==>
              && mode == CommandMode
              && |t.journal.entries| == |s.journal.entries| + 1
              && var e := t.journal.entries[|s.journal.entries|];
                 e.Received? && e.command == command && e.journalRevision == command.expectedJournalRevision + 1
  {
    PerformFacts(w, s.journal, command, mode, at);
  }

  /** Recovery after a crash: redelivering a received, incomplete command on a fresh
      process calls the executor again, and a valid outcome completes it. */
  lemma CrashedCommandResumes(w: Wire, j: JournalFile, received: Entry, mode: Mode, outcome: Outcome, at: string)
    requires WireLaws(w) && ValidJournal(w, j) && w.timeOk(at)
    requires ReceivedIn(j, received) && NotCompleted(j, received.commandId)
    requires received.command.commandId == received.commandId && w.commandOk(received.command)
    requires DraftAcknowledgement(w, received.command, outcome, j.journalRevision + 1).Some?
    ensures var (s, reply) := DeliverSpec(w, Boot(j), received.command, mode, at);
            && reply == Promised(0) && Executes(s, 0) && s.deliveries[0].phase.received == received
            && s.journal == j
            && var t := SettledSpec(w, s, 0, Some(outcome), at);
               && t.deliveries[0].phase.Settled? && t.deliveries[0].phase.result.Answered?
               && StoredFor(t.journal, received.commandId, t.deliveries[0].phase.result.acknowledgement)
  {
    PerformFacts(w, j, received.command, mode, at);
    LookupIsUnique(w, j.entries, received);
    ReceptionCarriesItsDigest(w, j, received);
    SettleFacts(w, j, received, Some(outcome), at);
    var s := DeliverSpec(w, Boot(j), received.command, mode, at).0;
    var t := SettledSpec(w, s, 0, Some(outcome), at);
    assert t.journal.entries[|j.entries|] in t.journal.entries;
  }
}
