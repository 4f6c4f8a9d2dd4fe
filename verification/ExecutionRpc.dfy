/** The execution RPC handler.  An asynchronous delivery is cut at its only
    suspension point, the call to the executor: `Deliver` runs up to it, `Settle`
    runs from the executor's answer on, `Finalize` is the clean-up that follows.
    A promise is an entry of `deliveries`; joining one hands out the same number. */
module ExecutionRpc {
  import opened Basics
  import opened ExecutionTypes
  import opened ExecutionJournal

  const EXECUTION_COMMAND_ID_CONFLICT := "EXECUTION_COMMAND_ID_CONFLICT"
  const JOURNAL_REVISION_CONFLICT := "JOURNAL_REVISION_CONFLICT"
  const EXECUTION_COMMAND_UNKNOWN := "EXECUTION_COMMAND_UNKNOWN"
  const EXECUTION_EXECUTOR_FAILED := "EXECUTION_EXECUTOR_FAILED"
  const EXECUTION_EXECUTOR_OUTCOME_INVALID := "EXECUTION_EXECUTOR_OUTCOME_INVALID"
  const WASM_EXECUTION_JOURNAL_CORRUPT := "WASM_EXECUTION_JOURNAL_CORRUPT"

  datatype Mode = CommandMode | ReplayMode

  datatype QueryStatus = Missing | ReceivedOnly | CompletedToo

  datatype ServiceResult =
    | Answered(acknowledgement: Acknowledgement)
    | QueryResult(commandId: string, status: QueryStatus, received: Option<Entry>, stored: Option<Acknowledgement>)
    | Failed(httpStatus: int, code: string)
    | Threw

  /** Where a delivery is: inside the executor, or done. */
  datatype Phase = Executing(received: Entry) | Settled(result: ServiceResult)

  datatype Delivery = Delivery(commandId: string, digest: Digest, phase: Phase)

  datatype InFlight = InFlight(digest: Digest, mode: Mode, delivery: nat)

  datatype Reply = Immediate(result: ServiceResult) | Promised(delivery: nat)

  /** The journal file and the memory of one supervisor process. */
  datatype Supervisor = Supervisor(
    journal: JournalFile,
    inFlight: map<string, InFlight>,
    deliveries: map<nat, Delivery>,
    nextDelivery: nat)

  // ------------------------------------------------------------------ acknowledgements

  /** None where the executor's outcome contradicts itself. */
  function DrainReceiptDigestOfOutcome(w: Wire, command: Command, outcome: Outcome,
                                       revision: nat): Option<Option<Digest>> {
    if !(command.operation == Drain && outcome.result == Applied) then
      if outcome.drainReceiptDraft.None? then Some(None) else None
    else if outcome.drainReceiptDraft.None? || !w.drainReceiptOk(outcome.drainReceiptDraft.value, revision) then None
    else Some(Some(DrainReceiptDigest(outcome.drainReceiptDraft.value, revision)))
  }

  /** The acknowledgement an outcome forms at a journal revision, if any. */
  function DraftAcknowledgement(w: Wire, command: Command, outcome: Outcome,
                                revision: nat): (r: Option<Acknowledgement>)
    ensures r.Some? ==>
              Correlates(command, r.value) && w.acknowledgementOk(r.value) && r.value.journalRevision == revision
    ensures r.Some? ==> r.value.result == outcome.result && r.value.failureCode == outcome.failureCode
  {
    var receipt := DrainReceiptDigestOfOutcome(w, command, outcome, revision);
    if receipt.None? then None
    else
      var draft := Acknowledgement(
        command.commandId, command.operation, command.identity, command.applicationId, command.fenceNonce,
        command.pins, receipt.value, outcome.result, outcome.failureCode, revision);
      if w.acknowledgementOk(draft) then Some(draft) else None
  }

  /** The outcome carries a drain receipt exactly where the command is an applied drain, and
      then a valid one. */
  predicate ReceiptFits(w: Wire, command: Command, outcome: Outcome, revision: nat) {
    && (outcome.drainReceiptDraft.Some? <==> command.operation == Drain && outcome.result == Applied)
    && (outcome.drainReceiptDraft.Some? ==> w.drainReceiptOk(outcome.drainReceiptDraft.value, revision))
  }

  /** The acknowledgement echoes the command and carries the outcome. */
  predicate Tells(a: Acknowledgement, command: Command, outcome: Outcome, revision: nat) {
    && Correlates(command, a) && a.journalRevision == revision
    && a.result == outcome.result && a.failureCode == outcome.failureCode
    && a.drainReceiptDigest == if outcome.drainReceiptDraft.None? then None
                               else Some(DrainReceiptDigest(outcome.drainReceiptDraft.value, revision))
  }

  /** An acknowledgement is formed exactly where the receipt fits and the one that tells the
      outcome is valid on the wire, and then it is that one. */
  lemma AcknowledgementFormedIff(w: Wire, command: Command, outcome: Outcome, revision: nat, a: Acknowledgement)
    ensures DraftAcknowledgement(w, command, outcome, revision) == Some(a) <==>
            ReceiptFits(w, command, outcome, revision) && Tells(a, command, outcome, revision) && w.acknowledgementOk(a)
  {
    var receipt := DrainReceiptDigestOfOutcome(w, command, outcome, revision);
    if receipt.Some? && Tells(a, command, outcome, revision) {
      assert a == Acknowledgement(command.commandId, command.operation, command.identity, command.applicationId,
                                  command.fenceNonce, command.pins, receipt.value, outcome.result,
                                    outcome.failureCode, revision);
    }
  }

  // ------------------------------------------------------------------ specification of the handler's steps

  /** `performDelivery` up to the executor call or the answer. */
  ghost function PerformSpec(w: Wire, j: JournalFile, command: Command, mode: Mode, at: string): (JournalFile, Phase) {
    var digest := CommandDigest(command);
    if !ValidJournal(w, j) then (j, Settled(Threw))
    else
      var found := LookupIn(j.entries, command.commandId);
      if found.completed.Some? then
        if found.received.None? || found.received.value.commandDigest != digest
        then (j, Settled(Failed(409, EXECUTION_COMMAND_ID_CONFLICT)))
        else (j, Settled(Answered(found.completed.value.acknowledgement)))
      else if found.received.Some? then
        if found.received.value.commandDigest != digest
        then (j, Settled(Failed(409, EXECUTION_COMMAND_ID_CONFLICT)))
        else (j, Executing(found.received.value))
      else if mode == ReplayMode then (j, Settled(Failed(404, EXECUTION_COMMAND_UNKNOWN)))
      else if command.expectedJournalRevision != j.journalRevision
      then (j, Settled(Failed(409, JOURNAL_REVISION_CONFLICT)))
      else
        var (next, answer) := AppendReceivedSpec(w, j, j.journalRevision, command, at);
        match answer
        case ReceiveAppended(entry) => (next, Executing(entry))
        case RevisionConflict(_) => (next, Settled(Failed(409, JOURNAL_REVISION_CONFLICT)))
        case ReceiveThrew => (next, Settled(Threw))
  }

  ghost function DeliverSpec(w: Wire, s: Supervisor, command: Command, mode: Mode, at: string): (Supervisor, Reply) {
    var digest := CommandDigest(command);
    var id := command.commandId;
    if id in s.inFlight && s.inFlight[id].digest != digest then
      (s, Immediate(Failed(409, EXECUTION_COMMAND_ID_CONFLICT)))
    else if id in s.inFlight && !ValidJournal(w, s.journal) then
      (s, Immediate(Threw))
    else if id in s.inFlight && (Known(LookupIn(s.journal.entries, id)) || s.inFlight[id].mode == CommandMode) then
      (s, Promised(s.inFlight[id].delivery))
    else
      var (journal, phase) := PerformSpec(w, s.journal, command, mode, at);
      var n := s.nextDelivery;
      (Supervisor(journal,
                  s.inFlight[id := InFlight(digest, mode, n)],
                  s.deliveries[n := Delivery(id, digest, phase)],
                  n + 1),
       Promised(n))
  }

  /** The rest of `resume` after the executor answered; None where it threw. */
  ghost function SettleSpec(w: Wire, j: JournalFile, received: Entry, digest: Digest, outcome: Option<Outcome>,
                            at: string)
    : (JournalFile, ServiceResult)
    requires received.Received?
  {
    if outcome.None? then (j, Failed(500, EXECUTION_EXECUTOR_FAILED))
    else if !ValidJournal(w, j) then (j, Threw)
    else if DraftAcknowledgement(w, received.command, outcome.value, j.journalRevision + 1).None?
    then (j, Failed(500, EXECUTION_EXECUTOR_OUTCOME_INVALID))
    else
      var build := (revision: nat) => DraftAcknowledgement(w, received.command, outcome.value, revision);
      var (next, answer) := AppendCompletedSpec(w, j, received.commandId, digest, build, at);
      match answer
      case CompleteAppended(entry) => (next, if entry.Completed? then Answered(entry.acknowledgement) else Threw)
      case AlreadyCompleted(entry) => (next, if entry.Completed? then Answered(entry.acknowledgement) else Threw)
      case CompleteThrew => (next, Threw)
  }

  ghost predicate Executes(s: Supervisor, n: nat) {
    n in s.deliveries && s.deliveries[n].phase.Executing? && s.deliveries[n].phase.received.Received?
  }

  ghost function SettledSpec(w: Wire, s: Supervisor, n: nat, outcome: Option<Outcome>, at: string): Supervisor
    requires Executes(s, n)
  {
    var d := s.deliveries[n];
    var (journal, result) := SettleSpec(w, s.journal, d.phase.received, d.digest, outcome, at);
    s.(journal := journal, deliveries := s.deliveries[n := d.(phase := Settled(result))])
  }

  /** The entry is removed only if it is still this delivery's own. */
  ghost function FinalizeSpec(s: Supervisor, n: nat): Supervisor
    requires n in s.deliveries
  {
    var id := s.deliveries[n].commandId;
    if id in s.inFlight && s.inFlight[id].delivery == n then s.(inFlight := s.inFlight - {id}) else s
  }

  ghost function QuerySpec(w: Wire, j: JournalFile, id: string): ServiceResult {
    if !ValidJournal(w, j) then Threw
    else
      var found := LookupIn(j.entries, id);
      if found.received.None? && found.completed.None? then QueryResult(id, Missing, None, None)
      else if found.received.None? then Failed(500, WASM_EXECUTION_JOURNAL_CORRUPT)
      else if found.completed.Some?
      then QueryResult(id, CompletedToo, found.received, Some(found.completed.value.acknowledgement))
      else QueryResult(id, ReceivedOnly, found.received, None)
  }

  // ------------------------------------------------------------------ the handler

  class ExecutionRpcHandler {
    const wire: Wire
    const journal: WasmExecutionJournalStore
    var inFlight: map<string, InFlight>
    var deliveries: map<nat, Delivery>
    var nextDelivery: nat

    /** A process starts with an empty memory on whatever journal the last one left. */
    constructor (journal: WasmExecutionJournalStore)
      ensures this.journal == journal && wire == journal.wire
      ensures State() == Supervisor(journal.Contents(), map[], map[], 0)
    {
      this.wire := journal.wire;
      this.journal := journal;
      inFlight, deliveries, nextDelivery := map[], map[], 0;
    }

    ghost function State(): Supervisor
      reads this, journal
    {
      Supervisor(journal.Contents(), inFlight, deliveries, nextDelivery)
    }

    method PerformDelivery(command: Command, mode: Mode, at: string) returns (phase: Phase)
      requires wire == journal.wire
      modifies journal
      ensures (journal.Contents(), phase) == PerformSpec(wire, old(journal.Contents()), command, mode, at)
    {
      var commandDigest := CommandDigest(command);
      var found := journal.Find(command.commandId);
      if found.None? {
        return Settled(Threw);
      }
      var known := found.value;
      if known.completed.Some? {
        if known.received.None? || known.received.value.commandDigest != commandDigest {
          return Settled(Failed(409, EXECUTION_COMMAND_ID_CONFLICT));
        }
        return Settled(Answered(known.completed.value.acknowledgement));
      }
      if known.received.Some? {
        if known.received.value.commandDigest != commandDigest {
          return Settled(Failed(409, EXECUTION_COMMAND_ID_CONFLICT));
        }
        return Executing(known.received.value);
      }
      if mode == ReplayMode {
        return Settled(Failed(404, EXECUTION_COMMAND_UNKNOWN));
      }
      var head := journal.Read();
      if command.expectedJournalRevision != head.value.journalRevision {
        return Settled(Failed(409, JOURNAL_REVISION_CONFLICT));
      }
      var appended := journal.AppendReceived(head.value.journalRevision, command, at);
      match appended {
        case ReceiveAppended(entry) => phase := Executing(entry);
        case RevisionConflict(_) => phase := Settled(Failed(409, JOURNAL_REVISION_CONFLICT));
        case ReceiveThrew => phase := Settled(Threw);
      }
    }

    method Deliver(command: Command, mode: Mode, at: string) returns (reply: Reply)
      requires wire == journal.wire
      modifies this, journal
      ensures (State(), reply) == DeliverSpec(wire, old(State()), command, mode, at)
    {
      var commandDigest := CommandDigest(command);
      if command.commandId in inFlight {
        var active := inFlight[command.commandId];
        if active.digest != commandDigest {
          return Immediate(Failed(409, EXECUTION_COMMAND_ID_CONFLICT));
        }
        var known := journal.Find(command.commandId);
        if known.None? {
          return Immediate(Threw);
        }
        if known.value.received.Some? || known.value.completed.Some? || active.mode == CommandMode {
          return Promised(active.delivery);
        }
      }
      var phase := PerformDelivery(command, mode, at);
      var n := nextDelivery;
      deliveries := deliveries[n := Delivery(command.commandId, commandDigest, phase)];
      inFlight := inFlight[command.commandId := InFlight(commandDigest, mode, n)];
      nextDelivery := n + 1;
      reply := Promised(n);
    }

    /** The executor answered delivery `n`, or threw. */
    method Settle(n: nat, outcome: Option<Outcome>, at: string)
      requires wire == journal.wire
      requires Executes(State(), n)
      modifies this, journal
      ensures State() == SettledSpec(wire, old(State()), n, outcome, at)
    {
      var d := deliveries[n];
      var received := d.phase.received;
      var result;
      if outcome.None? {
        result := Failed(500, EXECUTION_EXECUTOR_FAILED);
      } else {
        var head := journal.Read();
        if head.None? {
          result := Threw;
        } else if DraftAcknowledgement(wire, received.command, outcome.value, head.value.journalRevision + 1).None? {
          result := Failed(500, EXECUTION_EXECUTOR_OUTCOME_INVALID);
        } else {
          var w := wire;
          var build := (revision: nat) => DraftAcknowledgement(w, received.command, outcome.value, revision);
          var appended := journal.AppendCompleted(received.commandId, d.digest, build, at);
          match appended {
            case CompleteAppended(entry) => result := if entry.Completed? then Answered(entry.acknowledgement)
                                            else Threw;
            case AlreadyCompleted(entry) => result := if entry.Completed? then Answered(entry.acknowledgement)
                                            else Threw;
            case CompleteThrew => result := Threw;
          }
        }
      }
      deliveries := deliveries[n := d.(phase := Settled(result))];
    }

    /** The clean-up attached to delivery `n`. */
    method Finalize(n: nat)
      requires n in deliveries && deliveries[n].phase.Settled?
      modifies this`inFlight
      ensures State() == FinalizeSpec(old(State()), n)
    {
      var id := deliveries[n].commandId;
      if id in inFlight && inFlight[id].delivery == n {
        inFlight := inFlight - {id};
      }
    }

    method Query(id: string) returns (r: ServiceResult)
      requires wire == journal.wire
      ensures r == QuerySpec(wire, journal.Contents(), id)
    {
      var found := journal.Find(id);
      if found.None? {
        return Threw;
      }
      var known := found.value;
      if known.received.None? && known.completed.None? {
        return QueryResult(id, Missing, None, None);
      }
      if known.received.None? {
        return Failed(500, WASM_EXECUTION_JOURNAL_CORRUPT);
      }
      if known.completed.Some? {
        return QueryResult(id, CompletedToo, known.received, Some(known.completed.value.acknowledgement));
      }
      r := QueryResult(id, ReceivedOnly, known.received, None);
    }
  }
}
