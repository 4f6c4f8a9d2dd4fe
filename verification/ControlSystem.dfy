/** Kernel, channel and supervisor together.  The channel loses and duplicates:
    a message once sent may be taken any number of times, or never. */
module ControlSystem {
  import opened ExecutionTypes
  import opened ExecutionJournal
  import opened ExecutionRpc
  import opened ExecutionRuns
  import opened ControlStore

  datatype System = System(
    control: ControlState,
    supervisor: Supervisor,
    requests: set<Command>,
    responses: set<Acknowledgement>)

  datatype Step =
    | KernelAppend(expected: nat, command: Command, at: string)
    | KernelSend(index: nat)
    | KernelProject(expected: nat, ack: Acknowledgement)
    | KernelOther(next: ControlState)
    | SupervisorStep(event: Event)
    | SupervisorReply(id: string, ack: Acknowledgement)

  /** The Kernel sends only what its outbox holds and projects only what came back; a
      commit by other Kernel code may mark records sent or dead and add pending ones.
      The supervisor takes only what was sent and replies only what it was told. */
  ghost predicate CanStep(w: Wire, x: System, e: Step) {
    match e
    case KernelAppend(_, _, _) => true
    case KernelSend(i) => i < |x.control.commandOutbox|
    case KernelProject(_, ack) => ack in x.responses
    case KernelOther(next) =>
      && ValidControl(w, next) && next.controlRevision == x.control.controlRevision + 1
      && OutboxKept(x.control, next)
      && forall i :: 0 <= i < |next.commandOutbox| && next.commandOutbox[i].deliveryState == Acknowledged ==>
           i < |x.control.commandOutbox| && x.control.commandOutbox[i].deliveryState == Acknowledged
    case SupervisorStep(event) =>
      Enabled(w, x.supervisor, event) && (event.DeliverEvent? ==> event.command in x.requests)
    case SupervisorReply(id, ack) => Told(w, x.supervisor, id, ack)
  }

  ghost function Stepped(w: Wire, x: System, e: Step): System
    requires CanStep(w, x, e)
  {
    match e
    case KernelAppend(expected, command, at) => x.(control := AppendOutboxSpec(w, x.control, expected, command, at).0)
    case KernelSend(i) => x.(requests := x.requests + {x.control.commandOutbox[i].command})
    case KernelProject(expected, ack) => x.(control := ProjectSpec(w, x.control, expected, ack).0)
    case KernelOther(next) => x.(control := next)
    case SupervisorStep(event) => x.(supervisor := Next(w, x.supervisor, event))
    case SupervisorReply(id, ack) => x.(responses := x.responses + {ack})
  }

  const START := System(EMPTY_CONTROL_STATE, Boot(EMPTY_JOURNAL), {}, {})

  // ------------------------------------------------------------------ the invariant

  ghost predicate InOutbox(f: ControlState, command: Command) {
    exists i :: 0 <= i < |f.commandOutbox| && f.commandOutbox[i].command == command
  }

  /** The journal holds the completion of exactly this command. */
  ghost predicate CompletionHeld(j: JournalFile, command: Command) {
    exists e :: e in j.entries && e.Completed? && e.commandId == command.commandId
                && e.commandDigest == CommandDigest(command)
  }

  ghost predicate SystemInv(w: Wire, x: System) {
    && ValidControl(w, x.control)
    && SupervisorInv(w, x.supervisor)
    && (forall c :: c in x.requests ==> InOutbox(x.control, c))
    && (forall e :: e in x.supervisor.journal.entries && e.Received? ==>
          e.commandId == e.command.commandId && InOutbox(x.control, e.command))
    && (forall a :: a in x.responses ==> StoredFor(x.supervisor.journal, a.commandId, a))
    && (forall i :: 0 <= i < |x.control.commandOutbox| && x.control.commandOutbox[i].deliveryState == Acknowledged ==>
          CompletionHeld(x.supervisor.journal, x.control.commandOutbox[i].command))
  }

  lemma InOutboxKept(f: ControlState, g: ControlState, command: Command)
    requires OutboxKept(f, g) && InOutbox(f, command)
    ensures InOutbox(g, command)
  {
    var i :| 0 <= i < |f.commandOutbox| && f.commandOutbox[i].command == command;
    assert g.commandOutbox[i].command == command;
  }

  lemma OneOutboxCommand(w: Wire, f: ControlState, c: Command, d: Command)
    requires ValidControl(w, f) && InOutbox(f, c) && InOutbox(f, d) && c.commandId == d.commandId
    ensures c == d
  {
    var i :| 0 <= i < |f.commandOutbox| && f.commandOutbox[i].command == c;
    var k :| 0 <= k < |f.commandOutbox| && f.commandOutbox[k].command == d;
    assert RecordOk(w, f.commandOutbox[i]) && RecordOk(w, f.commandOutbox[k]);
  }

  /** An acknowledgement that came back is the completion of the outbox command it names. */
  lemma ResponseCompletes(w: Wire, x: System, ack: Acknowledgement, c: Command)
    requires SystemInv(w, x) && ack in x.responses && InOutbox(x.control, c) && c.commandId == ack.commandId
    ensures CompletionHeld(x.supervisor.journal, c)
  {
    var j := x.supervisor.journal;
    var e :| e in j.entries && e.Completed? && e.commandId == ack.commandId && e.acknowledgement == ack;
    LookupIsUnique(w, j.entries, e);
    var received := LookupIn(j.entries, e.commandId).received.value;
    ReceptionCarriesItsDigest(w, j, received);
    OneOutboxCommand(w, x.control, received.command, c);
  }

  /** A supervisor step adds at most receptions of the delivered command to the journal. */
  lemma NewReceptions(w: Wire, s: Supervisor, event: Event, e: Entry)
    requires WireLaws(w) && SupervisorInv(w, s) && Enabled(w, s, event)
    requires e in Next(w, s, event).journal.entries && e.Received? && e !in s.journal.entries
    ensures event.DeliverEvent? && e.command == event.command && e.commandId == event.command.commandId
  {
    match event
    case DeliverEvent(command, mode, at) =>
      PerformFacts(w, s.journal, command, mode, at);
    case SettleEvent(n, outcome, at) =>
      assert DeliveryInv(s, n);
      SettleFacts(w, s.journal, s.deliveries[n].phase.received, outcome, at);
    case FinalizeEvent(_) =>
    case CrashEvent =>
  }

  lemma KernelKeepsInv(w: Wire, x: System, y: System)
    requires SystemInv(w, x) && ValidControl(w, y.control) && OutboxKept(x.control, y.control)
    requires y.supervisor == x.supervisor && y.requests == x.requests && y.responses == x.responses
    requires forall i ::
               0 <= i < |y.control.commandOutbox| && y.control.commandOutbox[i].deliveryState == Acknowledged ==>
               || (i < |x.control.commandOutbox| && x.control.commandOutbox[i].deliveryState == Acknowledged)
               || CompletionHeld(x.supervisor.journal, y.control.commandOutbox[i].command)
    ensures SystemInv(w, y)
  {
    forall c | c in y.requests ensures InOutbox(y.control, c) {
      InOutboxKept(x.control, y.control, c);
    }
    forall e | e in y.supervisor.journal.entries && e.Received? ensures InOutbox(y.control, e.command) {
      InOutboxKept(x.control, y.control, e.command);
    }
  }

  lemma ProjectKeepsSystem(w: Wire, x: System, expected: nat, ack: Acknowledgement)
    requires SystemInv(w, x) && ack in x.responses
    ensures SystemInv(w, x.(control := ProjectSpec(w, x.control, expected, ack).0))
  {
    ProjectKeeps(w, x.control, expected, ack);
    var g := ProjectSpec(w, x.control, expected, ack).0;
    forall i | 0 <= i < |g.commandOutbox| && g.commandOutbox[i] != x.control.commandOutbox[i]
      ensures CompletionHeld(x.supervisor.journal, g.commandOutbox[i].command)
    {
      assert InOutbox(x.control, x.control.commandOutbox[i].command);
      ResponseCompletes(w, x, ack, x.control.commandOutbox[i].command);
    }
    KernelKeepsInv(w, x, x.(control := g));
  }

  lemma SupervisorKeepsSystem(w: Wire, x: System, event: Event)
    requires WireLaws(w) && SystemInv(w, x) && CanStep(w, x, SupervisorStep(event))
    ensures SystemInv(w, Stepped(w, x, SupervisorStep(event)))
  {
    NextKeepsInv(w, x.supervisor, event);
    var y := Stepped(w, x, SupervisorStep(event));
    forall e | e in y.supervisor.journal.entries && e.Received?
      ensures e.commandId == e.command.commandId && InOutbox(y.control, e.command)
    {
      if e !in x.supervisor.journal.entries {
        NewReceptions(w, x.supervisor, event, e);
      }
    }
    forall a | a in y.responses ensures StoredFor(y.supervisor.journal, a.commandId, a) {
      StoredForExtends(x.supervisor.journal, y.supervisor.journal, a.commandId, a);
    }
    forall i | 0 <= i < |y.control.commandOutbox| && y.control.commandOutbox[i].deliveryState == Acknowledged
      ensures CompletionHeld(y.supervisor.journal, y.control.commandOutbox[i].command)
    {
      var c := y.control.commandOutbox[i].command;
      var e :| e in x.supervisor.journal.entries && e.Completed? && e.commandId == c.commandId
               && e.commandDigest == CommandDigest(c);
      assert e in y.supervisor.journal.entries;
    }
  }

  lemma StepKeepsInv(w: Wire, x: System, e: Step)
    requires WireLaws(w) && SystemInv(w, x) && CanStep(w, x, e)
    ensures SystemInv(w, Stepped(w, x, e))
    ensures OutboxKept(x.control, Stepped(w, x, e).control)
    ensures x.supervisor.journal.entries <= Stepped(w, x, e).supervisor.journal.entries
    ensures var y := Stepped(w, x, e);
            y.control == x.control || y.control.controlRevision == x.control.controlRevision + 1
  {
    var y := Stepped(w, x, e);
    match e
    case KernelAppend(expected, command, at) =>
      AppendOutboxKeeps(w, x.control, expected, command, at);
      KernelKeepsInv(w, x, y);
    case KernelSend(i) =>
      assert InOutbox(x.control, x.control.commandOutbox[i].command);
    case KernelProject(expected, ack) =>
      ProjectKeeps(w, x.control, expected, ack);
      ProjectKeepsSystem(w, x, expected, ack);
    case KernelOther(next) =>
      KernelKeepsInv(w, x, y);
    case SupervisorStep(event) =>
      NextKeepsInv(w, x.supervisor, event);
      SupervisorKeepsSystem(w, x, event);
    case SupervisorReply(id, ack) =>
      ToldIsStored(w, x.supervisor, id, ack);
      var entry :| entry in x.supervisor.journal.entries && entry.Completed? && entry.commandId == id
        && entry.acknowledgement == ack;
      var k :| 0 <= k < |x.supervisor.journal.entries| && x.supervisor.journal.entries[k] == entry;
      assert EntryOk(w, x.supervisor.journal.entries, k);
  }

  // ------------------------------------------------------------------ runs

  ghost predicate SystemRun(w: Wire, x: System, steps: seq<Step>)
    decreases |steps|
  {
    steps == [] || (CanStep(w, x, steps[0]) && SystemRun(w, Stepped(w, x, steps[0]), steps[1..]))
  }

  ghost function SystemAfter(w: Wire, x: System, steps: seq<Step>): System
    requires SystemRun(w, x, steps)
    decreases |steps|
  {
    if steps == [] then x else SystemAfter(w, Stepped(w, x, steps[0]), steps[1..])
  }

  lemma {:induction false} SystemRunKeepsInv(w: Wire, x: System, steps: seq<Step>)
    requires WireLaws(w) && SystemInv(w, x) && SystemRun(w, x, steps)
    ensures SystemInv(w, SystemAfter(w, x, steps))
    ensures OutboxKept(x.control, SystemAfter(w, x, steps).control)
    ensures x.supervisor.journal.entries <= SystemAfter(w, x, steps).supervisor.journal.entries
    ensures x.control.controlRevision <= SystemAfter(w, x, steps).control.controlRevision <= x.control.controlRevision
            + |steps|
    decreases |steps|
  {
    if steps == [] {
    } else {
      StepKeepsInv(w, x, steps[0]);
      SystemRunKeepsInv(w, Stepped(w, x, steps[0]), steps[1..]);
    }
  }

  /** The double compare-and-swap theorem.  In every run from two absent files, at every
      later time: an acknowledged record's command is completed in the journal, with the
      digest of that very command; acknowledged and dead records stay what they are;
      command ids are unique; the revision only rises. */
  lemma DoubleCasSafety(w: Wire, before: seq<Step>, after: seq<Step>, i: nat)
    requires WireLaws(w)
    requires SystemRun(w, START, before) && SystemRun(w, SystemAfter(w, START, before), after)
    requires i < |SystemAfter(w, START, before).control.commandOutbox|
    ensures var x := SystemAfter(w, START, before);
            var y := SystemAfter(w, x, after);
            && UniqueIds(y.control.commandOutbox)
            && x.control.controlRevision <= y.control.controlRevision
            && i < |y.control.commandOutbox|
            && y.control.commandOutbox[i].command == x.control.commandOutbox[i].command
            && (Terminal(x.control.commandOutbox[i].deliveryState) ==>
                  y.control.commandOutbox[i].deliveryState == x.control.commandOutbox[i].deliveryState)
            && (y.control.commandOutbox[i].deliveryState == Acknowledged ==>
                  CompletionHeld(y.supervisor.journal, x.control.commandOutbox[i].command))
  {
    assert SystemInv(w, START);
    SystemRunKeepsInv(w, START, before);
    SystemRunKeepsInv(w, SystemAfter(w, START, before), after);
  }
}
