/** The Kernel's control state file: the controlRevision compare-and-swap and the
    command outbox it carries. */
module ControlStore {
  import opened Basics
  import opened ExecutionTypes

  const CONTROL_REVISION_CONFLICT := "CONTROL_REVISION_CONFLICT"
  const EXECUTION_OUTBOX_DUPLICATE_COMMAND := "EXECUTION_OUTBOX_DUPLICATE_COMMAND"
  const EXECUTION_OUTBOX_COMMAND_UNKNOWN := "EXECUTION_OUTBOX_COMMAND_UNKNOWN"
  const EXECUTION_ACK_PROJECTION_CONFLICT := "EXECUTION_ACK_PROJECTION_CONFLICT"

  datatype DeliveryState = Pending | Sent | Acknowledged | Dead

  datatype OutboxRecord = OutboxRecord(
    commandId: string,
    command: Command,
    createdAt: string,
    deliveryState: DeliveryState,
    attempts: nat,
    lastAttemptAt: Option<string>)

  /** `applications` stays uninterpreted: no operation of the store looks into it. */
  datatype ControlState = ControlState(
    controlRevision: nat,
    applications: map<string, string>,
    commandOutbox: seq<OutboxRecord>)

  const EMPTY_CONTROL_STATE := ControlState(0, map[], [])

  predicate RecordOk(w: Wire, r: OutboxRecord) {
    && w.idOk(r.commandId)
    && w.commandOk(r.command)
    && w.timeOk(r.createdAt)
    && r.attempts <= U53_MAX
    && (r.lastAttemptAt.Some? ==> w.timeOk(r.lastAttemptAt.value))
    && r.command.commandId == r.commandId
  }

  ghost predicate UniqueIds(outbox: seq<OutboxRecord>) {
    forall i, k :: 0 <= i < k < |outbox| ==> outbox[i].commandId != outbox[k].commandId
  }

  ghost predicate ValidControl(w: Wire, f: ControlState) {
    && f.controlRevision <= U53_MAX
    && w.applicationsOk(f.applications)
    && (forall i :: 0 <= i < |f.commandOutbox| ==> RecordOk(w, f.commandOutbox[i]))
    && UniqueIds(f.commandOutbox)
  }

  /** The file validator's pass over the outbox. */
  method ValidateControl(w: Wire, f: ControlState) returns (ok: bool)
    ensures ok <==> ValidControl(w, f)
  {
    ok := f.controlRevision <= U53_MAX && w.applicationsOk(f.applications);
    var seen: set<string> := {};
    var i := 0;
    while i < |f.commandOutbox|
      invariant 0 <= i <= |f.commandOutbox|
      invariant ok ==> f.controlRevision <= U53_MAX && w.applicationsOk(f.applications)
      invariant ok ==> forall k :: 0 <= k < i ==> RecordOk(w, f.commandOutbox[k])
      invariant ok ==> UniqueIds(f.commandOutbox[..i])
      invariant ok ==> forall id :: id in seen <==> exists k :: 0 <= k < i && f.commandOutbox[k].commandId == id
      invariant !ok ==> !ValidControl(w, f)
    {
      var entry := f.commandOutbox[i];
      if !RecordOk(w, entry) {
        ok := false;
      } else if entry.commandId in seen {
        ok := false;
      } else {
        seen := seen + {entry.commandId};
      }
      i := i + 1;
    }
    assert f.commandOutbox[..i] == f.commandOutbox;
  }

  /** `{ok: true, state}`, `{ok: false, code}`, or an exception. */
  datatype CasResult = CasOk(state: ControlState) | CasRefused(code: string) | CasThrew

  /** What a mutation answers: the mutated state or an operation failure. */
  datatype Mutated = Mutated(state: ControlState) | OperationFailure(code: string)

  ghost function CommitSpec(w: Wire, f: ControlState, expected: nat,
                            mutate: ControlState -> Mutated): (ControlState, CasResult) {
    if !ValidControl(w, f) then (f, CasThrew)
    else if f.controlRevision != expected || expected + 1 > U53_MAX then (f, CasRefused(CONTROL_REVISION_CONFLICT))
    else match mutate(f)
      case OperationFailure(code) => (f, CasRefused(code))
      case Mutated(m) =>
        var next := m.(controlRevision := expected + 1);
        if ValidControl(w, next) then (next, CasOk(next)) else (f, CasThrew)
  }

  predicate Holds(outbox: seq<OutboxRecord>, id: string) {
    exists i :: 0 <= i < |outbox| && outbox[i].commandId == id
  }

  /** The first record with the id, as an index; |outbox| when there is none. */
  function FindRecord(outbox: seq<OutboxRecord>, id: string): (i: nat)
    ensures i <= |outbox|
    ensures i < |outbox| ==> outbox[i].commandId == id
    ensures forall k :: 0 <= k < i ==> outbox[k].commandId != id
  {
    if outbox == [] || outbox[0].commandId == id then 0 else 1 + FindRecord(outbox[1..], id)
  }

  function AppendMutation(command: Command, createdAt: string, f: ControlState): Mutated {
    if Holds(f.commandOutbox, command.commandId) then OperationFailure(EXECUTION_OUTBOX_DUPLICATE_COMMAND)
    else Mutated(f.(commandOutbox := f.commandOutbox
                    + [OutboxRecord(command.commandId, command, createdAt, Pending, 0, None)]))
  }

  function AcknowledgeAll(outbox: seq<OutboxRecord>, id: string): (r: seq<OutboxRecord>)
    ensures |r| == |outbox|
    ensures forall i :: 0 <= i < |r| ==>
              r[i] == if outbox[i].commandId == id then outbox[i].(deliveryState := Acknowledged) else outbox[i]
  {
    seq(|outbox|, i requires 0 <= i < |outbox| =>
      if outbox[i].commandId == id then outbox[i].(deliveryState := Acknowledged) else outbox[i])
  }

  function AcknowledgeMutation(id: string, f: ControlState): Mutated {
    Mutated(f.(commandOutbox := AcknowledgeAll(f.commandOutbox, id)))
  }

  ghost function AppendOutboxSpec(w: Wire, f: ControlState, expected: nat, command: Command,
                                  createdAt: string): (ControlState, CasResult) {
    if !w.commandOk(command) then (f, CasThrew)
    else CommitSpec(w, f, expected, (c: ControlState) => AppendMutation(command, createdAt, c))
  }

  ghost function ProjectSpec(w: Wire, f: ControlState, expected: nat, ack: Acknowledgement): (ControlState, CasResult) {
    if !ValidControl(w, f) then (f, CasThrew)
    else if f.controlRevision != expected then (f, CasRefused(CONTROL_REVISION_CONFLICT))
    else if !w.acknowledgementOk(ack) then (f, CasRefused(EXECUTION_ACK_PROJECTION_CONFLICT))
    else
      var i := FindRecord(f.commandOutbox, ack.commandId);
      if i == |f.commandOutbox| then (f, CasRefused(EXECUTION_OUTBOX_COMMAND_UNKNOWN))
      else
        var entry := f.commandOutbox[i];
        if !Correlates(entry.command, ack) || entry.deliveryState == Dead
        then (f, CasRefused(EXECUTION_ACK_PROJECTION_CONFLICT))
        else if entry.deliveryState == Acknowledged then (f, CasOk(f))
        else CommitSpec(w, f, expected, (c: ControlState) => AcknowledgeMutation(ack.commandId, c))
  }

  /** The file and its owner; `file` is the value whose canonical bytes are on disk. */
  class WasmControlStateStore {
    const wire: Wire
    var file: Option<ControlState>

    constructor (wire: Wire, file: Option<ControlState>)
      ensures this.wire == wire && this.file == file
    {
      this.wire := wire;
      this.file := file;
    }

    function Contents(): ControlState
      reads this
    {
      if file.None? then EMPTY_CONTROL_STATE else file.value
    }

    method Read() returns (r: Option<ControlState>)
      requires wire.applicationsOk(map[])
      ensures r == if ValidControl(wire, Contents()) then Some(Contents()) else None
    {
      if file.None? {
        return Some(EMPTY_CONTROL_STATE);
      }
      var ok := ValidateControl(wire, file.value);
      r := if ok then Some(file.value) else None;
    }

    method Commit(expected: nat, mutate: ControlState -> Mutated) returns (r: CasResult)
      requires wire.applicationsOk(map[])
      modifies this
      ensures (Contents(), r) == CommitSpec(wire, old(Contents()), expected, mutate)
    {
      var current := Read();
      if current.None? {
        return CasThrew;
      }
      if current.value.controlRevision != expected {
        return CasRefused(CONTROL_REVISION_CONFLICT);
      }
      if expected > U53_MAX || expected + 1 > U53_MAX {
        return CasRefused(CONTROL_REVISION_CONFLICT);
      }
      var mutated := mutate(current.value);
      if mutated.OperationFailure? {
        return CasRefused(mutated.code);
      }
      var next := mutated.state.(controlRevision := expected + 1);
      var ok := ValidateControl(wire, next);
      if !ok {
        return CasThrew;
      }
      file := Some(next);
      r := CasOk(next);
    }

    method AppendOutboxCommand(expected: nat, command: Command, createdAt: string) returns (r: CasResult)
      requires wire.applicationsOk(map[])
      modifies this
      ensures (Contents(), r) == AppendOutboxSpec(wire, old(Contents()), expected, command, createdAt)
    {
      if !wire.commandOk(command) {
        return CasThrew;
      }
      r := Commit(expected, (c: ControlState) => AppendMutation(command, createdAt, c));
    }

    method ProjectAcknowledgement(expected: nat, ack: Acknowledgement) returns (r: CasResult)
      requires wire.applicationsOk(map[])
      modifies this
      ensures (Contents(), r) == ProjectSpec(wire, old(Contents()), expected, ack)
    {
      var read := Read();
      if read.None? {
        return CasThrew;
      }
      var current := read.value;
      if current.controlRevision != expected {
        return CasRefused(CONTROL_REVISION_CONFLICT);
      }
      if !wire.acknowledgementOk(ack) {
        return CasRefused(EXECUTION_ACK_PROJECTION_CONFLICT);
      }
      var i := FindRecord(current.commandOutbox, ack.commandId);
      if i == |current.commandOutbox| {
        return CasRefused(EXECUTION_OUTBOX_COMMAND_UNKNOWN);
      }
      var entry := current.commandOutbox[i];
      if !Correlates(entry.command, ack) {
        return CasRefused(EXECUTION_ACK_PROJECTION_CONFLICT);
      }
      if entry.deliveryState == Dead {
        return CasRefused(EXECUTION_ACK_PROJECTION_CONFLICT);
      }
      if entry.deliveryState == Acknowledged {
        return CasOk(current);
      }
      r := Commit(expected, (c: ControlState) => AcknowledgeMutation(ack.commandId, c));
    }
  }

  // ------------------------------------------------------------------ what the operations keep

  predicate Terminal(d: DeliveryState) { d == Acknowledged || d == Dead }

  /** Records keep their place, id and command, and stay acknowledged or dead. */
  ghost predicate OutboxKept(f: ControlState, g: ControlState) {
    && |f.commandOutbox| <= |g.commandOutbox|
    && forall i :: 0 <= i < |f.commandOutbox| ==>
         && g.commandOutbox[i].commandId == f.commandOutbox[i].commandId
         && g.commandOutbox[i].command == f.commandOutbox[i].command
         && (Terminal(f.commandOutbox[i].deliveryState)
             ==> g.commandOutbox[i].deliveryState == f.commandOutbox[i].deliveryState)
  }

  /** One counter, one writer: either nothing is written or the revision rises by one. */
  ghost predicate CasDiscipline(w: Wire, f: ControlState, g: ControlState, r: CasResult) {
    && ValidControl(w, g)
    && OutboxKept(f, g)
    && (g == f || (g.controlRevision == f.controlRevision + 1 && r == CasOk(g)))
    && (!r.CasOk? ==> g == f)
  }

  lemma AppendOutboxKeeps(w: Wire, f: ControlState, expected: nat, command: Command, createdAt: string)
    requires ValidControl(w, f)
    ensures var (g, r) := AppendOutboxSpec(w, f, expected, command, createdAt);
            && CasDiscipline(w, f, g, r)
            && (r.CasOk? ==>
                  && expected == f.controlRevision && !Holds(f.commandOutbox, command.commandId)
                  && g.commandOutbox == f.commandOutbox
                     + [OutboxRecord(command.commandId, command, createdAt, Pending, 0, None)])
            && (Holds(f.commandOutbox, command.commandId) ==> !r.CasOk? && g == f)
  {
  }

  /** Projection flips exactly the correlated record, never a dead one; projecting an
      acknowledged one again answers ok and writes nothing. */
  lemma ProjectKeeps(w: Wire, f: ControlState, expected: nat, ack: Acknowledgement)
    requires ValidControl(w, f)
    ensures var (g, r) := ProjectSpec(w, f, expected, ack);
            && CasDiscipline(w, f, g, r)
            && |g.commandOutbox| == |f.commandOutbox|
            && (forall i :: 0 <= i < |f.commandOutbox| && f.commandOutbox[i] != g.commandOutbox[i] ==>
                  && g.commandOutbox[i] == f.commandOutbox[i].(deliveryState := Acknowledged)
                  && Correlates(f.commandOutbox[i].command, ack) && w.acknowledgementOk(ack)
                  && !Terminal(f.commandOutbox[i].deliveryState))
  {
    var (g, r) := ProjectSpec(w, f, expected, ack);
    if g != f {
      var i := FindRecord(f.commandOutbox, ack.commandId);
      assert g.commandOutbox == AcknowledgeAll(f.commandOutbox, ack.commandId);
      forall k | 0 <= k < |f.commandOutbox| && k != i ensures g.commandOutbox[k] == f.commandOutbox[k] {
        assert f.commandOutbox[k].commandId != f.commandOutbox[i].commandId;
      }
    }
  }

  /** Projecting a valid acknowledgement of a live record at the right revision acknowledges
      it, exactly when the revision can still rise. */
  lemma ProjectSucceeds(w: Wire, f: ControlState, i: nat, ack: Acknowledgement)
    requires ValidControl(w, f) && i < |f.commandOutbox|
    requires Correlates(f.commandOutbox[i].command, ack) && w.acknowledgementOk(ack)
    requires !Terminal(f.commandOutbox[i].deliveryState)
    ensures var (g, r) := ProjectSpec(w, f, f.controlRevision, ack);
            r.CasOk? <==> f.controlRevision < U53_MAX
    ensures var (g, r) := ProjectSpec(w, f, f.controlRevision, ack);
            r.CasOk? ==> g.commandOutbox == f.commandOutbox[i := f.commandOutbox[i].(deliveryState := Acknowledged)]
  {
    var k := FindRecord(f.commandOutbox, ack.commandId);
    assert f.commandOutbox[i].commandId == ack.commandId;
    assert k == i;
    var next := f.(commandOutbox := AcknowledgeAll(f.commandOutbox, ack.commandId),
                   controlRevision := f.controlRevision + 1);
    forall m | 0 <= m < |f.commandOutbox| && m != i ensures next.commandOutbox[m] == f.commandOutbox[m] {
      assert f.commandOutbox[m].commandId != f.commandOutbox[i].commandId;
    }
    assert next.commandOutbox == f.commandOutbox[i := f.commandOutbox[i].(deliveryState := Acknowledged)];
    forall m | 0 <= m < |f.commandOutbox| ensures RecordOk(w, next.commandOutbox[m]) {
      assert RecordOk(w, f.commandOutbox[m]);
    }
  }
}
