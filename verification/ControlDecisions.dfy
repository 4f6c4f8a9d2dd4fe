/** What an outbox append and an acknowledgement projection are answered, case by case. */
module ControlDecisions {
  import opened Basics
  import opened ExecutionTypes
  import opened ControlStore

  ghost predicate InOutbox(f: ControlState, id: string) { exists r :: r in f.commandOutbox && r.commandId == id }

  lemma HoldsIff(f: ControlState, id: string)
    ensures Holds(f.commandOutbox, id) <==> InOutbox(f, id)
  {
    if Holds(f.commandOutbox, id) {
      var i :| 0 <= i < |f.commandOutbox| && f.commandOutbox[i].commandId == id;
      assert f.commandOutbox[i] in f.commandOutbox;
    }
  }

  /** A commit refuses any revision but the current one, and the last; otherwise it hands on the
      mutation's own refusal, or writes the mutated state one revision up if that validates. */
  lemma CommitDecides(w: Wire, f: ControlState, expected: nat, mutate: ControlState -> Mutated)
    requires ValidControl(w, f)
    ensures var (g, r) := CommitSpec(w, f, expected, mutate);
            if expected != f.controlRevision || f.controlRevision == 9007199254740991
            then g == f && r == CasRefused("CONTROL_REVISION_CONFLICT")
            else if mutate(f).OperationFailure? then g == f && r == CasRefused(mutate(f).code)
            else
              var next := ControlState(f.controlRevision + 1, mutate(f).state.applications,
                                       mutate(f).state.commandOutbox);
              if ValidControl(w, next) then g == next && r == CasOk(next) else g == f && r == CasThrew
  {
  }

  /** A valid new command sent at the current revision, below the last, is appended as pending;
      a known id is a duplicate, another revision a conflict, and then nothing is written. */
  lemma AppendDecides(w: Wire, f: ControlState, expected: nat, command: Command, createdAt: string)
    requires WireLaws(w) && ValidControl(w, f) && w.commandOk(command) && w.timeOk(createdAt)
    ensures var (g, r) := AppendOutboxSpec(w, f, expected, command, createdAt);
            if expected != f.controlRevision || f.controlRevision == 9007199254740991
            then g == f && r == CasRefused("CONTROL_REVISION_CONFLICT")
            else if InOutbox(f, command.commandId)
            then g == f && r == CasRefused("EXECUTION_OUTBOX_DUPLICATE_COMMAND")
            else
              && r == CasOk(g)
              && g == ControlState(f.controlRevision + 1, f.applications, f.commandOutbox
                        + [OutboxRecord(command.commandId, command, createdAt, Pending, 0, None)])
  {
    HoldsIff(f, command.commandId);
    if !InOutbox(f, command.commandId) {
      var outbox := f.commandOutbox + [OutboxRecord(command.commandId, command, createdAt, Pending, 0, None)];
      forall i | 0 <= i < |f.commandOutbox| ensures f.commandOutbox[i].commandId != command.commandId {
        assert f.commandOutbox[i] in f.commandOutbox;
      }
      assert UniqueIds(outbox);
    }
  }

  /** An acknowledgement is projected exactly at the current revision, when it is valid, for a
      record of the outbox whose command it correlates with and that is not dead. */
  lemma ProjectDecides(w: Wire, f: ControlState, expected: nat, ack: Acknowledgement)
    requires ValidControl(w, f)
    ensures var (g, r) := ProjectSpec(w, f, expected, ack);
            && (expected != f.controlRevision ==> g == f && r == CasRefused("CONTROL_REVISION_CONFLICT"))
            && (expected == f.controlRevision ==>
                  && (!w.acknowledgementOk(ack) ==> g == f && r == CasRefused("EXECUTION_ACK_PROJECTION_CONFLICT"))
                  && (w.acknowledgementOk(ack) && !InOutbox(f, ack.commandId) ==>
                        g == f && r == CasRefused("EXECUTION_OUTBOX_COMMAND_UNKNOWN")))
  {
    HoldsIff(f, ack.commandId);
    var i := FindRecord(f.commandOutbox, ack.commandId);
    if i < |f.commandOutbox| { assert f.commandOutbox[i] in f.commandOutbox; }
    forall e | e in f.commandOutbox && e.commandId == ack.commandId ensures i < |f.commandOutbox| {
      var k :| 0 <= k < |f.commandOutbox| && f.commandOutbox[k] == e;
    }
  }

  /** The answer for the record an acknowledgement names. */
  lemma ProjectionOfRecord(w: Wire, f: ControlState, k: nat, ack: Acknowledgement)
    requires ValidControl(w, f) && w.acknowledgementOk(ack)
    requires k < |f.commandOutbox| && f.commandOutbox[k].commandId == ack.commandId
    ensures var (g, r) := ProjectSpec(w, f, f.controlRevision, ack);
            var record := f.commandOutbox[k];
            if !Correlates(record.command, ack) || record.deliveryState == Dead
            then g == f && r == CasRefused("EXECUTION_ACK_PROJECTION_CONFLICT")
            else if record.deliveryState == Acknowledged then g == f && r == CasOk(f)
            else if f.controlRevision == 9007199254740991
            then g == f && r == CasRefused("CONTROL_REVISION_CONFLICT")
            else
              && r == CasOk(g)
              && g == ControlState(f.controlRevision + 1, f.applications,
                                   f.commandOutbox[k := record.(deliveryState := Acknowledged)])
  {
    var i := FindRecord(f.commandOutbox, ack.commandId);
    assert i == k;
    var record := f.commandOutbox[k];
    if Correlates(record.command, ack) && !Terminal(record.deliveryState) {
      ProjectSucceeds(w, f, k, ack);
    }
  }
}
