/** Entities shared by the control plane and the fence executor.

    A digest is modelled by a free constructor over its preimage: it is injective
    and nothing else about it is known.  The wire validators of other files are
    parameters, collected in `Wire`; `WireLaws` lists all that is used of them. */
module ExecutionTypes {
  import opened Basics

  datatype Operation = Prepare | Start | Drain | Stop

  /** The tuple an execution is fenced by. */
  datatype Identity = Identity(
    sandboxId: string,
    versionId: string,
    preparationGeneration: nat,
    executionGeneration: nat)

  /** The adopted package, binding, policy, capability, secret and config pins. */
  datatype Pins = Pins(
    packageDigest: string,
    runtimeBinding: string,
    hostServicePolicyDigest: string,
    capabilityRecordRevision: nat,
    capabilityRecordHash: string,
    secretRevision: nat,
    secretSnapshotRef: string,
    secretValuesDigest: string,
    configRevision: nat,
    configSnapshotRef: Option<string>,
    configValuesDigest: Option<string>)

  datatype Command = Command(
    commandId: string,
    expectedControlRevision: nat,
    expectedJournalRevision: nat,
    operation: Operation,
    identity: Identity,
    applicationId: string,
    fenceNonce: string,
    pins: Pins)

  datatype Verdict = Applied | Rejected

  datatype DrainReceiptDraft = DrainReceiptDraft(
    commandId: string,
    applicationId: string,
    execution: Identity,
    packageDigest: string,
    runtimeBinding: string,
    routeGeneration: nat,
    drainedRequestCount: nat,
    deadlineAt: int,
    forcedKillAt: Option<int>,
    completedAt: int)

  datatype Outcome = Outcome(
    result: Verdict,
    failureCode: Option<string>,
    drainReceiptDraft: Option<DrainReceiptDraft>)

  datatype Digest =
    | CommandDigest(command: Command)
    | DrainReceiptDigest(draft: DrainReceiptDraft, journalRevision: nat)

  datatype Acknowledgement = Acknowledgement(
    commandId: string,
    operation: Operation,
    identity: Identity,
    applicationId: string,
    fenceNonce: string,
    pins: Pins,
    drainReceiptDigest: Option<Digest>,
    result: Verdict,
    failureCode: Option<string>,
    journalRevision: nat)

  /** The validators this model does not look into. */
  datatype Wire = Wire(
    idOk: string -> bool,
    timeOk: string -> bool,
    commandOk: Command -> bool,
    acknowledgementOk: Acknowledgement -> bool,
    drainReceiptOk: (DrainReceiptDraft, nat) -> bool,
    applicationsOk: map<string, string> -> bool)

  /** A valid command has a valid id, a valid acknowledgement a u53 revision, and the
      empty application table is valid. */
  ghost predicate WireLaws(w: Wire) {
    && (forall c: Command :: w.commandOk(c) ==> w.idOk(c.commandId))
    && (forall a: Acknowledgement :: w.acknowledgementOk(a) ==> a.journalRevision <= U53_MAX)
    && w.applicationsOk(map[])
  }

  /** Field-wise echo of a command by an acknowledgement. */
  predicate Correlates(command: Command, ack: Acknowledgement) {
    && ack.commandId == command.commandId
    && ack.operation == command.operation
    && ack.identity == command.identity
    && ack.applicationId == command.applicationId
    && ack.pins == command.pins
    && ack.fenceNonce == command.fenceNonce
  }
}
