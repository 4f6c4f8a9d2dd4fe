/** The fence executor: the registry of accepted executions, the pure decision per
    command, and the rebuild of both from the journal. */
module FenceExecutor {
  import opened Basics
  import opened ExecutionTypes
  import opened ExecutionJournal

  const WASM_EXECUTION_FENCE_STALE := "WASM_EXECUTION_FENCE_STALE"
  const WASM_EXECUTION_NOT_PREPARED := "WASM_EXECUTION_NOT_PREPARED"
  const EXECUTION_DRAIN_RECEIPT_UNAVAILABLE := "EXECUTION_DRAIN_RECEIPT_UNAVAILABLE"

  datatype Substate = Prepared | Running | Retiring | Stopped

  datatype Readiness = Unprobed | Adopted | Mismatch | StaleSignal | NotReady

  datatype AcceptedRecord = AcceptedRecord(
    identity: Identity,
    pins: Pins,
    substate: Substate,
    epochTimeouts: nat,
    instancesHighWater: nat,
    listenIndex: Option<nat>,
    spawnCommandId: Option<string>,
    readiness: Readiness)

  /** The registry's three maps.  The composite text key of the accepted map is
      modelled by the identity it spells. */
  datatype Registry = Registry(
    current: map<string, AcceptedRecord>,
    accepted: map<Identity, AcceptedRecord>,
    outcomes: map<Digest, Outcome>)

  const EMPTY_REGISTRY := Registry(map[], map[], map[])

  // ------------------------------------------------------------------ registry operations

  function FreshRecord(c: Command, substate: Substate): AcceptedRecord {
    AcceptedRecord(c.identity, c.pins, substate, 0, if substate == Running then 1 else 0, None, None, Unprobed)
  }

  function AdoptSpec(r: Registry, c: Command, substate: Substate): Registry {
    var record := FreshRecord(c, substate);
    r.(current := r.current[c.identity.sandboxId := record], accepted := r.accepted[c.identity := record])
  }

  /** Replace an accepted record; the pointer follows unless it has a larger E. */
  function AmendSpec(r: Registry, i: Identity, next: AcceptedRecord): Registry {
    var s := i.sandboxId;
    r.(accepted := r.accepted[i := next],
       current := if s in r.current && r.current[s].identity.executionGeneration <= i.executionGeneration
                  then r.current[s := next] else r.current)
  }

  function WithSubstate(a: AcceptedRecord, substate: Substate): AcceptedRecord {
    a.(substate := substate,
       instancesHighWater := if substate == Running && a.instancesHighWater < 1 then 1 else a.instancesHighWater)
  }

  function SubstateSpec(r: Registry, i: Identity, substate: Substate): Registry {
    if i in r.accepted then AmendSpec(r, i, WithSubstate(r.accepted[i], substate)) else r
  }

  function SpawnSpec(r: Registry, i: Identity, commandId: Option<string>, listenIndex: nat): Registry {
    if i in r.accepted
    then AmendSpec(r, i, r.accepted[i].(spawnCommandId := commandId, listenIndex := Some(listenIndex)))
    else r
  }

  function ReadinessSpec(r: Registry, i: Identity, readiness: Readiness): Registry {
    if i in r.accepted then AmendSpec(r, i, r.accepted[i].(readiness := readiness)) else r
  }

  function EpochTimeoutSpec(r: Registry, i: Identity): Registry {
    if i in r.accepted then AmendSpec(r, i, r.accepted[i].(epochTimeouts := r.accepted[i].epochTimeouts + 1)) else r
  }

  class WasmExecutionFenceRegistry {
    var currentBySandbox: map<string, AcceptedRecord>
    var acceptedByIdentity: map<Identity, AcceptedRecord>
    var appliedOutcomes: map<Digest, Outcome>

    constructor ()
      ensures State() == EMPTY_REGISTRY
    {
      currentBySandbox, acceptedByIdentity, appliedOutcomes := map[], map[], map[];
    }

    function State(): Registry
      reads this
    {
      Registry(currentBySandbox, acceptedByIdentity, appliedOutcomes)
    }

    method RecordAppliedOutcome(digest: Digest, outcome: Outcome)
      modifies this`appliedOutcomes
      ensures State() == old(State()).(outcomes := old(State()).outcomes[digest := outcome])
    {
      appliedOutcomes := appliedOutcomes[digest := outcome];
    }

    method Adopt(command: Command, substate: Substate)
      modifies this`currentBySandbox, this`acceptedByIdentity
      ensures State() == AdoptSpec(old(State()), command, substate)
    {
      var record := AcceptedRecord(command.identity, command.pins, substate, 0,
                                   if substate == Running then 1 else 0, None, None, Unprobed);
      currentBySandbox := currentBySandbox[command.identity.sandboxId := record];
      acceptedByIdentity := acceptedByIdentity[command.identity := record];
    }

    method SyncCurrentIfNotNewer(identity: Identity, next: AcceptedRecord)
      modifies this`currentBySandbox
      ensures currentBySandbox ==
              AmendSpec(old(State()), identity, next).current
    {
      if identity.sandboxId in currentBySandbox {
        var current := currentBySandbox[identity.sandboxId];
        if current.identity.executionGeneration <= identity.executionGeneration {
          currentBySandbox := currentBySandbox[identity.sandboxId := next];
        }
      }
    }

    method AnnotateSpawn(identity: Identity, spawnCommandId: Option<string>, listenIndex: nat)
      modifies this`currentBySandbox, this`acceptedByIdentity
      ensures State() == SpawnSpec(old(State()), identity, spawnCommandId, listenIndex)
    {
      if identity in acceptedByIdentity {
        var next := acceptedByIdentity[identity].(spawnCommandId := spawnCommandId, listenIndex := Some(listenIndex));
        acceptedByIdentity := acceptedByIdentity[identity := next];
        SyncCurrentIfNotNewer(identity, next);
      }
    }

    method AnnotateReadiness(identity: Identity, readiness: Readiness)
      modifies this`currentBySandbox, this`acceptedByIdentity
      ensures State() == ReadinessSpec(old(State()), identity, readiness)
    {
      if identity in acceptedByIdentity {
        var next := acceptedByIdentity[identity].(readiness := readiness);
        acceptedByIdentity := acceptedByIdentity[identity := next];
        SyncCurrentIfNotNewer(identity, next);
      }
    }

    method UpdateSubstate(identity: Identity, substate: Substate)
      modifies this`currentBySandbox, this`acceptedByIdentity
      ensures State() == SubstateSpec(old(State()), identity, substate)
    {
      if identity in acceptedByIdentity {
        var record := acceptedByIdentity[identity];
        var next := record.(
          substate := substate,
          instancesHighWater := if substate == Running && record.instancesHighWater < 1 then 1
            else record.instancesHighWater);
        acceptedByIdentity := acceptedByIdentity[identity := next];
        SyncCurrentIfNotNewer(identity, next);
      }
    }

    method NoteEngineEpochTimeout(identity: Identity)
      modifies this`currentBySandbox, this`acceptedByIdentity
      ensures State() == EpochTimeoutSpec(old(State()), identity)
    {
      if identity in acceptedByIdentity {
        var next := acceptedByIdentity[identity].(epochTimeouts := acceptedByIdentity[identity].epochTimeouts + 1);
        acceptedByIdentity := acceptedByIdentity[identity := next];
        SyncCurrentIfNotNewer(identity, next);
      }
    }
  }

  // ------------------------------------------------------------------ the decision

  /** The Kernel's record of a retiring execution; `normalizedBinding` is None where the
      recorded binding has no single-version form. */
  datatype RetirementRecord = RetirementRecord(
    applicationId: string,
    execution: Identity,
    packageDigest: string,
    runtimeBinding: string,
    normalizedBinding: Option<string>,
    routeGeneration: nat,
    deadlineAtEpochMillis: nat)

  /** What a drain reads from outside: the ledger, the clock and the request counter;
      None is an unparsable time or an unprovable count. */
  datatype DrainFacts = DrainFacts(
    retirement: Option<RetirementRecord>,
    completedAtMillis: Option<int>,
    drainedRequestCount: Option<nat>)

  function Stale(code: string): Outcome { Outcome(Rejected, Some(code), None) }

  function AppliedOutcome(): Outcome { Outcome(Applied, None, None) }

  predicate MatchesRetirementFence(m: RetirementRecord, c: Command) {
    m.execution == c.identity && m.packageDigest == c.pins.packageDigest
    && m.normalizedBinding == Some(c.pins.runtimeBinding)
  }

  predicate IsAlive(i: Identity) { i.preparationGeneration >= 1 && i.executionGeneration >= 1 }

  predicate NoRegression(current: Identity, next: Identity) {
    next.preparationGeneration >= current.preparationGeneration
      && next.executionGeneration >= current.executionGeneration
  }

  predicate HigherGeneration(current: Identity, next: Identity) {
    next.preparationGeneration > current.preparationGeneration || next.executionGeneration > current.executionGeneration
  }

  function DrainDraft(c: Command, m: RetirementRecord, count: nat, completedAt: int,
                      forcedKillAt: Option<int>): DrainReceiptDraft {
    DrainReceiptDraft(c.commandId, m.applicationId, c.identity, c.pins.packageDigest, m.runtimeBinding,
                      m.routeGeneration, count, m.deadlineAtEpochMillis, forcedKillAt, completedAt)
  }

  function DecideDrain(r: Registry, c: Command, f: DrainFacts): (Registry, Outcome) {
    if c.identity !in r.accepted || r.accepted[c.identity].pins != c.pins || r.accepted[c.identity].substate == Stopped
    then (r, Stale(WASM_EXECUTION_FENCE_STALE))
    else if f.retirement.None?
    then (SubstateSpec(r, c.identity, Retiring), Stale(EXECUTION_DRAIN_RECEIPT_UNAVAILABLE))
    else if !MatchesRetirementFence(f.retirement.value, c)
    then (SubstateSpec(r, c.identity, Retiring), Stale(WASM_EXECUTION_FENCE_STALE))
    else if f.completedAtMillis.None? || f.drainedRequestCount.None? || f.drainedRequestCount.value > U53_MAX
    then (SubstateSpec(r, c.identity, Retiring), Stale(EXECUTION_DRAIN_RECEIPT_UNAVAILABLE))
    else
      var (at, count, m) := (f.completedAtMillis.value, f.drainedRequestCount.value, f.retirement.value);
      if at <= m.deadlineAtEpochMillis
      then (SubstateSpec(r, c.identity, Retiring), Outcome(Applied, None, Some(DrainDraft(c, m, count, at, None))))
      else (SubstateSpec(r, c.identity, Stopped), Outcome(Applied, None, Some(DrainDraft(c, m, count, at, Some(at)))))
  }

  function DecideSpec(r: Registry, c: Command, f: DrainFacts): (Registry, Outcome) {
    var s := c.identity.sandboxId;
    match c.operation
    case Prepare =>
      if s !in r.current then (AdoptSpec(r, c, Prepared), AppliedOutcome())
      else if r.current[s].identity == c.identity && r.current[s].pins == c.pins then (r, AppliedOutcome())
      else if !NoRegression(r.current[s].identity, c.identity) || !HigherGeneration(r.current[s].identity, c.identity)
      then (r, Stale(WASM_EXECUTION_FENCE_STALE))
      else (AdoptSpec(r, c, Prepared), AppliedOutcome())
    case Start =>
      if !IsAlive(c.identity) then (r, Stale(WASM_EXECUTION_FENCE_STALE))
      else if s !in r.current then (r, Stale(WASM_EXECUTION_NOT_PREPARED))
      else if r.current[s].identity == c.identity then
        if r.current[s].pins != c.pins || c.identity !in r.accepted then (r, Stale(WASM_EXECUTION_FENCE_STALE))
        else (SubstateSpec(r, c.identity, Running), AppliedOutcome())
      else if !NoRegression(r.current[s].identity, c.identity) then (r, Stale(WASM_EXECUTION_FENCE_STALE))
      else (AdoptSpec(r, c, Running), AppliedOutcome())
    case Drain => DecideDrain(r, c, f)
    case Stop =>
      if c.identity !in r.accepted || r.accepted[c.identity].pins != c.pins
      then (r, Stale(WASM_EXECUTION_FENCE_STALE))
      else (SubstateSpec(r, c.identity, Stopped), AppliedOutcome())
  }

  // ------------------------------------------------------------------ the rebuild

  /** One journal entry replayed: a reception re-decides, and an applied start restores
      the spawn annotation; a completion restores the remembered outcome. */
  function ReplaySpec(r: Registry, e: Entry, f: DrainFacts, listenIndexOf: string -> nat): Registry {
    match e
    case Received(id, _, command, _, _, _) =>
      var (next, outcome) := DecideSpec(r, command, f);
      if outcome.result == Applied && command.operation == Start
      then SpawnSpec(next, command.identity, Some(id), listenIndexOf(command.identity.sandboxId))
      else next
    case Completed(_, digest, ack, _, _, _) =>
      r.(outcomes := r.outcomes[digest := Outcome(ack.result, ack.failureCode, None)])
  }

  function RebuildSpec(entries: seq<Entry>, facts: nat -> DrainFacts, listenIndexOf: string -> nat): Registry {
    if entries == [] then EMPTY_REGISTRY
    else
      var last := |entries| - 1;
      ReplaySpec(RebuildSpec(entries[..last], facts, listenIndexOf), entries[last], facts(last), listenIndexOf)
  }

  /** `execute` without a runtime: a remembered outcome is returned, a new one is decided
      and then remembered. */
  function ExecuteSpec(r: Registry, c: Command, f: DrainFacts): (Registry, Outcome) {
    var digest := CommandDigest(c);
    if digest in r.outcomes then (r, r.outcomes[digest])
    else
      var (next, outcome) := DecideSpec(r, c, f);
      (next.(outcomes := next.outcomes[digest := outcome]), outcome)
  }

  class WasmSupervisorExecutor {
    const fence: WasmExecutionFenceRegistry

    constructor (entries: seq<Entry>, facts: nat -> DrainFacts, listenIndexOf: string -> nat)
      ensures fresh(fence)
      ensures fence.State() == RebuildSpec(entries, facts, listenIndexOf)
    {
      fence := new WasmExecutionFenceRegistry();
      new;
      var i := 0;
      while i < |entries|
        invariant 0 <= i <= |entries|
        invariant fresh(fence)
        invariant fence.State() == RebuildSpec(entries[..i], facts, listenIndexOf)
      {
        assert entries[..i + 1][..i] == entries[..i];
        match entries[i] {
          case Received(id, _, command, _, _, _) =>
            var replayed := Decide(command, facts(i));
            if replayed.result == Applied && command.operation == Start {
              fence.AnnotateSpawn(command.identity, Some(id), listenIndexOf(command.identity.sandboxId));
            }
          case Completed(_, digest, ack, _, _, _) =>
            fence.RecordAppliedOutcome(digest, Outcome(ack.result, ack.failureCode, None));
        }
        i := i + 1;
      }
      assert entries[..i] == entries;
    }

    method DrainPreflight(command: Command, retirement: Option<RetirementRecord>) returns (failed: Option<Outcome>)
      modifies fence
      ensures failed.Some? <==> (command.identity !in old(fence.State()).accepted
                                 || old(fence.State()).accepted[command.identity].pins != command.pins
                                 || old(fence.State()).accepted[command.identity].substate == Stopped
                                 || retirement.None? || !MatchesRetirementFence(retirement.value, command))
      ensures failed.Some? ==>
                (fence.State(), failed.value) ==
                DecideDrain(old(fence.State()), command, DrainFacts(retirement, None, None))
      ensures failed.None? ==> fence.State() == old(fence.State())
    {
      if command.identity !in fence.acceptedByIdentity {
        return Some(Stale(WASM_EXECUTION_FENCE_STALE));
      }
      var target := fence.acceptedByIdentity[command.identity];
      if target.pins != command.pins {
        return Some(Stale(WASM_EXECUTION_FENCE_STALE));
      }
      if target.substate == Stopped {
        return Some(Stale(WASM_EXECUTION_FENCE_STALE));
      }
      if retirement.None? {
        fence.UpdateSubstate(command.identity, Retiring);
        return Some(Stale(EXECUTION_DRAIN_RECEIPT_UNAVAILABLE));
      }
      if !MatchesRetirementFence(retirement.value, command) {
        fence.UpdateSubstate(command.identity, Retiring);
        return Some(Stale(WASM_EXECUTION_FENCE_STALE));
      }
      failed := None;
    }

    method Decide(command: Command, facts: DrainFacts) returns (outcome: Outcome)
      modifies fence
      ensures (fence.State(), outcome) == DecideSpec(old(fence.State()), command, facts)
    {
      var sandbox := command.identity.sandboxId;
      match command.operation {
        case Prepare =>
          if sandbox in fence.currentBySandbox {
            var current := fence.currentBySandbox[sandbox];
            if current.identity == command.identity && current.pins == command.pins {
              return AppliedOutcome();
            }
            if !NoRegression(current.identity, command.identity)
               || !HigherGeneration(current.identity, command.identity) {
              return Stale(WASM_EXECUTION_FENCE_STALE);
            }
          }
          fence.Adopt(command, Prepared);
          return AppliedOutcome();
        case Start =>
          if !IsAlive(command.identity) {
            return Stale(WASM_EXECUTION_FENCE_STALE);
          }
          if sandbox !in fence.currentBySandbox {
            return Stale(WASM_EXECUTION_NOT_PREPARED);
          }
          var current := fence.currentBySandbox[sandbox];
          if current.identity == command.identity {
            if current.pins != command.pins {
              return Stale(WASM_EXECUTION_FENCE_STALE);
            }
          } else {
            if !NoRegression(current.identity, command.identity) {
              return Stale(WASM_EXECUTION_FENCE_STALE);
            }
            fence.Adopt(command, Running);
            return AppliedOutcome();
          }
          if command.identity !in fence.acceptedByIdentity {
            return Stale(WASM_EXECUTION_FENCE_STALE);
          }
          fence.UpdateSubstate(command.identity, Running);
          return AppliedOutcome();
        case Drain =>
          var failed := DrainPreflight(command, facts.retirement);
          if failed.Some? {
            return failed.value;
          }
          var retirement := facts.retirement.value;
          if facts.completedAtMillis.None? || facts.drainedRequestCount.None?
             || facts.drainedRequestCount.value > U53_MAX {
            fence.UpdateSubstate(command.identity, Retiring);
            return Stale(EXECUTION_DRAIN_RECEIPT_UNAVAILABLE);
          }
          var completedAt := facts.completedAtMillis.value;
          if completedAt <= retirement.deadlineAtEpochMillis {
            fence.UpdateSubstate(command.identity, Retiring);
            return Outcome(Applied, None,
                           Some(DrainDraft(command, retirement, facts.drainedRequestCount.value, completedAt, None)));
          }
          fence.UpdateSubstate(command.identity, Stopped);
          return Outcome(Applied, None,
                         Some(DrainDraft(command, retirement, facts.drainedRequestCount.value, completedAt,
                                         Some(completedAt))));
        case Stop =>
          if command.identity !in fence.acceptedByIdentity {
            return Stale(WASM_EXECUTION_FENCE_STALE);
          }
          if fence.acceptedByIdentity[command.identity].pins != command.pins {
            return Stale(WASM_EXECUTION_FENCE_STALE);
          }
          fence.UpdateSubstate(command.identity, Stopped);
          return AppliedOutcome();
      }
    }

    method Execute(command: Command, facts: DrainFacts) returns (outcome: Outcome)
      modifies fence
      ensures (fence.State(), outcome) == ExecuteSpec(old(fence.State()), command, facts)
    {
      var digest := CommandDigest(command);
      if digest in fence.appliedOutcomes {
        return fence.appliedOutcomes[digest];
      }
      outcome := Decide(command, facts);
      fence.RecordAppliedOutcome(digest, outcome);
    }
  }
}
