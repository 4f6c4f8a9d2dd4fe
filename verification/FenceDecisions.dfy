/** What each command of the fence executor is answered and what it leaves in the registry,
    told from the records the registry holds and, for a drain, from the facts read outside. */
module FenceDecisions {
  import opened Basics
  import opened ExecutionTypes
  import opened FenceExecutor
  import opened FenceInvariants

  // ------------------------------------------------------------------ what a decision may touch

  /** The tuple's record has the substate; nothing else of it changed but the high-water mark. */
  ghost predicate MovedTo(before: AcceptedRecord, after: AcceptedRecord, substate: Substate) {
    && after.substate == substate
    && after.identity == before.identity && after.pins == before.pins
    && after.epochTimeouts == before.epochTimeouts && after.listenIndex == before.listenIndex
    && after.spawnCommandId == before.spawnCommandId && after.readiness == before.readiness
    && after.instancesHighWater >= before.instancesHighWater
    && (if substate == Running && before.instancesHighWater == 0 then after.instancesHighWater == 1
        else after.instancesHighWater == before.instancesHighWater)
  }

  /** One accepted tuple moved to a substate; its sandbox's pointer shows its record if it was
      the current tuple or ties with it, and no other pointer, tuple or outcome changed. */
  ghost predicate OnlyMoved(r: Registry, t: Registry, i: Identity, substate: Substate) {
    && i in r.accepted && t.accepted.Keys == r.accepted.Keys && t.current.Keys == r.current.Keys
    && MovedTo(r.accepted[i], t.accepted[i], substate)
    && (forall k :: k in r.accepted && k != i ==> t.accepted[k] == r.accepted[k])
    && (forall s :: s in r.current ==>
          t.current[s] == if s == i.sandboxId && (r.current[s].identity == i || TiesWithCurrent(r, i))
                          then t.accepted[i] else r.current[s])
    && t.outcomes == r.outcomes
  }

  /** The command's tuple became accepted and current with a record that starts from zero. */
  ghost predicate OnlyAdopted(r: Registry, t: Registry, c: Command, substate: Substate) {
    var record := AcceptedRecord(c.identity, c.pins, substate, 0, if substate == Running then 1 else 0,
                                 None, None, Unprobed);
    && t.accepted == r.accepted[c.identity := record] && t.current == r.current[c.identity.sandboxId := record]
    && t.outcomes == r.outcomes
  }

  lemma SubstateMoves(r: Registry, i: Identity, substate: Substate)
    requires RegistryInv(r) && i in r.accepted
    ensures OnlyMoved(r, SubstateSpec(r, i, substate), i, substate)
  {
    assert AcceptedIsBounded(r, i);
    forall s | s in r.current && r.current[s].identity == i ensures s == i.sandboxId { assert CurrentIsAccepted(r, s); }
  }

  // ------------------------------------------------------------------ drain

  /** The tuple is accepted with the command's pins and not stopped. */
  predicate Drainable(r: Registry, c: Command) {
    c.identity in r.accepted && r.accepted[c.identity].pins == c.pins && r.accepted[c.identity].substate != Stopped
  }

  /** The ledger holds a record of this very execution, package and binding. */
  predicate RetirementHeld(c: Command, f: DrainFacts) {
    && f.retirement.Some? && f.retirement.value.execution == c.identity
    && f.retirement.value.packageDigest == c.pins.packageDigest
    && f.retirement.value.normalizedBinding == Some(c.pins.runtimeBinding)
  }

  /** The clock's time parses and the counter proves a count of the wire's range. */
  predicate Provable(f: DrainFacts) {
    f.completedAtMillis.Some? && f.drainedRequestCount.Some? && f.drainedRequestCount.value <= 9007199254740991
  }

  /** The receipt names the drained execution and what the ledger, the counter and the clock said. */
  predicate ReceiptTells(d: DrainReceiptDraft, c: Command, f: DrainFacts)
    requires f.retirement.Some? && Provable(f)
  {
    var m := f.retirement.value;
    && d.commandId == c.commandId && d.execution == c.identity && d.packageDigest == c.pins.packageDigest
    && d.applicationId == m.applicationId && d.runtimeBinding == m.runtimeBinding
    && d.routeGeneration == m.routeGeneration && d.deadlineAt == m.deadlineAtEpochMillis
    && d.drainedRequestCount == f.drainedRequestCount.value && d.completedAt == f.completedAtMillis.value
  }

  /** An applied drain: the receipt tells the facts; up to the deadline the tuple retires and
      nothing was killed, past it the tuple is stopped, killed at the completion time. */
  ghost predicate DrainApplied(r: Registry, c: Command, f: DrainFacts, t: Registry, o: Outcome)
    requires f.retirement.Some? && Provable(f)
  {
    var at, deadline := f.completedAtMillis.value, f.retirement.value.deadlineAtEpochMillis;
    && o.result == Applied && o.failureCode == None && o.drainReceiptDraft.Some?
    && ReceiptTells(o.drainReceiptDraft.value, c, f)
    && (o.drainReceiptDraft.value.forcedKillAt == None <==> at <= deadline)
    && (at <= deadline ==> OnlyMoved(r, t, c.identity, Retiring))
    && (at > deadline ==>
          OnlyMoved(r, t, c.identity, Stopped) && o.drainReceiptDraft.value.forcedKillAt == Some(at))
  }

  /** A drain is applied exactly where the tuple can be drained, its retirement is recorded and
      the receipt's facts can be proved. */
  lemma DrainIsApplied(r: Registry, c: Command, f: DrainFacts)
    requires RegistryInv(r) && c.operation == Drain
    ensures var (t, o) := DecideSpec(r, c, f);
            && (o.result == Applied <==> Drainable(r, c) && RetirementHeld(c, f) && Provable(f))
            && (o.result == Applied ==> DrainApplied(r, c, f, t, o))
  {
    if Drainable(r, c) && RetirementHeld(c, f) && Provable(f) {
      SubstateMoves(r, c.identity, if f.completedAtMillis.value <= f.retirement.value.deadlineAtEpochMillis
                                   then Retiring else Stopped);
    }
  }

  /** A rejected drain forms no receipt; a tuple that can be drained retires all the same, any
      other leaves the registry as it was. */
  lemma DrainIsRejected(r: Registry, c: Command, f: DrainFacts)
    requires RegistryInv(r) && c.operation == Drain && !(Drainable(r, c) && RetirementHeld(c, f) && Provable(f))
    ensures var (t, o) := DecideSpec(r, c, f);
            && (if Drainable(r, c) then OnlyMoved(r, t, c.identity, Retiring) else t == r)
            && o == Outcome(Rejected,
                            Some(if Drainable(r, c) && (f.retirement.None? || RetirementHeld(c, f))
                                 then "EXECUTION_DRAIN_RECEIPT_UNAVAILABLE" else "WASM_EXECUTION_FENCE_STALE"),
                            None)
  {
    if Drainable(r, c) { SubstateMoves(r, c.identity, Retiring); }
  }

  // ------------------------------------------------------------------ prepare, start, stop

  ghost predicate Refused(r: Registry, t: Registry, o: Outcome, code: string) {
    t == r && o == Outcome(Rejected, Some(code), None)
  }

  ghost predicate Granted(o: Outcome) { o == Outcome(Applied, None, None) }

  /** Neither generation regresses. */
  predicate NotOlder(current: Identity, i: Identity) {
    i.preparationGeneration >= current.preparationGeneration && i.executionGeneration >= current.executionGeneration
  }

  /** A prepare is applied exactly to a fresh sandbox, to the current tuple with its pins, which
      changes nothing, or to a tuple that regresses in no generation and is not the current pair
      of generations; the tuple is then adopted as prepared. */
  lemma PrepareIsDecided(r: Registry, c: Command, f: DrainFacts)
    requires RegistryInv(r) && c.operation == Prepare
    ensures var (t, o) := DecideSpec(r, c, f);
            var s := c.identity.sandboxId;
            if s !in r.current then OnlyAdopted(r, t, c, Prepared) && Granted(o)
            else
              var current := r.current[s];
              if current.identity == c.identity && current.pins == c.pins then t == r && Granted(o)
              else if NotOlder(current.identity, c.identity) && !NotOlder(c.identity, current.identity)
              then OnlyAdopted(r, t, c, Prepared) && Granted(o)
              else Refused(r, t, o, "WASM_EXECUTION_FENCE_STALE")
  {
  }

  /** A start is applied exactly to a living tuple of a prepared sandbox: the current tuple with
      its pins, which then runs, or another that regresses in no generation, which is adopted. */
  lemma StartIsDecided(r: Registry, c: Command, f: DrainFacts)
    requires RegistryInv(r) && c.operation == Start
    ensures var (t, o) := DecideSpec(r, c, f);
            var s := c.identity.sandboxId;
            if c.identity.preparationGeneration < 1 || c.identity.executionGeneration < 1
            then Refused(r, t, o, "WASM_EXECUTION_FENCE_STALE")
            else if s !in r.current then Refused(r, t, o, "WASM_EXECUTION_NOT_PREPARED")
            else
              var current := r.current[s];
              if current.identity == c.identity && current.pins == c.pins
              then OnlyMoved(r, t, c.identity, Running) && Granted(o)
              else if current.identity != c.identity && NotOlder(current.identity, c.identity)
              then OnlyAdopted(r, t, c, Running) && Granted(o)
              else Refused(r, t, o, "WASM_EXECUTION_FENCE_STALE")
  {
    if c.identity.sandboxId in r.current { assert CurrentIsAccepted(r, c.identity.sandboxId); }
    if c.identity in r.accepted { SubstateMoves(r, c.identity, Running); }
  }

  /** A stop is applied exactly to an accepted tuple with the command's pins, current or not. */
  lemma StopIsDecided(r: Registry, c: Command, f: DrainFacts)
    requires RegistryInv(r) && c.operation == Stop
    ensures var (t, o) := DecideSpec(r, c, f);
            if c.identity in r.accepted && r.accepted[c.identity].pins == c.pins
            then OnlyMoved(r, t, c.identity, Stopped) && Granted(o)
            else Refused(r, t, o, "WASM_EXECUTION_FENCE_STALE")
  {
    if c.identity in r.accepted { SubstateMoves(r, c.identity, Stopped); }
  }

  // ------------------------------------------------------------------ remembered outcomes

  /** A command executed once is answered the same for ever: executing its bytes again, under
      whatever facts and after whatever else was executed, returns the first outcome and
      decides nothing. */
  lemma {:induction false} OutcomeIsRemembered(
    r: Registry, c: Command, f: DrainFacts, others: seq<(Command, DrainFacts)>, g: DrainFacts)
    ensures var (t, o) := ExecuteSpec(r, c, f);
            var u := ExecutedAll(t, others);
            CommandDigest(c) in u.outcomes && ExecuteSpec(u, c, g) == (u, o)
    decreases |others|
  {
    var (t, o) := ExecuteSpec(r, c, f);
    RememberedStays(t, others, CommandDigest(c));
  }

  function ExecutedAll(r: Registry, cs: seq<(Command, DrainFacts)>): Registry
    decreases |cs|
  {
    if cs == [] then r else ExecutedAll(ExecuteSpec(r, cs[0].0, cs[0].1).0, cs[1..])
  }

  lemma DecisionKeepsOutcomes(r: Registry, c: Command, f: DrainFacts)
    ensures DecideSpec(r, c, f).0.outcomes == r.outcomes
  {
  }

  lemma {:induction false} RememberedStays(r: Registry, cs: seq<(Command, DrainFacts)>, d: Digest)
    requires d in r.outcomes
    ensures d in ExecutedAll(r, cs).outcomes && ExecutedAll(r, cs).outcomes[d] == r.outcomes[d]
    decreases |cs|
  {
    if cs != [] {
      DecisionKeepsOutcomes(r, cs[0].0, cs[0].1);
      RememberedStays(ExecuteSpec(r, cs[0].0, cs[0].1).0, cs[1..], d);
    }
  }
}
