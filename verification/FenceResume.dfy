/** Resuming a received command after a crash: exactly when the answer is the first one. */
module FenceResume {
  import opened Basics
  import opened ExecutionTypes
  import opened ExecutionJournal
  import opened ExecutionRpc
  import opened ExecutionRuns
  import opened FenceExecutor
  import opened FenceInvariants
  import opened FenceLive
  import opened FenceRecovery

  // ------------------------------------------------------------------ right after the reception

  lemma PreparedAgain(r: Registry, c: Command, f: DrainFacts)
    requires RegistryInv(r) && c.operation == Prepare
    ensures var (once, outcome) := DecideSpec(r, c, f); DecideSpec(once, c, f) == (once, outcome)
  {
  }

  lemma StartedAgain(r: Registry, c: Command, f: DrainFacts)
    requires RegistryInv(r) && c.operation == Start
    ensures var (once, outcome) := DecideSpec(r, c, f); DecideSpec(once, c, f) == (once, outcome)
  {
    var (once, outcome) := DecideSpec(r, c, f);
    if c.identity.sandboxId in r.current { assert CurrentIsAccepted(r, c.identity.sandboxId); }
    assert once.current == DecideSpec(once, c, f).0.current;
    assert once.accepted == DecideSpec(once, c, f).0.accepted;
  }

  lemma StoppedAgain(r: Registry, c: Command, f: DrainFacts)
    requires RegistryInv(r) && c.operation == Stop
    ensures var (once, outcome) := DecideSpec(r, c, f); DecideSpec(once, c, f) == (once, outcome)
  {
    var (once, outcome) := DecideSpec(r, c, f);
    if c.identity.sandboxId in r.current { assert CurrentIsAccepted(r, c.identity.sandboxId); }
    assert once.current == DecideSpec(once, c, f).0.current;
    assert once.accepted == DecideSpec(once, c, f).0.accepted;
  }

  /** Deciding the newest reception once more, as a resume right after a rebuild does,
      answers the same and changes nothing. */
  lemma DecidingAgainAtHead(r: Registry, c: Command, f: DrainFacts)
    requires RegistryInv(r) && c.operation != Drain
    ensures var (once, outcome) := DecideSpec(r, c, f);
            DecideSpec(once, c, f) == (once, outcome)
  {
    match c.operation
    case Prepare => PreparedAgain(r, c, f);
    case Start => StartedAgain(r, c, f);
    case Stop => StoppedAgain(r, c, f);
    case Drain =>
  }

  // ------------------------------------------------------------------ what later entries leave standing

  /** Sandboxes keep a pointer of no smaller E, accepted tuples stay accepted. */
  ghost predicate Grows(a: Registry, b: Registry) {
    && (forall s :: s in a.current ==>
          s in b.current && a.current[s].identity.executionGeneration <= b.current[s].identity.executionGeneration)
    && (forall i :: i in a.accepted ==> i in b.accepted)
  }

  lemma EventGrows(r: Registry, e: FenceEvent)
    requires RegistryInv(r)
    ensures RegistryInv(FenceNext(r, e)) && Grows(r, FenceNext(r, e))
  {
    FenceNextKeepsInv(r, e);
    FenceNextShape(r, e);
  }

  lemma ReplayGrows(r: Registry, e: Entry, f: DrainFacts, listenIndexOf: string -> nat)
    requires RegistryInv(r)
    ensures RegistryInv(ReplaySpec(r, e, f, listenIndexOf)) && Grows(r, ReplaySpec(r, e, f, listenIndexOf))
  {
    if e.Received? {
      EventGrows(r, Decided(e.command, f));
      EventGrows(DecideSpec(r, e.command, f).0,
                 SpawnAnnotated(e.command.identity, Some(e.commandId), listenIndexOf(e.command.identity.sandboxId)));
    } else {
      var t := ReplaySpec(r, e, f, listenIndexOf);
      forall s | s in t.current ensures CurrentIsAccepted(t, s) { assert CurrentIsAccepted(r, s); }
      forall i | i in t.accepted ensures AcceptedIsBounded(t, i) { assert AcceptedIsBounded(r, i); }
    }
  }

  lemma {:induction false} RebuildGrows(entries: seq<Entry>, k: nat, facts: nat -> DrainFacts,
                                        listenIndexOf: string -> nat)
    requires k <= |entries|
    ensures RegistryInv(RebuildSpec(entries, facts, listenIndexOf))
    ensures RegistryInv(RebuildSpec(entries[..k], facts, listenIndexOf))
    ensures Grows(RebuildSpec(entries[..k], facts, listenIndexOf), RebuildSpec(entries, facts, listenIndexOf))
  {
    if entries == [] {
    } else {
      var last := |entries| - 1;
      if k == |entries| {
        assert entries[..k] == entries;
        RebuildGrows(entries[..last], 0, facts, listenIndexOf);
      } else {
        assert entries[..last][..k] == entries[..k];
        RebuildGrows(entries[..last], k, facts, listenIndexOf);
      }
      ReplayGrows(RebuildSpec(entries[..last], facts, listenIndexOf), entries[last], facts(last), listenIndexOf);
    }
  }

  // ------------------------------------------------------------------ the condition

  /** The current record of the sandbox stands in the way of `c`. */
  predicate Blocks(current: AcceptedRecord, c: Command) {
    if current.identity == c.identity then current.pins != c.pins
    else !NoRegression(current.identity, c.identity)
         || (c.operation == Prepare && !HigherGeneration(current.identity, c.identity))
  }

  predicate BlockedIn(r: Registry, c: Command) {
    c.identity.sandboxId in r.current && Blocks(r.current[c.identity.sandboxId], c)
  }

  /** The tuple of `c` is still the current one with its pins, or the pointer fell back on
      a tie to another tuple of the same E: a strictly older preparation for a prepare, one
      no newer for a start. */
  predicate NotOvertaken(current: AcceptedRecord, c: Command) {
    var i := current.identity;
    || (i == c.identity && current.pins == c.pins)
    || (&& i != c.identity
        && i.executionGeneration == c.identity.executionGeneration
        && (i.preparationGeneration < c.identity.preparationGeneration
            || (c.operation == Start && i.preparationGeneration == c.identity.preparationGeneration)))
  }

  predicate HeldIn(r: Registry, c: Command) {
    c.identity in r.accepted && r.accepted[c.identity].pins == c.pins
  }

  /** The condition on the records just before the reception and those of the restart. */
  predicate ResumeAgrees(before: Registry, after: Registry, c: Command) {
    var s := c.identity.sandboxId;
    match c.operation
    case Prepare =>
      s in after.current &&
      (if BlockedIn(before, c) then Blocks(after.current[s], c) else NotOvertaken(after.current[s], c))
    case Start =>
      if !IsAlive(c.identity) then true
      else if s !in before.current then s !in after.current
      else s in after.current &&
           (if BlockedIn(before, c) then Blocks(after.current[s], c) else NotOvertaken(after.current[s], c))
    case Stop => HeldIn(before, c) == HeldIn(after, c)
    case Drain => true
  }

  /** What deciding `c` leaves: a prepare a pointer, an applied prepare or start its tuple. */
  lemma DecidedLeaves(r: Registry, c: Command, f: DrainFacts)
    requires RegistryInv(r) && (c.operation == Prepare || c.operation == Start)
    ensures var (t, outcome) := DecideSpec(r, c, f);
            var s := c.identity.sandboxId;
            && (c.operation == Prepare ==> s in t.current)
            && (outcome.result == Applied ==> s in t.current && t.current[s].identity == c.identity)
  {
    if c.identity.sandboxId in r.current { assert CurrentIsAccepted(r, c.identity.sandboxId); }
  }

  /** The answers of the three decisions. */
  lemma AnswerOf(r: Registry, c: Command, f: DrainFacts)
    requires RegistryInv(r) && c.operation != Drain
    ensures DecideSpec(r, c, f).1 ==
            match c.operation
            case Prepare => if BlockedIn(r, c) then Stale(WASM_EXECUTION_FENCE_STALE) else AppliedOutcome()
            case Start =>
              if !IsAlive(c.identity) then Stale(WASM_EXECUTION_FENCE_STALE)
              else if c.identity.sandboxId !in r.current then Stale(WASM_EXECUTION_NOT_PREPARED)
              else if BlockedIn(r, c) then Stale(WASM_EXECUTION_FENCE_STALE) else AppliedOutcome()
            case Stop => if HeldIn(r, c) then AppliedOutcome() else Stale(WASM_EXECUTION_FENCE_STALE)
            case Drain => DecideSpec(r, c, f).1
  {
    if c.identity.sandboxId in r.current { assert CurrentIsAccepted(r, c.identity.sandboxId); }
  }

  /** Past the E of `c`, a pointer that does not stand in the way has not overtaken it. */
  lemma BlocksOrNotOvertaken(current: AcceptedRecord, c: Command)
    requires c.operation == Prepare || c.operation == Start
    requires current.identity.executionGeneration >= c.identity.executionGeneration
    ensures NotOvertaken(current, c) <==> !Blocks(current, c)
  {
  }

  /** Between a decision and any later registry. */
  lemma AgreesFromGrowth(before: Registry, mid: Registry, after: Registry, c: Command, f: DrainFacts, g: DrainFacts)
    requires RegistryInv(before) && RegistryInv(after) && c.operation != Drain
    requires mid == DecideSpec(before, c, f).0 && Grows(before, after) && Grows(mid, after)
    ensures DecideSpec(after, c, g).1 == DecideSpec(before, c, f).1 <==> ResumeAgrees(before, after, c)
  {
    AnswerOf(before, c, f);
    AnswerOf(after, c, g);
    if c.operation == Prepare || c.operation == Start {
      DecidedLeaves(before, c, f);
      if DecideSpec(before, c, f).1.result == Applied {
        BlocksOrNotOvertaken(after.current[c.identity.sandboxId], c);
      }
    }
  }

  // ------------------------------------------------------------------ the theorem

  /** Entry `k` is a reception whose command no completion of the journal names. */
  ghost predicate Unfinished(entries: seq<Entry>, k: nat) {
    && k < |entries| && entries[k].Received?
    && forall e :: e in entries && e.Completed? ==> e.commandDigest != CommandDigest(entries[k].command)
  }

  lemma {:induction false} OutcomesAreOfCompletions(entries: seq<Entry>, d: Digest)
    requires forall e :: e in entries && e.Completed? ==> e.commandDigest != d
    ensures d !in CompletedOutcomes(entries)
  {
    if entries == [] {
    } else {
      OutcomesAreOfCompletions(entries[..|entries| - 1], d);
    }
  }

  lemma RebuildOfPrefix(entries: seq<Entry>, k: nat, facts: nat -> DrainFacts, listenIndexOf: string -> nat)
    requires k < |entries|
    ensures RebuildSpec(entries[..k + 1], facts, listenIndexOf)
            == ReplaySpec(RebuildSpec(entries[..k], facts, listenIndexOf), entries[k], facts(k), listenIndexOf)
  {
    assert entries[..k + 1][..k] == entries[..k];
  }

  lemma GrowsIsTransitive(a: Registry, b: Registry, c: Registry)
    requires Grows(a, b) && Grows(b, c)
    ensures Grows(a, c)
  {
  }

  /** Replaying a reception outgrows its decision. */
  lemma ReplayGrowsDecision(r: Registry, e: Entry, f: DrainFacts, listenIndexOf: string -> nat)
    requires RegistryInv(r) && e.Received?
    ensures Grows(DecideSpec(r, e.command, f).0, ReplaySpec(r, e, f, listenIndexOf))
  {
    EventGrows(r, Decided(e.command, f));
    EventGrows(DecideSpec(r, e.command, f).0,
               SpawnAnnotated(e.command.identity, Some(e.commandId), listenIndexOf(e.command.identity.sandboxId)));
  }

  /** What a decision left is outgrown by whatever outgrows its replay. */
  lemma DecisionGrows(r: Registry, e: Entry, f: DrainFacts, listenIndexOf: string -> nat, after: Registry)
    requires RegistryInv(r) && e.Received? && Grows(ReplaySpec(r, e, f, listenIndexOf), after)
    ensures Grows(DecideSpec(r, e.command, f).0, after)
  {
    ReplayGrowsDecision(r, e, f, listenIndexOf);
    GrowsIsTransitive(DecideSpec(r, e.command, f).0, ReplaySpec(r, e, f, listenIndexOf), after);
  }

  /** Resume.  For every journal and every reception in it left without a completion,
      executing its command on the rebuilt registry answers what was decided when the
      reception was written if and only if `ResumeAgrees` holds of the records then and now. */
  lemma ResumeAgreesIff(entries: seq<Entry>, k: nat, facts: nat -> DrainFacts, listenIndexOf: string -> nat,
                        f: DrainFacts)
    requires Unfinished(entries, k) && entries[k].command.operation != Drain
    ensures var c := entries[k].command;
            var before, after := RebuildSpec(entries[..k], facts, listenIndexOf),
                RebuildSpec(entries, facts, listenIndexOf);
            && ExecuteSpec(after, c, f).1 == DecideSpec(after, c, f).1
            && (ExecuteSpec(after, c, f).1 == DecideSpec(before, c, facts(k)).1 <==> ResumeAgrees(before, after, c))
  {
    var c := entries[k].command;
    RebuiltOutcomes(entries, facts, listenIndexOf);
    OutcomesAreOfCompletions(entries, CommandDigest(c));
    RebuildGrows(entries, k, facts, listenIndexOf);
    RebuildGrows(entries, k + 1, facts, listenIndexOf);
    RebuildOfPrefix(entries, k, facts, listenIndexOf);
    var before, after := RebuildSpec(entries[..k], facts, listenIndexOf), RebuildSpec(entries, facts, listenIndexOf);
    DecisionGrows(before, entries[k], facts(k), listenIndexOf, after);
    AgreesFromGrowth(before, DecideSpec(before, c, facts(k)).0, after, c, facts(k), f);
  }

  /** The command of a delivery still executing is unfinished in the journal, and its
      answer is that of the decision at its reception. */
  lemma ExecutingIsUnfinished(w: Wire, x: Live, n: nat) returns (k: nat)
    requires LiveInv(w, FenceDecider(), x) && Executes(x.handler, n)
    ensures var entries := x.handler.journal.entries;
            && Unfinished(entries, k) && entries[k] == x.handler.deliveries[n].phase.received
            && n in x.answers
            && x.answers[n] == FenceDecider()(DecideInOrder(FenceDecider(), entries[..k]), entries[k].command).1
  {
    var entries := x.handler.journal.entries;
    var received := x.handler.deliveries[n].phase.received;
    assert DeliveryInv(x.handler, n);
    k :| DecidedAt(FenceDecider(), entries, k, received.command, x.answers[n]);
    assert entries[k] in entries;
    OneReception(w, entries, entries[k], received);
    forall e | e in entries && e.Completed? ensures e.commandDigest != CommandDigest(received.command) {
      CompletionNamesItsCommand(w, FenceDecider(), x, e, received);
    }
  }

  /** The same for every crash-free run before the crash: the answer an executor call had
      reached when the process died is repeated by the resume exactly then. */
  lemma CrashedCallAgreesIff(
    w: Wire, events: seq<LiveEvent>, n: nat, facts: nat -> DrainFacts, listenIndexOf: string -> nat, f: DrainFacts)
    requires WireLaws(w) && LiveRun(w, FenceDecider(), POWER_ON, events)
    requires Executes(LiveAfter(w, FenceDecider(), POWER_ON, events).handler, n)
    ensures var x := LiveAfter(w, FenceDecider(), POWER_ON, events);
            var entries := x.handler.journal.entries;
            && n in x.answers
            && exists k :: k in Receptions(entries) && entries[k] == x.handler.deliveries[n].phase.received
                 && (ExecuteSpec(RebuildSpec(entries, facts, listenIndexOf), entries[k].command, f).1 ==
                     x.answers[n] <==>
                     ResumeAgrees(RebuildSpec(entries[..k], facts, listenIndexOf),
                                  RebuildSpec(entries, facts, listenIndexOf), entries[k].command))
  {
    FenceDeciderIsPure();
    PowerOnInv(w);
    LiveRunKeepsInv(w, FenceDecider(), POWER_ON, events);
    var x := LiveAfter(w, FenceDecider(), POWER_ON, events);
    var entries := x.handler.journal.entries;
    var k := ExecutingIsUnfinished(w, x, n);
    assert k in Receptions(entries);
    assert entries[k] in entries;
    forall e | e in entries[..k] && e.Received? ensures e.command.operation != Drain {
      assert e in entries;
    }
    RebuildMatchesDecisions(entries[..k], facts, listenIndexOf);
    DecideKeepsSameFence(DecideInOrder(FenceDecider(), entries[..k]), RebuildSpec(entries[..k], facts, listenIndexOf),
                         entries[k].command, facts(k));
    ResumeAgreesIff(entries, k, facts, listenIndexOf, f);
  }

  function Receptions(entries: seq<Entry>): set<nat> {
    set k: nat | k < |entries| && entries[k].Received?
  }

  // ------------------------------------------------------------------ without ties

  /** Pointers move only to a strictly larger E, accepted tuples keep their pins. */
  ghost predicate Rises(a: Registry, b: Registry) {
    && (forall s :: s in a.current ==> s in b.current && RisesTo(a.current[s].identity, b.current[s].identity))
    && (forall i :: i in a.accepted ==> i in b.accepted && b.accepted[i].pins == a.accepted[i].pins)
  }

  predicate RisesTo(a: Identity, b: Identity) {
    a == b || (NoRegression(a, b) && a.executionGeneration < b.executionGeneration)
  }

  /** An update of an accepted tuple, where nothing ties, moves no pointer. */
  lemma AmendmentRises(r: Registry, i: Identity, next: AcceptedRecord)
    requires RegistryInv(r) && NoTies(r) && i in r.accepted && next.identity == i && next.pins == r.accepted[i].pins
    ensures Rises(r, AmendSpec(r, i, next))
    ensures forall s :: s in r.current ==> AmendSpec(r, i, next).current[s].identity == r.current[s].identity
  {
    assert AcceptedIsBounded(r, i) && !TiesWithCurrent(r, i);
    forall s | s in r.current ensures AmendSpec(r, i, next).current[s].identity == r.current[s].identity {
      assert CurrentIsAccepted(r, s);
    }
  }

  lemma AdoptionRises(r: Registry, c: Command, substate: Substate, f: DrainFacts)
    requires RegistryInv(r) && Adopts(r, Decided(c, f)) && NoTies(AdoptSpec(r, c, substate))
    ensures Rises(r, AdoptSpec(r, c, substate))
  {
    var t := AdoptSpec(r, c, substate);
    var s := c.identity.sandboxId;
    if s in r.current {
      assert CurrentIsAccepted(r, s);
      assert !TiesWithCurrent(t, r.current[s].identity);
    }
    if c.identity in r.accepted { assert AcceptedIsBounded(r, c.identity); }
  }

  lemma SubstateRises(r: Registry, i: Identity, substate: Substate)
    requires RegistryInv(r) && NoTies(r)
    ensures Rises(r, SubstateSpec(r, i, substate))
  {
    if i in r.accepted {
      assert AcceptedIsBounded(r, i);
      AmendmentRises(r, i, WithSubstate(r.accepted[i], substate));
    }
  }

  lemma DecisionRises(r: Registry, c: Command, f: DrainFacts)
    requires RegistryInv(r) && NoTies(r) && NoTies(DecideSpec(r, c, f).0)
    ensures Rises(r, DecideSpec(r, c, f).0)
  {
    if Adopts(r, Decided(c, f)) {
      DecideShape(r, c, f);
      AdoptionRises(r, c, if c.operation == Prepare then Prepared else Running, f);
    } else {
      QuietDecision(r, c, f);
      SubstateRises(r, c.identity, Running);
      SubstateRises(r, c.identity, Retiring);
      SubstateRises(r, c.identity, Stopped);
    }
  }

  /** A decision that does not adopt changes nothing or a substate. */
  lemma QuietDecision(r: Registry, c: Command, f: DrainFacts)
    requires !Adopts(r, Decided(c, f))
    ensures DecideSpec(r, c, f).0 in {r, SubstateSpec(r, c.identity, Running), SubstateSpec(r, c.identity, Retiring),
                                      SubstateSpec(r, c.identity, Stopped)}
  {
  }

  /** The spawn annotation of an applied start finds its tuple current. */
  lemma SpawnRises(r: Registry, i: Identity, id: Option<string>, index: nat)
    requires RegistryInv(r) && i.sandboxId in r.current && r.current[i.sandboxId].identity == i
    ensures Rises(r, SpawnSpec(r, i, id, index))
    ensures NoTies(SpawnSpec(r, i, id, index)) ==> NoTies(r)
  {
    assert CurrentIsAccepted(r, i.sandboxId);
    var t := SpawnSpec(r, i, id, index);
    forall k | k in r.accepted && NoTies(t) ensures !TiesWithCurrent(r, k) {
      assert !TiesWithCurrent(t, k);
    }
  }

  lemma RisesIsTransitive(a: Registry, b: Registry, c: Registry)
    requires Rises(a, b) && Rises(b, c)
    ensures Rises(a, c)
  {
  }

  lemma ReplayRises(r: Registry, e: Entry, f: DrainFacts, listenIndexOf: string -> nat)
    requires RegistryInv(r) && NoTies(r) && NoTies(ReplaySpec(r, e, f, listenIndexOf))
    ensures Rises(r, ReplaySpec(r, e, f, listenIndexOf))
  {
    if e.Received? {
      var c := e.command;
      var (mid, outcome) := DecideSpec(r, c, f);
      if outcome.result == Applied && c.operation == Start {
        DecideKeepsInv(r, c, f);
        AppliedStartIsCurrent(r, c, f);
        SpawnRises(mid, c.identity, Some(e.commandId), listenIndexOf(c.identity.sandboxId));
        DecisionRises(r, c, f);
        RisesIsTransitive(r, mid, ReplaySpec(r, e, f, listenIndexOf));
      } else {
        DecisionRises(r, c, f);
      }
    }
  }

  ghost predicate TieFree(entries: seq<Entry>, k: nat, facts: nat -> DrainFacts, listenIndexOf: string -> nat) {
    forall j :: k <= j <= |entries| ==> NoTies(RebuildSpec(entries[..j], facts, listenIndexOf))
  }

  lemma {:induction false} RebuildRises(
    entries: seq<Entry>, k: nat, j: nat, facts: nat -> DrainFacts, listenIndexOf: string -> nat)
    requires k <= j <= |entries| && TieFree(entries, k, facts, listenIndexOf)
    ensures Rises(RebuildSpec(entries[..k], facts, listenIndexOf), RebuildSpec(entries[..j], facts, listenIndexOf))
  {
    if j == k {
    } else {
      RebuildRises(entries, k, j - 1, facts, listenIndexOf);
      RebuildGrows(entries, j - 1, facts, listenIndexOf);
      RebuildOfPrefix(entries, j - 1, facts, listenIndexOf);
      ReplayRises(RebuildSpec(entries[..j - 1], facts, listenIndexOf), entries[j - 1], facts(j - 1), listenIndexOf);
      RisesIsTransitive(RebuildSpec(entries[..k], facts, listenIndexOf),
                        RebuildSpec(entries[..j - 1], facts, listenIndexOf),
                          RebuildSpec(entries[..j], facts, listenIndexOf));
    }
  }

  /** Without ties the condition is on what came in between alone: a stale prepare or start
      stays stale, an applied one agrees while its tuple is current, an applied stop agrees. */
  predicate TieFreeAgrees(before: Registry, after: Registry, c: Command) {
    var s := c.identity.sandboxId;
    match c.operation
    case Prepare => BlockedIn(before, c) || (s in after.current && after.current[s].identity == c.identity)
    case Start =>
      if !IsAlive(c.identity) then true
      else if s !in before.current then s !in after.current
      else BlockedIn(before, c) || (s in after.current && after.current[s].identity == c.identity)
    case Stop => HeldIn(before, c) || !HeldIn(after, c)
    case Drain => true
  }

  lemma BlockedStaysBlocked(before: Registry, after: Registry, c: Command)
    requires RegistryInv(before) && RegistryInv(after) && Rises(before, after) && BlockedIn(before, c)
    requires c.operation == Prepare || c.operation == Start
    ensures BlockedIn(after, c)
  {
    assert CurrentIsAccepted(before, c.identity.sandboxId) && CurrentIsAccepted(after, c.identity.sandboxId);
  }

  /** A tuple that was applied at `k` keeps its pins and, where nothing ties, is overtaken
      exactly when it is no longer current. */
  lemma AppliedIsCurrentOrOvertaken(mid: Registry, after: Registry, c: Command)
    requires RegistryInv(mid) && RegistryInv(after) && NoTies(after) && Rises(mid, after)
    requires c.operation == Prepare || c.operation == Start
    requires var s := c.identity.sandboxId;
             s in mid.current && mid.current[s].identity == c.identity && mid.current[s].pins == c.pins
    ensures var s := c.identity.sandboxId;
            NotOvertaken(after.current[s], c) <==> after.current[s].identity == c.identity
  {
    var s := c.identity.sandboxId;
    assert CurrentIsAccepted(mid, s) && CurrentIsAccepted(after, s);
    assert !TiesWithCurrent(after, c.identity);
  }

  lemma AppliedLeavesItsPins(r: Registry, c: Command, f: DrainFacts)
    requires RegistryInv(r) && (c.operation == Prepare || c.operation == Start)
    requires DecideSpec(r, c, f).1.result == Applied
    ensures var t := DecideSpec(r, c, f).0;
            var s := c.identity.sandboxId;
            s in t.current && t.current[s].identity == c.identity && t.current[s].pins == c.pins
  {
    if c.identity.sandboxId in r.current { assert CurrentIsAccepted(r, c.identity.sandboxId); }
  }

  lemma TieFreeCondition(before: Registry, mid: Registry, after: Registry, c: Command, f: DrainFacts)
    requires RegistryInv(before) && RegistryInv(after) && c.operation != Drain && NoTies(after)
    requires mid == DecideSpec(before, c, f).0 && Rises(before, after) && Rises(mid, after)
    ensures ResumeAgrees(before, after, c) <==> TieFreeAgrees(before, after, c)
  {
    if c.operation == Prepare || c.operation == Start {
      DecideKeepsInv(before, c, f);
      DecidedLeaves(before, c, f);
      if BlockedIn(before, c) {
        BlockedStaysBlocked(before, after, c);
      } else if DecideSpec(before, c, f).1.result == Applied {
        AppliedLeavesItsPins(before, c, f);
        AppliedIsCurrentOrOvertaken(mid, after, c);
      }
    }
  }

  /** Replaying a reception rises above its decision. */
  lemma ReplayRisesAboveDecision(r: Registry, e: Entry, f: DrainFacts, listenIndexOf: string -> nat)
    requires RegistryInv(r) && e.Received?
    ensures Rises(DecideSpec(r, e.command, f).0, ReplaySpec(r, e, f, listenIndexOf))
  {
    if DecideSpec(r, e.command, f).1.result == Applied && e.command.operation == Start {
      DecideKeepsInv(r, e.command, f);
      AppliedStartIsCurrent(r, e.command, f);
      SpawnRises(DecideSpec(r, e.command, f).0, e.command.identity, Some(e.commandId),
                 listenIndexOf(e.command.identity.sandboxId));
    }
  }

  lemma DecisionRisesWith(r: Registry, e: Entry, f: DrainFacts, listenIndexOf: string -> nat, after: Registry)
    requires RegistryInv(r) && e.Received? && Rises(ReplaySpec(r, e, f, listenIndexOf), after)
    ensures Rises(DecideSpec(r, e.command, f).0, after)
  {
    ReplayRisesAboveDecision(r, e, f, listenIndexOf);
    RisesIsTransitive(DecideSpec(r, e.command, f).0, ReplaySpec(r, e, f, listenIndexOf), after);
  }

  /** Resume without ties. */
  lemma TieFreeResumeAgreesIff(
    entries: seq<Entry>, k: nat, facts: nat -> DrainFacts, listenIndexOf: string -> nat, f: DrainFacts)
    requires Unfinished(entries, k) && entries[k].command.operation != Drain
             && TieFree(entries, k, facts, listenIndexOf)
    ensures var c := entries[k].command;
            var before, after := RebuildSpec(entries[..k], facts, listenIndexOf),
                RebuildSpec(entries, facts, listenIndexOf);
            ExecuteSpec(after, c, f).1 == DecideSpec(before, c, facts(k)).1 <==> TieFreeAgrees(before, after, c)
  {
    var e := entries[k];
    var before, after := RebuildSpec(entries[..k], facts, listenIndexOf), RebuildSpec(entries, facts, listenIndexOf);
    var mid := DecideSpec(before, e.command, facts(k)).0;
    assert entries[..|entries|] == entries;
    RebuildGrows(entries, k, facts, listenIndexOf);
    RebuildRises(entries, k, |entries|, facts, listenIndexOf);
    RebuildRises(entries, k + 1, |entries|, facts, listenIndexOf);
    RebuildOfPrefix(entries, k, facts, listenIndexOf);
    DecisionRisesWith(before, e, facts(k), listenIndexOf, after);
    TieFreeCondition(before, mid, after, e.command, facts(k));
    ResumeAgreesIff(entries, k, facts, listenIndexOf, f);
  }

  // ------------------------------------------------------------------ a stop, by the entries in between

  /** Entry `j` is a prepare or start that adopted the tuple `i`. */
  predicate AdoptsAt(entries: seq<Entry>, j: nat, i: Identity, facts: nat -> DrainFacts, listenIndexOf: string -> nat)
    requires j < |entries|
  {
    && entries[j].Received? && entries[j].command.identity == i
    && Adopts(RebuildSpec(entries[..j], facts, listenIndexOf), Decided(entries[j].command, facts(j)))
  }

  ghost predicate NoneAdopts(
    entries: seq<Entry>, k: nat, i: Identity, facts: nat -> DrainFacts, listenIndexOf: string -> nat) {
    forall j :: k <= j < |entries| ==> !AdoptsAt(entries, j, i, facts, listenIndexOf)
  }

  /** The last entry from `k` on that adopted the tuple of `c` did so with the pins of `c`. */
  ghost predicate LastAdoptsPins(
    entries: seq<Entry>, k: nat, c: Command, facts: nat -> DrainFacts, listenIndexOf: string -> nat) {
    exists j :: k <= j < |entries| && AdoptsAt(entries, j, c.identity, facts, listenIndexOf)
      && entries[j].command.pins == c.pins && NoneAdopts(entries, j + 1, c.identity, facts, listenIndexOf)
  }

  /** Only an adoption changes whether a tuple is held, or with which pins. */
  lemma DecisionHolds(r: Registry, d: Command, f: DrainFacts, c: Command)
    requires RegistryInv(r)
    ensures HeldIn(DecideSpec(r, d, f).0, c) <==>
            if d.identity == c.identity && Adopts(r, Decided(d, f)) then d.pins == c.pins else HeldIn(r, c)
  {
    DecideShape(r, d, f);
    if !Adopts(r, Decided(d, f)) { QuietDecision(r, d, f); }
  }

  lemma ReplayHolds(r: Registry, e: Entry, f: DrainFacts, listenIndexOf: string -> nat, c: Command)
    requires RegistryInv(r)
    ensures HeldIn(ReplaySpec(r, e, f, listenIndexOf), c) <==>
            if e.Received? && e.command.identity == c.identity && Adopts(r, Decided(e.command, f))
            then e.command.pins == c.pins else HeldIn(r, c)
  {
    if e.Received? { DecisionHolds(r, e.command, f, c); }
  }

  lemma NoneAdoptsPrefix(
    entries: seq<Entry>, k: nat, i: Identity, facts: nat -> DrainFacts, listenIndexOf: string -> nat)
    requires k < |entries|
    ensures var last := |entries| - 1;
            NoneAdopts(entries, k, i, facts, listenIndexOf) <==>
            NoneAdopts(entries[..last], k, i, facts, listenIndexOf) && !AdoptsAt(entries, last, i, facts, listenIndexOf)
  {
    var last := |entries| - 1;
    forall j | k <= j < last
      ensures AdoptsAt(entries, j, i, facts, listenIndexOf) <==> AdoptsAt(entries[..last], j, i, facts, listenIndexOf)
    {
      assert entries[..last][..j] == entries[..j];
    }
  }

  lemma LastAdoptsPrefix(
    entries: seq<Entry>, k: nat, c: Command, facts: nat -> DrainFacts, listenIndexOf: string -> nat)
    requires k < |entries|
    ensures var last := |entries| - 1;
            LastAdoptsPins(entries, k, c, facts, listenIndexOf) <==>
            if AdoptsAt(entries, last, c.identity, facts, listenIndexOf) then entries[last].command.pins == c.pins
            else LastAdoptsPins(entries[..last], k, c, facts, listenIndexOf)
  {
    var last := |entries| - 1;
    forall j | k <= j < last
      ensures AdoptsAt(entries, j, c.identity, facts, listenIndexOf) <==>
              AdoptsAt(entries[..last], j, c.identity, facts, listenIndexOf)
      ensures NoneAdopts(entries, j + 1, c.identity, facts, listenIndexOf) <==>
              NoneAdopts(entries[..last], j + 1, c.identity, facts, listenIndexOf)
              && !AdoptsAt(entries, last, c.identity, facts, listenIndexOf)
    {
      assert entries[..last][..j] == entries[..j];
      NoneAdoptsPrefix(entries, j + 1, c.identity, facts, listenIndexOf);
    }
    assert NoneAdopts(entries, last + 1, c.identity, facts, listenIndexOf);
  }

  /** Whether a tuple is held with given pins, told from the entries since `k`. */
  lemma {:induction false} HeldByEntries(
    entries: seq<Entry>, k: nat, c: Command, facts: nat -> DrainFacts, listenIndexOf: string -> nat)
    requires k <= |entries|
    ensures HeldIn(RebuildSpec(entries, facts, listenIndexOf), c) <==>
            if NoneAdopts(entries, k, c.identity, facts, listenIndexOf)
            then HeldIn(RebuildSpec(entries[..k], facts, listenIndexOf), c)
            else LastAdoptsPins(entries, k, c, facts, listenIndexOf)
    decreases |entries|
  {
    if k == |entries| {
      assert entries[..k] == entries;
    } else {
      var last := |entries| - 1;
      assert entries[..last][..k] == entries[..k];
      HeldByEntries(entries[..last], k, c, facts, listenIndexOf);
      RebuildGrows(entries[..last], 0, facts, listenIndexOf);
      ReplayHolds(RebuildSpec(entries[..last], facts, listenIndexOf), entries[last], facts(last), listenIndexOf, c);
      NoneAdoptsPrefix(entries, k, c.identity, facts, listenIndexOf);
      LastAdoptsPrefix(entries, k, c, facts, listenIndexOf);
    }
  }

  /** A resumed stop answers as at first exactly if no entry since its reception adopted its
      tuple, or the last that did has the stop's pins just where the stop was applied at first. */
  lemma StopAgreesIff(
    entries: seq<Entry>, k: nat, facts: nat -> DrainFacts, listenIndexOf: string -> nat, f: DrainFacts)
    requires Unfinished(entries, k) && entries[k].command.operation == Stop
    ensures var c := entries[k].command;
            var first := DecideSpec(RebuildSpec(entries[..k], facts, listenIndexOf), c, facts(k)).1;
            ExecuteSpec(RebuildSpec(entries, facts, listenIndexOf), c, f).1 == first <==>
            NoneAdopts(entries, k, c.identity, facts, listenIndexOf)
            || (LastAdoptsPins(entries, k, c, facts, listenIndexOf) <==> first.result == Applied)
  {
    ResumeAgreesIff(entries, k, facts, listenIndexOf, f);
    HeldByEntries(entries, k, entries[k].command, facts, listenIndexOf);
  }

  // ------------------------------------------------------------------ inputs on which it differs

  lemma RebuildOfTwo(a: Entry, b: Entry, facts: nat -> DrainFacts, listenIndexOf: string -> nat)
    ensures RebuildSpec([a], facts, listenIndexOf) == ReplaySpec(EMPTY_REGISTRY, a, facts(0), listenIndexOf)
    ensures RebuildSpec([a, b], facts, listenIndexOf)
            == ReplaySpec(ReplaySpec(EMPTY_REGISTRY, a, facts(0), listenIndexOf), b, facts(1), listenIndexOf)
  {
    assert [a][..0] == [] && [a, b][..1] == [a];
    assert RebuildSpec([], facts, listenIndexOf) == EMPTY_REGISTRY;
  }

  /** The resume differs for each operation: an applied prepare that a later one overtook
      is stale, a start refused as not prepared and a stale stop are applied. */
  lemma ResumeAfterCrashMayDiffer(facts: nat -> DrainFacts, listenIndexOf: string -> nat)
    ensures var c1, c2 := SampleCommand("1", Prepare, 1, 1), SampleCommand("2", Prepare, 2, 2);
            var entries := [ReceivedEntry(c1, "t", 1), ReceivedEntry(c2, "t", 2)];
            && DecideSpec(EMPTY_REGISTRY, c1, NO_FACTS).1.result == Applied
            && ExecuteSpec(RebuildSpec(entries, facts, listenIndexOf), c1, NO_FACTS).1 ==
               Stale(WASM_EXECUTION_FENCE_STALE)
    ensures var c1, c2 := SampleCommand("1", Start, 1, 1), SampleCommand("2", Prepare, 1, 1);
            var entries := [ReceivedEntry(c1, "t", 1), ReceivedEntry(c2, "t", 2)];
            && DecideSpec(EMPTY_REGISTRY, c1, NO_FACTS).1 == Stale(WASM_EXECUTION_NOT_PREPARED)
            && ExecuteSpec(RebuildSpec(entries, facts, listenIndexOf), c1, NO_FACTS).1.result == Applied
    ensures var c1, c2 := SampleCommand("1", Stop, 1, 1), SampleCommand("2", Prepare, 1, 1);
            var entries := [ReceivedEntry(c1, "t", 1), ReceivedEntry(c2, "t", 2)];
            && DecideSpec(EMPTY_REGISTRY, c1, NO_FACTS).1 == Stale(WASM_EXECUTION_FENCE_STALE)
            && ExecuteSpec(RebuildSpec(entries, facts, listenIndexOf), c1, NO_FACTS).1.result == Applied
  {
    RebuildOfTwo(ReceivedEntry(SampleCommand("1", Prepare, 1, 1), "t", 1),
                 ReceivedEntry(SampleCommand("2", Prepare, 2, 2), "t", 2), facts, listenIndexOf);
    RebuildOfTwo(ReceivedEntry(SampleCommand("1", Start, 1, 1), "t", 1),
                 ReceivedEntry(SampleCommand("2", Prepare, 1, 1), "t", 2), facts, listenIndexOf);
    RebuildOfTwo(ReceivedEntry(SampleCommand("1", Stop, 1, 1), "t", 1),
                 ReceivedEntry(SampleCommand("2", Prepare, 1, 1), "t", 2), facts, listenIndexOf);
  }
}
