/** The registry a restart rebuilds from the journal of a crash-free run. */
module FenceRecovery {
  import opened Basics
  import opened ExecutionTypes
  import opened ExecutionJournal
  import opened ExecutionRuns
  import opened FenceExecutor
  import opened FenceInvariants
  import opened FenceLive

  /** The fence executor's own decision, which reads nothing from outside unless it drains. */
  function FenceDecider(): Decider {
    (r: Registry, c: Command) => DecideSpec(r, c, NO_FACTS)
  }

  lemma DecideReadsTheRecordsOnly(r: Registry, t: Registry, c: Command)
    requires r.current == t.current && r.accepted == t.accepted && c.operation != Drain
    ensures DecideSpec(r, c, NO_FACTS).1 == DecideSpec(t, c, NO_FACTS).1
    ensures DecideSpec(r, c, NO_FACTS).0.current == DecideSpec(t, c, NO_FACTS).0.current
    ensures DecideSpec(r, c, NO_FACTS).0.accepted == DecideSpec(t, c, NO_FACTS).0.accepted
  {
  }

  lemma DecideRemembersNothing(r: Registry, c: Command)
    requires c.operation != Drain
    ensures DecideSpec(r, c, NO_FACTS).0.outcomes == r.outcomes
    ensures DecideSpec(r, c, NO_FACTS).1.drainReceiptDraft.None?
  {
  }

  lemma FenceDeciderIsPure()
    ensures PureDecider(FenceDecider())
  {
    forall r: Registry, t: Registry, c: Command | c.operation != Drain && r.current == t.current
      && r.accepted == t.accepted
      ensures FenceDecider()(r, c).1 == FenceDecider()(t, c).1
      ensures FenceDecider()(r, c).0.current == FenceDecider()(t, c).0.current
      ensures FenceDecider()(r, c).0.accepted == FenceDecider()(t, c).0.accepted
    {
      DecideReadsTheRecordsOnly(r, t, c);
    }
    forall r: Registry, c: Command | c.operation != Drain
      ensures FenceDecider()(r, c).0.outcomes == r.outcomes && FenceDecider()(r, c).1.drainReceiptDraft.None?
    {
      DecideRemembersNothing(r, c);
    }
  }

  // ------------------------------------------------------------------ equal up to the spawn annotation

  /** A record without what only a rebuild fills in. */
  function WithoutSpawn(a: AcceptedRecord): AcceptedRecord {
    a.(listenIndex := None, spawnCommandId := None)
  }

  /** Same sandboxes, same accepted tuples, same records up to the spawn annotation. */
  ghost predicate SameFence(a: Registry, b: Registry) {
    && a.current.Keys == b.current.Keys
    && a.accepted.Keys == b.accepted.Keys
    && (forall s :: s in a.current ==> WithoutSpawn(a.current[s]) == WithoutSpawn(b.current[s]))
    && (forall i :: i in a.accepted ==> WithoutSpawn(a.accepted[i]) == WithoutSpawn(b.accepted[i]))
  }

  lemma SubstateKeepsSameFence(a: Registry, b: Registry, i: Identity, substate: Substate)
    requires SameFence(a, b)
    ensures SameFence(SubstateSpec(a, i, substate), SubstateSpec(b, i, substate))
  {
    assert i in a.accepted ==> WithoutSpawn(a.accepted[i]) == WithoutSpawn(b.accepted[i]);
    assert i.sandboxId in a.current ==> WithoutSpawn(a.current[i.sandboxId]) == WithoutSpawn(b.current[i.sandboxId]);
  }

  lemma AdoptKeepsSameFence(a: Registry, b: Registry, c: Command, substate: Substate)
    requires SameFence(a, b)
    ensures SameFence(AdoptSpec(a, c, substate), AdoptSpec(b, c, substate))
  {
  }

  /** Two registries equal up to the annotation decide alike and stay so. */
  lemma DecideKeepsSameFence(a: Registry, b: Registry, c: Command, f: DrainFacts)
    requires SameFence(a, b) && c.operation != Drain
    ensures DecideSpec(a, c, NO_FACTS).1 == DecideSpec(b, c, f).1
    ensures SameFence(DecideSpec(a, c, NO_FACTS).0, DecideSpec(b, c, f).0)
  {
    var i, s := c.identity, c.identity.sandboxId;
    assert i in a.accepted ==> WithoutSpawn(a.accepted[i]) == WithoutSpawn(b.accepted[i]);
    assert s in a.current ==> WithoutSpawn(a.current[s]) == WithoutSpawn(b.current[s]);
    match c.operation
    case Prepare => AdoptKeepsSameFence(a, b, c, Prepared);
    case Start =>
      AdoptKeepsSameFence(a, b, c, Running);
      SubstateKeepsSameFence(a, b, i, Running);
    case Stop => SubstateKeepsSameFence(a, b, i, Stopped);
  }

  /** The annotation an applied start leaves touches nothing else and no pointer. */
  lemma SpawnKeepsSameFence(a: Registry, b: Registry, i: Identity, id: Option<string>, index: nat)
    requires SameFence(a, b) && RegistryInv(b)
    requires i.sandboxId in b.current && b.current[i.sandboxId].identity == i
    ensures SameFence(a, SpawnSpec(b, i, id, index))
  {
    assert CurrentIsAccepted(b, i.sandboxId);
  }

  lemma AppliedStartIsCurrent(b: Registry, c: Command, f: DrainFacts)
    requires RegistryInv(b) && c.operation == Start && DecideSpec(b, c, f).1.result == Applied
    ensures var s := c.identity.sandboxId;
            s in DecideSpec(b, c, f).0.current && DecideSpec(b, c, f).0.current[s].identity == c.identity
  {
    assert CurrentIsAccepted(b, c.identity.sandboxId);
  }

  lemma DecideKeepsInv(b: Registry, c: Command, f: DrainFacts)
    requires RegistryInv(b)
    ensures RegistryInv(DecideSpec(b, c, f).0)
  {
    FenceNextKeepsInv(b, Decided(c, f));
  }

  /** The annotation of an applied start, on a registry whose pointer is at that tuple. */
  lemma AnnotationKeepsSameFence(a: Registry, b: Registry, i: Identity, id: Option<string>, index: nat)
    requires SameFence(a, b) && RegistryInv(b)
    requires i.sandboxId in b.current && b.current[i.sandboxId].identity == i
    ensures SameFence(a, SpawnSpec(b, i, id, index)) && RegistryInv(SpawnSpec(b, i, id, index))
  {
    SpawnKeepsSameFence(a, b, i, id, index);
    FenceNextKeepsInv(b, SpawnAnnotated(i, id, index));
  }

  function ReplayTail(decided: (Registry, Outcome), e: Entry, listenIndexOf: string -> nat): Registry
    requires e.Received?
  {
    if decided.1.result == Applied && e.command.operation == Start
    then SpawnSpec(decided.0, e.command.identity, Some(e.commandId), listenIndexOf(e.command.identity.sandboxId))
    else decided.0
  }

  lemma ReplayIsDecideThenAnnotate(b: Registry, e: Entry, f: DrainFacts, listenIndexOf: string -> nat)
    requires e.Received?
    ensures ReplaySpec(b, e, f, listenIndexOf) == ReplayTail(DecideSpec(b, e.command, f), e, listenIndexOf)
  {
  }

  lemma ReplayTailKeepsSameFence(a: Registry, decided: (Registry, Outcome), e: Entry, listenIndexOf: string -> nat)
    requires e.Received? && SameFence(a, decided.0) && RegistryInv(decided.0)
    requires decided.1.result == Applied && e.command.operation == Start ==>
               var s := e.command.identity.sandboxId;
               s in decided.0.current && decided.0.current[s].identity == e.command.identity
    ensures SameFence(a, ReplayTail(decided, e, listenIndexOf)) && RegistryInv(ReplayTail(decided, e, listenIndexOf))
  {
    if decided.1.result == Applied && e.command.operation == Start {
      AnnotationKeepsSameFence(a, decided.0, e.command.identity, Some(e.commandId),
                               listenIndexOf(e.command.identity.sandboxId));
    }
  }

  /** Replaying a reception keeps a rebuilt registry equal to one that decided it. */
  lemma ReplayReceptionKeepsSameFence(a: Registry, b: Registry, e: Entry, f: DrainFacts, listenIndexOf: string -> nat)
    requires SameFence(a, b) && RegistryInv(b) && e.Received? && e.command.operation != Drain
    ensures RegistryInv(ReplaySpec(b, e, f, listenIndexOf))
    ensures SameFence(FenceDecider()(a, e.command).0, ReplaySpec(b, e, f, listenIndexOf))
  {
    var decided := DecideSpec(b, e.command, f);
    DecideKeepsSameFence(a, b, e.command, f);
    DecideKeepsInv(b, e.command, f);
    if decided.1.result == Applied && e.command.operation == Start {
      AppliedStartIsCurrent(b, e.command, f);
    }
    ReplayIsDecideThenAnnotate(b, e, f, listenIndexOf);
    ReplayTailKeepsSameFence(DecideSpec(a, e.command, NO_FACTS).0, decided, e, listenIndexOf);
  }

  lemma ReplayCompletionKeepsSameFence(a: Registry, b: Registry, e: Entry, f: DrainFacts, listenIndexOf: string -> nat)
    requires SameFence(a, b) && RegistryInv(b) && e.Completed?
    ensures RegistryInv(ReplaySpec(b, e, f, listenIndexOf))
    ensures SameFence(a, ReplaySpec(b, e, f, listenIndexOf))
  {
    var t := ReplaySpec(b, e, f, listenIndexOf);
    forall s | s in t.current ensures CurrentIsAccepted(t, s) { assert CurrentIsAccepted(b, s); }
    forall i | i in t.accepted ensures AcceptedIsBounded(t, i) { assert AcceptedIsBounded(b, i); }
  }

  lemma {:induction false} RebuildMatchesDecisions(
    entries: seq<Entry>, facts: nat -> DrainFacts, listenIndexOf: string -> nat)
    requires forall e :: e in entries && e.Received? ==> e.command.operation != Drain
    ensures RegistryInv(RebuildSpec(entries, facts, listenIndexOf))
    ensures SameFence(DecideInOrder(FenceDecider(), entries), RebuildSpec(entries, facts, listenIndexOf))
  {
    if entries == [] {
    } else {
      var last := |entries| - 1;
      var e := entries[last];
      RebuildMatchesDecisions(entries[..last], facts, listenIndexOf);
      var a, b := DecideInOrder(FenceDecider(), entries[..last]), RebuildSpec(entries[..last], facts, listenIndexOf);
      if e.Received? {
        ReplayReceptionKeepsSameFence(a, b, e, facts(last), listenIndexOf);
      } else {
        ReplayCompletionKeepsSameFence(a, b, e, facts(last), listenIndexOf);
      }
    }
  }

  // ------------------------------------------------------------------ remembered outcomes

  /** What the completions of a journal leave in the outcome cache. */
  function CompletedOutcomes(entries: seq<Entry>): map<Digest, Outcome> {
    if entries == [] then map[]
    else
      var e := entries[|entries| - 1];
      var before := CompletedOutcomes(entries[..|entries| - 1]);
      if e.Completed?
      then before[e.commandDigest := Outcome(e.acknowledgement.result, e.acknowledgement.failureCode, None)]
      else before
  }

  lemma ReplayOutcomes(r: Registry, e: Entry, f: DrainFacts, listenIndexOf: string -> nat)
    ensures ReplaySpec(r, e, f, listenIndexOf).outcomes ==
            if e.Completed?
            then r.outcomes[e.commandDigest := Outcome(e.acknowledgement.result, e.acknowledgement.failureCode, None)]
            else r.outcomes
  {
  }

  lemma {:induction false} RebuiltOutcomes(entries: seq<Entry>, facts: nat -> DrainFacts, listenIndexOf: string -> nat)
    ensures RebuildSpec(entries, facts, listenIndexOf).outcomes == CompletedOutcomes(entries)
  {
    if entries == [] {
    } else {
      var last := |entries| - 1;
      RebuiltOutcomes(entries[..last], facts, listenIndexOf);
      ReplayOutcomes(RebuildSpec(entries[..last], facts, listenIndexOf), entries[last], facts(last), listenIndexOf);
    }
  }

  lemma {:induction false} CompletedOutcomeOf(entries: seq<Entry>, e: Entry)
    requires e in entries && e.Completed?
    requires forall k :: k in entries && k.Completed? && k.commandDigest == e.commandDigest ==> k == e
    ensures e.commandDigest in CompletedOutcomes(entries)
    ensures CompletedOutcomes(entries)[e.commandDigest] ==
            Outcome(e.acknowledgement.result, e.acknowledgement.failureCode, None)
  {
    var last := |entries| - 1;
    assert entries == entries[..last] + [entries[last]];
    if entries[last] != e {
      CompletedOutcomeOf(entries[..last], e);
    }
  }

  /** A completed command is remembered, by the live registry and by a rebuilt one alike. */
  lemma CompletedIsRemembered(w: Wire, x: Live, e: Entry)
    requires LiveInv(w, FenceDecider(), x) && ReceivedIn(x.handler.journal, e)
    requires !NotCompleted(x.handler.journal, e.commandId)
    ensures var d := CommandDigest(e.command);
            && d in x.registry.outcomes && d in CompletedOutcomes(x.handler.journal.entries)
            && CompletedOutcomes(x.handler.journal.entries)[d] == x.registry.outcomes[d]
  {
    var entries := x.handler.journal.entries;
    var done :| done in entries && done.Completed? && done.commandId == e.commandId;
    LookupIsUnique(w, entries, e);
    LookupIsUnique(w, entries, done);
    ReceptionCarriesItsDigest(w, x.handler.journal, e);
    forall k | k in entries && k.Completed? && k.commandDigest == done.commandDigest ensures k == done {
      CompletionNamesItsCommand(w, FenceDecider(), x, k, e);
      OneCompletion(w, entries, k, done);
    }
    CompletedOutcomeOf(entries, done);
    assert CompletionRemembered(x, done);
  }

  // ------------------------------------------------------------------ the theorem

  /** Recovery.  After every crash-free run of prepare, start and stop deliveries, with any
      replays and joins, a rebuild from the journal has the live registry's pointers,
      accepted tuples and records (only the spawn annotation is filled in besides), and
      executing any completed command again returns the outcome it had, deciding nothing. */
  lemma RebuildRecoversLiveRegistry(
    w: Wire, events: seq<LiveEvent>, facts: nat -> DrainFacts, listenIndexOf: string -> nat)
    requires WireLaws(w) && LiveRun(w, FenceDecider(), POWER_ON, events)
    ensures var x := LiveAfter(w, FenceDecider(), POWER_ON, events);
            var rebuilt := RebuildSpec(x.handler.journal.entries, facts, listenIndexOf);
            && RegistryInv(rebuilt)
            && SameFence(x.registry, rebuilt)
            && (forall e :: (ReceivedIn(x.handler.journal, e) && !NotCompleted(x.handler.journal, e.commandId)) ==>
                  && CommandDigest(e.command) in x.registry.outcomes
                  && forall f ::
                     ExecuteSpec(rebuilt, e.command, f) == (rebuilt, x.registry.outcomes[CommandDigest(e.command)]))
  {
    var decide := FenceDecider();
    FenceDeciderIsPure();
    PowerOnInv(w);
    LiveRunKeepsInv(w, decide, POWER_ON, events);
    var x := LiveAfter(w, decide, POWER_ON, events);
    var entries := x.handler.journal.entries;
    RebuildMatchesDecisions(entries, facts, listenIndexOf);
    RebuiltOutcomes(entries, facts, listenIndexOf);
    forall e | ReceivedIn(x.handler.journal, e) && !NotCompleted(x.handler.journal, e.commandId)
      ensures && CommandDigest(e.command) in x.registry.outcomes
              && CommandDigest(e.command) in CompletedOutcomes(entries)
              && CompletedOutcomes(entries)[CommandDigest(e.command)] == x.registry.outcomes[CommandDigest(e.command)]
    {
      CompletedIsRemembered(w, x, e);
    }
  }

  lemma PowerOnInv(w: Wire)
    ensures LiveInv(w, FenceDecider(), POWER_ON)
  {
    assert DecideInOrder(FenceDecider(), []) == EMPTY_REGISTRY;
  }
}
