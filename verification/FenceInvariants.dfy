/** What every reachable fence registry satisfies, and when its pointer moves. */
module FenceInvariants {
  import opened Basics
  import opened ExecutionTypes
  import opened FenceExecutor

  /** Everything that changes a registry besides remembering outcomes. */
  datatype FenceEvent =
    | Decided(command: Command, facts: DrainFacts)
    | SpawnAnnotated(identity: Identity, commandId: Option<string>, listenIndex: nat)
    | ReadinessAnnotated(identity: Identity, readiness: Readiness)
    | EpochTimeoutNoted(identity: Identity)

  function FenceNext(r: Registry, e: FenceEvent): Registry {
    match e
    case Decided(c, f) => DecideSpec(r, c, f).0
    case SpawnAnnotated(i, id, index) => SpawnSpec(r, i, id, index)
    case ReadinessAnnotated(i, readiness) => ReadinessSpec(r, i, readiness)
    case EpochTimeoutNoted(i) => EpochTimeoutSpec(r, i)
  }

  function FenceRun(r: Registry, events: seq<FenceEvent>): Registry
    decreases |events|
  {
    if events == [] then r else FenceRun(FenceNext(r, events[0]), events[1..])
  }

  // ------------------------------------------------------------------ the invariant

  /** The current record is the accepted record of its own identity. */
  predicate CurrentIsAccepted(r: Registry, s: string)
    requires s in r.current
  {
    var i := r.current[s].identity;
    i.sandboxId == s && i in r.accepted && r.accepted[i] == r.current[s]
  }

  /** An accepted tuple belongs to a sandbox with a pointer of at least its E. */
  predicate AcceptedIsBounded(r: Registry, i: Identity)
    requires i in r.accepted
  {
    && r.accepted[i].identity == i
    && i.sandboxId in r.current
    && i.executionGeneration <= r.current[i.sandboxId].identity.executionGeneration
  }

  ghost predicate RegistryInv(r: Registry) {
    && (forall s :: s in r.current ==> CurrentIsAccepted(r, s))
    && (forall i :: i in r.accepted ==> AcceptedIsBounded(r, i))
  }

  lemma AmendKeepsInv(r: Registry, i: Identity, next: AcceptedRecord)
    requires RegistryInv(r) && i in r.accepted && next.identity == i
    ensures RegistryInv(AmendSpec(r, i, next))
  {
    assert AcceptedIsBounded(r, i);
    var t := AmendSpec(r, i, next);
    forall s | s in t.current ensures CurrentIsAccepted(t, s) {
      assert CurrentIsAccepted(r, s);
    }
    forall k | k in t.accepted ensures AcceptedIsBounded(t, k) {
      assert AcceptedIsBounded(r, k);
    }
  }

  lemma AdoptKeepsInv(r: Registry, c: Command, substate: Substate)
    requires RegistryInv(r)
    requires c.identity.sandboxId in r.current ==>
               r.current[c.identity.sandboxId].identity.executionGeneration <= c.identity.executionGeneration
    ensures RegistryInv(AdoptSpec(r, c, substate))
  {
    var t := AdoptSpec(r, c, substate);
    forall s | s in t.current ensures CurrentIsAccepted(t, s) {
      if s != c.identity.sandboxId { assert CurrentIsAccepted(r, s); }
    }
    forall k | k in t.accepted ensures AcceptedIsBounded(t, k) {
      if k != c.identity { assert AcceptedIsBounded(r, k); }
    }
  }

  /** The tuple an event is about. */
  function Target(e: FenceEvent): Identity {
    if e.Decided? then e.command.identity else e.identity
  }

  predicate IsAmendment(r: Registry, t: Registry, i: Identity) {
    i in r.accepted && i in t.accepted && t.accepted[i].identity == i && t == AmendSpec(r, i, t.accepted[i])
  }

  lemma SubstateIsAmendment(r: Registry, i: Identity, substate: Substate)
    requires RegistryInv(r) && i in r.accepted
    ensures IsAmendment(r, SubstateSpec(r, i, substate), i)
  {
    assert AcceptedIsBounded(r, i);
  }

  /** A decision adopts, amends its own accepted tuple, or changes nothing. */
  lemma DecideShape(r: Registry, c: Command, f: DrainFacts)
    requires RegistryInv(r)
    ensures var t := DecideSpec(r, c, f).0;
            if Adopts(r, Decided(c, f))
            then t == AdoptSpec(r, c, if c.operation == Prepare then Prepared else Running)
            else t == r || IsAmendment(r, t, c.identity)
  {
    if c.identity in r.accepted {
      SubstateIsAmendment(r, c.identity, Running);
      SubstateIsAmendment(r, c.identity, Retiring);
      SubstateIsAmendment(r, c.identity, Stopped);
    }
  }

  lemma FenceNextShape(r: Registry, e: FenceEvent)
    requires RegistryInv(r)
    ensures var t := FenceNext(r, e);
            if Adopts(r, e)
            then t == AdoptSpec(r, e.command, if e.command.operation == Prepare then Prepared else Running)
            else t == r || IsAmendment(r, t, Target(e))
  {
    if e.Decided? {
      DecideShape(r, e.command, e.facts);
    } else if Target(e) in r.accepted {
      assert AcceptedIsBounded(r, Target(e));
    }
  }

  /** The event is a command that the decision adopts as a new current execution. */
  predicate Adopts(r: Registry, e: FenceEvent) {
    e.Decided? &&
    var c := e.command;
    var s := c.identity.sandboxId;
    match c.operation
    case Prepare =>
      s !in r.current ||
      (!(r.current[s].identity == c.identity && r.current[s].pins == c.pins)
       && NoRegression(r.current[s].identity, c.identity) && HigherGeneration(r.current[s].identity, c.identity))
    case Start =>
      IsAlive(c.identity) && s in r.current && r.current[s].identity != c.identity
      && NoRegression(r.current[s].identity, c.identity)
    case Drain => false
    case Stop => false
  }

  /** Every event keeps the invariant and never lowers a sandbox's current E. */
  lemma FenceNextKeepsInv(r: Registry, e: FenceEvent)
    requires RegistryInv(r)
    ensures RegistryInv(FenceNext(r, e))
    ensures forall s :: s in r.current ==>
              && s in FenceNext(r, e).current
              && r.current[s].identity.executionGeneration <= FenceNext(r, e).current[s].identity.executionGeneration
  {
    FenceNextShape(r, e);
    if Adopts(r, e) {
      AdoptionRaisesE(r, e, if e.command.operation == Prepare then Prepared else Running);
    } else if FenceNext(r, e) != r {
      AmendmentKeepsE(r, FenceNext(r, e), Target(e));
    }
  }

  lemma AdoptionRaisesE(r: Registry, e: FenceEvent, substate: Substate)
    requires RegistryInv(r) && Adopts(r, e)
    ensures var t := AdoptSpec(r, e.command, substate);
            RegistryInv(t) && forall s :: s in r.current ==>
              s in t.current && r.current[s].identity.executionGeneration <= t.current[s].identity.executionGeneration
  {
    AdoptKeepsInv(r, e.command, substate);
  }

  lemma AmendmentKeepsE(r: Registry, t: Registry, i: Identity)
    requires RegistryInv(r) && IsAmendment(r, t, i)
    ensures RegistryInv(t) && forall s :: s in r.current ==>
              s in t.current && r.current[s].identity.executionGeneration <= t.current[s].identity.executionGeneration
  {
    AmendKeepsInv(r, i, t.accepted[i]);
  }

  lemma {:induction false} FenceRunKeepsInv(r: Registry, events: seq<FenceEvent>)
    requires RegistryInv(r)
    decreases |events|
    ensures RegistryInv(FenceRun(r, events))
    ensures forall s :: s in r.current ==>
              && s in FenceRun(r, events).current
              && r.current[s].identity.executionGeneration <=
                 FenceRun(r, events).current[s].identity.executionGeneration
  {
    if events == [] {
    } else {
      FenceNextKeepsInv(r, events[0]);
      FenceRunKeepsInv(FenceNext(r, events[0]), events[1..]);
    }
  }

  // ------------------------------------------------------------------ the pointer

  /** An accepted tuple other than the current one that ties with it on E. */
  predicate TiesWithCurrent(r: Registry, i: Identity) {
    && i in r.accepted && i.sandboxId in r.current
    && i != r.current[i.sandboxId].identity
    && i.executionGeneration == r.current[i.sandboxId].identity.executionGeneration
  }

  /** An update of an accepted tuple moves its sandbox's pointer exactly when the tuple
      ties with the current one on E; it never moves another sandbox's. */
  lemma UpdateMovesPointerIffTie(r: Registry, i: Identity, substate: Substate, s: string)
    requires RegistryInv(r) && i in r.accepted && s in r.current
    ensures var t := SubstateSpec(r, i, substate);
            t.current[s].identity != r.current[s].identity <==> (s == i.sandboxId && TiesWithCurrent(r, i))
    ensures var t := SubstateSpec(r, i, substate);
            t.current[s].identity != r.current[s].identity ==> t.current[s].identity == i
  {
    assert AcceptedIsBounded(r, i) && CurrentIsAccepted(r, s);
  }

  function SampleCommand(id: string, operation: Operation, preparation: nat, execution: nat): Command {
    var pins := Pins("p", "b", "", 1, "c", 1, "s", "v", 0, None, None);
    Command(id, 0, 0, operation, Identity("sbx", "v1", preparation, execution), "app", "n", pins)
  }

  const NO_FACTS := DrainFacts(None, None, None)

  /** "The pointer only advances with adoption" fails on a tie: prepare (1,1), prepare
      (2,1), stop (1,1) leaves the pointer at the older preparation, as stopped. */
  lemma PointerFallsBackOnTie()
    ensures var a := Decided(SampleCommand("1", Prepare, 1, 1), NO_FACTS);
            var b := Decided(SampleCommand("2", Prepare, 2, 1), NO_FACTS);
            var c := Decided(SampleCommand("3", Stop, 1, 1), NO_FACTS);
            var before := FenceRun(EMPTY_REGISTRY, [a, b]);
            var after := FenceRun(EMPTY_REGISTRY, [a, b, c]);
            && "sbx" in before.current && "sbx" in after.current
            && before.current["sbx"].identity.preparationGeneration == 2
            && !Adopts(before, c)
            && after.current["sbx"].identity.preparationGeneration == 1
            && after.current["sbx"].substate == Stopped
  {
    var a := Decided(SampleCommand("1", Prepare, 1, 1), NO_FACTS);
    var b := Decided(SampleCommand("2", Prepare, 2, 1), NO_FACTS);
    var c := Decided(SampleCommand("3", Stop, 1, 1), NO_FACTS);
    var r1 := FenceNext(EMPTY_REGISTRY, a);
    var r2 := FenceNext(r1, b);
    assert [a, b][1..] == [b] && [b][1..] == [];
    assert FenceRun(r1, [b]) == FenceRun(r2, []);
    assert [a, b, c][1..] == [b, c] && [b, c][1..] == [c] && [c][1..] == [];
    assert FenceRun(r1, [b, c]) == FenceRun(r2, [c]);
    assert FenceRun(r2, [c]) == FenceRun(FenceNext(r2, c), []);
  }

  ghost predicate NoTies(r: Registry) { forall i :: i in r.accepted ==> !TiesWithCurrent(r, i) }

  /** Every adoption of the run gives its sandbox a strictly larger E. */
  ghost predicate AdoptionsRaiseE(r: Registry, events: seq<FenceEvent>)
    decreases |events|
  {
    events == [] ||
    (&& (Adopts(r, events[0]) && events[0].command.identity.sandboxId in r.current ==>
           r.current[events[0].command.identity.sandboxId].identity.executionGeneration
           < events[0].command.identity.executionGeneration)
     && AdoptionsRaiseE(FenceNext(r, events[0]), events[1..]))
  }

  /** While nothing ties, an event that does not adopt moves no pointer, and an adoption
      that raises E creates no tie. */
  lemma NoTiesStep(r: Registry, e: FenceEvent)
    requires RegistryInv(r) && NoTies(r) && AdoptionsRaiseE(r, [e])
    ensures NoTies(FenceNext(r, e))
    ensures forall s :: s in r.current && FenceNext(r, e).current[s].identity != r.current[s].identity ==>
              Adopts(r, e) && e.command.identity == FenceNext(r, e).current[s].identity
  {
    FenceNextShape(r, e);
    var t := FenceNext(r, e);
    assert AdoptionsRaiseE(t, []);
    if Target(e) in r.accepted {
      assert AcceptedIsBounded(r, Target(e)) && !TiesWithCurrent(r, Target(e));
    }
    forall i | i in t.accepted ensures !TiesWithCurrent(t, i) {
      if i in r.accepted { assert !TiesWithCurrent(r, i) && AcceptedIsBounded(r, i); }
    }
    forall s | s in r.current && t.current[s].identity != r.current[s].identity
      ensures Adopts(r, e) && e.command.identity == t.current[s].identity
    {
      assert CurrentIsAccepted(r, s);
    }
  }

  /** In a run whose adoptions all raise E, only adoptions move a pointer. */
  lemma {:induction false} OnlyAdoptionMovesPointer(r: Registry, events: seq<FenceEvent>, k: nat)
    requires RegistryInv(r) && NoTies(r) && AdoptionsRaiseE(r, events) && k < |events|
    ensures var before := FenceRun(r, events[..k]);
            var after := FenceNext(before, events[k]);
            && RegistryInv(before) && NoTies(before)
            && forall s :: s in before.current && after.current[s].identity != before.current[s].identity ==>
                 Adopts(before, events[k]) && events[k].command.identity == after.current[s].identity
    decreases k
  {
    assert AdoptionsRaiseE(r, [events[0]]) by {
      assert [events[0]][1..] == [];
    }
    NoTiesStep(r, events[0]);
    if k == 0 {
      assert events[..0] == [];
    } else {
      FenceNextKeepsInv(r, events[0]);
      OnlyAdoptionMovesPointer(FenceNext(r, events[0]), events[1..], k - 1);
      assert events[..k][1..] == events[1..][..k - 1];
      assert events[..k][0] == events[0];
    }
  }

  // ------------------------------------------------------------------ traffic

  /** Only the current tuple, and only while running, takes new traffic. */
  predicate AcceptsNewTraffic(r: Registry, i: Identity) {
    i.sandboxId in r.current && r.current[i.sandboxId].identity == i && r.current[i.sandboxId].substate == Running
  }

  /** In every reachable registry at most one tuple of a sandbox takes traffic; it is an
      accepted one, running in its own record, and no accepted one has a larger E. */
  lemma OneTupleTakesTraffic(events: seq<FenceEvent>, i: Identity, k: Identity)
    requires var r := FenceRun(EMPTY_REGISTRY, events);
             AcceptsNewTraffic(r, i) && k.sandboxId == i.sandboxId
    ensures var r := FenceRun(EMPTY_REGISTRY, events);
            && (AcceptsNewTraffic(r, k) ==> k == i)
            && i in r.accepted && r.accepted[i].substate == Running
            && (k in r.accepted ==> k.executionGeneration <= i.executionGeneration)
  {
    FenceRunKeepsInv(EMPTY_REGISTRY, events);
    var r := FenceRun(EMPTY_REGISTRY, events);
    assert CurrentIsAccepted(r, i.sandboxId);
    if k in r.accepted { assert AcceptedIsBounded(r, k); }
  }

  /** What brings a tuple to traffic: an applied start that names it, or, where it ties with
      the current tuple while running in its own record, any annotation of it. */
  predicate BringsToTraffic(r: Registry, e: FenceEvent, i: Identity) {
    && Target(e) == i
    && if e.Decided? then e.command.operation == Start && DecideSpec(r, e.command, e.facts).1.result == Applied
       else TiesWithCurrent(r, i) && r.accepted[i].substate == Running
  }

  lemma StartBringsToTraffic(r: Registry, c: Command, f: DrainFacts)
    requires RegistryInv(r) && c.operation == Start
    ensures DecideSpec(r, c, f).1.result == Applied ==> AcceptsNewTraffic(DecideSpec(r, c, f).0, c.identity)
    ensures DecideSpec(r, c, f).1.result != Applied ==> DecideSpec(r, c, f).0 == r
  {
    if c.identity.sandboxId in r.current { assert CurrentIsAccepted(r, c.identity.sandboxId); }
  }

  /** A decision other than an applied start brings no tuple to traffic. */
  lemma OtherDecisionsBringNone(r: Registry, c: Command, f: DrainFacts, i: Identity)
    requires RegistryInv(r) && !AcceptsNewTraffic(r, i) && (c.operation == Start ==> c.identity != i)
    ensures !AcceptsNewTraffic(DecideSpec(r, c, f).0, i)
  {
    if i.sandboxId in r.current { assert CurrentIsAccepted(r, i.sandboxId); }
    if c.identity in r.accepted { assert AcceptedIsBounded(r, c.identity); }
  }

  lemma AnnotationBringsIff(r: Registry, e: FenceEvent, i: Identity)
    requires RegistryInv(r) && !e.Decided? && !AcceptsNewTraffic(r, i)
    ensures AcceptsNewTraffic(FenceNext(r, e), i) <==> BringsToTraffic(r, e, i)
  {
    if i.sandboxId in r.current { assert CurrentIsAccepted(r, i.sandboxId); }
    if Target(e) in r.accepted { assert AcceptedIsBounded(r, Target(e)); }
  }

  /** Exactly these events bring a tuple that takes no traffic back to it. */
  lemma TrafficReturnsIff(r: Registry, e: FenceEvent, i: Identity)
    requires RegistryInv(r) && !AcceptsNewTraffic(r, i)
    ensures AcceptsNewTraffic(FenceNext(r, e), i) <==> BringsToTraffic(r, e, i)
  {
    if !e.Decided? {
      AnnotationBringsIff(r, e, i);
    } else if e.command.operation == Start && e.command.identity == i {
      StartBringsToTraffic(r, e.command, e.facts);
    } else {
      OtherDecisionsBringNone(r, e.command, e.facts, i);
    }
  }

  /** So a tuple whose own record is not running returns only by a start that names it. */
  lemma StoppedStaysOut(r: Registry, e: FenceEvent, i: Identity)
    requires RegistryInv(r) && !AcceptsNewTraffic(r, i) && AcceptsNewTraffic(FenceNext(r, e), i)
    requires i in r.accepted && r.accepted[i].substate != Running
    ensures e.Decided? && e.command.operation == Start && e.command.identity == i
  {
    TrafficReturnsIff(r, e, i);
  }
}
