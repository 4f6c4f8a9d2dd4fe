/** The handler and an executor without side effects running together, without a crash.
    The executor's decision is a parameter; all that is used of it is `PureDecider`. */
module FenceLive {
  import opened Basics
  import opened ExecutionTypes
  import opened ExecutionJournal
  import opened ExecutionRpc
  import opened ExecutionRuns
  import opened FenceExecutor

  type Decider = (Registry, Command) -> (Registry, Outcome)

  /** A decision on anything but a drain reads and writes the two record maps only, and
      its outcome carries no drain receipt. */
  ghost predicate PureDecider(decide: Decider) {
    && (forall r: Registry, c: Command :: c.operation != Drain ==>
          decide(r, c).0.outcomes == r.outcomes && decide(r, c).1.drainReceiptDraft.None?)
    && (forall r: Registry, t: Registry, c: Command ::
          c.operation != Drain && r.current == t.current && r.accepted == t.accepted ==>
          && decide(r, c).1 == decide(t, c).1
          && decide(r, c).0.current == decide(t, c).0.current
          && decide(r, c).0.accepted == decide(t, c).0.accepted)
  }

  /** One process: its handler, its registry, and the outcomes its executor calls have
      reached but not yet handed back. */
  datatype Live = Live(handler: Supervisor, registry: Registry, answers: map<nat, Outcome>)

  datatype LiveEvent =
    | LiveDeliver(command: Command, mode: Mode, at: string)
    | LiveSettle(delivery: nat, at: string)
    | LiveFinalize(delivery: nat)

  ghost predicate LiveEnabled(w: Wire, x: Live, e: LiveEvent) {
    match e
    case LiveDeliver(c, _, at) => w.commandOk(c) && w.timeOk(at) && c.operation != Drain
    case LiveSettle(n, at) => Executes(x.handler, n) && n in x.answers && w.timeOk(at)
    case LiveFinalize(n) => n in x.handler.deliveries && x.handler.deliveries[n].phase.Settled?
  }

  /** The decision is taken in the same tick as the reception is written; the outcome is
      remembered before the handler is resumed with it. */
  ghost function LiveNext(w: Wire, decide: Decider, x: Live, e: LiveEvent): Live
    requires LiveEnabled(w, x, e)
  {
    match e
    case LiveDeliver(c, mode, at) =>
      var handler := DeliverSpec(w, x.handler, c, mode, at).0;
      var n := x.handler.nextDelivery;
      if handler.nextDelivery == n + 1 && Executes(handler, n) then
        var command := handler.deliveries[n].phase.received.command;
        var digest := CommandDigest(command);
        if digest in x.registry.outcomes
        then Live(handler, x.registry, x.answers[n := x.registry.outcomes[digest]])
        else
          var (registry, outcome) := decide(x.registry, command);
          Live(handler, registry, x.answers[n := outcome])
      else x.(handler := handler)
    case LiveSettle(n, at) =>
      var command := x.handler.deliveries[n].phase.received.command;
      x.(handler := SettledSpec(w, x.handler, n, Some(x.answers[n]), at),
         registry := x.registry.(outcomes := x.registry.outcomes[CommandDigest(command) := x.answers[n]]))
    case LiveFinalize(n) => x.(handler := FinalizeSpec(x.handler, n))
  }

  const POWER_ON := Live(Boot(EMPTY_JOURNAL), EMPTY_REGISTRY, map[])

  ghost predicate LiveRun(w: Wire, decide: Decider, x: Live, events: seq<LiveEvent>)
    decreases |events|
  {
    events == [] || (LiveEnabled(w, x, events[0]) && LiveRun(w, decide, LiveNext(w, decide, x, events[0]), events[1..]))
  }

  ghost function LiveAfter(w: Wire, decide: Decider, x: Live, events: seq<LiveEvent>): Live
    requires LiveRun(w, decide, x, events)
    decreases |events|
  {
    if events == [] then x else LiveAfter(w, decide, LiveNext(w, decide, x, events[0]), events[1..])
  }

  // ------------------------------------------------------------------ decisions in journal order

  /** The registry after deciding the receptions of a journal in order, each once. */
  function DecideInOrder(decide: Decider, entries: seq<Entry>): Registry {
    if entries == [] then EMPTY_REGISTRY
    else
      var e := entries[|entries| - 1];
      var before := DecideInOrder(decide, entries[..|entries| - 1]);
      if e.Received? then decide(before, e.command).0 else before
  }

  lemma DecideInOrderAppend(decide: Decider, entries: seq<Entry>, e: Entry)
    ensures DecideInOrder(decide, entries + [e]) ==
            if e.Received? then decide(DecideInOrder(decide, entries), e.command).0 else DecideInOrder(decide, entries)
  {
    assert (entries + [e])[..|entries|] == entries;
  }

  ghost predicate DecidedAt(decide: Decider, entries: seq<Entry>, k: nat, c: Command, outcome: Outcome) {
    k < |entries| && entries[k].Received? && entries[k].command == c
    && decide(DecideInOrder(decide, entries[..k]), c).1 == outcome
  }

  /** The outcome decided for a command when its reception was written. */
  ghost predicate DecidedAs(decide: Decider, entries: seq<Entry>, c: Command, outcome: Outcome) {
    exists k: nat :: DecidedAt(decide, entries, k, c, outcome)
  }

  lemma DecidedAsExtends(decide: Decider, entries: seq<Entry>, longer: seq<Entry>, c: Command, outcome: Outcome)
    requires DecidedAs(decide, entries, c, outcome) && entries <= longer
    ensures DecidedAs(decide, longer, c, outcome)
  {
    var k: nat :| DecidedAt(decide, entries, k, c, outcome);
    assert longer[..k] == entries[..k];
    assert DecidedAt(decide, longer, k, c, outcome);
  }

  ghost predicate CompletionRemembered(x: Live, e: Entry)
    requires e.Completed?
  {
    && e.commandDigest in x.registry.outcomes
    && x.registry.outcomes[e.commandDigest] == Outcome(e.acknowledgement.result, e.acknowledgement.failureCode, None)
  }

  ghost predicate BeingExecuted(x: Live, e: Entry) {
    exists n :: Executes(x.handler, n) && x.handler.deliveries[n].phase.received == e
  }

  /** The record maps are those of deciding the journal's receptions in order. */
  ghost predicate RecordsInv(decide: Decider, x: Live) {
    var inOrder := DecideInOrder(decide, x.handler.journal.entries);
    x.registry.current == inOrder.current && x.registry.accepted == inOrder.accepted
  }

  ghost predicate ReceptionsInv(x: Live) {
    forall e :: e in x.handler.journal.entries && e.Received? ==>
      e.command.operation != Drain && e.command.commandId == e.commandId
  }

  ghost predicate AnswersInv(decide: Decider, x: Live) {
    forall n :: Executes(x.handler, n) ==>
      n in x.answers && DecidedAs(decide, x.handler.journal.entries, x.handler.deliveries[n].phase.received.command,
                                  x.answers[n])
  }

  ghost predicate OutcomesInv(decide: Decider, x: Live) {
    forall d :: d in x.registry.outcomes ==>
      d.CommandDigest? && DecidedAs(decide, x.handler.journal.entries, d.command, x.registry.outcomes[d])
  }

  ghost predicate CoverageInv(x: Live) {
    forall e :: e in x.handler.journal.entries && e.Received? ==>
      CommandDigest(e.command) in x.registry.outcomes || BeingExecuted(x, e)
  }

  ghost predicate CompletionsInv(x: Live) {
    forall e :: e in x.handler.journal.entries && e.Completed? ==> CompletionRemembered(x, e)
  }

  ghost predicate LiveInv(w: Wire, decide: Decider, x: Live) {
    && SupervisorInv(w, x.handler)
    && RecordsInv(decide, x)
    && ReceptionsInv(x)
    && AnswersInv(decide, x)
    && OutcomesInv(decide, x)
    && CoverageInv(x)
    && CompletionsInv(x)
  }

  lemma DecidedHasNoDraft(w: Wire, decide: Decider, x: Live, c: Command, outcome: Outcome)
    requires PureDecider(decide) && LiveInv(w, decide, x) && DecidedAs(decide, x.handler.journal.entries, c, outcome)
    ensures outcome.drainReceiptDraft.None?
  {
    var entries := x.handler.journal.entries;
    var k: nat :| DecidedAt(decide, entries, k, c, outcome);
    assert entries[k] in entries;
  }

  /** A command the journal does not know has no remembered outcome. */
  lemma NewCommandIsNotRemembered(w: Wire, decide: Decider, x: Live, c: Command)
    requires LiveInv(w, decide, x) && !Known(LookupIn(x.handler.journal.entries, c.commandId))
    ensures CommandDigest(c) !in x.registry.outcomes
  {
    var entries := x.handler.journal.entries;
    assert forall k :: 0 <= k < |entries| ==> entries[k] in entries;
  }

  /** A command whose executor call is not running but whose reception exists is remembered. */
  lemma KnownCommandIsRemembered(w: Wire, decide: Decider, x: Live, e: Entry)
    requires LiveInv(w, decide, x) && ReceivedIn(x.handler.journal, e)
    requires e.commandId !in x.handler.inFlight || x.handler.inFlight[e.commandId].digest != CommandDigest(e.command)
    ensures CommandDigest(e.command) in x.registry.outcomes
  {
    if CommandDigest(e.command) !in x.registry.outcomes {
      var m :| Executes(x.handler, m) && x.handler.deliveries[m].phase.received == e;
      assert DeliveryInv(x.handler, m);
      assert InFlightInv(x.handler, e.commandId);
      ReceptionCarriesItsDigest(w, x.handler.journal, e);
    }
  }

  lemma FreshDelivery(w: Wire, s: Supervisor)
    requires SupervisorInv(w, s)
    ensures s.nextDelivery !in s.deliveries
  {
    assert s.nextDelivery in s.deliveries ==> DeliveryInv(s, s.nextDelivery);
  }

  /** A new delivery that writes nothing: settled at once, or resumed from memory. */
  lemma QuietDeliveryKeepsInv(w: Wire, decide: Decider, x: Live, y: Live, n: nat)
    requires LiveInv(w, decide, x) && SupervisorInv(w, y.handler)
    requires n == x.handler.nextDelivery && y.handler.journal == x.handler.journal && y.registry == x.registry
    requires n in y.handler.deliveries && y.handler.deliveries == x.handler.deliveries[n := y.handler.deliveries[n]]
    requires Executes(y.handler, n) ==>
               n in y.answers && DecidedAs(decide, y.handler.journal.entries,
                                           y.handler.deliveries[n].phase.received.command, y.answers[n])
    requires forall m :: m in x.answers && m != n ==> m in y.answers && y.answers[m] == x.answers[m]
    ensures LiveInv(w, decide, y)
  {
    FreshDelivery(w, x.handler);
    AnswersExtend(decide, x, y, n);
    OutcomesExtend(decide, x, y);
    CoverageExtends(x, y);
    forall e | e in y.handler.journal.entries && e.Completed? ensures CompletionRemembered(y, e) {
      assert CompletionRemembered(x, e);
    }
  }

  lemma AnswersExtend(decide: Decider, x: Live, y: Live, n: nat)
    requires AnswersInv(decide, x) && x.handler.journal.entries <= y.handler.journal.entries
    requires forall m :: Executes(y.handler, m) && m != n ==>
               Executes(x.handler, m) && m in y.answers && m in x.answers && y.answers[m] == x.answers[m]
               && y.handler.deliveries[m] == x.handler.deliveries[m]
    requires Executes(y.handler, n) ==>
               n in y.answers && DecidedAs(decide, y.handler.journal.entries,
                                           y.handler.deliveries[n].phase.received.command, y.answers[n])
    ensures AnswersInv(decide, y)
  {
    forall m | Executes(y.handler, m)
      ensures m in y.answers && DecidedAs(decide, y.handler.journal.entries,
                                          y.handler.deliveries[m].phase.received.command, y.answers[m])
    {
      if m != n {
        DecidedAsExtends(decide, x.handler.journal.entries, y.handler.journal.entries,
                         x.handler.deliveries[m].phase.received.command, x.answers[m]);
      }
    }
  }

  lemma OutcomesExtend(decide: Decider, x: Live, y: Live)
    requires OutcomesInv(decide, x) && x.handler.journal.entries <= y.handler.journal.entries
    requires forall d :: d in y.registry.outcomes ==>
               || (d in x.registry.outcomes && y.registry.outcomes[d] == x.registry.outcomes[d])
               || (d.CommandDigest? && DecidedAs(decide, x.handler.journal.entries, d.command, y.registry.outcomes[d]))
    ensures OutcomesInv(decide, y)
  {
    forall d | d in y.registry.outcomes
      ensures d.CommandDigest? && DecidedAs(decide, y.handler.journal.entries, d.command, y.registry.outcomes[d])
    {
      DecidedAsExtends(decide, x.handler.journal.entries, y.handler.journal.entries, d.command, y.registry.outcomes[d]);
    }
  }

  lemma CoverageExtends(x: Live, y: Live)
    requires CoverageInv(x)
    requires forall d :: d in x.registry.outcomes ==> d in y.registry.outcomes
    requires forall n :: Executes(x.handler, n) ==>
               || CommandDigest(x.handler.deliveries[n].phase.received.command) in y.registry.outcomes
               || (Executes(y.handler, n) && y.handler.deliveries[n] == x.handler.deliveries[n])
    requires forall e :: e in y.handler.journal.entries && e.Received? && e !in x.handler.journal.entries
               ==> BeingExecuted(y, e)
    ensures CoverageInv(y)
  {
    forall e | e in y.handler.journal.entries && e.Received?
      ensures CommandDigest(e.command) in y.registry.outcomes || BeingExecuted(y, e)
    {
      if e in x.handler.journal.entries && CommandDigest(e.command) !in y.registry.outcomes {
        var m :| Executes(x.handler, m) && x.handler.deliveries[m].phase.received == e;
        assert Executes(y.handler, m) && y.handler.deliveries[m].phase.received == e;
      }
    }
  }

  lemma ReceptionIsDecided(w: Wire, decide: Decider, x: Live, y: Live, e: Entry)
    requires PureDecider(decide) && LiveInv(w, decide, x) && e.Received? && e.command.operation != Drain
    requires y.handler.journal.entries == x.handler.journal.entries + [e]
    requires y.registry == decide(x.registry, e.command).0
    ensures RecordsInv(decide, y)
    ensures DecidedAt(decide, y.handler.journal.entries, |x.handler.journal.entries|, e.command,
                      decide(x.registry, e.command).1)
  {
    var before, after := x.handler.journal.entries, y.handler.journal.entries;
    DecideInOrderAppend(decide, before, e);
    var inOrder := DecideInOrder(decide, before);
    assert decide(x.registry, e.command).1 == decide(inOrder, e.command).1;
    assert after[..|before|] == before;
  }

  /** Delivery `n` is new, and its reception the last entry of the journal. */
  ghost predicate NewReception(x: Live, y: Live, n: nat, e: Entry) {
    && e.Received? && e.command.operation != Drain && e.command.commandId == e.commandId
    && n == x.handler.nextDelivery && !Executes(x.handler, n)
    && y.handler.journal.entries == x.handler.journal.entries + [e]
    && n in y.handler.deliveries && y.handler.deliveries == x.handler.deliveries[n := y.handler.deliveries[n]]
    && Executes(y.handler, n) && y.handler.deliveries[n].phase.received == e
  }

  lemma NewReceptionAnswers(decide: Decider, x: Live, y: Live, n: nat, e: Entry, outcome: Outcome)
    requires NewReception(x, y, n, e) && AnswersInv(decide, x) && y.answers == x.answers[n := outcome]
    requires DecidedAt(decide, y.handler.journal.entries, |x.handler.journal.entries|, e.command, outcome)
    ensures AnswersInv(decide, y)
  {
    AnswersExtend(decide, x, y, n);
  }

  lemma NewReceptionCoverage(x: Live, y: Live, n: nat, e: Entry)
    requires NewReception(x, y, n, e) && CoverageInv(x) && y.registry.outcomes == x.registry.outcomes
    ensures CoverageInv(y)
  {
    assert BeingExecuted(y, e);
    CoverageExtends(x, y);
  }

  lemma NewReceptionCompletions(x: Live, y: Live, n: nat, e: Entry)
    requires NewReception(x, y, n, e) && CompletionsInv(x) && ReceptionsInv(x)
             && y.registry.outcomes == x.registry.outcomes
    ensures CompletionsInv(y) && ReceptionsInv(y)
  {
    forall r | r in y.handler.journal.entries && r.Completed? ensures CompletionRemembered(y, r) {
      assert CompletionRemembered(x, r);
    }
  }

  /** A new delivery that writes its reception and decides it. */
  lemma NewReceptionKeepsInv(w: Wire, decide: Decider, x: Live, y: Live, n: nat, e: Entry)
    requires PureDecider(decide) && LiveInv(w, decide, x) && SupervisorInv(w, y.handler)
    requires NewReception(x, y, n, e)
    requires y.registry == decide(x.registry, e.command).0
             && y.answers == x.answers[n := decide(x.registry, e.command).1]
    ensures LiveInv(w, decide, y)
  {
    ReceptionIsDecided(w, decide, x, y, e);
    NewReceptionAnswers(decide, x, y, n, e, decide(x.registry, e.command).1);
    OutcomesExtend(decide, x, y);
    NewReceptionCoverage(x, y, n, e);
    NewReceptionCompletions(x, y, n, e);
  }

  /** The delivery of an unknown command is written and decided. */
  lemma FreshCommandKeepsInv(w: Wire, decide: Decider, x: Live, c: Command, mode: Mode, at: string)
    requires WireLaws(w) && PureDecider(decide) && LiveInv(w, decide, x) && LiveEnabled(w, x, LiveDeliver(c, mode, at))
    requires var h := DeliverSpec(w, x.handler, c, mode, at).0;
             var n := x.handler.nextDelivery;
             h.nextDelivery == n + 1 && Executes(h, n) && h.journal != x.handler.journal
    ensures LiveInv(w, decide, LiveNext(w, decide, x, LiveDeliver(c, mode, at)))
  {
    DeliverKeepsInv(w, x.handler, c, mode, at);
    PerformFacts(w, x.handler.journal, c, mode, at);
    NewCommandIsNotRemembered(w, decide, x, c);
    FreshDelivery(w, x.handler);
    NewReceptionKeepsInv(w, decide, x, LiveNext(w, decide, x, LiveDeliver(c, mode, at)), x.handler.nextDelivery,
                         ReceivedEntry(c, at, x.handler.journal.journalRevision + 1));
  }

  /** What a delivery that writes nothing leaves in the handler. */
  lemma QuietHandler(w: Wire, s: Supervisor, c: Command, mode: Mode, at: string)
    requires WireLaws(w) && SupervisorInv(w, s) && w.commandOk(c) && w.timeOk(at)
    requires var h := DeliverSpec(w, s, c, mode, at).0;
             h.nextDelivery == s.nextDelivery + 1 && !(Executes(h, s.nextDelivery) && h.journal != s.journal)
    ensures var h := DeliverSpec(w, s, c, mode, at).0;
            var n := s.nextDelivery;
            && SupervisorInv(w, h) && h.journal == s.journal
            && n in h.deliveries && h.deliveries == s.deliveries[n := h.deliveries[n]]
            && (Executes(h, n) ==>
                  var e := h.deliveries[n].phase.received;
                  && ReceivedIn(s.journal, e)
                  && (e.commandId !in s.inFlight || s.inFlight[e.commandId].digest != CommandDigest(e.command)))
  {
    DeliverKeepsInv(w, s, c, mode, at);
    PerformFacts(w, s.journal, c, mode, at);
  }

  /** A delivery that writes nothing settles at once or finds its command remembered. */
  lemma QuietCommandKeepsInv(w: Wire, decide: Decider, x: Live, c: Command, mode: Mode, at: string)
    requires WireLaws(w) && PureDecider(decide) && LiveInv(w, decide, x) && LiveEnabled(w, x, LiveDeliver(c, mode, at))
    requires var h := DeliverSpec(w, x.handler, c, mode, at).0;
             var n := x.handler.nextDelivery;
             h.nextDelivery == n + 1 && !(Executes(h, n) && h.journal != x.handler.journal)
    ensures LiveInv(w, decide, LiveNext(w, decide, x, LiveDeliver(c, mode, at)))
  {
    var n := x.handler.nextDelivery;
    var h := DeliverSpec(w, x.handler, c, mode, at).0;
    QuietHandler(w, x.handler, c, mode, at);
    if Executes(h, n) {
      KnownCommandIsRemembered(w, decide, x, h.deliveries[n].phase.received);
    }
    QuietNext(w, decide, x, c, mode, at);
    QuietDeliveryKeepsInv(w, decide, x, LiveNext(w, decide, x, LiveDeliver(c, mode, at)), n);
  }

  /** The next state where a new delivery finds its command remembered or settles. */
  lemma QuietNext(w: Wire, decide: Decider, x: Live, c: Command, mode: Mode, at: string)
    requires OutcomesInv(decide, x) && LiveEnabled(w, x, LiveDeliver(c, mode, at))
    requires var h := DeliverSpec(w, x.handler, c, mode, at).0;
             var n := x.handler.nextDelivery;
             h.nextDelivery == n + 1 && h.journal == x.handler.journal
             && (Executes(h, n) ==> CommandDigest(h.deliveries[n].phase.received.command) in x.registry.outcomes)
    ensures var y := LiveNext(w, decide, x, LiveDeliver(c, mode, at));
            var n := x.handler.nextDelivery;
            && y.handler == DeliverSpec(w, x.handler, c, mode, at).0 && y.registry == x.registry
            && (forall m :: m in x.answers && m != n ==> m in y.answers && y.answers[m] == x.answers[m])
            && (Executes(y.handler, n) ==>
                  n in y.answers
                  && DecidedAs(decide, y.handler.journal.entries, y.handler.deliveries[n].phase.received.command,
                               y.answers[n]))
  {
  }

  lemma LiveDeliverKeepsInv(w: Wire, decide: Decider, x: Live, c: Command, mode: Mode, at: string)
    requires WireLaws(w) && PureDecider(decide) && LiveInv(w, decide, x) && LiveEnabled(w, x, LiveDeliver(c, mode, at))
    ensures LiveInv(w, decide, LiveNext(w, decide, x, LiveDeliver(c, mode, at)))
  {
    var h := DeliverSpec(w, x.handler, c, mode, at).0;
    var n := x.handler.nextDelivery;
    if h.nextDelivery != n + 1 {
      assert LiveNext(w, decide, x, LiveDeliver(c, mode, at)) == x;
    } else if Executes(h, n) && h.journal != x.handler.journal {
      FreshCommandKeepsInv(w, decide, x, c, mode, at);
    } else {
      QuietCommandKeepsInv(w, decide, x, c, mode, at);
    }
  }

  /** A settled delivery: the outcome is remembered, and the journal is as it was or one
      completion longer, which carries that outcome. */
  ghost predicate SettledInto(x: Live, y: Live, n: nat)
    requires Executes(x.handler, n) && n in x.answers
  {
    var received := x.handler.deliveries[n].phase.received;
    var before, after := x.handler.journal.entries, y.handler.journal.entries;
    var answer := x.answers[n];
    && n in y.handler.deliveries && y.handler.deliveries[n].phase.Settled?
    && y.handler.deliveries == x.handler.deliveries[n := y.handler.deliveries[n]]
    && y.answers == x.answers
    && y.registry == x.registry.(outcomes := x.registry.outcomes[CommandDigest(received.command) := answer])
    && (after == before ||
        (&& |after| == |before| + 1 && after == before + [after[|before|]]
         && var e := after[|before|];
            e.Completed? && e.commandDigest == CommandDigest(received.command)
            && e.acknowledgement.result == answer.result && e.acknowledgement.failureCode == answer.failureCode))
  }

  lemma SettleShape(w: Wire, decide: Decider, x: Live, n: nat, at: string)
    requires WireLaws(w) && LiveInv(w, decide, x) && LiveEnabled(w, x, LiveSettle(n, at))
    ensures var y := LiveNext(w, decide, x, LiveSettle(n, at));
            SettledInto(x, y, n) && SupervisorInv(w, y.handler)
  {
    var received := x.handler.deliveries[n].phase.received;
    assert DeliveryInv(x.handler, n);
    SettleKeepsInv(w, x.handler, n, Some(x.answers[n]), at);
    SettleFacts(w, x.handler.journal, received, Some(x.answers[n]), at);
    ReceptionCarriesItsDigest(w, x.handler.journal, received);
  }

  lemma SettledRecords(decide: Decider, x: Live, y: Live, n: nat)
    requires Executes(x.handler, n) && n in x.answers && SettledInto(x, y, n) && RecordsInv(decide, x)
    ensures RecordsInv(decide, y)
  {
    var before, after := x.handler.journal.entries, y.handler.journal.entries;
    if after != before {
      DecideInOrderAppend(decide, before, after[|before|]);
    }
  }

  lemma SettledCompletions(w: Wire, decide: Decider, x: Live, y: Live, n: nat)
    requires PureDecider(decide) && LiveInv(w, decide, x)
    requires Executes(x.handler, n) && n in x.answers && SettledInto(x, y, n)
    ensures CompletionsInv(y)
  {
    var received := x.handler.deliveries[n].phase.received;
    assert DeliveryInv(x.handler, n);
    DecidedHasNoDraft(w, decide, x, received.command, x.answers[n]);
    forall r | r in y.handler.journal.entries && r.Completed? ensures CompletionRemembered(y, r) {
      if r in x.handler.journal.entries {
        assert CompletionRemembered(x, r);
        CompletionNamesItsCommand(w, decide, x, r, received);
      }
    }
  }

  lemma LiveSettleKeepsInv(w: Wire, decide: Decider, x: Live, n: nat, at: string)
    requires WireLaws(w) && PureDecider(decide) && LiveInv(w, decide, x) && LiveEnabled(w, x, LiveSettle(n, at))
    ensures LiveInv(w, decide, LiveNext(w, decide, x, LiveSettle(n, at)))
  {
    SettleShape(w, decide, x, n, at);
    SettledKeepsInv(w, decide, x, LiveNext(w, decide, x, LiveSettle(n, at)), n);
  }

  lemma SettledAnswers(decide: Decider, x: Live, y: Live, n: nat)
    requires AnswersInv(decide, x) && OutcomesInv(decide, x)
    requires Executes(x.handler, n) && n in x.answers && SettledInto(x, y, n)
    ensures AnswersInv(decide, y) && OutcomesInv(decide, y)
  {
    AnswersExtend(decide, x, y, n);
    OutcomesExtend(decide, x, y);
  }

  lemma SettledCoverage(x: Live, y: Live, n: nat)
    requires CoverageInv(x) && ReceptionsInv(x)
    requires Executes(x.handler, n) && n in x.answers && SettledInto(x, y, n)
    ensures CoverageInv(y) && ReceptionsInv(y)
  {
    CoverageExtends(x, y);
  }

  lemma SettledKeepsInv(w: Wire, decide: Decider, x: Live, y: Live, n: nat)
    requires PureDecider(decide) && LiveInv(w, decide, x) && SupervisorInv(w, y.handler)
    requires Executes(x.handler, n) && n in x.answers && SettledInto(x, y, n)
    ensures LiveInv(w, decide, y)
  {
    SettledRecords(decide, x, y, n);
    SettledAnswers(decide, x, y, n);
    SettledCoverage(x, y, n);
    SettledCompletions(w, decide, x, y, n);
  }

  /** A completion with a reception's digest is a completion of that reception's command. */
  lemma CompletionNamesItsCommand(w: Wire, decide: Decider, x: Live, e: Entry, received: Entry)
    requires LiveInv(w, decide, x) && e in x.handler.journal.entries && e.Completed?
    requires ReceivedIn(x.handler.journal, received)
    ensures e.commandDigest == CommandDigest(received.command) ==> e.commandId == received.commandId
  {
    var entries := x.handler.journal.entries;
    LookupIsUnique(w, entries, e);
    ReceptionCarriesItsDigest(w, x.handler.journal, LookupIn(entries, e.commandId).received.value);
  }

  lemma LiveFinalizeKeepsInv(w: Wire, decide: Decider, x: Live, n: nat)
    requires LiveInv(w, decide, x) && LiveEnabled(w, x, LiveFinalize(n))
    ensures LiveInv(w, decide, LiveNext(w, decide, x, LiveFinalize(n)))
  {
    var y := LiveNext(w, decide, x, LiveFinalize(n));
    FinalizeKeepsInv(w, x.handler, n);
    assert forall m :: Executes(y.handler, m) <==> Executes(x.handler, m);
    forall e | e in y.handler.journal.entries && e.Received?
      ensures CommandDigest(e.command) in y.registry.outcomes || BeingExecuted(y, e)
    {
      if CommandDigest(e.command) !in x.registry.outcomes {
        var m :| Executes(x.handler, m) && x.handler.deliveries[m].phase.received == e;
        assert Executes(y.handler, m) && y.handler.deliveries[m].phase.received == e;
      }
    }
    forall e | e in y.handler.journal.entries && e.Completed? ensures CompletionRemembered(y, e) {
      assert CompletionRemembered(x, e);
    }
  }

  lemma {:induction false} LiveRunKeepsInv(w: Wire, decide: Decider, x: Live, events: seq<LiveEvent>)
    requires WireLaws(w) && PureDecider(decide) && LiveInv(w, decide, x) && LiveRun(w, decide, x, events)
    ensures LiveInv(w, decide, LiveAfter(w, decide, x, events))
    decreases |events|
  {
    if events == [] {
    } else {
      match events[0] {
        case LiveDeliver(c, mode, at) => LiveDeliverKeepsInv(w, decide, x, c, mode, at);
        case LiveSettle(n, at) => LiveSettleKeepsInv(w, decide, x, n, at);
        case LiveFinalize(n) => LiveFinalizeKeepsInv(w, decide, x, n);
      }
      LiveRunKeepsInv(w, decide, LiveNext(w, decide, x, events[0]), events[1..]);
    }
  }
}
