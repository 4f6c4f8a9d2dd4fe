# iweb: the wasm supervisor's protocols and contracts, modelled and proved

iweb is a personal application node. This project models the hard logic of its wasm
supervisor and of the typed contracts under it, and proves what they are relied on for.

| Part | Modules | Main results |
|---|---|---|
| Execution journal and double compare-and-swap | `ExecutionTypes`, `ExecutionJournal`, `ExecutionRpc`, `ExecutionRuns`, `ExecutionAnswers`, `ControlStore`, `ControlDecisions`, `ControlSystem` | an acknowledgement told once is the stored one for ever; in every reachable state each delivery is answered exactly as the journal and the table of calls in flight say; executor calls for a command never overlap; acknowledged in the outbox means completed in the journal, over a lossy and duplicating channel with crashes on both sides |
| Fence executor and recovery | `FenceExecutor`, `FenceInvariants`, `FenceDecisions`, `FenceLive`, `FenceRecovery`, `FenceResume` | each command is applied exactly under stated conditions and touches one tuple; invariants of every reachable registry; only adoption moves the pointer while no two accepted tuples tie; rebuilding from the journal recovers the live registry and every completed outcome; a command resumed after a crash is answered as it was first decided exactly under a stated condition on the records then and now |
| Catalog store | `RuntimeCatalog`, `CatalogDecisions`, `CatalogRevocation`, `CatalogIndex`, `CatalogFiles`, `CatalogStore`, `CatalogSafety`, `CatalogHistory`, `CatalogCrash`, `CatalogLimits`, `CatalogLimitRuns` | every operation of every run, cut after any single write, is atomic; a collection leaves an openable store exactly if no second audit stands for its revision, and keeps the current number exactly if it is below it; history is conserved over runs whose collections do both, and runs from an empty directory show either one failing; a revocation can be undone exactly after an update that drops its key |
| Wasm closure | `ByteReader`, `WitCapability`, `ClosureWalk`, `WasmClosure`, `ClosureDepth`, `ClosureVerdict`, `ClosureValidator`, `ScannedGraph`, `ScannerSpec`, `ScanVerdict`, `ScanMeaning`, `ClosureScanner` | a graph is accepted if and only if the stated conditions on its imports, exports and declarations hold; LEB128 reading is exactly the standard's grammar; CYCLE exactly when a cycle is reachable; accepted imports resolve; scanned graphs are trees, so two rejections never happen and the depth budget is exact; a component is scanned exactly under stated conditions |
| Key-value service | `HostKv`, `HostKvPages` | a writer commits exactly if it is up to date; each page is exactly described; following the cursor enumerates the visible entries, each once, exactly when each fits a page; versions rise and stale writers conflict |
| Restore, package digest, egress | `NodeRestore`, `PackageDigest`, `PackageCollection`, `AddressPrefix`, `AddressText`, `EgressPolicy` | the directory swap is all or nothing under any fault pattern, and its rollback fails only by a fault of its own; the digest stream is uniquely decodable; the accepted IPv6 text is exactly described against the forms of section 2.2 of RFC 4291; range tests against 128-bit prefixes |

`Basics`, `ByteOrder`, `Decimal` and `Text` hold what several parts share: optional values and
results, byte order, decimal text, split and join.

## How it is modelled

* Code that changes state step by step is imperative Dafny: the stores, the handler, the
  registry, the executor, the closure walker, the scanner's context, the byte reader and the
  restore's file system are classes, and each method is proved against a specification function or
  predicate. Theorems over runs are about those specifications.
* The asynchronous handler suspends at one point only, the call to the executor. `Deliver` runs
  up to it, `Settle` from its answer on, `Finalize` is the clean-up that follows; a promise is an
  entry of `deliveries`. A crash keeps the journal file and drops everything else.
* The catalog directory is three maps from file names to parsed objects, and the index file. Each
  write is one atomic rename or one delete; a ghost trace records them, and `Performs` says
  which list of writes an operation performs. A crash is any prefix of that list.
* SHA-256 and the canonical JSON encoding are free constructors (equal digests, equal preimages).
  The field validators of the wire types are function-valued parameters; correlation is
  field-wise equality. Timestamps are integers.

## Where the code differs from its own notes

* `supervisor/wasm-executor.ts:1346` says the current pointer only moves with adoption. The code
  compares the execution generation alone (lines 203-208), so an update of an older tuple with
  an equal generation moves the pointer back. `FenceInvariants.PointerFallsBackOnTie` is such a
  run, `UpdateMovesPointerIffTie` the exact condition, `OnlyAdoptionMovesPointer` what holds
  otherwise.
* `supervisor/wasm-control.ts:584` says a completed command redelivered is always told its stored
  acknowledgement. While another body under its id is in flight, itself refused, it is refused as a
  conflict: `ExecutionAnswers.CompletedCommandIsToldItsAcknowledgement` is the exact condition,
  `ExecutionAnswers.ConflictHidesCompletion` such a run.
* `supervisor/wasm-executor.ts:1344-1345` says a resume after a restart agrees with the first
  execution. It does not always: an applied prepare that another one overtook is stale on resume, a
  start refused as not prepared and a stale stop are applied once a prepare came in between
  (`FenceResume.ResumeAfterCrashMayDiffer`). `FenceResume.ResumeAgreesIff` is the exact condition,
  for every journal and every unfinished prepare, start and stop in it, on the current and the
  accepted record before the reception and at the restart; `CrashedCallAgreesIff` is the same for
  the answer a crashed executor call had reached. Where no registry since the reception has a tie
  the condition is simpler: `TieFreeResumeAgreesIff`. For a stop it can be told from the entries in
  between: `StopAgreesIff`.
* `packages/contracts/wasm-capability.ts:369` counts depth as nodes on a path, but a finished
  node is not walked again, so a longer path may go unmeasured: `ClosureDepth.AcceptedBeyondDepth`
  is a graph the whole validator accepts beyond its depth budget. The measured depth is that of the
  longest path exactly when some longest path is the depth-first path to its last node
  (`ClosureDepth.MeasuresLongestIff`), which holds wherever each node has one parent
  (`ClosureDepth.TreeDepthIsLongest`). Scanned graphs are such trees, and there the depth step
  rejects exactly the graphs with a path beyond the budget (`ScannedGraph.ScannedDepthIsExact`).
* A second audit for one revision makes the catalog's cross-check fail for every later open:
  `CatalogLimits.CollectionStaysOpenIff` is the exact condition, and `CatalogLimitRuns.SecondDeleteIdLocks`
  gets there by bootstrap, release, append and a collection cut after its audit, by collecting
  again under another delete id. Collecting the current revision lowers the number the next append
  continues from: `CatalogLimits.CollectionKeepsCurrentIff` is the exact condition, and after
  bootstrap, append, release and such a collection the next append stores a second record under
  one number (`CatalogLimitRuns.CollectedNumberIsIssuedAgain`). The store checks neither before it
  writes; the first is answered with the corrupt code only after the writes.
* `packages/contracts/egress-policy.ts:106-107` says a dotted quad is accepted as the final group
  only. The code asks that it be the last token of its side of the `::`, so `0:0:0:0:0:255.255.1.2::`
  is accepted and judged as 1.2.0.0: `AddressText.ExpandsExactly` is the grammar the code accepts,
  `EgressPolicy.QuadLeftIsShifted` says what such a text is judged by.
* `packages/contracts/wasm-catalog.ts:466` says a revoked binding cannot be reactivated. A revoked
  entry that an append drops and a later append lists again is active again
  (`RuntimeCatalog.DroppedRevocationIsForgotten`). The exact condition is that some update does not
  list every revoked key of the catalog it is applied to: `CatalogRevocation.ReactivableIffDropped`
  for one update, `CatalogRevocation.ReactivatesIffUnguarded` for chains. A caller can check it
  before an append.
* The package digest depends on the order in which files with one path and two contents are
  listed (`PackageDigest.OrderDoesNotMatterIff`); `collectPackage` refuses such listings.

## Model

| member | source | states |
|---|---|---|
| ExecutionJournal.ValidateJournal | supervisor/wasm-control.ts:305-380 | the validating loop with its filled sets accepts exactly the journals whose every entry follows from the earlier ones: dense revisions, one reception and at most one later completion per command, correlated |
| ExecutionJournal.FindIn | supervisor/wasm-control.ts:479-488 | the scan returns the last reception and completion of the command |
| ExecutionJournal.WasmExecutionJournalStore.AppendReceived | supervisor/wasm-control.ts:423-443 | writes one reception at the next revision under the expected one, or answers a conflict and writes nothing |
| ExecutionJournal.WasmExecutionJournalStore.AppendCompleted | supervisor/wasm-control.ts:447-477 | writes the one completion of a received command, or hands back the stored one |
| ExecutionJournal.ReceivedAppendThrowsOnlyWhenFull | supervisor/wasm-control.ts:423-443 | on a valid journal and an unknown valid command the failed-validation throw is reached exactly at the revision maximum |
| ExecutionJournal.CompletedAppendNeverThrows | supervisor/wasm-control.ts:447-477 | completing a received command with a correlated acknowledgement never reaches the failed-validation throw below the maximum |
| ExecutionJournal.OneCompletion | supervisor/wasm-control.ts:305-380 | in a valid journal two completions of one command are the same entry |
| ExecutionRpc.DraftAcknowledgement | supervisor/wasm-control.ts:540-571 | an acknowledgement formed from an outcome correlates with its command and carries the outcome's result and failure code and the given revision |
| ExecutionRpc.AcknowledgementFormedIff | supervisor/wasm-control.ts:527-571 | an acknowledgement is formed exactly when a drain receipt is carried by an applied drain only, and is valid, and the acknowledgement that tells the outcome is valid on the wire |
| ExecutionRpc.ExecutionRpcHandler.PerformDelivery | supervisor/wasm-control.ts:621-661 | lookup, conflict, replay and reception branches up to the executor call |
| ExecutionRpc.ExecutionRpcHandler.Deliver | supervisor/wasm-control.ts:663-688 | a delivery in flight with the same digest is joined, another digest conflicts, otherwise one starts |
| ExecutionRpc.ExecutionRpcHandler.Settle | supervisor/wasm-control.ts:589-619 | the rest of resume: outcome checked, completed in the journal, answered |
| ExecutionRpc.ExecutionRpcHandler.Query | supervisor/wasm-control.ts:697-709 | query reads the journal only and changes nothing |
| ExecutionRuns.RunKeepsInv | supervisor/wasm-control.ts:573-715 | every step of every run keeps the supervisor invariant and extends the journal |
| ExecutionRuns.AcknowledgementIsFinal | supervisor/wasm-control.ts:589-688 | over every interleaving of deliveries, replays, failures and crashes, an acknowledgement ever told is the stored one at every later time, and the only one |
| ExecutionRuns.ExecutorCallsNeverOverlap | supervisor/wasm-control.ts:589-688 | no two executor calls of one process are for one command, none for a completed one, each after its reception is stored |
| ExecutionRuns.JournalOfEveryRun | supervisor/wasm-control.ts:305-380 | every journal of a run validates, extends the first, completes a command at most once, and no append has thrown below the maximum |
| ExecutionRuns.ReceptionRevision | supervisor/wasm-control.ts:621-661 | a delivery writes only a reception, in command mode, at expectedJournalRevision + 1 |
| ExecutionRuns.CrashedCommandResumes | supervisor/wasm-control.ts:589-661 | after a crash a received, incomplete command runs the executor again and completes |
| ExecutionAnswers.JournalIff | supervisor/wasm-control.ts:305-380 | a journal is accepted exactly if its entries are well formed and numbered densely, no two of one kind are for one command, and each completion follows its reception with its digest |
| ExecutionAnswers.ReceptionIsDecided | supervisor/wasm-control.ts:423-443 | a conflict at any other revision than the head, else the one new entry if the longer journal is accepted |
| ExecutionAnswers.CompletionIsDecided | supervisor/wasm-control.ts:449-477 | the stored completion is handed back; without a reception under the digest, or without an acknowledgement, it throws; else the one new entry |
| ExecutionAnswers.PerformJudges | supervisor/wasm-control.ts:621-661 | what a journal knows of a command decides its delivery: completed under its digest, the stored acknowledgement; received under another digest, the id conflict; received only, its execution; unknown, 404 for a replay, and for a command the head conflict, the full journal, or a reception that executes |
| ExecutionAnswers.CompletedCommandIsToldItsAcknowledgement | supervisor/wasm-control.ts:624-628 | in every reachable state a completed command, redelivered or replayed, writes nothing and is told exactly its stored acknowledgement, unless another body is in flight under its id |
| ExecutionAnswers.ConflictHidesCompletion | supervisor/wasm-control.ts:663-688 | a run in which a completed command is refused as a conflict because another body under its id, refused too, is still in flight |
| ExecutionAnswers.OtherBodyIsRefused | supervisor/wasm-control.ts:624-634 | in every reachable state another body under a known id is the 409 conflict and writes nothing |
| ExecutionAnswers.ReceivedCommandIsResumed | supervisor/wasm-control.ts:630-635 | in every reachable state a received, incomplete command executes its reception, or joins the call in flight; nothing is written |
| ExecutionAnswers.UnknownCommandIsJudged | supervisor/wasm-control.ts:636-683 | in every reachable state an unknown command joins its own body in flight, is not found as a replay, is refused at the wrong head, or is received and executed |
| ExecutionAnswers.AnswersCorrelate | supervisor/wasm-control.ts:584-609 | whatever a delivery is answered, in any state reached from a journal whose acknowledgements echo their commands, echoes the command it was asked for |
| ExecutionAnswers.PromisedIsForTheSameBody | supervisor/wasm-control.ts:663-688 | a caller is refused at once exactly if another body is in flight, and is otherwise promised a delivery of the very body it sent |
| ExecutionAnswers.SettleConcludes | supervisor/wasm-control.ts:589-609 | an executor that threw, an outcome that tells nothing valid, or one new completion with the acknowledgement that tells the outcome |
| ExecutionAnswers.ExecutorAnswerIsStored | supervisor/wasm-control.ts:589-609 | the same for every delivery inside the executor, in every state of the invariant; nothing else of the delivery changes |
| ExecutionAnswers.QueryTells | supervisor/wasm-control.ts:697-710 | a query tells nothing, the reception, or the reception and the completion of its digest, exactly as the journal holds them |
| ControlStore.ValidateControl | supervisor/wasm-control.ts:143-152 | a control file is read only if its records validate and their ids differ |
| ControlStore.WasmControlStateStore.Commit | supervisor/wasm-control.ts:157-175 | a commit under the current revision writes the mutation with the revision raised by one; refused or unchanged ones write nothing |
| ControlStore.WasmControlStateStore.AppendOutboxCommand | supervisor/wasm-control.ts:179-189 | appends a pending record once per command |
| ControlStore.WasmControlStateStore.ProjectAcknowledgement | supervisor/wasm-control.ts:194-209 | marks the correlated record acknowledged, or refuses |
| ControlStore.ProjectKeeps | supervisor/wasm-control.ts:194-209 | projecting changes delivery states only, to acknowledged, of the correlated command; terminal states stay |
| ControlStore.ProjectSucceeds | supervisor/wasm-control.ts:194-209 | a correlated acknowledgement of a live record is projected |
| ControlDecisions.CommitDecides | supervisor/wasm-control.ts:157-175 | a conflict at any other revision or at the last one, else the mutation's refusal, else the mutated state one revision up if it validates |
| ControlDecisions.AppendDecides | supervisor/wasm-control.ts:179-189 | a valid new command at the current revision is appended as pending; a known id is a duplicate, another revision a conflict, and nothing is written |
| ControlDecisions.ProjectDecides | supervisor/wasm-control.ts:194-209 | the refusals of a projection that names no record |
| ControlDecisions.ProjectionOfRecord | supervisor/wasm-control.ts:194-209 | the answer for the record an acknowledgement names: conflict, already acknowledged, or acknowledged one revision up |
| ControlSystem.StepKeepsInv | supervisor/wasm-control.ts:157-209 | every step of Kernel, channel and supervisor keeps the joint invariant; a successful commit raises the revision by exactly one |
| ControlSystem.DoubleCasSafety | supervisor/wasm-control.ts:157-715 | with loss, duplication and crashes, acknowledged implies completed in the journal with that command's digest; terminal records stay; ids stay unique |
| FenceExecutor.WasmExecutionFenceRegistry.Adopt | supervisor/wasm-executor.ts:174-200 | the tuple becomes current and accepted with a fresh record |
| FenceExecutor.WasmExecutionFenceRegistry.SyncCurrentIfNotNewer | supervisor/wasm-executor.ts:203-208 | the pointer follows an update whose generation is at least the current one's |
| FenceExecutor.WasmExecutionFenceRegistry.UpdateSubstate | supervisor/wasm-executor.ts:231-244 | the substate and high-water mark of the accepted record, and the pointer as above |
| FenceExecutor.WasmSupervisorExecutor.DrainPreflight | supervisor/wasm-executor.ts:647-662 | the four refusals of a drain in order |
| FenceExecutor.WasmSupervisorExecutor.Decide | supervisor/wasm-executor.ts:942-1057 | the decision and the new registry for each operation |
| FenceExecutor.WasmSupervisorExecutor.Execute | supervisor/wasm-executor.ts:664-680 | a remembered outcome is returned and nothing decided; otherwise decided and remembered |
| FenceExecutor.WasmSupervisorExecutor.constructor | supervisor/wasm-executor.ts:1072-1085 | the journal is replayed entry by entry |
| FenceDecisions.DrainIsApplied | supervisor/wasm-executor.ts:991-1047 | a drain is applied exactly to an accepted, unstopped tuple with its pins, a retirement record for it, and a provable time and count; up to the deadline it retires and nothing was killed, past it it is stopped and killed at the completion time; the receipt tells the command, the record and the facts; nothing else changes |
| FenceDecisions.DrainIsRejected | supervisor/wasm-executor.ts:647-680 | any other drain forms no receipt; a tuple that could be drained retires all the same; each refusal has its code |
| FenceDecisions.PrepareIsDecided | supervisor/wasm-executor.ts:944-968 | a prepare adopts into a fresh sandbox, repeats the current tuple without effect, supersedes a tuple it does not regress from, or is stale |
| FenceDecisions.StartIsDecided | supervisor/wasm-executor.ts:969-990 | a start runs the current tuple with its pins, adopts one that regresses in no generation, or is stale or not prepared |
| FenceDecisions.StopIsDecided | supervisor/wasm-executor.ts:1048-1057 | a stop stops exactly an accepted tuple with the command's pins |
| FenceDecisions.OutcomeIsRemembered | supervisor/wasm-executor.ts:664-700 | executing the same bytes again, whatever was executed since and whatever the facts, answers the first outcome and decides nothing |
| FenceInvariants.FenceNextKeepsInv | supervisor/wasm-executor.ts:152-258 | each event keeps: current records are accepted records, no accepted tuple of the sandbox has a larger E, current E never falls |
| FenceInvariants.FenceRunKeepsInv | supervisor/wasm-executor.ts:942-1057 | the same in every reachable registry |
| FenceInvariants.UpdateMovesPointerIffTie | supervisor/wasm-executor.ts:203-208 | an update moves the pointer to another tuple exactly when the updated tuple ties with the current one on E |
| FenceInvariants.PointerFallsBackOnTie | supervisor/wasm-executor.ts:231-244 | a run in which stopping an older tuple moves the pointer back |
| FenceInvariants.OnlyAdoptionMovesPointer | supervisor/wasm-executor.ts:942-1057 | if every adoption raises E, only adoptions move a pointer |
| FenceInvariants.OneTupleTakesTraffic | supervisor/wasm-executor.ts:1227-1231 | at most one tuple of a sandbox takes traffic; it is accepted, running and of the largest E |
| FenceInvariants.TrafficReturnsIff | supervisor/wasm-executor.ts:203-258 | a tuple out of traffic comes back exactly by an applied start naming it, or by an annotation of it while its own record is running and it ties with the current tuple on E |
| FenceInvariants.StoppedStaysOut | supervisor/wasm-executor.ts:1227-1231 | a tuple whose own record is not running comes back to traffic only by a start naming it |
| FenceLive.LiveRunKeepsInv | supervisor/wasm-executor.ts:664-680 | in crash-free runs of handler and executor the registry is the journal's receptions decided in order |
| FenceRecovery.RebuildMatchesDecisions | supervisor/wasm-executor.ts:1072-1085 | replaying the journal gives the fence of deciding its receptions in order |
| FenceRecovery.RebuildRecoversLiveRegistry | supervisor/wasm-executor.ts:1072-1085 | after any crash-free run the rebuilt registry has the live pointers, tuples and substates, and executing a completed command again returns its earlier outcome |
| FenceResume.DecidingAgainAtHead | supervisor/wasm-executor.ts:1072-1080 | deciding the newest reception again answers the same and changes nothing |
| FenceResume.ResumeAgreesIff | supervisor/wasm-executor.ts:1344-1345 | for every journal and every prepare, start or stop received in it and not completed, executing it on the rebuilt registry answers what was decided at its reception exactly when the stated condition holds of the current and accepted records before the reception and at the restart |
| FenceResume.CrashedCallAgreesIff | supervisor/wasm-executor.ts:1065-1085 | after any crash-free run the answer an open executor call had reached is the one its resume gives after a crash exactly under that condition |
| FenceResume.TieFreeResumeAgreesIff | supervisor/wasm-executor.ts:942-1057 | while nothing ties: a stale prepare or start stays stale, an applied one agrees while its tuple is current, an applied stop always agrees, a start refused as not prepared agrees while nothing is prepared |
| FenceResume.StopAgreesIff | supervisor/wasm-executor.ts:1048-1057 | an unfinished stop is answered on resume as at first exactly if no entry since its reception adopted its tuple, or the last one that did has the stop's pins just where the stop was applied at first |
| FenceResume.ResumeAfterCrashMayDiffer | supervisor/wasm-executor.ts:1072-1085 | journals after which a resumed prepare, start and stop is answered differently |
| RuntimeCatalog.RequireEntries | packages/contracts/wasm-catalog.ts:283-312 | comparing neighbours accepts exactly the valid, strictly sorted lists |
| RuntimeCatalog.AppendResult | packages/contracts/wasm-catalog.ts:434-472 | a successful append is the given payload one revision up under the right pin; protected keys stay, revocations of listed entries stay |
| RuntimeCatalog.RevokeSucceeds | packages/contracts/wasm-catalog.ts:478-503 | revoking an active entry with the right pin succeeds exactly below the maximum and changes that entry only |
| RuntimeCatalog.UpdateStep | packages/contracts/wasm-catalog.ts:434-503 | one update raises the revision by one or changes nothing; a stale pin changes nothing |
| RuntimeCatalog.ChainKeeps | packages/contracts/wasm-catalog.ts:434-503 | along any chain a key protected at every append stays listed, a revocation stays while its entry is listed, the revision counts the successes |
| RuntimeCatalog.DroppedRevocationIsForgotten | packages/contracts/wasm-catalog.ts:434-472 | the dropping of a revoked entry followed by its listing makes it active |
| CatalogRevocation.ReactivableIffDropped | packages/contracts/wasm-catalog.ts:460-468 | after an accepted update of a catalog with a revoked entry, and with room and a revision left, some next update lists its key with another status or revocation exactly when the first one dropped the key |
| CatalogRevocation.ReactivatesIffUnguarded | packages/contracts/wasm-catalog.ts:434-503 | along a chain of updates some revocation can be undone from some later catalog exactly when some update did not list every revoked key of its catalog |
| RuntimeCatalog.ReleaseEntry | packages/contracts/wasm-catalog.ts:1001-1035 | a receipt names the requested entry, listed and unreferenced in that catalog, with the owner and times of the request, and keeps it a year |
| RuntimeCatalog.CollectRevision | packages/contracts/wasm-catalog.ts:1118-1168 | an audit is backed by a receipt for the record whose retention has elapsed, with nothing referring to the revision |
| ByteOrder.FirstDifferenceDecides | packages/contracts/package-collection.ts:98-102 | the order of Buffer.compare: the first byte that differs decides, a proper prefix comes first |
| CatalogDecisions.SealDecides | packages/contracts/wasm-catalog.ts:283-330 | a payload is sealed exactly with a revision in range and at most 128 valid entries in strictly ascending byte order of their keys |
| CatalogDecisions.AppendDecides | packages/contracts/wasm-catalog.ts:434-472 | an append seals its payload exactly under the current pin, one revision up, valid, dropping nothing referred to and changing no revocation; each refusal has its code, in order |
| CatalogDecisions.RevokeDecides | packages/contracts/wasm-catalog.ts:478-503 | a revocation is refused exactly for a bad key or revocation, a key not listed, an entry revoked already, a stale pin, or at the last revision |
| CatalogDecisions.ReleaseDecides | packages/contracts/wasm-catalog.ts:1001-1035 | a release is granted exactly for a listed entry nothing refers to, with valid ids and times in order; the receipt names that entry, the owner and the times, and keeps it a year |
| CatalogDecisions.CollectDecides | packages/contracts/wasm-catalog.ts:1118-1168 | a revision is collected exactly under a receipt for it and one of its entries, referred to by nothing and out of retention; the audit says who deleted what, when and why |
| CatalogDecisions.ReleaseAgain | supervisor/wasm-catalog-store.ts:670-713 | on the files a granted release leaves the store opens, the same request finds the receipt it asked for, and asking again stores no other object |
| CatalogDecisions.GcAgain | supervisor/wasm-catalog-store.ts:715-782 | on the files a granted collection leaves the same request is answered by its own audit and stores no other object |
| CatalogIndex.ValidateIndex | packages/contracts/wasm-catalog.ts:734-798 | the validator accepts exactly rising entries with the pointer at the highest present one |
| CatalogIndex.SameCoreIffSameRows | supervisor/wasm-catalog-store.ts:360-367 | two valid indexes have one semantic core exactly when they list the same rows |
| CatalogIndex.AssembledRows | supervisor/wasm-catalog-store.ts:323-358 | the assembled index lists a present row per record and a deleted row per audit whose record is gone |
| CatalogStore.AssembledTells | supervisor/wasm-catalog-store.ts:311-358 | a present entry counts the references to its revision, a deleted one tells when its audit says it was deleted, both tell the latest retention of their receipts |
| CatalogIndex.AssembledIsOk | supervisor/wasm-catalog-store.ts:323-358 | assembling objects with distinct revisions passes the validator |
| CatalogFiles.RebuildLooksAtObjects | supervisor/wasm-catalog-store.ts:388-435 | a rebuild answers what the history objects alone stand for |
| CatalogStore.WasmCatalogStore.CrossCheckAudits | supervisor/wasm-catalog-store.ts:281-297 | accepts exactly audits backed by receipts, one for each revision |
| CatalogStore.WasmCatalogStore.CrossCheckReceipts | supervisor/wasm-catalog-store.ts:299-309 | accepts exactly receipts whose revision is present or audited |
| CatalogStore.WasmCatalogStore.RecoverState | supervisor/wasm-catalog-store.ts:388-435 | answers what `OpenSpec` or `RebuildSpec` says and writes at most a repaired index |
| CatalogStore.WasmCatalogStore.RecoverForMutation | supervisor/wasm-catalog-store.ts:797-799 | recovered files hold the same objects, with a missing or unreadable index put back and nothing else written |
| CatalogStore.WasmCatalogStore.Open | supervisor/wasm-catalog-store.ts:590-592 | opens to the current catalog, or refuses, and performs the open |
| CatalogStore.WasmCatalogStore.RebuildIndex | supervisor/wasm-catalog-store.ts:785-791 | performs the rebuild |
| CatalogStore.WasmCatalogStore.Bootstrap | supervisor/wasm-catalog-store.ts:639-650 | stores a first revision in an empty store only |
| CatalogStore.WasmCatalogStore.Append | supervisor/wasm-catalog-store.ts:652-659 | succeeds exactly when the store opens, holds a catalog and the append is accepted |
| CatalogStore.WasmCatalogStore.Revoke | supervisor/wasm-catalog-store.ts:661-668 | likewise for a revocation |
| CatalogStore.WasmCatalogStore.Release | supervisor/wasm-catalog-store.ts:670-713 | succeeds exactly when the store opens and either the same request's receipt is stored or a new release is accepted; the receipt is the request's own, a new one for an entry of the current catalog nothing refers to, kept a year; each refusal has its code |
| CatalogStore.WasmCatalogStore.Gc | supervisor/wasm-catalog-store.ts:715-782 | audit first, then the delete, then the index; succeeds exactly when the store opens and either the request's own audit stands for a collected file or the collection is accepted and no other audit stands for the revision; a success leaves the audit and no revision file |
| CatalogSafety.SafeWriteKeepsStore | supervisor/wasm-catalog-store.ts:280-309 | every single safe write keeps the objects checked and cross-checked |
| CatalogSafety.PerformedWritesAreSafe | supervisor/wasm-catalog-store.ts:639-836 | all writes of an operation are safe at the point where they happen, unless it stores a second audit for its revision; they keep the accounts of the history if it collects below the current revision |
| CatalogSafety.TwoAuditsLockTheStore | supervisor/wasm-catalog-store.ts:281-297 | with two audits for one revision no open, rebuild or operation ever succeeds or writes |
| CatalogSafety.RunKeepsInv | supervisor/wasm-catalog-store.ts:639-836 | over every run, with any collections, crashes after any write and damaged index files, the objects check or a second audit locks the store |
| CatalogHistory.SafeWriteKeepsInv | supervisor/wasm-catalog-store.ts:280-309 | every single conserving write keeps objects, cross-checks and the accounts of all records ever stored |
| CatalogHistory.HistoryKeepsInv | supervisor/wasm-catalog-store.ts:639-836 | the invariant over every run with crashes after any write and damaged index files, whose collections stay below the current revision and store no second audit |
| CatalogHistory.NextNumberIsNew | supervisor/wasm-catalog-store.ts:801-818 | while the history is conserved, the number of a record stored next is that of no audit |
| CatalogHistory.HistoryIsConserved | supervisor/wasm-catalog-store.ts:715-782 | over such a run every record ever stored is present unchanged or has exactly one audit, with its digest, backed by a receipt whose retention had elapsed; revision numbers are never reused |
| CatalogCrash.EveryCutIsAtomic | supervisor/wasm-catalog-store.ts:639-836 | cut after any write, opening gives the state before or after, or refuses as divergent and rebuilding gives the state after |
| CatalogCrash.EveryCutOfEveryRunIsAtomic | supervisor/wasm-catalog-store.ts:639-836 | the same in every state reachable from an empty directory, by any operations and collections and with earlier crashes and damaged index files |
| CatalogCrash.PendingAuditIsInvisible | supervisor/wasm-catalog-store.ts:323-358 | an audit whose revision file is still there changes nothing that opening shows |
| CatalogCrash.CompletedOpens | supervisor/wasm-catalog-store.ts:801-827 | an operation that wrote anything, unless a second audit, leaves a store that opens to its object writes |
| CatalogCrash.StoredCatalogIsCurrent | supervisor/wasm-catalog-store.ts:801-818 | after bootstrap, append or revoke the stored catalog is current and one row is new; it replaces the row of a collected revision exactly where its number was that of an audit |
| CatalogCrash.CollectedRowIsDeleted | supervisor/wasm-catalog-store.ts:715-782 | after a collection one present row has become a deleted one, and the catalog is the same if the revision was below the current one |
| CatalogLimits.PendingCollectionCompletes | supervisor/wasm-catalog-store.ts:715-782 | re-entering a collection cut after its audit ends where the uninterrupted one does |
| CatalogLimits.CollectionStaysOpenIff | supervisor/wasm-catalog-store.ts:715-782 | a collection, of the current revision too, leaves an openable store exactly when no other audit stood for the revision; otherwise nothing gets past it |
| CatalogLimits.CollectionKeepsCurrentIff | supervisor/wasm-catalog-store.ts:715-782 | a collection keeps the current number exactly when it is below it; otherwise the next append reissues one |
| CatalogLimitRuns.SecondDeleteIdLocks | supervisor/wasm-catalog-store.ts:715-782 | a run from an empty directory, all of its collections within limits, after which the store opens and a collection under another delete id locks it |
| CatalogLimitRuns.CollectedNumberIsIssuedAgain | supervisor/wasm-catalog-store.ts:715-782 | a run from an empty directory that collects the current revision: the number drops from 2 to 1, and an append stores another record numbered 2 |
| ByteReader.UnsignedIff | packages/contracts/wasm-closure-scanner.ts:120-132 | the loop's condition on bytes and value is exactly the unsigned grammar of section 5.2.2 of the WebAssembly Core Specification |
| ByteReader.SignedIff | packages/contracts/wasm-closure-scanner.ts:135-149 | likewise for the signed grammar |
| ByteReader.EncodingIsUnambiguous | packages/contracts/wasm-closure-scanner.ts:120-149 | a byte string encodes one number at most |
| ByteReader.UnsignedEncoderIsRight | packages/contracts/wasm-closure-scanner.ts:120-132 | the shortest encoder's output is an encoding of its number |
| ByteReader.SignedEncoderIsRight | packages/contracts/wasm-closure-scanner.ts:135-149 | likewise for signed numbers |
| ByteReader.ByteReader.Take | packages/contracts/wasm-closure-scanner.ts:102-111 | takes exactly the next bytes or fails at the end, never past it |
| ByteReader.ByteReader.U32 | packages/contracts/wasm-closure-scanner.ts:120-132 | accepts exactly the 32-bit unsigned encodings and reads each whole; the error tells truncation from a bad encoding |
| ByteReader.ByteReader.S33 | packages/contracts/wasm-closure-scanner.ts:135-149 | accepts exactly the 33-bit signed encodings |
| ByteReader.ByteReader.ReadingInvertsEncoding | packages/contracts/wasm-closure-scanner.ts:120-132 | reading what the encoder wrote returns the number and stops behind it |
| ByteReader.ByteReader.SignedReadingInvertsEncoding | packages/contracts/wasm-closure-scanner.ts:135-149 | likewise for signed numbers |
| WitCapability.NormalizedParts | packages/contracts/wasm-capability.ts:38-48 | a well-formed package text yields exactly its namespace, name and version |
| WitCapability.CapabilityKeyInjective | packages/contracts/wasm-capability.ts:50-56 | capabilities of well-formed packages with one key are the same capability, direction included |
| WitCapability.SortedResult | packages/contracts/wasm-capability.ts:60-69 | sorting a list without duplicates gives a strictly ascending list |
| WitCapability.AllowedIffListed | packages/contracts/wasm-capability.ts:264-282 | an import is allowed exactly when the matrix lists it, version included |
| WitCapability.RejectionTellsWhy | packages/contracts/wasm-capability.ts:264-282 | each rejection code comes exactly for its reason: the root export, another version of a listed interface, an unknown or ill-formed interface |
| WitCapability.RevisionOneIsOk | packages/contracts/wasm-capability.ts:132-153 | the revision-1 matrix lists one version per package and not its root export |
| ClosureWalk.Walker.HasNoCycle | packages/contracts/wasm-capability.ts:379-392 | the in-place walk computes the depth-first specification and terminates |
| ClosureWalk.WalkFindsCycles | packages/contracts/wasm-capability.ts:379-393 | the walk fails exactly when a cycle is reachable from the entry |
| ClosureWalk.MeasuredDepth | packages/contracts/wasm-capability.ts:379-394 | the measured depth is that of a real path, and every reachable node is reached by a path no longer |
| ClosureWalk.LongerPathGoesUnmeasured | packages/contracts/wasm-capability.ts:379-394 | a graph with a path longer than the measured depth |
| ClosureDepth.MeasuresLongestIff | packages/contracts/wasm-capability.ts:379-394 | the measured depth is the length of the longest path exactly when some longest path is the depth-first path to its last node |
| ClosureDepth.BudgetExactly | packages/contracts/wasm-capability.ts:369-394 | BUDGET_EXCEEDED exactly when a count is over budget, or no cycle is reachable and a depth-first path is too long, world, ABI and integrity passing |
| ClosureDepth.TreeDepthIsLongest | packages/contracts/wasm-capability.ts:379-394 | where no node has two parents, no path is longer than the measured depth |
| ClosureDepth.AcceptedBeyondDepth | packages/contracts/wasm-capability.ts:369-394 | a graph every step accepts although a path has more nodes than the depth budget |
| WasmClosure.ProvidersRecordFirst | packages/contracts/wasm-capability.ts:425-438 | exactly the offering nodes other than the importer are recorded, each with the type of its first offer |
| WasmClosure.CycleExactly | packages/contracts/wasm-capability.ts:350-394 | CYCLE exactly when world, ABI, integrity and counts pass and a cycle is reachable |
| WasmClosure.BudgetIsReal | packages/contracts/wasm-capability.ts:369-394 | a budget rejection is witnessed by a count or by a real path with more nodes than allowed; past it, every reachable node is within depth |
| WasmClosure.AcceptedImportsResolve | packages/contracts/wasm-capability.ts:415-451 | every accepted import has exactly one provider, another node, of its own type, or is a declared exact matrix entry |
| WasmClosure.DeclaredAreDiscovered | packages/contracts/wasm-capability.ts:462-476 | in an accepted graph the declared imports are, as a set, the discovered ones |
| WasmClosure.RootExportIsExact | packages/contracts/wasm-capability.ts:453-460 | the entry of an accepted graph exports the matrix root export only |
| ClosureVerdict.AcceptedIff | packages/contracts/wasm-capability.ts:348-479 | a graph is accepted if and only if it is structured, no raw import is left over, every occurrence is well formed and in its direction, every import is met by one provider of its type inside or by an exact matrix entry, the entry exports the root export only, and the declared imports are those asked of the host |
| ClosureVerdict.RawImportsDecide | packages/contracts/wasm-capability.ts:396-415 | past the structure, the first node that leaves a raw import over decides: external import of an adapter, unmappable import of a core module |
| ClosureVerdict.AcceptedRawImportsAreMet | packages/contracts/wasm-capability.ts:396-415 | in an accepted graph an adapter's raw imports are translated by some node, a core module's are translated or bound by the module itself |
| ClosureVerdict.ImportVerdict | packages/contracts/wasm-capability.ts:428-455 | the code of an import, told from who exports the interface with which type |
| ClosureVerdict.OccurrencesDecide | packages/contracts/wasm-capability.ts:417-456 | past the raw imports the first faulty occurrence, node by node, decides the code |
| ClosureVerdict.OtherCodes | packages/contracts/wasm-capability.ts:350-479 | world, ABI and integrity come first; past all occurrences a wrong root export, then a wrong declaration |
| ClosureValidator.CheckGraph | packages/contracts/wasm-capability.ts:357-367 | accepts exactly graphs with distinct ids, a present entry and no dangling edge |
| ClosureValidator.CollectProviders | packages/contracts/wasm-capability.ts:425-438 | the nested loops compute the provider map or meet a bad offer |
| ClosureValidator.CheckOccurrences | packages/contracts/wasm-capability.ts:415-451 | the first failing occurrence in order gives the code; otherwise the discovered set |
| ClosureValidator.CheckDeclarations | packages/contracts/wasm-capability.ts:462-476 | accepts exactly declarations of the right shape that name the discovered set |
| ClosureValidator.ValidateWasmCapabilityClosure | packages/contracts/wasm-capability.ts:350-479 | rejects with the first failing step's code, accepts exactly if there is none, and returns the discovered imports sorted without duplicates |
| ScannedGraph.ScannedGraphIsAcyclic | packages/contracts/wasm-closure-scanner.ts:634-647 | a graph whose edges rise in allocation order has no cycle |
| ScannedGraph.ScannedGraphIsRooted | packages/contracts/wasm-closure-scanner.ts:634-842 | every node of a scanned graph is reachable from the entry |
| ScannedGraph.ScannedNeverInvalidOrCyclic | packages/contracts/wasm-closure-scanner.ts:1243-1249 | on a scanned graph the validator never answers CYCLE or GRAPH_INVALID |
| ScannedGraph.ScannedGraphIsATree | packages/contracts/wasm-closure-scanner.ts:677-682 | no node of a scanned graph has two parents |
| ScannedGraph.ScannedDepthIsExact | packages/contracts/wasm-closure-scanner.ts:1243-1249 | on a scanned graph within its counts the validator answers BUDGET_EXCEEDED exactly when a path is longer than the depth budget |
| ScannerSpec.NestedLinksRise | packages/contracts/wasm-closure-scanner.ts:677-682 | links lead from lower to higher allocation numbers within those allocated |
| ScannerSpec.NestedAreLinked | packages/contracts/wasm-closure-scanner.ts:677-682 | every nested component is the target of a link |
| ScannerSpec.ListedIsLinked | packages/contracts/wasm-closure-scanner.ts:683-696 | an instantiated component was linked when it was parsed |
| ScannerSpec.AliasIsNested | packages/contracts/wasm-closure-scanner.ts:976-990 | a provider alias is a component nested in the exporting one |
| ScannerSpec.DivergedTagsDiffer | packages/contracts/wasm-closure-scanner.ts:1082-1106 | occurrences of a diverged interface never share a tag |
| ScannerSpec.OneLinkPerTarget | packages/contracts/wasm-closure-scanner.ts:641-647 | two links to one number are the same link: components nest in one place, modules have one owner |
| ScannerSpec.MatchedGraphHasShape | packages/contracts/wasm-closure-scanner.ts:1034-1202 | the graph of a component is numbered, rising and rooted, each node with one parent, with non-empty tags and existing aliases |
| ScannerSpec.ResolvedImportsAreSatisfied | packages/contracts/wasm-closure-scanner.ts:1082-1106 | an import resolved inside the closure is satisfied by every export of its interface |
| ScanVerdict.ScannedIff | packages/contracts/wasm-closure-scanner.ts:634-842 | a component is scanned exactly if no item is malformed, nesting, nodes and edges are within budget, the entry imports typed interfaces only and exports once, and every typed import is decodable |
| ScanVerdict.GraphOfMatches | packages/contracts/wasm-closure-scanner.ts:1034-1202 | the graph built in scanning order is the one the component's nesting and modules stand for |
| ScanMeaning.ScopesAre | packages/contracts/wasm-closure-scanner.ts:649-842 | the scope of node i is that of the i-th component in order of parsing, each before what is nested in it |
| ScanMeaning.NestedNumber | packages/contracts/wasm-closure-scanner.ts:683-696 | the component an item nests has the next number behind its component and all that earlier items nest |
| ScanMeaning.ComponentsAre | packages/contracts/wasm-closure-scanner.ts:700-842 | a component index refers to the nested component's node, or to none of this graph |
| ScanMeaning.LinksAre | packages/contracts/wasm-closure-scanner.ts:683-696 | a component is linked exactly to what its items nest, by number |
| ScanMeaning.InstancesAre | packages/contracts/wasm-closure-scanner.ts:700-842 | an instance index refers to the item that defined it; an exported instance has the provenance of the one it exports |
| ScanMeaning.AliasIsProvider | packages/contracts/wasm-closure-scanner.ts:976-990 | a re-export is attributed to a nested component exactly if the chain of re-exports, however long, ends at an instance of it: the counter cuts no chain that ends |
| ScanMeaning.ImportDraftAt | packages/contracts/wasm-closure-scanner.ts:1060-1081 | each typed import that decodes is one occurrence of its component's node, in order |
| ScanMeaning.ExportDraftAt | packages/contracts/wasm-closure-scanner.ts:1060-1081 | each typed export is one occurrence of its component's node, naming the component it re-exports, behind the imports |
| ScanMeaning.InterfacesAre | packages/contracts/wasm-closure-scanner.ts:1094-1106 | a node lists its occurrences in their order |
| ScanMeaning.TagsAgreeIff | packages/contracts/wasm-closure-scanner.ts:1082-1106 | two occurrences of one interface carry one tag exactly if every import of it is satisfied by every export of it |
| ScanMeaning.OccurrenceIs | packages/contracts/wasm-closure-scanner.ts:1094-1106 | an occurrence names its interface, direction and, for a re-export, the node it re-exports |
| ScanMeaning.ComponentNodeIs | packages/contracts/wasm-closure-scanner.ts:1107-1110 | a component node carries the occurrences of its component and nothing else |
| ScanMeaning.ModuleAt | packages/contracts/wasm-closure-scanner.ts:1149-1190 | every embedded module is listed once with its component, in order |
| ScanMeaning.ModuleNodeIs | packages/contracts/wasm-closure-scanner.ts:1149-1190 | a module node says what its facts say and is linked from its component |
| ScanMeaning.EntryIsTyped | packages/contracts/wasm-closure-scanner.ts:1048-1058 | what the scan asks of the entry, on its own items |
| ScanMeaning.AllDecodableIff | packages/contracts/wasm-closure-scanner.ts:1063-1070 | every typed import decodes exactly if no item of any component is a typed import without a decodable instance type |
| ScanMeaning.ScanCodeTells | packages/contracts/wasm-closure-scanner.ts:634-1202 | why a component is not scanned, each reason with its code: nesting over budget, the first malformed item, an untyped import or a wrong number of exports of the entry, an undecodable instance type, modules over budget |
| ClosureScanner.ParseContext.AllocateNode | packages/contracts/wasm-closure-scanner.ts:634-639 | the next number, refused exactly when the node budget is used up |
| ClosureScanner.ParseContext.AddLink | packages/contracts/wasm-closure-scanner.ts:641-647 | a link is kept once; a new one is refused exactly when the edge budget is used up |
| ClosureScanner.ParseContext.ParseComponent | packages/contracts/wasm-closure-scanner.ts:649-842 | the scopes, nodes and links of the whole component tree in order of parsing, or the code of the first failure in that order |
| ClosureScanner.ParseContext.AddModules | packages/contracts/wasm-closure-scanner.ts:1149-1190 | one node and one link for each embedded module, refused exactly when they do not all fit |
| ClosureScanner.FindDiverged | packages/contracts/wasm-closure-scanner.ts:1086-1093 | the interfaces with an import some export of the same name does not satisfy |
| ClosureScanner.GroupInterfaces | packages/contracts/wasm-closure-scanner.ts:1094-1106 | each node's occurrences in order with their tags |
| ClosureScanner.ScanWasmClosure | packages/contracts/wasm-closure-scanner.ts:1034-1202 | the graph of the component, or the code of the first failure |
| ClosureScanner.ScanAndValidateWasmClosure | packages/contracts/wasm-closure-scanner.ts:1243-1249 | the scan's code, or else the validator's on the component's graph; accepted exactly when neither fails; never CYCLE or GRAPH_INVALID; discovers exactly the declared imports |
| HostKv.VersionsRise | packages/contracts/wasm-host-kv.ts:138-159 | over any run the version rises by at least one with each commit |
| HostKv.StaleWriterConflicts | packages/contracts/wasm-host-kv.ts:138-159 | a writer expecting a version that anything, a tombstone included, has replaced conflicts |
| HostKvPages.CasDecides | packages/contracts/wasm-host-kv.ts:138-159 | a mutation commits its version exactly if nothing is expected or exactly the stored version is, and it rises; it conflicts exactly if another version is expected; it is unavailable exactly otherwise |
| HostKvPages.UpToDateWriterCommits | packages/contracts/wasm-host-kv.ts:138-159 | after any run a writer that read the stored version commits the next one, until the maximum |
| HostKvPages.CursorDecides | packages/contracts/wasm-host-kv.ts:254-284 | a cursor is out of scope, expired or valid exactly then, scope first |
| HostKvPages.CollectableIff | packages/contracts/wasm-host-kv.ts:383-403 | a tombstone may go exactly if nothing refers to it, all times are in range, and both windows have passed since the delete |
| HostKv.ExhaustedKeyIsFrozen | packages/contracts/wasm-host-kv.ts:138-159 | at the maximum nothing commits, versions never wrap |
| HostKv.TombstoneOutlivesCursors | packages/contracts/wasm-host-kv.ts:383-403 | once a tombstone may be collected, no cursor from before its delete or its replay window is valid again |
| HostKv.PlanIwebKvListPage | packages/contracts/wasm-host-kv.ts:323-376 | the loops compute the page specification: visible, sorted, after the key, bounded |
| HostKv.PageAt | packages/contracts/wasm-host-kv.ts:355-376 | a page is the next entries within count and bytes and its cursor leads behind them |
| HostKvPages.PageIsExact | packages/contracts/wasm-host-kv.ts:323-376 | for any cursor key: refused exactly for arguments or data no listing accepts or a first entry no page can hold; else as many of the visible entries behind the key as fit, in byte order, with a cursor exactly if something is left |
| HostKv.ListingEnumeratesVisible | packages/contracts/wasm-host-kv.ts:293-376 | following the cursor ends and enumerates the visible entries in byte order, each once, exactly when each alone fits the cap |
| NodeRestore.MovedSubs | scripts/node-backup.ts:570 | a rename that succeeds carries the subtree, empties its source and leaves unrelated subtrees |
| NodeRestore.BackupIO.Rename | scripts/node-backup.ts:570 | succeeds exactly without a fault, with a source, a parent of the target, and a target that is absent, a file for a file or an empty directory for a directory |
| NodeRestore.MoveAside | scripts/node-backup.ts:471-477 | old directories moved aside one by one, every parent made; stops at the first fault |
| NodeRestore.MoveIn | scripts/node-backup.ts:478-481 | staged trees moved in one by one; stops at the first fault or missing staged tree |
| NodeRestore.UndoSwap | scripts/node-backup.ts:446-456 | one swap is put back exactly, unless a call of the undo itself fails, and then its old contents are not lost |
| NodeRestore.RollbackRestore | scripts/node-backup.ts:444-459 | in reverse order every destination is put back; it fails only if a call of its own fails, and then old contents are at least not lost |
| NodeRestore.ReplaceDirectories | scripts/node-backup.ts:461-489 | done, rolled back or failed: destinations hold the staged trees, are exactly restored, or have lost nothing; nothing else changes but added parents; done means no fault and every staged tree there, the rollback starts behind the first fault or missing tree, and fails only by a later fault |
| PackageDigest.DecodeOfStream | packages/contracts/package-collection.ts:223-236 | for NUL-free paths decoding the stream gives back every path and content |
| PackageDigest.DigestDeterminesFiles | packages/contracts/package-collection.ts:217-236 | two digests agree exactly when the sorted lists do |
| PackageDigest.CanonicalIsStable | packages/contracts/package-collection.ts:223-227 | sorting keeps the order of files with one path |
| PackageDigest.OrderDoesNotMatterIff | packages/contracts/package-collection.ts:223-236 | the stream is the same for every input order exactly when files of one path have one content |
| PackageDigest.OneFileStream | packages/contracts/package-collection.ts:217-236 | the bytes hashed for one small file |
| PackageDigest.PackageFilesDigest | packages/contracts/package-collection.ts:223-236 | the updates fed to the hash are that stream |
| PackageCollection.NormalizingAgain | packages/contracts/package-collection.ts:57-62 | a normalized path is its own normal form |
| PackageCollection.SafeIff | packages/contracts/package-collection.ts:46-53 | a path is safe exactly if it is relative, of 1 to 512 characters, without control characters and without a segment that leads upwards |
| PackageCollection.NormalSegments | packages/contracts/package-collection.ts:57-62 | the normal form has exactly the path's segments that lead somewhere; that of a safe path leads upwards nowhere |
| PackageCollection.CheckListing | packages/contracts/package-collection.ts:70-90 | no error exactly for safe, distinct, bounded listings; the running total is the sum |
| PackageCollection.ReadFile | packages/contracts/package-collection.ts:104-150 | a file is read exactly if it is regular, of the declared size before, in and after reading, and unchanged meanwhile |
| PackageCollection.CollectPackage | packages/contracts/package-collection.ts:70-186 | collected exactly when listing, reads and manifest, its raw text included, all check; the digest is that of the files as listed |
| PackageCollection.AdmittedIff | packages/contracts/package-collection.ts:70-184 | a package is admitted exactly with at most 10000 plain files of at most 64 MiB each and 512 MiB in all, under safe paths no two of which normalize alike, each read whole and unchanged, and a manifest whose entry point is listed under its assets root and whose raw text is canonical |
| PackageCollection.ListingOrderDoesNotMatter | packages/contracts/package-collection.ts:98-102 | the listing order changes neither verdict nor digest |
| AddressText.ParseIpv4 | packages/contracts/egress-policy.ts:65-77 | the loop computes the octets |
| AddressText.Ipv4Exactly | packages/contracts/egress-policy.ts:65-77 | accepts exactly the canonical dotted quads and returns their octets |
| AddressText.ParseGroups | packages/contracts/egress-policy.ts:115-136 | the loop over the tokens of one side |
| AddressText.ExpandsExactly | packages/contracts/egress-policy.ts:108-156 | exactly forms 1 and 2 of section 2.2 of RFC 4291 are accepted, and both with a dotted quad for the last two groups of either side where that makes a mapped or compatible address; the eight groups are returned |
| AddressText.CaseDoesNotMatter | packages/contracts/egress-policy.ts:108-110 | capital letters may be written small |
| AddressText.QuadMayEndLeftSide | packages/contracts/egress-policy.ts:104-156 | `0:0:0:0:0:255.255.a.b::` is accepted, a dotted quad that is not the final group |
| AddressPrefix.PrefixByGroups | packages/contracts/egress-policy.ts:185-203 | membership of the whole number in a prefix, group by group |
| EgressPolicy.ReservedIpv4IsPrefixMembership | packages/contracts/egress-policy.ts:84-100 | the octet tests are membership of the 32-bit address in the listed prefixes |
| EgressPolicy.HexOrder | packages/contracts/egress-policy.ts:183-188 | for padded groups text order is number order |
| EgressPolicy.ReservedIpv6IsPrefixMembership | packages/contracts/egress-policy.ts:185-203 | the text tests are membership of the 128-bit address in the listed prefixes |
| EgressPolicy.MappedIsPrefixMembership | packages/contracts/egress-policy.ts:158-161 | the test for a mapped address is membership of the 128-bit address in ::ffff:0:0/96 |
| EgressPolicy.CompatibleIsPrefixMembership | packages/contracts/egress-policy.ts:163-166 | the test for a compatible address is membership in ::/96 |
| EgressPolicy.TrimIsMiddle | packages/contracts/egress-policy.ts:211-213 | trimming drops the white space at both ends and nothing else |
| EgressPolicy.ClassOf | packages/contracts/egress-policy.ts:211-230 | the four classes told from the prefixes: blank is invalid, no global address is reserved, a global one has version 6 exactly with a colon and outside ::ffff:0:0/96 |
| EgressPolicy.QuadLeftIsShifted | packages/contracts/egress-policy.ts:104-230 | that text is judged as the IPv4 address a.b.0.0 |
| EgressPolicy.GlobalIffOutsidePrefixes | packages/contracts/egress-policy.ts:211-230 | an address is global exactly when its text is an address outside all listed prefixes; a mapped one is judged by its low 32 bits |

## Left out

- FenceRecovery.RebuildRecoversLiveRegistry: runs of prepare, start and stop; the replay of a drain depends on the clock at replay time and is kept as a parameter of `Decide` only.
- FenceResume.ResumeAgreesIff: a resumed drain depends on the clock and the ledger at that time; journals may hold drains, the resumed command is a prepare, start or stop.
- FenceRecovery.RebuildMatchesDecisions: listen indices are allocated at prepare in live runs and only at start in recovery, so they are not compared.
- NodeRestore.ReplaceDirectories: destinations, staged trees and backup names are taken to be distinct and not nested; a failing call is taken to change nothing, so a partly made chain of parents is not modelled; a file standing where a parent directory should be made is not either.
- HostKv.PlanIwebKvListPage: keys are text of the key grammar, one byte a character; the base64 wire form of values is not modelled.
- ScannerSpec.ResolvedImportsAreSatisfied: the instance subtype test is a parameter and shapes are their canonical text; rendering component types and the shape of an instance are not modelled.
- ClosureScanner.ScanWasmClosure: a component comes as its decoded items; section framing, component names and the matching of raw imports to instance members come with the items. A self-referential instance alias, which the source stops by its caught stack overflow, is a malformed item.
- PackageCollection.CollectPackage: the canonical manifest text, and what a text parses to, come with the manifest; the digest clause needs an encoding that tells the listed paths apart, which ill-formed strings do not.
- AddressText.ExpandsExactly: lower-casing is on ASCII letters.
- ExecutionRuns.RunKeepsInv: the re-read after a reception conflict inside one tick is unreachable in a single process and is modelled as the conflict answer.
- ExecutionJournal.ValidateJournal: the source does not compare a reception's commandId with its command's, and neither does the model.
- Real side effects of prepare, start and stop, readiness probing, metrics and log capture: foreign calls.
- Exhaustion of the listen-index pool.
- Files of the catalog store that cannot be read or parsed: only the index may be missing, unreadable or stale; object files are parsed values, and index digests follow from their values.
- Which code is answered when an object file is corrupt and the store divergent as well.
- Directory listing order, and `hostServiceBindingFence`.
- The node capability record, host service limits, runtime spawn arguments, host logging and manifest field validators: long bounds checks that would add only easy members.
- Quota decisions of the key-value service: sums against bounds.
- Creating backups, archive members and tree digests; only the committing swap of a restore is modelled.
- Sockets, relays, HTTP framing, process signals, pid files, the admin console, the website and one-off scripts.
