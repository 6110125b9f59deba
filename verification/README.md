# A verified model of the go-scada core

Dafny models of the parts of go-scada whose behaviour spans many operations, each with the
properties the code is there for:

- **Alerts** (`alert/`). `AlertService.Service` is the service object: definitions by config
  subject, the derived indexes `byOutput` and `parents`, the canonical states and the dirty set,
  updated in place by one event at a time. Its methods are proved against steps on values
  (`AlertLedger`: what is configured, known and published), and the theorems are about those steps:
  acyclic summaries and exact indexes after every run, the initial fixed point, the breadth-first
  pass over ancestors, nested summaries, the acknowledgement walk, the lifecycle of one alert, and
  the loop in which the service receives its own publications. `AlertEvaluator` and
  `AlertIntervals` hold the evaluators, `Dependencies` the cycle search, and `AlertCatalogUpdates`,
  `AlertReconfiguration`, `AlertInputs`, `AlertPasses` and `AlertReconcile` the specifications of the
  service's operations. `AlertProperties` says exactly when a property message leaves every summary
  up to date, `AlertAnswers` how a message is answered and which summaries agree afterwards,
  `AlertPublications` that what the service holds is what it has published, `AlertReturns` which
  events of a run keep every alert restorable, `AlertAgreement` and `AlertDisplay` that every leaf
  shows what its input means at every point of every run. `AlertExamples` drives the service into
  the configurations where it falls short.
- **Modbus** (`modbus/`). `ModbusGroup` packs points into requests and proves that no plan needs
  fewer; `ModbusReader` reads and decodes the groups in place and agrees with reading each point
  alone; `ModbusService` keeps the running pollers equal to a rebuild from scratch.
- **Retained values** (`retain/store.go`). `RetainStore` is the write-behind store with concurrent
  puts, one flush in flight, failing flushes and closing.
- **Streams** (`stream/`). `StreamOrder` is the sharded worker pool, `StreamDelivery` the filter for
  duplicate and stale messages.
- **Simulator** (`simulator/node-red/lib/simulator.js`). `SimulatorNoise` is the plants' noise
  generators and the control flow that draws from them.

Clocks, id generators, device answers, flush outcomes and the success of a publication are
parameters; a quantified statement ranges over all of them. Maps whose iteration order Go leaves
open are iterated in any order.

Where the code and its documentation disagree, or the code falls short of what it is for, the model
follows the code:

- `GLOSSARY.md:82-83` says an episode continues when an alarm becomes active again before it is
  acknowledged. The code starts a new episode on every activation (`alert/evaluator.go:220-232`);
  `AlertLifecycle.EveryRunIsLawful` states that.
- `README.md:206-210` defines what a summary shows from its members. After an accepted
  acknowledgement of a summary the service evaluates only what is above it
  (`alert/service.go:664-697`), so the summary itself can keep listing a member that is neither
  active nor pending any more. `AlertStaleness.AcknowledgedSummarySettlesExactly` gives the exact
  condition, and `AlertExamples.AcknowledgeLingering` is a run of four messages that ends so.
- One breadth-first pass (`alert/service.go:758-775`) does not always bring every summary up to
  date. `AlertAncestors.OnePassRestoresExactly` gives the exact condition on the visit order, which
  is known before the pass; equal path lengths imply it (`AlertAncestors.EqualPathsRestore`), and
  `AlertExamples.ConfigureDiamond` builds a configuration where it fails from two messages.
- A property message shares the set of visited summaries between the passes of several leaves
  (`alert/service.go:384-390`), so a summary above two of them can miss the second.
  `AlertProperties.PassesSettleExactly` gives the exact condition, and
  `AlertExamples.AnnounceProperties` is a run of four messages that ends with such a summary.
- The promise that a client's write is answered by the canonical state (`README.md:242-246`) holds
  for every queue of messages if and only if the canonical state survives encoding and, while
  pending, has an episode id (`AlertDelivery.RestoredExactlyWhenReturnable`). The service can come
  to hold other states in two ways. It adopts states from outside as they stand
  (`alert/service.go:485-499`, `alert/service.go:664-697`), also with a time written with an explicit
  zero offset, which it then republishes without end (`AlertExamples.AdoptForeignTime`). And a summary
  over a member that is gone but not acknowledged is pending without an episode, which its output
  keeps when the summary is replaced by a leaf (`AlertExamples.ReplacePendingSummary`).
  `AlertReturns.RunKeepsReturning` says for every run exactly which events are harmless.
- `stream/subscribe.go:41-62` is meant to let through nothing older than what it let through before.
  The last message let through is always the newest that arrived only on the condition of
  `StreamDelivery.LastAcceptedIsNewestExactly`.
- `Stop` closes the workers' queues while a dispatch may still choose to send
  (`stream/interest.go:123-145`, `stream/interest.go:211-217`), which ends the process:
  `StreamOrder.CrashesExactly`.

Check everything with `dafny verify dfyconfig.toml` (Dafny 4.11).

## Model

| member | source | states |
|---|---|---|
| `AlertModel.DerivedSubjectsAreInjective` | alert/protocol.go:100-119 | two different config subjects never derive the same input subject or the same output subject |
| `AlertEvaluator.EvaluateSummary` | alert/evaluator.go:141-188 | the loop computes the summary function for members that all have a valid state, and fails on an invalid configuration, a missing member or an invalid member state |
| `AlertEvaluator.SummaryMeaning` | alert/evaluator.go:141-188 | active or pending exactly when some member is; the live members listed in configured order; presentation and text of the dominant member, which is active if any is and has the greatest priority, the first of equals |
| `AlertEvaluator.LiveMembers` | alert/evaluator.go:141-188 | the listed members are exactly the active or pending ones, without duplicates |
| `AlertEvaluator.SummaryIsWellFormed` | alert/evaluator.go:141-188 | a summary of valid member states always is an evaluation the lifecycle accepts |
| `AlertEvaluator.SummaryFrame` | alert/evaluator.go:141-188 | a summary depends on nothing but its members' states |
| `AlertEvaluator.SelectedIsWellFormed` | alert/evaluator.go:13-38 | whatever mapping or interval a value selects, the outcome is an evaluation the lifecycle accepts |
| `AlertEvaluator.BinaryMeaning` | alert/evaluator.go:13-38 | a binary alert is active exactly on its bad value, with the text of the mapping for that value and, field by field, its properties; it fails exactly when these are missing or invalid |
| `AlertEvaluator.ApplyNeverFails` | alert/evaluator.go:192-257 | on a valid state and an evaluator's result the lifecycle step succeeds and yields a valid state |
| `AlertEvaluator.AgreementIsFixedPoint` | alert/evaluator.go:192-257 | a state agrees with an evaluation exactly when applying it again, at any time and with any id, changes nothing |
| `AlertEvaluator.ApplyIsIdempotent` | alert/evaluator.go:192-257 | one application always reaches that fixed point |
| `AlertLifecycle.StepIsLawful` | alert/evaluator.go:192-280 | one evaluation of a valid state, or one acknowledgement request, obeys the laws of content, pending flag, episode and each of the three times, and keeps a healthy state healthy |
| `AlertLifecycle.EveryRunIsLawful` | alert/evaluator.go:192-280 | over every run from no state: states stay valid, acknowledged is the opposite of pending, the episode id is set exactly when the came time is; every evaluation shows in the state; a new episode is pending exactly if the evaluation is or asks for an acknowledgement, and later only a matching acknowledgement ends that; each time is set by its own event and otherwise kept |
| `AlertLifecycle.TimesAreOrdered` | alert/evaluator.go:192-280 | under a clock that never runs backwards came is not after went and not after acknowledged |
| `AlertIntervals.BoundariesPassed` | alert/protocol.go:225-258 | the number of boundaries not exceeding a value is an interval index |
| `AlertIntervals.IntervalsPartition` | alert/protocol.go:225-286 | a validated configuration partitions the number line: exactly one interval contains a value, and its index is the number of boundaries not exceeding it |
| `AlertIntervals.ScanIntervals` | alert/evaluator.go:42-104 | the linear scan finds that interval, never reports an uncovered value, and returns its activity, text and properties, or fails exactly when it is active without usable properties |
| `AlertIntervals.EvaluateValue` | alert/evaluator.go:107-138 | both typed evaluators, with every error case (wrong type, not finite, invalid configuration); otherwise whichever interval contains the number decides; "not covered" never occurs |
| `AlertIntervals.ContainingIntervalDecides` | alert/evaluator.go:310-327 | some interval contains the number, and each that does gives the result its activity, text and the fields of its properties |
| `AlertIntervals.ValueMeaning` | alert/evaluator.go:107-138 | a value alert fails on an input that is no number of its type; for any other the containing interval decides |
| `Dependencies.CycleSearch.Visit` | alert/service.go:797-822 | the search with its two mark sets terminates, and either finds a closed path or finishes the nodes below in topological order |
| `Dependencies.FindCycle` | alert/service.go:797-822 | run for a summary just added to an acyclic graph, it reports a cycle exactly when the graph now has one |
| `Dependencies.NoCycleFrom` | alert/service.go:797-822 | no cycle starts at a node finished in topological order |
| `Dependencies.AddSummary` | alert/service.go:797-822 | any cycle made by adding one summary passes through it, so one search is enough |
| `Dependencies.SubgraphStaysAcyclic` | alert/service.go:501-514 | removing summaries never creates a cycle |
| `Dependencies.AcyclicOrder` | alert/service.go:777-795 | an acyclic graph has a duplicate-free topological order of exactly its summaries |
| `AlertLedger.ApplyChangesOutput` | alert/service.go:620-662 | applying an evaluation makes the output agree with it and touches no other state |
| `AlertLedger.EvaluationIsWellFormed` | alert/service.go:569-618 | whatever kind of definition is evaluated, the result is one the lifecycle accepts |
| `AlertLedger.EvaluateChangesOutput` | alert/service.go:569-618 | evaluating any definition keeps all states valid and touches its own output only |
| `AlertLedger.WalkFrame` | alert/service.go:758-775 | a walk over summaries leaves every other output alone |
| `AlertSummaries.SettledIsFixedPoint` | alert/service.go:598-641 | a summary agrees with its members exactly when evaluating it again, at any time and with any id, changes no state |
| `AlertSummaries.EvaluationKeepsSettled` | alert/service.go:598-641 | evaluating one summary keeps another settled unless it is a member of it |
| `AlertSummaries.NestedSummariesAreFlat` | alert/evaluator.go:141-188 | settled summaries nested to any depth: active exactly when some leaf below is active, with the greatest priority among those leaves |
| `AlertSummaries.SettledSummariesAreFlat` | alert/service.go:598-617 | the same for every summary of a properly configured service |
| `AlertSummaries.PendingRises` | alert/evaluator.go:141-188 | a pending state makes every settled summary above it pending, at any depth |
| `AlertAncestors.VisitsOnce` | alert/service.go:758-775 | the breadth-first loop visits nothing twice and nothing already seen |
| `AlertAncestors.VisitOrderIsTheAncestors` | alert/service.go:758-775 | it visits exactly the summaries above the changed output, each once, for any graph |
| `AlertAncestors.OnePassRestoresExactly` | alert/service.go:758-775 | one pass settles every summary again after any change of the output, from any settled start, if and only if in the visit order every summary comes after the visited summaries it lists |
| `AlertAncestors.StrayDependentIsStale` | alert/service.go:758-775 | otherwise raising one alarm in a quiet plant leaves a summary stale |
| `AlertAncestors.EqualPathsRestore` | alert/service.go:758-775 | when all paths from the output up to each ancestor have equal length, one pass restores agreement |
| `AlertExamples.DiamondIsNotRestored` | alert/service.go:758-775 | in any sound configuration, one pass does not restore a diamond whose upper summary was configured first |
| `AlertExamples.ConfigureDiamond` | alert/service.go:410-483 | the service itself builds such a diamond from two configuration messages, for any three names |
| `AlertStaleness.AcknowledgedTreeSettlesExactly` | alert/service.go:731-750 | acknowledging the tree of a settled summary leaves it settled if and only if no member was pending and inactive |
| `AlertStaleness.AcknowledgedSummarySettlesExactly` | alert/service.go:664-697 | the same for a whole accepted acknowledgement request, re-evaluation of what is above included |
| `AlertExamples.AcknowledgeLingering` | alert/service.go:664-697 | a run of four messages after which an acknowledged summary, settled before, is not settled |
| `AlertAcknowledgement.AcknowledgeOneOutcome` | alert/service.go:718-729 | one acknowledgement changes two flags and one time of a pending state with an episode and publishes it once, or does nothing |
| `AlertAcknowledgement.TreeIsAcknowledgedOnce` | alert/service.go:731-750 | on an acyclic graph, diamonds included, exactly the pending states with an episode reachable through live members end acknowledged, each published exactly once; no other state changes |
| `AlertDelivery.StepReducesWork` | alert/service.go:664-716 | every delivery leaves strictly less work, whatever the message |
| `AlertDelivery.LoopQuiesces` | alert/service.go:643-716 | any finite queue of arbitrary or malformed messages is worked off in at most four steps a message and ends with the canonical state last on the bus, changed at most by one acknowledgement |
| `AlertDelivery.UnnormalStateLoops` | alert/service.go:664-716 | a canonical state that does not survive encoding would be republished for ever |
| `AlertDelivery.EpisodelessStateIsNotRestored` | alert/evaluator.go:261-280 | a pending state without an episode swallows an acknowledgement request without an answer |
| `AlertDelivery.RestoredExactlyWhenReturnable` | alert/service.go:643-716 | every queue ends with the canonical state restored if and only if that state survives encoding and, while pending, has an episode |
| `AlertDelivery.ReachableStatesAreNormal` | alert/evaluator.go:192-280 | every state that evaluations and acknowledgements produce from no state survives encoding; adopted states are another matter |
| `AlertReturns.ReturningLeavesAreRestored` | alert/service.go:643-716 | where all states survive encoding and only summaries are pending without an episode, every owned leaf restores its canonical state after any queue |
| `AlertReturns.MessageKeepsReturning` | alert/service.go:664-697 | a message keeps the states so if and only if a state it makes the service adopt survives encoding and, unless a summary owns it, has an episode while pending |
| `AlertReturns.ConfigurationKeepsReturning` | alert/service.go:410-499 | a configuration message keeps them so if and only if the members it catches up with are such states, and a summary pending without an episode either stays a summary or becomes a leaf whose current value starts an episode |
| `AlertReturns.RunKeepsReturning` | alert/service.go:376-795 | over every run of messages, configurations, inputs, properties and initial evaluations: the states stay so throughout if and only if each message and configuration meets these conditions |
| `AlertReturns.PermittedRunsAreRestored` | alert/service.go:643-716 | in such a run every owned leaf restores its state at every point, whatever messages are queued |
| `AlertExamples.AdoptForeignTime` | alert/service.go:664-697 | two events after which an owned leaf, with an episode and not pending, is not always restored |
| `AlertExamples.ReplacePendingSummary` | alert/service.go:410-483 | three events after which an owned leaf is pending without an episode, though no such state came from outside |
| `AlertCatalogUpdates.RemoveString` | alert/service.go:537-545 | the filter keeps exactly the other strings, in order |
| `AlertCatalogUpdates.Without` | alert/service.go:537-545 | membership and duplicate-freeness of what is kept |
| `AlertCatalogUpdates.HookParents` | alert/service.go:516-523 | each listed member gains the subject at the end of its parents, others are untouched, no entry is empty |
| `AlertCatalogUpdates.UnhookParents` | alert/service.go:525-535 | each listed member loses it, entries that become empty go |
| `AlertCatalogUpdates.RemovalKeepsDocumented` | alert/service.go:501-514 | removal keeps both indexes exact and duplicate-free, takes exactly one node from the graph and keeps it acyclic |
| `AlertCatalogUpdates.AdditionKeepsDocumented` | alert/service.go:440-483 | addition keeps both indexes exact, on an output nobody owned, and adds exactly one node |
| `AlertCatalogUpdates.WithdrawalRestores` | alert/service.go:455-466 | a definition added and withdrawn leaves definitions and acyclicity as before |
| `AlertCatalogUpdates.RemovalRelists` | alert/service.go:501-535 | removal drops the subject from every list of parents and keeps the order of the rest |
| `AlertCatalogUpdates.AdditionRelists` | alert/service.go:440-454 | addition appends it to its members' lists of parents and to no other |
| `AlertReconcile.AscendKeepsLeaf` | alert/service.go:758-775 | re-evaluating what is above an output neither changes nor publishes the output itself |
| `AlertReconcile.LeafMessageIsDelivery` | alert/service.go:664-716 | for an owned leaf alert, with publishing succeeding, the service's reaction is exactly one step of the delivery loop |
| `AlertReconcile.AscendLeavesSummary` | alert/service.go:758-775 | re-evaluating what is above a settled summary leaves it settled |
| `AlertReconcile.LeafEvaluation` | alert/service.go:555-567 | a leaf agrees with its input after its evaluation and the pass above it; every other leaf is untouched |
| `AlertReconcile.ReconcileKeepsValid` | alert/service.go:664-716 | no message, valid or not, ever makes a stored state invalid |
| `AlertReconcile.AscendSettles` | alert/service.go:758-775 | after a change of one output alone, the pass above it settles every summary but the owner of the output, if dependents follow in its visit order |
| `AlertService.Service.constructor` | alert/service.go:136-153 | a new service is valid and knows nothing |
| `AlertService.Service.StoreAndPublish` | alert/service.go:643-662 | states, dirty set and publications change as specified: unchanged clean states are not published again, failures mark the subject dirty |
| `AlertService.Service.RepublishCanonical` | alert/service.go:699-716 | only a known valid state is republished, and a failure marks it dirty |
| `AlertService.Service.Apply` | alert/service.go:620-637 | for a valid ledger, one lawful step of the output's lifecycle, announced on the bus exactly when the state is new or the last publication failed; a refused step changes nothing but the draw |
| `AlertPublications.EvaluationIsAnnounced` | alert/service.go:620-662 | an evaluation takes one lawful lifecycle step; if the state is new or the subject dirty there is exactly one attempt, carrying the state now stored, and the subject is dirty exactly if it fails; otherwise there is none |
| `AlertPublications.ReconcileTells` | alert/service.go:643-716 | over a whole message: every subject spoken of ends with the state last spoken of and dirty exactly if that failed, and no other state changes but the one adopted |
| `AlertPublications.ReconfiguredTells` | alert/service.go:410-499 | the same over a whole configuration message, but for the members caught up with |
| `AlertPublications.RunsAreTruthful` | alert/service.go:643-716 | over every run from nothing: a subject is dirty exactly while its last attempt has failed, and the state of a subject that was not adopted since is the one last attempted |
| `AlertPublications.CleanSubjectsAreHeard` | alert/service.go:643-662 | so the last successful publication on a clean subject is the state the service holds |
| `AlertService.Service.EvaluateMembers` | alert/service.go:598-617 | collecting the members and evaluating them is the summary function on the current states |
| `AlertService.Service.EvaluateDefinition` | alert/service.go:569-618 | all kinds, missing inputs and failing evaluators included |
| `AlertService.Service.EvaluateAncestors` | alert/service.go:758-775 | the queue loop is the walk over the visit order, also with subjects already seen; it terminates for any parents map |
| `AlertService.Service.RemoveDefinition` | alert/service.go:501-514 | definitions and indexes lose exactly that subject; exactness and acyclicity are kept |
| `AlertService.Service.AddDefinition` | alert/service.go:440-454 | definitions and indexes gain exactly that subject and its graph node |
| `AlertService.Service.Withdraw` | alert/service.go:455-466 | the definitions are those of before, the output has an inactive state, everything above it was evaluated, the service is valid |
| `AlertService.Service.Deactivate` | alert/service.go:420-431 | an output without a definition ends inactive also after everything above it was evaluated |
| `AlertService.Service.CatchUp` | alert/service.go:485-499 | only a member without a state takes its retained one, and only a valid one |
| `AlertReconfiguration.CaughtUpIsValid` | alert/service.go:485-499 | catching up keeps every known state and never admits an invalid one |
| `AlertReconfiguration.CaughtUpExactly` | alert/service.go:485-499 | exactly the members without a state take their retained one, exactly if it is valid |
| `AlertReconfiguration.EvaluatedSummarySettles` | alert/service.go:455-474 | a summary evaluated, and then everything above it, is settled |
| `AlertReconfiguration.ReconfiguredSettles` | alert/service.go:410-483 | a configuration message leaves every summary settled, if dependents follow in its pass and no other summary lists a member caught up only now |
| `AlertService.Service.StartSummary` | alert/service.go:455-466 | members are caught up first, then the summary and everything above it is evaluated; it ends settled |
| `AlertService.Service.AcceptInput` | alert/service.go:555-567 | the leaf has the input and agrees with it, everything above it was evaluated, no other leaf's state changes; settled summaries stay settled if dependents follow in the visit order |
| `AlertService.Service.Define` | alert/service.go:440-483 | a valid configuration is taken exactly when it closes no cycle, or its input can be watched |
| `AlertService.Service.ReconcileConfig` | alert/service.go:410-483 | a configuration is taken exactly when valid, enabled and acyclic (or watchable); the graph stays acyclic, the indexes exact and the order of parents as documented; other definitions are untouched; a refused subject has no definition and an inactive output; an accepted summary is settled, an accepted leaf agrees with the current value; states and publications are exactly those of the specified evaluations; settled summaries stay settled if nothing else is disturbed |
| `AlertService.Service.AcceptSource` | alert/service.go:547-553 | a value reaches exactly the leaves monitoring its subject, in any order, and each agrees with it; other leaves keep input and state |
| `AlertInputs.FeedStep` | alert/service.go:547-567 | feeding one leaf keeps the leaves fed before in agreement |
| `AlertInputs.MonitorsItsInput` | alert/protocol.go:100-119 | a leaf monitors exactly the subject its config subject is derived from |
| `AlertAgreement.UnaffectedEvaluation` | alert/service.go:395-408 | a leaf that does not refer to a property evaluates to the same whatever the property says |
| `AlertAgreement.PropertiesKeepAgreement` | alert/service.go:376-408 | evaluating just the leaves that refer to a property brings every leaf of the service up to date |
| `AlertAgreement.ConfigurationKeepsAgreement` | alert/service.go:410-483 | a configuration message, whether taken, refused or withdrawn, leaves every leaf in agreement |
| `AlertAgreement.LeavesAgreeInEveryRun` | alert/service.go:376-795 | over every run of messages, configurations, inputs, properties and initial evaluations, each leaf agrees with its latest input and properties at every point |
| `AlertDisplay.LeavesDisplayInEveryRun` | alert/service.go:569-618 | so at every point of every run a binary alert with an input is active exactly on its bad value and a value alert shows the interval its number lies in, each with the text and the fields of its properties, and nothing if these are unusable |
| `AlertDisplay.UnusableInputIsIgnored` | alert/service.go:578-597 | a leaf is evaluated exactly when it has an input of a usable kind; otherwise nothing happens at all |
| `AlertDisplay.SettledSummaryDisplays` | alert/service.go:598-617 | a settled summary is active exactly when some member is, lists the live ones in order and shows the dominant one; with a member unknown or none live it shows nothing |
| `AlertService.Service.ReconcileProperty` | alert/service.go:376-393 | the leaves with an input that name the property are evaluated once each in some order, states and publications being exactly those of that pass; each of them agrees with the new properties, other leaves are untouched, and settled summaries stay settled if no summary is above two of the leaves and dependents follow |
| `AlertService.Service.ReevaluateLeaves` | alert/service.go:383-392 | the loop with its shared set of visited summaries is the specified pass over a list of exactly the leaves concerned |
| `AlertProperties.PassesSettleExactly` | alert/service.go:383-392 | a property message settles every summary, from every settled start and for every order of the leaves, if and only if no leaf with a result shares a summary above it with another evaluated leaf and dependents follow in each such leaf's pass |
| `AlertProperties.LaterLeafIsNotHeard` | alert/service.go:383-392 | otherwise concretely: a leaf that becomes active after another one under the same summary was evaluated leaves that summary stale |
| `AlertProperties.PassRefreshes` | alert/service.go:383-392 | whatever is shared, all leaves concerned end in agreement with the properties and no other leaf changes |
| `AlertExamples.AnnounceProperties` | alert/service.go:376-393 | four messages after which a summary over two leaves of one property is not settled, whichever leaf comes first |
| `AlertInputs.PropertiesDoNotMatter` | alert/service.go:376-393 | new properties leave indexes, graph and validity of the configuration alone |
| `AlertService.Service.EvaluatePass` | alert/service.go:777-795 | one pass in any order settles one more level, and reports "unchanged" only if everything is settled; it amounts to the evaluation of some list of summaries |
| `AlertService.Service.EvaluateAllSummaries` | alert/service.go:777-795 | the allowed number of passes reaches the fixed point for every iteration order; only summaries were evaluated and changed, every change was published, leaves stay in agreement |
| `AlertPasses.PassSettles` | alert/service.go:777-795 | an evaluation in pass n keeps the first n summaries of a topological order settled |
| `AlertPasses.OrderIsShort` | alert/service.go:777-795 | a topological order of the summaries is no longer than the definitions, so the bound on the passes is enough |
| `AlertService.Service.AcknowledgeOne` | alert/service.go:718-729 | the acknowledgement step on the current states |
| `AlertService.Service.AcknowledgeTree` | alert/service.go:731-750 | the recursive walk terminates for any graph and is the specified tree walk |
| `AlertService.Service.ReconcileState` | alert/service.go:664-697 | every message is handled as specified and the service stays valid; after an adopted state or an accepted acknowledgement of a leaf every summary is settled (but for one whose own output was adopted), after that of a summary exactly on the condition of `AlertAnswers.AcknowledgementSettlesExactly`; states stay restorable exactly on the condition of `AlertReturns.MessageKeepsReturning`, leaves stay in agreement, and everything changed is published |
| `AlertAnswers.MessageIsAnswered` | alert/service.go:682-716 | a message for a known owned alert that does not ask to acknowledge its pending episode changes no state; it is answered by one publication of the canonical state unless it is that state |
| `AlertAnswers.AcknowledgementIsAnnounced` | alert/service.go:718-729 | an acknowledgement at the current time is stored and attempted once, and refused without an episode |
| `AlertAnswers.OthersAreBelieved` | alert/service.go:672-681 | a valid state on a subject the service does not own is adopted as it stands, an invalid one is not, and nothing is published there |
| `AlertAnswers.AdoptionSettles` | alert/service.go:672-681 | adopting any valid state re-evaluates what is above it: from a settled start all summaries but the owner of that output are settled, if dependents follow |
| `AlertAnswers.LeafAcknowledgementSettles` | alert/service.go:685-695 | an accepted acknowledgement of a leaf leaves all summaries settled, if dependents follow |
| `AlertAnswers.AcknowledgementSettlesExactly` | alert/service.go:685-695 | where dependents follow, an accepted acknowledgement of a summary leaves every summary of the service settled if and only if none outside the pass above it is left listing a member that is gone, because the member was acknowledged or the summary itself was |
| `ModbusConfig.ParsedPointsArePollable` | modbus/config.go:145-213 | every parsed point lies inside the 16-bit address space, and bit tables hold bits only |
| `ModbusConfig.ParsingInvertsDescribing` | modbus/config.go:145-213 | a descriptor is accepted as a point exactly when it describes that point, the point can be polled, and its orders are the connection's |
| `ModbusReader.WordFits` | modbus/config.go:232-241 | the registers of an encoding hold every value of its range |
| `ModbusReader.RangeFillsRegisters` | modbus/config.go:232-241 | and no fewer would do: some value of the range sets every bit of them |
| `ModbusGroup.Sort` | modbus/group.go:56-61 | the sorted points are a permutation in address order |
| `ModbusGroup.MergeSorted` | modbus/group.go:62-102 | the loop keeps all points in order, every group is the exact span of its points within the limit, and each opener is beyond the reach of the group before |
| `ModbusGroup.MergeRegisterPoints` | modbus/group.go:54-102 | the same for one table's points in any order |
| `ModbusGroup.ChainedOpenersAreApart` | modbus/group.go:62-102 | the points that open groups are pairwise unable to share a request |
| `ModbusGroup.PackingIsMinimal` | modbus/group.go:54-102 | with openers apart no plan whatsoever has fewer requests |
| `ModbusGroup.PartitionPoints` | modbus/group.go:29-52 | each table's list is exactly its points, in order |
| `ModbusGroup.GroupPoints` | modbus/group.go:29-52 | every point in exactly one group; every group is a request for its points whose answer has at most 250 data bytes, two to a register or one to eight bits; and no requests within that limit that read all the points are fewer |
| `ModbusGroup.RequestsServe` | modbus/group.go:21-25 | any requests within the byte limit that together read all the points are a plan the groups compete with |
| `ModbusGroup.LimitIsTheByteLimit` | modbus/group.go:104-116 | the quantity limits of the tables are exactly the byte limit of an answer |
| `ModbusReader.SwapBytes` | modbus/reader.go:148-166 | in-place swap of the bytes of every word |
| `ModbusReader.SwapWords` | modbus/reader.go:148-166 | in-place mirror of the words |
| `ModbusReader.Reorder` | modbus/reader.go:148-166 | a new buffer holding the specified permutation; the input buffer is untouched |
| `ModbusReader.ReorderIsInvolution` | modbus/reader.go:148-166 | reordering twice gives the bytes back, for every even length and all four pairs of orders |
| `ModbusReader.LittleLittleIsReversal` | modbus/reader.go:148-166 | little bytes with little words are full byte reversal |
| `ModbusReader.ReorderedIsComposed` | modbus/reader.go:148-166 | reordering and reading big-endian gives the number that the registers make up, the byte order applied within each and the word order between them |
| `ModbusReader.Decode` | modbus/reader.go:119-146 | the decoder on its own reordered copy, wrong lengths and encodings included |
| `ModbusReader.DecodingInvertsStoring` | modbus/reader.go:119-146 | decoding gives back every value of every encoding's full range, for all orders |
| `ModbusReader.DecodedTypeIsDeclared` | modbus/config.go:219-230 | a decoded value has the type its encoding declares |
| `ModbusReader.DecodeBits` | modbus/reader.go:80-104 | all bits in point order, or the first error |
| `ModbusReader.ReadGroup` | modbus/reader.go:22-78 | one request decoded point by point, in order, or the first error |
| `ModbusReader.GroupsStayInRange` | modbus/group.go:104-116 | a valid group of pollable points stays inside the address space, so no 16-bit offset or byte count wraps |
| `ModbusReader.GroupReadsHeldValues` | modbus/reader.go:22-104 | on an answering device a group reads exactly what its points hold, never an out-of-block error |
| `ModbusReader.GroupedReadingAgrees` | modbus/reader.go:22-117 | the i-th value of a group is what reading the i-th point alone gives |
| `ModbusService.LastMessageDecides` | modbus/service.go:182-282 | only the last message on each subject matters for what is configured |
| `ModbusService.WorkersDependOnLastMessages` | modbus/service.go:182-367 | histories with the same last messages lead to the same workers |
| `ModbusService.OtherConnectionsUnaffected` | modbus/service.go:246-367 | a point update matters only to the connections its old and new definitions name |
| `ModbusService.WorkerPollsExactly` | modbus/service.go:331-367 | a worker polls a point for an address exactly when the address names its connection and describes the point in the connection's orders, under the subject the address is of |
| `ModbusService.Service.WorkersAreTheRebuild` | modbus/service.go:284-367 | once started, the running workers are exactly those a rebuild of the configuration starts |
| `ModbusService.Service.StopWorker` | modbus/service.go:514-522 | the connection's poll loop has ended; no other worker changes |
| `ModbusService.Service.CollectPoints` | modbus/service.go:331-367 | exactly the connection's usable points, in any order |
| `ModbusService.Service.RestartConnection` | modbus/service.go:299-316 | that connection's worker is the one a rebuild would start, with one poll loop each |
| `ModbusService.Service.InvalidateConnection` | modbus/service.go:228-244 | the connection and its worker are gone, the rest is consistent |
| `ModbusService.Service.ReconcileConnection` | modbus/service.go:182-226 | the configuration is updated as specified and every worker equals its rebuild |
| `ModbusService.Service.RemovePoint` | modbus/service.go:318-329 | the point is gone and every worker equals its rebuild |
| `ModbusService.Service.ReconcileAddress` | modbus/service.go:246-282 | the same for an address, also when it moves to another connection |
| `ModbusService.Service.StartWorkers` | modbus/service.go:284-297 | from stopped, every connection gets the worker a rebuild would start |
| `ModbusService.Service.Stop` | modbus/service.go:524-546 | no poll loop is left |
| `RetainStore.StepIsConsistent` | retain/store.go:80-221 | one put, flush start, commit or failure: the database stands for a prefix of the writes that never shrinks |
| `RetainStore.DatabaseIsAPrefix` | retain/store.go:80-221 | crash consistency: after every prefix of every interleaving the database is memory as it was after some prefix of the writes, and these prefixes never shrink |
| `RetainStore.OverlaysAreMemory` | retain/store.go:170-221 | database, batch in flight and dirty entries together are memory at every step |
| `RetainStore.LostFlushIsConsistent` | retain/store.go:212-221 | a flush that never reached the database loses nothing and reorders nothing |
| `RetainStore.LandedFlushIsConsistent` | retain/store.go:208-221 | nor does one that did, though its commit reported an error |
| `RetainStore.FlushMovesAll` | retain/store.go:170-210 | a flush without writes moves all dirty entries to the database or none |
| `RetainStore.ClosingFlushes` | retain/store.go:154-168 | after the two closing flushes the database equals memory if and only if one of them reached it or it already did |
| `RetainStore.Store.Open` | retain/store.go:30-76 | a store opened on a database has it in memory and nothing dirty |
| `RetainStore.Store.Load` | retain/store.go:133-152 | every row ends in memory, in any order |
| `RetainStore.Store.PutValue` | retain/store.go:80-89 | a put changes memory and dirty entries together; an empty subject is ignored |
| `RetainStore.Store.Get` | retain/store.go:92-103 | over every run it returns the payload of the last write on the subject, or what the opened database held |
| `RetainStore.ValuesAreLastPayloads` | retain/store.go:80-103 | after any interleaving of puts, flushes and failures memory holds exactly the last payload put on each subject |
| `RetainStore.Store.BeginFlush` | retain/store.go:170-178 | the dirty map becomes the batch, or nothing happens |
| `RetainStore.Store.Commit` | retain/store.go:180-210 | the whole batch replaces its rows |
| `RetainStore.Store.Requeue` | retain/store.go:212-221 | the batch returns to the dirty map without overwriting newer entries |
| `RetainStore.Store.Fail` | retain/store.go:170-221 | a flush that reports an error, whether or not it reached the database, keeps the run consistent |
| `RetainStore.Store.CloseFlushes` | retain/store.go:154-168 | after the two closing flushes the database equals memory exactly when one of them reached it or it already did; nothing is written meanwhile |
| `StreamOrder.WorkerIndex` | stream/interest.go:233-240 | always an existing worker, zero when there is none |
| `StreamOrder.SameWorkerExactly` | stream/interest.go:233-240 | two subjects share a worker exactly when the number of workers divides the difference of their hashes |
| `StreamOrder.OneByteTellsApart` | stream/interest.go:233-240 | subjects that differ in exactly one byte never have the same hash |
| `StreamOrder.EveryRunKeepsOrder` | stream/interest.go:211-231 | for every interleaving of dispatching, workers and stopping: each subject's handled messages followed by its waiting ones are exactly those sent, in order, and queues stay bounded |
| `StreamOrder.OneSubjectOneWorker` | stream/interest.go:211-240 | two workers never handle the same subject at the same time |
| `StreamOrder.DrainedPoolLostNothing` | stream/interest.go:219-231 | with nothing waiting, a subject's handled messages are exactly those sent |
| `StreamOrder.ClosedExactly` | stream/interest.go:123-145 | the queues are closed exactly when a close has followed a cancellation |
| `StreamOrder.CrashesExactly` | stream/interest.go:123-145 | a run ends the process if and only if some dispatch chooses to send after the queues were closed |
| `StreamOrder.ExactSubscription.Dispatch` | stream/interest.go:211-217 | a dispatch enqueues at the subject's worker, gives up only while stopping, and crashes exactly when it sends to closed queues |
| `StreamOrder.ExactSubscription.RunWorker` | stream/interest.go:219-231 | a worker handles everything left in its queue, in order |
| `StreamOrder.ExactSubscription.Stop` | stream/interest.go:123-145 | after stopping, every message that was enqueued has been handled, subject by subject in order |
| `StreamDelivery.MemoryIsTheLastAccepted` | stream/subscribe.go:41-62 | what the filter remembers of a subject is the last message it let through; the first always passes |
| `StreamDelivery.LastAcceptedIsNewestExactly` | stream/subscribe.go:41-62 | after every prefix the last message let through is the newest that arrived, if and only if no message repeats the id of the newest so far with a later time and no untimed message follows a timed newest one unless it repeats its id |
| `StreamDelivery.AcceptedNeverGoBack` | stream/subscribe.go:41-62 | then the messages let through never go back in time |
| `StreamDelivery.WellStampedIsOrderly` | stream/subscribe.go:41-62 | a time on every message, and ids that name one observation each, are enough for that condition |
| `StreamDelivery.AcceptedExactlyWhenNewest` | stream/subscribe.go:41-62 | under that condition a message passes exactly when nothing newer arrived before and it does not repeat the id last let through |
| `StreamDelivery.SubjectsAreIndependent` | stream/subscribe.go:41-62 | what passes on a subject does not depend on other subjects' messages |
| `StreamDelivery.AnUntimedMessageForgets` | stream/subscribe.go:49-61 | after a message without a time the next one passes however old it is |
| `StreamDelivery.NewestCanBeLost` | stream/subscribe.go:49-61 | so without times the last message let through need not be the newest |
| `StreamDelivery.RepeatedIdHidesNewer` | stream/subscribe.go:47-52 | nor when a newer observation comes under the id let through before |
| `StreamDelivery.DeliveryState.Accept` | stream/subscribe.go:41-62 | the decision and the memory follow the history of everything offered; an absent message passes unremembered |
| `SimulatorNoise.SeedsNeverCoincide` | simulator/node-red/lib/simulator.js:123-161 | two plants that have drawn equally often never have the same 32-bit seed |
| `SimulatorNoise.InitialSeedsDiffer` | simulator/node-red/lib/simulator.js:123-127 | no two plant numbers start with the same seed |
| `SimulatorNoise.DrawnIsInjective` | simulator/node-red/lib/simulator.js:158-161 | any number of draws keeps different seeds different |
| `SimulatorNoise.Plant.NextNoise` | simulator/node-red/lib/simulator.js:158-161 | one draw, and a noise within the amplitude |
| `SimulatorNoise.Plant.Actuate` | simulator/node-red/lib/simulator.js:177-196 | positions and speeds stay in range for every time step; stuck valves do not move, tripped pumps do not run |
| `SimulatorNoise.Plant.StepPlant` | simulator/node-red/lib/simulator.js:167-222 | exactly seven draws on every branch, every measurement in its range, manual controls untouched |
| `SimulatorNoise.Simulation.Step` | simulator/node-red/lib/simulator.js:224-230 | every plant has drawn its seven numbers in each step, for every elapsed time and speed |
| `SimulatorNoise.Simulation.ApplyControl` | simulator/node-red/lib/simulator.js:232-258 | exactly the addressed control or fault of the selected plant changes; no seed does; the speed becomes the nearest of its range, the selected plant the nearest there is |
| `SimulatorNoise.FaultIsAddressed` | simulator/node-red/lib/simulator.js:248-257 | of the faults exactly the one the topic names changes, to the flag; a reset clears all |
| `SimulatorNoise.ControlIsAddressed` | simulator/node-red/lib/simulator.js:244-247 | of the controls exactly the one the topic names changes: a switch to the flag, a percentage to the nearest of a finite number |
| `SimulatorNoise.Simulation.SeedsAreDistinct` | simulator/node-red/lib/simulator.js:123-161 | after any run of steps and controls all plants' seeds are pairwise distinct |

## Left out

- NATS connections, request and reply, protobuf, JSON and SQLite: the bus is a queue, the database a map with atomic commits, decoding a value or a malformed message. Limits of the JSON encoder (year range, UTF-8) are not modelled.
- `designer/`, `designer-ui/`, `scada-cli/`, service `main.go` files, generated code: HTTP, WebSocket, UI and wiring.
- IEEE-754 decoding: floating-point points stay the words they are decoded from, and interval bounds and values are real numbers (NaN and infinities are refused by the code itself).
- The `published` map of the alert service: it is only ever written.
- The in-place aliasing of `removeString` (`alert/service.go:537-545`): the filter is modelled on a fresh list; no caller keeps the old one.
- The service's subscriptions and input watches, beyond whether an input could be watched when its leaf was configured.
- Duplicate members of a summary, empty subjects and blank text are excluded by validation as in the code; the spelling rules for durations, URLs and subject tokens are not part of the model beyond what validity needs.
- AlertAnswers.AcknowledgementSettlesExactly: says nothing where dependents do not follow in the pass; what a pass can leave behind there is the subject of AlertAncestors.OnePassRestoresExactly.
- AlertAncestors.OnePassRestoresExactly: asks nothing of the summary owning the changed output itself; when the output of a summary is overwritten from outside, that summary is not evaluated.
- ModbusGroup.Sort: stands for the library sort; the order among points of one address is not modelled beyond being some permutation.
- The Modbus client cache, connection parsing and defaults, the polling loop's timing, and the publish-on-change filter.
- RetainStore.Store.FlushDirty: takes the outcome of the transaction as a parameter; the errors a flush can meet are one failure that did or did not reach the database.
- StreamOrder.ExactSubscription.Dispatch: starts when there is room, or the subscription is stopping, or its queues are closed; the waiting itself is not modelled.
- The direct handler call made when a subject is added, and the atomicity of accepting and handling a message.
- SimulatorNoise.Plant.StepPlant: the physics is computed as in the code, on real numbers, but the contract states only draws, ranges and faults; the sine is a parameter.
- Frozen and faulty measurements, register layouts and dashboard state of the simulator.
