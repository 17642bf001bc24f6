# ForgeGuard Nexus: a verified model of its cores

A Dafny model of six cores of ForgeGuard Nexus, with proofs about every input, every
interleaving or every run. `dafny verify dfyconfig.toml` checks the whole project.

**Evidence graph** (`LexOrder`, `GraphTheory`, `Kahn`, `EvidenceGraph`, `EvidenceEffects`,
`EvidenceGraphStore`, `EvidenceLayers`).
The two Kahn loops are methods over maps and queues. The cycle test is exact for every finite
multigraph, and the snapshot order is the lexicographically least topological order, so it
cannot depend on insertion order. The store class keeps a DAG over all sequences of
operations, and each kind of refusal has an exact condition; over whole runs of the research
service nothing is refused unless a caller has drawn an edge against the layers of the graph.

**Edge-to-gateway delivery** (`Gateway`, `GatewayAdmission`, `GatewayRetries`, `BenchGateway`,
`SpoolNames`, `FrameSpool`, `Delivery`, `DeliveryRuns`, `EdgeClient`). The ingest call is split at its two critical
sections, and calls interleave arbitrarily: each frame is completed at most once, no cache
entry is overwritten, and received frames equal completed plus in-flight ones. The client
with its durable queue is then composed with the gateway under lost requests, lost replies
and failing analyses, with other nodes stepping in between: nothing is lost, duplicated or
reordered, and the queue drains as soon as the failures stop. The registry's rules are exact,
and a node's rejected counter is the number of its refused frames.

**Portable forest** (`PortableForest`, `PortableModel`, `Calibration`, `PortablePrediction`). Nested trees are
exported to flat arrays and interpreted row by row or in lock-step. Leaf addition is an
arbitrary operation, so the results carry over to floating point; both interpreters give the
scores of the original forest, in the same order of additions, with the same error, and
prediction calibrates each class by its own calibrator.

**Research orchestration** (`Schema`, `Lineage`, `Research`, `ResearchInvariant`,
`ResearchRuns`, `ResearchEffects`, `GraphGains`, `Propagation`, `PropagationRuns`, `ResearchService`,
`SchedulerTick`, `SchedulerActions`, `SchedulerRuns`, `SchedulerDryRun`, `SchedulerHistory`, `SchedulerLimits`,
`ResearchScheduler`). Branch records and graph nodes correspond one to one in every reachable
state; the depths of all branches sum to their descendant counts; a counterexample reaches
exactly the strict descendants, once; the scheduler answers each trigger at most once,
respects its limits but for one kind of fork, and comes to rest.

**Knowledge evolution** (`KnowledgeEvolution`, `KnowledgeEffects`, `KnowledgeRuns`, `KnowledgeStore`). Version
numbers, successor links, challenge states and the event log over all runs.

**Grouped split** (`GroupedSplit`). The train/validation/test split for every shuffle.

Each class is specified by functions on a value of its state: a method's postcondition
equates the new value with the function of the old one, and the theorems are about the
functions. `Gateway` and `Scheduler` objects also carry their history, so that a theorem about
runs applies to every object.

## Findings, and where code and documentation differ

- `docs/real-bench-integration.md:70` says that a processing failure rolls the sequence back so
  that the frame can be retried. That holds exactly if no later frame of the node was claimed
  meanwhile (`Gateway.FailedFrameRetriableIffLast`); otherwise the frame is rejected for the rest
  of every run (`GatewayRetries.FailedFrameIsLostIff`, `GatewayRetries.FailedFrameIsRejectedForEver`).
- `docs/real-bench-integration.md:68` says that an exact retry is idempotent. It is answered from
  the cache exactly while it is the last sequence of its node, and rejected as stale afterwards
  (`Gateway.ExactRetryIsCachedIffLast`; a run that shows both: `GatewayRetries.CompletedFrameBecomesStale`).
- Two frames that fail oldest first leave a sequence for which the gateway answers "already
  being processed; retry later" although nothing is being processed
  (`Gateway.FailuresOldestFirstStrandTheFirst`). `GatewayRetries.StrandedIff` says exactly when a
  failure does that: the failed frame is the last one, and the frame its sequence goes back to has
  failed in the meantime. The answer changes to stale once a later frame is claimed
  (`GatewayRetries.LostIsRejected`).
- The comment at `edge-node/forgeguard_edge/bench_client.py:79-80` says that client errors are
  not retried. The raised status error is caught like any other, so they are. A frame of the
  pipeline is never rejected (`Delivery.HeadReply`), so in `EdgeClient.Client.Post` the one client
  error left is an analysis that fails; it is retried like a lost request or a lost reply.
- `_has_cycle` also answers true for an edge that leaves an unknown vertex; the store never
  holds one (`Kahn.DetectCycle`).
- Recording a result a second time can be refused (`EvidenceGraph.LaterEvidenceCanBlockTheResult`),
  exactly under the condition of `EvidenceGraph.SetResultAcceptedIff`. Over whole runs this takes an
  edge that a caller drew from a lower layer to a higher one
  (`EvidenceLayers.RefusedResultHasUpwardEdge`).
- Export refuses every model without one calibrator per class, so a two-class model calibrated by
  one sigmoid is never exported (`PortableModel.Export`).
- A revised or superseded item keeps an open challenge exactly if it had one beside the challenge
  that was answered (`KnowledgeRuns.SucceededKeepsOpenChallengeIff`), and such a state is reached
  (`KnowledgeRuns.SupersededKeepsOpenChallenge`).
- The fork that revalidates challenged knowledge does not check its parent's child limit. A branch
  ends a tick over the limit exactly if that fork finds it full and finds live capacity
  (`SchedulerLimits.RealTickOverfillsIff`). `SchedulerLimits.TickOverfillsIff` reads this off the
  state before the tick, and it happens (`SchedulerLimits.FullBranchIsOverfilled`).
- The fallback for small labels in the grouped split never acts (`GroupedSplit.HeldOutFits`), and
  its docstring's assumption that a group contains one class is exactly what makes it succeed for
  every shuffle (`GroupedSplit.SplitsForEveryShuffleIff`).

## Model

| member | source | states |
|---|---|---|
| GraphTheory.CycleIffSelfSupported | backend/app/research_orchestration/evidence_graph.py:440-455 | a directed cycle exists exactly when some non-empty vertex set lies entirely on edges from itself: the obstruction that stops the release loop |
| GraphTheory.NewEdgeCyclesIffReturnPath | backend/app/research_orchestration/evidence_graph.py:433-437 | in an acyclic graph the new edge closes a cycle exactly when its target already reaches its source |
| GraphTheory.UnenteredSourceNeverCycles | backend/app/research_orchestration/evidence_graph.py:121-149 | a vertex that no edge enters can be given any out-edge |
| GraphTheory.FewerEdgesNoCycle | backend/app/research_orchestration/evidence_graph.py:457-465 | restricting an acyclic graph to some of its edges keeps it acyclic |
| GraphTheory.InDegreeWithout | backend/app/research_orchestration/evidence_graph.py:449-453 | releasing a vertex lowers the in-degrees by exactly the multiplicities in its adjacency list, parallel edges included |
| GraphTheory.GreedyIsLeast | backend/app/research_orchestration/evidence_graph.py:471-480 | exchange argument: always placing the least ready node gives the lexicographically least topological order |
| GraphTheory.LeastOrderIsUnique | backend/app/research_orchestration/evidence_graph.py:457-481 | two edge lists with the same members, however they were built, have the same least order: a snapshot does not depend on insertion order |
| Kahn.BuildIndex | backend/app/research_orchestration/evidence_graph.py:441-445 | the adjacency lists and in-degrees of every finite edge list, parallel edges counted |
| Kahn.ZeroKeys | backend/app/research_orchestration/evidence_graph.py:446 | the initial queue: exactly the keys of in-degree zero, once each, in any order |
| Kahn.Release | backend/app/research_orchestration/evidence_graph.py:449-454 | the inner loop re-establishes the loop invariant for one more released vertex, with the queue kept sorted where the code sorts |
| Kahn.DetectCycle | backend/app/research_orchestration/evidence_graph.py:440-455 | terminates and returns true exactly when the edges contain a directed cycle or an edge leaves a vertex that is neither a node nor a target |
| Kahn.TopologicalOrder | backend/app/research_orchestration/evidence_graph.py:466-480 | the order is complete exactly when the graph is acyclic, and is then the lexicographically least topological order |
| EvidenceGraph.EdgeAcceptedIff | backend/app/research_orchestration/evidence_graph.py:414-438 | an edge is accepted exactly when its ends are known and distinct and it is already present or its target does not reach its source |
| EvidenceGraph.EnsureEdgeKeepsDag | backend/app/research_orchestration/evidence_graph.py:414-438 | the guarded insert keeps the graph a DAG with unique (source, target, kind); a refusal changes neither nodes nor edges, an acceptance leaves the edge stored |
| EvidenceGraph.FreshNodeIsAccepted | backend/app/research_orchestration/evidence_graph.py:356-387 | a node new to the graph never has its first edge refused, and exactly that node and edge are added |
| EvidenceGraph.FreshRecordIsAccepted | backend/app/research_orchestration/evidence_graph.py:121-177 | attaching a fresh record to a linked branch always succeeds and writes two nodes and one edge |
| EvidenceGraph.FreshBranchIsAccepted | backend/app/research_orchestration/evidence_graph.py:94-119 | a new branch under a known parent gets its claim and its lineage edge; nothing is refused |
| EvidenceGraph.LinkedBranchIsAccepted | backend/app/research_orchestration/evidence_graph.py:94-119 | ensuring a branch that is already linked only rewrites its claim node |
| EvidenceGraph.DeriveAllAcceptedIff | backend/app/research_orchestration/evidence_graph.py:245-266 | a run of derived-from edges is accepted exactly when every target is known and is linked already or does not lead back |
| EvidenceGraph.SetResultAcceptedIff | backend/app/research_orchestration/evidence_graph.py:231-266 | recording a result succeeds exactly when every evidence and experiment node is known and is linked already or does not reach the result node |
| EvidenceGraph.FirstResultIsAccepted | backend/app/research_orchestration/evidence_graph.py:231-266 | the first result of a branch is never refused |
| EvidenceGraph.LaterEvidenceCanBlockTheResult | backend/app/research_orchestration/evidence_graph.py:231-266 | a repeated result can be refused: evidence added later and linked to the result by hand makes the second recording fail |
| EvidenceEffects.EdgeIsStored | backend/app/research_orchestration/evidence_graph.py:414-438 | an accepted edge is appended exactly if its triple is not there yet |
| EvidenceEffects.BranchIsStored | backend/app/research_orchestration/evidence_graph.py:94-119 | a new branch gets its claim and, under a known parent, one lineage edge |
| EvidenceEffects.RecordIsStored | backend/app/research_orchestration/evidence_graph.py:121-229 | a fresh record of a linked branch adds its node and its edge into the claim |
| EvidenceEffects.MetadataIsStored | backend/app/research_orchestration/evidence_graph.py:179-186 | an update rewrites the metadata of one known node and nothing else |
| EvidenceEffects.ResultIsStored | backend/app/research_orchestration/evidence_graph.py:231-266 | a recorded result derives from every evidence record and experiment of the branch and from nothing else; an empty one changes nothing |
| EvidenceEffects.KnowledgeIsStored | backend/app/research_orchestration/evidence_graph.py:330-354 | accepted knowledge derives from the result, or from the claim if there is no result |
| EvidenceEffects.ChallengeIsStored | backend/app/research_orchestration/evidence_graph.py:356-387 | a challenge is stored with its edge, or refused because its item is unknown |
| EvidenceEffects.CouncilReviewIsStored | backend/app/research_orchestration/evidence_graph.py:298-328 | a council review is stored with its edge to the claim |
| EvidenceEffects.DrawnEdgeIsStored | backend/app/research_orchestration/evidence_graph.py:389-413 | edges drawn by callers and between versions carry the branch of their source |
| EvidenceGraph.SetResultKeepsDag | backend/app/research_orchestration/evidence_graph.py:231-266 | a refused result leaves a DAG with no node or edge lost |
| EvidenceLayers.ReachedIsNotHigher | backend/app/research_orchestration/evidence_graph.py:184-296 | with claims below records, records below results and results below knowledge, no node reaches one of a higher layer |
| EvidenceLayers.LayeredResultIsAccepted | backend/app/research_orchestration/evidence_graph.py:231-266 | on a layered graph recording a result is never refused, however often it is repeated |
| EvidenceLayers.ComponentsGoDown | backend/app/research_orchestration/evidence_graph.py:298-406 | council reviews, challenges and successor links lead downward |
| EvidenceLayers.ApplyKeepsLayers | backend/app/research_orchestration/service.py:218-330 | every operation of the service but a caller's own upward edge keeps the graph layered |
| EvidenceLayers.NothingIsRefused | backend/app/research_orchestration/service.py:218-330 | in every run without upward edges the graph refuses no operation of the service; an attached node is refused only for an unknown target |
| EvidenceLayers.RefusedResultHasUpwardEdge | backend/app/research_orchestration/service.py:295-300 | if a result is refused in any run, an earlier step of that run drew an edge upward |
| EvidenceGraph.ApplyKeepsDag | backend/app/research_orchestration/evidence_graph.py:94-438 | every operation of the store keeps a DAG and loses no node or edge |
| EvidenceGraph.EveryRunIsDag | backend/app/research_orchestration/evidence_graph.py:94-438 | over any sequence of operations, refused ones included, the graph stays a DAG and only grows |
| EvidenceGraphStore.Store.constructor | backend/app/research_orchestration/evidence_graph.py:34-39 | a new store is empty |
| EvidenceGraphStore.Store.PutNode | backend/app/research_orchestration/evidence_graph.py:86-92 | writes one node in place |
| EvidenceGraphStore.Store.ContainsCycle | backend/app/research_orchestration/evidence_graph.py:440-455 | on the stored edges the cycle test is exact |
| EvidenceGraphStore.Store.EnsureEdge | backend/app/research_orchestration/evidence_graph.py:414-438 | stores the edge, runs the cycle test and takes the edge out again on a cycle; the new state is the one of the specification |
| EvidenceGraphStore.Store.EnsureBranch | backend/app/research_orchestration/evidence_graph.py:94-119 | claim node and lineage edge of a branch, in place |
| EvidenceGraphStore.Store.AddEvidence | backend/app/research_orchestration/evidence_graph.py:121-149 | evidence node with a supports edge into the claim |
| EvidenceGraphStore.Store.AddCounterexample | backend/app/research_orchestration/evidence_graph.py:151-177 | counterexample node with a contradicts edge into the claim |
| EvidenceGraphStore.Store.AddExperiment | backend/app/research_orchestration/evidence_graph.py:188-216 | experiment node with a tests edge into the claim |
| EvidenceGraphStore.Store.AddReview | backend/app/research_orchestration/evidence_graph.py:268-296 | review node with a reviews or verifies edge into the claim |
| EvidenceGraphStore.Store.UpdateMetadata | backend/app/research_orchestration/evidence_graph.py:179-186 | rewrites the mutable part of a counterexample or experiment node |
| EvidenceGraphStore.Store.SetResult | backend/app/research_orchestration/evidence_graph.py:231-266 | result node and derived-from edges, stopping at the first refusal |
| EvidenceGraphStore.Store.AddCouncilReview | backend/app/research_orchestration/evidence_graph.py:298-328 | council node with a reviews edge |
| EvidenceGraphStore.Store.AddKnowledge | backend/app/research_orchestration/evidence_graph.py:330-354 | knowledge node derived from the result, or from the claim if there is no result |
| EvidenceGraphStore.Store.AddChallenge | backend/app/research_orchestration/evidence_graph.py:356-387 | challenge node with a challenges edge |
| EvidenceGraphStore.Store.LinkTransition | backend/app/research_orchestration/evidence_graph.py:389-406 | a revises or supersedes edge between two versions |
| EvidenceGraphStore.Store.AddEdge | backend/app/research_orchestration/evidence_graph.py:408-412 | an edge by hand, with the branch of its source node |
| EvidenceGraphStore.Store.Snapshot | backend/app/research_orchestration/evidence_graph.py:457-481 | for the whole graph or one branch: the selected nodes, the edges among them, and a complete, lexicographically least topological order |
| Gateway.ClaimKeepsConsistent | backend/app/bench/gateway.py:87-137 | a claim, a cached answer or a rejection keeps the gateway invariant |
| Gateway.CommitKeepsConsistent | backend/app/bench/gateway.py:171-173 | a commit keeps the gateway invariant |
| Gateway.RollbackKeepsConsistent | backend/app/bench/gateway.py:156-168 | a rollback keeps the gateway invariant, also when another frame of the node is in flight |
| Gateway.RegisterKeepsConsistent | backend/app/bench/gateway.py:38-49 | registration and re-registration keep the counters of the node |
| Gateway.RegisterCampaignKeepsConsistent | backend/app/bench/gateway.py:51-63 | a known campaign is active and is never registered over, so its counters are never reset |
| Gateway.EveryRunIsConsistent | backend/app/bench/gateway.py:87-173 | under every interleaving: received frames equal completed plus in-flight ones for each node and campaign, the last sequence bounds both, and no completed or in-flight sequence lies between a ticket and the value it would roll back to |
| Gateway.CompletedAtMostOnce | backend/app/bench/gateway.py:112-173 | over every run no (node, sequence) is completed twice, the cached pairs are exactly the completed ones, and no cache entry is ever overwritten |
| Gateway.InFlightSequencesDistinct | backend/app/bench/gateway.py:112-137 | no two running calls of a node hold the same sequence, none holds a completed one, and the last sequence is at least each of them |
| Gateway.CommitWritesNewEntry | backend/app/bench/gateway.py:171-173 | a commit never finds its cache entry taken |
| Gateway.ClampNeverFires | backend/app/bench/gateway.py:156-163 | a rollback finds both counters at least one, so the clamps at zero never act |
| Gateway.ExactRetryIsCachedIffLast | backend/app/bench/gateway.py:112-127 | an exact retry of a completed frame is answered from the cache exactly while it is the last sequence of its node; otherwise it is rejected as stale |
| Gateway.ReuseIsRejected | backend/app/bench/gateway.py:112-127 | a completed sequence with different content is always rejected |
| Gateway.FailedFrameRetriableIffLast | backend/app/bench/gateway.py:156-168 | after a processing failure the frame can be claimed again exactly if it was still the last sequence of its node |
| Gateway.FailuresOldestFirstStrandTheFirst | backend/app/bench/gateway.py:156-168 | two frames in flight that fail oldest first leave the node on a sequence that is neither completed nor in flight, whose retry is told it is being processed |
| GatewayRetries.StrandedIff | backend/app/bench/gateway.py:155-169 | from a node that rests on a completed or running frame, a failure leaves it on a sequence that is neither exactly if the failed frame was the last one and the frame it goes back to has meanwhile failed |
| GatewayRetries.OtherStepsKeepRest | backend/app/bench/gateway.py:87-173 | no claim, commit or registration strands a node |
| GatewayRetries.ForeignRollbackKeepsRest | backend/app/bench/gateway.py:155-169 | nor does the failure of a frame of another node |
| GatewayRetries.StrandedSequenceIsRefused | backend/app/bench/gateway.py:123-124 | a frame with the stranded sequence is told that it is being processed |
| GatewayRetries.FailedFrameIsLostIff | backend/app/bench/gateway.py:164-168 | a failed frame is lost exactly if it was no longer the last sequence of its node |
| GatewayRetries.StepKeepsLost | backend/app/bench/gateway.py:87-173 | every step of every node keeps a lost frame lost |
| GatewayRetries.LostIsRejected | backend/app/bench/gateway.py:112-127 | a lost frame is always rejected: as being processed while its sequence is the last one, and as stale afterwards |
| GatewayRetries.FailedFrameIsRejectedForEver | backend/app/bench/gateway.py:155-169 | a frame that fails after a later one was claimed is rejected at every later moment of every run and never completed |
| GatewayRetries.CompletedFrameBecomesStale | backend/app/bench/gateway.py:112-127 | a run in which an exact retry is first answered from the cache and, after a later claim, refused as stale |
| GatewayAdmission.ClaimedIff | backend/app/bench/gateway.py:91-128 | a frame is claimed exactly if its node is registered for its asset, its campaign, if any, is known, active and of that node and asset, and its sequence exceeds the node's last one |
| GatewayAdmission.RefusalIff | backend/app/bench/gateway.py:91-111 | each condition of the registry that fails has its own refusal, in the order of the code |
| GatewayAdmission.LateAnswerIff | backend/app/bench/gateway.py:112-127 | an admitted frame that is not newer is answered from the cache exactly if it is the completed last frame, and refused as stale, in progress or different otherwise, each exactly when |
| GatewayAdmission.RefusalCounts | backend/app/bench/gateway.py:95-127 | a refusal raises the rejected counter of a known node by one, and that of the campaign exactly if the campaign is not active or does not match; nothing else changes |
| GatewayAdmission.CachedChangesNothing | backend/app/bench/gateway.py:112-121 | an answer from the cache leaves the gateway as it was |
| GatewayAdmission.ClaimCounts | backend/app/bench/gateway.py:128-137 | a claim counts the frame for its node and its campaign, marks the node degraded exactly if the rate is off by more than five per cent, and moves the last sequence; nothing else changes |
| GatewayAdmission.FailedClaimLeavesNoTrace | backend/app/bench/gateway.py:128-169 | a claim followed by its failure gives back the gateway as it was, but for the degraded mark |
| GatewayAdmission.RegistrationStores | backend/app/bench/gateway.py:38-49 | registering replaces asset and rate, clears the degraded mark and keeps the counters of a known node |
| GatewayAdmission.RegisteredNodeAdmits | backend/app/bench/gateway.py:38-97 | after a registration exactly the frames of that asset pass the node's check |
| GatewayAdmission.CampaignAcceptedIff | backend/app/bench/gateway.py:51-64 | a campaign is accepted exactly if its node is registered for its asset and it is not running already; each refusal has its reason and changes nothing |
| GatewayAdmission.AcceptedCampaignAdmits | backend/app/bench/gateway.py:51-111 | an accepted campaign starts with zero counts and lets in the newer frames of its node and asset |
| GatewayAdmission.EveryRunMatchesCampaigns | backend/app/bench/gateway.py:98-111 | in every run each completed or running frame of a campaign carries the campaign's node and asset |
| GatewayAdmission.EveryRunCountsRefusals | backend/app/bench/gateway.py:91-127 | in every run a node's rejected counter is the number of its frames refused while it was known |
| GatewayAdmission.CachedIsCommitted | backend/app/bench/gateway.py:171-173 | in every run a cached answer is the one that a commit of this very frame gave |
| BenchGateway.Gateway.constructor | backend/app/bench/gateway.py:28-36 | a new gateway starts the protocol from its initial state |
| BenchGateway.Gateway.Register | backend/app/bench/gateway.py:38-49 | registers or re-registers a node in place |
| BenchGateway.Gateway.RegisterCampaign | backend/app/bench/gateway.py:51-63 | registers a campaign or answers why not |
| BenchGateway.Gateway.Admit | backend/app/bench/gateway.py:91-111 | the admission checks in order, with the rejection counters they raise |
| BenchGateway.Gateway.AnswerLate | backend/app/bench/gateway.py:112-127 | the reply to a sequence that does not exceed the last one |
| BenchGateway.Gateway.Accept | backend/app/bench/gateway.py:128-137 | counters, degradation flag and sequence claim of an accepted frame |
| BenchGateway.Gateway.Claim | backend/app/bench/gateway.py:87-137 | the first critical section: reply and new state are those of the protocol for a call number not in use |
| BenchGateway.Gateway.Commit | backend/app/bench/gateway.py:171-173 | the second critical section after a successful analysis |
| BenchGateway.Gateway.RewindSequence | backend/app/bench/gateway.py:164-168 | the sequence goes back only if the failed frame is still the last one |
| BenchGateway.Gateway.Rollback | backend/app/bench/gateway.py:155-169 | the second critical section after a failed analysis |
| SpoolNames.NamesFollowSequence | edge-node/forgeguard_edge/spool.py:35-36 | below 10^12 an earlier frame has the smaller file name, whatever the clock said |
| SpoolNames.LimitOvertakes | edge-node/forgeguard_edge/spool.py:71-75 | the file of sequence 10^12 sorts before that of 10^12 - 1 |
| SpoolNames.FifoExactlyBelowLimit | edge-node/forgeguard_edge/spool.py:71-75 | file names are a FIFO for all sequences below a bound exactly when the bound is at most 10^12 |
| SpoolNames.SanitisedIsSafe | edge-node/forgeguard_edge/spool.py:73-74 | the node part of a file name has only letters, digits, underscores, dots and hyphens |
| SpoolNames.SafeNameStays | edge-node/forgeguard_edge/spool.py:73-74 | a node id of safe characters stays as it is |
| SpoolNames.RunBecomesOne | edge-node/forgeguard_edge/spool.py:73-74 | a run of other characters becomes one underscore |
| SpoolNames.DecimalValue | edge-node/forgeguard_edge/spool.py:73-74 | the digits in a file name stand for the sequence number |
| FrameSpool.Spool.constructor | edge-node/forgeguard_edge/spool.py:29-33 | a new spool directory is empty |
| FrameSpool.Spool.Pending | edge-node/forgeguard_edge/spool.py:35-36 | the listing is the sorted list of the stored names |
| FrameSpool.Spool.NextSequence | edge-node/forgeguard_edge/spool.py:39-53 | the next sequence exceeds every queued one, and is at least the persisted and the requested one, and no larger than needed |
| FrameSpool.Spool.MarkNextSequence | edge-node/forgeguard_edge/spool.py:55-62 | persists the next sequence |
| FrameSpool.Spool.Enqueue | edge-node/forgeguard_edge/spool.py:64-81 | refused exactly when the directory is full; a frame newer than everything queued goes to the end of the queue |
| FrameSpool.Spool.Unlink | edge-node/forgeguard_edge/spool.py:102-104 | deleting the oldest file takes the head off the queue |
| Delivery.HeadReply | backend/app/bench/gateway.py:112-137 | the sequence rules never reject the head of the queue: it is claimed, or answered from the cache if it is completed already |
| Delivery.HeadOutcome | edge-node/forgeguard_edge/bench_client.py:69-92 | a POST of the queue's head is acknowledged exactly if its reply arrives and the frame is processed by it or was before, and completes the frame exactly if it is the first to be processed |
| Delivery.HonestPostSucceeds | edge-node/forgeguard_edge/bench_client.py:69-92 | if the first POST is answered after a successful analysis there is no second one |
| Delivery.BacklogShrinks | edge-node/forgeguard_edge/cli.py:71-112 | without a failed POST each window takes limit - 1 frames off a backlog until it is gone |
| Delivery.AttemptKeepsPipeline | edge-node/forgeguard_edge/cli.py:60-150 | whatever happens to one POST of the head (request lost, reply lost, processing failed, answered), completed frames stay a prefix and queued ones a suffix of the produced frames, and after a success the head may be taken off |
| Delivery.ProduceKeepsPipeline | edge-node/forgeguard_edge/cli.py:94-105 | a newly produced frame joins the queue |
| Delivery.PipelineMeansExactlyOnce | edge-node/forgeguard_edge/cli.py:88-145 | every produced frame is completed or queued, and only the head of the queue can be both; it is then the last frame of the gateway |
| Delivery.DrainedMeansComplete | edge-node/forgeguard_edge/cli.py:88-90 | with an empty queue everything produced is completed |
| DeliveryRuns.EveryRunDeliversExactlyOnce | edge-node/forgeguard_edge/cli.py:60-150 | over every run, with any losses and any steps of other nodes in between: completed frames are a strictly increasing prefix of the produced ones and queued ones a suffix, nothing is lost, only the head of the queue can be both and is then the last sequence of the gateway, which holds exactly the completed frames of the node |
| DeliveryRuns.HonestNetworkDrains | edge-node/forgeguard_edge/spool.py:83-111 | once POSTs are answered and processed, one POST a frame empties the queue and completes everything produced |
| DeliveryRuns.ForeignStepKeepsServer | backend/app/bench/gateway.py:87-173 | claims, commits, rollbacks and registrations of other nodes change nothing the gateway holds of this one |
| DeliveryRuns.ForeignStepKeepsAdmission | backend/app/bench/gateway.py:91-111 | nor do they make the gateway refuse frames of this node |
| EdgeClient.Client.Send | edge-node/forgeguard_edge/bench_client.py:69-92 | one POST with an adversarial fate has exactly the effect of one atomic gateway call |
| EdgeClient.Client.Post | edge-node/forgeguard_edge/bench_client.py:69-92 | POSTs until the first acknowledgement, at most retries + 1 times; a failure means that none of them was acknowledged; a lost request, a lost reply and a failed analysis are retried alike; the frame is completed exactly if a POST was processed |
| EdgeClient.Client.SendFile | edge-node/forgeguard_edge/spool.py:91-104 | a file is deleted only after its frame was acknowledged |
| EdgeClient.Client.Flush | edge-node/forgeguard_edge/spool.py:83-111 | frames are posted oldest first up to the limit, the flush stops at the first frame that fails, exactly the acknowledged ones leave the queue, and the counts are exact |
| EdgeClient.Client.PublishQueued | edge-node/forgeguard_edge/cli.py:106-107 | while something is queued a new window goes to the end of the queue, unless the directory is full |
| EdgeClient.Client.PublishDirect | edge-node/forgeguard_edge/cli.py:125-143 | the window is posted once, and queued exactly if that failed |
| EdgeClient.Client.PublishWindow | edge-node/forgeguard_edge/cli.py:106-143 | a window is refused exactly if it would have to join a full queue; otherwise queue and window are posted from the front, up to the limit (a window with no queue at once), and what stays queued is what failed or was beyond the limit |
| EdgeClient.Client.StartSequence | edge-node/forgeguard_edge/cli.py:92 | the first sequence of a session is the requested one or the marked one, whichever is larger, and exceeds all produced ones |
| EdgeClient.Client.PublishWindows | edge-node/forgeguard_edge/cli.py:60-150 | the windows get consecutive sequences, and an early stop means a full directory; if no POST fails the queue goes down as computed, and a limit that covers the first queue ends with everything produced also completed |
| PortableForest.CompleteTreeHasLeaf | backend/app/models/portable_hgb.py:115-136 | with child indexes inside the tree every row, NaN features included, reaches a leaf |
| PortableForest.CompleteForestScores | backend/app/models/portable_hgb.py:101-170 | a forest of such trees scores every row |
| PortableForest.WalkIffPath | backend/app/models/portable_hgb.py:114-134 | a row's walk ends at a leaf exactly if there is a path to it along which missing values take the default side and others compare with the threshold |
| PortableForest.ScoreOfClass | backend/app/models/portable_hgb.py:111-135 | each class's score is its baseline with the leaf values of its own trees added in tree order |
| PortableForest.NoScoresIff | backend/app/models/portable_hgb.py:130-134 | a row has no scores exactly if it leaves one of the trees |
| PortableModel.Export | backend/app/models/portable_hgb.py:215-261 | exact refusals in the order of the code; the arrays hold the nested trees in order, and each class gets its own calibrator, coefficient and intercept in their places |
| PortableModel.AppendTreeHolds | backend/app/models/portable_hgb.py:216-230 | appending one tree to the arrays keeps all earlier trees and adds the new one |
| PortableModel.ExportedValidatesIff | backend/app/models/portable_hgb.py:70-95 | an exported artifact passes the loader exactly when there is one baseline per class and at most one tree per class and iteration |
| PortableModel.ExportedIsRunnable | backend/app/models/portable_hgb.py:205-230 | exporting a well-formed multiclass forest gives an artifact both interpreters can run |
| PortableModel.RefusedIff | backend/app/models/portable_hgb.py:70-95 | the loader refuses an artifact exactly for one of the inconsistencies it names |
| PortableModel.TraverseOne | backend/app/models/portable_hgb.py:115-136 | the scalar walk over the flat arrays ends at the leaf of the nested tree, or reports leaving it |
| PortableModel.ScoreOne | backend/app/models/portable_hgb.py:110-136 | one row: baseline plus the leaf of each tree, added in tree order to its class, for any addition |
| PortableModel.StepAll | backend/app/models/portable_hgb.py:150-166 | one lock-step: every row not at a leaf moves to the child its feature chooses |
| PortableModel.TraverseMany | backend/app/models/portable_hgb.py:137-166 | the lock-step loop terminates, fails exactly when some row leaves the tree, and otherwise ends at each row's own leaf |
| PortableModel.ScoreMany | backend/app/models/portable_hgb.py:137-170 | many rows: the scores of each row are those of the scalar interpreter, and the bounds error occurs exactly if some row would raise it |
| PortableModel.DecisionFunction | backend/app/models/portable_hgb.py:101-170 | whichever interpreter runs, each row gets the scores of the original forest; shape and bounds errors occur exactly when they should |
| PortableModel.ScoreExported | backend/app/models/portable_hgb.py:101-230 | exporting a well-formed multiclass model and scoring with the artifact gives each row the scores of the nested forest, with a bounds error exactly if some row leaves a tree |
| PortablePrediction.PredictProba | backend/app/models/portable_hgb.py:172-181 | each row gets the normalised calibrated scores of the forest, with exact shape and bounds errors |
| PortablePrediction.PredictExported | backend/app/models/portable_hgb.py:172-271 | exporting and then predicting normalises, for every row, the nested forest's raw scores, each class calibrated by its own calibrator |
| Calibration.Normalise | backend/app/models/portable_hgb.py:172-181 | rows without a usable sum are overwritten with ones and every row is divided by its sum: proportional where usable, equal shares where not |
| Calibration.NormalisedIsDistribution | backend/app/models/portable_hgb.py:172-181 | the result is a probability distribution whatever the row was |
| Calibration.SharesOrUniform | backend/app/models/portable_hgb.py:175-181 | a row of numbers with a positive sum is divided by it, and any other row becomes uniform |
| Calibration.NormalisedKeepsRanking | backend/app/models/portable_hgb.py:172-181 | where the sum is usable the classes rank as their calibrated scores do |
| Lineage.NewBranchKeepsForest | backend/app/research_orchestration/service.py:218-229 | a new branch under a known parent keeps the parent pointers a forest |
| Lineage.AncestorsAreDistinct | backend/app/research_orchestration/autonomy.py:311-319 | no branch is its own ancestor, and no ancestor repeats |
| Lineage.Depth | backend/app/research_orchestration/autonomy.py:311-319 | the walk with its seen guard counts exactly the strict ancestors; the guard never cuts it short |
| Lineage.BuildChildren | backend/app/research_orchestration/autonomy.py:381-384 | the children of every parent, each listed once, and no list for anybody else |
| Lineage.FindDescendants | backend/app/research_orchestration/autonomy.py:321-331 | the stack search terminates and finds exactly the strict descendants, each once |
| Lineage.DepthsSumToDescendants | backend/app/research_orchestration/autonomy.py:304-331 | over a whole store the depths sum to the same number as the descendant counts |
| Lineage.LineageCounts | backend/app/research_orchestration/autonomy.py:304-356 | the two columns of the lineage scores, with equal sums |
| ResearchRuns.ReachableDepthsSum | backend/app/research_orchestration/autonomy.py:304-331 | in every reachable store parents form a forest and the depths of all branches sum to their descendant counts |
| Research.FindCounterexample | backend/app/research_orchestration/service.py:265-267 | the first record with the id, or none exactly if there is no such record |
| ResearchInvariant.AddEntryKeepsInvariant | backend/app/research_orchestration/service.py:241-260 | appending a fresh record and attaching its node is never refused and keeps branches and graph in correspondence |
| ResearchInvariant.UpdateEntryKeepsInvariant | backend/app/research_orchestration/service.py:262-293 | rewriting a record and its node keeps the correspondence |
| ResearchInvariant.OneEntryPerId | backend/app/research_orchestration/service.py:218-325 | over the whole store an id belongs to one record of one branch |
| ResearchRuns.CreateKeepsInvariant | backend/app/research_orchestration/service.py:218-229 | a branch is created exactly when its parent is known, with claim and lineage edge |
| ResearchRuns.EvidenceKeepsInvariant | backend/app/research_orchestration/service.py:241-247 | adding evidence succeeds and keeps the correspondence |
| ResearchRuns.CounterexampleKeepsInvariant | backend/app/research_orchestration/service.py:249-260 | adding a counterexample succeeds, changes only that branch and keeps the correspondence |
| ResearchRuns.ExperimentKeepsInvariant | backend/app/research_orchestration/service.py:273-279 | adding an experiment succeeds and keeps the correspondence |
| ResearchRuns.ReviewKeepsInvariant | backend/app/research_orchestration/service.py:312-325 | a review is accepted exactly when it names known evidence |
| ResearchRuns.ResolveKeepsInvariant | backend/app/research_orchestration/service.py:262-271 | resolving succeeds exactly for a known record of a known branch, and updates record and node together |
| ResearchRuns.UpdateExperimentKeepsInvariant | backend/app/research_orchestration/service.py:281-293 | updating succeeds exactly for a known experiment of a known branch, and updates record and node together |
| ResearchRuns.ResultKeepsInvariant | backend/app/research_orchestration/service.py:295-300 | recording a result keeps the correspondence even when one of its edges is refused |
| ResearchRuns.ArchiveKeepsInvariant | backend/app/research_orchestration/service.py:231-239 | archiving succeeds exactly for a known branch and keeps the correspondence |
| ResearchRuns.AcceptKeepsInvariant | backend/app/research_orchestration/service.py:460-495 | promotion is refused by the gate only, never by the graph |
| ResearchRuns.EveryRunKeepsInvariant | backend/app/research_orchestration/service.py:218-495 | in every reachable state the graph is a DAG, parents form a forest, and records and graph nodes correspond |
| ResearchEffects.TouchFollowsRecords | backend/app/research_orchestration/service.py:139-150 | recomputing the status changes nothing else, leaves a terminal status, and otherwise gives blocked, under review or active as the records say |
| ResearchEffects.EvidenceIsAdded | backend/app/research_orchestration/service.py:241-247 | one evidence record more, its node and edge, the status recomputed, and no other change |
| ResearchEffects.CounterexampleIsAdded | backend/app/research_orchestration/service.py:249-260 | one counterexample more, its node and edge, the status recomputed, and no other change |
| ResearchEffects.ExperimentIsAdded | backend/app/research_orchestration/service.py:273-279 | one experiment more, its node and edge, the status recomputed, and no other change |
| ResearchEffects.ReviewIsAdded | backend/app/research_orchestration/service.py:302-328 | a review joins the list and gets the edge kind of its role; one that names unknown evidence changes nothing |
| ResearchEffects.CounterexampleIsResolved | backend/app/research_orchestration/service.py:262-271 | the first counterexample with the id is resolved, in branch and graph, and no other record changes |
| ResearchEffects.ExperimentIsUpdated | backend/app/research_orchestration/service.py:281-293 | the first experiment with the id gets the new status and result, in branch and graph, and no other record changes |
| ResearchEffects.BranchIsCreated | backend/app/research_orchestration/service.py:218-229 | a new branch is empty, active and the youngest, with its claim and lineage edge; an unknown parent changes nothing |
| ResearchEffects.BranchIsArchived | backend/app/research_orchestration/service.py:232-239 | archiving changes the status of one branch and nothing else |
| ResearchEffects.ResultIsRecorded | backend/app/research_orchestration/service.py:295-300 | a recorded result is in the branch and in the graph, where it derives from every evidence record and experiment |
| ResearchEffects.KnowledgeIsAccepted | backend/app/research_orchestration/service.py:460-495 | promotion needs a known branch and a passed gate, happens once, verifies the branch and stores its result or hypothesis |
| ResearchEffects.EveryRunStatusesFollow | backend/app/research_orchestration/service.py:139-150 | in every reachable store a branch that is not terminal is blocked exactly while it has an unresolved counterexample, under review exactly if it has none but a review, and active otherwise |
| ResearchRuns.RecordsMatchNodes | backend/app/research_orchestration/evidence_graph.py:121-296 | every evidence, counterexample, experiment and review record has exactly its own node and typed edge into the claim, and the branch has no other record nodes |
| ResearchRuns.CounterexamplesMatchNodes | backend/app/research_orchestration/evidence_graph.py:151-186 | counterexample nodes carry the current resolution of their records, one to one |
| ResearchRuns.ExperimentsMatchNodes | backend/app/research_orchestration/evidence_graph.py:188-229 | experiment nodes carry the current status of their records, one to one |
| Propagation.UnresolvedBlocks | backend/app/research_orchestration/service.py:139-150 | an unresolved counterexample blocks every branch that is not terminal, and leaves a terminal one alone |
| Propagation.AddThenSpread | backend/app/research_orchestration/service.py:249-260 | storing a record and spreading it over the descendants is one change of the whole store: the branch and its unmarked strict descendants receive one record each, the graph one node and one edge each, and nothing else changes |
| Propagation.StoreThenPropagate | backend/app/research_orchestration/service.py:249-260 | adding an original counterexample with the propagation that follows has exactly that effect on the state before |
| Propagation.AllDescendantsInheritIff | backend/app/research_orchestration/autonomy.py:395-399 | every strict descendant inherits exactly if none of them carried the marker before |
| Propagation.PropagatingAgainChangesNothing | backend/app/research_orchestration/autonomy.py:375-424 | a second propagation of the same counterexample visits the same branches and changes nothing: no branch, no node and no edge |
| Propagation.ReceivingSetsMarker | backend/app/research_orchestration/autonomy.py:397-405 | a branch that inherited carries the marker |
| Propagation.InheritedRecord | backend/app/research_orchestration/autonomy.py:400-407 | an inherited record is open, carries the marker and tells its origin |
| PropagationRuns.ApplyKeepsMarkers | backend/app/research_orchestration/autonomy.py:395-407 | as long as callers leave the reserved prefix to propagation, every marker names a node of the graph |
| PropagationRuns.EveryRunKnowsMarkers | backend/app/research_orchestration/autonomy.py:395-407 | the same over every run |
| PropagationRuns.FreshIsUnmarked | backend/app/research_orchestration/autonomy.py:395-399 | the marker of a fresh id is then carried by no branch |
| PropagationRuns.EveryDescendantInherits | backend/app/research_orchestration/autonomy.py:375-424 | a fresh original counterexample is then inherited by every strict descendant, and the store is left with the same guarantee |
| PropagationRuns.EveryRunReachesDescendants | backend/app/research_orchestration/autonomy.py:375-424 | after every such run a fresh original counterexample reaches its branch and all strict descendants |
| PropagationRuns.PropagationKeepsMarkers | backend/app/research_orchestration/autonomy.py:375-424 | propagating a stored counterexample again keeps that guarantee |
| PropagationRuns.ReceiversAreBlocked | backend/app/research_orchestration/service.py:139-150 | every receiver has exactly one record more and ends blocked, unless its status is terminal |
| GraphGains.OneGain | backend/app/research_orchestration/evidence_graph.py:151-177 | a fresh counterexample of a linked branch brings one node and one edge and rewrites the claim of the branch |
| GraphGains.GraphGainTwice | backend/app/research_orchestration/evidence_graph.py:151-177 | gains of different branches add up |
| GraphGains.NoGainIff | backend/app/research_orchestration/evidence_graph.py:151-177 | without a record the graph is unchanged, and only then |
| ResearchService.Orchestrator.constructor | backend/app/research_orchestration/service.py:62-75 | a new orchestrator is empty |
| ResearchService.Orchestrator.CreateBranch | backend/app/research_orchestration/service.py:218-229 | creates the branch in place beside the graph |
| ResearchService.Orchestrator.ArchiveBranch | backend/app/research_orchestration/service.py:231-239 | sets the status |
| ResearchService.Orchestrator.AddEvidence | backend/app/research_orchestration/service.py:241-247 | appends the record, attaches the node, recomputes the status |
| ResearchService.Orchestrator.StoreCounterexample | backend/app/research_orchestration/service.py:249-256 | the same for a counterexample, before propagation |
| ResearchService.Orchestrator.AddExperiment | backend/app/research_orchestration/service.py:273-279 | the same for an experiment |
| ResearchService.Orchestrator.AddReview | backend/app/research_orchestration/service.py:312-325 | the same for a review, refused on unknown evidence |
| ResearchService.Orchestrator.ResolveCounterexample | backend/app/research_orchestration/service.py:262-271 | rewrites the record and its node |
| ResearchService.Orchestrator.UpdateExperiment | backend/app/research_orchestration/service.py:281-293 | rewrites the record and its node |
| ResearchService.Orchestrator.SetResult | backend/app/research_orchestration/service.py:295-300 | stores the result; on a refused edge the status is not recomputed |
| ResearchService.Orchestrator.Accept | backend/app/research_orchestration/service.py:460-495 | promotes a branch that passed the gate, once |
| ResearchService.Orchestrator.CarriesMarker | backend/app/research_orchestration/autonomy.py:397 | whether a branch carries a propagation marker |
| ResearchService.Orchestrator.PropagateCounterexample | backend/app/research_orchestration/autonomy.py:375-424 | terminates; visits exactly the strict descendants; each one without the marker inherits one record, the graph gains one node and one edge for it, and nothing else changes |
| ResearchService.Orchestrator.InheritNext | backend/app/research_orchestration/autonomy.py:395-407 | one pass of that loop: a marked branch is passed over, another one inherits |
| ResearchService.Orchestrator.AddCounterexample | backend/app/research_orchestration/service.py:249-260 | an original counterexample reaches its branch and its unmarked strict descendants, in branches and graph, and changes nothing else; these are all of them while callers leave the reserved prefix alone; a propagated one stays where it is |
| SchedulerTick.FirstUnresolved | backend/app/research_orchestration/scheduler.py:118-120 | the first unresolved, unprocessed counterexample: no earlier one qualifies; none exactly if there is none |
| SchedulerTick.FirstSetback | backend/app/research_orchestration/scheduler.py:141-149 | the first failed or inconclusive, unprocessed experiment, or none exactly if there is none |
| SchedulerTick.FirstDigest | backend/app/research_orchestration/scheduler.py:170-173 | the first digest with an unprocessed obstacle, or none exactly if there is none |
| SchedulerTick.FirstChallenge | backend/app/research_orchestration/scheduler.py:196-201 | the first open, unprocessed challenge of a known version, or none exactly if there is none |
| SchedulerRuns.RealTickRespectsLimits | backend/app/research_orchestration/scheduler.py:76-221 | a real tick leaves at most max(before, limit) live branches and, for each branch, at most max(before, limit) children, plus one only for the branch whose knowledge is revalidated |
| SchedulerLimits.RealTickOverfillsIff | backend/app/research_orchestration/scheduler.py:194-221 | a branch ends a real tick over max(before, limit) children exactly if the revalidation fork goes to it, finds it full and finds live capacity |
| SchedulerLimits.VisitsFork | backend/app/research_orchestration/scheduler.py:76-168 | live capacity is left after all visits exactly if it suffices for every fork the branches call for, and then each of these was made |
| SchedulerLimits.TickOverfillsIff | backend/app/research_orchestration/scheduler.py:76-221 | a branch ends a real tick over the limit exactly if it is the one to be revalidated, live capacity exceeds the live branches with all forks and the generation before that, and it is full by then; all in terms of the state before the tick, for every listing order |
| SchedulerLimits.QuietTickOverfillsIff | backend/app/research_orchestration/scheduler.py:194-221 | when nothing else calls for a decision, that reads off the state before the tick |
| SchedulerLimits.FullBranchIsOverfilled | backend/app/research_orchestration/scheduler.py:194-221 | a store in which a branch at its limit of one child gets a second one |
| SchedulerRuns.TickActsOnPending | backend/app/research_orchestration/scheduler.py:53-221 | every decision of a tick answers a different trigger that was pending |
| SchedulerActions.TickAnswers | backend/app/research_orchestration/scheduler.py:62-221 | a branch is killed exactly for a pending rejection or failed council, and otherwise forked exactly for its first pending unresolved counterexample, or without one its first pending setback, if live and child capacity are left; then the first pending digest and the first pending challenge are acted on if live capacity is left; dry runs use no capacity up |
| SchedulerActions.RunIsRecorded | backend/app/research_orchestration/scheduler.py:223-231 | a run records the decisions of its tick, or a single skip exactly if there are none |
| SchedulerActions.TickCarries | backend/app/research_orchestration/scheduler.py:62-221 | after a real tick every killed branch is archived, every generation and fork names a new branch with the stated parent, and nothing else changed |
| SchedulerDryRun.DryTickChangesNothing | backend/app/research_orchestration/scheduler.py:62-231 | a dry tick leaves the branches as they were |
| SchedulerDryRun.RealIsAmongDry | backend/app/research_orchestration/scheduler.py:76-231 | the decisions of a real tick are a subsequence of those of a dry tick from the same state |
| SchedulerDryRun.DryIsExactWithRoom | backend/app/research_orchestration/scheduler.py:76-231 | they coincide when the live capacity covers every spawn the dry tick announces |
| SchedulerHistory.ActedOnAtMostOnce | backend/app/research_orchestration/scheduler.py:53-60 | across all real runs, with records, policies and dry runs changing freely in between, no related id is acted on twice |
| SchedulerHistory.NoNewTriggers | backend/app/research_orchestration/scheduler.py:76-221 | the branches a tick spawns carry no triggers and archiving adds none |
| SchedulerHistory.ActingTickShrinksPending | backend/app/research_orchestration/scheduler.py:53-231 | a real tick that decides anything leaves strictly fewer pending triggers |
| SchedulerHistory.TickKeepsTriggersDistinct | backend/app/research_orchestration/scheduler.py:76-221 | distinct triggers stay distinct through a real tick |
| SchedulerHistory.StoredRecordsAreUnique | backend/app/research_orchestration/service.py:218-325 | in a reachable research store no two branches share a record id |
| SchedulerHistory.IdleTick | backend/app/research_orchestration/scheduler.py:223-228 | a tick skips exactly when the world is idle, whatever the listing order, and then changes nothing |
| SchedulerHistory.SchedulerComesToRest | backend/app/research_orchestration/scheduler.py:53-231 | from distinct triggers and without new records, at most one tick per pending trigger acts, and every tick after the first skip skips |
| SchedulerHistory.DrawnIdsMakeTriggersDistinct | backend/app/research_orchestration/scheduler.py:91-115 | ids as the stores draw them make all triggers distinct |
| ResearchScheduler.Scheduler.ProcessedRelatedIds | backend/app/research_orchestration/scheduler.py:53-60 | the related ids of all real runs of the log |
| ResearchScheduler.Scheduler.CountChildren | backend/app/research_orchestration/scheduler.py:71-74 | the number of children of each parent |
| ResearchScheduler.Scheduler.VisitDigests | backend/app/research_orchestration/scheduler.py:169-192 | the obstacle loop with its break |
| ResearchScheduler.Scheduler.VisitChallenges | backend/app/research_orchestration/scheduler.py:194-221 | the challenge loop with its break |
| ResearchScheduler.LogSays | backend/app/research_orchestration/scheduler.py:53-60 | the log of a history of ticks records exactly what they acted on, in order |
| ResearchScheduler.Scheduler.ActsAtMostOnce | backend/app/research_orchestration/scheduler.py:53-60 | no related id is ever twice in the object's log |
| ResearchScheduler.Scheduler.VisitListing | backend/app/research_orchestration/scheduler.py:76-168 | the loop over the branches |
| ResearchScheduler.Scheduler.Tick | backend/app/research_orchestration/scheduler.py:62-231 | the log grows by the recorded run and stays that of the history of ticks; the branches change by exactly its decisions, and only in a real run; a dry tick leaves the processed ids as they were |
| KnowledgeEvolution.LogGrows | backend/app/research_orchestration/knowledge_evolution.py:111-120 | appending an event that starts at the item's current state keeps the log replayable |
| KnowledgeEvolution.ReplayedIffChained | backend/app/research_orchestration/knowledge_evolution.py:217-234 | replaying a log reaches a state exactly if the events of the item chain from its creation, each starting where the previous one ended, and end there |
| KnowledgeEvolution.MaxIsFamilySize | backend/app/research_orchestration/knowledge_evolution.py:179-183 | the largest version number under a root is the number of its versions |
| KnowledgeEffects.KnowledgeEnters | backend/app/research_orchestration/knowledge_evolution.py:58-84 | accepted knowledge enters once, as version one of its own family |
| KnowledgeEffects.ChallengeIsRaised | backend/app/research_orchestration/knowledge_evolution.py:92-125 | a challenge is open and names its item, which is challenged, logged and mirrored; each refusal changes nothing |
| KnowledgeEffects.KnowledgeIsRevoked | backend/app/research_orchestration/knowledge_evolution.py:127-154 | revoking ends the item, closes its challenges and no others, and is logged |
| KnowledgeEffects.KnowledgeIsSucceeded | backend/app/research_orchestration/knowledge_evolution.py:156-236 | a successor has the next number and points back, its predecessor ends and points forward, one challenge is closed, both are logged and linked |
| KnowledgeEffects.SuccessionIsRefused | backend/app/research_orchestration/knowledge_evolution.py:170-177 | each refusal of a succession has its reason and changes nothing |
| KnowledgeRuns.BootstrapKeepsInvariant | backend/app/research_orchestration/knowledge_evolution.py:58-84 | accepting knowledge starts a new family at number one, once |
| KnowledgeRuns.ChallengeKeepsInvariant | backend/app/research_orchestration/knowledge_evolution.py:92-125 | a challenge succeeds exactly on a known, non-terminal item with known evidence, and keeps the invariant |
| KnowledgeRuns.RevokeKeepsInvariant | backend/app/research_orchestration/knowledge_evolution.py:130-154 | revoking closes every challenge of the item and keeps the invariant |
| KnowledgeRuns.SucceedKeepsInvariant | backend/app/research_orchestration/knowledge_evolution.py:162-236 | a successor is made exactly for a challenged item with that open challenge, gets the next number, and its graph edge is never refused |
| KnowledgeRuns.EveryRunKeepsInvariant | backend/app/research_orchestration/knowledge_evolution.py:58-236 | over all runs: versions under a root are numbered 1..n, successors are later versions of the same root that point back and are mirrored in the graph, challenged items have an open challenge, and replaying the log gives every item its current state |
| KnowledgeRuns.EveryItemsEventsChain | backend/app/research_orchestration/knowledge_evolution.py:58-236 | in every run the events of an item chain from its creation to its current state, and nothing else has events |
| KnowledgeRuns.NumbersRunFromOne | backend/app/research_orchestration/knowledge_evolution.py:179-183 | for each n from 1 to the size of the family there is exactly one version, and there are no others |
| KnowledgeRuns.FinalStatesAreFinal | backend/app/research_orchestration/knowledge_evolution.py:92-154 | an item once revoked or superseded stays so through every later operation |
| KnowledgeRuns.SucceededKeepsOpenChallengeIff | backend/app/research_orchestration/knowledge_evolution.py:192-201 | a revised or superseded item keeps an open challenge exactly if it had one beside the challenge that was answered |
| KnowledgeRuns.TwiceChallengedIsReached | backend/app/research_orchestration/knowledge_evolution.py:92-125 | a run that leaves an item with two open challenges |
| KnowledgeRuns.SupersededKeepsOpenChallenge | backend/app/research_orchestration/knowledge_evolution.py:192-201 | a run that leaves a superseded item with an open challenge |
| KnowledgeStore.Evolution.constructor | backend/app/research_orchestration/knowledge_evolution.py:26-33 | a new store is empty |
| KnowledgeStore.Evolution.Bootstrap | backend/app/research_orchestration/knowledge_evolution.py:58-84 | returns the known version or starts a family |
| KnowledgeStore.Evolution.RaiseChallenge | backend/app/research_orchestration/knowledge_evolution.py:92-125 | moves the item to challenged and logs it, or answers the error |
| KnowledgeStore.Evolution.UnknownNodes | backend/app/research_orchestration/knowledge_evolution.py:97-99 | exactly the evidence ids the graph does not know |
| KnowledgeStore.Evolution.Revoke | backend/app/research_orchestration/knowledge_evolution.py:130-154 | terminal state, challenges closed, event appended |
| KnowledgeStore.Evolution.CloseChallenges | backend/app/research_orchestration/knowledge_evolution.py:139-144 | closes exactly the listed open challenges |
| KnowledgeStore.Evolution.LargestNumber | backend/app/research_orchestration/knowledge_evolution.py:179-183 | the largest version number under a root, zero if there is none |
| KnowledgeStore.Evolution.Succeed | backend/app/research_orchestration/knowledge_evolution.py:162-236 | both versions, the challenge, the graph and two events in one step |
| GroupedSplit.NearestFifth | backend/app/benchmark/external_runner.py:62-63 | rounding a fifth of the groups is never a tie and is off by at most two fifths |
| GroupedSplit.HeldOutFits | backend/app/benchmark/external_runner.py:61-66 | with at least three groups the correction for small labels never acts, and training gets at least as many groups of the label as each held-out part |
| GroupedSplit.SlicesCover | backend/app/benchmark/external_runner.py:66-71 | the three slices of a shuffled list are non-empty and cover it |
| GroupedSplit.HeldOutIsAFifth | backend/app/benchmark/external_runner.py:61-72 | of the groups of a label validation and test get a fifth each, to the nearest whole group |
| GroupedSplit.PartHoldsItsSlice | backend/app/benchmark/external_runner.py:66-76 | in a returned split the groups of a label in a part are those drawn for it, even if groups carry several labels |
| GroupedSplit.SplitIsBalanced | backend/app/benchmark/external_runner.py:61-76 | a returned split holds out a fifth of the groups of every label for validation and another fifth for test |
| GroupedSplit.SplitIsLeakageFree | backend/app/benchmark/external_runner.py:43-80 | for every shuffle a returned split puts each row in exactly one part, never splits a group, and has every label in all three parts |
| GroupedSplit.EmptyOnlyWithoutRows | backend/app/benchmark/external_runner.py:78-79 | the empty-partition error answers the empty dataset and nothing else |
| GroupedSplit.SingleClassAlwaysSplits | backend/app/benchmark/external_runner.py:43-80 | if every group is single-class and every label has three groups, every shuffle succeeds |
| GroupedSplit.MixedGroupCanLeak | backend/app/benchmark/external_runner.py:76-77 | a group with two labels has a shuffle for which the split is refused as leaking |
| GroupedSplit.SplitsForEveryShuffleIff | backend/app/benchmark/external_runner.py:43-80 | given at least one row and at least three groups per label, the split succeeds for every shuffle if and only if no group carries two labels |
| GroupedSplit.SortedLabels | backend/app/benchmark/external_runner.py:52 | the distinct labels in ascending order |
| GroupedSplit.SortedGroups | backend/app/benchmark/external_runner.py:53 | the distinct groups of a label, sorted |
| GroupedSplit.Shuffle | backend/app/benchmark/external_runner.py:59-60 | from the last position to the second, each position is swapped with the one drawn for it |
| GroupedSplit.ShuffledElements | backend/app/benchmark/external_runner.py:58-59 | shuffling keeps the groups |
| GroupedSplit.EveryOrderIsDrawn | backend/app/benchmark/external_runner.py:58-59 | every order of the groups is the shuffle for some draws |
| GroupedSplit.DrawsDetermineOrder | backend/app/benchmark/external_runner.py:51-59 | the draws determine the order of a label's groups, whatever order the rows came in |
| GroupedSplit.GroupedStratifiedSplit | backend/app/benchmark/external_runner.py:30-80 | errors in the order of the code; a returned split is disjoint, covering, group-whole and label-complete, and holds out a fifth of every label's groups twice |

## Left out

- Persistence: `_persist`, `_load` and `_reconcile_graph`. Loading bypasses the cycle guard, and reconciling may add result edges the live graph did not have.
- HTTP routes, pydantic validation, the user interface, the Windows launcher and the scripts.
- Signal features, frame quality, fault injection, training and benchmarks: the analysis of a frame is an arbitrary function that may fail.
- The council and the single gate checks: the gate's verdict and the latest council status are inputs.
- Branch budgets, literature ingestion, the other columns of the lineage scores, CSV parsing, incident approval and the tool registry.
- Timestamps, random ids and titles: ids are arguments that must be fresh and unlike `claim:` and `result:` node ids; creation order stands for creation time.
- The frame hash is taken to be injective, so a frame is its own hash.
- The network is a choice per POST; the gateway handles each POST of the modelled node atomically with respect to that node, and a client does not crash between an acknowledged POST and the marking of the next sequence.
- The spool holds the files of one node and no foreign or unreadable files; sequences stay below 10^12 where order matters (`SpoolNames.FifoExactlyBelowLimit` shows that this is needed).
- A full spool stops the modelled publishing loop; the code raises there, with the same frames produced.
- `publish_live_windows`, which repeats the loop of `publish_windows`.
- `propagate_counterexample_from_text` and `propagate_knowledge_challenge`: the same search with another text and marker.
- The recorded propagation events and their lists of affected knowledge.
- ResearchScheduler.Scheduler.Tick: works on a value of the research state and returns the new branches; that spawning and archiving also write the evidence graph is covered by the orchestrator's own methods.
- Digests and versions are assumed to name stored branches, as the stores that write them do.
- PortableModel.DecisionFunction: requires feature indexes in range and child indexes larger than their parent's (or invalid), on which the termination of both loops rests; 32-bit truncation of indexes is not modelled.
- Calibration.Normalise: is over real numbers, with one value for infinities and NaN; the sigmoid and rounding are not modelled.
- FrameSpool.Spool.NextSequence: assumes that the state file and all queued files can be read; the code skips those that cannot.
- ResearchService.Orchestrator.ArchiveBranch: does not model the tag the code adds; tags are not part of the model.
- ResearchRuns.ArchiveKeepsInvariant: the same.
- ResearchService.Orchestrator.UpdateExperiment: does not model artifacts and the reproducibility flag; they are not part of the model.
- ResearchService.Orchestrator.Accept: takes the verdict of the gate as an input.
- ResearchRuns.AcceptKeepsInvariant: the same.
- GroupedSplit.Shuffle: takes its draws as an argument; that they come from the seed is not modelled.
- Registration fields other than asset and nominal rate, and campaign states other than active, which the gateway never sets.
