# Gyza: board, clock, provenance, runner gates, audit, index and supervision

Gyza lets agents share work through a board of items, sign what they did in content-addressed
envelopes, and lets anybody audit the result later. This project models the parts of that system
whose correctness depends on more than one function or on a whole run, and proves what they promise.
Where a promise in the documentation does not hold of the code, the code is kept, an input on which
the promise fails is given, and the exact condition under which it holds is proved.

`dafny verify dfyconfig.toml` checks everything.

## How the model is laid out

| module | source | contents |
|---|---|---|
| `Common` | | optional values, strict total orders, Python's string order, sorted listings |
| `Clock` | `gyza/schema.py` | the hybrid logical clock as a class, and runs of any number of clocks |
| `Board` | `gyza/blackboard.py` | the rows and every atomic step, as a class whose methods refine `Step` |
| `BoardRuns` | `gyza/blackboard.py` | completion, ownership and leases over arbitrary runs of steps |
| `Convergence` | `gyza/blackboard.py` | delivery of claim and completion deltas in any order, any number of times |
| `ClaimOrder` | `gyza/schema.py`, `gyza/blackboard.py` | one node's clock and board together |
| `Queue` | `gyza/blackboard.py` | `get_unclaimed` and the gate on combiners |
| `Lineage`, `LineageRuns` | `gyza/runner.py`, `gyza/blackboard.py` | bounded decomposition and `lineage_depth` |
| `Runner` | `gyza/runner.py`, `gyza/icp.py` | gathering inputs and signing |
| `RateCap` | `gyza/runner.py`, `gyza/blackboard.py` | the sliding-window cap over runs of signing loops |
| `Topo` | `gyza/icp.py` | Kahn's algorithm with a min-heap, for any key type |
| `Provenance` | `gyza/icp.py` | envelopes, the chain verifier and the graph an envelope list denotes |
| `DagVerifier` | `gyza/icp.py` | `verify_dag` itself |
| `DagLaws` | `gyza/icp.py` | what the DAG verdict depends on, selections, chains as DAGs |
| `Witness` | `gyza/icp.py` | a concrete injective content address and concrete counterexamples |
| `Resilience` | `gyza/resilience.py` | equivocation, quarantine, mission survival |
| `Audit` | `gyza/audit.py` | the forensic verdict |
| `Evidence` | `gyza/evidence.py` | bundles and closures |
| `Bits`, `Demand` | `gyza/demand.py` | Hamming balls and the demand deficit |
| `TreeHash` | `gyza/release.py`, `gyza/attest.py` | the byte streams fed to the hash |
| `Attest` | `gyza/attest.py` | independent agreement between builders |
| `Supervisor`, `Roster` | `gyza/supervisor.py`, `gyza/roster.py` | crash budgets and the stall rule |

Each `BEGIN IMMEDIATE` block and each guarded `UPDATE` is one atomic step. Wall-clock readings,
signatures, hashes, base64, JSON decoding, manifest satisfaction and the database's order among equal
rows are parameters. Ids made by `uuid7` are arguments that must be new. Rewards and age factors are
reals. An envelope's hash is a function of every field but its signature; theorems that need it to be
collision free say `Injective`, and `Witness.PlainIsLawful` shows that the hypothesis can be met.

## Where the code and its documentation part

* `blackboard.py:526-531` says that convergence of completions "still holds". With claims and
  completions mixed, or two different completions, delivery order decides the row; `MixedConvergence`
  gives the exact condition.
* `blackboard.py:523-525` says that the completion triple stays stable once accepted.
  `complete_work_item_direct` overwrites it; `CompletionOverwritten`, and `RecordStable` for the exact
  condition.
* `blackboard.py:398-413` tests `claimed_by` and not completion, so a completed item that nobody holds
  can be claimed again; `CompletedClaimantProtected`.
* `reclaim_expired_claims` selects and updates in separate steps and the update tests the holder, not
  the lease, so a claim that its holder renewed in between is taken; `FreshClaimTaken`. The lease holds
  exactly in the schedules without a claim in between; `LeaseHoldsIff`, `SweepTakesIff`.
* `icp.py:264-266` keeps the last of two envelopes that share a payload, so a twin with a bad signature
  makes the verdict depend on list order; `EveryArrangementAccepted`, `OrderCanMatter`.
* `icp.py:258-259` calls a chain a special case of a DAG. A chain whose early envelope consumes a later
  output is accepted by one verifier and rejected by the other; `ChainAcceptedAsDag`,
  `VerifiersCanDiffer`.
* `supervisor.py:530-536` describes the crash budget as a count within a window. No window ever holds
  more restarts than the budget and a full window gives up, but the budget is only renewed by a gap
  longer than the window after a start, so crashes further apart give up as well;
  `DocumentedCeilingIff`, `GivenUpExactly`, `SpreadCrashesGiveUp`.
* `supervisor.py:518-519` says that `saw_attempt` speaks of the current window. It survives a counted
  completion, so a claim that was finished can still convict an idle process of stalling;
  `StaleAttemptConvicts`. It means what it says exactly in the runs that count no completion while it is
  set; `FlagMeansWindowIff`, `WindowsFairIff`.
* `audit.py:258-279` checks subtask bounds against a manifest whose hash it does not compare with the
  envelope, so a bundle can carry a forged grant; `ForgedGrantVerifies`, and exactly when it goes
  unnoticed: `DecompositionBoundIff`, `SwapUnnoticedIff`.
* `resilience.py:45-48` expects the honest remainder of a history to stay a valid DAG. With shared
  outputs it need not; `QuarantineCanFail`, and `EveryQuarantineAccepted` for the exact condition.
* Two uncompleted combiners under one parent wait for each other; `RivalCombinersBlock`.
* The rate cap reads the log before signing, so two loops of one agent can exceed it; `TwoLoopsExceed`,
  `CapBindsIff`.

## Model

| member | source | states |
|---|---|---|
| Topo.TopoOrder | gyza/icp.py:213-233 | `None` exactly on a graph with a cycle; otherwise the lexicographically least of all topological orders of all keys |
| Topo.KahnEnds | gyza/icp.py:231-233 | when the heap runs dry, a short order means a cycle and a full one is the least topological order |
| Topo.Relax | gyza/icp.py:227-230 | lowering the children's counts leaves exactly the remaining in-degrees and pushes exactly the keys whose last parent was listed |
| Topo.LeastUnique | gyza/icp.py:213-215 | the least topological order is unique, so the tie-break makes the result deterministic |
| Topo.StuckIsCyclic | gyza/icp.py:231-232 | keys that each still wait for another of them contain a cycle |
| Topo.OrderedIsAcyclic | gyza/icp.py:213-233 | a topological order rules out every cycle |
| Topo.PathIsOnlyOrder | gyza/icp.py:258-259 | a path through all keys is the only topological order |
| Provenance.VerifyChain | gyza/icp.py:124-151 | accepts exactly the lists in which every key decodes to 32 bytes and signed that envelope's own hash with a 64-byte signature, every envelope read something and names the one before it; otherwise reports the first bad index |
| Provenance.HeadFixesChain | gyza/icp.py:133-151 | two accepted chains whose last envelopes hash alike have equal length and equal payloads throughout |
| Provenance.ChainHasNoRepeats | gyza/icp.py:133-151 | no content address occurs twice in an accepted chain |
| Provenance.SpliceBreaks | gyza/icp.py:133-151 | a chain with one more envelope spliced in is accepted exactly when that envelope was appended and is a good hop |
| Provenance.InjectionBreaksChain | gyza/icp.py:308-351 | out-of-range indices are errors; at every other index of every chain the spliced fake is detected, as documented |
| DagVerifier.CheckEnvelopes | gyza/icp.py:268-286 | passes exactly when every held envelope's key and signature decode and verify over its own hash, it read something and, in closed mode, its named predecessor is held; otherwise names the first faulty one in order of insertion, its first fault and what that fault means |
| DagVerifier.FirstProducers | gyza/icp.py:288-292 | every held output is mapped to the held producer with the least content address |
| DagVerifier.ProvenanceParents | gyza/icp.py:194-210 | the graph of spine edges to held parents and data edges to first producers other than the envelope itself |
| DagVerifier.SortedLeaves | gyza/icp.py:299-303 | the sorted list of exactly the addresses that nothing depends on |
| DagVerifier.VerifyDag | gyza/icp.py:236-305 | valid exactly when the held set is faultless and acyclic; then every ordered envelope is verified under its own key, every listed one is represented and, in closed mode, every named predecessor is listed; reports the least topological order, the sorted roots and the sorted leaves; otherwise empty lists and the first fault in insertion order, or a cycle |
| DagLaws.ClosedIsOpenAndHeld | gyza/icp.py:279-286 | closed acceptance is open acceptance of a list in which every predecessor that a held envelope names is listed |
| DagLaws.ArrangementIrrelevant | gyza/icp.py:264-305 | with no two listed envelopes sharing a payload hash, verdict, order, roots and leaves depend only on the set of envelopes |
| DagLaws.ReportUnique | gyza/icp.py:182-186 | an accepting report is determined by the held set |
| DagLaws.EveryArrangementAccepted | gyza/icp.py:264-286 | an accepted list is accepted in every order and multiplicity exactly when every listed envelope's signature verifies, shadowed ones included |
| DagLaws.EverySelectionAccepted | gyza/icp.py:264-305 | every sub-list is accepted in open mode exactly when every envelope is sound on its own and dropping producers can make no cycle |
| DagLaws.SubsetAccepted | gyza/icp.py:288-305 | an accepted list with pairwise distinct outputs has every soundly signed sub-list accepted |
| DagLaws.DistinctOutputsFixEdges | gyza/icp.py:288-292 | with distinct outputs, losing envelopes re-points no data edge |
| DagLaws.DroppedProducerMakesCycle | gyza/icp.py:290-297 | with a shared output, dropping the first producer turns an accepted list into a cyclic one |
| DagLaws.ChainAcceptedAsDag | gyza/icp.py:124-151 | an accepted chain is accepted by the closed DAG verifier exactly when no input resolves to a later envelope |
| DagLaws.ChainReport | gyza/icp.py:258-259 | then the order is the chain itself, with its first envelope the only root and its last the only leaf |
| DagLaws.NoForwardInputs | gyza/icp.py:288-297 | a chain in which nobody consumes an output produced later meets that condition |
| Witness.PlainIsLawful | gyza/icp.py:56-83 | an injective content address over every field but the signature exists, under Python's string order |
| Witness.SelectionCanFail | gyza/icp.py:288-297 | a concrete accepted history with a soundly signed sub-list that is rejected |
| Witness.VerifiersCanDiffer | gyza/icp.py:258-259 | a concrete chain accepted by one verifier and rejected by the other |
| Witness.OrderCanMatter | gyza/icp.py:264-266 | two concrete listings of one set of envelopes, one of them signed by another key, with different verdicts |
| Witness.DanglingSpine | gyza/icp.py:253-260 | a concrete accepted pair whose second envelope alone is accepted in open mode and rejected in closed mode |
| Witness.QuarantineCanFail | gyza/resilience.py:196-202 | a concrete accepted history that quarantining one agent turns into a rejected one |
| Witness.ForgedGrantVerifies | gyza/audit.py:258-279 | over any faithful transport, a valid bundle whose decomposition was bounded by a manifest other than the named one, which grants no spawning |
| Resilience.DetectEquivocation | gyza/resilience.py:79-111 | reports, in key order and once each, exactly the agents, intents and actions for which two listed envelopes agree in all three fields and differ in hash, with exactly the hashes of those envelopes |
| Resilience.DetectionUnique | gyza/resilience.py:79-111 | the report depends only on the set of envelopes |
| Resilience.QuarantineView | gyza/resilience.py:123-139 | an order-preserving split by author that loses and duplicates nothing |
| Resilience.AssessResilience | gyza/resilience.py:180-211 | quarantines exactly the given agents and those with two listed envelopes of equal intent and action and different hashes, so never one with at most one envelope for each; reports the open DAG verdict on the rest, in which nobody equivocates |
| Resilience.NoHonestEquivocation | gyza/resilience.py:123-139 | once every equivocator is set aside, nobody left equivocates |
| Resilience.QuarantineKeepsValid | gyza/resilience.py:196-202 | quarantining any agents of an accepted history with distinct outputs leaves an accepted history |
| Resilience.EveryQuarantineAccepted | gyza/resilience.py:196-202 | every quarantine of an accepted history leaves an accepted one exactly when the history has no closed circle: a cycle of spine edges and of inputs whose first producer among the authors on the cycle is the next envelope |
| Resilience.QuarantineMakesCycle | gyza/resilience.py:196-202 | with a shared output, quarantining its first producer's author can leave a cyclic history |
| Resilience.MissionSurvives | gyza/resilience.py:154-158 | such a mission stays intact exactly when the quarantine spares an author |
| Clock.HLC.Now | gyza/schema.py:123-132 | the stamp is the new reading, the least one strictly after the old one and not behind the wall clock |
| Clock.HLC.Recv | gyza/schema.py:134-147 | the reading ends at the least one strictly after the old reading and the received stamp and not behind the wall clock |
| Clock.HappenedBeforeAdvances | gyza/schema.py:90-147 | in every run of any number of nodes, happened-before implies a strictly smaller (l, c) |
| Clock.StampsUniqueIffIdsAre | gyza/schema.py:123-132 | stamps are pairwise different in every run exactly when node ids are |
| Clock.ClockBounded | gyza/schema.py:123-147 | no clock is ahead of the largest wall-clock reading taken so far |
| Clock.StampBounded | gyza/schema.py:123-147 | a stamp lies between its own node's reading and the largest reading so far |
| Clock.IgnoringReceiptBreaksOrder | gyza/schema.py:134-147 | without `recv` a node whose wall clock lags stamps an effect before its cause |
| Board.StampLtIsOrder | gyza/blackboard.py:480-486 | (l, c, node) tuples are strictly and totally ordered |
| Board.Blackboard.PostWorkItemDirect | gyza/blackboard.py:313-340 | inserts an absent id and leaves a present one alone |
| Board.Blackboard.TryClaimDirect | gyza/blackboard.py:386-430 | succeeds exactly on a present, unclaimed row within the claimant's tier, and then records claimant, stamp and claim time; nothing else changes |
| Board.Blackboard.MergeClaimDirect | gyza/blackboard.py:432-505 | takes over exactly an uncompleted row whose stamp is smaller |
| Board.Blackboard.MergeCompletionDirect | gyza/blackboard.py:507-556 | completes exactly an uncompleted row |
| Board.Blackboard.CompleteWorkItemDirect | gyza/blackboard.py:598-637 | overwrites the completion; with an expected owner it raises exactly when that owner does not hold the row, and then changes nothing |
| Board.Blackboard.ReleaseClaim | gyza/blackboard.py:763-779 | clears claim and stamp exactly on a claimed, uncompleted row |
| Board.Blackboard.ReclaimOne | gyza/blackboard.py:687-697 | clears the claim but not the stamp, exactly while the selected holder still holds the uncompleted row |
| Board.Blackboard.ReclaimExpiredClaims | gyza/blackboard.py:660-705 | undisturbed, clears exactly the expired claims, returns their ids once each, keeps stamps and all other rows |
| BoardRuns.CompletedForever | gyza/blackboard.py:507-637 | in every run a completed row stays completed |
| BoardRuns.RecordStable | gyza/blackboard.py:607-637 | its completion record is unchanged through a stretch exactly when no direct completion in it writes another record |
| BoardRuns.CompletionOverwritten | gyza/blackboard.py:607-618 | a direct completion after a merged one replaces the record |
| BoardRuns.ClaimantFrozen | gyza/blackboard.py:398-427 | a row both claimed and completed never changes claimant, claim time or stamp |
| BoardRuns.CompletedClaimantProtected | gyza/blackboard.py:398-413 | a completed row is safe from every step's change of claimant exactly when it is claimed |
| BoardRuns.HolderIsLastGrant | gyza/blackboard.py:386-505 | the holder, stamp and claim time are those of the last claim or merge, unless it was released or reclaimed since |
| BoardRuns.OwnerCheckedCompletion | gyza/blackboard.py:619-637 | an owner-checked completion takes effect exactly when the last claim or merge on the row named that owner with no release or reclaim since |
| BoardRuns.LeaseRespected | gyza/blackboard.py:675-695 | a claim taken at wall time t no later than the step after the sweep's select is reclaimed only after t + lease - 1 ms |
| BoardRuns.LeaseHoldsIff | gyza/blackboard.py:675-697 | every run with select, last claim and update at given places respects the lease exactly when the claim does not fall between select and update |
| BoardRuns.SweepTakesIff | gyza/blackboard.py:675-697 | whatever interleaves, the update takes a selected row exactly when it is still uncompleted and the last claim step in between, if any, was a grant to the same holder |
| BoardRuns.FreshClaimTaken | gyza/blackboard.py:675-697 | a sweep can take a claim renewed between its select and its update |
| Convergence.DeliverOutcome | gyza/blackboard.py:476-502 | any delivery of claims leaves the greatest claim that beats the row, or the row unchanged if none does |
| Convergence.ClaimsConverge | gyza/blackboard.py:476-502 | any two deliveries of one set of claims to an uncompleted row end alike, whatever the order and repetition |
| Convergence.GreatestClaimWins | gyza/blackboard.py:480-502 | on a never-claimed row every delivery of real claims ends at the greatest (l, c, node) |
| Convergence.CompletedAbsorbs | gyza/blackboard.py:476-478 | a completed row ignores every further delta |
| Convergence.MixedConvergence | gyza/blackboard.py:526-553 | all deliveries of a set of claims and completions agree exactly when there are only claims, or one completion and no claim that beats the row |
| Convergence.ReplayAfterClearing | gyza/blackboard.py:769-779 | replaying old claims leaves a reclaimed row unclaimed and takes a released row back to the cleared claim |
| ClaimOrder.NetworkNode.TryClaimItem | gyza/blackboard.py:342-374 | the clock ticks whether or not the claim is taken; an unclaimed row within the tier is taken exactly, under the stamp of that tick |
| ClaimOrder.NetworkNode.Receive | gyza/blackboard.py:456-460 | the clock moves past the received stamp first; the row is then taken over exactly if it is uncompleted and holds a smaller stamp |
| ClaimOrder.NetworkNode.CompleteItem | gyza/blackboard.py:558-596 | the clock ticks and the completion is recorded, unless a named owner does not hold the row, which raises |
| ClaimOrder.StampsAlwaysSeen | gyza/blackboard.py:456-460 | in every run of a node that observes before merging, no stored stamp is ahead of its clock |
| ClaimOrder.StepStamp | gyza/blackboard.py:386-505 | one step strictly raises the stored stamp on a successful claim or merge, zeroes it on a release and otherwise keeps it |
| ClaimOrder.OnlyReleaseLowers | gyza/blackboard.py:769-779 | a step lowers a stored stamp exactly when it is a release of a row with a real stamp |
| ClaimOrder.StampsRise | gyza/blackboard.py:386-505 | through any stretch without a release, with reclaims and completions interleaved, the stored stamp rises strictly if a claim or merge succeeded and is unchanged otherwise |
| ClaimOrder.MergeWithoutRecvLowers | gyza/blackboard.py:456-460 | without `recv`, a claim after merge and reclaim stores a smaller stamp than before |
| Queue.GetUnclaimed | gyza/blackboard.py:707-753 | serves, by reward and then age, only unclaimed, live rows of enough reward within the tier, no combiner with an uncompleted sibling, and every such row except those with at least `limit` qualifying rows ahead |
| Queue.ServedExactly | gyza/blackboard.py:726-761 | an unlimited fetch serves exactly the eligible rows whose gate is open, so never a combiner with an uncompleted sibling |
| Queue.LimitedIsPrefix | gyza/blackboard.py:726-753 | a limited fetch serves a prefix of what the unlimited one serves, no longer than the limit, and no gated combiner |
| Queue.CombinerGate | gyza/blackboard.py:755-761 | a combiner is held back exactly while another child of its parent is uncompleted |
| Queue.RivalCombinersBlock | gyza/blackboard.py:739-761 | two uncompleted combiners of one parent hold each other back |
| Queue.GateStaysOpen | gyza/blackboard.py:739-761 | an open gate is shut again exactly by posting a new uncompleted child of the same parent |
| Queue.GateThroughRun | gyza/blackboard.py:739-761 | in every run, once its siblings have completed a combiner is never held back again unless a new child of its parent is posted |
| Queue.CombinerWaits | gyza/blackboard.py:739-761 | in every run a combiner is held back for as long as another child of its parent is uncompleted |
| Queue.RankingIsOrder | gyza/blackboard.py:733 | reward first, then age, is a total order given the database's order of equal rows |
| Lineage.ComputeLineageDepth | gyza/blackboard.py:800-814 | terminates on every graph, cyclic ones included, with the number of parent hops up to the cap; a missing parent is one hop, an item that is its own parent none |
| Lineage.DepthExact | gyza/blackboard.py:800-814 | on a complete ancestry the depth is its length minus one, up to the cap |
| Lineage.AncestryDistinct | gyza/blackboard.py:807-813 | a complete ancestry never revisits an item, so the cycle guard never cuts it |
| Lineage.SpawnSubtasks | gyza/runner.py:467-558 | refuses exactly without authority, over the cap or beyond depth 3, posting nothing; otherwise posts exactly the requested children in order, up to the first invalid one, each with the kind, inputs, reward and capped tier asked for and, if a combiner, the parent as target; returns the last combiner if one was asked for; a combiner posted with others is shut |
| Lineage.ChildKeepsForest | gyza/runner.py:494-533 | one permitted child keeps every item within depth 3 of a root of its lineage, tiers not rising |
| Lineage.StepKeepsForest | gyza/blackboard.py:386-779 | no claim, merge, completion, release or reclaim disturbs the forest |
| Lineage.PathAbove | gyza/runner.py:508-533 | above every placed item runs a complete path to a root, of one lineage, tiers never rising downwards |
| Lineage.DepthOfPlaced | gyza/blackboard.py:800-814 | the computed depth of an item in a forest is its true depth |
| Lineage.ForestAcyclic | gyza/runner.py:508-533 | no chain of parent links of a forest returns to where it began |
| Lineage.FamilyBound | gyza/runner.py:71 | with at most k children per item, a root and all below it number at most 1 + k + k^2 + k^3 |
| LineageRuns.HistoryKeepsForest | gyza/runner.py:487-543 | from root items only, every board reached by any interleaving of posting loops and other steps is such a forest, each loop having checked its depth at some earlier moment |
| LineageRuns.CallIsItsTurns | gyza/runner.py:508-541 | an undisturbed call of `_spawn_subtasks` does what its posting turns do one by one |
| LineageRuns.ChildrenAreMade | gyza/runner.py:508-541 | in every history an item has exactly as many children as were posted for it |
| LineageRuns.FamilyBoundedInHistory | gyza/runner.py:487-543 | in every history, if no item was given more than k children by however many calls, no root's family exceeds 1 + k + k^2 + k^3 |
| LineageRuns.CapBoundsFamily | gyza/runner.py:487-506 | so the manifest's cap bounds every family in a history in which no item is decomposed by two calls |
| LineageRuns.RepeatedCallsUnbounded | gyza/runner.py:487-506 | with repeated decompositions of one item a cap of one child bounds no family |
| Runner.GatherInputs | gyza/runner.py:614-651 | refuses exactly a combiner with an uncompleted sibling; otherwise a combiner's inputs grow to cover every sibling's output and gain nothing else |
| Runner.NextExtendsChain | gyza/icp.py:378-410 | the envelope signed after the last one of an accepted chain extends it to an accepted chain |
| Runner.SessionAccepted | gyza/runner.py:1035-1057 | everything one runner instance signs, in any order of work, is an accepted chain |
| Runner.AgentRunner.SignCompletion | gyza/runner.py:1035-1057 | signs every reported field with the agent's own key and manifest, the hash of its last envelope as parent, the declared inputs or the placeholder, and the attested context once; the session grows by that envelope |
| Runner.AgentRunner.Process | gyza/runner.py:630-644 | a combiner that passes the gate signs inputs that cover every sibling's output; a refused one signs nothing |
| RateCap.RateGate | gyza/runner.py:845-862 | counts exactly this agent's envelopes stamped within the window and passes exactly without a cap or below it |
| RateCap.RateBounded | gyza/runner.py:845-862 | for an agent with one signing loop, in every run no closed interval of the window's length holds more of its envelopes than its cap, whatever other agents do |
| RateCap.ClearanceHolds | gyza/blackboard.py:898-913 | between a passed check and the signature nothing uses up the room that was found, if no other loop signs for the agent |
| RateCap.TwoLoopsExceed | gyza/runner.py:845-862 | two loops of one agent have a run that exceeds any positive cap |
| RateCap.CapBindsIff | gyza/runner.py:845-862 | for every agent of every configuration, its cap binds every run exactly when one loop at most signs for it, or it has no cap, or the cap allows nothing, or the window is negative |
| TreeHash.PackInjective | gyza/release.py:106-114 | the 4-byte big-endian length determines the length |
| TreeHash.RecordReadable | gyza/attest.py:77-88 | a tagged, length-prefixed record can be read back off the front of any stream |
| TreeHash.StreamInjective | gyza/release.py:106-114 | the byte stream determines the list of files, of any and differing numbers and lengths below 2^32 |
| TreeHash.HashInput | gyza/attest.py:60-89 | the hasher is fed the stream of the tree's files in path order, tag, length and bytes of path and content each; fails exactly when a length does not fit into 32 bits |
| TreeHash.TreesFedAlike | gyza/attest.py:60-89 | two trees feed the hasher alike exactly when they are the same tree |
| Attest.IndependentAgreement | gyza/attest.py:178-203 | a hash is agreed exactly when some verified attestation of this version and source names it, none names another, and enough different keys attest; the count is that of the hash with most keys, and the reason tells disagreement from too few keys |
| Attest.DissentEndsAgreement | gyza/attest.py:178-203 | one more counted attestation of another hash leaves no agreement at all |
| Attest.RepeatsDoNotCount | gyza/attest.py:178-203 | repeating an attestation changes no agreement |
| Bits.PositionsOfXor | gyza/demand.py:67-79 | XOR is the symmetric difference of bit positions |
| Bits.PositionsOfOr | gyza/demand.py:67-79 | setting one bit of a mask adds exactly that position |
| Demand.CombinationFor | gyza/demand.py:67-79 | every set of positions occurs among the enumerated combinations of its size |
| Demand.ShellExact | gyza/demand.py:67-79 | the masks of r positions reach every word at distance exactly r once and no other |
| Demand.BallExact | gyza/demand.py:67-79 | the ball lists every word within the radius exactly once |
| Demand.LSHIndex.NeighborBuckets | gyza/demand.py:67-79 | an error exactly for a negative radius; otherwise every 64-bit word within the radius, once each, and nothing else |
| Demand.ComputeDeficit | gyza/demand.py:187-199 | the walk over neighbour buckets equals the plain sum over all signals at distance at most 2 |
| Demand.DemandOracle.Poll | gyza/demand.py:148-177 | one signal per bucket that has an item, with the exact number of its items, their mean and best reward and greatest age |
| Demand.GroupingConserves | gyza/demand.py:148-177 | summed over buckets, any weight of the items is what it was over the items |
| Demand.TermIsTotal | gyza/demand.py:187-199 | a signal adds the total of its bucket's items, each scaled by the age factor of the bucket's oldest item |
| Demand.AgeFactorMeans | gyza/demand.py:194-198 | the age factor is the age in units of 30 seconds, at most 3 |
| Demand.DeficitOverItems | gyza/demand.py:148-199 | after a poll the deficit is a plain sum over the items: each item within distance 2 counts once, with its reward and its bucket's age factor |
| Audit.AuditRow | gyza/audit.py:191-297 | a row passes exactly when the artifact resolves and hashes to the signed output, an execution's named manifest resolves, hashes to its name and is satisfied by the record, and a decomposition is permitted and within its cap; each failing reason means the failure it names; the fall-back reason is never reached |
| Audit.AuditProvenance | gyza/audit.py:80-318 | valid exactly when the DAG is accepted and that holds of every listed envelope; in closed mode a valid history has every named predecessor listed; one row per envelope in list order |
| Audit.StrictImpliesRelaxed | gyza/audit.py:150-301 | a strict VALID is VALID under either relaxed flag |
| Audit.RelaxedArtifacts | gyza/audit.py:191-215 | relaxing the artifact flag excuses exactly the envelopes whose artifact does not resolve |
| Audit.SameEvidenceSameAudit | gyza/audit.py:150-301 | rows and verdict depend on nothing but the evidence named by the listed envelopes |
| Audit.DecompositionBoundIff | gyza/audit.py:217-279 | whatever manifests are supplied, a decomposition that audits sound was bounded by the manifest its envelope names exactly when it carries an enforcement record too or no permissive manifest with another hash exists |
| Evidence.CreateBundle | gyza/evidence.py:59-97 | collects exactly what the resolvers hold for the listed envelopes |
| Evidence.MakePayload | gyza/evidence.py:187-201 | commits to the sorted set of addresses by its size and root |
| Evidence.JoinInjective | gyza/evidence.py:187-201 | joining one-line addresses by newlines loses nothing |
| Evidence.CommitmentBinds | gyza/evidence.py:187-201 | two payloads have equal count and root exactly when they commit to the same set of addresses |
| Evidence.AttachClosure | gyza/evidence.py:209-235 | adds only the closure, which commits to the bundle's own envelopes |
| Evidence.VerifyClosure | gyza/evidence.py:255-287 | holds exactly when count and root match what the bundle holds and the signature verifies |
| Evidence.ClosureDetectsOmission | gyza/evidence.py:255-287 | a signed closure carried to another bundle holds exactly when that bundle has the same set of envelope hashes |
| Evidence.VerifyBundle | gyza/evidence.py:290-330 | an error exactly on undecodable artifacts or a broken closure; otherwise the strict audit of the bundle's own contents: valid only if every artifact decodes and hashes to its output, every execution is within the carried manifest that hashes to its name, and every named predecessor is carried |
| Evidence.BundleEvidence | gyza/evidence.py:297-322 | a created bundle decodes and carries the same evidence as the exporter's resolvers |
| Evidence.ExportAndVerify | gyza/evidence.py:59-330 | export followed by verification gives the rows and verdict of the strict local audit |
| Evidence.SwapUnnoticedIff | gyza/evidence.py:297-322 | filing a manifest under a name it does not hash to goes unnoticed in a valid bundle exactly when no execution names it and every decomposition that names it fits the forged grant |
| Supervisor.Child.CheckProgress | gyza/supervisor.py:678-701 | one progress check does exactly what the step function says |
| Supervisor.Child.Watch | gyza/supervisor.py:703-760 | a live process is down just when nothing was logged for the stall timeout and a held claim was seen; what is down is restarted within its budget unless it exited cleanly; everything else is only watched, completions counted |
| Supervisor.GaveUpAbsorbing | gyza/supervisor.py:703-760 | once given up, a child is never touched again |
| Supervisor.GivenUpExactly | gyza/supervisor.py:715-760 | in every run a child is given up by a tick exactly when it was before, exited cleanly, or crashed not late with max_restarts restarts since the last late one, or crashed late with no budget at all |
| Supervisor.BudgetSpent | gyza/supervisor.py:735-760 | without a late restart a stretch makes at most the remaining budget of restarts, each one counted |
| Supervisor.CrashLoopBounded | gyza/supervisor.py:735-760 | any stretch with more than max_restarts restarts contains a late one, and a later late one if it begins with a restart |
| Supervisor.NoWindowExceeds | gyza/supervisor.py:530-536 | with a clock that never goes back, no interval of the window's length ever holds more than max_restarts restarts |
| Supervisor.FullWindowGivesUp | gyza/supervisor.py:530-536 | a child that crashes within the window of max_restarts earlier restarts is given up |
| Supervisor.DocumentedCeilingIff | gyza/supervisor.py:530-536 | in every run a crashed child is given up exactly when max_restarts restarts fell into the window that ends there: this holds of the code exactly for a budget of at most one or a negative window |
| Supervisor.SpreadCrashesGiveUp | gyza/supervisor.py:735-760 | for every larger budget, crashes a window apart exhaust it although only one restart falls into the last window |
| Supervisor.StallMeansNoCompletion | gyza/supervisor.py:678-701 | a stall restart means no logged envelope within the stall timeout and a held claim seen since the flag was cleared |
| Supervisor.RecentWorkIsSafe | gyza/supervisor.py:678-701 | a process with an envelope within the stall timeout is not restarted for stalling |
| Supervisor.StallMeansAttempt | gyza/supervisor.py:678-701 | in every run a stall restart is preceded by a tick that saw a held claim with the flag not cleared since |
| Supervisor.StaleAttemptConvicts | gyza/supervisor.py:678-701 | that claim may already have been completed |
| Supervisor.FlagMeansWindowIff | gyza/supervisor.py:518-519 | throughout a run `saw_attempt` says that a held claim was seen in the current window exactly when no completion is counted while it is set |
| Supervisor.StallsFair | gyza/supervisor.py:693-701 | then every stall restart comes after a held claim was seen in the very window it ends |
| Supervisor.FairFromIff | gyza/supervisor.py:678-701 | from a live state every stall that ends the current window was earned in it, whatever follows, exactly when the flag is down in that state |
| Supervisor.StallIsEarned | gyza/supervisor.py:678-701 | from a state with the flag down, no stall restart in any continuation comes before a held claim was seen |
| Supervisor.WindowsFairIff | gyza/supervisor.py:678-701 | every window a run opens is fair in that sense exactly when the run never counts a completion while the flag is set |
| Roster.Slot.StartSlot | gyza/roster.py:162-177 | a failed start gives the slot up, a successful one resets the progress clock |
| Roster.Slot.CheckProgress | gyza/roster.py:222-247 | one progress check does exactly what the step function says |
| Roster.Slot.Watch | gyza/roster.py:259-288 | a live agent is down just when nothing was logged for the stall timeout and a held claim was seen; what is down is started anew within its budget; everything else is only watched, completions counted |
| Roster.SlotGaveUpAbsorbing | gyza/roster.py:259-288 | once given up, a slot is never touched again |
| Roster.StartsArePaid | gyza/roster.py:259-288 | in every run the number of starts is one more than the restarts counted within the budget |
| Roster.StartsBounded | gyza/roster.py:259-288 | in every run a slot is started at most max_restarts + 1 times |
| Roster.SlotGivenUpExactly | gyza/roster.py:259-288 | at every point of every run a slot is given up exactly when its first start failed, its agent was found down more than max_restarts times, or a restart failed |
| Roster.SlotStallMeansNoCompletion | gyza/roster.py:222-247 | a stalled slot logged nothing for the stall timeout and was seen to hold a claim |

## Left out

* Raft routing, gossip transport, `NetworkBlackboard`, settlement, delegation, sandbox, containment and
  the governance ledger: not part of this model. Remote deltas are inputs of the merge steps.
* Ed25519, BLAKE3, hex and base64 decoding, JSON and `spec_from_manifest`: parameters.
* `heapq` is a set with a least-element pop, and children are relaxed in any order: the internal layout
  of the heap is not modelled.
* Error texts, log lines and metrics; reasons are constructors.
* Embeddings and the planes of `LSHIndex.hash`: buckets are given, so only their arithmetic is modelled.
* Floating-point rounding of rewards and age factors.
* `INSERT OR REPLACE` of two envelopes with one hash: the envelope log of `RateCap` keeps both, which
  can only raise the count.
* The intent table and its foreign key, work-item descriptions, `streaming_ok` and reward refreshing.
* Artifact fetching in `_gather_inputs`, tier attestation, scoring and the failure memory of the runner.
* Real threads, processes and database locking: a transaction or a watch tick is one atomic step.
- GatherInputs: the repeated reads of the board inside it are one snapshot.
- DetectEquivocation: the listed outputs are tied to the envelopes only under an injective hash, because the code stores one output per hash.
- SpawnSubtasks: that the new ids are fresh and distinct is required, as `uuid7` promises.
- VerifyClosure: the closure's `intent_id` is not compared with the bundle's, as in the source.
- ClosureDetectsOmission: speaks of the set of envelope hashes only, for the same reason.
- ReclaimExpiredClaims: is stated for a sweep without interference; `SweepTakesIff` and `LeaseHoldsIff` state what interleaving changes.
- Poll: the centroid embedding of a signal is not modelled.
- CapBoundsFamily: that no item is decomposed by two calls is a hypothesis, as nothing enforces it and `RepeatedCallsUnbounded` is a history without it; `FamilyBoundedInHistory` does not need it.
- DocumentedCeilingIff: a restart is dated by its new start, and counts when that start lies in the closed window.
- ComputeDeficit: reads one snapshot of the signals, where the source reads bucket by bucket while the poller may swap the table.
- ServedExactly: the order among rows equal in reward and age is whatever the database chooses.
- CompleteWorkItemDirect: the four completion columns are one value.
- SlotStallMeansNoCompletion: the window laws of the process supervisor's stall rule are not repeated for slots, whose check is the same.
