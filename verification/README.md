# LLMKube in Dafny

A model of the decision logic of LLMKube, a Kubernetes operator for LLM
inference, with proofs about whole runs of its controllers and about every input
of its compilers. Kubernetes, HTTP and the clock appear only as inputs: a probe is a
function from a URL to an answer, a listing is a value or a failure, a status write
succeeds or not, and a pass carries its own clock readings.

`dafny verify dfyconfig.toml` checks the project.

| area | modules |
|---|---|
| drain before rollout | `IdleCheck`, `RolloutGate` (one pass), `RolloutRuns` (every run) |
| hub and edge federation | `Heartbeat`, `EdgeSummary`, `Federation` (every interleaving), `SilentSite` |
| affected-package selection | `ReverseClosure`, `GoListNames`, `AffectedPackages` |
| route compiler | `RouteMatches`, `RouteLaw`, `BackendEjection`, `BudgetRates` |
| GPU arithmetic | `Gcd`, `LayerRange`, `TensorSplit`, `Parallelism` |
| pod placement and diagnosis | `ArchAffinity`, `CrashEvidence`, `DriverCompat`, `Acceleration` |
| files and names | `FileSet`, `NameSlugs` |
| shared | `Common` (Go's integers), `Conditions` (status conditions), `StringOrder` |

## What the proofs found

Where a promise does not hold for all inputs, the exact condition is proved beside it.

- A held service rolls exactly when its budget is spent and the status write lands
  (`HeldRollsIffOverdue`). The wait is counted from the stored condition of any
  status, so a False left by an earlier timeout can roll a new change at once
  (`LeftoverTimeoutIsReused`, `ChangeAfterTimeoutRollsUndeferred`). An idle check
  slower than the whole budget rolls a service nobody deferred
  (`SlowCheckRollsUndeferred`).
- The API server stores the start of a wait in whole seconds, so a service can be rolled
  almost a second before its budget is up. Every first roll waits the whole budget
  exactly when the store is exact (`WholeWaitIffExactStore`, `EarlyRoll`), and never
  less than the budget minus the store's precision (`EpisodeWaitsTheWholeTimeout`).
- The declared `idleTimeoutSeconds` has no maximum. The budget is the declared one
  exactly up to 9223372036 seconds (`TimeoutAsDeclaredIff`). One second more makes it
  negative, and a busy service is rolled at once (`OverflowedTimeouts`,
  `NegativeBudgetRollsAtOnce`).
- For a budget below ten seconds a deferral can return a zero RequeueAfter, which the
  caller reads as "go" while the stored condition still says deferred (`RequeueSign`,
  `ShortBudgetRollsWhileDeferred`). The episode still ends in time (`EpisodeEndsInTime`).
- The API field documentation (`api/v1alpha1/inferenceservice_types.go:1068-1069`) says
  a runtime without idle detection proceeds at once. The code defers it until the
  timeout, and the model follows the code (`UnsupportedRuntimeWaits`).
- Ten heartbeat intervals overflow a Go duration above 922337203 seconds; from there
  the hub never says Stale (`PromiseKeptIffNoOverflow`, `OverflowSkipsStale`).
- The stored phase of a silent site moves only forward once one hub pass with no other
  in flight has settled it (`StoredPhaseOnlyDecays`, `PassSettles`). With two in flight
  the earlier read can still move it back (`EarlierReadMovesPhaseBack`,
  `EarlierReadIsReachable`).
- A package whose own name ends in `_test` or `.test` loses its test nodes to another
  package (`NodeNamesReduceIff`, `TestNodesOfTestNamedPackage`), so a change that reaches
  it only through its tests selects the other one (`TestNamedPackageIsMissed`).
- A node selector term without requirements, or a selector without terms, matches no
  node, but gains the architecture requirement and then matches
  (`RewriteAdmitsExactly`, `EmptyTermIsWidened`). A comment in the code
  (`internal/controller/deployment_builder.go:826-827`) takes a selector without terms
  for one that matches every node.
- An overflowing budget product always yields too small a limit (`OverflowFallsShort`),
  so outside the minimum of one the limit is faithful exactly without overflow
  (`FaithfulIffNoOverflow`).
- Parallelism sizes whose product wraps an int32 can be admitted (`VllmAcceptedIff`,
  `SglangAcceptedIff`, `GroupAcceptedIffFilled`, `WrappedWorldIsAccepted`,
  `WrappedPipelineIsAccepted`). The CRD sets no minimum for vLLM's tensor size: zero is
  accepted with any pipeline size, and a product that wraps from below is rejected
  (`ZeroTensorIsAccepted`, `UnderflowIsRejected`).
- A shared or partitioned service is meant to be single-device, but no sharing rule
  looks at the pipeline size. Admission forces a single device exactly for the services
  whose pipeline size does not slip through (`SharingForcesSingleDeviceIff`,
  `SharedPipelineSlipsThrough`).
- The reconcile backstop accepts more than the webhook exactly for shared or partitioned
  pods with a wrapping product, and for such groups whose vLLM sizes fill the group while
  its tensor size or any SGLang size is above one (`BackstopAgreesIff`,
  `BackstopMissesSharedService`).
- Layer ranges that mix a whole-int64 range with an ordinary one print a ratio below
  one (`RatiosPositiveIff`).
- A user header equivalent to a generated one is not checked, of two equivalent user
  headers only the first counts, and an empty model name turns an agent gateway rule into
  a header-only one. Names are compared up to any given equivalence, such as letter case.
  The exact rules that still obey the documented law are `LawKept` and `AgentLawKept`
  (`RuleAcceptsIsTheLaw`, `AgentRuleAcceptsIsTheLaw`, `ReusedHeadersBreakTheLaw`,
  `AgentReuseBreaksTheLaw`).
- Two visible GPUs without an offload summary are reported as CPU, and a load that names
  the CPU itself and offloads nothing is reported with no device, although the code
  documents CPU for it (`internal/controller/acceleration.go:140-143`; `CpuReportedIff`,
  `TwoGpusReadAsCpu`, `NamedCpuReadsAsBlank`).

## Model

| member | source | states |
|---|---|---|
| `IdleCheck.CollectReplicaUrls` | internal/controller/drain_before_rollout.go:116-148 | the slice walk returns the URLs of one readiness in listing order |
| `IdleCheck.BothCollectionsCoverEveryAddress` | internal/controller/drain_before_rollout.go:214-219 | a URL is in the ready or the not-ready collection exactly when some endpoint of some slice has that address |
| `IdleCheck.CollectionIsByReadiness` | internal/router/endpoints.go:30-44 | each collection holds exactly the addresses of endpoints of its readiness, where no ready condition means ready |
| `IdleCheck.ReadyOnesComeFirst` | internal/controller/drain_before_rollout.go:218-219 | addresses are probed ready ones first |
| `IdleCheck.CheckServiceIdle` | internal/controller/drain_before_rollout.go:154-243 | the verdict or error is that of the first probe that is not idle, with the Service URL fallback and the nothing-addressable error |
| `IdleCheck.CountOldPods` | internal/controller/drain_before_rollout.go:254-274 | total and ready counts, each pod at most once, and an error for a failed list |
| `IdleCheck.ObserveDrain` | internal/controller/drain_before_rollout.go:314-376 | the pass's conclusion, and that it is the right one: drained, or held for the one reason that probes and pods warrant |
| `IdleCheck.WarrantedDrain` | internal/controller/drain_before_rollout.go:314-376 | PodsCrashLooping exactly when the service is not drained, no probe decided unsupported or unreachable and some listed pod has no true Ready condition; PodsBusy the same with every listed pod Ready or the list failed; IdleCheckFailed exactly when the first address that is not idle, ready ones first, is unreachable |
| `IdleCheck.OneConclusionWarranted` | internal/controller/drain_before_rollout.go:314-376 | no two conclusions are warranted at once |
| `IdleCheck.DrainedInExactlyThreeWays` | internal/controller/drain_before_rollout.go:314-350 | idle is concluded in exactly three ways: every listed address idle, no slices and the Service URL idle, or nothing addressable and a pod list known empty |
| `RolloutGate.InferenceService.ReconcileRolloutPolicy` | internal/controller/drain_before_rollout.go:279-430 | result, stored condition and in-memory condition of one pass over the status object, every other condition untouched; without a policy, without waitForIdle, with force or for a drained service the rollout goes and the condition is cleared |
| `RolloutGate.HeldPassLeaves` | internal/controller/drain_before_rollout.go:352-419 | what a pass that holds a service leaves: False with the timeout's reason or True with the current one, since the time it already had that status |
| `RolloutGate.UnchangedTemplateClears` | internal/controller/inferenceservice_controller.go:1255-1266 | a pass that finds the template as it was rolls nothing and clears a leftover condition, unless that write fails |
| `RolloutGate.InferenceService.ClearDeferred` | internal/controller/drain_before_rollout.go:286-292 | removes only the RolloutDeferred entry, writes only when there was one, fails only when that write fails |
| `RolloutGate.InferenceService.SetDeferred` | internal/controller/drain_before_rollout.go:409-419 | sets only that entry, keeping the transition time unless the status changes |
| `RolloutRuns.HeldRollsIffOverdue` | internal/controller/inferenceservice_controller.go:1228-1254 | the caller updates the pod template of a held service exactly when the budget since the anchor is spent and the write lands |
| `RolloutRuns.RequeueSign` | internal/controller/drain_before_rollout.go:421-429 | from ten seconds up a deferral asks for five seconds; below, for the rest of the budget, zero exactly once it is gone |
| `RolloutRuns.AnchorExists` | internal/controller/drain_before_rollout.go:385-390 | over every run, a stored condition was set by one earlier pass that held the service, and kept its status and time since |
| `RolloutRuns.HeldRollWaited` | internal/controller/drain_before_rollout.go:385-407 | over every run, with policies and reasons changing freely, a held service rolls only when the budget ran out since the pass that set the condition it found |
| `RolloutRuns.EpisodeRollsOnlyWhenOverdue` | internal/controller/drain_before_rollout.go:357-407 | the first roll of an episode comes only after the budget since its first saved deferral, however often the reason changed |
| `RolloutRuns.EpisodeWaitsTheWholeTimeout` | internal/controller/drain_before_rollout.go:380-407 | for every store, a first roll with ten seconds or more and a check within the budget comes after the first saved deferral by more than the timeout minus the store's precision, and early exactly when the budget runs out inside what truncation cut off |
| `RolloutRuns.WholeWaitIffExactStore` | internal/controller/drain_before_rollout.go:385-407 | every first roll waits strictly longer than the timeout exactly when stored times are exact |
| `RolloutRuns.EarlyRoll` | internal/controller/drain_before_rollout.go:385-407 | for every inexact store, a concrete run that rolls within the budget of its only deferral |
| `RolloutGate.TimeoutAsDeclaredIff` | api/v1alpha1/inferenceservice_types.go:1073-1079 | for every non-negative int the budget is the declared one, with zero meaning 300 seconds, exactly up to 9223372036 seconds |
| `RolloutGate.OverflowedTimeouts` | internal/controller/drain_before_rollout.go:380-383 | one second more is a negative budget and 2^55 seconds are the default |
| `RolloutRuns.NegativeBudgetRollsAtOnce` | internal/controller/drain_before_rollout.go:392-407 | with a negative budget the first pass that finds a service busy rolls it |
| `RolloutRuns.LeftoverTimeoutIsReused` | internal/controller/drain_before_rollout.go:385-407 | a leftover False rolls a held service at once exactly when the budget since it is spent, and a pass that does not roll starts a new wait |
| `RolloutRuns.UnsupportedRuntimeWaits` | internal/controller/drain_before_rollout.go:157-161 | whatever makes the check unsupported, the service rolls exactly when its budget is spent and is reported as unsupported until then |
| `IdleCheck.UnsupportedIff` | internal/controller/drain_before_rollout.go:154-243 | a check is unsupported exactly without a detector or when the probe that decides it says so |
| `RolloutRuns.ChangeAfterTimeoutRollsUndeferred` | internal/controller/drain_before_rollout.go:385-407 | a change met right after a timeout roll, later than its own budget, rolls without a deferral |
| `RolloutRuns.SlowCheckRollsUndeferred` | internal/controller/drain_before_rollout.go:392-407 | a concrete run that rolls a busy service no pass deferred |
| `RolloutRuns.DeferringKeepsFirstAnchor` | internal/controller/drain_before_rollout.go:409-416 | while an episode only defers, the condition stays True since its first pass |
| `RolloutRuns.EpisodeEndsInTime` | internal/controller/drain_before_rollout.go:392-429 | for every budget, an episode rechecked within `gap` and watched past its budget first rolls within budget + gap, every earlier pass asking to come back; from ten seconds up by timeout after five second requeues, below possibly through a zero deferral that leaves the condition True; `gap` is the requeue plus the latency of a pass |
| `RolloutRuns.ShortBudgetRollsWhileDeferred` | internal/controller/drain_before_rollout.go:421-429 | below ten seconds a budget that runs out between check and return rolls the service with the stored condition still True since the same time |
| `RolloutRuns.DeferralsAreBounded` | internal/controller/drain_before_rollout.go:392-429 | checks at least `step` apart give at most budget / step + 1 deferrals |
| `Heartbeat.EffectiveSeconds` | internal/controller/federatedcluster_controller.go:42-52 | never below the delivered cadence nor below the spec, and one of the two |
| `Heartbeat.PromiseKeptIffNoOverflow` | api/federation/v1alpha1/federatedcluster_types.go:52-59 | the hub keeps the documented 3x and 10x thresholds for every heartbeat and clock exactly up to 922337203 seconds |
| `Heartbeat.OverflowSkipsStale` | internal/controller/federatedcluster_controller.go:57-72 | beyond that bound the hub goes from Connected straight to Unreachable |
| `Heartbeat.HealthySiteReadsConnected` | internal/controller/federatedcluster_controller.go:42-72 | a heartbeat at most three delivered pushes old reads Connected for every spec interval |
| `Heartbeat.PhaseOnlyDecays` | internal/controller/federatedcluster_controller.go:57-72 | with the same heartbeat a later pass never reads a better phase |
| `Heartbeat.SilentSiteBecomesUnreachable` | internal/controller/federatedcluster_controller.go:57-94 | once heartbeats stop, requeued passes compute a phase that moves only forward and is Unreachable by eleven effective intervals |
| `SilentSite.StoredPhaseOnlyDecays` | internal/controller/federatedcluster_controller.go:77-95 | over every interleaving without a landed push and with monotone hub reads, a settled stored phase moves only forward |
| `SilentSite.PassSettles` | internal/controller/federatedcluster_controller.go:77-95 | after any run, one hub pass with no other in flight settles the phase |
| `SilentSite.SilentSiteIsStoredUnreachable` | internal/controller/federatedcluster_controller.go:57-95 | an uninterrupted pass more than ten effective intervals after the last landed push stores Unreachable |
| `SilentSite.EarlierReadMovesPhaseBack` | internal/controller/federatedcluster_controller.go:77-89 | with two passes in flight the write of the earlier read can undo the phase the later read confirmed |
| `SilentSite.EarlierReadIsReachable` | internal/controller/federatedcluster_controller.go:77-89 | such a state follows every run that has stored Stale |
| `EdgeSummary.SumGpuQuantity` | internal/controller/federation_edge_controller.go:245-253 | the int64 running total cut to int32 is the exact device count as an int32 |
| `EdgeSummary.BuildStatusSummary` | internal/controller/federation_edge_controller.go:207-239 | every counter, wrapped at each addition, is the true fleet count as an int32 |
| `EdgeSummary.SummaryOfSite` | internal/controller/federation_edge_controller.go:207-239 | each number is the int32 of what the site has: nodes, models, services, ready and failed services by multiplicity, and the sums of capacities and of allocatables |
| `EdgeSummary.GpusAreTheFiveKinds` | internal/controller/federation_edge_controller.go:245-253 | a resource list counts its five kinds of GPU device and nothing else |
| `Federation.PatchKeepsForeignWrites` | internal/controller/federation_edge_controller.go:177-192 | a diff patch sets what its writer changed and leaves every other leaf as it is now |
| `Federation.PushLands` | internal/controller/federation_edge_controller.go:163-192 | a push leaves exactly the fields of its own tick and the phase of that moment |
| `Federation.PushReports` | internal/controller/federation_edge_controller.go:177-192 | the fields of a push are its summary, leaf by leaf |
| `Federation.StepKeepsInv` | internal/controller/federation_edge_controller.go:146-192 | every step of either writer keeps the ownership invariant and never lowers the stored heartbeat |
| `Federation.EachWriterOwnsItsFields` | internal/controller/federatedcluster_controller.go:77-89 | in every interleaving the edge fields are all those of the last landed push and the phase is one the hub computed from a heartbeat it had read |
| `Federation.HeartbeatNeverGoesBack` | internal/controller/federation_edge_controller.go:163-192 | in every interleaving the stored heartbeat never goes backwards |
| `Federation.StaleCopyIsTurnedAway` | internal/controller/federatedcluster_controller.go:77-89 | an accepted phase write judged the heartbeat stored at that moment; a copy that is out of date changes nothing, and one with another heartbeat held a strictly earlier one |
| `Federation.CopyIsNotAhead` | internal/controller/federatedcluster_controller.go:77-89 | in every interleaving a hub pass in flight holds a heartbeat no later than the stored one |
| `Federation.UndisturbedPassIsAccurate` | internal/controller/federatedcluster_controller.go:77-95 | after any run, an uninterrupted hub pass leaves the phase the last landed push deserves and no edge field changed |
| `Federation.Datacenter.Tick` | internal/controller/federation_edge_controller.go:146-199 | a tick that reaches the hub leaves, leaf by leaf, the site's own counts, version and heartbeat, and the phase alone; otherwise nothing changes |
| `Federation.Datacenter.ReconcilePhase` | internal/controller/federatedcluster_controller.go:77-95 | the phase becomes the stored heartbeat's, nothing else changes, requeue after one effective interval |
| `ReverseClosure.ReverseClosure` | cmd/affected-packages/main.go:276-296 | the worklist terminates and returns exactly the nodes with an import chain to a seed, whatever order seeds are taken in |
| `ReverseClosure.ClosedSetHoldsAll` | cmd/affected-packages/main.go:276-296 | a set that holds the seeds and is closed under dependents holds every node that reaches a seed |
| `GoListNames.NodeNamesReduceIff` | cmd/affected-packages/main.go:298-317 | the four node names of a package all reduce to it exactly when its own name ends in no test suffix |
| `GoListNames.PlainNameIsKept` | cmd/affected-packages/main.go:298-317 | a name that is neither a variant nor a test main stands for itself, whatever it ends in |
| `GoListNames.TestNodesOfTestNamedPackage` | cmd/affected-packages/main.go:298-317 | the test main and the in-package variant of any x_test reduce to x |
| `AffectedPackages.TestNamedPackageIsMissed` | cmd/affected-packages/main.go:145-156 | a change that reaches x_test only through its test main selects x and not x_test |
| `AffectedPackages.MapFilesToPackages` | cmd/affected-packages/main.go:232-261 | the selected directories are exactly the deepest enclosing ones, and the flag is set exactly when a .go file outside test/e2e has none |
| `AffectedPackages.DeepestIsUnique` | cmd/affected-packages/main.go:236-247 | two longest enclosing directories of a file are equal, so listing order cannot matter |
| `AffectedPackages.HitIff` | cmd/affected-packages/main.go:236-261 | a directory is hit exactly when it is the deepest one of some changed file |
| `AffectedPackages.AnyUnmappedIff` | cmd/affected-packages/main.go:248-258 | the fallback flag means some changed .go file outside test/e2e has no enclosing directory |
| `AffectedPackages.ImportEdges` | cmd/affected-packages/main.go:263-274 | the edge map lists, for each path, its importers in order |
| `AffectedPackages.ImportersIff` | cmd/affected-packages/main.go:263-274 | a node is an importer of a path exactly when it lists the path among its imports |
| `AffectedPackages.ModulePackages` | cmd/affected-packages/main.go:181-198 | the reduced packages inside the module, without test/e2e |
| `AffectedPackages.PackageDirs` | cmd/affected-packages/main.go:204-221 | the nodes of each module directory, in listing order |
| `AffectedPackages.FileInDirectoryChangesPackage` | cmd/affected-packages/main.go:204-261 | a changed file directly in the directory of a listed package, below the root or in it, changes that package |
| `AffectedPackages.ChangedIsBelowRoot` | cmd/affected-packages/main.go:200-221 | only packages listed at or below the root are changed |
| `AffectedPackages.ModuleIff` | cmd/affected-packages/main.go:181-202 | the module's packages are what nodes at or below the root reduce to, without test/e2e |
| `AffectedPackages.UnmappedIff` | cmd/affected-packages/main.go:223-261 | a file falls back to everything exactly when it is a .go file outside test/e2e and no listed directory is its own or above it |
| `AffectedPackages.FirstBuildAffecting` | cmd/affected-packages/main.go:159-168 | empty exactly when no build file changed, otherwise the first changed build file |
| `AffectedPackages.ReachesIsAffected` | cmd/affected-packages/main.go:141-147 | reaching a seed in the edge map is having a chain of imports, over the listed nodes, to a package of a changed file's directory |
| `AffectedPackages.SelectPackages` | cmd/affected-packages/main.go:118-157 | everything with its reason exactly when a fallback applies; otherwise exactly the module packages some node of which has an import chain to a changed package; sorted, no duplicates |
| `StringOrder.SortedKeys` | cmd/affected-packages/main.go:397-404 | a strictly sorted list of exactly the keys |
| `StringOrder.SortedListIsUnique` | cmd/affected-packages/main.go:397-404 | two strictly sorted lists of the same strings are equal, so map iteration order cannot show |
| `StringOrder.LessIff` | cmd/affected-packages/main.go:397-404 | the order is the dictionary order: the first difference decides and a proper prefix comes first |
| `RouteMatches.SortedHeaderMatches` | internal/controller/gateway_resources_modelrouter.go:436-453 | one condition per user header, sorted by name |
| `RouteMatches.BuildOptions` | internal/controller/gateway_resources_modelrouter.go:406-419 | one condition per value in order, or a single placeholder for none |
| `RouteMatches.CompileRuleMatches` | internal/controller/gateway_resources_modelrouter.go:364-404 | the nested loops yield the cross product with sorted user headers, and for every request and every equivalence of header names it accepts exactly what the rule describes |
| `RouteMatches.CompiledRuleAccepts` | internal/controller/gateway_resources_modelrouter.go:364-453 | for every rule, request and equivalence of names, exactly when the compiled entries accept: shadowed names and all but the least of equivalent user headers are not checked |
| `RouteMatches.AcceptsIff` | internal/controller/gateway_resources_modelrouter.go:369-371 | entries are ORed |
| `RouteMatches.FirstIffCounts` | internal/controller/gateway_resources_modelrouter.go:436-453 | in the sorted list the first of equivalent names is the least of them |
| `RouteLaw.RuleAcceptsIsTheLaw` | api/v1alpha1/modelrouter_types.go:429-438 | for every equivalence of names, the rule accepts exactly the documented law (one of the models, one of the classifications, all user headers) if and only if equivalent user headers agree, no listed value contradicts a user header equivalent to its own, and on a shared header every model is a classification; every rule accepts at least the law |
| `RouteLaw.RefusedRequestAccepted` | internal/controller/gateway_resources_modelrouter.go:364-404 | every other rule accepts some request the law refuses |
| `RouteLaw.ReusedHeadersBreakTheLaw` | internal/controller/gateway_resources_modelrouter.go:364-404 | for any spelling of the model header: three concrete rules outside the family |
| `RouteMatches.CompileAgentRuleMatches` | internal/controller/gateway_resources_agentgateway.go:262-288 | one entry per model with sorted user headers, and for every request and every equivalence of header names it accepts exactly what the rule describes |
| `RouteMatches.CompiledAgentRuleAccepts` | internal/controller/gateway_resources_agentgateway.go:262-288 | for every model list, headers, request and equivalence of names, the exact two ways the agent entries accept |
| `RouteLaw.AgentRuleAcceptsIsTheLaw` | internal/controller/gateway_resources_agentgateway.go:262-288 | for every equivalence of names, the agent rule accepts exactly the documented law if and only if equivalent user headers agree, every non-empty model is the one each user header equivalent to the model header asks for, and an empty name stands only where one asks for a listed model |
| `RouteLaw.AgentRefusedRequestAccepted` | internal/controller/gateway_resources_agentgateway.go:262-288 | every other agent rule accepts some request the law refuses |
| `RouteLaw.AgentReuseBreaksTheLaw` | internal/controller/gateway_resources_agentgateway.go:262-288 | for any spelling of the model header: two concrete rules outside the family |
| `BackendEjection.EjectUnhealthyBackends` | internal/controller/gateway_health_ejection.go:42-88 | a reference stays exactly when no backend of its name is unhealthy or every reference of its rule names an unhealthy one; everything else of a rule is kept; the sorted, duplicate-free report holds exactly the unhealthy names referenced by a rule that keeps another reference |
| `BackendEjection.EjectKeepsOrder` | internal/controller/gateway_health_ejection.go:54-78 | the result is a sub-list at strictly increasing positions |
| `BackendEjection.Eject` | internal/controller/gateway_health_ejection.go:67-72 | a rule with references is never emptied |
| `BackendEjection.EjectIsIdempotent` | internal/controller/gateway_health_ejection.go:42-88 | a second pass changes nothing and ejects nothing |
| `BackendEjection.EjectedMeansGone` | internal/controller/gateway_health_ejection.go:66-80 | a name is ejected from a rule exactly when it was referenced and no reference is left |
| `BackendEjection.AgentEjectRule` | internal/controller/modelrouter_agentgateway_controller.go:1476-1507 | the same filter with unknown names unhealthy; every unhealthy reference is reported |
| `BackendEjection.AgentStaysIff` | internal/controller/modelrouter_agentgateway_controller.go:1476-1507 | a reference stays exactly when its name is healthy or none of the rule's is, and exactly the unhealthy ones are reported |
| `BackendEjection.LastListingDecides` | internal/controller/modelrouter_agentgateway_controller.go:1477-1480 | the last listing of a name decides its health and its pool |
| `BackendEjection.CompileAgentBackendRefs` | internal/controller/gateway_resources_agentgateway.go:298-323 | the deduplicating loop emits the pool of the first reference that has one |
| `BackendEjection.FailoverPicksFirstHealthy` | internal/controller/gateway_resources_agentgateway.go:290-323 | ejection then compilation yields the pool of the first healthy backend, or with none healthy that of the first reference that has a pool |
| `BudgetRates.WindowUnit` | internal/controller/gateway_resources_modelrouter.go:682-707 | the largest unit not longer than the window |
| `BudgetRates.LimitIsFaithful` | internal/controller/gateway_resources_modelrouter.go:605-613 | without overflow the clamp fires exactly below one per unit; otherwise the limit is the scaled cap rounded down and never admits more than the cap over the whole units of a window |
| `BudgetRates.ExactWindows` | internal/controller/gateway_resources_modelrouter.go:605-613 | a window of exactly one unit keeps the cap |
| `BudgetRates.FaithfulIffNoOverflow` | internal/controller/gateway_resources_modelrouter.go:605-613 | when the clamp does not apply the limit is faithful exactly when the product fits an int64 |
| `BudgetRates.OverflowFallsShort` | internal/controller/gateway_resources_modelrouter.go:605-613 | an overflowed product gives a limit below the scaled cap |
| `Gcd.GcdLoop` | internal/controller/gpu_sharding.go:121-126 | the loop terminates on all integers and computes the recursion |
| `Gcd.GcdOfIsGcd` | internal/controller/gpu_sharding.go:121-126 | on naturals, not both zero, the result is the greatest common divisor |
| `LayerRange.ParseIff` | internal/controller/gpu_sharding.go:101-119 | exactly which strings parse and to what: numerals of an ordered int64 range on the two sides of the first dash, up to surrounding white space |
| `LayerRange.ParseOfFormat` | internal/controller/gpu_sharding.go:101-119 | printing a range and parsing it gives the range back |
| `Common.TrimSpaceCuts` | internal/controller/gpu_sharding.go:101-119 | trimming cuts white space off both ends and nothing else |
| `TensorSplit.GcdAllIsGreatest` | internal/controller/gpu_sharding.go:82-85 | the fold divides every count and every common divisor divides it |
| `TensorSplit.RatiosAreProportional` | internal/controller/gpu_sharding.go:82-90 | each ratio is at least one and the counts are one common factor times the ratios |
| `TensorSplit.RatiosAreCoprime` | internal/controller/gpu_sharding.go:82-90 | no divisor but one is common to all ratios |
| `TensorSplit.RatiosPositiveIff` | internal/controller/gpu_sharding.go:71-90 | the ratios are positive exactly when none or all of the ranges span the whole int64 width |
| `TensorSplit.CountsAreParsed` | internal/controller/gpu_sharding.go:71-80 | each count is that of its own range, and one bad range spoils the split |
| `TensorSplit.CalculateTensorSplit` | internal/controller/gpu_sharding.go:64-99 | nothing for one GPU, the reduced ratios when every GPU has a parsable range, equal shares otherwise |
| `TensorSplit.FieldsOfJoin` | internal/controller/gpu_sharding.go:86-90 | the flag is the decimal ratios in order, separated by commas |
| `Parallelism.GroupAcceptedIffCongruent` | internal/controller/gpu_sharing.go:304-346 | a group is accepted exactly when it sets no size or its resolved sizes multiply to members times GPUs modulo 2^32 |
| `Parallelism.GroupAcceptedIffEveryGpuIsARank` | internal/controller/gpu_sharing.go:304-346 | within int32, acceptance means exactly that tensor times pipeline is the whole group, derived sizes included |
| `Parallelism.GroupAcceptedIffFilled` | internal/controller/gpu_sharing.go:304-346 | by declared sizes: no size, a product congruent to the group, or a lone pipeline size that divides the group or is a wrapped identity on it |
| `Parallelism.PipelineAloneMustDivide` | internal/controller/gpu_sharing.go:304-346 | a group with only a pipeline size is accepted exactly when it divides the group or multiplies it back to itself modulo 2^32; without wrap-around exactly when it divides |
| `Parallelism.WrappedPipelineIsAccepted` | internal/controller/gpu_sharing.go:304-346 | 64 one-GPU members accept a pipeline size of 2^26 + 1 |
| `Parallelism.PodAcceptedIffWorldFits` | internal/controller/gpu_sharing.go:348-403 | for one pod and products within int32, acceptance means exactly that the world sizes fit |
| `Parallelism.VllmAcceptedIff` | internal/controller/gpu_sharing.go:348-375 | for every int32 tensor size and valid pipeline size: accepted exactly when the world fits, or leaves int32 at either end and fits after wrapping |
| `Parallelism.ZeroTensorIsAccepted` | api/v1alpha1/inferenceservice_types.go:1500-1502 | a tensor size of zero, which the CRD does not exclude, is accepted with any pipeline size |
| `Parallelism.UnderflowIsRejected` | internal/controller/gpu_sharing.go:366-374 | -65535 by 65535 is rejected although its world is negative |
| `Parallelism.SglangAcceptedIff` | internal/controller/gpu_sharing.go:377-403 | the same for tensor times data, with the expert size on its own |
| `Parallelism.WrappedWorldIsAccepted` | internal/controller/gpu_sharing.go:348-375 | 65536 by 65536 is accepted on any pod with GPUs |
| `Parallelism.UnknownCountIsAccepted` | internal/controller/gpu_sharing.go:330-332 | without a known GPU count nothing is checked |
| `Parallelism.SharingNeeds` | internal/controller/gpu_sharing.go:87-188 | exactly what each sharing mode needs |
| `Parallelism.SharedServiceIsSingleDevice` | internal/controller/inferenceservice_quota_webhook.go:215-223 | an admitted partitioned or shared service has one GPU and no explicit tensor, expert or data size above one, and is single-device unless its pipeline size slips |
| `Parallelism.SharedPipelineAdmittedIff` | internal/controller/gpu_sharing.go:255-276 | where the other sharing rules pass, a pipeline size above one is admitted exactly beside a non-positive tensor size whose product does not wrap above one, or in a group it fills |
| `Parallelism.SharingForcesSingleDeviceIff` | internal/controller/gpu_sharing.go:255-276 | for every CRD-valid service, admission forces a single device exactly when no pipeline size slips |
| `Parallelism.SharedPipelineSlipsThrough` | internal/controller/gpu_sharing.go:255-276 | a two-member group with pipeline size two and a pod with tensor size zero and pipeline size eight are admitted |
| `Parallelism.BackstopAgreesIff` | internal/controller/inferenceservice_controller.go:1031-1045 | for every CRD-valid service the backstop accepts all the webhook accepts, and they agree exactly outside the pods with a wrapping product and the groups with an unchecked size above one |
| `Parallelism.BackstopMissesSharedService` | internal/controller/gpu_sharing.go:261-276 | a group with tensor size two, a group with SGLang size eight and a pod of 65536 by 65536 pass the backstop and not the webhook |
| `ArchAffinity.RewriteAdmitsExactly` | internal/controller/deployment_builder.go:794-838 | for every affinity and node, exactly which nodes the rewritten selector admits |
| `ArchAffinity.RewriteIsConjunction` | internal/controller/deployment_builder.go:794-838 | without empty terms: the original selector and the listed architectures |
| `ArchAffinity.NoArchitectureNoRewrite` | internal/controller/deployment_builder.go:795-803 | when no architecture is named, or only empty ones, nothing is rewritten |
| `ArchAffinity.EmptyTermIsWidened` | internal/controller/deployment_builder.go:824-838 | a lone empty term and a selector without terms, which admit nothing, come to admit every node of a listed architecture |
| `ArchAffinity.RewriteTwice` | internal/controller/deployment_builder.go:794-838 | a second rewrite changes no node's admission, for any affinity |
| `ArchAffinity.Deployment.ApplyArchNodeAffinity` | internal/controller/deployment_builder.go:794-838 | the pod template gets the rewritten terms in fresh objects; the shared affinity and its selector are never written |
| `CrashEvidence.FindCrash` | internal/controller/driver_compat.go:171-200 | the nested scan returns the first evidence on a not-ready container, else the first remembered one |
| `CrashEvidence.ActiveIff` | internal/controller/driver_compat.go:171-200 | a crash is active exactly when some runtime container is not ready and carries the mismatch; healthy replicas never hide it |
| `CrashEvidence.PickFindsActive` | internal/controller/driver_compat.go:171-200 | no crash is reported exactly when there is no evidence at all |
| `CrashEvidence.PickIsFirst` | internal/controller/driver_compat.go:171-200 | the reported node and line are those of the first evidence on a container that is not ready, else of the first evidence of all |
| `CrashEvidence.EvidenceOfOne` | internal/controller/driver_compat.go:179-196 | evidence is a non-zero exit whose message matches, the current termination before the last, under the pod's node and the container's readiness |
| `CrashEvidence.EvidenceOfPods` | internal/controller/driver_compat.go:172-178 | pods are scanned in order |
| `CrashEvidence.EvidenceOfContainers` | internal/controller/driver_compat.go:174-178 | a pod's containers are scanned in order |
| `CrashEvidence.RuntimeContainerReady` | internal/controller/driver_compat.go:206-215 | true exactly when some runtime container is ready |
| `DriverCompat.InferenceService.ReconcileDriverCompat` | internal/controller/driver_compat.go:247-315 | the condition, the untouched others and the Warning of one reconcile |
| `DriverCompat.OneWarningPerEpisode` | internal/controller/driver_compat.go:300-315 | over every run with a recorder: Warnings are the False episodes plus the diagnoses whose write was lost |
| `DriverCompat.NoLostWarnings` | internal/controller/driver_compat.go:300-315 | when every write lands, exactly one Warning per episode |
| `DriverCompat.TrueComesFromFalse` | internal/controller/driver_compat.go:272-298 | over every run a True was a stored False, turned with a ready runtime and no active evidence |
| `DriverCompat.StatusMoves` | internal/controller/driver_compat.go:272-309 | in every run a saved crash stores False, a saved round with a ready runtime turns a stored False to True, and every other round keeps the status |
| `DriverCompat.DiagnosisStands` | internal/controller/driver_compat.go:247-298 | over any stretch of rounds without active evidence and without a ready runtime, saved or not, the stored condition is unchanged and no Warning is emitted |
| `Acceleration.ScanDeviceInfo` | internal/controller/acceleration.go:202-238 | the scanner returns exactly the accelerators of the entry run right after the last header, in order |
| `Acceleration.TailFollowsLastHeader` | internal/controller/acceleration.go:202-238 | the block is taken from what follows the last header line |
| `Acceleration.EntryRunStops` | internal/controller/acceleration.go:202-238 | the block ends at the first line that is no entry |
| `Acceleration.AcceleratorIff` | internal/controller/acceleration.go:249-266 | what begins with CPU or BLAS is no accelerator and everything else is |
| `Acceleration.SummaryIsReported` | internal/controller/acceleration.go:144-165 | the last summary is reported, offloaded layers and total each in its place and held to int32 |
| `Acceleration.LastNamedDeviceIsReported` | internal/controller/acceleration.go:181-200 | the device is the one named last, without its index, with its description if known |
| `Acceleration.NoHeaderNoTail` | internal/controller/acceleration.go:202-238 | without a header line there is no block |
| `Acceleration.CpuReportedIff` | internal/controller/acceleration.go:144-200 | exactly which logs are reported as the CPU fallback |
| `Acceleration.TwoGpusReadAsCpu` | internal/controller/acceleration.go:301-361 | a log of any two accelerators and no summary is reported as CPU |
| `Acceleration.NamedCpuReadsAsBlank` | internal/controller/acceleration.go:140-165 | a load on a named CPU with nothing offloaded is reported with no device |
| `Acceleration.InferenceService.ReconcileAcceleration` | internal/controller/acceleration.go:301-361 | the field after one reconcile: cleared, kept or stamped |
| `Acceleration.StoredIsLastInformative` | internal/controller/acceleration.go:301-361 | over any run the stored value is that of the last persisted round that decides it, whatever failed reads and lost writes follow |
| `Acceleration.UndecidedStaysUnset` | internal/controller/acceleration.go:301-361 | without such a round nothing is stored |
| `FileSet.ExpandFilePattern` | internal/controller/fileset.go:96-127 | the expansion of one entry, with every rejection |
| `FileSet.ExpandIff` | internal/controller/fileset.go:88-127 | when an entry is rejected and what a plain one expands to: empty, absolute and double-dot paths, missing files, missing listings and malformed patterns |
| `FileSet.MmprojAllowedIff` | internal/controller/fileset.go:70-83 | the projector is empty or a usable plain name that a non-empty listing has |
| `FileSet.MatchesAreListed` | internal/controller/fileset.go:114-122 | an expansion holds exactly the listed names the pattern matches |
| `FileSet.ResolveFileSet` | internal/controller/fileset.go:35-86 | the loops compute the first appearances of all expansions and the projector, or reject |
| `FileSet.PlannedIff` | internal/controller/fileset.go:38-86 | a plan is made exactly when the primary means one file, no entry is rejected and the projector is allowed |
| `FileSet.PlanHoldsExactlyTheExpansions` | internal/controller/fileset.go:38-86 | no duplicates, the primary first, and exactly the expansions plus the projector |
| `FileSet.DedupInOrder` | internal/controller/fileset.go:54-68 | the files keep first-appearance order |
| `FileSet.PlanStaysInListing` | internal/controller/fileset.go:38-86 | with a non-empty listing every staged file is in it |
| `NameSlugs.SanitizeModelFilename` | internal/controller/filename.go:44-76 | the builder, the trim and the collapse loop, which terminates, compute replace, collapse, trim |
| `NameSlugs.SlugIsSlug` | internal/controller/filename.go:44-76 | only [A-Za-z0-9._-], no double dash, no dash, dot or underscore at either end |
| `NameSlugs.IsSlugIff` | internal/controller/filename.go:44-49 | what a slug is, character by character |
| `NameSlugs.DashedInPlace` | internal/controller/filename.go:58-69 | each other character gives way to a dash in place |
| `NameSlugs.SlugFixesExactlySlugs` | internal/controller/filename.go:44-76 | exactly the slugs are left alone, hence idempotent |
| `NameSlugs.SlugKeepsAlphanumerics` | internal/controller/filename.go:44-76 | no letter or digit is lost, added or reordered |
| `NameSlugs.CanonicalBasenameIsSlug` | internal/controller/filename.go:78-97 | the slug of the first usable name with the extension, a slug as a whole |
| `NameSlugs.SanitizeName` | cmd/foreman-agent/main.go:1026-1037 | the result is a host label, equals the name exactly when the name is one, and leads with the name's letters and digits |
| `NameSlugs.LabelIsLabel` | cmd/foreman-agent/main.go:1026-1037 | for every input a non-empty host label of section 2.1 of RFC 1123 within the 63 octets of section 2.3.4 of RFC 1035 |
| `NameSlugs.IsLabelIff` | cmd/foreman-agent/main.go:1004-1037 | what a label is, character by character |
| `NameSlugs.OneHyphenPerRun` | cmd/foreman-agent/main.go:1004-1028 | a run of other characters gives way to one hyphen |
| `NameSlugs.LabelFixesExactlyLabels` | cmd/foreman-agent/main.go:1004-1037 | exactly the labels are left alone, hence idempotent |
| `NameSlugs.LabelKeepsAlphanumerics` | cmd/foreman-agent/main.go:1026-1037 | letters and digits survive in order up to the cut; only a name without any becomes the fallback |

## Left out

- ReconcileRolloutPolicy: the in-memory object is not refreshed from the API server's reply after a status write, because every pass starts from a fresh read.
- Conditions: messages and observed generations of status conditions are not modelled.
- Message texts: error strings, event texts and log lines.
- Federation: more than one edge leader, an edge clock that runs backwards, and conflicts other than a changed object version.
- Pattern matching: regular expressions, `path.Match` and the CUDA mismatch matcher are parameters or line classifications.
- Case mapping: `strings.ToLower` is a parameter, taken to fix lower-case letters, digits and hyphens where idempotence needs it and to leave no upper-case ASCII letter where conservation needs it.
- Text encoding: strings are sequences of characters, so byte offsets inside multi-byte characters do not appear.
- Header names: their equivalence is a parameter, so what counts as letter case is not modelled.
- Model patterns: globs are refused before a rule reaches the compilers, so model names are plain.
- Gateway API: precedence between rules is decided by the gateway.
- PathDir: `path.Dir` is modelled on the clean relative paths git prints, without path cleaning.
- Probes: how each runtime's idle probe reads slots or Prometheus gauges.
- VRAM: quota accounting and `podVRAMBytes`.
- Plumbing: building Deployments, routes and policies as objects, pod label merging, CRD detection, CA bundles, the relay server, the sync tool and the command line programs, which would only add easy members.
