# pyverge, modelled in Dafny

pyverge moves nested, versioned JSON payloads to target versions. It walks a payload for
dicts that name a registered model and version, finds a chain of migration edges for each,
schedules the entries deepest first in levels, runs each level (possibly in parallel) and
splices the results back. Models and migrations live in a mutable registry with several
secondary indexes; a snapshot of it is an immutable graph with a revision.

This project models that core and proves what it promises, for all payloads, all
migrations, all graphs, all histories of calls and all interleavings. `dafny verify
dfyconfig.toml` checks everything.

| file | models |
|---|---|
| `Payload.dfy` | JSON trees, paths, persistent splicing and its frame laws |
| `Schedule.dfy` | the deepest-first level scheduler |
| `Execution.dfy`, `Backends.dfy` | migration chains, sequential, threaded and interleaved runs |
| `Extraction.dfy` | the containerless payload walk |
| `Planning.dfy` | targets, path resolution with its cache, the policy filter |
| `Runs.dfy`, `Splicing.dfy` | a whole run, its plan seen path by path, and what a splice does to the versioned dicts around it |
| `Convergence.dfy` | convergence of a run to any target, and running a converged payload again |
| `Targets.dfy` | what each target selects and each policy lets through, stated by versions |
| `Movement.dfy` | exactly what a run moves, when it converges and when running again is harmless |
| `Search.dfy`, `Indexed.dfy`, `Native.dfy` | breadth-first search, once generically and in both backends |
| `Topological.dfy`, `EdgePath.dfy` | Kahn's sort, the adjacent-version walk |
| `PlanCache.dfy`, `Coordinator.dfy` | the least-recently-used plan cache, the keys of targets, cached planning |
| `Idempotency.dfy` | the claim protocol as an interleaving state machine |
| `Health.dfy`, `RegistryIndex.dfy`, `RegistrySpec.dfy`, `Registry.dfy`, `Engine.dfy` | the registry, its indexes and histories of engine calls |
| `Histories.dfy` | when each engine call succeeds, what repeating and undoing calls does, and what histories keep |
| `HookSort.dfy`, `Snapshot.dfy`, `Revisions.dfy` | graph snapshots, their revisions and what a revision identifies |
| `Descriptors.dfy` | canonical forms of type, field and model descriptors |
| `Examples.dfy`, `RegistryExamples.dfy` | concrete systems that meet the assumptions made elsewhere, and some that show what goes wrong |
| `Identity.dfy`, `SortedLists.dfy`, `Sorting.dfy`, `Collections.dfy`, `Wrappers.dfy` | identity orders, bisected lists and shared vocabulary |

Modelling choices. A version is a real number, its position in the version order (any
countable linear order embeds in the reals); its text codec is a parameter. A migration is
an arbitrary function that may raise. Python's sets and dicts of nodes compare by identity,
so they are maps from identity to the object held. Convergence takes the kind and version
properties to be different keys, the versions its edges lead to to parse back from their
text, and one namespace; it holds of every target (latest, earliest, a version, a range, a
fixed node, a mix per kind). Of a migration, applied to a value of its edge's source kind and
version, convergence asks that it return a dict with the same kind tag and bring in no nested
entry that is off its target (`Convergence.GoodRunner`): it may add, rename or drop fields.
The exact statements of `Movement.dfy` ask that the migrations of the run at hand keep the
nested entries of the values they are applied to (`Movement.MigrationsKeep`), and nothing of
any other value. Cached planning takes Python's `repr` to tell apart the targets a
coordinator serves, and the fixed nodes among them with one text to be one node. Hashes are
functions; where the digest index or the revision needs it, a precondition says that the hash
tells apart what is stored, never that it is injective. `Examples.dfy`, whose migration adds a
field, and `RegistryExamples.dfy` hold concrete systems that meet the preconditions.

What the proofs found about the code:

- The scheduler's guard against an empty round is dead code (`Schedule.SomeEntryReady`).
- Running again is not always harmless: a directional policy set to raise rejects a payload
  that is already at its target, such as its own output (`Examples.StrictRerunFails`, exact
  conditions in `Convergence.RerunExact` and `Movement.RunIsIdempotent`).
- A run leaves everything at its target exactly when the policy drops no entry that is off
  its target (`Movement.ConvergesExactly`); a downgrade-only policy never upgrades anything
  (`Convergence.DowngradeOnlyChangesNothing`, `Examples.DocumentStaysOutdated`).
- The plan cache's key of a fixed target is the text of its node, so two nodes of one
  identity with different descriptors share a key although they plan different targets
  (`Coordinator.SharedKey`, exactly what keys tell apart in `Coordinator.TargetKeyExact`).
- Kahn's sort reports a cycle also for an edge whose source is not a node, and raises
  KeyError exactly when some target is not (`Topological.TopologicalSort`).
- A client that is stopped while it holds a claim, or whose `complete` or `release` raises,
  blocks its idempotency key for good (`Idempotency.CrashBlocksKey`, a run that gets there in
  `Idempotency.SomeRunBlocks`); a key can always be settled again exactly when no client of
  it was stopped so (`Idempotency.SettlesUnlessCrashed`).
- Storing a key-only edge, or removing an edge that is not stored, refreshes the endpoint
  objects of the call; if such an object is a bare key of a model with references, the model
  drops out of the reference index (`RegistryExamples.LoseReferences`, exact condition in
  `RegistrySpec.RefreshKeepsExact`).
- Looking models up by reference is complete exactly as long as no model was stored with a
  reference already in use (`RegistrySpec.StoreKeepsComplete`).
- The digest index loses an edge exactly when an edge with the same digest is stored
  (`RegistryIndex.DigestsInsert`).
- The replacing branch of `reconcile`, the cross-kind error of `delete_kind` and the errors
  it swallows are unreachable (`Registry.Registry.Reconcile`, `Registry.Registry.DeleteKind`).
- `is_critical_edge` says yes for every edge once a kind has more than two
  (`Engine.IsCritical`).
- A revision does not distinguish two models that differ only in their provider
  (`Revisions.RevisionIdentifiesContent`), nor references with the same text, such as kind
  `c` of namespace `a:b` and kind `b:c` of namespace `a` (`Revisions.RevisionMissesReferences`,
  exact condition in `Revisions.TextsDetermineReferences`).

## Model

| member | source | states |
|---|---|---|
| `Payload.ReplaceSucceeds` | src/pyverge/runtime/plan.py:464-482 | a splice succeeds at every path that leads to a value that is not inside a string |
| `Payload.GetBelowReplaced` | src/pyverge/runtime/plan.py:464-482 | at and below the splice point the new payload is the replacement |
| `Payload.GetAboveReplaced` | src/pyverge/runtime/plan.py:464-482 | above the splice point the new payload is the old container with the splice pushed inside |
| `Payload.GetApartUnchanged` | src/pyverge/runtime/plan.py:464-482 | a splice leaves every value unchanged whose path is apart from it |
| `Payload.ReplaceBySame` | src/pyverge/runtime/plan.py:464-482 | writing back the value already there changes nothing |
| `Payload.ReplaceCommutes` | src/pyverge/runtime/plan.py:453-482 | splices at paths that are apart commute, also when they fail |
| `Payload.GetConcat` | src/pyverge/core/graph/planning/path.py:20-26 | looking up a concatenated path is looking up its parts in turn |
| `Schedule.Levels` | src/pyverge/core/graph/planning/plan.py:38-57 | the loop ends, and its levels are exactly the entries of each height, in plan order, until none is left |
| `Schedule.SomeEntryReady` | src/pyverge/core/graph/planning/plan.py:44-55 | in a non-empty round some entry is ready, for any paths at all, so the fallback never runs |
| `Schedule.LevelIsHeight` | src/pyverge/core/graph/planning/plan.py:38-57 | every entry is in exactly one level, once, and its number is the height of the entry tree below it |
| `Schedule.DescendantsEarlier` | src/pyverge/core/graph/planning/plan.py:38-57 | a descendant is in a strictly earlier level than its ancestor, so no level holds both |
| `Execution.ExecuteSync` | src/pyverge/runtime/plan.py:83-110 | the loop computes the chain's value, stamping each reached version |
| `Execution.StampExact` | src/pyverge/runtime/plan.py:104-110 | stamping writes the version property of a dict and nothing else; any other value stays as it is |
| `Execution.EntriesCommute` | src/pyverge/runtime/plan.py:446-482 | two entries that are apart can run in either order, also when one raises |
| `Execution.OrderIrrelevant` | src/pyverge/runtime/plan.py:446-482 | any two orders that put descendants before ancestors compute the same payload or fail together |
| `Execution.LevelIsSequential` | src/pyverge/runtime/plan.py:453-461 | on an antichain, computing all results first and splicing afterwards is running one entry at a time |
| `Execution.ParallelEqualsSequential` | src/pyverge/runtime/backends/threaded.py:30-47 | running level by level, each level spliced in any order, equals every sequential order with descendants first |
| `Backends.EveryLookupSucceeds` | src/pyverge/runtime/plan.py:446-482 | when an entry's turn comes its lookup yields a dict and any splice there succeeds, whatever the migrations did |
| `Backends.RunFrame` | src/pyverge/runtime/plan.py:446-482 | a value apart from every planned entry is unchanged by a run |
| `Backends.DriveTasks` | src/pyverge/runtime/backends/async_.py:43-66 | tasks taking turns in an arbitrary order each write their own slot, and end with the level's results or the level's failure |
| `Backends.RunLevelInterleaved` | src/pyverge/runtime/backends/async_.py:36-72 | every interleaving of a level yields the results computed independently |
| `Backends.RunLevelMapped` | src/pyverge/runtime/backends/threaded.py:30-47 | the pool's ordered results are the results computed independently |
| `Backends.Execute` | src/pyverge/runtime/backends/async_.py:27-72 | either backend returns the payload, or the failure, of every sequential order with descendants first |
| `Extraction.ExtractionExact` | src/pyverge/runtime/extractors.py:106-159 | the walk lists exactly the matching dicts, each once, in pre-order, with depth equal to path length, and raises exactly when some match has more than a non-negative limit of matches above it, naming the first such path |
| `Extraction.ListingExact` | src/pyverge/runtime/extractors.py:133-159 | a path and model are listed if and only if the dict at that path matches that model |
| `Extraction.WalkRaises` | src/pyverge/runtime/extractors.py:133-159 | the walk raises exactly when some match below is nested too deep |
| `Planning.LatestIsGreatest` | src/pyverge/core/graph/planning/targets.py:117-126 | "latest" is the greatest registered model version of the kind |
| `Planning.RangeIsGreatestMatch` | src/pyverge/core/graph/planning/targets.py:141-156 | a range resolves to the greatest version it admits, and to nothing exactly when it admits none |
| `Planning.ApplyPolicy` | src/pyverge/core/graph/planning/policy.py:33-78 | it raises if and only if the first rule some entry breaks has the strategy "raise", the rules being direction, number of migrations above a non-negative limit, and missing path, in this order; the error is that of the first such entry; otherwise the entries that break no rule are kept, in plan order |
| `Planning.PathFinder.Resolve` | src/pyverge/core/graph/planning/finder.py:73-107 | a remembered path is the path the graph computes |
| `Planning.PathFinder.Find` | src/pyverge/core/graph/planning/finder.py:44-107 | after any earlier calls, the plan is the one an uncached finder computes |
| `Planning.PlannedEntriesSound` | src/pyverge/core/graph/planning/finder.py:55-107 | planned entries are connected chains of executable same-kind edges from source to target, in extraction order, so the missing-path checks of the policy never fire |
| `Runs.PlanFromExtraction` | src/pyverge/core/graph/planning/finder.py:44-71 | a plan made from an extraction visits distinct dicts, ancestors first |
| `Runs.ExecutePlan` | src/pyverge/runtime/planner.py:19-36 | binding and executing a plan, on either backend, is a sequential run in reverse plan order |
| `Runs.PlanExactly` | src/pyverge/core/graph/planning/finder.py:44-107 | a plan exists exactly when the target compiles, every versioned dict can be planned and the policy raises on none; it then holds exactly the entries the dicts plan and the policy keeps |
| `Runs.RunErrors` | src/pyverge/runtime/runner.py:36-77 | a run fails exactly when a match is nested too deep, or else planning fails, or else a migration raises in its turn, with the error of the first of these |
| `Runs.FailsByMigration` | src/pyverge/runtime/plan.py:446-482 | nothing but a migration that raises on the value it finds in its turn stops the execution of a plan |
| `Targets.SpecExact` | src/pyverge/core/graph/planning/targets.py:68-88 | which registered model "latest", "earliest", a version, a range and a fixed node select, stated by versions, when a node is left alone, and which error is raised when |
| `Targets.TargetExact` | src/pyverge/core/graph/planning/targets.py:183-201 | a per-kind target resolves by the kind's own entry, by "*" only without one, and leaves the node alone with neither |
| `Targets.CompilesExact` | src/pyverge/core/graph/planning/targets.py:159-168 | a target compiles if and only if every node it names has a registered model of its identity |
| `Targets.SettledExactly` | src/pyverge/core/graph/planning/targets.py:105-201 | at its target means left alone by it, or selected itself |
| `Targets.SettledAtEarliest` | src/pyverge/core/graph/planning/targets.py:129-138 | for "earliest", at its target means that no lesser model of the kind is registered |
| `Targets.RunReachesTarget` | src/pyverge/runtime/plan.py:83-110 | a converging run leaves every versioned dict at the model its target selects, or left alone |
| `Targets.PlanOneErrors` | src/pyverge/core/graph/planning/finder.py:55-107 | a discovered node cannot be planned exactly when its target fails, or there is no path to what it selects, with that error |
| `Targets.PlanningErrors` | src/pyverge/core/graph/planning/finder.py:44-71 | planning fails for a named node that is not registered, else for the first entry that cannot be planned, else for the policy |
| `Targets.PolicyOnPlan` | src/pyverge/core/graph/planning/policy.py:33-94 | of planned entries, stated by their versions and lengths: the policy raises if and only if some entry goes the wrong way, or else is too long, with "raise" for that rule, and otherwise keeps exactly the entries that do neither |
| `Targets.PlanByPolicy` | src/pyverge/core/graph/planning/finder.py:44-71 | the same of the plan of a run |
| `Runs.TargetStable` | src/pyverge/core/graph/planning/targets.py:105-201 | what a target resolves to (`Targets.TargetExact` says what that is) resolves to itself, for every target |
| `Convergence.ChainConverges` | src/pyverge/runtime/plan.py:83-110 | a chain of migrations that bring in nothing off its target carries a value from its source to its target version |
| `Convergence.RunConverges` | src/pyverge/runtime/plan.py:83-110 | a run that succeeds leaves every versioned dict of the output at its target, for every target, when the policy drops only entries already at theirs |
| `Convergence.SettledAtLatest` | src/pyverge/core/graph/planning/targets.py:117-126 | for "latest", at its target means that no greater model of the kind is registered |
| `Convergence.AdmittingDropsOnlySettled` | src/pyverge/core/graph/planning/policy.py:33-78 | a policy that allows upgrades and sets no length limit drops only entries already at "latest", whatever the payload |
| `Convergence.DowngradeOnlyChangesNothing` | src/pyverge/core/graph/planning/policy.py:33-78 | under a downgrade-only policy that skips, a run to "latest" returns every plannable payload as it is |
| `Convergence.RerunExact` | src/pyverge/core/graph/planning/policy.py:33-78 | a payload at its target comes back unchanged if and only if the target compiles, the nesting limit admits it and the policy tolerates entries that need no migration, or no dict has a target |
| `Convergence.RerunAfterConvergence` | src/pyverge/runtime/runner.py:57-77 | after a converging run, whatever fields its migrations add, rename or drop, running again returns the output if and only if the nesting limit admits it and the policy tolerates entries that need no migration, or no dict has a target |
| `Movement.RunMoves` | src/pyverge/runtime/plan.py:446-482 | when its migrations keep the nested entries of their arguments, a run leaves the versioned dicts at their paths, those the plan keeps at their targets and all others with the models they had |
| `Movement.ConvergesExactly` | src/pyverge/core/graph/planning/policy.py:33-78 | such a run leaves everything at its target if and only if the policy drops only entries already at theirs, for every target |
| `Movement.RunIsIdempotent` | src/pyverge/runtime/runner.py:57-77 | running the output of such a run again returns it if and only if the policy tolerates entries that need no migration or the plan was empty, for every target and policy |
| `Examples.TwoVersionsGood` | docs/tutorials/getting-started.md:65-67 | a migration that adds a field, whatever the field held, meets what convergence asks, for every target |
| `Examples.UpgradeKeeps` | docs/tutorials/getting-started.md:65-67 | on a concrete document the same migration keeps the nested entries, as the exact statements ask |
| `Examples.DocumentUpgrades` | src/pyverge/runtime/runner.py:57-77 | a two-version system that meets every assumption takes a document from the first version to the second |
| `Examples.DocumentStaysOutdated` | src/pyverge/core/graph/planning/policy.py:33-78 | under a downgrade-only policy the same document is returned outdated |
| `Examples.RunTwice` | src/pyverge/runtime/coordinator.py:44-67 | a concrete coordinator with a cache serves it twice, with the same result |
| `RegistryExamples.BuildRegistry` | src/pyverge/core/registry/memory.py:103-135 | a concrete registry with a digest index stores both models and the migration |
| `RegistryExamples.CompareRevisions` | src/pyverge/core/graph/builder.py:39-127 | two concrete registries that differ in a field compile to different revisions |
| `RegistryExamples.LoseReferences` | src/pyverge/core/registry/memory.py:785-804 | a concrete registry stores a key-only edge over a model with references and ends with inexact reference indexes |
| `Examples.StrictRerunFails` | src/pyverge/core/graph/planning/policy.py:33-78 | the document just produced is returned as it is under a permissive policy and rejected under an upgrade-only policy that raises |
| `Search.BfsCorrect` | src/pyverge/core/graph/backend/indexed.py:202-231 | breadth-first search returns a shortest path, and nothing exactly when there is no path |
| `Search.RunSearch` | src/pyverge/core/graph/backend/indexed.py:202-231 | the loop over queue, seen set and predecessor map ends and returns that search's path |
| `Search.Reconstruct` | src/pyverge/core/graph/backend/indexed.py:253-266 | following predecessors back from the goal ends and rebuilds the discovered path |
| `Search.SameFirstStepsSamePath` | src/pyverge/core/graph/backend/native.py:50-77 | networks that offer the same first step to each target yield the same path, edge for edge |
| `Indexed.Build` | src/pyverge/core/graph/backend/indexed.py:53-144 | from nodes and edges in any order, sorted sequences and indexes that agree with them, without empty buckets |
| `Indexed.BfsFindsShortestChain` | src/pyverge/core/graph/backend/indexed.py:202-231 | over stored edges that satisfy the predicate, the search is a shortest connected chain or there is none |
| `Indexed.FindShortest` | src/pyverge/core/graph/backend/indexed.py:202-231 | a connected chain of stored edges that satisfy the predicate, of minimum length; none exactly when the target is unreachable |
| `Native.EdgeToIsFirstCandidate` | src/pyverge/core/graph/backend/native.py:82-94 | the first allowed parallel edge is the first candidate the indexed search would take |
| `Native.NativeRefinesIndexed` | src/pyverge/core/graph/backend/native.py:50-109 | the search over native indices returns the indexed search's path, edge for edge |
| `Native.FindShortestNative` | src/pyverge/core/graph/backend/native.py:50-109 | for registered endpoints and any predicate, the loop returns that path |
| `Topological.TopologicalSort` | src/pyverge/core/graph/backend/indexed.py:233-251 | a permutation of the nodes with every edge forward; KeyError exactly when a target is not a node; otherwise the cycle error exactly when there is a directed cycle or a source that is not a node |
| `Topological.StuckMeansCycle` | src/pyverge/core/graph/backend/indexed.py:248-250 | nodes left over when nothing is ready contain a cycle or hang on a source that is not a node |
| `Topological.ForwardIsAcyclic` | src/pyverge/core/graph/backend/indexed.py:233-251 | an order with every edge forward excludes every cycle, self-loops included |
| `EdgePath.FindEdgePath` | src/pyverge/core/graph/graph.py:331-387 | the adjacent walk's loop returns the walk's edges or the first broken pair |
| `EdgePath.FindEdge` | src/pyverge/core/graph/graph.py:272-281 | the parallel edge with the discriminator is the edge of that identity |
| `EdgePath.EdgePathSucceeds` | src/pyverge/core/graph/graph.py:331-387 | succeeds exactly when both are registered versions of one kind and every consecutive pair between them has an executable edge with the discriminator |
| `EdgePath.EdgePathErrors` | src/pyverge/core/graph/graph.py:331-387 | exactly when the kinds differ, the source or the target is not registered, and that the pair named otherwise is the first on the way without a usable edge |
| `EdgePath.EdgePathIsChain` | src/pyverge/core/graph/graph.py:360-387 | a successful walk is a connected chain of executable same-kind edges with the discriminator |
| `EdgePath.WalkAgreesWithSearch` | src/pyverge/core/graph/graph.py:331-387 | when those edges all join neighbouring versions, the walk is the restricted breadth-first path, and both fail together |
| `PlanCache.RecencyTouch` | src/pyverge/runtime/plan_cache.py:94-113 | touching a key moves it to the recent end of the distinct keys |
| `PlanCache.BoundedTouch` | src/pyverge/runtime/plan_cache.py:104-113 | bounding before or after a touch keeps the same recent keys |
| `PlanCache.KeptExactly` | src/pyverge/runtime/plan_cache.py:94-113 | a key is kept exactly when it was touched and, for a positive size, fewer other keys than the size allows were touched since |
| `PlanCache.Cache.Get` | src/pyverge/runtime/plan_cache.py:94-102 | a hit is the last plan put for a key among the most recently touched, and counts as a touch |
| `PlanCache.Cache.Put` | src/pyverge/runtime/plan_cache.py:104-113 | after any history the cache holds exactly the most recently touched distinct keys, in recency order, each with its last plan |
| `Identity.NodeTextInjective` | src/pyverge/core/versioning/identity/nodes.py:151-154 | a node's text determines its identity within one namespace, and among namespaces without a colon |
| `Coordinator.TargetKeyExact` | src/pyverge/runtime/plan_cache.py:16-39 | two targets have one key if and only if they are equal up to fixed nodes with equal texts, given a `repr` that tells their specifications apart |
| `Coordinator.TargetKeyFaithful` | src/pyverge/runtime/plan_cache.py:16-39 | so among targets that name one node per text, equal keys mean equal targets |
| `Coordinator.SharedKey` | src/pyverge/runtime/plan_cache.py:33-36 | two nodes of one identity with different descriptors share a key and plan different targets |
| `Coordinator.SameKeySamePlan` | src/pyverge/runtime/plan_cache.py:50-68 | entries with equal keys get the same plan |
| `Coordinator.PlanCoordinator.Plan` | src/pyverge/runtime/coordinator.py:44-67 | for every cache size and history, the plan is the one an uncached finder computes for the extracted entries, among served targets that name one node per text |
| `Coordinator.RunOutcomeExact` | src/pyverge/runtime/runner.py:36-55 | a run is refused for an unknown model exactly when the plan exists and keeps an entry whose target the adapter does not identify |
| `Coordinator.Run` | src/pyverge/runtime/runner.py:36-77 | the whole run, through both caches and on either backend, fails exactly when a planned target model is not identified and otherwise is extraction, uncached planning and a sequential run |
| `Idempotency.RunKeepsInvariant` | src/pyverge/runtime/middleware/idempotency.py:44-71 | over every interleaving, a claimed key has exactly one holder, and stored results agree with what was returned |
| `Idempotency.AtMostOnce` | src/pyverge/runtime/middleware/idempotency.py:44-71 | at most one client per key is executing, at most one execution per key completes, and all clients that return for a key return the same result |
| `Idempotency.CallerIsServed` | src/pyverge/runtime/middleware/idempotency.py:44-53 | over every run, a client that has not claimed its key by the time it is done never executes and never raises: it is waiting or has returned the stored result, at its first lookup if it had not started |
| `Idempotency.RaisesOnlyThen` | src/pyverge/runtime/middleware/idempotency.py:49-71 | a client raises only after its own inner call failed, or on a second lookup that finds the key not done |
| `Idempotency.CanBeServed` | src/pyverge/runtime/middleware/idempotency.py:44-71 | after any run a client that has not started can be served, with the stored result of a done key, with whatever the inner call gives for a free one |
| `Idempotency.SettlesUnlessCrashed` | src/pyverge/runtime/middleware/idempotency.py:44-71 | after any run, some continuation leaves the key free or done if and only if no client of the key was stopped while it held the claim |
| `Idempotency.SomeRunBlocks` | src/pyverge/runtime/middleware/idempotency.py:52-62 | a run of one client, stopped between the inner result and `complete`, that ends with its key blocked |
| `Idempotency.CrashBlocksKey` | src/pyverge/runtime/middleware/idempotency.py:52-62 | after a client is stopped at any point while it holds a claim, its key stays claimed and no client returns a result for it |
| `Identity.NodeOrder` | src/pyverge/core/versioning/identity/nodes.py:97-146 | node identity is a strict total order |
| `Identity.VersionOrder` | src/pyverge/core/versioning/identity/nodes.py:97-146 | within one namespace and kind the order of nodes is the order of versions |
| `Identity.TextByFirstDifference` | src/pyverge/core/versioning/identity/nodes.py:97-146 | texts compare by their first difference, a prefix being smaller |
| `Identity.EdgeOrder` | src/pyverge/core/versioning/identity/edges.py:84-125 | edge identity is a strict total order |
| `SortedLists.FindLists` | src/pyverge/core/registry/memory.py:548-560 | bisection in a sorted listing finds exactly the contents |
| `SortedLists.InsertLists` | src/pyverge/core/registry/memory.py:498-499 | insertion at the bisection point lists the contents plus the new entry, sorted |
| `SortedLists.DeleteLists` | src/pyverge/core/registry/memory.py:573-579 | deletion at the bisection point lists the contents minus the key, sorted |
| `RegistryIndex.KindListIsSubsequence` | src/pyverge/core/registry/memory.py:491-500 | each per-kind list is exactly the kind's subsequence of the version list |
| `RegistryIndex.NodesInsert` | src/pyverge/core/registry/memory.py:498-499 | inserting a node keeps the version list and every per-kind list sorted and exact |
| `RegistryIndex.NodesDelete` | src/pyverge/core/registry/memory.py:570-581 | so does deleting one |
| `RegistryIndex.EdgesInsert` | src/pyverge/core/registry/memory.py:793-795 | inserting an edge keeps each kind's list sorted and exact and each endpoint bucket exact and non-empty |
| `RegistryIndex.EdgesDelete` | src/pyverge/core/registry/memory.py:879-897 | so does deleting one |
| `RegistryIndex.DigestsInsert` | src/pyverge/core/registry/memory.py:796-799 | inserting an executable edge keeps the digest index exact if and only if no other stored edge has its digest |
| `Health.UnaffectedKeepsIssues` | src/pyverge/core/registry/linters/references.py:25-44 | a node's missing references can change only when a node it references is stored or removed |
| `Health.RemoveReferences` | src/pyverge/core/registry/memory.py:309-319 | the inverse index stays exact when an entity's former references are dropped |
| `Health.AddReferences` | src/pyverge/core/registry/memory.py:320-323 | and when its present references are recorded |
| `RegistrySpec.StoreIssues` | src/pyverge/core/registry/memory.py:345-358 | refreshing a stored node and its referrers makes every node's issues what recomputation gives |
| `RegistrySpec.RemoveIssues` | src/pyverge/core/registry/memory.py:570-583 | so does dropping a removed node and refreshing its referrers |
| `RegistrySpec.RefreshKeepsExact` | src/pyverge/core/registry/memory.py:345-361 | exact indexes stay exact under a refresh if and only if each refreshed object is the stored one or neither it nor the stored one has references |
| `RegistrySpec.BareEndpointLosesReferences` | src/pyverge/core/registry/memory.py:360-361 | a key-only edge over a model with references: refreshing its endpoints breaks the reference index |
| `RegistrySpec.TablesUnique` | src/pyverge/core/registry/memory.py:309-371 | the contents determine the reference and health indexes |
| `RegistrySpec.StoreKeepsComplete` | src/pyverge/core/registry/memory.py:500-501 | every stored model is findable by reference after a store if and only if all were before and the new reference is unused |
| `RegistrySpec.AdjacentExact` | src/pyverge/core/registry/memory.py:189-193 | adjacent bisection positions are exactly neighbouring versions |
| `RegistrySpec.TouchedIsKind` | src/pyverge/core/registry/memory.py:660-679 | the migrations touching a kind's models are exactly the kind's migrations |
| `Registry.Registry.Lint` | src/pyverge/core/registry/linters/references.py:11-44 | the issues are exactly the references that are foreign or not stored |
| `Registry.Registry.SetReferences` | src/pyverge/core/registry/memory.py:309-323 | the reference tables track the entity's references and nothing else changes |
| `Registry.Registry.SetHealth` | src/pyverge/core/registry/memory.py:325-339 | the issue table and the per-namespace table stay consistent |
| `Registry.Registry.Refresh` | src/pyverge/core/registry/memory.py:345-352 | refreshing a set of entities, in any order, replaces exactly their references and issues |
| `Registry.Registry.RebuildHealth` | src/pyverge/core/registry/memory.py:363-371 | starting over makes the indexes exact |
| `Registry.Registry.RebuildIsIncremental` | src/pyverge/core/registry/memory.py:363-371 | rebuilding a valid registry's indexes changes none of them |
| `Registry.Registry.Store` | src/pyverge/core/registry/memory.py:491-503 | a free identity is stored, a taken one refused; every index stays exact |
| `Registry.Registry.StoreAbsent` | src/pyverge/core/registry/memory.py:498-502 | storing keeps every index exact, and models findable by reference exactly when the reference is unused |
| `Registry.Registry.Hydrate` | src/pyverge/core/registry/memory.py:505-522 | succeeds exactly for a model whose identity is free, held by a bare key, or held by a model with the same fields, which then is the answer; refused or answered by a stored model, nothing changes; every index stays exact |
| `Registry.Registry.Reconcile` | src/pyverge/core/registry/memory.py:524-546 | succeeds exactly for a bare key, a free identity, or a stored model with the same fields; the stored entry is the answer and nothing changes; every index stays exact |
| `Registry.Registry.RemoveEntry` | src/pyverge/core/registry/memory.py:570-583 | the entry is gone and every index stays exact |
| `Registry.Registry.RemoveModel` | src/pyverge/core/registry/memory.py:618-645 | removes the node exactly when it is stored and no migration touches it; every index stays exact |
| `Registry.Registry.MigrationsOf` | src/pyverge/core/registry/memory.py:214-221 | the bucket's executable edges are exactly the migrations touching the node |
| `Registry.Registry.StoreEdge` | src/pyverge/core/registry/memory.py:758-804 | refused exactly when an endpoint of a migration is not stored or a stored migration of the identity has another digest; a stored edge is answered and nothing changes, unless it is key-only and gives way to a migration; exactly which objects are refreshed |
| `Registry.Registry.StoreMigration` | src/pyverge/core/registry/memory.py:714-804 | which nodes and edge a registration request leaves and what it answers, a reconstructed endpoint staying even on failure; with no endpoint reconstructed, a refusal or an answer already stored changes nothing; every index stays exact |
| `Registry.Registry.IsAdjacent` | src/pyverge/core/registry/memory.py:189-193 | true exactly when no stored node of the kind lies strictly between the two |
| `Registry.Registry.RemoveMigration` | src/pyverge/core/registry/memory.py:868-903 | refused exactly when hooks are registered; otherwise the edge is gone, and exactly which objects are refreshed |
| `Registry.Registry.RemoveGroundedEdge` | src/pyverge/core/registry/memory.py:868-903 | removing a stored migration leaves every index exact |
| `Registry.Registry.DeleteKind` | src/pyverge/core/registry/memory.py:660-683 | exactly the kind's models, its migrations and their hooks are gone; every index stays exact; no error path is reached |
| `Engine.DoStoreModel` | src/pyverge/core/engine.py:161-173 | full models hydrate, bare keys never replace anything |
| `Engine.DoRemoveMigration` | src/pyverge/core/engine.py:276-297 | removed exactly when stored, executable, unhooked and, unless forced, adjacent and not critical |
| `Engine.IsCritical` | src/pyverge/core/registry/memory.py:408-412 | a stored edge is critical exactly when its kind has more than two edges |
| `Engine.HookOutcomeMeans` | src/pyverge/core/engine.py:316-335 | exactly when each hook call succeeds, what it does to the migration's hooks as a bag, and that every other migration keeps its hooks |
| `Engine.RemoveUndoesAdd` | src/pyverge/core/registry/memory.py:945-977 | removing a hook just added gives every migration its hooks back, in the old order if the hook is new |
| `Engine.Apply` | src/pyverge/core/engine.py:161-335 | each call keeps every index exact, the digest index unless digests clash, changes the contents as the catalog does, and leaves hooks only on stored migrations |
| `Engine.Replay` | src/pyverge/core/engine.py:161-335 | after any history of calls every index is exact, the digest index unless digests clash, and the contents are those of replaying the calls on the catalog |
| `Engine.SameContentsSameIndexes` | src/pyverge/core/registry/memory.py:103-135 | histories that reach the same contents leave the same lists, buckets, digest, reference and health indexes |
| `Histories.StoreModelExact` | src/pyverge/core/engine.py:161-173 | storing a full model succeeds if and only if its identity is free, held by a bare key, or held by a model with the same fields; the only refusal is the field conflict; a stored model is the answer |
| `Histories.ReconcileModelExact` | src/pyverge/core/registry/memory.py:524-546 | reconciling is the same, except that a model never takes over a bare key |
| `Histories.StoreModelLeaves` | src/pyverge/core/registry/memory.py:505-546 | a refused store changes nothing, one that succeeds changes its identity alone and leaves it stored with the entry's fields |
| `Histories.StoreModelTwice` | src/pyverge/core/engine.py:161-173 | storing a model again answers the same and leaves the whole catalog as it is |
| `Histories.StoreModelLater` | src/pyverge/core/engine.py:161-173 | so it does after any history that does not remove it |
| `Histories.RemoveModelExact` | src/pyverge/core/registry/memory.py:618-645 | a model is removed exactly when it is stored and no migration touches it, and why not otherwise |
| `Histories.RemoveUndoesStore` | src/pyverge/core/registry/memory.py:491-645 | removing a model just stored under a free identity gives the catalog back |
| `Histories.SpecNodesExact` | src/pyverge/core/registry/memory.py:714-735 | a request leaves the nodes as they were, or with the one missing endpoint reconstructed from the other |
| `Histories.StoredEdgeExact` | src/pyverge/core/registry/memory.py:758-804 | when a direct edge is refused, with which error, and which edge is the answer otherwise |
| `Histories.StoreMigrationExact` | src/pyverge/core/registry/memory.py:714-804 | a request succeeds if and only if its endpoints are or become neighbouring models of one kind and namespace, its discriminator is not empty, and no stored migration of its identity has another digest; a stored migration is the answer |
| `Histories.StoreMigrationErrors` | src/pyverge/core/registry/memory.py:714-757 | exactly when each other refusal is given |
| `Histories.StoreMigrationTwice` | src/pyverge/core/registry/memory.py:714-804 | repeating a request that succeeded answers the same edge and leaves the whole catalog as it is |
| `Histories.ConflictChangesNothing` | src/pyverge/core/registry/memory.py:777-788 | a request for a stored migration with another digest is refused as a conflict and changes nothing |
| `Histories.RemoveMigrationExact` | src/pyverge/core/engine.py:276-297 | exactly when each answer is given, and that only the migration goes |
| `Histories.RemoveUndoesRegistration` | src/pyverge/core/registry/memory.py:714-903 | forcing out a migration just registered under a free identity gives the catalog back |
| `Histories.HistoryKeepsModel` | src/pyverge/core/engine.py:161-335 | over every history, a stored model stays the same, fields and references included, until it is removed or its kind is deleted |
| `Histories.HistoryKeepsIdentity` | src/pyverge/core/engine.py:161-335 | so does a bare key stay stored, as itself or taken over by a model |
| `Histories.HistoryKeepsMigration` | src/pyverge/core/engine.py:161-335 | over every history, a stored migration stays the same, content included, until it is removed or its kind is deleted |
| `Histories.HookErrors` | src/pyverge/core/engine.py:316-335 | why a hook call is refused: no such migration, no hooks on it, or not this hook |
| `Histories.HooksKeepOrder` | src/pyverge/core/registry/memory.py:945-957 | hooks are kept in the order in which they were added |
| `Histories.RemoveTakesFirst` | src/pyverge/core/registry/memory.py:959-977 | removing a hook takes its first occurrence and leaves the others in order |
| `Histories.IssuesMean` | src/pyverge/core/registry/linters/references.py:11-44 | in a valid registry a stored model has an issue for each reference that leads out of the namespace or to no stored node, and nothing else has issues |
| `Histories.ReferrersMean` | src/pyverge/core/registry/memory.py:309-323 | in a valid registry the referrers of an identity are the stored models that reference it |
| `HookSort.HookOrderIrrelevant` | src/pyverge/core/graph/builder.py:67-71 | the sorted hook digests depend only on the multiset of hooks, and determine it when the digests tell the hooks apart |
| `Snapshot.CollectAll` | src/pyverge/core/graph/builder.py:45-83 | gathering the kinds in any order yields exactly the stored edges, their digests, sorted hooks and executability |
| `Snapshot.Compile` | src/pyverge/core/graph/builder.py:39-127 | refused exactly when the registry mixes namespaces or an expected revision differs; otherwise the result is the contents' snapshot with its revision, the reference lookup and the digest index |
| `Snapshot.SnapshotsAgree` | src/pyverge/core/graph/builder.py:45-112 | equal nodes, edges and hook multisets give equal node, edge and hook indexes and equal revisions, and equal reference lookups where those are exact |
| `Snapshot.CompiledAgree` | src/pyverge/core/graph/builder.py:45-127 | registries with equal registrations compile into equal indexes, digest maps and revisions |
| `Revisions.CompiledRevisions` | src/pyverge/core/graph/revision.py:83-152 | two registries of one namespace compile into one revision if and only if their content is the same, given a hash and version texts that tell them apart |
| `Revisions.SameContentSameRevision` | src/pyverge/core/graph/revision.py:83-152 | the same content gives the same revision, whatever the hash |
| `Revisions.RevisionIdentifiesContent` | src/pyverge/core/graph/revision.py:83-152 | for single-namespace catalogs whose payloads the hash tells apart, revisions are equal if and only if the content is, up to model providers, the endpoint objects of key-only edges and references with equal texts |
| `Revisions.TextsDetermineReferences` | src/pyverge/core/versioning/identity/nodes.py:277-287 | the hashed texts determine a model's references if and only if no two references in play share a text |
| `Revisions.PlainReferencesApart` | src/pyverge/core/versioning/identity/nodes.py:151-154 | enough for that: plain version texts, and one namespace or namespaces without a colon |
| `Revisions.RevisionMissesReferences` | src/pyverge/core/versioning/identity/nodes.py:277-287 | two catalogs with different references and the same revision |
| `Descriptors.KindRoundTrip` | src/pyverge/core/versioning/identity/metadata.py:163-180 | every type kind parses back from its text |
| `Descriptors.KindsByText` | src/pyverge/core/versioning/identity/metadata.py:163-180 | the kind that each text names |
| `Descriptors.ParseTypeExact` | src/pyverge/core/versioning/identity/metadata.py:275-303 | a dict parses as a type if and only if its entries mean that type, key by key, null counting as absent where the reader says so |
| `Descriptors.OlderReferenceReads` | src/pyverge/core/versioning/identity/metadata.py:94-104 | a reference written under the older key names reads the same |
| `Descriptors.BareFieldReads` | src/pyverge/core/versioning/identity/metadata.py:333-362 | a field of which only name and type are written is optional, without default and references |
| `Descriptors.ReferenceRoundTrip` | src/pyverge/core/versioning/identity/metadata.py:77-104 | every model reference parses back, metadata included |
| `Descriptors.TypeRoundTrip` | src/pyverge/core/versioning/identity/metadata.py:275-318 | every type parses back, an absent field map staying different from an empty one |
| `Descriptors.FieldRoundTrip` | src/pyverge/core/versioning/identity/metadata.py:333-377 | every field parses back, an absent default staying different from a null one |
| `Descriptors.ModelRoundTrip` | src/pyverge/core/versioning/identity/metadata.py:410-446 | every model parses back, whatever the order of its fields |
| `Descriptors.ModelReferencesExact` | src/pyverge/core/versioning/identity/metadata.py:388-446 | the printed references are exactly the fields' references |

## Left out

- The walk guided by a source model: it walks a validated copy, whose paths need not exist in the payload.
- Payloads that share sub-objects and the shallow and no-copy policies: payloads are immutable trees, so updates in place and aliasing are not captured.
- Negative list indices in paths: extraction never makes them.
- Hook scopes, telemetry, clocks, audit events and middleware other than idempotency: side effects outside the payload.
- Framework adapters, the command line, model building and reflection: they wrap libraries outside the repository; reflection appears as a function that answers a model of the identity asked for.
- SemVer and date parsing, SHA-256, JSON text, igraph and rustworkx: parameters and preconditions (a codec that round-trips the versions in use, a hash that tells the stored payloads apart, native adjacency equal to the edge set).
- Snapshot.Compile: does not gather edge metadata or derive the manifest digest, because nothing modelled here reads them.
- Snapshot.SnapshotsAgree: leaves out the same edge metadata; the digest map is compared by Snapshot.CompiledAgree.
- Indexed.Build: does not build the incoming, endpoint and position indexes, because nothing modelled here reads them.
- Coordinator.Run: does not model validating the output against the target models, which is off by default and done by the adapter.
- Mixed version types in one registry: there is one version order.
- The health of `MissingMigrationsLinter`: its verdict depends on neighbouring versions, which are not refreshed.
- `remove_migration_range`, `clear_models`, `clear_migrations`, `attach_hooks`, `copy_from`: guards, loops and copies over the operations modelled here.
- Empty per-kind lists that lookups in a defaultdict leave behind: the model compares lists by content.
- Callable targets and model classes as targets: callables have no cache key and are never cached; a class is resolved through its adapter to a fixed node.
- Targets spelled in two ways, such as `None` and `"skip"`: they have two keys and one plan, which costs a cache entry and nothing else.
- Graph positions, neighbour listings and the native topological sort: easy lookups, or the native library's own code.
- Parsing canonical values whose list entries are strings or dicts: iterating those is treated as raising.
- Execution is not modelled below one migration call: a step is one function application, and threads interleave between steps.
