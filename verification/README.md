# Verified models of the repository's build and maintenance tooling

The scripts that build, order, partition, migrate and document the workspace hold a number of self-contained
algorithms and protocols. This project models the hardest of them in Dafny 4.11 and proves what they promise, for every
input, every run and every schedule. `dafny verify dfyconfig.toml` checks everything.

| file | what it models |
|---|---|
| `SinkCycles.dfy`, `PackageOrder.dfy` | dependency ordering: Tarjan's components over one mutable search object, and the layered sort that falls back on them (`scripts/package-graph.ts`) |
| `CoveragePartitions.dfy`, `MakespanBound.dfy` | longest-processing-time assignment over an array heap, and its quality against every other assignment (`scripts/coverage-partitions.ts`) |
| `SchemaPaths.dfy`, `SchemaKeys.dfy` | the three-valued presence check of schema key paths against recursive types (`scripts/gen-config-catalog.ts`) |
| `PasteClosure.dfy` | the worklist that pastes a config type's declarations (`scripts/gen-config-catalog.ts`) |
| `JobPool.dfy`, `MigrationOutcomes.dfy`, `FailureSummary.dfy` | the migration's job pool as interleaved steps, its outcome accounting and its failure report (`scripts/migrate-sessions-to-v4.ts`) |
| `ConcurrentMap.dfy`, `BenchmarkCandidates.dfy` | the second pool of the same shape, and a reachability search (`scripts/benchmark-next-package-dependency.ts`) |
| `StageSupervisor.dfy` | the shutdown protocol with signal escalation (`scripts/dev-web.ts`) |
| `MarkdownDestinations.dfy`, `MarkdownProse.dfy` | the destination scanner and the comment mask (`scripts/markdown.ts`) |
| `JsDocProse.dfy` | the paragraph and list buffers of the JSDoc parser (`scripts/jsdoc.ts`) |
| `ClientBuildRecord.dfy` | the length-framed artifact digest and its record (`scripts/client-build-environment.ts`) |
| `GitBatch.dfy` | the parser of a `git cat-file --batch` stream (`scripts/benchmark-npm-resolution.ts`) |
| `SessionFormatChain.dfy` | validation of the migration inventory (`scripts/gen-session-format-catalog.ts`) |
| `Reachability.dfy`, `Ordering.dfy`, `Text.dfy`, `Decimal.dfy`, `Options.dfy` | shared: paths in graphs, the library sort and unique sorted listings, splitting and joining, decimal digits |

Code that mutates state is modelled by classes, arrays and loops (the Tarjan search, the heap, the guard set of the path
walk, the pool's variables, the ledger, the supervisor, the JSDoc buffers, every scanning loop), each proved against a
specification function or relation; the theorems are about those. Concurrent code is a state machine whose steps are the
stretches between two `await`s, and a run is any sequence of enabled steps.

Inputs taken as parameters: `localeCompare` and the default string order (a strict total order), the hash (any
function), what a visit, an open or a stage does, the parsed HTML nodes and fenced lines of a Markdown source, the found
files, and the registry index. Weights are reals.

## Where the code and its documentation part

The code is modelled as it is. Each of these has an input that shows it and, but for the one marked, its exact
condition.

- `assignWeightedPartitions` documents "every partition non-empty". That holds if and only if there are at least p files
  and at least p - 1 of them have non-negative weight; recorded durations may be negative or the inventory too small.
  `NegativeWeightsLeaveEmpty` and `OneFileLeavesEmpty` are inputs.
- `lookupPath` documents that `missing` is never wrong. It passes over method, accessor and index signatures and quoted
  property names. `missing` is wrong if and only if an element it passed over declares the name asked for and can
  provide the rest of the path; `MethodReportedMissing` is an input.
- `lookupPath` can recurse for ever through an indexed access type: `SelfIndexDiverges` is an input, `type A = A['x']`.
  For this one only a sufficient condition is proved: it ends if no cycle of references between declarations passes an
  indexed access, so always without such types.
- `resolveTypeName` never returns if and only if the chain of package-local imports lasts for one hop more than there are
  files; `TwoFileCycle` is an input.
- `stop` sends a stage the same signal twice in some run if and only if SIGKILL is the requested signal;
  `SignalledTwice` is a run.
- `destinationRange` lets a backslash take any character along, where section 2.4 of CommonMark lets it escape
  punctuation only, and takes every character of the `\s` class for a separator, where section 6.3 knows ASCII
  whitespace. Behind whitespace it finds a valid bare destination if and only if no such character stands outside
  parentheses, save behind an unpaired backslash, and no unpaired backslash stands before the whitespace that ends the
  destination; `BackslashBeforeSpace`, `NoBreakSpaceInside` and `NoBreakSpaceFirst` are inputs.
- `labelEnd` counts brackets inside code spans: it finds the end of a label if and only if the label is bracket-balanced
  up to escapes; `CodeSpanInLabel` is an input.
- `destinationRange` does not know the prefixes of containers: where a line ends before the destination of a node inside
  a block quote, it takes the next line's marker for the destination. It finds the destination if and only if no such
  marker stands before it (and the condition above holds); `MarkerTaken` and `MarkerDefined` are inputs.
- `htmlCommentRanges` adds offsets within a parsed value to the node's offset, but the value lacks the prefixes of the
  containers around it. The mask is right if and only if in no node a character was skipped before the end of its last
  comment; `QuotedCommentKept` is an input where the end of a comment is kept as prose.
- It also looks for the end of a comment behind `<!--` only, where section 6.6 of CommonMark takes `<!-->` and `<!--->`
  for whole comments. The comments found are these if and only if none opens like that with text behind it;
  `ShortCommentRunsOn` is an input.
- A current version of 0 is accepted with an empty inventory, but rendering its catalog fails: it succeeds if and only if
  the version is positive.

## Model

| member | source | states |
|---|---|---|
| `SinkCycles.Search.constructor` | scripts/package-graph.ts:95-100 | A fresh search: no index given out, empty stack, no component. |
| `SinkCycles.Search.Visit` | scripts/package-graph.ts:102-133 | One depth-first call, as the relation `Visited`: everything reachable is indexed, the closed components are whole classes, a node left on the stack reaches an earlier stacked one. Every map lookup and every pop is proved to find its element, so neither "lost" error can be thrown. |
| `SinkCycles.Search.Follow` | scripts/package-graph.ts:109-118 | One dependency: skipped when absent or closed, explored when new, otherwise linked; the scan of the list has advanced by one. |
| `SinkCycles.Search.PopComponent` | scripts/package-graph.ts:120-132 | Pops exactly the stack down to the root, in reverse, and unstacks precisely those nodes. |
| `SinkCycles.LinkChild` | scripts/package-graph.ts:112-114 | After a nested call the low link lowered to the nested low link keeps the scan invariant. |
| `SinkCycles.LinkStacked` | scripts/package-graph.ts:115-117 | After a stacked dependency the low link lowered to its index keeps the scan invariant. |
| `SinkCycles.FinishInner` | scripts/package-graph.ts:119 | Returning early when low link and index differ is right: the node has a path to an older stacked node. |
| `SinkCycles.FinishRoot` | scripts/package-graph.ts:119-132 | When they are equal the popped segment is one whole mutual-reachability class and the invariant survives the pop. |
| `SinkCycles.Search.Run` | scripts/package-graph.ts:94-144 | The unfiltered components partition the nodes into exactly the mutual-reachability classes; the kept ones are whole classes, disjoint, and together hold exactly the recurrent nodes. |
| `SinkCycles.Search.Sinks` | scripts/package-graph.ts:138-143 | The filter alone, over any partition into classes. |
| `SinkCycles.KeptIsRecurrent` | scripts/package-graph.ts:138-143 | A class passes the filter if and only if its nodes lie on a cycle and reach nothing outside their class, self-loops included. |
| `Ordering.CodeUnitsAreALocale` | scripts/package-graph.ts:157 | What is asked of `localeCompare` can be met: comparing by character codes is such an order. |
| `PackageOrder.ComparePreorder` | scripts/package-graph.ts:152-158 | The comparator is a total preorder whatever the group order. |
| `PackageOrder.CompareSeparates` | scripts/package-graph.ts:152-158 | Packages that compare equal have the same name, and the comparison is antisymmetric: distinct names are strictly ordered. |
| `PackageOrder.ComparePrecedes` | scripts/package-graph.ts:152-158 | The comparator puts a before b if and only if a precedes b: a listed group stands before an unlisted one, of two listed groups the one listed first, of two unlisted ones the smaller name, and within one group the smaller short name. |
| `PackageOrder.LastWins` | scripts/package-graph.ts:61 | A name stands for the last package that carries it. |
| `PackageOrder.BlockedHasRecurrent` | scripts/package-graph.ts:76-80 | In any non-empty remainder where every node waits for another one, some class is recurrent; so the "could not order" error is unreachable. |
| `PackageOrder.ReadyBatch` | scripts/package-graph.ts:73-75 | The ready list is empty exactly when no remaining package has all dependencies placed; otherwise it is those packages, in comparator order. |
| `PackageOrder.NextCycle` | scripts/package-graph.ts:77-81 | The cycle chosen is one whole recurrent class, the one with the least head. |
| `PackageOrder.NextBatch` | scripts/package-graph.ts:73-82 | Each turn yields a non-empty batch whose dependencies are placed already or share a cycle with their dependent inside the batch. |
| `PackageOrder.PlaceAll` | scripts/package-graph.ts:83-87 | Placing a batch keeps placed and remaining a split of the packages and keeps the dependency order. |
| `PackageOrder.FindMissingPeer` | scripts/package-graph.ts:62-68 | Reports a missing peer if and only if some package lists a dependency nobody provides. |
| `PackageOrder.TopoSort` | scripts/package-graph.ts:60-90 | Terminates; fails if and only if a peer is missing, naming one; otherwise every package is output, each dependency precedes its dependent unless the two are mutually reachable in the whole graph, and the output comes in layers: all packages whose dependencies stood in earlier layers, or, when there is none, the whole dependency-closed cycle whose head precedes every other; each layer in order of precedence. |
| `PackageOrder.OutputLayered` | scripts/package-graph.ts:72-88 | Any output in the proved order comes in these layers; they are stated without the comparator. |
| `PackageOrder.ReadyPrecede` | scripts/package-graph.ts:73-75 | A package whose dependencies all stood before a layer comes after a package of that layer only by precedence. |
| `PackageOrder.IndependentFirst` | scripts/package-graph.ts:73-75 | Packages without dependencies come out first, sorted by precedence. |
| `PackageOrder.OutputPermutes` | scripts/package-graph.ts:69-89 | With distinct names the output is a permutation of the input. |
| `PackageOrder.Canonical` | scripts/package-graph.ts:70-88 | The batches, as a function of nodes, edges and ranking: two graphs with the same edge relation give the same order. |
| `PackageOrder.OutputCanonical` | scripts/package-graph.ts:60-90 | Two inputs with the same packages and edges, however listed and however each dependency list is arranged, give the same output, cycles included. |
| `CoveragePartitions.Smallest` | scripts/coverage-partitions.ts:340-352 | The position chosen is no heavier than the parent and either child. |
| `CoveragePartitions.SwapDescends` | scripts/coverage-partitions.ts:353-358 | Moving the leaner child up repairs one position and leaves the same defect one level lower. |
| `CoveragePartitions.SiftDown` | scripts/coverage-partitions.ts:331-359 | From a heap broken at one position only, restores the heap in place and permutes the bucket indices. |
| `CoveragePartitions.RootLeanest` | scripts/coverage-partitions.ts:315-318 | The root of a heap is minimal in (sum, file count) among all buckets: the heap refines a greedy argmin. |
| `CoveragePartitions.Fill` | scripts/coverage-partitions.ts:314-327 | Every file goes to a bucket minimal in (sum, count) at its time, and the lists hold the files in placement order. |
| `CoveragePartitions.AssignWeightedPartitions` | scripts/coverage-partitions.ts:305-328 | Files are placed heaviest first and by name among equals, greedily, an unrecorded file counting as one; the missing-heap error is thrown exactly for files without partitions. |
| `CoveragePartitions.FilesConserved` | scripts/coverage-partitions.ts:297-328 | The partitions hold exactly the files as a multiset. |
| `CoveragePartitions.NonEmptyExactly` | scripts/coverage-partitions.ts:297-304 | Every partition is non-empty if and only if there are at least p files of which at least p - 1 have non-negative weight; the documented promise holds on exactly those inputs. |
| `CoveragePartitions.NegativeWeightsLeaveEmpty` | scripts/coverage-partitions.ts:297-304 | Two files of weights -1 and -2 on two partitions: in every assignment one partition is empty. |
| `CoveragePartitions.OneFileLeavesEmpty` | scripts/coverage-partitions.ts:297-304 | So it is with one file on two partitions, whatever its weight. |
| `CoveragePartitions.WithinGrahamOfAnySplit` | scripts/coverage-partitions.ts:297-328 | For non-negative weights the heaviest partition is within 4/3 - 1/(3p) of the heaviest of any way to split the same files into p lists. |
| `CoveragePartitions.AssignFiles` | scripts/coverage-partitions.ts:494-540 | The coordinator step is ready exactly under the condition above, conserves the files and puts heavier partitions first. |
| `MakespanBound.AverageBound` | scripts/coverage-partitions.ts:305-328 | p times the bucket that takes a job is at most the total plus p - 1 times that job. |
| `MakespanBound.LargeJob` | scripts/coverage-partitions.ts:305-328 | A job heavier than a third of any other makespan still ends within that makespan. |
| `MakespanBound.GrahamBound` | scripts/coverage-partitions.ts:305-328 | The two combined: the bound for every greedy placement in descending order against every other assignment. |
| `MakespanBound.EveryBucketServed` | scripts/coverage-partitions.ts:305-328 | The exact non-emptiness condition, for weights of any sign. |
| `SchemaKeys.ParsePath` | scripts/gen-config-catalog.ts:311-324 | The loops compute the declarative reading of a key path, segment by segment. |
| `SchemaKeys.ParseSegment` | scripts/gen-config-catalog.ts:313-322 | One segment: the `[]` suffixes come off and follow the name as that many element steps. |
| `SchemaKeys.ParseInvertsWrite` | scripts/gen-config-catalog.ts:310-324 | Writing names with their array suffixes, joining with dots and parsing gives back the names and hops. |
| `SchemaPaths.VerdictsMean` | scripts/gen-config-catalog.ts:397-404 | `found` is always right: the path is there however everything out of sight turns out and whichever branch each union takes. `missing` is right if and only if nowhere on the walk an element it passes over (method, accessor, quoted property, index signature) declares the name asked for and can provide the rest of the path. |
| `SchemaPaths.DecidesWhenClear` | scripts/gen-config-catalog.ts:405-491 | A finished walk is `unknown` only if it met a place out of sight, a union of which one branch has the path and another has not, or a declaration already entered with as many steps left. With none of these met it is `found` if the walk has the path and `missing` otherwise. |
| `SchemaPaths.MistypedKey` | scripts/gen-config-catalog.ts:418-447 | An interface with one base: its own names and the base's are found, every other name is reported missing. |
| `SchemaPaths.FoundHolds` | scripts/gen-config-catalog.ts:405-491 | `found` under any guard set, with a bound on the derivation. |
| `SchemaPaths.MissingHolds` | scripts/gen-config-catalog.ts:405-491 | A completion that provides a path reported `missing` exposes such an element, whatever the shared guard set had cut. |
| `SchemaPaths.OptimistProvides` | scripts/gen-config-catalog.ts:458-463 | One completion, in which every union takes the branch that provides the path soonest, provides whatever any completion does. |
| `SchemaPaths.BlindContradicts` | scripts/gen-config-catalog.ts:423-431 | Where such an element is passed over, that completion provides the path. |
| `SchemaPaths.MethodReportedMissing` | scripts/gen-config-catalog.ts:423-431 | An interface with one method: every name is reported `missing`, and that is wrong of the method's own name and right of every other. |
| `SchemaPaths.PlainIsNeverBlind` | scripts/gen-config-catalog.ts:423-431 | With only plain properties declared, no walk is blind, so `missing` is then always right. |
| `SchemaPaths.Terminates` | scripts/gen-config-catalog.ts:407-414 | Without indexed access types the walk ends on every set of declarations, cyclic ones included. |
| `SchemaPaths.TerminatesRanked` | scripts/gen-config-catalog.ts:407-475 | With indexed access types it still ends if no cycle of references passes one: the declarations can be ranked so that no reference goes up and those within the owner of an indexed access go down. |
| `SchemaPaths.FuelIrrelevant` | scripts/gen-config-catalog.ts:469-475 | A finished walk does not depend on the bound put on indexed access. |
| `SchemaPaths.SelfIndexDiverges` | scripts/gen-config-catalog.ts:469-475 | `type A = A['x']`: no bound is enough, so the program recurses for ever. |
| `SchemaPaths.PathWalk.constructor` | scripts/gen-config-catalog.ts:405 | A walk starts with an empty guard set. |
| `SchemaPaths.PathWalk.Look` | scripts/gen-config-catalog.ts:405-491 | The recursive walk over its one mutable guard set computes the verdict and the guard set of the pure walk. |
| `SchemaPaths.PathWalk.LookEach` | scripts/gen-config-catalog.ts:436-463 | Branches in order, each with the guard set the previous one left. |
| `PasteClosure.EndlessExactly` | scripts/gen-config-catalog.ts:162-187 | Name resolution recurses for ever if and only if the chain of package-local imports lasts for one hop more than there are files, and then it never ends. |
| `PasteClosure.ResolvesExactly` | scripts/gen-config-catalog.ts:162-187 | Resolution answers with what the file at the end of the chain of package-local imports says: its own declaration, its import from another module, nothing, or a missing file. |
| `PasteClosure.TwoFileCycle` | scripts/gen-config-catalog.ts:172-185 | Two files that import a name from each other are such an input. |
| `PasteClosure.TakeRef` | scripts/gen-config-catalog.ts:787-803 | An imported name is recorded, or the closure is proved unpasteable: the config type itself, a name also declared, or two different imports. |
| `PasteClosure.TakeLocal` | scripts/gen-config-catalog.ts:804-824 | A declaration is pasted once and its names queued, dropped when it is already there, or the closure is proved unpasteable. |
| `PasteClosure.DryIsClosure` | scripts/gen-config-catalog.ts:780-826 | When the queue runs dry the pasted declarations are exactly the package-local ones in the closure, each once, and the refs exactly its imported names. The closure follows what the declarations themselves list outside the global types. |
| `PasteClosure.MentionsExactly` | scripts/gen-config-catalog.ts:818-823 | What a paste queues is exactly the names its declaration lists outside the global types, each to be read in its file. |
| `PasteClosure.ListedIsCovered` | scripts/gen-config-catalog.ts:818-823 | Every such name a pasted declaration lists is the name of a pasted declaration or in the refs. |
| `PasteClosure.CollectPastes` | scripts/gen-config-catalog.ts:770-826 | The worklist terminates. It reports no violation if and only if the closure is pasteable: the type is local, every mention resolves and each bare name means one thing from every pasted file. Then the closure is pasted, the config type first, and every other paste is listed by an earlier one. |
| `JobPool.StepKeeps` | scripts/migrate-sessions-to-v4.ts:148-165 | Every atomic step of workers and main function keeps the pool invariant. |
| `JobPool.RunsKeep` | scripts/migrate-sessions-to-v4.ts:148-165 | So does every schedule. |
| `JobPool.Bounded` | scripts/migrate-sessions-to-v4.ts:155 | At most min(jobs, count) visits run at any time, in every schedule. |
| `JobPool.Succeeds` | scripts/migrate-sessions-to-v4.ts:148-165 | On success each index had one first attempt, then exactly the deferred ones were retried once each, serially and ascending, after all first attempts had ended. |
| `JobPool.RejectionSkipsRetries` | scripts/migrate-sessions-to-v4.ts:161-163 | After a rejected first attempt every started visit still settles, no retry begins, and if any worker finished normally every index was attempted. |
| `JobPool.RejectedRetryStops` | scripts/migrate-sessions-to-v4.ts:164 | A rejected retry ends the pass at that index. |
| `JobPool.StepShortens` | scripts/migrate-sessions-to-v4.ts:148-165 | Every step leaves strictly less work. |
| `JobPool.Terminates` | scripts/migrate-sessions-to-v4.ts:148-165 | No schedule is longer than the work at the start. |
| `JobPool.Progress` | scripts/migrate-sessions-to-v4.ts:148-165 | Until the run is over some step is enabled: no deadlock. |
| `JobPool.Runner.constructor` | scripts/migrate-sessions-to-v4.ts:153-155 | The variables of one call: nothing claimed, nothing deferred, idle workers. |
| `JobPool.Runner.Advance` | scripts/migrate-sessions-to-v4.ts:156-158 | A worker claims the next index or leaves, as the step of the state machine. |
| `JobPool.Runner.Settled` | scripts/migrate-sessions-to-v4.ts:158 | A first attempt settles: the index is deferred, done, or the worker fails. |
| `JobPool.Runner.AllSettled` | scripts/migrate-sessions-to-v4.ts:161-164 | After every worker settled: the first rejection is thrown or the deferred list is sorted. |
| `JobPool.Runner.Retry` | scripts/migrate-sessions-to-v4.ts:164 | One serial retry. |
| `MigrationOutcomes.Ledger.constructor` | scripts/migrate-sessions-to-v4.ts:174-175 | Empty counters tally nothing. |
| `MigrationOutcomes.Ledger.RecordOutcome` | scripts/migrate-sessions-to-v4.ts:176-180 | One more of this outcome, in the totals and for its version. |
| `MigrationOutcomes.Ledger.Fail` | scripts/migrate-sessions-to-v4.ts:182-186 | The failure is pushed and its outcome recorded together, so that counters and failure list stay those of everything settled. |
| `MigrationOutcomes.Ledger.Settle` | scripts/migrate-sessions-to-v4.ts:221-246 | How a visit that ends for good leaves counters and failure list. |
| `MigrationOutcomes.TotalsCountEntries` | scripts/migrate-sessions-to-v4.ts:174-180 | The four totals add up to the number of recorded outcomes. |
| `MigrationOutcomes.VersionsAddUp` | scripts/migrate-sessions-to-v4.ts:176-180 | For each outcome the per-version counts add up to the total. |
| `MigrationOutcomes.OutcomesConserved` | scripts/migrate-sessions-to-v4.ts:212-247 | In every schedule each input ends with exactly one outcome, deferred or not, so the totals sum to the input count. |
| `MigrationOutcomes.OutcomeEarned` | scripts/migrate-sessions-to-v4.ts:218-247 | In every completed run the one outcome recorded for an input is the one its last visit earned: failed with a directory error, or with a generation that did not open, then with that visit's diagnostic; skipped without either; already V4 or converted, by its generation, when it opened. |
| `MigrationOutcomes.RetriedExactly` | scripts/migrate-sessions-to-v4.ts:238-243 | An input is visited again if and only if its first visit found its source changed. |
| `JobPool.IndicesBelow` | scripts/migrate-sessions-to-v4.ts:155-164 | Every visit of a run, retries included, is handed an index below the count. |
| `MigrationOutcomes.NeverAborts` | scripts/migrate-sessions-to-v4.ts:212-247 | The callback rejects an index that names no input; the pool hands it none, so no schedule aborts the pool. |
| `MigrationOutcomes.Account` | scripts/migrate-sessions-to-v4.ts:174-247 | The ledger of a run settles every visit that ended for good, in the order of the log. |
| `MigrationOutcomes.TotalsConserved` | scripts/migrate-sessions-to-v4.ts:174-247 | In every schedule the totals of a completed run sum to the input count, the counts of all versions to the totals, and the failure list has as many entries as the failed total. |
| `MigrationOutcomes.TotalsMean` | scripts/migrate-sessions-to-v4.ts:178-182 | Each of the four totals of a completed run is the number of inputs whose last visit earned that outcome. |
| `FailureSummary.SummarizeFailures` | scripts/migrate-sessions-to-v4.ts:60-83 | Each group holds exactly the failures of its key, every failure has its group, groups are sorted by key and items by path. |
| `FailureSummary.KeyCarries` | scripts/migrate-sessions-to-v4.ts:63-65 | Two failures share a group if and only if they agree in version, reason, error name, event type, member and child flag. |
| `FailureSummary.GroupsCountFailures` | scripts/migrate-sessions-to-v4.ts:60-83 | The group counts sum to the number of failures. |
| `FailureSummary.GroupsCountFailedTotal` | scripts/migrate-sessions-to-v4.ts:60-83 | In every schedule the group counts of a completed run sum to its failed total. |
| `ConcurrentMap.MapsLikeSequential` | scripts/benchmark-next-package-dependency.ts:182-199 | In every schedule that succeeds, the operation rejects no value and the results are those of the sequential map. |
| `ConcurrentMap.WrittenIsRight` | scripts/benchmark-next-package-dependency.ts:195 | At every moment of every run, rejections or not, each result written is the operation's on the value at its index. |
| `ConcurrentMap.RejectsExactly` | scripts/benchmark-next-package-dependency.ts:189-197 | Whatever the schedule and the job count, a finished run has rejected if and only if the operation rejects some value. |
| `ConcurrentMap.GoesOnAfterRejection` | scripts/benchmark-next-package-dependency.ts:190-195 | A run in which, after one worker's rejection, another claims a further index. |
| `BenchmarkCandidates.InstallEdge` | scripts/benchmark-next-package-dependency.ts:145-156 | The edges searched: between two known packages, from one to what npm installs beside it, optional peers excepted. |
| `BenchmarkCandidates.ReachFromTarget` | scripts/benchmark-next-package-dependency.ts:140-158 | The growing queue with its cursor terminates and reaches exactly the packages the target reaches through what npm installs. |
| `BenchmarkCandidates.DiscoverBenchmarkCandidates` | scripts/benchmark-next-package-dependency.ts:134-165 | The result lists, ascending, exactly the reached, released packages outside the policy that carry a peer other than Cordis. |
| `StageSupervisor.RunsKeep` | scripts/dev-web.ts:237-283 | The invariant over every schedule of additions, exits, grace expiries and one stop. |
| `StageSupervisor.ResolvesWhenGone` | scripts/dev-web.ts:258-273 | `stop` resolves only when every stage added before it has exited; with no later addition, every stage. |
| `StageSupervisor.SignalsInOrder` | scripts/dev-web.ts:262-273 | Each stage receives a prefix of the requested signal, SIGTERM, SIGKILL, and all of it before the last wait. |
| `StageSupervisor.LastSignals` | scripts/dev-web.ts:262-273 | In the last wait every live stage on time has received exactly SIGTERM and SIGKILL if the request was none or SIGTERM, and the requested signal before these otherwise; there has been one wait for a SIGTERM request and two for any other. |
| `StageSupervisor.TermBeforeKill` | scripts/dev-web.ts:264-272 | In every run a stage on time that received SIGKILL, save as the requested signal, received SIGTERM right before it and nothing behind it. |
| `StageSupervisor.NoneSignalledTwice` | scripts/dev-web.ts:264-271 | In every run whose request is not SIGKILL no stage added in time receives a signal twice. |
| `StageSupervisor.SignalledTwice` | scripts/dev-web.ts:264-271 | A run that requests SIGKILL in which a stage receives SIGKILL, SIGTERM, SIGKILL. |
| `StageSupervisor.DuplicateFreeExactly` | scripts/dev-web.ts:264-271 | Every run with a request is free of duplicates if and only if the request is not SIGKILL. |
| `StageSupervisor.FewWaits` | scripts/dev-web.ts:266-270 | At most two grace waits precede SIGKILL. |
| `StageSupervisor.StaleExactly` | scripts/dev-web.ts:250-256 | A stage is reported stale exactly once if it exits before the stop request, and never otherwise. |
| `StageSupervisor.ResolvesSoon` | scripts/dev-web.ts:262-282 | Once every stage has exited a stop under way resolves within two steps of its own. |
| `StageSupervisor.Supervisor.constructor` | scripts/dev-web.ts:238-244 | Nothing live, not stopping. |
| `StageSupervisor.Supervisor.Add` | scripts/dev-web.ts:250-251 | The new stage is live; the new state is the step of the state machine. |
| `StageSupervisor.Supervisor.OnExit` | scripts/dev-web.ts:252-255 | The exit continuation: the stage leaves the live set and is reported only while not stopping. |
| `StageSupervisor.Supervisor.Stop` | scripts/dev-web.ts:262-269 | `stop` up to its first await. |
| `StageSupervisor.Supervisor.AfterGrace` | scripts/dev-web.ts:266-273 | From the end of a grace wait to the next await. |
| `StageSupervisor.Supervisor.NextSignal` | scripts/dev-web.ts:266-272 | One turn of the loop: return when nobody is left, else signal and wait; after the loop, SIGKILL. |
| `MarkdownDestinations.LabelEnd` | scripts/markdown.ts:90-104 | The loop computes the recursive scan. |
| `MarkdownDestinations.LabelExactly` | scripts/markdown.ts:90-104 | The scan returns e if and only if e closes the bracket-balanced label, modulo escapes, that the first `[` opens. |
| `MarkdownDestinations.SkipWhitespace` | scripts/markdown.ts:84-88 | The loop computes the recursive skip. |
| `Text.SpacesExactly` | scripts/markdown.ts:84-88 | The characters skipped are the white space and line terminators of ECMAScript, code point by code point. |
| `MarkdownDestinations.BareRange` | scripts/markdown.ts:127-139 | The loop over a bare destination computes the recursive scan, nesting and escapes included. |
| `MarkdownDestinations.AngleRange` | scripts/markdown.ts:120-126 | The loop over an angle-bracketed destination computes the recursive scan, or its error. |
| `MarkdownDestinations.BareExactly` | scripts/markdown.ts:127-139 | A bare destination ends inside the text exactly after parenthesis-balanced text without outer whitespace, at `)` or whitespace. |
| `MarkdownDestinations.AngleExactly` | scripts/markdown.ts:120-126 | An angle-bracketed one ends exactly at the first `>` that no backslash escapes. |
| `MarkdownDestinations.DestinationRange` | scripts/markdown.ts:106-140 | The whole scanner, with its four errors. |
| `MarkdownDestinations.ErrorsExactly` | scripts/markdown.ts:106-126 | Each of the four errors is thrown if and only if its part is missing: a label that closes, the colon or the parenthesis behind it, or an unescaped `>` after a destination that starts with `<`. |
| `MarkdownDestinations.StartExactly` | scripts/markdown.ts:107-118 | Otherwise the scan of the destination starts at the first character that is no whitespace behind that separator. |
| `MarkdownDestinations.BareScan` | scripts/markdown.ts:127-139 | For balanced text as CommonMark reads it, where a backslash escapes punctuation only, the end found is its end if and only if no plain whitespace of the wider class stands outside parentheses, save behind an unpaired backslash, and no unpaired backslash stands before the whitespace that ends it. |
| `MarkdownDestinations.ScanInvertsPrint` | scripts/markdown.ts:106-140 | For every link, image or definition with a bracket-balanced label, a destination valid in section 6.3 of CommonMark and before it whitespace or, where a line ends, block quote markers: the range found is exactly the destination's text if and only if no such marker stands there and, for a bare destination, that condition holds. |
| `MarkdownDestinations.BackslashBeforeSpace` | scripts/markdown.ts:130 | The input `[a](x\ "t")`: the destination is `x\`, the range found runs to the closing parenthesis. |
| `MarkdownDestinations.NoBreakSpaceInside` | scripts/markdown.ts:135-137 | A destination with a no-break space inside: the range found ends before it. |
| `MarkdownDestinations.NoBreakSpaceFirst` | scripts/markdown.ts:84-88 | A destination that starts with a no-break space: the range found starts behind it. |
| `MarkdownDestinations.CodeSpanInLabel` | scripts/markdown.ts:90-104 | The input ``[`]`](x)``, whose label is not bracket-balanced: no inline destination is found. |
| `MarkdownDestinations.MarkerTaken` | scripts/markdown.ts:115-118 | The node text `[a](\n> /u)` of a link in a block quote: the range found is the quote marker. |
| `MarkdownDestinations.MarkerDefined` | scripts/markdown.ts:111-114 | The same of the definition `[a]:\n> /u`. |
| `MarkdownDestinations.SpliceReplaces` | scripts/markdown.ts:142-152 | In a whole document the range found is the destination under exactly that condition. Splicing another destination into it then replaces the destination and nothing else, and the result scans to the new one if and only if that one is read right. |
| `MarkdownProse.CommentsOf` | scripts/markdown.ts:205-216 | The comment loop over one HTML node, at absolute offsets. |
| `MarkdownProse.CommentsComplete` | scripts/markdown.ts:207-215 | The spans are in order and apart, each runs from an opening marker to just past the next closing one or to the end, and every opening marker lies in one. |
| `MarkdownProse.CommonMarkExactly` | scripts/markdown.ts:207-215 | The spans are the comments CommonMark knows if and only if none opens with `<!-->` or `<!--->` and text behind it. |
| `MarkdownProse.ShortCommentRunsOn` | scripts/markdown.ts:210-211 | The input `<!--> x`: the span runs to the end, the comment does not. |
| `MarkdownProse.CollectComments` | scripts/markdown.ts:204-216 | An offset is covered exactly when it lies in a comment of some HTML node. |
| `MarkdownProse.MaskRightExactly` | scripts/markdown.ts:203-216 | Wherever the parser took the characters of the values from, the offsets masked are those of the comments in the source, read as their characters or with all that stands between these, if and only if in no node a container prefix or any other character was skipped before the end of its last comment. |
| `MarkdownProse.VerbatimComments` | scripts/markdown.ts:203-216 | A corollary for a value the source holds as it stands: the mask is right in both readings, every span opens and closes in the source, and no opening marker of the source is left out. |
| `MarkdownProse.QuotedCommentKept` | scripts/markdown.ts:213 | A comment over two lines of a block quote, with a prefix skipped inside it: all of the second line lies within the comment, and it is taken for prose. |
| `MarkdownProse.LineInSource` | scripts/markdown.ts:219-232 | Lines lie in the source at the accumulated offsets, one newline apart. |
| `MarkdownProse.ColumnExactly` | scripts/markdown.ts:220-231 | A column lies in a computed range if and only if its absolute offset lies in a comment, overlapping ones included. |
| `MarkdownProse.RangesWhenTouched` | scripts/markdown.ts:223-231 | A line has ranges if and only if a comment covers one of its characters, or the position of an empty line. |
| `MarkdownProse.RangesOfLine` | scripts/markdown.ts:221-231 | The inner loop computes the clipped ranges of one line. |
| `MarkdownProse.HtmlCommentRanges` | scripts/markdown.ts:218-235 | The map lists exactly the lines that have ranges, with them. |
| `MarkdownProse.VisibleExactly` | scripts/markdown.ts:240-247 | With ranges sorted by start and the cursor at the furthest end, text remains visible if and only if a non-whitespace column lies outside all ranges. |
| `MarkdownProse.HasRenderedTextOutsideComments` | scripts/markdown.ts:238-248 | The same for ranges in any order; true when there are none. |
| `MarkdownProse.MarkdownProseLines` | scripts/markdown.ts:255-271 | A line is kept, with its number and in order, if and only if it is outside code and untouched by the mask or with a non-whitespace character outside it; and the same of the comments in the source, in either reading, if nothing was skipped before the end of a last comment. |
| `JsDocProse.Buffers.constructor` | scripts/jsdoc.ts:41-44 | Empty buffers. |
| `JsDocProse.Buffers.FlushItem` | scripts/jsdoc.ts:46-49 | The pending item joins the list, collapsed. |
| `JsDocProse.Buffers.FlushList` | scripts/jsdoc.ts:50-54 | The pending list, if any, becomes one block. |
| `JsDocProse.Buffers.FlushPara` | scripts/jsdoc.ts:55-59 | What is pending becomes one block: never two, because a paragraph never waits beside an item or list. |
| `JsDocProse.Buffers.Take` | scripts/jsdoc.ts:67-77 | A prose line: whatever follows, written blocks and pending lines together still stand for the same blocks. |
| `JsDocProse.ParseJsDoc` | scripts/jsdoc.ts:32-82 | The state machine writes exactly the blocks of an independent grouping of the lines before the first tag, and reports the last valid mode and whether any mode tag stands. |
| `JsDocProse.ModeOfExactly` | scripts/jsdoc.ts:62-63 | A line gives a mode if and only if it writes the tag, whitespace and one of the five words, with whitespace around. |
| `JsDocProse.TagsExactly` | scripts/jsdoc.ts:61-64 | A tag is an `@` behind whitespace, a mode tag one that reads `@mode` up to the end of a word. |
| `JsDocProse.BlankAndItem` | scripts/jsdoc.ts:66-69 | A blank line is all whitespace, an item opens with a dash and whitespace. |
| `JsDocProse.StarComesOff` | scripts/jsdoc.ts:33-36 | Off a line come its indentation, one star, one whitespace character behind it and whitespace at its end; the text itself stays. |
| `JsDocProse.DelimitersComeOff` | scripts/jsdoc.ts:32-36 | Between the delimiters the lines are stripped one by one. |
| `JsDocProse.CollapseExactly` | scripts/jsdoc.ts:45 | Lines collapse to their words, one space apart. |
| `JsDocProse.BlocksKeepWords` | scripts/jsdoc.ts:45-79 | The blocks of any prose hold its words, in order, and no other. |
| `JsDocProse.ProseKeepsWords` | scripts/jsdoc.ts:60-80 | So does the joined text: its word sequence is that of the lines before the first block tag. |
| `Ordering.CodesAreStrict` | scripts/client-build-environment.ts:335 | So can what is asked of the default sort order. |
| `ClientBuildRecord.FramesUnambiguous` | scripts/client-build-environment.ts:338-345 | The framed bytes determine the paths, in order, and every content. |
| `ClientBuildRecord.FedDetermines` | scripts/client-build-environment.ts:338-345 | The bytes the hash gets over the sorted paths determine the whole path-to-bytes map. |
| `ClientBuildRecord.DigestDetermines` | scripts/client-build-environment.ts:331-347 | For every hash, two artifact maps have the same digest if and only if they are equal, or hold as many files and their framed bytes, though different, collide. |
| `ClientBuildRecord.SomeHashSeparates` | scripts/client-build-environment.ts:338 | Freedom from such a collision is no empty assumption: for any two artifact maps there is a hash without it. |
| `ClientBuildRecord.ClientArtifactDigest` | scripts/client-build-environment.ts:331-347 | The loop over the sorted paths computes that digest whatever order the files are found in; none for no files. |
| `ClientBuildRecord.ReadAfterWrite` | scripts/client-build-environment.ts:275-328 | For every hash, a record just written is accepted if and only if the expected environment, when given, is the public one written, the file count is a safe integer, and the artifacts are unchanged or collide with those written. |
| `ClientBuildRecord.WrittenRecord` | scripts/client-build-environment.ts:275-288 | A fresh record holds exactly the prefixed variables of the environment, the number of artifacts and the hash of their framed bytes. |
| `GitBatch.ReadAnswer` | scripts/benchmark-npm-resolution.ts:154-164 | One answer: where its content lies, or which of the four errors is thrown. |
| `GitBatch.ReadGitFiles` | scripts/benchmark-npm-resolution.ts:145-169 | The loop computes the recursive parse: the first error, or every path with its content. |
| `GitBatch.ParseInvertsEncode` | scripts/benchmark-npm-resolution.ts:153-167 | Parsing any concatenation of answers gives each path its content, wherever it starts and whatever follows. |
| `GitBatch.BatchRoundTrip` | scripts/benchmark-npm-resolution.ts:145-169 | For distinct paths and any bytes, newlines and empty contents included, the map holds exactly the paths asked for, each with its own content. |
| `GitBatch.MissingIsReported` | scripts/benchmark-npm-resolution.ts:156-157 | An object git does not have is reported by the path it was asked for, whichever answers came before. |
| `GitBatch.BrokenOff` | scripts/benchmark-npm-resolution.ts:153-165 | A stream that breaks off inside an answer is reported as lacking a header, or past the header as truncated; no broken stream is accepted. |
| `Decimal.DigitsUnambiguous` | scripts/benchmark-npm-resolution.ts:158 | Two decimal sizes followed by a non-digit are told apart. |
| `SessionFormatChain.CheckVersions` | scripts/gen-session-format-catalog.ts:125-135 | On the sorted inventory the checks pass if and only if entry i has source version i and there are exactly as many as versions. |
| `SessionFormatChain.DeclareExactly` | scripts/gen-session-format-catalog.ts:86-123 | A manifest yields a declaration if and only if it is valid and the declaration says what its members of the same names say; the import path is the package or the exported path below it. |
| `SessionFormatChain.NumeralExactly` | scripts/gen-session-format-catalog.ts:106-109 | The versions in a package name are written in decimal, without leading zeros, and read back as themselves. |
| `SessionFormatChain.EntryTells` | scripts/gen-session-format-catalog.ts:82-168 | Every entry of an accepted catalog says what one of the manifests says. |
| `SessionFormatChain.CheckLinks` | scripts/gen-session-format-catalog.ts:144-166 | The remaining checks pass if and only if the inventory is a chain of matching codecs and dependencies. |
| `SessionFormatChain.CollectSessionFormatMigrations` | scripts/gen-session-format-catalog.ts:82-168 | Accepted if and only if every manifest is valid, the session package is shared and the declarations can be arranged as the gap-free chain 0, 1, ..., current; the result is that arrangement. |
| `SessionFormatChain.OneChain` | scripts/gen-session-format-catalog.ts:125-131 | The order in which the packages are found does not matter: an inventory has at most one chain. |
| `SessionFormatChain.CodecPerVersion` | scripts/gen-session-format-catalog.ts:186-197 | Rendering succeeds if and only if the current version is positive; then there are current + 1 codecs, codec i being the source of migration i and the target of migration i - 1, and the encoder is the last. |

## Left out

- File, process, network, git and npm input and output, clocks and logging: log writes are taken never to fail.
- The TypeScript compiler: types are a small datatype, index signatures have string keys, a name in a file means one declaration or nothing, so that a type parameter is read as the declaration of that name in the file, as the code reads it, and `found` and `missing` speak of that declaration; interface declaration merging is left out, and every type operator, `keyof` included, is looked through as the code does.
- PackageOrder.TopoSort: packages are identified by short name; of two packages with one name the later replaces the earlier, as in the code, so the permutation needs distinct names. The layers presume a group list no longer than the rank of an unlisted group, as every array is.
- CoveragePartitions.AssignFiles: collecting the inventory and the recorded durations is an input; sums are exact reals, not floating point.
- SchemaPaths.TerminatesRanked: a sufficient condition only; some cycles through an indexed access end as well, because the recursion guard meets a declaration again with as many steps left.
- PasteClosure.CollectPastes: the text of a paste, the missing-documentation checks and the wording of violations are not modelled; a file is a name, and a run that reaches a missing file or an endless import ends as a crash.
- ConcurrentMap.MapsLikeSequential: the early return of a worker on an `undefined` element is not modelled; values are never undefined. A run ends here when every worker has left; `mapConcurrent` throws the first rejection already when it comes, while the others go on.
- JobPool.Runner.Advance: a step is the code between two awaits of one worker; at least one job is asked for.
- MigrationOutcomes.OutcomesConserved: an error outside the job pool, which records one failure more, is not modelled.
- StageSupervisor.Supervisor.Stop: one stop per run; a stage added after it began is tracked as late and no promise is made for it.
- MarkdownDestinations.ScanInvertsPrint: labels are bracket-balanced up to escapes; a label with an unbalanced bracket inside a code span, an autolink or raw HTML is read as `LabelExactly` and `CodeSpanInLabel` tell. A link that is an autolink has no label and is not printed here. The node's own source text is an input.
- MarkdownProse.MarkdownProseLines: a comment is what the search finds in one parsed value, so one that the end of its node cuts off ends there, and `--!>`, at which an HTML reader ends a comment too, ends none. The values, and where in the source their characters stand, are inputs; a carriage return or a null character that a parser rewrites is not modelled.
- JsDocProse.ParseJsDoc: the prose before `{@link}` substitution and the final trim.
- ClientBuildRecord.ReadAfterWrite: the record's JSON text is not modelled; a stored record is the value it parses to.
- GitBatch.ReadGitFiles: contents and headers are bytes; decoding them as UTF-8 is left out, and with it non-ASCII whitespace before a size.
- SessionFormatChain.CollectSessionFormatMigrations: a manifest read a second time is taken to be unchanged, and directory names carry no leading zeros.
- The shutdown latch and the readiness counter of `scripts/dev-web.ts`, `foldComposed`, `partitionConfigSource`, `appendOutputTail`, `parseTags` and the environment filters of the client build: each is settled by reading one short body.
- Catalog, Markdown and catalog-source rendering, option parsing, generated tables and policy lists: text assembly.
