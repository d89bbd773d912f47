# Verified models of the harness repository scripts

The scripts under `deepseek-harness/scripts` order the workspace's packages, balance
coverage partitions, check config schemas against declared types, guard Project
References, frame bytes for digests and for `git cat-file`, and read Markdown and JSDoc.
This project models the algorithms in them and proves what their comments and error
messages promise. `dafny verify dfyconfig.toml` checks all of it.

| files | part of the system |
|---|---|
| `Digraphs`, `Packages`, `Components`, `Cycles`, `PackageComparator`, `PackageOrder` | dependency order: Tarjan's components, sink cycles, group priorities, the placing loop |
| `BucketHeap`, `CoveragePartitions`, `PartitionBounds`, `PartitionPlan` | greedy weighted partitions on a binary heap, and how good they are |
| `ConfigTypes`, `ConfigReadings`, `ConfigLookup` | declared types, two readings of a key path, and the three-valued walk over them |
| `ConfigFaults`, `ConfigLookupBare`, `ConfigLookupSound`, `ConfigLookupExact`, `ConfigLookupEnds`, `ConfigLookupRuns` | the walk without its guard, what verdicts mean, when they are exact, when the walk ends, where it errs |
| `ConfigPaths`, `ConfigExports`, `PasteClosure` | key path syntax, re-export chains, the closure pasted into the catalog |
| `ProjectFaces` | Host/Client isolation of Project References |
| `WorkerPool`, `BenchmarkCandidates` | the concurrent map and the candidate search of the benchmark |
| `Framing` | length-framed digest input, and batch output read back |
| `MarkdownLinks`, `MarkdownDestinations`, `MarkdownComments`, `MarkdownProse`, `SourceLines` | link labels and destinations, HTML comments, prose lines and where they stand |
| `JsDocText`, `JsDoc`, `JsDocLayout`, `JsDocComment`, `JsDocDocument` | description prose: words and white space, the line parser, its layout, links, whole comments |
| `Sorting`, `Splitting`, `Options` | stable sorting by a comparator; splitting and joining text; optional values |

Reachability (`Digraphs.Reach`) is membership in every edge-closed set that holds the
start; `Digraphs.ReachIffPath` proves it equal to the existence of a walk. Components,
closures and gates are all specified by it, independently of the loops that compute them.

A path is read in two ways: the strict reading demands it of every union branch and grants
nothing to what cannot be seen, the open reading asks it of some branch and grants
everything to what cannot be seen. `found` should imply the strict reading, and `missing`
should exclude the open one. The walk shares one guard among all branches, so its answer
can depend on the order of the branches; `ConfigLookupBare.Bare` is the walk without it.
Every finished walk answers what that one answers, or unknown, so no two walks of a path
contradict each other (`ConfigLookupBare.LookupBelow`, `ConfigLookupBare.WalksAgree`).

Four documented readings do not hold of the code. Each has an input at which it fails and
the condition under which it holds:

- *Every partition gets a file.* Exactly when there are at least as many files as partitions and
  `partitions - 1` or more of them have non-negative weight (`PartitionPlan.FullBuckets`).
  Three files of weight -1 leave one of three partitions empty
  (`PartitionPlan.EnoughFilesMayNotFill`). The error message names only the lack of files.
- *What the path walk cannot see is unknown, never missing.* Over every type, path and
  guard, a missing verdict is wrong exactly when the walk overlooks the key: a method, an
  index signature or a property written otherwise stands for it in a member list the path
  passes, or an operator such as `keyof` is looked through (`ConfigLookupSound.LookupSound`
  with `ConfigFaults.Overlooks`). `ConfigLookupRuns.IndexSignatureIsMissed` is an input. By
  the same lemma a found verdict is wrong exactly when the path is misread: such an operator
  is looked through, or a property written as the key is named otherwise, and nothing else
  on the way declares the key (`ConfigFaults.Misreads`). `ConfigLookupRuns.KeyOfIsMisread`
  is an input.
- *Recursive types bail rather than loop.* `type A = A['x']` recurses without end, because
  each turn adds a step and so a new guard key (`ConfigLookupEnds.SpiralNeverEnds`). Every
  walk ends when no cycle of references passes through an indexed access
  (`ConfigLookupEnds.WalkEnds`).
- *Each reference names the leaf matching the aggregate the traversal began from.* The code
  compares with the face of the config that holds the reference. Under a clean gate the two
  agree exactly when every config that is reached from the aggregate and enters a split
  project has the aggregate's face (`ProjectFaces.CleanGateMatchesIff`);
  `ProjectFaces.DocumentedReadingCanFail` is a workspace where one has not. The model
  follows the code.

`WorkerPool.StoppedIsMap` also covers a job count below one, with which nothing would run.
The only caller's option parser refuses such a count
(`deepseek-harness/scripts/benchmark-npm-resolution.ts:96-103`).

## Model

| member | source | states |
|---|---|---|
| `Digraphs.ReachIffPath` | deepseek-harness/scripts/package-graph.ts:109-113 | being reachable and being the end of a walk along edges are the same thing, so the specifications below speak of walks |
| `Components.PushKeeps` | deepseek-harness/scripts/package-graph.ts:103-108 | indexing and stacking a package keeps the search invariant: indices number the visits, finished packages have only indexed successors, active packages reach all that is stacked after them, and all that is stacked reaches an active package stacked no later |
| `Components.ScanVisited` | deepseek-harness/scripts/package-graph.ts:112-114 | after recursing into a dependency, the smaller of the two low links is again an attained bound on every edge that leaves to an earlier stacked package |
| `Components.ScanIndexed` | deepseek-harness/scripts/package-graph.ts:115-117 | a dependency already indexed lowers the bound only when it is still stacked, and the bound stays right |
| `Components.ReturnKeeps` | deepseek-harness/scripts/package-graph.ts:119 | a package whose low link is below its index may leave the active set and stay stacked |
| `Components.SegmentIsScc` | deepseek-harness/scripts/package-graph.ts:119-132 | when the low link equals the index, what is stacked at or after the package is one maximal strongly connected set |
| `Components.PopKeeps` | deepseek-harness/scripts/package-graph.ts:119-132 | popping that set keeps the search invariant for the packages still active |
| `Components.PopComponent` | deepseek-harness/scripts/package-graph.ts:120-131 | the pop loop takes exactly the stack's suffix from the package on, in pop order, and leaves the rest |
| `Components.EmitOne` | deepseek-harness/scripts/package-graph.ts:132 | emitted components are whole, disjoint, and depend only on themselves and earlier ones |
| `Components.Visit` | deepseek-harness/scripts/package-graph.ts:102-133 | one recursive visit keeps the invariant, only adds to the search, leaves the caller's stack and low links alone, and returns a correct low link |
| `Components.Follow` | deepseek-harness/scripts/package-graph.ts:109-118 | one dependency is folded into the low link, by recursion, by stack lookup or not at all |
| `Components.Leave` | deepseek-harness/scripts/package-graph.ts:119-132 | a finished package stays stacked or is emitted with its component, and the caller's part of the stack survives |
| `Components.FindComponents` | deepseek-harness/scripts/package-graph.ts:94-137 | the traversal emits exactly the strongly connected components of the remaining packages, dependencies before dependents |
| `Cycles.KeptIsSinkCycle` | deepseek-harness/scripts/package-graph.ts:138-143 | a component that passes the filter is a cycle that nothing leaves |
| `Cycles.SinkCycleIsKept` | deepseek-harness/scripts/package-graph.ts:138-143 | every cycle that nothing leaves passes the filter |
| `Cycles.FirstIsKept` | deepseek-harness/scripts/package-graph.ts:76-80 | when every remaining package waits for a remaining one, the first emitted component is a sink cycle |
| `Cycles.SinkCycles` | deepseek-harness/scripts/package-graph.ts:94-144 | returns exactly the sink cycles of the remaining graph, no two sharing a package and none repeating one, and at least one when nothing is ready |
| `PackageComparator.ComparatorIsTotalOrder` | deepseek-harness/scripts/package-graph.ts:152-158 | comparing by group rank, group and short name is a total preorder that ties only packages equal in group and short name |
| `PackageComparator.ComparatorIff` | deepseek-harness/scripts/package-graph.ts:152-158 | a package compares first exactly when its group is listed before the other's, or neither group is listed and its group comes first by name, or the groups are equal and its short name comes first |
| `PackageOrder.CompareHeadsIsPreorder` | deepseek-harness/scripts/package-graph.ts:79 | comparing components by their first packages is a total preorder |
| `PackageOrder.SortIsBatch` | deepseek-harness/scripts/package-graph.ts:73-75 | sorting the packages of some names gives those packages once each, in comparator order |
| `PackageOrder.BatchIsListing` | deepseek-harness/scripts/package-graph.ts:73-75 | that batch depends on the set of names only, not on the order they came in |
| `PackageOrder.NextCycle` | deepseek-harness/scripts/package-graph.ts:77-81 | the cycle chosen when nothing is ready is the sink cycle whose earliest package precedes every package of every sink cycle |
| `PackageOrder.FirstCycleUnique` | deepseek-harness/scripts/package-graph.ts:77-81 | there is only one such cycle |
| `PackageOrder.ReadyProgress` | deepseek-harness/scripts/package-graph.ts:72-88 | placing the ready packages keeps every dependency before its dependent and continues the specified order |
| `PackageOrder.CycleProgress` | deepseek-harness/scripts/package-graph.ts:77-88 | so does placing a first sink cycle, except for edges inside a dependency cycle |
| `PackageOrder.FindMissing` | deepseek-harness/scripts/package-graph.ts:62-68 | finds the first package with a missing peer, and the first one it misses, or none exactly when all are present |
| `PackageOrder.Place` | deepseek-harness/scripts/package-graph.ts:83-87 | placing a batch appends it, marks its names placed and removes them from the remaining packages |
| `PackageOrder.TopoSort` | deepseek-harness/scripts/package-graph.ts:60-90 | fails exactly for a missing peer; otherwise every package occurs once, each dependency stands before its dependent or on a common dependency cycle with it, and the list is the uniquely determined batch-by-batch order; of two packages of which one precedes the other and needs nothing the other does not, that one stands first, unless the other lies on a cycle |
| `PackageOrder.PrioritiesShow` | deepseek-harness/scripts/package-graph.ts:73-75 | wherever they stand in the order, a package that precedes another and needs nothing more stands before it, unless that other lies on a cycle |
| `PackageOrder.ByName` | deepseek-harness/scripts/package-graph.ts:61 | each short name leads to the last package listed under it |
| `PackageOrder.OrderIgnoresInputOrder` | deepseek-harness/scripts/package-graph.ts:61 | rearranging the input leaves the keyed packages and the specified order unchanged |
| `PackageOrder.ListsIsPermutation` | deepseek-harness/scripts/package-graph.ts:60-90 | with distinct short names the result is a permutation of the input |
| `PackageOrder.AcyclicIsStrict` | deepseek-harness/scripts/package-graph.ts:32-33 | without dependency cycles every dependency stands strictly before its dependent |
| `BucketHeap.SwapOrdered` | deepseek-harness/scripts/coverage-partitions.ts:343-349 | exchanging a bucket with its smaller child moves the only possible violation down to that child |
| `BucketHeap.SiftDown` | deepseek-harness/scripts/coverage-partitions.ts:322-351 | restores heap order in place, with the heap still listing every bucket once |
| `BucketHeap.RootIsLightest` | deepseek-harness/scripts/coverage-partitions.ts:363-371 | the root's bucket has the least sum, and among equal sums the fewest files |
| `CoveragePartitions.HeavierFirstIsPreorder` | deepseek-harness/scripts/coverage-partitions.ts:303-305 | heaviest first, then by name, is a total preorder |
| `CoveragePartitions.PlaceOne` | deepseek-harness/scripts/coverage-partitions.ts:310-318 | the next file joins a bucket that is lightest at that moment, the other buckets stay, and the heap is ready again |
| `CoveragePartitions.AssignWeightedPartitions` | deepseek-harness/scripts/coverage-partitions.ts:289-320 | the buckets are those of a run that gives each file, heaviest first, to a lightest bucket; the only error is no buckets for a non-empty inventory |
| `PartitionBounds.LoadsAreTotal` | deepseek-harness/scripts/coverage-partitions.ts:310-318 | the bucket weights always add up to the weight of the files |
| `PartitionBounds.HeavyFits` | deepseek-harness/scripts/coverage-partitions.ts:289-296 | a last file heavier than a third of any achievable capacity still fits within that capacity |
| `PartitionBounds.LastBucket` | deepseek-harness/scripts/coverage-partitions.ts:289-296 | the bucket that took the last file exceeds any achievable capacity by at most a fraction of that file |
| `PartitionBounds.GrahamBound` | deepseek-harness/scripts/coverage-partitions.ts:289-296 | no bucket exceeds 4/3 - 1/(3m) times the heaviest bucket of any other assignment |
| `PartitionBounds.Balanced` | deepseek-harness/scripts/coverage-partitions.ts:289-296 | two buckets differ by no more than the heaviest file |
| `PartitionBounds.EvenCounts` | deepseek-harness/scripts/coverage-partitions.ts:307-308 | files of one weight, zero included, are spread so that no two buckets differ by more than one file |
| `PartitionPlan.PartitionsConserveFiles` | deepseek-harness/scripts/coverage-partitions.ts:297-320 | every file lands in the partitions exactly as often as it is listed |
| `PartitionPlan.EqualFilesSpread` | deepseek-harness/scripts/coverage-partitions.ts:307-308 | the same for the partitions of an inventory whose files weigh the same |
| `PartitionPlan.LoadIsPartitionWeight` | deepseek-harness/scripts/coverage-partitions.ts:373-376 | the running sum in a bucket is the weight of the files it holds |
| `PartitionPlan.UnmeasuredWeight` | deepseek-harness/scripts/coverage-partitions.ts:373-376 | a partition of files without recorded durations weighs as much as it has files |
| `PartitionPlan.PartitionsInOrder` | deepseek-harness/scripts/coverage-partitions.ts:303-305 | every partition lists its files heaviest first, and equally heavy ones by name |
| `PartitionPlan.SplitIsAssignment` | deepseek-harness/scripts/coverage-partitions.ts:289-296 | any way to split the files into lists comes from an assignment with the same weights |
| `PartitionPlan.PartitionsNearOptimal` | deepseek-harness/scripts/coverage-partitions.ts:289-296 | against any other split of the files into as many lists, no partition exceeds 4/3 - 1/(3m) times the heaviest list |
| `PartitionPlan.FullIff` | deepseek-harness/scripts/coverage-partitions.ts:289-296 | every bucket is used exactly when there are enough files and enough of them have non-negative weight |
| `PartitionPlan.FullBuckets` | deepseek-harness/scripts/coverage-partitions.ts:289-296 | the promise that every partition is non-empty holds exactly under that condition |
| `PartitionPlan.EnoughFilesMayNotFill` | deepseek-harness/scripts/coverage-partitions.ts:289-296 | three files of weight -1 over three partitions leave one empty |
| `PartitionPlan.PilesUp` | deepseek-harness/scripts/coverage-partitions.ts:310-318 | from the first negative weight on, all files go to one bucket |
| `PartitionPlan.PlanPartitions` | deepseek-harness/scripts/coverage-partitions.ts:481-532 | the coordinator refuses fewer than two partitions, names the first empty partition, and otherwise returns non-empty partitions that conserve the files, heaviest first; the exact condition for success is part of the contract |
| `PartitionPlan.SortedPlan` | deepseek-harness/scripts/coverage-partitions.ts:529-531 | ordering the partitions by weight rearranges them and puts the heaviest first |
| `ConfigLookupSound.LookupSound` | deepseek-harness/scripts/gen-config-catalog.ts:309-403 | for every type, path, depth and guard: when found, every reading declares the path if and only if it is not misread; when missing, some reading declares it if and only if it is overlooked |
| `ConfigLookupSound.BareSound` | deepseek-harness/scripts/gen-config-catalog.ts:317-403 | the same for the walk without its guard, over every type, path and depth |
| `ConfigLookupSound.UnionSound` | deepseek-harness/scripts/gen-config-catalog.ts:370-376 | the same for its verdict on a union, where presence is definite only when every branch agrees |
| `ConfigLookupSound.LookupDeclSound` | deepseek-harness/scripts/gen-config-catalog.ts:319-361 | the guarded walk's definite verdicts on aliases and interfaces, bases included, mean the same, from any guard |
| `ConfigLookupSound.MembersSound` | deepseek-harness/scripts/gen-config-catalog.ts:335-343 | without the guard, the same for a member list, where the walk takes the first property written with the key |
| `ConfigLookupSound.BasesSound` | deepseek-harness/scripts/gen-config-catalog.ts:344-360 | without the guard, the same for each base of an interface |
| `ConfigLookupSound.DisguisedIff` | deepseek-harness/scripts/gen-config-catalog.ts:335-343 | where the walk enters no property of that name, the open reading sees exactly a property written otherwise, a method or an index signature |
| `ConfigFaults.MisreadIsDenied` | deepseek-harness/scripts/gen-config-catalog.ts:309-403 | a misread path is not declared by every reading, whatever the walk says |
| `ConfigLookupExact.BareTold` | deepseek-harness/scripts/gen-config-catalog.ts:317-403 | without the guard, over every type, path and depth, the walk finds whatever every reading declares, unless overlooked, and misses whatever none does, unless misread |
| `ConfigLookupExact.BareDeclTold` | deepseek-harness/scripts/gen-config-catalog.ts:319-361 | the same for aliases and interfaces with any number of bases |
| `ConfigLookupExact.BareIsExact` | deepseek-harness/scripts/gen-config-catalog.ts:309-316 | without the guard, where nothing is overlooked or misread, found means exactly that every reading declares the path and missing exactly that none does |
| `ConfigLookupExact.LookupSame` | deepseek-harness/scripts/gen-config-catalog.ts:319-326 | a walk that would enter no declaration twice with the same steps left answers as if it had no guard, and leaves only its own entries there |
| `ConfigLookupExact.LookupDeclSame` | deepseek-harness/scripts/gen-config-catalog.ts:319-361 | the same for aliases and interfaces with any number of bases |
| `ConfigLookupExact.WalkIsExact` | deepseek-harness/scripts/gen-config-catalog.ts:759-763 | every finished walk, from any guard, is unknown or exact in both directions but for what it overlooks or misreads, and it is exact where it would enter no declaration twice |
| `ConfigReadings.StrictImpliesOpen` | deepseek-harness/scripts/gen-config-catalog.ts:222-225 | what every reading declares, some reading declares, at any depths |
| `ConfigLookupBare.LookupBelow` | deepseek-harness/scripts/gen-config-catalog.ts:317-403 | for every type, path, depth and guard, a finished walk answers what the walk without a guard answers, or unknown: the shared guard only ever adds unknown |
| `ConfigLookupBare.LookupDeclBelow` | deepseek-harness/scripts/gen-config-catalog.ts:319-361 | the same for aliases and interfaces |
| `ConfigLookupBare.MembersBelow` | deepseek-harness/scripts/gen-config-catalog.ts:335-343 | the same for a member list, which the walk passes over exactly when no property is written with the key |
| `ConfigLookupBare.BasesBelow` | deepseek-harness/scripts/gen-config-catalog.ts:346-360 | the same for each base of an interface, with the guard handed from base to base |
| `ConfigLookupBare.BareDeclDeeper` | deepseek-harness/scripts/gen-config-catalog.ts:317-403 | going deeper without a guard keeps every definite answer |
| `ConfigLookupBare.WalksAgree` | deepseek-harness/scripts/gen-config-catalog.ts:319-326 | in any world, whatever guards and depths they have, no walk finds a path that another reports missing |
| `ConfigLookupEnds.DeclDeeper` | deepseek-harness/scripts/gen-config-catalog.ts:317-403 | a walk that has ended gives the same answer when allowed to go deeper |
| `ConfigLookupEnds.WalkEnds` | deepseek-harness/scripts/gen-config-catalog.ts:319-326 | every walk, from any guard, ends when the declarations within reach can be ranked so that references never go up and go down inside an indexed access |
| `ConfigLookupEnds.SpiralNeverEnds` | deepseek-harness/scripts/gen-config-catalog.ts:381-387 | an indexed self-reference exceeds every depth, because each turn adds a step and the guard never repeats |
| `ConfigLookupEnds.SpiralIsUnranked` | deepseek-harness/scripts/gen-config-catalog.ts:381-387 | no ranking covers that declaration |
| `ConfigLookupRuns.MissingKeyIff` | deepseek-harness/scripts/gen-config-catalog.ts:362-365 | for one key of a literal the general condition reads: no property is written with it, yet some member could stand for it |
| `ConfigLookupRuns.IndexSignatureIsMissed` | deepseek-harness/scripts/gen-config-catalog.ts:335-343 | an index signature accepts a key that the walk reports missing |
| `ConfigLookupRuns.KeyOfIsMisread` | deepseek-harness/scripts/gen-config-catalog.ts:380 | the walk finds `a` in `keyof { a }`, which does not declare it |
| `ConfigLookupRuns.GuardAddsUnknown` | deepseek-harness/scripts/gen-config-catalog.ts:370-376 | a union that names one declaration twice is unknown although both branches declare the key and the walk without a guard finds it |
| `ConfigLookupRuns.WrapperNames` | deepseek-harness/scripts/gen-config-catalog.ts:388-401 | `Partial`, `Required`, `Readonly` and `NonNullable` are walked as their argument, `Array` and `ReadonlyArray` as arrays of it, and any other name as if it had no arguments |
| `Splitting.SplitJoins` | deepseek-harness/scripts/gen-config-catalog.ts:234 | splitting at a separator yields segments without it that join to the text |
| `Splitting.SplitJoined` | deepseek-harness/scripts/jsdoc.ts:33-36 | splitting undoes joining |
| `ConfigPaths.StripBrackets` | deepseek-harness/scripts/gen-config-catalog.ts:235-240 | a segment is its name and as many bracket pairs as were counted, and the name ends in none |
| `ConfigPaths.EndsWithBracketsIff` | deepseek-harness/scripts/gen-config-catalog.ts:237 | a segment is stripped exactly while it is something followed by `[]` |
| `ConfigPaths.ParsePath` | deepseek-harness/scripts/gen-config-catalog.ts:231-245 | printing the parsed steps gives the path back |
| `ConfigPaths.PrintInjective` | deepseek-harness/scripts/gen-config-catalog.ts:231-245 | a path is printed from only one list of steps, so the parse is the only one |
| `ConfigExports.OriginalOfIff` | deepseek-harness/scripts/gen-config-catalog.ts:270-271 | a name is passed on under its original name exactly when the first element exported under it has that original name |
| `ConfigExports.ExportEdgeIff` | deepseek-harness/scripts/gen-config-catalog.ts:262-273 | the edges of the search are exactly what the re-export statements say: `export *` keeps the name, a named one passes on its first match |
| `ConfigExports.FindExported` | deepseek-harness/scripts/gen-config-catalog.ts:254-278 | the declaration found is the first one that a depth-first search in statement order comes by, and lies on a chain of re-exports; a search that fails has exhausted every chain not already searched, cycles included |
| `ConfigExports.EarlierStatementWins` | deepseek-harness/scripts/gen-config-catalog.ts:262-277 | a file without its own declaration resolves to what its first re-export that leads anywhere declares |
| `ConfigExports.DeclForTypeName` | deepseek-harness/scripts/gen-config-catalog.ts:280-304 | a name resolves to its local declaration, else to the first one that re-exports lead to, and to nothing exactly when they lead to none |
| `PasteClosure.StepKeeps` | deepseek-harness/scripts/gen-config-catalog.ts:671-715 | taking one use off the queue keeps the invariant that relates the tables to what the root reaches |
| `PasteClosure.UndocumentedIff` | deepseek-harness/scripts/gen-config-catalog.ts:195-213 | no violation is counted for a declaration exactly when its properties are documented at every depth |
| `PasteClosure.WrongIsInconsistent` | deepseek-harness/scripts/gen-config-catalog.ts:673-708 | a violation is raised only when some reachable use is unresolved, two uses of a name differ, or a reachable declaration is undocumented |
| `PasteClosure.StepAdvances` | deepseek-harness/scripts/gen-config-catalog.ts:671-715 | each step pastes a new name or shortens the queue, so the worklist drains |
| `PasteClosure.DrainedIsClosure` | deepseek-harness/scripts/gen-config-catalog.ts:663-716 | a worklist that drains without violation holds exactly the reachable declarations and imports |
| `PasteClosure.StepInOrder` | deepseek-harness/scripts/gen-config-catalog.ts:671-715 | uses are taken up in the order in which the pasted declarations mention them, declaration by declaration |
| `PasteClosure.CollectPastes` | deepseek-harness/scripts/gen-config-catalog.ts:663-716 | a violation is raised exactly for an inconsistent or undocumented closure; otherwise the pastes are the closure, each once, the config type first and the others in that order |
| `ProjectFaces.ContainingSplitRoot` | deepseek-harness/scripts/project-reference-faces.ts:116-121 | finds a split project that contains the target, and none exactly when there is none |
| `ProjectFaces.InnermostRoot` | deepseek-harness/scripts/project-reference-faces.ts:65-71 | with roots sorted by the length of the written path, nested split projects resolve to the innermost |
| `ProjectFaces.ProjectFace` | deepseek-harness/scripts/project-reference-faces.ts:88-103 | following `extends` finds the face of the first config on the chain that has one, and none on a faceless chain or cycle |
| `ProjectFaces.NamedFaces` | deepseek-harness/scripts/project-reference-faces.ts:94-97 | a config named for a leaf has that face in any directory, and of the two base configs at the root one is Host and one is Client |
| `ProjectFaces.ExtendedFace` | deepseek-harness/scripts/project-reference-faces.ts:98-102 | any other config has the face of the existing config it extends, or none |
| `ProjectFaces.AllowedIff` | deepseek-harness/scripts/project-reference-faces.ts:42-58 | into a split project, a Host config may name exactly its Host leaf and a Client config its Client leaf |
| `ProjectFaces.CheckConfig` | deepseek-harness/scripts/project-reference-faces.ts:40-58 | of one config's references the forbidden ones are reported and exactly the others are followed |
| `ProjectFaces.VisitKeeps` | deepseek-harness/scripts/project-reference-faces.ts:35-60 | visiting a config keeps the gate's invariant |
| `ProjectFaces.CollectViolations` | deepseek-harness/scripts/project-reference-faces.ts:20-63 | reports exactly the forbidden edges of configs reached along allowed edges, and nothing exactly when every edge reachable from the aggregates is allowed |
| `ProjectFaces.FullReachesNoMore` | deepseek-harness/scripts/project-reference-faces.ts:46-58 | when nothing is reported, not following forbidden edges has hidden nothing |
| `ProjectFaces.CleanGateMatchesIff` | deepseek-harness/scripts/project-reference-faces.ts:23-25 | a clean gate gives the documented reading exactly when the configs entering split projects have the aggregate's face |
| `ProjectFaces.DocumentedReadingCanFail` | deepseek-harness/scripts/project-reference-faces.ts:23-25 | a clean workspace, whose split project has both leaf configs, in which the Host aggregate leads into the Client leaf |
| `WorkerPool.ApplyKeeps` | deepseek-harness/scripts/benchmark-next-package-dependency.ts:190-196 | every interleaving of the workers keeps: indices below the counter are finished or in flight, once each, with the right results |
| `WorkerPool.RunIsShort` | deepseek-harness/scripts/benchmark-next-package-dependency.ts:189-197 | every run has at most two actions a value and one a worker |
| `WorkerPool.BoundedInFlight` | deepseek-harness/scripts/benchmark-next-package-dependency.ts:189 | at every moment of every run no more operations are in flight than jobs were asked for, or values given |
| `WorkerPool.FullPool` | deepseek-harness/scripts/benchmark-next-package-dependency.ts:189 | the bound is met: some run has that many operations in flight |
| `WorkerPool.StoppedIff` | deepseek-harness/scripts/benchmark-next-package-dependency.ts:189-197 | a run can go on until every worker has left its loop |
| `WorkerPool.StoppedIsMap` | deepseek-harness/scripts/benchmark-next-package-dependency.ts:182-199 | every stopped run holds the sequential map's results in input order exactly when there was a worker or nothing to do |
| `WorkerPool.ClaimedOnce` | deepseek-harness/scripts/benchmark-next-package-dependency.ts:190-192 | in every run the indices are claimed once each and in order, whichever worker claims them |
| `WorkerPool.MapConcurrent` | deepseek-harness/scripts/benchmark-next-package-dependency.ts:182-199 | the same for a pool driven by a scheduler that picks any worker |
| `BenchmarkCandidates.Installed` | deepseek-harness/scripts/benchmark-next-package-dependency.ts:149-154 | a package brings in its dependencies, optional dependencies and non-optional peers |
| `BenchmarkCandidates.VisitKeeps` | deepseek-harness/scripts/benchmark-next-package-dependency.ts:142-158 | one step of the queue keeps the search invariant |
| `BenchmarkCandidates.FindReachable` | deepseek-harness/scripts/benchmark-next-package-dependency.ts:140-158 | the queue visits exactly the packages with a manifest that the target reaches |
| `BenchmarkCandidates.DiscoverCandidates` | deepseek-harness/scripts/benchmark-next-package-dependency.ts:133-165 | returns exactly the reachable candidates, sorted, whatever order the search met them in |
| `Framing.ValueOfDecimal` | deepseek-harness/scripts/client-build-environment.ts:339-341 | reading a printed length gives it back |
| `Framing.FeedDigest` | deepseek-harness/scripts/client-build-environment.ts:336-343 | the loop feeds the digest each path and content behind its length |
| `Framing.DecodeStream` | deepseek-harness/scripts/client-build-environment.ts:336-343 | the artifacts can be read back from the bytes fed |
| `Framing.StreamInjective` | deepseek-harness/scripts/client-build-environment.ts:328-345 | different artifact lists feed different bytes |
| `Framing.DigestDetectsChange` | deepseek-harness/scripts/client-build-environment.ts:319-324 | digests are equal exactly when the artifacts are, or when the hash collides on the two streams |
| `Framing.ReadGitFiles` | deepseek-harness/scripts/benchmark-npm-resolution.ts:145-169 | the contents are what reading one frame after another from the start of the output gives, up to the first bad frame |
| `Framing.ReadFrames` | deepseek-harness/scripts/benchmark-npm-resolution.ts:151-168 | the loop does so for any reading of headers |
| `Framing.HeaderAnnounces` | deepseek-harness/scripts/benchmark-npm-resolution.ts:156-161 | a printed header announces its object's size |
| `Framing.ReadOne` | deepseek-harness/scripts/benchmark-npm-resolution.ts:154-166 | a frame is read as one, whatever its body holds and whatever follows |
| `Framing.BatchRoundTrip` | deepseek-harness/scripts/benchmark-npm-resolution.ts:145-169 | every path gets its object's exact bytes back, newlines included |
| `Framing.MissingReported` | deepseek-harness/scripts/benchmark-npm-resolution.ts:157 | a missing object is reported for its own path, after any number of good frames |
| `Framing.CutReported` | deepseek-harness/scripts/benchmark-npm-resolution.ts:154-164 | output that breaks off anywhere inside a frame is refused, and the path of that frame is named |
| `Framing.BadSizeReported` | deepseek-harness/scripts/benchmark-npm-resolution.ts:158-161 | a header without a usable size is refused for its own path, after any number of good frames |
| `Framing.TooLarge` | deepseek-harness/scripts/benchmark-npm-resolution.ts:158-161 | a size that is no safe integer is not usable |
| `Framing.Negative` | deepseek-harness/scripts/benchmark-npm-resolution.ts:158-161 | a negative size is not usable |
| `Framing.NoSize` | deepseek-harness/scripts/benchmark-npm-resolution.ts:158-161 | a header of fewer than three fields announces no usable size |
| `Framing.ParseSigned` | deepseek-harness/scripts/benchmark-npm-resolution.ts:158 | a number is read with its sign, up to the first byte that is no digit |
| `Framing.ParsePlain` | deepseek-harness/scripts/benchmark-npm-resolution.ts:158 | without a sign it is read the same way |
| `Framing.ParseBlanks` | deepseek-harness/scripts/benchmark-npm-resolution.ts:158 | blanks before a number are passed over |
| `MarkdownLinks.LabelEnd` | deepseek-harness/scripts/markdown.ts:90-104 | the loop stops where the bracket depth returns to zero, at a closing bracket |
| `MarkdownLinks.LabelEndIff` | deepseek-harness/scripts/markdown.ts:90-104 | an end is reported exactly where the first bracket's balanced label closes, escapes and nesting included |
| `MarkdownLinks.SkipSpaces` | deepseek-harness/scripts/markdown.ts:84-88 | skips exactly the white space |
| `MarkdownLinks.IsSpaceIff` | deepseek-harness/scripts/markdown.ts:135 | white space is that of the regular-expression class, character by character |
| `MarkdownLinks.DestinationRange` | deepseek-harness/scripts/markdown.ts:106-140 | the loops compute the destination as specified, or the error of the first check that fails |
| `MarkdownLinks.BareRoundTrip` | deepseek-harness/scripts/markdown.ts:127-139 | scanning a written link or definition recovers exactly its bare destination, balanced parentheses and escapes included |
| `MarkdownLinks.AngleRoundTrip` | deepseek-harness/scripts/markdown.ts:120-126 | the same for a destination in angle brackets, whatever follows |
| `MarkdownDestinations.AngleEndIff` | deepseek-harness/scripts/markdown.ts:120-126 | a closing bracket is reported exactly where the text from the opening one is a whole angle-bracket destination |
| `MarkdownDestinations.BareEndIff` | deepseek-harness/scripts/markdown.ts:127-138 | a bare destination ends inside the text exactly where a whole one stands and a parenthesis or white space stops it |
| `MarkdownDestinations.DestinationIff` | deepseek-harness/scripts/markdown.ts:120-140 | a range is reported if and only if it is that of the destination written there, up to the end of the text when nothing stops it; the error if and only if no angle bracket closes it |
| `MarkdownDestinations.ReportedIff` | deepseek-harness/scripts/markdown.ts:106-140 | for every node text and kind, the range or the error reported is the one that the text calls for: no balanced label, no colon behind it, no parenthesis right behind it, or the destination behind the separator and white space |
| `MarkdownProse.SweepOne` | deepseek-harness/scripts/markdown.ts:242-245 | one step of the sweep keeps what is decided about the line so far |
| `MarkdownProse.HasRenderedText` | deepseek-harness/scripts/markdown.ts:237-248 | a touched line shows text exactly when ink lies outside all its comments, in whatever order and overlap they come |
| `MarkdownProse.LineRanges` | deepseek-harness/scripts/markdown.ts:218-234 | the column ranges of a line cover exactly what the comments cover of it, and a line is untouched exactly when no comment meets it |
| `MarkdownProse.ProseLines` | deepseek-harness/scripts/markdown.ts:263-270 | given the comments and the lines of code, the kept lines are exactly those outside code with no comment on them or ink outside the comments, in order |
| `SourceLines.LineIsSegment` | deepseek-harness/scripts/markdown.ts:219-233 | the line behind a number of line breaks is the segment of that number, and the running offset is where it starts in the source |
| `SourceLines.HasLine` | deepseek-harness/scripts/markdown.ts:251 | every number up to that of the line breaks names a line |
| `MarkdownComments.CommentSpans` | deepseek-harness/scripts/markdown.ts:207-215 | the spans are all comments of an HTML node: each opens first behind the one before, and closes with the first end mark behind its opening or with the text |
| `MarkdownComments.CommentsUnique` | deepseek-harness/scripts/markdown.ts:207-215 | a text has only one such list |
| `MarkdownComments.ClosedComment` | deepseek-harness/scripts/markdown.ts:207-213 | a comment written in full spans from its opening to the end of the first closing mark behind it |
| `MarkdownComments.OpenComment` | deepseek-harness/scripts/markdown.ts:207-213 | a comment that is never closed reaches to the end of its node |
| `MarkdownComments.CollectComments` | deepseek-harness/scripts/markdown.ts:204-216 | the spans collected cover exactly the positions inside comments of the nodes |
| `MarkdownComments.MarkdownProseLines` | deepseek-harness/scripts/markdown.ts:250-271 | from a source, its HTML nodes and code blocks, keeps exactly the lines outside code that have no position inside a comment or have ink outside the comments, in order; a line is what stands behind a number of line breaks of the source |
| `JsDocText.CollapseWords` | deepseek-harness/scripts/jsdoc.ts:45 | collapsing white space keeps the words |
| `JsDocText.JoinLineIs` | deepseek-harness/scripts/jsdoc.ts:45 | lines joined are their words with single spaces between, and no other white space |
| `JsDocText.TrimOf` | deepseek-harness/scripts/jsdoc.ts:45 | trimming takes off exactly the white space on both sides |
| `JsDocText.BlockStands` | deepseek-harness/scripts/jsdoc.ts:80 | in the text every block stands at its offset, with two line breaks and nothing else between it and the next |
| `JsDoc.FlushParaKeeps` | deepseek-harness/scripts/jsdoc.ts:46-59 | flushing moves everything pending into blocks, in order |
| `JsDoc.AbsorbKeeps` | deepseek-harness/scripts/jsdoc.ts:67-77 | a prose line adds exactly its words, behind all earlier ones |
| `JsDoc.ParseJsDoc` | deepseek-harness/scripts/jsdoc.ts:38-79 | from the lines of a comment, the prose is the blocks of the lines before the first tag, with exactly their words in order; the mode is that of the last line that names a valid one, and its presence is reported exactly |
| `JsDoc.ModeOfIff` | deepseek-harness/scripts/jsdoc.ts:62 | a line names a mode exactly when it is `@mode`, white space and one of the five modes, apart from white space around them |
| `JsDoc.TagOf` | deepseek-harness/scripts/jsdoc.ts:61-65 | a tag is an at sign behind white space, and a mode tag is `@mode` there as a whole word |
| `JsDoc.ItemOf` | deepseek-harness/scripts/jsdoc.ts:68 | a list item starts with a dash and white space |
| `JsDocLayout.LayoutRendered` | deepseek-harness/scripts/jsdoc.ts:24-31 | each paragraph becomes one line and each list one line per item, in order, also when a list follows its introduction directly |
| `JsDocLayout.DescriptionRendered` | deepseek-harness/scripts/jsdoc.ts:60-79 | any lines at all read as such paragraphs and lists, and the blocks are those rendered |
| `JsDocLayout.RenderedLines` | deepseek-harness/scripts/jsdoc.ts:50-54 | a rendered paragraph is one line of its words, and a rendered list has one line for each item, of that item's words |
| `JsDocLayout.TextLines` | deepseek-harness/scripts/jsdoc.ts:80 | the lines of the text are those of its paragraphs and items, with one empty line between blocks |
| `JsDocComment.CommentRoundTrip` | deepseek-harness/scripts/jsdoc.ts:33-37 | a comment written with delimiters and margins is read back as its lines |
| `JsDocComment.StarMargin` | deepseek-harness/scripts/jsdoc.ts:37 | a star in the margin goes with its indentation and with one white space behind it |
| `JsDocComment.PlainMargin` | deepseek-harness/scripts/jsdoc.ts:37 | a line without a star loses its indentation and the white space at its end |
| `JsDocComment.LinksRewritten` | deepseek-harness/scripts/jsdoc.ts:80 | a text read as plain pieces and links is rewritten to those pieces with each link's target in its place, also where `{@link` opens no link |
| `JsDocComment.EveryTextReads` | deepseek-harness/scripts/jsdoc.ts:80 | every text reads as plain pieces and links |
| `JsDocComment.UntouchedIff` | deepseek-harness/scripts/jsdoc.ts:80 | rewriting leaves a text alone exactly when no link opens in it |
| `JsDocComment.PlainWords` | deepseek-harness/scripts/jsdoc.ts:80 | where no link opens, the description shows exactly the words before the first tag, in order |
| `JsDocComment.ParseComment` | deepseek-harness/scripts/jsdoc.ts:32-82 | from a raw comment, the description is the text of its blocks with links rewritten, trimmed, and the mode is that of the last line that names a valid one |
| `JsDocDocument.WholeComment` | deepseek-harness/scripts/jsdoc.ts:24-82 | a written comment whose lines lay out paragraphs and lists, followed by tags, is described by those blocks rendered, with each link replaced by its target |

## Left out

- Components.Visit: the variables that the recursive closure shares are a `Traversal` value passed in and out of the methods, not captured and updated in place; the index and low-link maps, the stack and the emitted list are the same.
- PackageOrder.TopoSort: `localeCompare` is a comparator parameter assumed to be a total order that separates different strings; reading manifests and the wording of errors are not modelled.
- PackageComparator.ComparatorIff: for group lists of at most 9007199254740991 names, more than an array can hold.
- CoveragePartitions.AssignWeightedPartitions: weights are real numbers, so floating-point rounding of sums is not modelled; `localeCompare` is a comparator parameter.
- PartitionPlan.PartitionsNearOptimal: holds for non-negative weights, as measured durations are; a persisted durations file is not checked for negative values.
- PartitionPlan.PlanPartitions: listing the inventory, reading and writing durations, and running the partitions' processes are not modelled.
- ConfigLookupSound.LookupSound: the recursion carries a depth and reports when it is too deep, and the guard is threaded as a value.
- ConfigLookupExact.WalkIsExact: that the guard costs nothing is one way; a walk that does enter a declaration twice may still answer, and `ConfigLookupRuns.GuardAddsUnknown` is one that does not.
- ConfigLookupEnds.WalkEnds: one way; a walk through a cycle with an indexed access also ends when a member on the way is missing.
- Type parameters, generic arguments other than the first, merged interface declarations and parsing of TypeScript are not modelled; a name has at most one declaration per file.
- ConfigExports.DeclForTypeName: file loading is a table, so a re-export target that cannot be read, which aborts the original, is outside the model.
- PasteClosure.CollectPastes: what a use resolves to is a table, so the unguarded recursion of `resolveTypeName` over cyclic imports is not modelled; whether a property is documented is given, and imports are compared by module and name.
- ProjectFaces.CollectViolations: paths are resolved segment lists and configs a table; unreadable configs, the message text and the final sort are left out.
- WorkerPool.StoppedIsMap: operations always settle, so rejection and the check for an undefined value are left out; the model allows more interleavings than one event loop has.
- BenchmarkCandidates.DiscoverCandidates: the default string order is a comparator parameter; the error for a package without a version is left out.
- Framing.StreamInjective: listing, filtering and sorting the artifact paths and the hash function itself are not modelled.
- Framing.BatchRoundTrip: running git and decoding contents as UTF-8 are left out; contents stay bytes.
- MarkdownComments.MarkdownProseLines: parsing Markdown into HTML nodes and code blocks is an input to the model.
- JsDoc.ParseJsDoc: the four buffers are one value that the loop replaces.
- JsDocComment.ParseComment: finding the comment in a source file is left out, as are `parseTags`, `checkParams` and `checkReturns`.
- Schema expression walking, plugin classification, catalog rendering, the dependency verifier, the release and build scripts, the HTTP registry of the benchmark, and everything outside `scripts`.
