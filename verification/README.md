# Mekami index, watcher and graph queries in Dafny

Mekami keeps an index of a source tree (files, symbols, references) in step with the tree, and answers graph questions over it.
This project models the parts whose correctness is hard to see from the code and proves what they are for.

| file | what it models |
|---|---|
| `prelude.dfy`, `ordering.dfy` | sequences, byte-wise string order, stable sorting |
| `graphs.dfy`, `discovery.dfy`, `bfs.dfy`, `dependents.dfy` | walks, balls and distances; the order in which a breadth-first search finds nodes; the capped multi-root search and its tree views; the dependents hierarchy |
| `callpath.dfy` | the shortest call path and its reconstruction |
| `cyclekeys.dfy`, `cycles.dfy` | canonical keys of import cycles; the depth-first search that reports them, as code and as a function of the rows |
| `cyclereports.dfy`, `cyclecoverage.dfy`, `cycleheads.dfy`, `cycleexamples.dfy` | what the reported cycles mean; for which graphs they are all of them, and start at their least name; rows on which not |
| `tables.dfy`, `transaction.dfy`, `writer.dfy` | the files, symbols and refs tables, the transaction's operations with their delete cascade, and the writing of one parse result |
| `pool.dfy`, `ingestfiles.dfy` | the parse worker pool as atomic steps of its goroutines, and the ordered serial write behind it |
| `ingest.dfy`, `build.dfy`, `incremental.dfy` | what full and incremental builds mean path by path, how they compare, and the builds themselves |
| `extensions.dfy`, `walk.dfy`, `filter.dfy` | which files a build sees: the walk down, the check up, the watcher's filter |
| `sources.dfy` | those path rules as one frontend, joined to the builds, the filter and the poller |
| `poller.dfy`, `coalescer.dfy`, `wakeup.dfy` | the polling source; the event buffer, and its use by producers, timers, one consumer and a stop signal |
| `watcher.dfy`, `watcherexamples.dfy` | the dispatch of a batch, and the whole way from a changed tree to the right index; a change whose split into batches decides the index |
| `pathtext.dfy`, `filetree.dfy`, `trim.dfy` | the file tree built from sorted paths, and its trimming |
| `logtail.dfy`, `rotatinglog.dfy` | positioning a log at its last n lines; log rotation |

Conventions. The tables are maps from row ids; the *index* is what they mean: each path with its hash, language, symbols and refs, where
symbols refer to each other by position. A transaction is a working copy that is committed whole. The tree is a map from paths to contents
and does not change during a build. The content hash (injective, never empty), the parser, path cleaning and the frontend's path rules are given functions;
`Ingest.Lawful` says what is asked of them, and `Build.Listing` what the walk reports; `sources.dfy` shows that the modelled rules meet both.
Database failures and cancellation are a function that says where one strikes; goroutine interleavings are a schedule, or all lists of atomic steps.

## Where code and comments differ

The model follows the code. Each of these is stated as a lemma or as part of a contract.

- Cycles: the comments promise every cycle, rotated to its least node (`mekami-cli/internal/core/queries/cycles.go:10-17`). One cycle per back
  edge is reported, as found (`ReportedIff`), so a cycle that shares an edge with another can be missing (`SharedEdgeHidesACycle`) and a list
  need not start at its least name (`ReportIsNotRotated`). The database may give the rows in any order. For all of them, all cycles are reported
  exactly when no start leads first to a fork (`ImportCyclesCompleteIff`), and all lists are rotated exactly when no start leads first to a cycle
  at a later name (`ImportCyclesRotatedIff`). If no edge lies on two cycles all are always reported (`AlwaysCompleteIffUntangled`). This holds where
  keys tell cycles apart, as they do for names without `->` (`PlainRowsTell`); others can hide a cycle (`ArrowNamesHideACycle`).
  `EmptyIffAcyclic` holds for all names.
- The truncation flag can be set on a complete traversal (`TruncatedYetComplete`); `TruncatedThoughCompleteIff` says exactly when.
- A negative number of parse jobs means as many as there are processors, not one (`Pool.WorkerCount`; `mekami-cli/internal/core/ingest/build.go:32-34`).
- A hop of a call path can be reported by a row that is not a call (`HopMayNotBeACall`). Two rows of a hop on one line may come in either
  order, so it is sure to be a call exactly when some call stands before all rows of other kinds (`HopIsCallIff`).
- The writer's comment allows a parent later in the list; the id is read too early and the foreign key refuses the row, which fails the whole
  build. `WriteParseResult` is refused exactly then.
- A build can report an error and have changed the tables: the statistics are read after the commit
  (`mekami-cli/internal/core/ingest/build.go:222-225`, `mekami-cli/internal/core/ingest/incremental.go:208-211`; `CommittedYetFailed`). A
  reported failure keeps the tables exactly when it strikes at or before the commit, or there was nothing to change; a clean build deletes the
  database first.
- The sweep of vanished files is off whenever a language list is given (`VanishedRows`), as the watcher's daemon always does. Incremental builds
  do remove such rows, so what the watcher ends with depends on how changes fall into batches (`SplitDecides`, `SplitsDiffer`; exact condition in
  `PassesReachBuild` and `HandleAll`). A list without the build's own language makes full builds write and remove rows in turn (`Flips`,
  `FixedPointIff`); nothing is stated about the watcher then.
- An incremental build's upward check also tests the root. Building one module of a workspace, every path is refused (`ModuleRootRefusesAll`);
  `UpwardIsDownward` has the exact condition.
- An unhandled extension in an incremental build is a plain error, although its comment says it asks for a full build; the report is
  `Rejected`, not `Structural`.
- The coalescer's comments describe a quiet window; every accepted event signals at once. A full buffer refuses stronger events on a path it
  holds (`FullRefusesPromotion`). The batch returned together with stop is dropped by the loop (`StopLosesLeftover`); nothing
  is lost exactly when nothing was at stake as stop was closed (`StopCostsNothingIff`).
- The poller skips excluded directory names and tests the root's own as well, where the builds exempt it: a root called vendor yields no
  events (`ExcludedRootIsBlind`; exact condition `AdmittedIsPolledIff`).
- The filter compares the extension in lower case only, the walk ignores case (`UpperCaseIsMissed`; exact condition `AdmittedIsPassedIff`).
- The comment on the backward seek speaks of a fallback for huge tails; the loop reads on to the beginning and needs none.

## Model

| member | source | states |
|---|---|---|
| `Bfs.BFS` | `mekami-cli/internal/core/graph/bfs.go:100-171` | for every expand function, roots and caps: distances and parents of the returned tree are exact (see `Tree.Valid`); the distinct non-empty roots come first, then every node in the order of its parent and of its first place in the parent's successor list, under the first visited node that leads to it; flag, reason and error are those of `Outcome`; a failed query stops the search at its node and none is passed over |
| `Bfs.RootsInOrder` | `mekami-cli/internal/core/graph/bfs.go:115-125` | the roots stand in the order of their first places in the input |
| `Bfs.NonEmptyConcat` | `mekami-cli/internal/core/graph/bfs.go:145-148` | leaving out empty ids goes element by element and keeps the order |
| `Discovery.TakeNew` | `mekami-cli/internal/core/graph/bfs.go:145-159` | an unseen successor put at the end, below the node being expanded, keeps what is known of the scan: everyone hangs below the first node that leads to it, and the nodes stand in the order in which the successor lists bring them up |
| `Discovery.ScannedInOrder` | `mekami-cli/internal/core/graph/bfs.go:139-169` | wherever a scan is cut off its nodes stand in order, and what is not visited comes up later |
| `Discovery.OneOrder` | `mekami-cli/internal/core/graph/bfs.go:62-100` | that order leaves no choice: two such scans from the same roots agree, nodes and parents, as far as the shorter one goes |
| `Bfs.CapsCutTheEnd` | `mekami-cli/internal/core/graph/bfs.go:92-111` | of two traversals of one graph, whatever their caps, the smaller tree is the beginning of the larger one, with the same parents |
| `Bfs.Tree.AddRoots` | `mekami-cli/internal/core/graph/bfs.go:115-125` | the distinct non-empty roots, once each, at depth 0, as the start of the scan |
| `Bfs.Tree.ExpandNode` | `mekami-cli/internal/core/graph/bfs.go:145-159` | an unseen successor gets its parent, depth and place at the end of the nodes and of the next frontier, successor by successor; the node cap stops in the middle of a frontier with the exact count |
| `Bfs.Tree.ExpandLevel` | `mekami-cli/internal/core/graph/bfs.go:139-161` | one level turns the ball of radius d into the ball of radius d + 1, or stops on a failed query or the cap; the frontier is the end of the node list, and everything before it has been gone through |
| `Bfs.Tree.PathFromRoot` | `mekami-cli/internal/core/graph/bfs.go:176-199` | the chain starts at a root, follows edges of the graph, ends at the node, has depth + 1 elements, and step k is at depth k; unknown nodes give nothing; the loop terminates |
| `Bfs.Tree.Children` | `mekami-cli/internal/core/graph/bfs.go:220-234` | the nodes whose parent is the given one, in discovery order; nothing for an unknown node |
| `Bfs.Tree.MaxDepthHint` | `mekami-cli/internal/core/graph/bfs.go:204-215` | the largest depth in the tree |
| `Bfs.DepthIsDistance` | `mekami-cli/internal/core/graph/bfs.go:86-100` | the depth of every visited node is its true distance from the nearest root, even when a cap cut the traversal short |
| `Bfs.UntruncatedIsComplete` | `mekami-cli/internal/core/graph/bfs.go:86-100` | with no flag and no error the visited nodes are exactly those some walk from a root reaches |
| `Bfs.TruncationIsExact` | `mekami-cli/internal/core/graph/bfs.go:154-168` | which flag is set, for all inputs, in terms of the sizes of two balls, with the caps written out: the given one if positive, else 4 levels and 500 nodes |
| `Bfs.TruncatedYetComplete` | `mekami-cli/internal/core/graph/bfs.go:163-169` | the depth flag is set on a traversal that has visited everything: a concrete graph |
| `Bfs.TruncatedThoughCompleteIff` | `mekami-cli/internal/core/graph/bfs.go:139-169` | the flag is set although nothing is missing exactly when the ball of radius MaxDepth is closed under edges and either lies below the node cap with nodes at its last level, or has exactly as many nodes as the cap (or the roots) |
| `Bfs.ChildrenPartition` | `mekami-cli/internal/core/graph/bfs.go:217-234` | every non-root node is in exactly one children list, once; roots are in none |
| `Bfs.ChildrenInOrder` | `mekami-cli/internal/core/graph/bfs.go:217-234` | the children of a node stand in discovery order |
| `Bfs.ChildrenAsSuccessors` | `mekami-cli/internal/core/graph/bfs.go:145-155` | and in the order of their first places in its successor list |
| `Graphs.ShellIsDistance` | `mekami-cli/internal/core/graph/bfs.go:86-100` | a node first seen in the ball of radius d is at distance d |
| `Graphs.BallIsReach` | `mekami-cli/internal/core/graph/bfs.go:86-100` | the ball of radius n holds exactly the nodes with a walk of at most n edges |
| `Graphs.ClosedHoldsReach` | `mekami-cli/internal/core/graph/bfs.go:163-170` | a set closed under edges that holds the roots holds all they reach |
| `Graphs.ClosedHoldsBall` | `mekami-cli/internal/core/graph/bfs.go:139-161` | such a set holds every ball |
| `Dependents.SymbolRowsByQName` | `mekami-cli/internal/handlers/dependents.go:277-310` | the first row of each qualified name wins |
| `Dependents.ResolveMeta` | `mekami-cli/internal/handlers/dependents.go:229-271` | every id gets an entry under its own name; file, line and kind only at symbol level and from the first row of that name |
| `Dependents.BuildNode` | `mekami-cli/internal/handlers/dependents.go:190-223` | terminates, and the hierarchy mirrors the tree: true depths, the location as file, or file, line and kind where there is a line, children sorted by display name, deepest leaves of a cut-off tree flagged |
| `Dependents.KidsAreChildren` | `mekami-cli/internal/handlers/dependents.go:206-212` | the child list shown is exactly the tree's children, once each, one level deeper, by display name and then by id |
| `Dependents.ShownOnce` | `mekami-cli/internal/handlers/dependents.go:190-223` | the hierarchy below a node lists exactly the visited nodes at or below it, each once |
| `Dependents.WholeTreeOnce` | `mekami-cli/internal/handlers/dependents.go:155-176` | with one root the hierarchy shows every visited node exactly once |
| `Dependents.BuildDependentTree` | `mekami-cli/internal/handlers/dependents.go:155-176` | the whole view: metadata for all visited nodes, the hierarchy below the root with the largest depth as hint, and with one root every visited node exactly once |
| `CallPath.Between` | `mekami-cli/internal/core/path/path.go:85-167` | same symbol and unknown symbols are errors in that order; otherwise the result is non-empty exactly when the target is within maxDepth call edges, or within 6 if that is not positive; then its edges chain from one to the other, are as many as the distance, and among all shortest paths take the smaller name wherever one parts from them |
| `CallPath.Scan` | `mekami-cli/internal/core/path/path.go:146-158` | the target is found exactly when it is among the callees of the frontier node, one level further down; otherwise all of them end up visited; the search invariant and the order of discovery are kept |
| `Discovery.TreePathGoesFirst` | `mekami-cli/internal/core/path/path.go:83-84` | of all walks of its length to its end, the path along first parents takes the earlier successor wherever one parts from it |
| `CallPath.PathComesFirst` | `mekami-cli/internal/core/path/path.go:83-84` | so no shortest call path comes before the one returned, compared name by name |
| `CallPath.Reconstruct` | `mekami-cli/internal/core/path/path.go:175-269` | the parent lookup never misses; one row per hop, forming the chain along the recorded parents |
| `CallPath.HopsChain` | `mekami-cli/internal/core/path/path.go:199-268` | the rows of consecutive hops chain and each is a least-line row of its hop |
| `CallPath.CalleesAreCalls` | `mekami-cli/internal/core/queries/refs.go:54-88` | a callee always comes from a call row, and below the limit of 200 every call row gives one |
| `CallPath.CalleesAreLeast` | `mekami-cli/internal/core/queries/refs.go:54-88` | the callees are in byte order, once each, and if there are more than 200 the 200 least |
| `CallPath.Representative` | `mekami-cli/internal/core/path/path.go:197-249` | there is a row with the least line of a hop, of any kind, if the hop has rows |
| `CallPath.AnyRepresentative` | `mekami-cli/internal/core/path/path.go:197-249` | the row picked is some least-line row of the hop; among equal lines it may be any |
| `CallPath.HopIsCallIff` | `mekami-cli/internal/core/path/path.go:128-130` | whichever least-line row is picked, the row reported for a hop is a call, exactly when some call of the hop stands before all its other rows |
| `CallPath.HopMayNotBeACall` | `mekami-cli/internal/core/path/path.go:197-249` | concrete rows on which every chain the search can return starts with a row that is not a call, though it follows call edges |
| `Cycles.BuildAdjacency` | `mekami-cli/internal/core/queries/cycles.go:47-62` | the list of every node is its targets in row order, without self-imports, and exactly the importing nodes have one |
| `Cycles.ExtractCycle` | `mekami-cli/internal/core/queries/cycles.go:128-139` | the stack from the last occurrence of the start on; nothing when it is not there |
| `Cycles.Search.Report` | `mekami-cli/internal/core/queries/cycles.go:78-86` | a back edge's cycle is kept as cut off the stack, unless its key is known |
| `Cycles.Search.Dfs` | `mekami-cli/internal/core/queries/cycles.go:73-96` | terminates; one visit does what the search function says, target by target in row order, and restores the stack set |
| `Cycles.SortedNodes` | `mekami-cli/internal/core/queries/cycles.go:98-105` | all importing nodes, once each, in byte order |
| `Cycles.ImportCycles` | `mekami-cli/internal/core/queries/cycles.go:30-122` | the reports of the search from the nodes in byte order, sorted by length and key |
| `Cycles.BackEdge` | `mekami-cli/internal/core/queries/cycles.go:78-86` | what a back edge cuts off the search stack is a simple directed cycle that this edge closes |
| `Cycles.FinishNode` | `mekami-cli/internal/core/queries/cycles.go:94-95` | finishing a node keeps this: every edge out of a finished node closes a seen cycle or leads to a node finished earlier |
| `Cycles.StepsKeep` | `mekami-cli/internal/core/queries/cycles.go:73-96` | a visit keeps the search invariant: simple cycles along first entries, no key twice, every edge of a finished node covered, first entries along imports and finished in stack order; it finishes its node and nothing else on the stack |
| `Cycles.SearchKeeps` | `mekami-cli/internal/core/queries/cycles.go:98-111` | so does the loop over all starts, which finishes everything entered |
| `CycleReports.UniqueTreePath` | `mekami-cli/internal/core/queries/cycles.go:73-96` | two ways of first entries with the same ends are one way |
| `CycleReports.ReturnedReports` | `mekami-cli/internal/core/queries/cycles.go:30-122` | whatever is returned: simple cycles of the import graph, no key twice, no two closed by one edge, every directed cycle hit; a shorter one before a longer one, and of one length the one with the smaller key first |
| `CycleReports.SortedIsShortestFirst` | `mekami-cli/internal/core/queries/cycles.go:112-121` | sorting by the code's comparison puts lengths in ascending order, and keys in strictly ascending order within a length |
| `CycleReports.EmptyIffAcyclic` | `mekami-cli/internal/core/queries/cycles.go:30-122` | nothing is reported exactly when the import graph has no directed cycle, whatever the names |
| `CycleReports.NoTwoAlike` | `mekami-cli/internal/core/queries/cycles.go:141-146` | whatever the names, no two reported cycles are rotations or reversals of each other |
| `CycleReports.PlainRowsTell` | `mekami-cli/internal/core/queries/cycles.go:141-196` | for names without the separator keys tell cycles apart: two simple cycles with one key are rotations or reversals of each other |
| `CycleCoverage.ReportedIff` | `mekami-cli/internal/core/queries/cycles.go:73-96` | where keys tell cycles apart a list is reported exactly when it is a simple cycle along first entries: one for each back edge, the stack between its ends, as found |
| `CycleCoverage.EveryCycleIsHit` | `mekami-cli/internal/core/queries/cycles.go:68-111` | there every directed cycle has an edge that closes a reported cycle |
| `CycleCoverage.MissedIsExposed` | `mekami-cli/internal/core/queries/cycles.go:68-111` | a simple cycle that no rotation reports shares an edge with another one that the search went round first |
| `CycleCoverage.ForkIsMissed` | `mekami-cli/internal/core/queries/cycles.go:77-93` | a search that comes to the head of a shared edge and goes round one cycle first reports no other cycle through that edge |
| `CycleCoverage.CompleteIff` | `mekami-cli/internal/core/queries/cycles.go:10-17` | there, for a given order of the starts: every simple cycle is reported, up to rotation, for every order of the rows, exactly when no start leads first to a fork |
| `CycleCoverage.ImportCyclesCompleteIff` | `mekami-cli/internal/core/queries/cycles.go:10-17` | the same about what `ImportCycles` returns, where the starts are in byte order |
| `CycleCoverage.AlwaysCompleteIffUntangled` | `mekami-cli/internal/core/queries/cycles.go:10-17` | for every order of rows and starts together: exactly when no edge lies on two different simple cycles |
| `CycleHeads.UnrotatedIsLate` | `mekami-cli/internal/core/queries/cycles.go:77-93` | whatever the names, a reported list that does not start at its least name is a cycle that the search can come to at a later name |
| `CycleHeads.RotatedIff` | `mekami-cli/internal/core/queries/cycles.go:10-17` | where keys tell cycles apart: every reported list starts at its least name, for every order of the rows, exactly when no start leads first to a simple cycle at a later name, past the rest of it |
| `CycleHeads.ImportCyclesRotatedIff` | `mekami-cli/internal/core/queries/cycles.go:10-17` | the same about what `ImportCycles` returns, where the starts are in byte order |
| `CycleExamples.SharedEdgeHidesACycle` | `mekami-cli/internal/core/queries/cycles.go:77-93` | a->b, a->c, b->c, c->a: only a, b, c is returned, never the two-cycle of a and c |
| `CycleExamples.ReportIsNotRotated` | `mekami-cli/internal/core/queries/cycles.go:10-17` | a->c, c->b, b->c: c, b is returned, which does not start at its least name |
| `CycleExamples.ArrowNamesHideACycle` | `mekami-cli/internal/core/queries/cycles.go:81-86` | with the separator inside names a cycle can go unreported altogether: concrete rows, for every report |
| `Ordering.SortedUnique` | `mekami-cli/internal/core/queries/cycles.go:98-105` | the byte-ordered list of a set of names is unique |
| `Ordering.LessIff` | `mekami-cli/internal/core/queries/cycles.go:112-121` | one string is smaller exactly when it is a proper prefix, or has the smaller character at the first difference |
| `CycleKeys.CanonicalKey` | `mekami-cli/internal/core/queries/cycles.go:146-185` | the loops and remainders compute the key function |
| `CycleKeys.JoinArrow` | `mekami-cli/internal/core/queries/cycles.go:187-196` | the joined text |
| `CycleKeys.ReadForward` | `mekami-cli/internal/core/queries/cycles.go:166-170` | the rotation from the least name on |
| `CycleKeys.ReadBackward` | `mekami-cli/internal/core/queries/cycles.go:175-178` | the reverse reading from the least name on |
| `CycleKeys.WrapIsMod` | `mekami-cli/internal/core/queries/cycles.go:169-177` | both remainder expressions are an index brought back into range by one turn |
| `CycleKeys.MinIndex` | `mekami-cli/internal/core/queries/cycles.go:159-165` | the index of the first least name: none is smaller, and all before it are greater |
| `CycleKeys.KeyIsSmaller` | `mekami-cli/internal/core/queries/cycles.go:171-184` | the key is one of the two readings from the least name, and neither is smaller |
| `CycleKeys.JoinConcat` | `mekami-cli/internal/core/queries/cycles.go:187-196` | joining two lists puts one arrow between them |
| `CycleKeys.FlipIsTurnOfReverse` | `mekami-cli/internal/core/queries/cycles.go:171-178` | reading backwards is a rotation of the reversed list |
| `CycleKeys.JoinInjective` | `mekami-cli/internal/core/queries/cycles.go:187-196` | lists of names without the separator with equal joins are equal |
| `CycleKeys.TurnKeepsKey` | `mekami-cli/internal/core/queries/cycles.go:141-146` | a rotation has the same key |
| `CycleKeys.FlipKeepsKey` | `mekami-cli/internal/core/queries/cycles.go:171-184` | so has a reversal |
| `CycleKeys.SameCycleSameKey` | `mekami-cli/internal/core/queries/cycles.go:141-146` | whatever the names, a rotation or reversal has the same key |
| `CycleKeys.KeyIffSameCycle` | `mekami-cli/internal/core/queries/cycles.go:141-185` | two simple cycles of plain names have equal keys exactly when one is a rotation of the other or of its reverse |
| `CycleKeys.ArrowNamesCollide` | `mekami-cli/internal/core/queries/cycles.go:187-196` | two disjoint cycles of names that contain the separator share a key |
| `LogTail.File.ReadFull` | `mekami-cli/cmd/mekami/util.go:259-264` | fills the buffer from the file's position |
| `LogTail.SeekBackNLines` | `mekami-cli/cmd/mekami/util.go:229-282` | for every content and n > 0 the chunked loops stop just after the target-th newline from the end, or at 0; n <= 0 and the empty file leave the position alone |
| `LogTail.TailIsLastLines` | `mekami-cli/cmd/mekami/util.go:210-228` | that position is a line start and what follows is exactly the last min(n, lines) lines |
| `LogTail.TailIsUnique` | `mekami-cli/cmd/mekami/util.go:221-228` | no other position qualifies |
| `LogTail.LinesConcat` | `mekami-cli/cmd/mekami/util.go:210-213` | cutting a text after a newline cuts its list of lines |
| `RotatingLog.FileLogger.constructor` | `mekami-cli/internal/watch/log.go:38-55` | a log above the size goes to the backups, any other is gone on with; the byte count is the active file's size |
| `RotatingLog.FileLogger.WriteLine` | `mekami-cli/internal/watch/log.go:60-74` | a line that fits is appended and nothing else changes; one that would exceed the size starts a new file after every file has moved up by one; the byte count stays the active file's size |
| `RotatingLog.FileLogger.RotateLocked` | `mekami-cli/internal/watch/log.go:83-109` | the renames move every file up by one, in an order that loses only the oldest |
| `RotatingLog.RotationKeepsHistory` | `mekami-cli/internal/watch/log.go:83-109` | all bytes on disk before a rotation are the lost oldest backup followed by all bytes after it |
| `RotatingLog.RunKeepsHistory` | `mekami-cli/internal/watch/log.go:35-109` | over any run of openings and writes, from any disk, history is a dropped prefix followed by .3, .2, .1 and the active file |
| `RotatingLog.FreshLogSplits` | `mekami-cli/internal/watch/log.go:35-109` | from an empty disk all those cuts are at line ends, each file is within the size unless it is one line, and none was left while the next line still fitted |
| `RotatingLog.StepKeepsLines` | `mekami-cli/internal/watch/log.go:60-109` | the same for one step, from any disk that holds lines |
| `Pool.StepKeepsInv` | `mekami-cli/internal/core/ingest/build.go:352-430` | every step of feeder, workers, closer, collector and cancellation keeps the pool's invariant |
| `Pool.CollectFillsOnce` | `mekami-cli/internal/core/ingest/build.go:425-430` | a received result is in range and its slot still empty: the out-of-range error is unreachable |
| `Pool.StepDecreases` | `mekami-cli/internal/core/ingest/build.go:383-430` | every step lowers the measure by one |
| `Pool.SomeStep` | `mekami-cli/internal/core/ingest/build.go:383-430` | a step can be taken in every reachable state before the collector is through |
| `Pool.DoneIsComplete` | `mekami-cli/internal/core/ingest/build.go:424-430` | at the end every slot holds its own file's result, or the cancellation error |
| `Pool.EveryRun` | `mekami-cli/internal/core/ingest/build.go:383-430` | along every interleaving the invariant holds, the run is bounded, and until everything is collected a step other than a cancellation can be taken |
| `Pool.IngestInParallel` | `mekami-cli/internal/core/ingest/build.go:363-430` | under any schedule the slots are the worker's results in file order, as a sequential loop would give them; a missing one only after cancellation |
| `Pool.WorkerCount` | `mekami-cli/internal/core/ingest/build.go:363-371` | at least one worker and at most one for each file; else as many as asked for, or as there are processors if that is zero or negative |
| `Transaction.Tx.UpsertFile` | `mekami-cli/internal/core/store/store.go:171-183` | a known path keeps its row id; a new one gets the next id |
| `Transaction.Tx.DeleteSymbols` | `mekami-cli/internal/core/store/schema.sql:28-48` | deleting symbols also deletes, level by level, whatever had one as parent, and the refs of all of them |
| `Transaction.Tx.DeleteFileContent` | `mekami-cli/internal/core/store/store.go:189-197` | exactly the file's symbols and what hangs on them go |
| `Transaction.Tx.RemoveFile` | `mekami-cli/internal/core/store/store.go:201-207` | the row and its content go |
| `Transaction.Tx.RemoveFileByPath` | `mekami-cli/internal/core/store/store.go:214-230` | found exactly when the path has a row; then that row and its content go |
| `Transaction.Tx.RemoveFilesByLang` | `mekami-cli/internal/core/store/store.go:237-247` | all rows of the language and what hangs on them go; the count is returned |
| `Transaction.Tx.InsertSymbol` | `mekami-cli/internal/core/store/store.go:291-312` | one row at the next id |
| `Transaction.Tx.InsertRef` | `mekami-cli/internal/core/store/store.go:315-320` | one row at the next id |
| `Transaction.Tx.SetSymbolParent` | `mekami-cli/internal/core/store/store.go:326-329` | refused when the parent row does not exist |
| `Transaction.DropFiles` | `mekami-cli/internal/core/store/store.go:189-247` | deleting whole files keeps the tables consistent and every other file's rows |
| `Transaction.RemovedFile` | `mekami-cli/internal/core/store/store.go:201-207` | the index loses exactly that path |
| `Transaction.RemovedLang` | `mekami-cli/internal/core/store/store.go:237-247` | the index loses exactly the paths of that language |
| `Tables.AllocateId` | `mekami-cli/internal/core/store/store.go:304-311` | one more than the largest id in the table |
| `Tables.EntryAt` | `mekami-cli/internal/core/store/store.go:171-183` | in consistent tables a path's index entry is that of its one row |
| `Tables.EntryFrame` | `mekami-cli/internal/core/store/store.go:189-247` | a file whose rows are untouched has the same entry |
| `Writer.WriteParseResult` | `mekami-cli/internal/core/ingest/write.go:23-136` | refused exactly when some symbol names a later one as its parent; otherwise the file row has the result's columns, and the file's rows record the result: all its symbols with their parents by position, and exactly the refs with a source in range, in order and field by field; other files' rows are untouched, and the tables stay consistent |
| `Writer.InsertSymbols` | `mekami-cli/internal/core/ingest/write.go:56-100` | one row per symbol at fresh ascending ids, and the pending parent links |
| `Writer.LinkParents` | `mekami-cli/internal/core/ingest/write.go:101-105` | all links are made exactly when every parent id exists |
| `Writer.InsertRefs` | `mekami-cli/internal/core/ingest/write.go:107-133` | one row for each ref with a source position in range and for no other, in order, with the position turned into its id and the other fields as given |
| `Writer.LinksReachable` | `mekami-cli/internal/core/ingest/write.go:88-105` | all parent ids exist exactly when every parent position is at or before its child's |
| `Writer.FinalEntry` | `mekami-cli/internal/core/ingest/write.go:37-135` | read back by position, the rows are the parse result's entry |
| `Writer.KeptPlaces` | `mekami-cli/internal/core/ingest/write.go:107-133` | the refs that are kept stand at ascending places of the list, and those are all the places with a source in range |
| `Writer.EntryRecords` | `mekami-cli/internal/core/ingest/write.go:37-135` | the entry of a parse result records it, symbol by symbol and ref by ref |
| `Writer.RecordsOnce` | `mekami-cli/internal/core/ingest/write.go:37-135` | two entries that record one result have the same symbols and refs |
| `IngestFiles.WritingAgain` | `mekami-cli/internal/core/ingest/write.go:37-49` | writing the same result again reuses the file row and leaves the same index |
| `IngestFiles.LoadPrevFiles` | `mekami-cli/internal/core/ingest/build.go:168-175` | the rows known before the build, by path |
| `IngestFiles.WorkAt` | `mekami-cli/internal/core/ingest/build.go:391-407` | a worker's decision by the loaded rows is the index's: unchanged exactly when hash and language match; what it passes on has the file's own path, time and size |
| `IngestFiles.ReplacedIndex` | `mekami-cli/internal/core/ingest/write.go:23-136` | the index changes at one path only |
| `IngestFiles.WriteOrdered` | `mekami-cli/internal/core/ingest/build.go:432-458` | outcomes are written in file order; unchanged and unparsable files keep their rows; a refused write fails the build, and no failed one is passed over; the counters are exact |
| `IngestFiles.TallyCounts` | `mekami-cli/internal/core/ingest/build.go:432-456` | for distinct files the counters are the sizes of the sets of files |
| `IngestFiles.IngestFilesParallel` | `mekami-cli/internal/core/ingest/build.go:352-459` | pool and serial write together equal the sequential pass, under every schedule; a cancelled pool is an error, whatever has come in |
| `Build.PruneDisabledLangs` | `mekami-cli/internal/core/ingest/cleanup.go:37-98` | exactly the rows of languages not in the list go, with exact counts by language; nothing changes for an empty list or when there is none |
| `Build.SweepVanished` | `mekami-cli/internal/core/ingest/build.go:193-216` | exactly the known rows whose file was not seen go |
| `Build.Build` | `mekami-cli/internal/core/ingest/build.go:84-235` | a build that takes effect leaves, path by path, what `AfterBuild` says, and so what `Ingest.BuildStores` says without it: a walked file whose row is missing, stale or of another language holds what the parser returned, with its hash and the build's language, a file that does not parse gives no new row; literally the same tables exactly when there was nothing to do; a finished one has exact counters; a failure up to the commit leaves the tables as they were (emptied, if a clean build got past its start), one after the commit is an error over new tables; it fails only when interrupted or when a result cannot be linked, and no failed step is passed over |
| `Build.CommittedYetFailed` | `mekami-cli/internal/core/ingest/build.go:218-225` | an empty database, one file, the statistics query after the commit fails: an error, and the tables are not what they were |
| `Build.SomethingChanged` | `mekami-cli/internal/core/ingest/build.go:142-216` | with a file to ingest, a row to sweep or a row to prune, the index changes |
| `Build.BuildInside` | `mekami-cli/internal/core/ingest/build.go:142-216` | the part inside the transaction: prune, ingest by the committed rows, sweep; the working copy ends as `BuiltOver` says, and none of these steps failed |
| `Build.BuiltPath` | `mekami-cli/internal/core/ingest/build.go:142-216` | prune, skip by the old rows, write and sweep compose to that |
| `Build.BuiltIsSettled` | `mekami-cli/internal/core/ingest/build.go:402-405` | after a build whose language is allowed, or with no list, a second one finds nothing to change |
| `Ingest.BuildEqualsFromScratch` | `mekami-cli/internal/core/ingest/build.go:79-83` | over faithful rows and an empty list, a build equals parsing every walked file from scratch (see `FreshIsParse`); an unparsable file keeps its row |
| `Ingest.FreshIsParse` | `mekami-cli/internal/core/ingest/build.go:402-449` | there is an entry for a content exactly when it parses, and it is the one entry with that hash, the build's language, and the symbols and refs of the parse |
| `Ingest.AfterBuildStores` | `mekami-cli/internal/core/ingest/build.go:146-217` | what a full build leaves on a path, in terms of the two rows, the file and the parser only |
| `Ingest.SkipIsFaithful` | `mekami-cli/internal/core/ingest/build.go:402-405` | a skipped file's row is what parsing it now would give |
| `Ingest.AlwaysFaithful` | `mekami-cli/internal/core/ingest/build.go:402-405` | over any run of full and incremental builds from an empty index every row is the parse of the content its hash stands for |
| `Ingest.StepKeepsHashes` | `mekami-cli/internal/core/ingest/build.go:402-407` | no build ever stores an empty hash |
| `Ingest.AlwaysHashed` | `mekami-cli/internal/core/ingest/build.go:402-407` | so the rows of any run from an empty index all have one |
| `Ingest.SecondBuildIsIdle` | `mekami-cli/internal/core/ingest/build.go:402-405` | path by path, a second build over the same tree changes nothing |
| `Ingest.FixedPointIff` | `mekami-cli/internal/core/ingest/build.go:148-175` | a full build always leaves a fixed point exactly when its own language is kept by the list or no file parses |
| `Ingest.StaleSnapshotIsHarmless` | `mekami-cli/internal/core/ingest/build.go:148-175` | with a cleanup list no disallowed row is left and every parsable file is current exactly when the build's language is listed or no file parses |
| `Ingest.OtherLanguagesStay` | `mekami-cli/internal/core/ingest/build.go:197-210` | rows of other allowed languages change only when their path is ingested again |
| `Ingest.IncrementalAgreesWithFull` | `mekami-cli/internal/core/ingest/incremental.go:162-198` | an incremental build of admitted paths equals a full one exactly when it names no vanished file whose row the full one keeps for its language list, and every path on which rows and tree disagree, with a file that parses if there is one |
| `Ingest.AfterIncrementalStores` | `mekami-cli/internal/core/ingest/incremental.go:162-198` | what an incremental build leaves on a path, in terms of the two rows, the file and the parser only |
| `Incremental.CleanPaths` | `mekami-cli/internal/core/ingest/incremental.go:111-135` | refuses exactly on an escaping path or an unhandled extension; otherwise the indexable cleaned paths, sorted |
| `Incremental.Classify` | `mekami-cli/internal/core/ingest/incremental.go:162-187` | removes exactly the rows with a hash whose file is gone and lists exactly the files to ingest |
| `Incremental.BuildIncremental` | `mekami-cli/internal/core/ingest/incremental.go:55-217` | an incremental build that takes effect leaves, path by path, what `AfterIncremental` says, and so what `Ingest.IncrementalStores` says without it: a touched file that needs it and parses holds what the parser returned; a finished one over distinct clean paths has exact counters; each refusal has its reason; whatever stops it up to the commit leaves the tables as they were, a failure after the commit is an error over new tables; no failed step is passed over |
| `Incremental.IncrementalInside` | `mekami-cli/internal/core/ingest/incremental.go:144-198` | the part inside the transaction, against the committed rows; no failed write is passed over |
| `Incremental.IncrementalPath` | `mekami-cli/internal/core/ingest/incremental.go:162-198` | removal, skip and write compose to that |
| `Incremental.TouchedChangesIff` | `mekami-cli/internal/core/ingest/incremental.go:162-198` | the index stays the same exactly when no given file changed and parses and no given row goes |
| `Extensions.TestsAgreeIffPlain` | `mekami-cli/internal/core/ingest/incremental.go:232-243` | the incremental build's suffix test and the walker's extension test agree on every file name exactly when every extension has a dot and its own last extension is listed |
| `Extensions.HasExt` | `mekami-cli/internal/core/ingest/incremental.go:232-243` | some extension is a suffix, case aside; an empty one matches all |
| `Extensions.ExtSet` | `mekami-cli/internal/core/walk/walk.go:49-52` | the set of lower-case extensions |
| `Walk.MatchingFiles` | `mekami-cli/internal/core/walk/walk.go:48-57` | the visits are those of the recursive walk with the extension test |
| `Walk.AnyFile` | `mekami-cli/internal/core/walk/walk.go:83-124` | the callback's skips are the walk's: excluded names, and sibling module roots outside a workspace-root build; never the root |
| `Walk.WalkVisits` | `mekami-cli/internal/core/walk/walk.go:90-123` | a path is visited exactly when the tree has a file there with a listed extension and no directory on the way is skipped |
| `Walk.VisitsOnce` | `mekami-cli/internal/core/walk/walk.go:90-123` | no file is visited twice |
| `Walk.IsIndexablePath` | `mekami-cli/internal/core/ingest/incremental.go:254-279` | terminates, and accepts exactly when every directory from the root down to the file's is enterable |
| `Walk.UpwardIsDownward` | `mekami-cli/internal/core/ingest/incremental.go:245-279` | for a file of the tree the check up accepts exactly when the walk down visits it and the root itself is enterable |
| `Walk.ModuleRootRefusesAll` | `mekami-cli/internal/core/ingest/incremental.go:266-270` | building one module of a workspace, the check refuses every path |
| `Walk.VisitedYetRefused` | `mekami-cli/internal/core/ingest/incremental.go:260-273` | a tree and a file the walk visits and the check refuses |
| `Sources.WalkGivesListing` | `mekami-cli/internal/core/walk/walk.go:48-123` | over a clean tree the walk reports each file once that has a listed extension and an open way: what a build starts from |
| `Sources.AcceptedIff` | `mekami-cli/internal/core/ingest/incremental.go:245-279` | the incremental check accepts a path exactly when the walk could get there and the root itself is enterable |
| `Sources.HandlesIsSuffixIff` | `mekami-cli/internal/core/ingest/incremental.go:232-243` | under the walk's rules the incremental build's suffix test takes the same paths as the walk exactly when the extensions are plain |
| `Sources.GoFilesBothWays` | `mekami-cli/internal/core/ingest/incremental.go:232-243` | for the Go extension they are the same |
| `Sources.RulesAreLawful` | `mekami-cli/internal/core/ingest/incremental.go:245-279` | a frontend with these path rules is lawful if its hash and parser are |
| `Sources.EscapesIff` | `mekami-cli/internal/core/ingest/incremental.go:113-119` | a path is refused as climbing out exactly when an element of it but the last is .. |
| `Sources.SplitText` | `mekami-cli/internal/watch/filter.go:64-73` | clean path elements come back from the joined path |
| `Sources.AdmittedIsPolledIff` | `mekami-cli/internal/watch/poller_source.go:109-120` | the poller goes to a path the builds visit exactly when the root's own name is not an excluded one |
| `Sources.PolledIffOpen` | `mekami-cli/internal/watch/poller_source.go:109-120` | where the workspace rule is off, the poller goes exactly where the walk goes, unless the root has an excluded name |
| `Sources.AdmittedIsPassedIff` | `mekami-cli/internal/watch/filter.go:54-112` | the filter passes a path the builds visit exactly when its base name ends in .go in lower case, is no test and is not ignored |
| `Sources.AcceptIff` | `mekami-cli/internal/watch/filter.go:54-112` | element by element: no excluded name, and a base that is go.mod, go.work, go.sum or a Go file but no test, and is not ignored |
| `Sources.UpperCaseIsMissed` | `mekami-cli/internal/watch/filter.go:90-94` | A.GO is walked and its changes are filtered out |
| `Filtering.AcceptsWhatIsWalked` | `mekami-cli/internal/watch/filter.go:54-112` | with the workspace rule off the filter passes exactly the Go files the walk visits, less tests and ignored names |
| `Filtering.OpenIffClean` | `mekami-cli/internal/watch/filter.go:64-72` | no excluded element on the path means the walk is not turned back |
| `Coalescing.Coalescer.constructor` | `mekami-cli/internal/watch/coalesce.go:76-86` | capacity 1024 when none is wanted; empty |
| `Coalescing.Coalescer.Record` | `mekami-cli/internal/watch/coalesce.go:106-119` | accepts exactly when the buffer is not full, and then merges by rank |
| `Coalescing.Coalescer.Add` | `mekami-cli/internal/watch/coalesce.go:100-122` | an empty path is ignored; an accepted event is merged and signalled; a refused one changes nothing |
| `Coalescing.Coalescer.Flush` | `mekami-cli/internal/watch/coalesce.go:127-134` | signals exactly when something is pending |
| `Coalescing.Coalescer.DrainLocked` | `mekami-cli/internal/watch/coalesce.go:198-208` | one event per pending path, at most the capacity, and the buffer is empty |
| `Coalescing.MergedIsStrongest` | `mekami-cli/internal/watch/coalesce.go:57-60` | after any accepted events the buffer holds exactly their paths, each with its strongest kind |
| `Coalescing.MergedKind` | `mekami-cli/internal/watch/coalesce.go:210-231` | a removal beats a renaming, that a creation, that a write, and that a mode change |
| `Coalescing.MergedIgnoresOrder` | `mekami-cli/internal/watch/coalesce.go:210-231` | the result depends only on which events were accepted |
| `Wakeup.StepKeepsInv` | `mekami-cli/internal/watch/coalesce.go:90-208` | every step of producers, timer callbacks, consumer and stop keeps the invariant, no lost wakeup included |
| `Wakeup.EveryRun` | `mekami-cli/internal/watch/coalesce.go:90-208` | along every run the invariant holds and the accepted events are those drained and those pending, each once, in order |
| `Wakeup.AcceptedGrows` | `mekami-cli/internal/watch/coalesce.go:106-122` | a drain moves accepted events into one batch and drops or repeats none |
| `Wakeup.AcceptedIsCovered` | `mekami-cli/internal/watch/coalesce.go:106-114` | an event accepted before a drain is in that drain's batch, at its rank or above |
| `Wakeup.BatchIsAccepted` | `mekami-cli/internal/watch/coalesce.go:198-208` | a batch holds nothing that was not accepted for it |
| `Wakeup.NextStep` | `mekami-cli/internal/watch/coalesce.go:156-195` | while something is pending some step other than a new event, a timer or stop can be taken |
| `Wakeup.QuietRunSettles` | `mekami-cli/internal/watch/coalesce.go:156-195` | once no events come every run is bounded, and while something is pending a step other than an event, a timer or stop can be taken |
| `Wakeup.IdleSleeps` | `mekami-cli/internal/watch/coalesce.go:124-134` | timers left over from earlier events wake nobody: an idle consumer waits until an event or stop comes |
| `Wakeup.StepDecreases` | `mekami-cli/internal/watch/coalesce.go:156-195` | every step other than an event lowers the measure |
| `Wakeup.StopCostsNothingIff` | `mekami-cli/internal/watch/loop.go:122-133` | a loop that ends with no event after stop has handled everything exactly when nothing was at stake at the moment stop was closed: the batch drained and not yet handed over, or, with no such batch, the pending events |
| `Wakeup.LostIsAtStake` | `mekami-cli/internal/watch/loop.go:122-133` | after stop, what was at stake then is what is lost in the end, under every interleaving |
| `Wakeup.AcceptedIsHandled` | `mekami-cli/internal/watch/loop.go:122-139` | when everything was handled every accepted path was in a handled batch |
| `Wakeup.StopLosesLeftover` | `mekami-cli/internal/watch/loop.go:123-132` | a run in which an accepted event is never handled |
| `Wakeup.FullRefusesPromotion` | `mekami-cli/internal/watch/coalesce.go:106-119` | a stronger event on a held path is taken exactly while the buffer is below its capacity; when refused, the next batch carries the weaker kind, when taken the stronger |
| `Polling.Poller.constructor` | `mekami-cli/internal/watch/poller_source.go:86-139` | the first snapshot is that of the tree |
| `Polling.Poller.DiffAndEmit` | `mekami-cli/internal/watch/poller_source.go:144-212` | events are exactly differences between the last snapshot and the tree, one per path, with the right kind; all of them when the channel takes all; the snapshot moves on regardless |
| `Polling.DifferenceIs` | `mekami-cli/internal/watch/poller_source.go:144-212` | in terms of the two trees: new, gone, or of another size or time, for the files the poller goes to |
| `Polling.ExcludedRootIsBlind` | `mekami-cli/internal/watch/poller_source.go:109-120` | a root directory with an excluded name yields an empty snapshot |
| `Watcher.DisagreementIsSeen` | `mekami-cli/internal/watch/poller_source.go:184-198` | a path on which the index of a full build disagrees with the new tree is admitted, parses if it is there, and differs between the snapshots exactly when the poller's walk goes there; a content change has to show in size or time |
| `Watcher.BuildGivesBuiltFrom` | `mekami-cli/internal/core/ingest/build.go:142-216` | after any full build whose own language is kept the index is a fixed point over rows that have a hash |
| `Watcher.HandleBatch` | `mekami-cli/internal/watch/watcher.go:209-303` | a batch with a structural or unknown path, or a database never built, gets a full build, any other an incremental one, and the index steps accordingly; an error is an interruption, a result that cannot be linked, or a path the incremental build rejects, and leaves the tables as they were unless it struck after the commit |
| `Watcher.PassesReachBuild` | `mekami-cli/internal/watch/watcher.go:226-302` | they end in the index of one full build exactly when no incremental one took away a row that a full one keeps, and every path on which rows and tree disagree was served |
| `Watcher.AfterPasses` | `mekami-cli/internal/watch/watcher.go:226-302` | what every path holds after any number of full and incremental builds with any language list that keeps the own language, in any order: nothing if the file is gone and an incremental one named it, else what one full build or one incremental build leaves |
| `Watcher.CoalescerDelivers` | `mekami-cli/internal/watch/loop.go:95-139` | events accepted for every changed path, all handled, are mentioned by the batches |
| `Watcher.TickDelivers` | `mekami-cli/internal/watch/loop.go:95-139` | from a tick that dropped nothing, a filter that passes what the builds visit, and a run of the coalescer from its start that accepted what passed and left nothing unhandled: every changed path is in a batch |
| `Sources.FilteredTickDelivers` | `mekami-cli/internal/watch/loop.go:95-139` | the same with the real walk, check and filter |
| `Watcher.HandleAll` | `mekami-cli/internal/watch/watcher.go:209-318` | however the changed paths are split into batches, over any database and with any language list that keeps the own language: if no error is counted, or if nothing strikes before a commit, every parsed file can be linked and no batch is rejected, every path ends as the passes make it; when all changes since a full build are delivered that is one full build of the new tree exactly when no row is lost; under those conditions, and if nothing strikes after a commit either, no error is counted |
| `Watcher.BatchSucceeds` | `mekami-cli/internal/watch/watcher.go:226-302` | under these conditions every batch takes effect |
| `Watcher.SplitDecides` | `mekami-cli/internal/watch/watcher.go:216-318` | the row of a vanished file of a listed language goes when its event and a structural one come in two batches, and stays when they come in one |
| `WatcherExamples.SplitsDiffer` | `mekami-cli/internal/watch/watcher.go:216-318` | a database, a tree and two splits of one change with two different indexes, and no error |
| `FileTrees.FileTree` | `mekami-cli/internal/core/queries/tree.go:41-155` | for path-ordered rows the files in pre-order are exactly the rows within the depth that have one of the given extensions, if any is given, in path order; the directories are exactly those above some of them; the nodes mirror the listing |
| `FileTrees.ShownFits` | `mekami-cli/internal/core/queries/tree.go:54-108` | the two filters keep exactly the fitting rows, in order |
| `FileTrees.SameExtIff` | `mekami-cli/internal/core/queries/tree.go:55-76` | trimming one leading dot and lowering the case on both sides compares the extensions |
| `FileTrees.AddFile` | `mekami-cli/internal/core/queries/tree.go:124-152` | following one path and making what is missing is the insertion, and touches no other node |
| `FileTrees.Append` | `mekami-cli/internal/core/queries/tree.go:142-148` | one more child at the end of one directory |
| `FileTrees.MakeDir` | `mekami-cli/internal/core/queries/tree.go:144-149` | a directory seen first is registered and listed in its parent |
| `FileTrees.InsertAppends` | `mekami-cli/internal/core/queries/tree.go:115-153` | inserting a row whose existing directories are all last adds it at the end of the pre-order |
| `FileTrees.NextOnSpine` | `mekami-cli/internal/core/queries/tree.go:50-53` | in path order the directories of the next row that exist are all last |
| `FileTrees.ListedOnce` | `mekami-cli/internal/core/queries/tree.go:144-149` | every directory but the root is exactly one entry of its parent |
| `FileTrees.ViewLeaves` | `mekami-cli/internal/core/queries/tree.go:108-154` | the tree's leaves are the listing's rows |
| `PathText.SharedDirectory` | `mekami-cli/internal/core/queries/tree.go:50-53` | in byte order of the joined paths the files below one directory lie together |
| `Trimming.CountFileLeaves` | `mekami-cli/internal/handlers/read.go:264-276` | the number of files in pre-order |
| `Trimming.TrimFileTree` | `mekami-cli/internal/handlers/read.go:284-315` | for max > 0 exactly the first min(max, n) files, in a tree cut off at one point in pre-order; max <= 0 or a cap not reached changes nothing |

## Left out

- SQLite itself: SQL text, the write-ahead log, and failures of single statements inside the graph queries. Query results are given rows.
- The packages, modules and meta tables. Of the meta keys only "a build has stamped its root" is kept, as a flag that a build sets outside its transaction.
- The refusal of a build or an incremental build whose root is not the one recorded, and the force-root option.
- The language frontends: hashing, parsing, indexability and workspace layout are given functions. With several frontends registered,
  structural paths and known extensions are the union over all; the model takes them as given tests too.
- A file that exists but cannot be read: fingerprinting fails only on absent files.
- Build.Build: the skip reasons by text, the added-symbols and added-refs counters, the durations and the log lines are not modelled.
- Incremental.BuildIncremental: the counters are stated for distinct clean paths only; rows known before are read from the committed tables.
- Build.SweepVanished: the order in which vanished rows are deleted is not modelled; it does not show in the tables.
- CallPath.Between: failures of the callee query, and the RefSite made up from the symbol table when a hop has no row, which cannot happen for a hop found in the same rows.
- Bfs.BFS: a nil expand function.
- FileTrees.FileTree: only the empty prefix. With another prefix the LIKE match also takes siblings such as src2 for src, and the tree then places them below src.
- Trimming.TrimFileTree: works on tree values; the copying of shared nodes is not modelled.
- Extensions.LowerChar: lower case is any table that is right on ASCII and makes no other letter a dot or a slash; a letter is one character.
- Polling.Poller.DiffAndEmit: files whose stat fails, and entries that are not regular files.
- RotatingLog.FileLogger.WriteLine: failing renames, opens and short writes; the lock.
- Walk.AnyFile: unreadable directories and symbolic links.
- Wakeup.StepKeepsInv: clock time. Timers may fire at any moment after they are set, and stopping one may or may not come in time.
- Watcher.HandleAll: the on-start build and the batch statistics are not modelled; the tree does not change while the batches are handled. With a language list that lacks the build's own language the index at the end is not stated; it alternates.
- The fsnotify source, the supervisor, configuration, command line, MCP and text formatting, which would add easy members only.
