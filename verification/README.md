# Cargo's schedulers, protocols and graph walks, modelled in Dafny

This project models the self-contained algorithms of Cargo that carry its hardest
invariants and proves what they promise. `dafny verify dfyconfig.toml` checks all of it.

| file | part of Cargo |
|---|---|
| `DependencyQueueSpec.dfy`, `DependencyQueue.dfy` | the build scheduler: a state machine with its runs, and the class that refines it |
| `LockServer.dfy`, `LockRuns.dfy` | the named-lock server as interleaved steps of accept loop, workers and clients, with its invariant; what all its runs keep |
| `Cfg.dfy`, `CfgParser.dfy`, `CfgGrammar.dfy` | `cfg(...)`: tokenizer, parser and printer, as functions and as the objects that advance; the grammar they accept and the laws of the keys |
| `LevDistance.dfy` | edit distance by one rolling row |
| `GraphWalk.dfy`, `PreviousLocks.dfy` | which packages of the previous lock file stay locked |
| `Packages.dfy`, `RegistryLock.dfy` | package ids and dependencies; the lock index and `lock` |
| `BuildScripts.dfy`, `BuildRoutes.dfy`, `BuildOrder.dfy` | which build scripts' output a unit is linked with, and in which order |
| `Downloads.dfy` | parallel downloads with retries |
| `InstallSpec.dfy`, `InstallEffects.dfy`, `InstallLedger.dfy` | `cargo install` and `cargo uninstall`: what they do to a bin directory and a listing under every fault and exactly when that is consistent; the same binary by binary; the transactions step by step |
| `WorkspaceMembers.dfy` | finding a workspace's root and members, and validating it |
| `ConfigMerge.dfy`, `ConfigLoad.dfy` | merging configuration values and looking keys up; which files are read, and where a value comes from |
| `FeatureMap.dfy` | compiling a `[features]` table |
| `Digraph.dfy`, `Collections.dfy` | paths, reachability and acyclicity of finite graphs; small shared types |

Objects whose methods update fields are classes here, with the same fields; loops are
loops, and iteration over a hash map or hash set takes its elements in an arbitrary order.
Whatever the disk, the network, another process or a clock decides is an arbitrary choice
or a parameter.

The main results are about whole runs or all inputs:

- **Scheduler.** In every run a key is handed out after all its dependencies were
  finished, at most once, and `finish` never trips its assertions. A queue that is stuck
  holds exactly the keys that transitively need something nobody queued, so there is no
  deadlock when every dependency is queued. A key comes out dirty exactly when it, or
  something it transitively depends on, is dirty. Sealing succeeds exactly on acyclic
  graphs and then knows the longest chain of dependents of every key.
- **Lock server.** Over every interleaving, at most one connected client of those that sent
  the same line holds the lock, grants follow the order of acceptance, no client is lost, no thread deadlocks, and
  a queued client is granted the lock, or could not be written to, within a number of steps
  of its own worker that nobody else can increase, and by the time the server stalls with
  all earlier clients gone.
- **`cfg`.** Parsing a printed expression gives it back exactly when it is well-formed, and
  everything the parser accepts is well-formed. Tokenizer and parser accept exactly a
  grammar, and `not`, `all` and `any` mean what they say on keys as strings.
- **Downloads.** Whatever the order in which transfers complete, fetching succeeds exactly
  when every package can be had within its retries, and leaves exactly those slots filled.
- **Configuration.** A load fails exactly when two files clash at some key, and otherwise
  each key holds what the precedence of the files says.
- **Edit distance.** The loop computes the length of the shortest chain of single-character
  edits, which is a metric.

## Where the code and its comments part

- src/cargo/ops/resolve.rs:452 inserts a changed path package without its dependencies, and
  `add_deps` stops at nodes that are already there. So "nothing an updated package reaches
  stays locked" is false of some iteration orders: `PreviousLocks.ClosureFailsBehindChanged`
  runs the function on such a workspace, graph and order.
  `PreviousLocks.ClosureExactlyWhenChangedAreCovered` gives the exact condition under which
  it holds of every result in every order: each changed path package that an updated package
  reaches has its direct dependencies covered anyway. If it fails,
  `PreviousLocks.ChangedFirstMisses` says that no order with the changed packages first is
  spared.
- The comment at src/cargo/core/compiler/custom_build.rs:51 wants `to_link` topologically
  sorted. A preorder walk without repetitions is not (`BuildOrder.NotTopologicallySorted`).
  `BuildOrder.SortedExactlyWhenInOrder` gives the exact condition: merging a dependency
  never brings in a script that belongs before one already listed.
- At src/cargo/ops/cargo_install.rs:394-399 an error from writing the listing is dropped when
  all replacements succeeded, so an install may succeed without being recorded:
  `InstallLedger.InstalledUnrecorded` is one. A successful install is recorded exactly if
  writing the listing works or it was recorded before (`InstallLedger.InstallRoot.InstallOne`).
- `find_duplicates` checks names with the host's executable suffix
  (src/cargo/ops/cargo_install.rs:617), while the files built for another target carry that
  target's (src/cargo/core/compiler/context/mod.rs:190-191). Such a file is moved as new even
  if it exists. If the install fails later, rolling back removes a file that somebody lists
  (`InstallLedger.UncheckedIsLost`); if it succeeds, the file has two owners
  (`InstallLedger.UncheckedIsShared`). `InstallSpec.ConsistentExactlyWhenSafe` says exactly
  which installs keep the listing consistent whatever fails, and
  `InstallSpec.RestoredExactlyWhenNew` which leave the directory alone when they fail.
- The comment at src/cargo/core/workspace.rs:824-826 says that `is_excluded` does not look
  at `members`. It does: below an explicit member nothing is excluded
  (`WorkspaceMembers.ExclusionExactly`).
- The job queue finishes a key with the freshness it was dequeued with combined with that
  of its own jobs (src/cargo/core/compiler/job_queue.rs:238-246). The dirtiness theorem is
  stated for that use; with no dirty jobs it is the statement about keys queued dirty.

## Model

| member | source | states |
|---|---|---|
| `DependencyQueueSpec.FillHoldsPlan` | src/cargo/util/dependency_queue.rs:83-102 | after any sequence of `queue` calls the maps hold exactly the first entry of each key and the converse graph, and re-queuing adds nothing |
| `DependencyQueueSpec.ConverseIsAcyclicToo` | src/cargo/util/dependency_queue.rs:106-110 | the graph of dependents that sealing walks has a cycle exactly when the dependency graph has one, and names only queued keys as dependents |
| `DependencyQueueSpec.RunsAreExplained` | src/cargo/util/dependency_queue.rs:143-199 | in every state of every run all maps and sets are determined by the plan and by which keys were taken and finished, and what was taken had all its dependencies finished |
| `DependencyQueueSpec.BuiltAfterDependencies` | src/cargo/util/dependency_queue.rs:143-171 | each key is dequeued with its own value and after a `finish` of each of its dependencies |
| `DependencyQueueSpec.BuiltAtMostOnce` | src/cargo/util/dependency_queue.rs:143-171 | no key is dequeued twice in a run |
| `DependencyQueueSpec.FinishNeverFails` | src/cargo/util/dependency_queue.rs:187-199 | in every state of every run, finishing any pending key passes both assertions and the unwrap |
| `DependencyQueueSpec.StuckExactlyOnUnqueued` | src/cargo/util/dependency_queue.rs:143-171 | with nothing pending and nothing ready, the keys left are exactly those that transitively depend on an unqueued key |
| `DependencyQueueSpec.IdleQueueHasReadyKey` | src/cargo/util/dependency_queue.rs:143-171 | if every dependency is queued, an idle non-empty queue has a ready key in every run |
| `DependencyQueueSpec.LenCountsUnfinished` | src/cargo/util/dependency_queue.rs:174-199 | `len` plus the number of finishes so far is the number of distinct keys, and dequeues never exceed it |
| `DependencyQueueSpec.CompleteRunBuildsEverything` | src/cargo/util/dependency_queue.rs:143-199 | a run that ends empty dequeued and finished every key, exactly once per key |
| `DependencyQueueSpec.DirtyExactlyWhenTainted` | src/cargo/util/dependency_queue.rs:164-199 | a key comes out dirty exactly when it was first queued dirty or some transitive dependency was queued dirty or had dirty work of its own |
| `DependencyQueueSpec.DependentsAreShallower` | src/cargo/util/dependency_queue.rs:106-137 | a key's longest chain of dependents is strictly longer than each dependent's |
| `DependencyQueue.Depth` | src/cargo/util/dependency_queue.rs:111-137 | the memoised recursion terminates on every graph, panics only on a cycle, and every finished entry is the longest chain of dependents and not the marker |
| `DependencyQueue.DepthOfDependents` | src/cargo/util/dependency_queue.rs:125-131 | the greatest depth among the dependents, all of which are finished entries by then, or zero without dependents |
| `DependencyQueue.DependencyQueue.constructor` | src/cargo/util/dependency_queue.rs:69-77 | a new queue is the empty state |
| `DependencyQueue.DependencyQueue.Queue` | src/cargo/util/dependency_queue.rs:83-102 | the new state is the machine's, and the value returned is the one stored for the key |
| `DependencyQueue.DependencyQueue.QueueFinished` | src/cargo/util/dependency_queue.rs:106-137 | completes exactly when the reverse graph is acyclic; then every key has its longest chain as depth, never the marker, strictly above each dependent's |
| `DependencyQueue.DependencyQueue.Dequeue` | src/cargo/util/dependency_queue.rs:143-171 | takes a ready key that no ready key is deeper than, with its value and freshness, or nothing exactly when no key is ready |
| `DependencyQueue.DependencyQueue.Finish` | src/cargo/util/dependency_queue.rs:187-199 | removes the key from every dependent and marks them dirty if it was; nothing else changes |
| `DependencyQueue.DependencyQueue.IsEmpty` | src/cargo/util/dependency_queue.rs:174-176 | true exactly when `len` is zero |
| `DependencyQueue.DependencyQueue.Len` | src/cargo/util/dependency_queue.rs:179-181 | the keys waiting and being built |
| `LockServer.RunsKeepInv` | src/cargo/util/lockserver.rs:76-134 | in every reachable state the clients of a name, in order of acceptance, are those served, then those queued, then the one in the accept loop's hand, and the flag, the mutex and the worker's position agree |
| `LockRuns.MutualExclusion` | src/cargo/util/lockserver.rs:103-124 | at most one client per name has been told it has the lock and is still connected |
| `LockRuns.NamesAreLines` | src/cargo/util/lockserver.rs:76-98 | in every state of every run, the name a client is registered under is the line that client sent |
| `LockRuns.StatesRecountRuns` | src/cargo/util/lockserver.rs:76-124 | in every state, what was sent, who is connected and who was granted the lock is exactly what the steps of the run so far sent, dropped and told |
| `LockRuns.OneHolderPerLine` | src/cargo/util/lockserver.rs:76-124 | of all clients that sent the same line and have not disconnected, at most one was told it has the lock, in every state of every run |
| `LockRuns.GrantedInAcceptOrder` | src/cargo/util/lockserver.rs:94-120 | clients of one name are granted in the order in which the server accepted them, each at most once |
| `LockRuns.ToldInAcceptOrder` | src/cargo/util/lockserver.rs:76-120 | of two clients that sent the same line and are told, the one accepted first is told first |
| `LockRuns.NoClientIsLost` | src/cargo/util/lockserver.rs:94-132 | every client whose name was read was served, or waits in a queue with a live worker, or is in the accept loop's hand |
| `LockRuns.NoDeadlock` | src/cargo/util/lockserver.rs:76-145 | the accept loop, reading a name, joining while it holds the mutex, and joining on shutdown, waits only for threads that can step or for a connected client |
| `LockRuns.QueuedClientAdvances` | src/cargo/util/lockserver.rs:103-124 | each step of its worker brings a queued client strictly nearer, no other step pushes it back, and its worker can step unless it waits for a client or for the accept loop to release the mutex |
| `LockRuns.EarlierClientsGone` | src/cargo/util/lockserver.rs:103-124 | once all earlier clients of the name have disconnected, only the server's own enabled steps stand before a queued client |
| `LockRuns.QueuedClientIsServed` | src/cargo/util/lockserver.rs:103-124 | in every run a queued client is taken off the queue within its distance in steps of its worker, whatever else is interleaved |
| `LockRuns.QueuedClientIsAnswered` | src/cargo/util/lockserver.rs:94-124 | in every run a queued client has been granted the lock, or writing to it failed, once its worker has made two more steps than its distance, and in any case when the server can make no step for the name although all earlier clients are gone |
| `CfgSpec.PrintThenParse` | src/cargo/util/cfg.rs:84-123 | parsing a printed expression gives it back if and only if the expression is well-formed |
| `CfgSpec.AcceptedIsWellFormed` | src/cargo/util/cfg.rs:84-98 | everything `CfgExpr::from_str` accepts is well-formed, trailing commas and empty lists included |
| `CfgSpec.ParsePrintParse` | src/cargo/util/cfg.rs:84-123 | printing and reparsing any accepted string gives the same expression |
| `CfgSpec.CfgPrintThenParse` | src/cargo/util/cfg.rs:40-60 | the same for a single `Cfg`, which may also be called `all`, `any` or `not` |
| `CfgSpec.PrintedKeyMatches` | src/cargo/util/cfg.rs:64-82 | a printed well-formed expression, used as a `cfg(..)` key, selects the configurations the expression matches |
| `CfgSpec.TokenizePrinted` | src/cargo/util/cfg.rs:214-253 | tokenizing a printed expression followed by any boundary yields the expression's tokens and then those of the rest |
| `CfgSpec.ParsePrinted` | src/cargo/util/cfg.rs:135-168 | parsing an expression's tokens followed by anything but `=` yields the expression and leaves exactly the rest |
| `CfgSpec.NextItemIsGood` | src/cargo/util/cfg.rs:214-261 | every identifier token is an identifier and every string token is free of quotes |
| `CfgGrammar.TokenizesExactly` | src/cargo/util/cfg.rs:214-261 | the tokenizer finds no error exactly in the texts made of token texts with any spaces around them where no identifier runs on, and yields those tokens |
| `CfgGrammar.ParsesExactly` | src/cargo/util/cfg.rs:84-168 | the parser accepts exactly the token sequences that spell an expression by the grammar, trailing commas included, and yields that expression |
| `CfgGrammar.AcceptsExactly` | src/cargo/util/cfg.rs:84-261 | a string is accepted as an expression exactly if it writes some tokens that spell it |
| `CfgGrammar.KeyMatchesExactly` | src/cargo/util/cfg.rs:64-72 | only `cfg(`, an accepted text and `)` can match |
| `CfgGrammar.ValueLaw` | src/cargo/util/cfg.rs:74-82 | a name or a key with a value, however it is spaced, matches exactly if it is set |
| `CfgGrammar.NotLaw` | src/cargo/util/cfg.rs:64-82 | for every string a, `cfg(not(a))` matches exactly if a is accepted and `cfg(a)` does not match |
| `CfgGrammar.AllLaw` | src/cargo/util/cfg.rs:64-82 | `cfg(all(..))` around accepted parts, with or without a trailing comma, matches exactly if every part does on its own |
| `CfgGrammar.AnyLaw` | src/cargo/util/cfg.rs:64-82 | `cfg(any(..))` likewise, exactly if some part does on its own |
| `CfgParser.Tokenizer.Next` | src/cargo/util/cfg.rs:214-253 | yields the next item of what is left and leaves the rest, or nothing exactly at the end |
| `CfgParser.Tokenizer.StringRest` | src/cargo/util/cfg.rs:222-229 | a string ends at the first quote; without one the item is an error and nothing is left |
| `CfgParser.Tokenizer.IdentRest` | src/cargo/util/cfg.rs:230-239 | an identifier extends as far as its characters go |
| `CfgParser.Parser.Try` | src/cargo/util/cfg.rs:192-199 | consumes the token exactly when it comes next |
| `CfgParser.Parser.Eat` | src/cargo/util/cfg.rs:201-208 | succeeds exactly when the token comes next, and consumes it |
| `CfgParser.Parser.Cfg` | src/cargo/util/cfg.rs:170-190 | refines the functional parser on what is left of the stream |
| `CfgParser.Parser.Expr` | src/cargo/util/cfg.rs:135-168 | refines the functional parser, in value, in what is left, and in which inputs fail |
| `CfgParser.Parser.List` | src/cargo/util/cfg.rs:139-147 | the pushing loop refines the recursive list parser, trailing comma included |
| `CfgParser.ParseCfgExpr` | src/cargo/util/cfg.rs:84-98 | `from_str` fails on leftover tokens and otherwise is the function the round trips are about |
| `LevDistance.Distance` | src/cargo/util/lev_distance.rs:3-33 | returns the least number of single-character insertions, deletions and substitutions; every row access is in bounds |
| `LevDistance.NextRow` | src/cargo/util/lev_distance.rs:14-31 | one pass turns the row of distances for a prefix into the row for the next prefix in place |
| `LevDistance.LevIsEditDistance` | src/cargo/util/lev_distance.rs:14-33 | the recurrence is the length of the shortest chain of edits: there is such a chain and none is shorter |
| `LevDistance.EditDistanceIsMetric` | src/cargo/util/lev_distance.rs:3-33 | edit distance is symmetric, zero only on equal strings, and obeys the triangle inequality |
| `GraphWalk.AddDeps` | src/cargo/ops/resolve.rs:560-569 | terminates on every graph; adds exactly what is reachable along nodes not yet in the set, and from a closed set everything reachable, again closed |
| `GraphWalk.FillWithDeps` | src/cargo/ops/cargo_generate_lockfile.rs:125-138 | records exactly what it newly visits; from an empty visited set, everything reachable |
| `GraphWalk.ClosedStart` | src/cargo/ops/resolve.rs:560-569 | from a dependency-closed set, stopping at visited nodes loses nothing reachable |
| `PreviousLocks.MarkUpdates` | src/cargo/ops/resolve.rs:446-455 | for every iteration order, updated packages are inserted with what they reach and changed path packages on their own |
| `PreviousLocks.PoisonSource` | src/cargo/ops/resolve.rs:536-541 | every package of a poisoned source is inserted with what it reaches |
| `PreviousLocks.VisitMember` | src/cargo/ops/resolve.rs:494-542 | pushes exactly the path dependencies considered and poisons exactly the sources of unmatched ones |
| `PreviousLocks.PoisonChanged` | src/cargo/ops/resolve.rs:488-543 | the worklist visits exactly the packages reachable from members along path dependencies |
| `PreviousLocks.RegisterKept` | src/cargo/ops/resolve.rs:549-558 | exactly the kept packages outside the avoided set are registered, each with exactly its dependencies that are |
| `PreviousLocks.RegisterPreviousLocks` | src/cargo/ops/resolve.rs:398-558 | the whole function: what is avoided is explained by updated, poisoned and changed packages, and tightly so when changed packages come first |
| `PreviousLocks.NoChangedMeansExactClosure` | src/cargo/ops/resolve.rs:446-455 | without the direct insert, exactly what updated and poisoned packages reach is avoided |
| `PreviousLocks.PoisonedExactly` | src/cargo/ops/resolve.rs:486-543 | a source is poisoned exactly if path dependencies lead from a member to a manifest with a dependency of that source, not one left out as optional or for tests, whose name and requirement no package of the previous graph meets |
| `PreviousLocks.LockedExactly` | src/cargo/ops/resolve.rs:398-558 | if every path package is still what lies at its path, a package stays locked exactly if nothing to be updated, by request or because its source is outgrown, reaches it |
| `PreviousLocks.ClosureExactlyWhenChangedAreCovered` | src/cargo/ops/resolve.rs:446-455 | everything updated and poisoned packages reach is avoided by every result in every iteration order if and only if each changed package reached has its direct dependencies covered |
| `PreviousLocks.ChangedFirstMisses` | src/cargo/ops/resolve.rs:446-455 | if it does not, every result of an order with the changed packages first misses something reached, which stays locked |
| `PreviousLocks.LockedIsOutOfReach` | src/cargo/ops/resolve.rs:549-558 | then no registered lock, and no dependency recorded with one, is anything an updated or poisoned package reaches |
| `PreviousLocks.MarkedCovers` | src/cargo/ops/resolve.rs:446-455 | every order avoids what is reached around changed packages, and with those first nothing more |
| `PreviousLocks.ChangedFirstIsPossible` | src/cargo/ops/resolve.rs:447-455 | an iteration order with the changed packages first, listing each once, exists for every previous graph |
| `PreviousLocks.ClosureFailsBehindChanged` | src/cargo/ops/resolve.rs:398-558 | the function, run on a concrete workspace, graph and order, registers a package that an updated one reaches |
| `RegistryLock.PackageRegistry.RegisterLock` | src/cargo/core/registry.rs:163-175 | pushes onto the bucket of its source and name, leaves every other bucket alone, and keeps the index in step with everything ever registered |
| `RegistryLock.PackageRegistry.constructor` | src/cargo/core/registry.rs:85-98 | a new registry indexes no registrations |
| `RegistryLock.PackageRegistry.FindsWhatSearchFinds` | src/cargo/core/registry.rs:551-601 | in every registry both look-ups find what a linear search of all its registrations would find |
| `RegistryLock.RegisterKeepsIndex` | src/cargo/core/registry.rs:163-175 | so each bucket lists the registrations of its source and name in order |
| `RegistryLock.IndexFindsWhatSearchFinds` | src/cargo/core/registry.rs:551-601 | both look-ups in the index find what a linear search of all registrations would find |
| `RegistryLock.LockIsStable` | src/cargo/core/registry.rs:550-639 | locking keeps the identity and the dependencies' order, names and source, only narrows requirements, and locking again changes nothing |
| `RegistryLock.LockAnswers` | src/cargo/core/registry.rs:550-639 | the id becomes the first registered one; each dependency is locked to version and source of the first match among the dependencies recorded with it, else among all registrations in order, else to the version of the only matching patch if that is registered, else it is unchanged |
| `RegistryLock.LockDepAnswers` | src/cargo/core/registry.rs:563-637 | the same for one dependency, by positions in what was registered |
| `RegistryLock.MatchingMeans` | src/cargo/core/dependency.rs:400-412 | a dependency matches an id by name alone if it was made so, else by name, an accepted version and the source, precise revisions aside; an exact requirement accepts its version alone |
| `RegistryLock.OnlyAmbiguousPatchPanics` | src/cargo/core/registry.rs:563-637 | an ordinary dependency panics exactly when neither search finds it and more than one patch matches |
| `RegistryLock.LockDoesNotPanic` | src/cargo/core/dependency.rs:345-357 | `lock_to`'s assertions hold for every summary of ordinary dependencies with at most one matching patch each |
| `RegistryLock.LockDepIsIdempotent` | src/cargo/core/registry.rs:563-637 | a locked dependency is locked to the same thing again by the same search |
| `BuildScripts.Build` | src/cargo/core/compiler/custom_build.rs:608-666 | on an acyclic unit graph the memo agrees with the plain recursion for exactly the units reached so far, and the "cyclic dependencies" panic is unreachable |
| `BuildScripts.BuildMap` | src/cargo/core/compiler/custom_build.rs:597-604 | exactly the units reachable from the given ones get an entry, and every entry is that of the plain recursion |
| `BuildScripts.AddToLink` | src/cargo/core/compiler/custom_build.rs:668-674 | keeps `to_link` the first occurrences of everything added and `seen_to_link` their set |
| `BuildScripts.EntriesAreFirstOccurrences` | src/cargo/core/compiler/custom_build.rs:636-660 | each entry lists each script once, in first-occurrence order, agrees with `seen_to_link`, and holds exactly the scripts reachable along linkable dependencies that are not for the host |
| `BuildScripts.FlattenIsReachableScripts` | src/cargo/core/compiler/custom_build.rs:636-660 | the plain recursion yields exactly the scripts of units reachable along linked dependencies |
| `BuildRoutes.EntriesExactly` | src/cargo/core/compiler/custom_build.rs:636-660 | an entry links exactly the scripts that routes along linked dependencies lead to, each once, in the order of the first routes to them; its plugins are exactly the packages of the scripts below dependencies built for the host |
| `BuildRoutes.FirstIsBefore` | src/cargo/core/compiler/custom_build.rs:646-660 | a script that comes first in the walk has a route before every route to the other |
| `BuildOrder.SortedExactlyWhenInOrder` | src/cargo/core/compiler/custom_build.rs:48-61 | every unit's `to_link` is topologically sorted if and only if no dependency brings in a script that belongs before one already listed |
| `BuildOrder.NotTopologicallySorted` | src/cargo/core/compiler/custom_build.rs:48-61 | a unit graph whose `to_link` is not sorted |
| `Downloads.Downloads.constructor` | src/cargo/core/package.rs:354-376 | starts with nothing pending |
| `Downloads.Downloads.Start` | src/cargo/core/package.rs:410-519 | fails exactly on an unknown id, a refusal, or a failed set-up; panics exactly if the source wants a download that is in progress; else fills exactly that slot with what is ready, or queues the id |
| `Downloads.Downloads.Remaining` | src/cargo/core/package.rs:522-524 | zero exactly when no id is pending |
| `Downloads.Downloads.WaitForCurl` | src/cargo/core/package.rs:657-700 | fails exactly if curl does; else takes off the last report of what has completed, with how that attempt ended, and leaves reports of other transfers only |
| `Downloads.Downloads.TakeOne` | src/cargo/core/package.rs:534-545 | the length assertion holds, and the download last reported leaves `pending` and `pending_ids` together, unless curl fails |
| `Downloads.Downloads.Requeue` | src/cargo/core/package.rs:589-595 | a spurious failure puts the same download back with one try less |
| `Downloads.Downloads.HandleOne` | src/cargo/util/network.rs:22-38 | fails exactly if curl does, on an error that is not spurious, or on a spurious one with no try left; queues the download again exactly on a spurious one with a try left; else it is done |
| `Downloads.Downloads.Wait` | src/cargo/core/package.rs:534-641 | terminates for every order of completions; fills exactly the slot of one pending package, which arrived, with what was unpacked; fails only if curl did or a pending package does not arrive; panics only where a pending slot was filled behind its back |
| `Downloads.PackageSet.GetMany` | src/cargo/core/package.rs:384-397 | for every order of completions, succeeds if and only if every id is known and not refused, every download can be set up and arrives within its retries, none is asked for again, and curl does not fail while waited for; then returns each package as often as asked for, each empty slot asked for holding what was ready or downloaded and all others untouched; waits at most once per try of each package |
| `Downloads.FailedNeverArrives` | src/cargo/util/network.rs:22-38 | a package whose spurious attempts are followed by a failing one, within the limit or by exceeding it, does not arrive |
| `Downloads.AllFetched` | src/cargo/core/package.rs:384-397 | what was started and what was delivered together are exactly what the answers and the downloads provide |
| `Downloads.TransferRemoved` | src/cargo/core/package.rs:540-544 | taking a completed download off keeps the pending ids distinct, and no package has more completions handled than one plus the retry limit |
| `Downloads.AsManyIdsAsTokens` | src/cargo/core/package.rs:536-536 | with distinct ids, `pending` and `pending_ids` have the same length |
| `InstallSpec.HistoriesAreConsistent` | src/cargo/ops/cargo_install.rs:291-402 | from any consistent bin directory and listing, after any sequence of uninstalls and of installs that are refused or safe where they are made, whatever fails, each binary has at most one owner, no package is empty, and everything listed exists |
| `InstallSpec.ConsistentExactlyWhenSafe` | src/cargo/ops/cargo_install.rs:291-402 | an install keeps the listing consistent under all faults if and only if it is refused or safe: each listed binary it moves as new is the package's own, names are distinct, and it is moved last |
| `InstallSpec.SafeForDistinct` | src/cargo/ops/cargo_install.rs:291-402 | for distinct names, safe means that no built binary outside the checked names is listed, apart from one of the package's own that is moved last |
| `InstallSpec.InstallIsConsistent` | src/cargo/ops/cargo_install.rs:320-402 | under given faults, a successful install is consistent exactly if the listing was not written or nobody else lists a new binary, a failed one exactly if nobody lists what it undoes |
| `InstallSpec.RestoredExactlyWhenNew` | src/cargo/ops/cargo_install.rs:45-57 | a failed install leaves the directory as it was under all faults if and only if no binary it may have to undo existed |
| `InstallSpec.UndoneExactlyWhenExposed` | src/cargo/ops/cargo_install.rs:320-350 | some failure makes an install undo a binary exactly if it is a new one that is moved and not the last of distinct ones |
| `InstallSpec.CheckedIsSafe` | src/cargo/ops/cargo_install.rs:609-659 | an install all of whose existing binaries were checked is safe and undone without a trace |
| `InstallSpec.RecordedExactlyWhenWritten` | src/cargo/ops/cargo_install.rs:385-399 | a successful install adds every binary and is recorded exactly if the listing can be written or said so already |
| `InstallSpec.UninstallIsConsistent` | src/cargo/ops/cargo_install.rs:800-860 | every uninstall, whatever fails, keeps a consistent root so |
| `InstallSpec.RecordedIsConsistent` | src/cargo/ops/cargo_install.rs:352-391 | after taking over replaced binaries and adding new ones the listing is consistent exactly when what is still listed exists and nobody else lists what was added; nobody else loses a binary |
| `InstallSpec.ReleaseIsConsistent` | src/cargo/ops/cargo_install.rs:840-857 | giving up binaries before their files are removed keeps the listing consistent whichever removals fail |
| `InstallEffects.InstallsExactly` | src/cargo/ops/cargo_install.rs:291-350 | an install succeeds exactly if something was built, nothing checked exists or it is forced, no rename fails and no name repeats; a refused one changes nothing |
| `InstallEffects.FilesAfterInstall` | src/cargo/ops/cargo_install.rs:320-402 | binary by binary, for every fault: after success what was there and what was built, after a failure what was there without the new ones put in place before it |
| `InstallEffects.OwnersAfterInstall` | src/cargo/ops/cargo_install.rs:352-399 | owner by owner, for every fault: if the listing is written, the package gains what was replaced before a failure, from whoever had it, and on success what is new; nobody else gains or loses anything |
| `InstallEffects.UninstallsExactly` | src/cargo/ops/cargo_install.rs:800-860 | an uninstall succeeds exactly if the package, its files and the names are there and nothing fails; it takes exactly the names, or all it owns if none are given, from that package alone, and removes no other file |
| `InstallEffects.MovedIsPut` | src/cargo/ops/cargo_install.rs:320-350 | the files in place when a rename fails are those whose position comes before the first failing one of their kind |
| `InstallLedger.InstallRoot.FindDuplicates` | src/cargo/ops/cargo_install.rs:609-659 | exactly the checked names that exist, each with a package that lists it or none if no package does |
| `InstallLedger.InstallRoot.MoveNew` | src/cargo/ops/cargo_install.rs:320-331 | succeeds exactly if no rename fails; the transaction names exactly the files moved before a failure |
| `InstallLedger.InstallRoot.InstallOne` | src/cargo/ops/cargo_install.rs:291-402 | does what the specification says under every fault; succeeds exactly if there is something to install that overwrites nothing checked or is forced and no rename fails; is recorded exactly if the listing can be written or said so already; and is consistent exactly if nobody else lists a new binary, or on failure nobody what it undoes |
| `InstallLedger.InstallRoot.MoveAndRecord` | src/cargo/ops/cargo_install.rs:320-402 | the transaction after the binaries are split: files and listing are what the specification says, and it succeeds exactly if every rename does |
| `InstallLedger.InstalledUnrecorded` | src/cargo/ops/cargo_install.rs:393-402 | an install that succeeds, puts its binary in place and leaves the listing empty |
| `InstallLedger.UncheckedIsLost` | src/cargo/ops/cargo_install.rs:609-629 | installing for a target with another suffix: the names checked are not those built, and rolling back removes a binary that stays listed |
| `InstallLedger.UncheckedIsShared` | src/cargo/ops/cargo_install.rs:609-629 | likewise with no fault: the install succeeds and leaves a binary with two owners |
| `InstallLedger.UpdateListing` | src/cargo/ops/cargo_install.rs:352-391 | the three update passes together take the replaced binaries over from their owners, add the new ones if all went well, and leave nobody with nothing |
| `InstallLedger.InstallRoot.Uninstall` | src/cargo/ops/cargo_install.rs:800-860 | succeeds exactly if the package and its files are there, the names are its own and distinct, and nothing fails; the listing releases the names before any file goes, and only files of the package go |
| `InstallLedger.InstallRoot.RemoveFiles` | src/cargo/ops/cargo_install.rs:854-857 | succeeds exactly if the names are distinct and no removal fails, and then removes exactly them; failure removes a part |
| `WorkspaceMembers.LocateRoot` | src/cargo/core/workspace.rs:340-402 | the upward search loop computes the search that `RootIsFound` describes |
| `WorkspaceMembers.RootIsFound` | src/cargo/core/workspace.rs:340-402 | a manifest's own root or pointer counts; one that says nothing has a root, or an error, exactly if the nearest directory from two levels up that says something says so, and none otherwise |
| `WorkspaceMembers.HereSays` | src/cargo/core/workspace.rs:365-392 | a directory says an error if its manifest cannot be loaded, the pointer in it, or itself if it is a root with no exclude entry above the manifest or with an explicit member above it |
| `WorkspaceMembers.NearestDecides` | src/cargo/core/workspace.rs:365-401 | a root or an error is found exactly in the nearest directory above that says something, with no `target/package` directory and no home in between |
| `WorkspaceMembers.ExclusionExactly` | src/cargo/core/workspace.rs:827-840 | excluded is exactly what lies below an exclude entry and below no explicit member |
| `WorkspaceMembers.PassedOverExactly` | src/cargo/core/workspace.rs:475-490 | a path dependency is passed over exactly if it is outside under another root or excluded, and stops the walk exactly if it is outside and its root cannot be found out |
| `WorkspaceMembers.ExplicitIsMember` | src/cargo/core/workspace.rs:443-446 | a configured member below a member pattern is a member although it lies below an exclude entry |
| `WorkspaceMembers.Workspace.FindPathDeps` | src/cargo/core/workspace.rs:468-515 | terminates; appends without repeating, only what is reached along dependencies it takes, and leaves every path dependency of what it adds a member or passed over; it fails only if it comes to a manifest that cannot be loaded or with a path dependency whose root cannot be found out |
| `WorkspaceMembers.Workspace.FindMembers` | src/cargo/core/workspace.rs:411-466 | the members are exactly what the admitted starting points lead to, none twice, every path dependency settled; the default members were chosen before the root itself was walked; it fails only on a root that is not one, on such a manifest that a starting point leads to, or on a default no configured member leads to |
| `WorkspaceMembers.OneMoreStart` | src/cargo/core/workspace.rs:443-465 | the members stay exactly what is reachable when one more starting point is walked |
| `WorkspaceMembers.Workspace.ChooseDefaults` | src/cargo/core/workspace.rs:447-463 | fails exactly if a configured default is not a member; chooses the configured defaults, else all members of a virtual workspace, else the current manifest |
| `WorkspaceMembers.Workspace.CollectRoots` | src/cargo/core/workspace.rs:527-553 | fails exactly when two members share a package name, and otherwise counts the roots |
| `WorkspaceMembers.Workspace.Validate` | src/cargo/core/workspace.rs:522-655 | accepts exactly the workspaces with distinct names, one root, members that agree on it, and the current manifest among them |
| `WorkspaceMembers.ValidExactly` | src/cargo/core/workspace.rs:516-655 | spells that out: no two packages of one name, exactly one position configured as a root, the root of every member is this one, and the current manifest is a member |
| `WorkspaceMembers.ValidatedWorkspace` | src/cargo/core/workspace.rs:522-655 | after validation the root manifest is the only member configured as a root, and default members are members |
| `ConfigMerge.MergeAssociates` | src/cargo/util/config.rs:1427-1473 | merging is associative, including which inputs fail |
| `ConfigMerge.MergeInto` | src/cargo/util/config.rs:1427-1473 | folding one table into another in any order gives the merge, and fails in every order or in none, as `MergeFailsOnClash` says |
| `ConfigMerge.MergeFailsOnClash` | src/cargo/util/config.rs:1427-1473 | a merge fails if and only if some key path leads in both to values that are neither both tables nor both lists nor both scalars |
| `ConfigMerge.MergedLooksLikeBoth` | src/cargo/util/config.rs:1427-1473 | a merge has the shape of both parts and is said to be defined where the first is |
| `ConfigMerge.GetOfMerge` | src/cargo/util/config.rs:1427-1473 | looking a key up in a merge is merging what is found in either part |
| `ConfigMerge.LoadedByKey` | src/cargo/util/config.rs:634-735 | after a successful load each key holds the merge of its definitions, those of the credentials first and then those of the files in order |
| `ConfigMerge.LoadFailsOnSomeKey` | src/cargo/util/config.rs:634-735 | a load fails exactly when the definitions of some key do not merge |
| `ConfigMerge.LoadFailsOnClash` | src/cargo/util/config.rs:634-735 | a load fails if and only if two of its sources, credentials included, clash so at some key |
| `ConfigMerge.ModernizedDefines` | src/cargo/util/config.rs:710-724 | a credentials file defines `registry` as it says, or by a bare `token` if it does not, no `token`, and every other key as it says |
| `ConfigMerge.RegistryToken` | src/cargo/util/config.rs:710-724 | `registry.token` is the file's own, or its bare `token` if it has no `registry` |
| `ConfigMerge.FirstDefinerWins` | src/cargo/util/config.rs:1427-1473 | a scalar comes from the first source that defines it |
| `ConfigMerge.ListsAreConcatenated` | src/cargo/util/config.rs:1427-1473 | a list is the concatenation of its definitions in that order |
| `ConfigLoad.LoadValuesFrom` | src/cargo/util/config.rs:634-735 | walking, merging as files are found, and the credentials on top give the merge of exactly the files in walk order, and fail if it does |
| `ConfigLoad.WalkTree` | src/cargo/util/config.rs:1563-1586 | has merged exactly the files in walk order, or one of the merges fails |
| `ConfigLoad.WalkOrderHolds` | src/cargo/util/config.rs:1563-1586 | the files read are exactly those that exist among the ones of the working directory, the directories around it, and home |
| `ConfigLoad.WalkOrderHasNoRepeats` | src/cargo/util/config.rs:1563-1586 | no file is read twice, a nearer directory comes first, and home last unless it is one of them |
| `ConfigLoad.CredentialsWin` | src/cargo/util/config.rs:683-735 | a scalar defined by the credentials is what the loaded configuration holds |
| `ConfigLoad.NearestWins` | src/cargo/util/config.rs:634-664 | else a scalar comes from the nearest directory around the working directory whose file defines the key |
| `ConfigLoad.HomeIsLast` | src/cargo/util/config.rs:634-664 | else the key holds what home says, or nothing |
| `ConfigLoad.ListsComeInOrder` | src/cargo/util/config.rs:634-735 | a list is that of the credentials, then of each directory from the nearest outwards, then of home if it is none of them |
| `ConfigLoad.FailsOnSomeKey` | src/cargo/util/config.rs:634-735 | a load fails exactly when the definitions of some key, in that order, do not merge |
| `ConfigLoad.FailsOnClash` | src/cargo/util/config.rs:634-735 | a load fails if and only if two of the files that are read, credentials included, define some key with values of different kinds |
| `ConfigMerge.GetValue` | src/cargo/util/config.rs:318-350 | finds exactly what is at the dotted key; the error is returned exactly if a proper prefix leads to something that is not a table, and names exactly those parts joined by dots |
| `ConfigMerge.JoinOfSplit` | src/cargo/util/config.rs:320-337 | joining the split parts gives the key back |
| `ConfigMerge.PartsHaveNoDots` | src/cargo/util/config.rs:320-337 | no part has a dot, so the parts are what stands between the dots |
| `ConfigMerge.JoinOfPrefix` | src/cargo/util/config.rs:337-338 | the first parts joined are the prefix of the key of the length the code computes |
| `FeatureMap.BuildFeatureMap` | src/cargo/core/summary.rs:141-327 | succeeds exactly on acceptable tables, and then holds every explicit feature as written and exactly the implicit ones besides |
| `FeatureMap.GroupDeps` | src/cargo/core/summary.rs:148-154 | a name has a group exactly if it is declared, with an optional member exactly if some declaration is optional |
| `FeatureMap.CheckValue` | src/cargo/core/summary.rs:219-305 | the case split accepts exactly the values with a good referent and defines implicitly exactly the undefined names of optional dependencies |
| `FeatureMap.CompileOne` | src/cargo/core/summary.rs:157-321 | one feature compiles exactly when all its values and its name are acceptable |
| `FeatureMap.CompiledRefersWell` | src/cargo/core/summary.rs:141-327 | each feature value names an entry of the result, each crate an optional dependency, each crate feature a declared one |
| `FeatureMap.CompiledRoundTrips` | src/cargo/core/summary.rs:343-383 | rebuilding any value of the table from its printed form gives it back, in both namespacing modes |
| `FeatureMap.PrintOfBuild` | src/cargo/core/summary.rs:343-383 | printing a built value gives back the string it was built from |
| `FeatureMap.BuildExactly` | src/cargo/core/summary.rs:343-365 | a string with a slash is split at the first; else, namespaced, `crate:` makes it a crate and anything else a feature; else it is a feature exactly if it is a key of the table |
| `FeatureMap.AcceptableInStrings` | src/cargo/core/summary.rs:141-327 | a table is acceptable exactly if each string names a declared dependency before its slash, an optional one, or a feature, and each namespaced feature named like a dependency lists it and it is optional |
| `FeatureMap.ImplicitInStrings` | src/cargo/core/summary.rs:228-232 | the names defined implicitly are exactly the plain names some namespaced feature lists that are no feature |

## Left out

- The dependency resolver, the job queue's threads, `util/toml`, source ids and the lock file's encoding: a resolve is a finite graph, a source id a value whose equality ignores its precise revision, and package ids compare likewise.
- Semver and URL parsing: a version requirement is the set of versions it accepts, an exact one accepting its version only.
- libcurl, git, sockets, file locks and processes: their outcomes are arbitrary choices or inputs.
- `Downloads.PackageSet.GetMany`: what the network does is an input; curl reports a transfer at most once per start and only while it is in progress, and something in the end if it is waited for with transfers in progress; the flag against two downloads at a time is not modelled.
- Progress bars, timeouts, speed checks, shell output and the text of error messages.
- `PackageIdSpec`, manifest accessors, `cargo new`, `cargo package` and registry requests, which would add only easy members.
- `compare_dependency_graphs` of src/cargo/ops/cargo_generate_lockfile.rs, which only reports, and the `keep` closures of `resolve_with_previous`, which are an arbitrary predicate here.
- Lock server: threads are interleaved steps on values, each critical section of the mutex entered and left in steps of its own; reading a client's socket to the end returns only when the client has disconnected.
- `DependencyQueue.DependencyQueue.QueueFinished`: needs fewer than 2^64 - 1 keys, so that no depth collides with the marker; on success the key count bounds every depth.
- `InstallLedger.InstallRoot.InstallOne`: starts from a consistent listing; a metadata write replaces the listing or leaves it, rolling back removes the files it names, and copying into the staging directory is part of the first rename that may fail.
- `InstallLedger.InstallRoot.Uninstall`: names are given with the executable suffix they were installed with.
- `BuildScripts.Build`: a unit's dependencies are given in the order the source sorts them into, and whether its `links` key is overridden is an attribute of the unit.
- Workspace paths are normalized and the globs among a root's members already expanded; reading `package.workspace` relative to its manifest is part of that.
- `WorkspaceMembers.Workspace.Validate`: the warning about profiles outside the root manifest is not modelled; nor is a workspace without a root, whose only member is the current manifest.
- `ConfigLoad.LoadValuesFrom`: reading and parsing a file are left out, so the disk holds parsed tables.
