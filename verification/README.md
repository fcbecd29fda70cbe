# A model of the test platform's scheduler

The scheduler of the platform is a set of small stateful protocols: runs whose results arrive late or
twice, a stress counter shared by concurrent handlers, a directory tree indexed by path strings, a curl
printer and parser, a hub that pairs requests with replies, and a handful of index and naming algorithms.
This project states what they promise and proves it for all inputs and, where requests, results or handlers
meet, for all interleavings of their atomic steps.

An SQL table is a map from ids to rows, and a transaction is one atomic step on it (the database opens every
write transaction with an immediate lock). Mutexes, compare-and-swap and channel operations are atomic steps
too. Clocks, fresh identifiers, JSON parsing, base64 and sorting are parameters. Code that changes state in
loops is a class with methods, proved against a function or relation on values; the theorems are lemmas about
that function or relation.

| part | files |
|---|---|
| directory tree | `TreePaths`, `DirectoryTree`, `TreeTheorems`, `TreeOrders`, `TreeTable`, `TreeRequests`, `TreeRaces`, `ProjectSlice`, `ApiDirectory` |
| curl import and export | `CurlTokens`, `CurlCommand`, `CurlOptions`, `CurlRoundTrip`, `CurlParams` |
| functional runs | `RunLifecycle`, `RunTheorems`, `RunFinish`, `RunStore`, `TaskIndex` |
| stress runs | `StressCounter`, `StressReservation`, `StressRun` |
| probe sessions | `ProbeProtocol`, `ProbeHub` |
| linking and wrappers | `Linking`, `Wrappers`, `WrapperNames` |
| the rest | `RateLimiter`, `Snowflake`, `SchemaInference`, `OpenApiDiff`; `Prelude`, `Decimal` and `Text` are shared |

## What the proofs brought out

Where the code does not meet a promise one might read into it, the code is modelled as it is, and the exact
condition is proved.

- A finished run or case is final except for three updates by primary key that do not look at the status:
  the local failures of a dispatched case, and a trigger that dispatched nothing
  (`FinishedCaseFinal`, `FinishedRunFinal`, reached in `CancelledRunOverwritten`, `CancelledCaseOverwritten`).
- A run is left RUNNING without anything to wait for by exactly three kinds of event (`StallsExactly`,
  `OnlyThreeKinds`): a local failure that ends its last open case, the first half of a reaping (the second
  half ends it), and a result that ends the last open case under another run's id or with a status number
  that is no outcome.
- The summary of a trigger that dispatched nothing says total 0, which is true exactly when the run has no
  case row (`NoneDispatchedSummary`, `NoneDispatchedMiscounts`). A result handled before the trigger's next
  case closes the run early; its summary stays true until that case is created (`SettledExactly`,
  `ClosedBeforeLastCase`).
- A move, mount or folder creation whose target was moved or deleted after its path was read leaves a wrong
  path, unless the moved node is elsewhere too, and nothing else does; two moves that cross close a cycle
  (`CommitKeepsExactly`, `InterleavingsExactly`, `CrossingMovesCloseCycle`, `CrossingFromEmpty`). Creations
  that count the siblings at the same time give two of them one order (`AppendedOrders`), and mounts that look
  for an earlier mount at the same time mount an entity twice (`MountedOnceExactly`).
- A stress run closes early when a spare candidate replaced a failed one, because the failure was already
  counted, and stays open when a report is handled before a later failure (`ClosedExactly`,
  `EarlyReportsStrand`). Its verdict counts reports that have set their flag and are not counted yet
  (`VerdictConcurrent`, `FlaggedBeforeCounted`).
- A repeated stress report frees a worker that is busy with another task (`StepKeepsExclusive`, `RepeatedReportFrees`).
- The sweep drops a session that was used again between the two halves: it compares objects and not
  activity, although the comment beside it says otherwise (`DropExpired`, `SweptWhileUsed`).
- The curl tokenizer replaces line continuations inside quotes and drops empty tokens, unlike the shell
  (POSIX.1-2017 Shell Command Language, sections 2.2.1 and 2.2.2), so the round trip holds exactly without
  those (`QuoteThenTokenize`, `ExportThenImport`). Parameters are printed as they are, so a name with = or &
  and a value with & are not told apart (`UrlReadsBack`, `RecoveredExactly`).
- Sibling orders have gaps after an unmount or a move away, except for the last child (`UnmountOrders`,
  `MovedOutOrders`).
- A gRPC step that spells its identifier as `007` links without error and is not found by the worker
  (`GrpcFoundIffCanonical`, `SevenWithZeros`).
- Two arrays with different items are merged into the first one, and the order of merging shows
  (`MergedCommutes`, `InferredConformsExactly`, `DroppedItems`).
- An OpenAPI entry that repeats a key is reported as added although nothing is created
  (`AddedIffRepeated`).
- A folder can be put under a folder of another project. The directory query of its own project then leaves
  out the row and all below it (`ForeignParentReached`, `CutOffRowLost`). With a chosen row more than 64
  levels deep it leaves out what lies further up (`WalkedFromRow`).
- Validation accepts fields a schema does not list, so merging two object schemas can lose documents without
  any array (`MergeKeepsConforming`, `UnlistedFieldLost`); the laws about `Describes` are for the reading in
  which nothing is unlisted, which is the one inference aims at.
- An interface called `HttpAPI` gets an alias that rebinds the base class of the wrappers after it, unless an
  earlier alias is the same word in another spelling (`BaseShadowedBy`, `RebasedExactly`, `BaseKeptExactly`,
  `SecondInheritsFromFirst`, `EarlierSpellingProtects`); likewise for `GrpcAPI`.
- The login limiter reads the clock before it takes the lock. Its sweep can then let a key start a new window
  early (`SweepShowsExactly`), and the bound on an interval needs a key's readings to be in order
  (`AnyInterval`, `OutOfOrderUnbounded`).

`InferredConformsExactly` leaves one thing to be tested on a document: where several arrays stand in one
place, the items of all but the first against the schema made of the first one's items. Everything else
about conforming is settled without looking at the document again.

## Model

| member | source | states |
|---|---|---|
| TreePaths.RenderPrefix | scheduler/internal/httpserver/tree_handlers.go:303-317 | one rendered path is a string prefix of another exactly when its list of identifiers is a list prefix of the other, so `/12/` never matches `/1/` |
| TreePaths.LikeIsPrefix | scheduler/internal/httpserver/tree_handlers.go:316-317 | `path LIKE p%`, with SQL wildcards taken seriously, is the prefix test whenever `p` has no wildcard; rendered paths never have one |
| DirectoryTree.PrefixIsBelow | scheduler/internal/httpserver/tree_handlers.go:431-470 | comparing two path strings decides ancestry by parent ids alone, in both directions |
| DirectoryTree.UnderPathIsSubtree | scheduler/internal/httpserver/tree_handlers.go:316-317 | the prefix query of a node returns exactly its descendants by parent id, and itself |
| DirectoryTree.Acyclic | scheduler/internal/httpserver/tree_handlers.go:431-470 | in a well-formed table no node is its own proper ancestor |
| DirectoryTree.ClampIndex | scheduler/internal/httpserver/tree_handlers.go:30-42 | the insertion index is kept when it lies in 0..count, becomes 0 when negative, and count when missing or too large |
| TreeTheorems.ApplyKeepsWellFormed | scheduler/internal/httpserver/tree_handlers.go:224-548 | every request (create, mount, move, folder delete, unmount, reorder, and the gRPC mount and move), accepted or refused, leaves each path equal to the parent path plus the id and a slash, and only folders with children |
| TreeTheorems.RunsStayWellFormed | scheduler/internal/httpserver/tree_handlers.go:224-548 | the same after any sequence of requests that do not interleave |
| TreeTheorems.MoveRefusedExactly | scheduler/internal/httpserver/tree_handlers.go:431-470 | the prefix test of a move refuses exactly the targets inside the moved subtree |
| TreeTheorems.RefusedIffCycle | scheduler/internal/httpserver/tree_handlers.go:431-470 | a move to another folder is refused if and only if pointing the node at that parent would close a cycle of parent ids |
| TreeTheorems.MoveTransplants | scheduler/internal/httpserver/tree_handlers.go:431-501 | after an accepted move the subtree hangs intact under its new parent and the ancestry of every other node is what it was |
| TreeTheorems.DeleteRemovesSubtree | scheduler/internal/httpserver/tree_handlers.go:302-327 | folder delete removes exactly the descendants; what survives is unchanged and still has its parent |
| TreeOrders.DenseFillsRange | scheduler/internal/httpserver/tree_handlers.go:15-17 | distinct orders within 0..k-1 occupy every position of that range |
| TreeOrders.InsertedOrders | scheduler/internal/httpserver/tree_handlers.go:405-423 | after inserting at an index the siblings carry the orders 0..k if and only if they carried 0..k-1 before; the node is at the clamped index and the others keep their relative order |
| TreeOrders.AppendedOrders | scheduler/internal/httpserver/tree_handlers.go:241-251 | a folder created with a sibling count read beforehand leaves a gap-free folder gap-free if and only if the count still holds |
| TreeOrders.MovedOrders | scheduler/internal/httpserver/tree_handlers.go:452-496 | the same for a node moved in from elsewhere, and rows outside the target folder keep their order |
| TreeOrders.MovedSetsDisjoint | scheduler/internal/httpserver/tree_handlers.go:464-496 | no child of the target lies in the moved subtree, so the written-back rows never overwrite a shifted one |
| TreeOrders.UnmountOrders | scheduler/internal/httpserver/tree_handlers.go:504-519 | a gap-free folder stays gap-free after an unmount exactly when the last child left |
| TreeOrders.MovedOutOrders | scheduler/internal/httpserver/tree_handlers.go:431-501 | the folder moved out of stays gap-free exactly when its last child left |
| TreeOrders.ReorderedOrders | scheduler/internal/httpserver/tree_handlers.go:522-548 | given all children of a folder, reordering gives each the order of its position in the list |
| TreeOrders.ReorderedExactly | scheduler/internal/httpserver/tree_handlers.go:522-548 | for any list: a row of the tenant gets its last position in it, and every other row stays |
| TreeRequests.ParentRefusedExactly | scheduler/internal/httpserver/tree_handlers.go:258-271 | a parent is accepted if and only if it is the root or a folder of the tenant, and which error is returned otherwise |
| TreeRequests.CreateRefusedExactly | scheduler/internal/httpserver/tree_handlers.go:225-245 | a folder is created if and only if project and parent are in order and its name is not blank |
| TreeRequests.MountRefusedExactly | scheduler/internal/httpserver/tree_handlers.go:337-404 | a mount is refused as a repetition if and only if all else is in order and some row of the tenant has that type and that reference |
| TreeRequests.CopilotMountRefusedExactly | scheduler/internal/grpcserver/copilot_service.go:1008-1045 | which gRPC mounts are accepted; earlier mounts are not looked for |
| TreeRequests.MoveAcceptedExactly | scheduler/internal/httpserver/tree_handlers.go:431-470 | a move is accepted if and only if node and target are the tenant's, the target can hold it, and it is not below the node |
| TreeRequests.RemovalRefusedExactly | scheduler/internal/httpserver/tree_handlers.go:302-317 | only a folder of the tenant is deleted, and only a leaf of one of four types is unmounted |
| TreeRequests.CreatedRow | scheduler/internal/httpserver/tree_handlers.go:241-251 | the created row carries what was asked for, and no other row changes |
| TreeRequests.MountedRow | scheduler/internal/httpserver/tree_handlers.go:405-423 | the mounted row carries type, reference, name and position asked for, and other rows change in nothing but their order |
| TreeRequests.CopilotMountedRow | scheduler/internal/grpcserver/copilot_service.go:1043-1062 | likewise for the gRPC mount, at the end |
| TreeRequests.MountedOnceExactly | scheduler/internal/httpserver/tree_handlers.go:398-423 | with reads however old: an accepted request leaves an entity mounted twice if and only if it mounts one that is in the table it commits to |
| TreeRequests.SecondMountRefused | scheduler/internal/httpserver/tree_handlers.go:398-404 | taken one at a time, a second mount of an entity over HTTP is refused, so none is mounted twice |
| TreeTable.Tree.CreateFolderNode | scheduler/internal/httpserver/tree_handlers.go:224-256 | the handler, reading the parent path and the sibling count from whatever the table was at those moments, refuses for the specified reason or ends in the specified table |
| TreeTable.Tree.MountNode | scheduler/internal/httpserver/tree_handlers.go:337-428 | likewise for mounting, with index insertion and the check for an earlier mount, which also precedes the transaction |
| TreeTable.Tree.MoveNode | scheduler/internal/httpserver/tree_handlers.go:431-501 | likewise for moving: parent path, node and cycle test as read before, then shifting siblings and rewriting what lies under the path read, row by row |
| TreeTable.Tree.DeleteFolderNode | scheduler/internal/httpserver/tree_handlers.go:302-327 | likewise for folder delete |
| TreeTable.Tree.UnmountNode | scheduler/internal/httpserver/tree_handlers.go:504-519 | likewise for unmounting a leaf |
| TreeTable.Tree.ReorderTree | scheduler/internal/httpserver/tree_handlers.go:522-548 | likewise for reordering: one update per listed id, in list order |
| TreeTable.Tree.CopilotMountRef | scheduler/internal/grpcserver/copilot_service.go:1008-1062 | likewise for the gRPC mount, which appends and does not look for an earlier mount |
| TreeTable.Tree.CopilotMoveNode | scheduler/internal/grpcserver/copilot_service.go:1140-1192 | likewise for the gRPC move, which appends |
| TreeRaces.StaleSelectsNothing | scheduler/internal/httpserver/tree_handlers.go:462-466 | the path a node no longer has selects no row of the table at all |
| TreeRaces.CommitKeepsExactly | scheduler/internal/httpserver/tree_handlers.go:224-501 | for any request whose reads are older than its transaction: the commit keeps paths and parent ids in step if and only if the target still has the path that was read, or the node to be moved no longer has its own - then nothing is moved |
| TreeRaces.InterleavingsExactly | scheduler/internal/httpserver/tree_handlers.go:224-548 | over every interleaving from the empty table, gRPC requests included, all tables on the way are well-formed if and only if every request is refused or harmless in that sense when it commits |
| TreeRaces.CrossingMovesCloseCycle | scheduler/internal/httpserver/tree_handlers.go:446-496 | any two accepted moves of each node under the other, tested on the same table, close a cycle of parent ids when both commit |
| TreeRaces.CrossingFromEmpty | scheduler/internal/httpserver/tree_handlers.go:224-501 | two folders just created get there |
| ProjectSlice.SliceIsRanked | scheduler/internal/grpcserver/copilot_service.go:1579 | whatever rows of a well-formed table carry one project id, their parents inside the slice have shorter paths |
| ProjectSlice.SliceAncestry | scheduler/internal/grpcserver/copilot_service.go:1613-1620 | being above a row in the slice is being above it in the table, and the other way round when no parent lies in another project |
| ProjectSlice.NothingCutOff | scheduler/internal/grpcserver/copilot_service.go:1679 | every row of the slice leads up to the root if and only if no row has a parent in another project |
| ProjectSlice.ForeignParentReached | scheduler/internal/httpserver/tree_handlers.go:224-271 | two accepted requests put a folder of one project under a folder of another: the parent check looks at tenant and type only |
| ApiDirectory.Query.NamePathOf | scheduler/internal/grpcserver/copilot_service.go:1626-1647 | the memoised path is the path by names from the top of the slice, whatever was asked before, as long as the calls do not nest deeper than 64; rows without a parent in the slice included |
| ApiDirectory.CallsAreHeight | scheduler/internal/grpcserver/copilot_service.go:1627-1647 | asked first, a row takes one call for itself, one per ancestor, and one more when its topmost ancestor has a parent elsewhere |
| ApiDirectory.KeptStep | scheduler/internal/grpcserver/copilot_service.go:1700-1714 | what is kept under a row is what is kept among its children, and the row itself iff it matches or a child was kept |
| ApiDirectory.FoundBy | scheduler/internal/grpcserver/copilot_service.go:1690-1698 | case aside, an HTTP interface is found by its name or address, a gRPC interface by its method or service, any other row by its name |
| ApiDirectory.ShownAs | scheduler/internal/grpcserver/copilot_service.go:1649-1676 | what an entry shows of a row, its parent and the interface it stands for |
| ApiDirectory.PathJoinsNames | scheduler/internal/grpcserver/copilot_service.go:1626-1647 | a path is the names from the top down, joined by slashes |
| ApiDirectory.OneSlashBetween | scheduler/internal/grpcserver/copilot_service.go:1640-1645 | exactly one slash stands between a name and what is above it, even when that ends in one |
| ApiDirectory.LessExactly | scheduler/internal/grpcserver/copilot_service.go:1737-1737 | the order of the answer is that of the first differing character |
| ApiDirectory.Query.Walk | scheduler/internal/grpcserver/copilot_service.go:1702-1715 | one walk adds exactly the rows of the subtree that have a match at or below them, on any slice and at any depth |
| ApiDirectory.Query.AddAncestors | scheduler/internal/grpcserver/copilot_service.go:1719-1736 | adds exactly the rows within 64 steps above something listed |
| ApiDirectory.WalkedFromRoots | scheduler/internal/grpcserver/copilot_service.go:1679-1736 | without a chosen row, exactly the matches whose parents lead to the root inside the project are listed, with everything above them, at any depth |
| ApiDirectory.WalkedFromRow | scheduler/internal/grpcserver/copilot_service.go:1680-1736 | below a chosen row, exactly the matches whose parents lead to it are listed with everything above them if and only if nothing matches or at most 64 rows lie above the chosen one |
| ApiDirectory.CutOffRowLost | scheduler/internal/grpcserver/copilot_service.go:1679-1736 | a matching row whose parent lies in another project is not listed |
| ApiDirectory.UniqFacts | scheduler/internal/grpcserver/copilot_service.go:1738-1746 | dropping repeated rows keeps the set of rows, leaves no duplicate, and keeps the list sorted |
| ApiDirectory.CompactInPlace | scheduler/internal/grpcserver/copilot_service.go:1738-1746 | compacting over the front of the array being read yields the first entry of every row, in order |
| ApiDirectory.Query.Run | scheduler/internal/grpcserver/copilot_service.go:1578-1748 | an empty project gives an empty answer; otherwise the query fails exactly when the chosen row is not in the project; the answer is what walks and climbs list, without duplicates, sorted by path, and with whole paths unless the chosen row lies deeper than 64 |
| CurlTokens.Tokenize | scheduler/internal/impexp/curl.go:22-56 | the character loop computes the quoting automaton, including the unterminated-quote error |
| CurlTokens.PrintedLineReadsBack | scheduler/internal/impexp/curl.go:22-56 | tokenizing any space-joined line of plain, single-quoted, double-quoted and backslashed words gives their contents, continuations unfolded and empty words dropped |
| CurlTokens.TabsAndOpenQuotes | scheduler/internal/impexp/curl.go:22-56 | a tab separates words as a space does, and a quote of either kind that is not closed is an error |
| CurlTokens.QuoteThenTokenize | scheduler/internal/impexp/curl.go:163-166 | tokenizing the quoted, space-joined list returns the list if and only if every token is non-empty and free of line continuations |
| Text.WhiteSpace | scheduler/internal/impexp/curl.go:87-90 | trimming takes away the 25 code points of the Unicode property White_Space |
| Text.CaseMapped | scheduler/internal/impexp/curl.go:82-85 | the 26 letters change case, and back, and nothing else does |
| CurlCommand.ParseCurl | scheduler/internal/impexp/curl.go:59-128 | the option loop computes the specified request or error, option by option |
| CurlOptions.OptionsRead | scheduler/internal/impexp/curl.go:59-128 | a command of options in any order and number: no URL exactly when no option brings one; otherwise the last method named, or GET for -G, or POST with a body and else GET; the last --url, or else the first loose word; headers and credentials in order; data joined by ampersands |
| CurlOptions.OptionAtTheEnd | scheduler/internal/impexp/curl.go:74-80 | an option at the end of the line takes the empty text |
| CurlOptions.CurlOptional | scheduler/internal/impexp/curl.go:64-69 | the word curl in front may be missing, and nothing behind it is an error |
| CurlCommand.ExportCurl | scheduler/internal/impexp/curl.go:170-210 | the printing loops produce one line per exportable interface in order |
| CurlParams.ExportedInOrder | scheduler/internal/impexp/curl.go:170-210 | one line for each interface with a word for its method, in order, and none for the others |
| CurlParams.ExportedText | scheduler/internal/impexp/curl.go:180-206 | the text of such a line: method, quoted URL, headers, body |
| CurlParams.UrlReadsBack | scheduler/internal/impexp/curl.go:184-194 | the exported URL is the address followed by all parameters in order behind the right mark; reading it returns them if and only if no name holds = or & and no value holds & |
| CurlParams.FaithfulIsCarried | scheduler/internal/impexp/curl.go:59-210 | the conditions of `ExportThenImport` on the stored texts themselves |
| CurlParams.RecoveredExactly | scheduler/internal/impexp/curl.go:59-210 | importing an exported line recovers method, address, every parameter by itself, headers and body if and only if the stored texts can be carried and the parameters told apart |
| CurlRoundTrip.ImportedLine | scheduler/internal/impexp/curl.go:59-128 | for every interface with a word for a method and a URL that is not empty and does not start with a dash: what importing its exported line yields, field by field |
| CurlRoundTrip.HeaderExact | scheduler/internal/impexp/curl.go:170-210 | a header survives the round trip exactly when its name has no colon and both parts are trimmed and free of continuations |
| CurlRoundTrip.DashUrlLost | scheduler/internal/impexp/curl.go:59-128 | a URL starting with a dash is never read back |
| CurlRoundTrip.ExportThenImport | scheduler/internal/impexp/curl.go:59-210 | importing one exported line gives back method, URL with parameters, headers in order and body if and only if the stored texts meet the listed conditions |
| RunTheorems.FirstReportWins | scheduler/internal/dispatch/dispatch.go:675-720 | within one result a RUNNING case takes status, duration and error text of its first report; later ones do not touch it |
| RunTheorems.ResultOnCase | scheduler/internal/dispatch/dispatch.go:653-760 | one result changes a case only if it was RUNNING and is named: the row then carries status, duration and error text of the first report on it, and all of that result's step rows for it are added or none |
| RunTheorems.NeverBackToRunning | scheduler/internal/dispatch/dispatch.go:670-755 | over any interleaving of all modelled writes, and whatever statuses workers report, a case that left RUNNING never returns and gains no step rows |
| RunTheorems.StepRowsHaveOneSource | scheduler/internal/dispatch/dispatch.go:653-760 | all step rows of a case come from the single result that moved it out of RUNNING |
| RunTheorems.RunningReportRepeats | scheduler/internal/dispatch/dispatch.go:675-740 | a worker that reports RUNNING leaves the case open and adds its step row each time; this is the input that shows why that is excluded |
| RunTheorems.CancelledRunOverwritten | scheduler/internal/runner/runner.go:144-158 | from empty tables: a run cancelled before its trigger finds nothing to dispatch turns from ABORTED to FAILED |
| RunTheorems.CancelledCaseOverwritten | scheduler/internal/runner/runner.go:495-541 | from empty tables: a case cancelled while it is being prepared turns from SKIPPED to FAILED |
| RunTheorems.FinishedCaseFinal | scheduler/internal/runner/runner.go:495-541 | a finished case row survives an event unchanged if and only if the event is not the unguarded write of a local failure with other content |
| RunTheorems.FinishedRunFinal | scheduler/internal/runner/runner.go:144-158 | a finished run row, finish time included, survives an event unchanged if and only if the event is not the unguarded write of a trigger that dispatched nothing with other content |
| RunTheorems.FinishedRunStays | scheduler/internal/httpserver/handlers.go:648-706 | status, finish time and summary of a finished run stay over any run without such an overwrite: late results, cancels, reaping and recovery included |
| RunTheorems.FinishedCaseStays | scheduler/internal/dispatch/dispatch.go:653-760 | the same for a finished case |
| RunFinish.TallySum | scheduler/internal/dispatch/dispatch.go:811-860 | the counters of a summary add up if and only if every case ended passed, failed or skipped |
| RunFinish.FinishedByResult | scheduler/internal/dispatch/dispatch.go:811-860 | a result closes only its own run, only when all its cases have ended, with the true counts, and as FAILED iff some case failed |
| RunFinish.ResultCloses | scheduler/internal/dispatch/dispatch.go:811-860 | conversely the result that ends the last case closes the run |
| RunFinish.CancelCloses | scheduler/internal/httpserver/handlers.go:662-687 | cancelling skips exactly the open cases and writes the true counts; they add up iff no case has a foreign status |
| RunFinish.NoneDispatchedSummary | scheduler/internal/runner/runner.go:144-158 | the summary of a trigger that dispatched nothing is the true one if and only if the run has no case row |
| RunFinish.NoneDispatchedMiscounts | scheduler/internal/runner/runner.go:144-158 | from empty tables: one case is created and fails, and the summary says total 0 |
| RunFinish.SettledExactly | scheduler/internal/dispatch/dispatch.go:811-860 | for every event: a finished run with a true summary keeps it true if and only if the event creates no case for it, fails none of its cases that had not failed, and is no trigger that dispatched nothing while it has cases or was cancelled |
| RunFinish.ClosedBeforeLastCase | scheduler/internal/dispatch/dispatch.go:811-860 | from empty tables: a result handled before the trigger creates the next case closes the run, and its summary is one case short |
| RunFinish.SummaryStaysTrue | scheduler/internal/dispatch/dispatch.go:811-860 | from closing on, the summary stays true over any run without the events of `SettledExactly`, and the row stays as written while nothing overwrites it |
| RunFinish.AcceptedExactly | scheduler/internal/dispatch/dispatch.go:670-760 | a result is taken in if and only if all its case ids are positive and the run it names exists, has no cases, or keeps one without an outcome |
| RunFinish.StallsExactly | scheduler/internal/dispatch/dispatch.go:670-860 | for every event: it leaves a RUNNING run with cases but without RUNNING cases if and only if it is a local failure of the last open case, the first half of a reaping, or a result that ends the last open case while it answers for another run or leaves a status that is no outcome; or the run is created when its cases are already there |
| RunFinish.StalledByLocalFailure | scheduler/internal/runner/runner.go:495-541 | from empty tables: the last case fails to be sent after the other reported |
| RunFinish.StalledByUnknownStatus | scheduler/internal/dispatch/dispatch.go:681-687 | from empty tables: any status number beyond the four, such as that of a message without a status, leaves the run open for good |
| RunFinish.StalledByForeignResult | scheduler/internal/dispatch/dispatch.go:754-754 | from empty tables: so does a result sent under another run id |
| RunFinish.NeverStalls | scheduler/internal/dispatch/dispatch.go:670-860 | over any run without such an event a RUNNING run with cases always has a RUNNING case |
| RunFinish.OnlyThreeKinds | scheduler/internal/dispatch/dispatch.go:670-860 | from empty tables, with cases created for existing runs, that last kind does not occur: any stall shows one of the other three before it |
| RunFinish.ReapingCompletes | scheduler/internal/runner/recover.go:64-81 | both halves of a reaping leave the run closed and no case RUNNING |
| RunStore.Store.HandleTaskResult | scheduler/internal/dispatch/dispatch.go:670-755 | the transaction of a functional result: every RUNNING case it names takes status, duration and error text of its first report, every other row stays; on an error nothing changes |
| RunStore.Store.MaybeFinishRun | scheduler/internal/dispatch/dispatch.go:811-860 | counting and the guarded update give exactly the specified closing |
| RunStore.Store.CancelRun | scheduler/internal/httpserver/handlers.go:648-706 | cancels exactly the tenant's own RUNNING run: its row is ABORTED at that time, its RUNNING cases are SKIPPED, and no other row changes |
| RunStore.Store.ReapStaleRuns | scheduler/internal/runner/recover.go:55-81 | each listed stale run ends FAILED with the time and the text of the reaper, its RUNNING cases FAILED; every other row is as before, and a list shorter than the limit leaves no stale run |
| RunStore.Store.RecoverInterruptedRuns | scheduler/internal/runner/recover.go:17-40 | runs and cases left RUNNING by the previous process are FAILED with the text of the recovery; every other row is as before |
| RunStore.Store.DispatchCase | scheduler/internal/runner/runner.go:481-543 | one plan item adds no row, a RUNNING row, or a row that failed locally |
| RunStore.Store.Trigger | scheduler/internal/runner/runner.go:126-158 | undisturbed: the run is RUNNING, or FAILED when no case was sent; each item has its row, RUNNING when it was sent and FAILED with the reason when it could not be; RUNNING are exactly the cases sent |
| StressCounter.ClosedAtMostOnce | scheduler/internal/dispatch/dispatch.go:596-650 | however handlers interleave, at most one closes the run row and a closed row is never rewritten |
| StressCounter.ClosedExactlyConcurrent | scheduler/internal/dispatch/dispatch.go:596-650 | every atomic step of the handlers apart, failing updates and the reaper included: when no handler is about to write, the run has been closed if and only if it was reaped or more reports were the n-th decrement or later than updates failed; without the reaper one handler closed it |
| StressCounter.ClosedUndisturbed | scheduler/internal/dispatch/dispatch.go:596-650 | with neither, that is if and only if some report was the n-th decrement or later |
| StressCounter.ClosedExactly | scheduler/internal/dispatch/dispatch.go:450-467 | for reports handled one at a time, in any interleaving with failed dispatches: the run is closed, once, if and only if some report comes as n-th event or later |
| StressCounter.LoopFirstCloses | scheduler/internal/dispatch/dispatch.go:596-650 | when the loop ends before any report, the closing report is number max(1, n - f), and the run fails iff one up to it did not pass |
| StressCounter.FullHouseClosesLast | scheduler/internal/dispatch/dispatch.go:596-650 | with exactly n candidates the last report closes the run and no earlier one does |
| StressCounter.VerdictConcurrent | scheduler/internal/dispatch/dispatch.go:596-650 | however handlers interleave, what closes the run is the reaper, or a write that says FAILED exactly when some report that did not pass had set the flag before the closing handler read it, counted or not |
| StressCounter.FlaggedBeforeCounted | scheduler/internal/dispatch/dispatch.go:596-650 | a report that did not pass turns the verdict before it is counted |
| StressCounter.CountedAlone | scheduler/internal/dispatch/dispatch.go:596-650 | handled alone, the same closing report gives PASSED |
| StressCounter.LastEventDecides | scheduler/internal/dispatch/dispatch.go:450-462 | with n reports and failed dispatches in all, in any order, the run is closed exactly when the last of them is a report |
| StressCounter.EarlyReportsStrand | scheduler/internal/dispatch/dispatch.go:457-462 | for any n: when every report is handled before the n-th event, the run stays open |
| StressReservation.StepKeepsExclusive | scheduler/internal/dispatch/dispatch.go:495-519 | a step keeps "flagged exactly while one stress task is being sent or is outstanding" if and only if it is not a report from a worker busy with another task |
| StressReservation.AlwaysExclusive | scheduler/internal/dispatch/dispatch.go:93-519 | hence it holds over every interleaving in which delivered tasks are reported once, by their worker |
| StressReservation.SecondReservationRefused | scheduler/internal/dispatch/dispatch.go:495-500 | a busy worker cannot be reserved a second time |
| StressReservation.RepeatedReportFrees | scheduler/internal/dispatch/dispatch.go:664-668 | from idle workers: a report sent twice, with a new reservation in between, frees a worker that has a task outstanding |
| StressRun.TotalTarget | scheduler/internal/runner/stress.go:93-102 | the target is at least 1, an upper bound of the ramp and of the plan's product, and one of those |
| StressRun.LoadSplit | scheduler/internal/runner/stress.go:107-206 | shares never grow, differ by at most one, and add up to max(target, n) when all n take part, otherwise to d * (target / n) + min(d, target % n), or to d when the target is below n |
| StressRun.Dispatcher.RegisterStressRun | scheduler/internal/dispatch/dispatch.go:450-455 | a run starts counting from the number of tasks |
| StressRun.Dispatcher.AdjustStressRun | scheduler/internal/dispatch/dispatch.go:457-462 | lowers the counter of a tracked run without closing it |
| StressRun.Dispatcher.HandleStressResult | scheduler/internal/dispatch/dispatch.go:596-650 | one report handled in one go is the steps of the counter protocol in sequence, with the tracker kept when the update fails; other runs are untouched |
| StressRun.Dispatcher.ReapStressRuns | scheduler/internal/runner/recover.go:83-101 | the stress half of a reaping: each listed run is closed if it was RUNNING and its tracker is dropped; other runs are untouched |
| StressRun.Dispatcher.RecoverStressRuns | scheduler/internal/runner/recover.go:41-50 | the stress half of start-up recovery closes exactly the rows left RUNNING |
| StressRun.Dispatcher.DispatchLoop | scheduler/internal/runner/stress.go:155-206 | tries candidates until n tasks are out or none is left; workers reached get indices 0..d-1 and their shares, and the counter has dropped by the failures |
| StressRun.Dispatcher.TriggerStress | scheduler/internal/runner/stress.go:107-217 | no more tasks than workers are wanted go out, and fewer only when every candidate was tried; when all accept, the first candidates get tasks 0, 1, ... whose loads add up to the target (or one each), and the counter equals the tasks; with none sent the run is failed and untracked |
| StressRun.FailuresAreAdjustments | scheduler/internal/runner/stress.go:160-206 | what the loop leaves is the counter protocol after that many failures |
| StressRun.AllReportsClose | scheduler/internal/runner/stress.go:155-217 | when no report is handled before the loop ends and every worker reached reports once, the run is closed, exactly once |
| StressRun.ClosedByReport | scheduler/internal/runner/stress.go:155-217 | it is closed by report number max(1, n - f), f being the failed candidates, and by no earlier one |
| ProbeProtocol.StepKeepsInv | scheduler/internal/probe/probe.go:395-440 | every step of calls, deliveries, timeouts and clean-up keeps the pairing invariant |
| ProbeProtocol.PutNeverBlocks | scheduler/internal/probe/probe.go:249-262 | in every reachable state the send into the channel of capacity one has room |
| ProbeProtocol.PendingIsUndelivered | scheduler/internal/probe/probe.go:395-440 | the pending table is exactly the unfinished calls whose reply has not been taken |
| ProbeProtocol.AcceptedOnce | scheduler/internal/probe/probe.go:249-262 | the reply let through for a request was delivered at one moment and is never replaced |
| ProbeProtocol.AnsweredByOwnReply | scheduler/internal/probe/probe.go:395-440 | a call that returns a reply returns one with its own request id, and no other delivery for that id found the call pending |
| ProbeProtocol.OutcomeHasCause | scheduler/internal/probe/probe.go:395-440 | a call that has been decided was decided once, by the step its outcome stands for: a reply received, time over, the caller gone while it waited, or the send given up |
| ProbeHub.Hub.PickWorker | scheduler/internal/probe/probe.go:350-381 | picks the first of the least loaded eligible workers, or reports that there is none exactly when there is none |
| ProbeHub.OpensExactly | scheduler/internal/probe/probe.go:89-137 | a session opens if and only if it is the tenant's own, or it is new, the tenant is below its limit and some worker can take it; the error otherwise; and which worker is picked |
| ProbeHub.Hub.Open | scheduler/internal/probe/probe.go:89-137 | opens iff tenant and worker limits allow it, and no reachable registry exceeds either limit |
| ProbeHub.Hub.BeginClose | scheduler/internal/probe/probe.go:220-231 | closing proceeds iff the session is the tenant's own; a missing one counts as closed, another tenant's is reported as gone |
| ProbeHub.Hub.Forget | scheduler/internal/probe/probe.go:241-244 | after the close command the entry goes, and only it |
| ProbeHub.Hub.OnWorkerDisconnect | scheduler/internal/probe/probe.go:265-273 | removes exactly the sessions of that worker |
| ProbeHub.Hub.CollectExpired | scheduler/internal/probe/probe.go:278-287 | collects exactly the sessions idle or alive for too long |
| ProbeHub.Hub.DropExpired | scheduler/internal/probe/probe.go:288-302 | drops the entry iff it is still the same object, however recently it was active |
| ProbeHub.Hub.SweptWhileUsed | scheduler/internal/probe/probe.go:278-302 | a session opened, found idle by a sweep and used again before its second half is gone from the registry while its caller holds it, just active |
| ProbeHub.Hub.Require | scheduler/internal/probe/probe.go:313-322 | returns and touches a tenant's own session and nobody else's |
| ProbeHub.Hub.BeginCall | scheduler/internal/probe/probe.go:395-415 | registers the call iff the session's worker is online, and otherwise forgets the session |
| ProbeHub.Hub.TakePending | scheduler/internal/probe/probe.go:249-262 | takes the call out of the pending table iff it was there |
| RateLimiter.FixedWindowLimiter.Allow | scheduler/internal/httpserver/ratelimit.go:33-55 | the sweeping loop and the counter give exactly the specified decision and table |
| RateLimiter.SweepNeverShows | scheduler/internal/httpserver/ratelimit.go:33-55 | for a key none of whose calls reads an earlier time than a sweep before it, every decision is the one a limiter that never sweeps would make |
| RateLimiter.SweepShowsExactly | scheduler/internal/httpserver/ratelimit.go:33-55 | the clock is read before the lock: after a call that sweeps, a call is decided otherwise if and only if it is of another key, reads a time at which that key's window was still open, the sweep found it over, and its limit was reached |
| RateLimiter.EntryIsWindow | scheduler/internal/httpserver/ratelimit.go:33-55 | of the sweeping limiter: the entry that still matters is the key's current window, when it was opened and how many calls it has let through |
| RateLimiter.PassesExactly | scheduler/internal/httpserver/ratelimit.go:33-55 | a call passes if and only if its key has no open window or the window has let fewer than `limit` calls through |
| RateLimiter.PerWindow | scheduler/internal/httpserver/ratelimit.go:33-55 | of the sweeping limiter: at most `limit` calls of a key pass in one window |
| RateLimiter.AnyInterval | scheduler/internal/httpserver/ratelimit.go:33-55 | of the sweeping limiter, for a key whose calls read the clock in order: at most twice the limit passes in any interval of one window length |
| RateLimiter.OutOfOrderUnbounded | scheduler/internal/httpserver/ratelimit.go:33-55 | with readings out of order any number of calls passes at one time, under a limit of two |
| Snowflake.PackedFields | scheduler/internal/model/models.go:55 | in range the identifier is not negative and time, node and sequence can be read back from it |
| Snowflake.NotNegative | scheduler/internal/model/models.go:55 | for any clock reading: the identifier is not negative exactly when the 42nd bit of the time is clear |
| Snowflake.Generator.NextID | scheduler/internal/model/models.go:37-56 | one call, spinning included, issues the next stamp and its packed identifier |
| Snowflake.Generator.SetSnowflakeNode | scheduler/internal/model/models.go:27-35 | accepts exactly the node numbers 0..1023 |
| Snowflake.IdsIncrease | scheduler/internal/model/models.go:37-56 | the identifiers of one node grow strictly over any clock readings, backward jumps and exhausted sequences included |
| Snowflake.IdsIdentify | scheduler/internal/model/models.go:37-56 | two identifiers are equal exactly when time, sequence and node are |
| TaskIndex.TrackKeeps | scheduler/internal/dispatch/dispatch.go:177-187 | tracking keeps the two maps in step if and only if the task is not tracked for another run |
| TaskIndex.UntrackKeeps | scheduler/internal/dispatch/dispatch.go:190-206 | untracking keeps them in step and removes just that task |
| TaskIndex.HoldsOutstanding | scheduler/internal/dispatch/dispatch.go:177-206 | after any history with fresh task ids both maps hold exactly the tasks sent and not yet over |
| TaskIndex.EmptyInTheEnd | scheduler/internal/dispatch/dispatch.go:177-206 | both are empty exactly when no task is outstanding |
| TaskIndex.Tracker.TrackTask | scheduler/internal/dispatch/dispatch.go:177-187 | the two writes give exactly the index `TrackKeeps` speaks of; blank ids and non-positive runs are ignored |
| TaskIndex.Tracker.UntrackTask | scheduler/internal/dispatch/dispatch.go:190-206 | the deletions give exactly the index `UntrackKeeps` speaks of, and a run whose last task went is dropped |
| TaskIndex.Tracker.CancelRun | scheduler/internal/dispatch/dispatch.go:209-236 | offers every worker a cancel for exactly the outstanding tasks of the run |
| Linking.Case.Fill | scheduler/internal/runner/runner.go:422-460 | writes snapshots in step order; succeeds iff no needed interface is missing, and otherwise each call is untouched or correctly resolved |
| Linking.Case.ResolveApiRefs | scheduler/internal/runner/runner.go:380-461 | which error is returned when, and that success resolves every reference and touches nothing else |
| Linking.Case.ResolveGrpcRefs | scheduler/internal/runner/runner.go:325-376 | succeeds iff every gRPC reference is stored; the map is keyed by the printed identifier |
| Linking.Case.ResolveInlineFiles | scheduler/internal/runner/runner.go:247-306 | over steps and low-code snapshots: succeeds iff no file reference is at fault, with the content of every stored one; a failure names a fault that occurs |
| Linking.Case.Materialize | scheduler/internal/runner/runner.go:190-241 | a case links if and only if every reference at any depth can be resolved; then each interface and file named by its number, in either spelling of a file, is the stored one, a file within 8 MiB is sent under the text of its reference, and content given in a reference is not |
| Linking.FileOfNumber | scheduler/internal/runner/runner.go:285-323 | what becomes of a reference to file n, written as artifact: and the number or as the number alone: missing, unreadable, larger than 8 MiB, or sent |
| Linking.OtherReferences | scheduler/internal/runner/runner.go:309-323 | content in the reference and the number zero need no file; any other text is refused |
| Linking.ByTheirTexts | scheduler/internal/runner/runner.go:190-461 | of every case that links: interfaces, gRPC interfaces and files by the texts that name them |
| Linking.LinkedAtEveryDepth | scheduler/internal/runner/runner.go:190-461 | after success no step at any if, loop or retry depth needs a lookup, and calls that needed nothing are unchanged |
| Linking.GrpcFoundIffCanonical | scheduler/internal/runner/runner.go:325-376 | a gRPC step finds its interface in the map exactly when it spells the identifier canonically |
| Linking.OtherSpellingLost | scheduler/internal/runner/runner.go:350-376 | any other spelling of a stored identifier is linked under the printed one and not found |
| Linking.SevenWithZeros | scheduler/internal/runner/runner.go:350-376 | `007` is such a spelling |
| Decimal.FormatThenParse | scheduler/internal/runner/runner.go:309-321 | a printed number is read back as itself when it fits 64 bits, and refused when it does not |
| Decimal.OnlyNumbersParse | scheduler/internal/runner/runner.go:309-321 | only digits with an optional sign are read, and a plus sign means nothing |
| Wrappers.AliasExactly | scheduler/internal/runner/lowcode_api.go:406-466 | a display name has no alias exactly when it has no ASCII letter and is no identifier; every alias is an ASCII identifier and no keyword |
| WrapperNames.WordsRunTogether | scheduler/internal/runner/lowcode_api.go:425-466 | a name of several words, whatever separates them, has them as its alias, run together, each with a capital and otherwise small, leading digits dropped |
| WrapperNames.OneWord | scheduler/internal/runner/lowcode_api.go:425-466 | a single word with something behind it, likewise; a reserved word gets _api behind it |
| WrapperNames.ReservedWords | scheduler/internal/runner/lowcode_api.go:396-404 | there are 35 reserved words, and none of them is an identifier here |
| Wrappers.FreeName | scheduler/internal/runner/lowcode_api.go:640-652 | the suffix search returns the base or its smallest free suffix from 2 on, after at most one try more than names are in use |
| Wrappers.SortedMapKeys | scheduler/internal/runner/lowcode_api.go:468-483 | the keys of a map once each, in increasing order |
| Wrappers.BuildWrapperSpecs | scheduler/internal/runner/lowcode_api.go:604-654 | HTTP before gRPC, each by increasing identifier, every specification has its class name and the first name free of all classes and earlier aliases |
| Wrappers.OrderedDistinct | scheduler/internal/runner/lowcode_api.go:201-205 | when no identifier is both, all entries have distinct identifiers |
| Wrappers.NamesDiffer | scheduler/internal/runner/lowcode_api.go:604-654 | with distinct identifiers all class names and aliases the file defines differ, case ignored |
| Wrappers.BaseShadowedBy | scheduler/internal/runner/lowcode_api.go:604-654 | over every list of specifications: an alias is the name of a base class if and only if that is the readable alias of the entry and of no earlier entry, case ignored |
| Wrappers.RebasedExactly | scheduler/internal/runner/lowcode_api.go:671-691 | a later class inherits from an earlier specification instead of its base class if and only if the earlier one has that alias by the same condition |
| Wrappers.BaseKeptExactly | scheduler/internal/runner/lowcode_api.go:671-691 | a class inherits from the imported base class if and only if no specification before it does that |
| Wrappers.SecondInheritsFromFirst | scheduler/internal/runner/lowcode_api.go:671-691 | of two entries, the first called HttpAPI, the second inherits from the first |
| Wrappers.EarlierSpellingProtects | scheduler/internal/runner/lowcode_api.go:640-652 | an entry called httpapi before it gives the one called HttpAPI a suffix, and the base class stays |
| Wrappers.AliasesAreIdentifiers | scheduler/internal/runner/lowcode_api.go:604-654 | every alias given out, suffixed or not, is an ASCII identifier and no keyword |
| SchemaInference.BelowExactly | copilot/src/testpilot_copilot/jsonschema_gen.py:36-53 | the structural order on schemas is inclusion of the documents they describe, in the reading where no field is unlisted |
| SchemaInference.MergedIdempotent | copilot/src/testpilot_copilot/jsonschema_gen.py:36-53 | merging a schema with itself changes nothing |
| SchemaInference.MergedAssociative | copilot/src/testpilot_copilot/jsonschema_gen.py:36-53 | merging is associative, arrays included |
| SchemaInference.MergedCommutes | copilot/src/testpilot_copilot/jsonschema_gen.py:36-53 | the order of two schemas matters exactly when arrays with different items meet |
| SchemaInference.MergedIsAbove | copilot/src/testpilot_copilot/jsonschema_gen.py:36-53 | a merge covers its first argument always and its second exactly when no array items are dropped |
| SchemaInference.MergedIsLeast | copilot/src/testpilot_copilot/jsonschema_gen.py:36-53 | nothing smaller covers both |
| SchemaInference.MergeKeepsDocuments | copilot/src/testpilot_copilot/jsonschema_gen.py:36-53 | in that reading, a merge describes every document either side did if and only if no array items are dropped |
| SchemaInference.AdmitsExactly | copilot/src/testpilot_copilot/jsonschema_gen.py:36-53 | for validation under draft-07, where unlisted fields are unchecked: one schema accepts all that another does exactly when it does so structurally |
| SchemaInference.MergeKeepsConforming | copilot/src/testpilot_copilot/jsonschema_gen.py:36-53 | under draft-07 a merge accepts every document either side did if and only if meeting arrays lose nothing and a property only one side lists is unrestricted |
| SchemaInference.UnlistedFieldLost | copilot/src/testpilot_copilot/jsonschema_gen.py:36-53 | without any array, a field one side left unlisted becomes checked, and a document is lost |
| SchemaInference.MergeSchemas | copilot/src/testpilot_copilot/jsonschema_gen.py:36-53 | the nested loops over a list of schemas compute the left fold of the pairwise merge |
| SchemaInference.InferredDescribes | copilot/src/testpilot_copilot/jsonschema_gen.py:13-33 | a document conforms to the schema inferred from it, under JSON Schema draft-07 sections 6.1.1, 6.4.1 and 6.5.4, when no merge drops array items |
| SchemaInference.InferredIsLeast | copilot/src/testpilot_copilot/jsonschema_gen.py:13-53 | whatever schema describes a document without empty arrays, the inferred one is at least as strict |
| SchemaInference.OtherTypesRejected | copilot/src/testpilot_copilot/jsonschema_gen.py:13-33 | the schema of a document that is not null rejects documents of every other type, admits all scalars of its own, and lists exactly the fields of an object |
| SchemaInference.ConformExactly | copilot/src/testpilot_copilot/jsonschema_gen.py:36-53 | values standing in one place all conform to their merged schema if and only if, wherever arrays meet, the items of the later ones conform to what was made of the first |
| SchemaInference.InferredConformsExactly | copilot/src/testpilot_copilot/jsonschema_gen.py:13-53 | a document conforms to the schema inferred from it if and only if, inside it, later arrays fit the first in that sense |
| SchemaInference.DroppedItems | copilot/src/testpilot_copilot/jsonschema_gen.py:36-53 | `[[1], ["a"]]` does not conform to the schema inferred from it |
| OpenApiDiff.KeyIdentifies | scheduler/internal/impexp/openapi.go:332-334 | the text key identifies method and address |
| OpenApiDiff.Project.InsertApi | scheduler/internal/impexp/openapi.go:45-64 | inserts iff no row has method and address, and tells which row it is |
| OpenApiDiff.Project.ApplyDiff | scheduler/internal/impexp/openapi.go:342-404 | the new rows, and exactly which rows are reported as added, changed, breaking or removed |
| OpenApiDiff.EntriesStored | scheduler/internal/impexp/openapi.go:342-404 | every entry of the document is stored afterwards |
| OpenApiDiff.ColumnsBrought | scheduler/internal/impexp/openapi.go:371-388 | a stored interface says afterwards, column by column, what the document says; it is rewritten if and only if one of the three columns said something else, and keeps method and address |
| OpenApiDiff.BreakingExactly | scheduler/internal/impexp/openapi.go:451-466 | a change is breaking if and only if a parameter or header key listed before is no longer listed, or the stored body has a content type and the new one differs |
| OpenApiDiff.KeysListed | scheduler/internal/impexp/openapi.go:419-430 | which keys a column lists: those of its pairs, when it is a list of maps of strings |
| OpenApiDiff.BodyTypeRead | scheduler/internal/impexp/openapi.go:432-449 | the content type of a body: a number without its fraction, or a number as text; 0 when there is none |
| OpenApiDiff.ExactlyOneOutcome | scheduler/internal/impexp/openapi.go:342-404 | each stored interface is exactly one of unchanged, changed, breaking or removed, and none is deleted |
| OpenApiDiff.AddedIffRepeated | scheduler/internal/impexp/openapi.go:342-404 | a stored interface is reported as added exactly when the document repeats its key |
| OpenApiDiff.AppliedTwice | scheduler/internal/impexp/openapi.go:342-404 | applying the document again changes no row and reports the same removals; it reports nothing else if and only if the document repeats no key |

## Left out

- SchemaInference.InferredDescribes: one direction only, with a stricter conclusion; the exact condition for conforming is `InferredConformsExactly`.
- ApiDirectory.Query.Run: the checks that the project exists and belongs to the tenant come before it; when the chosen row lies deeper than 64 levels, nothing is said about the paths, which then depend on the order of the calls.
- OpenApiDiff.Project.ApplyDiff: asks that no two stored interfaces share method and address; with duplicates the code compares the one the database returns last. The summary texts, the parsing of the document and the rewriting of cases that refer to a changed interface are not modelled.
- Wrappers.BuildWrapperSpecs: documentation strings and default values of the classes are not modelled; names are lower-cased as ASCII, which every class name and alias is.
- StressReservation.StepKeepsExclusive: a reservation also stops hiding a worker after a time limit; that only makes the worker a candidate again, and the compare-and-swap still refuses it, although the comment there calls it reusable. The time limit is not modelled.
- RunStore.Store.Trigger: stated for an undisturbed loop; results that arrive while it runs are covered by the theorems over interleavings, not by this method.
- ProbeHub.Hub.Open: the round trip that opens the browser is a separate step; its failure does not undo the registration.
- RunStore.Store.HandleTaskResult: artifacts, quotas, waiters, events and metrics are not modelled; the branch for stress results is `StressRun.Dispatcher.HandleStressResult`, and untracking the task is `TaskIndex.Tracker.UntrackTask`.
- Linking.Case.Materialize: how a low-code source is scanned and its interfaces are loaded is not modelled; their snapshots are a parameter.
- Debug runs and single-case runs write statuses without a guard and are not part of the run machine.
- The choice of a worker for functional tasks and its concurrency limit: heartbeats overwrite the load, so no invariant holds.
- Races inside the task index between unlocking and deleting an emptied set: each operation is one step.
- PostgreSQL isolation anomalies, SQL errors and rollbacks other than the validation error of a result.
- Renaming folders, the project tree view, storing an imported curl request, Postman import, generated wrapper source text.
- Authentication, tenancy checks on projects (a boolean parameter here), audit, notifications, tracing.
- Unicode case mapping: upper and lower case are those of ASCII.
