# Verified model of the operations assistant

A model of the stateful and loop-heavy parts of the assistant: the session engine pool and history rehydration of the
server, the guest-side tools of the SSH harness (atomic edits, search, line windows, read guard, background jobs, command
splitting), and the capability layer's resolver, instance listing, field contracts and image selection. Methods follow the
program's loops and updates and are proved equal to specification functions; lemmas prove what those functions promise
over all inputs and all runs.

`dafny verify dfyconfig.toml` checks everything.

| module | what it models |
|---|---|
| `Options` | a value that may be absent |
| `PoolSpec`, `PoolProtocol`, `AgentPool` | the LRU pool of leased engines: the locked sections as functions, every interleaving of them as a transition system, and the pool as a class over its fields |
| `Rehydrate` | the backward, paged, budgeted walk over a session's history |
| `RemoteFiles`, `AtomicFile`, `AtomicFileClient`, `EditPlan` | a guest file system with faults and other writers; planning and applying an atomic edit on it, as functions over the world and as step-by-step methods |
| `GuestSearch`, `GuestPaths` | the bounded breadth-first search, and what it finds said over the paths of the tree |
| `ReadGuard` | the guard against repeated reads without progress |
| `JobLedger` | the slots and listing of background jobs |
| `Trimming`, `CommandSplit` | quote-aware splitting of shell text |
| `LineWindow` | line windows with UTF-8 clipping |
| `AccountPaging` | the two-store instance listing |
| `FieldContract` | the rendered JSON Schema against the run-time validator |
| `ImageBreadth` | one community image per family before a second of any |
| `SlotCodecs`, `Resolver` | normalising slot values against live catalogs, and resolving a whole proposal |

## What the proofs brought to light

Behaviour of the code that differs from what its documentation suggests. Each is a lemma with a concrete run or input, and
next to it stands the exact condition under which the promise does hold.

- An edit can be reported as `box_may_be_changed = false` although another writer's file was lost: the re-check and the
  rename are two calls, and so are the verification and the rollback (`AtomicFile.LostUpdate`,
  `AtomicFile.LostUpdateBeforeRollback`, `AtomicFile.UnchangedReportIsExact`).
- A successful edit can lose another writer's file too, and the backup then holds the older original
  (`AtomicFile.LostUpdateOnSuccess`, `AtomicFile.SuccessKeepsTheReplacedIff`).
- `truncated` does not mean that matches are missing: the flag is also set when the very last match reaches the cap, or a
  budget ends before steps without matches (`GuestSearch.TruncatedWithoutLoss`, the two conditions in `GuestSearch.Scan`).
- `str.count` counts without overlaps, so a fragment counted once may occur twice; this is impossible exactly for
  fragments without a border (`EditPlan.CountOneIsUniqueIff`, `EditPlan.OverlappingText`).
- `"NaN"` and `"Inf"` are numbers to the number codec and compare as equal duplicates, so slot order can decide the
  argument (`Resolver.NaNOrInfByOrder`, `Resolver.ArgumentsIgnoreOrderIff`).
- `"Inf"` is a positive integer to the integer and capacity codecs (`SlotCodecs.InfPassesAsInteger`,
  `SlotCodecs.AcceptedIntegerIff`, `Resolver.IntegerArgumentIff`).
- A blank name in the machine-type catalog can be resolved to, and is then refused when confirmed
  (`SlotCodecs.BlankMachineName`, `SlotCodecs.MachineAgain`, `Resolver.ConfirmationIsAFixedPoint`).
- The empty string passes the validator of every enumeration but no schema without an empty member
  (`FieldContract.EmptyMemberIsTheGap`).
- A line longer than a window makes the rest of the text unreachable through `next_line`
  (`LineWindow.WalkStopsAtLongLine`, `LineWindow.WalkIsCompleteIff`).
- Beyond 100 pages the listing is incomplete; its total shows it if the stores report theirs, and otherwise nothing does
  (`AccountPaging.CompleteExactlyWithinTheBound`, `AccountPaging.UncountedIsCompleteIff`).

## Model

| member | source | states |
|---|---|---|
| `PoolSpec.EvictDownToKeeps` | internal/agentpool/pool.go:201-204 | evicting down to a bound takes idle entries only, never one touched later than an idle entry that stays, ends at the bound or with nothing idle, and keeps map, list and order consistent |
| `PoolSpec.LastIdleIsOldest` | internal/agentpool/pool.go:265-276 | no idle entry was touched earlier than the one an eviction removes |
| `PoolSpec.HitKeeps` | internal/agentpool/pool.go:171-180 | a hit keeps the bijection of map and list, the recency order and the soft capacity, and the set of entries |
| `PoolSpec.InsertKeeps` | internal/agentpool/pool.go:190-214 | making room and inserting keeps them too |
| `PoolSpec.ReleaseKeeps` | internal/agentpool/pool.go:145-159 | so does giving back a lease, whether or not the entry is still leased and pooled; entries go only if the pool was over its capacity, never below it, and only idle ones untouched for longest |
| `PoolSpec.SweepKeeps` | internal/agentpool/pool.go:243-261 | so does the idle sweep |
| `PoolSpec.ItemsAndListAgree` | internal/agentpool/pool.go:167-215 | map and list always have the same size |
| `PoolProtocol.StepKeepsInv` | internal/agentpool/pool.go:140-261 | every enabled atomic section of any caller, of a sweep or of the clock keeps the whole invariant (views, order, counts, mutual exclusion, soft capacity) |
| `PoolProtocol.RunKeepsInv` | internal/agentpool/pool.go:140-261 | the invariant holds in every state of every interleaving |
| `PoolProtocol.RunExtends` | internal/agentpool/pool.go:140-261 | no run gets stuck on an undefined section: every enabled action extends it |
| `PoolProtocol.OneEnginePerSession` | internal/agentpool/pool.go:140-215 | in every state of every run a key has at most one leased entry, it is the cached one, and at most one caller holds its engine |
| `PoolProtocol.CountsAndOrderAreExact` | internal/agentpool/pool.go:140-215 | `leases` equals the number of outstanding leases, map and list are in bijection with matching keys, and the list is sorted by last touch |
| `PoolProtocol.ReleaseGuardsHold` | internal/agentpool/pool.go:147-155 | the guards in the release closure never fail: the lease is counted and the entry is still the cached one |
| `PoolProtocol.CapacityIsSoft` | internal/agentpool/pool.go:145-159 | whenever the lock is free the pool is within its capacity or every entry is leased, so its size is at most the larger of the capacity and the outstanding leases |
| `PoolProtocol.SweepIsExact` | internal/agentpool/pool.go:243-261 | in every run a sweep removes exactly the unleased entries not touched since its deadline, which is the time of its start less the TTL, and changes no record |
| `PoolProtocol.ReleaseIsExact` | internal/agentpool/pool.go:147-159 | in every run a release takes one lease off its entry and stamps it; it evicts only from a pool over its capacity, never below the capacity, only idle entries, and none that was touched later than an idle one that stays |
| `PoolProtocol.InsertionIsExact` | internal/agentpool/pool.go:201-214 | in every run an insertion puts a fresh record with one lease in front; it evicts only from a full pool and leaves at least capacity - 1 others, and only the oldest idle entries go |
| `PoolProtocol.HitIsExact` | internal/agentpool/pool.go:170-199 | in every run a hit, or a build that lost the race, adds one lease to the cached entry, stamps it and puts it in front; nothing is evicted and the engine stays |
| `PoolProtocol.OthersLeaveThePool` | internal/agentpool/pool.go:140-261 | no other section changes the pool |
| `AgentPool.SessionPool.constructor` | internal/agentpool/pool.go:94-127 | non-positive options fall back to the defaults and the pool starts empty |
| `AgentPool.SessionPool.LeaseCached` | internal/agentpool/pool.go:170-180 | the in-place hit is the specified one, and a miss changes nothing |
| `AgentPool.SessionPool.EvictOneIdle` | internal/agentpool/pool.go:265-276 | the backward walk removes the specified entry, and says whether there was one |
| `AgentPool.SessionPool.EvictWhileOver` | internal/agentpool/pool.go:201-204 | the eviction loop equals the specified eviction down to its bound |
| `AgentPool.SessionPool.InsertOrJoin` | internal/agentpool/pool.go:188-215 | after a build the caller joins the entry another caller inserted, or inserts its own after making room |
| `AgentPool.SessionPool.ReleaseLease` | internal/agentpool/pool.go:145-159 | the release under the lock equals the specified one; the map stays as it was unless it was over the capacity, keeps at least that many entries, and loses only idle ones untouched for longest |
| `AgentPool.SessionPool.EvictIdle` | internal/agentpool/pool.go:243-261 | the walk that breaks at the first recent entry removes what a sweep without any order removes |
| `AgentPool.RecentPrefixStays` | internal/agentpool/pool.go:247-253 | in front of a recently touched entry a full sweep would remove nothing, which justifies the break |
| `Rehydrate.ReadPage` | internal/agentpool/rehydrate.go:74-104 | the loop body over one page keeps the walk's variables equal to the forward grouping of the rows seen, and stops when a turn no longer fits |
| `Rehydrate.OldestFirst` | internal/agentpool/rehydrate.go:111-119 | the kept turns come out flattened in chronological order, each as `Rehydrate.TurnStandsWhole` says |
| `Rehydrate.TurnStandsWhole` | internal/agentpool/rehydrate.go:79-99 | a turn stands in the history as its user message with its answer, if any, right behind it |
| `Rehydrate.LoadRecentHistory` | internal/agentpool/rehydrate.go:60-120 | the whole walk equals forward grouping followed by the budgeted suffix; `Rehydrate.HistoryIsExact` and `Rehydrate.ErrorIff` say what that is in terms of the rows |
| `Rehydrate.CutIsLongest` | internal/agentpool/rehydrate.go:60-120 | the kept suffix fits the budget, is the longest that does, always has the newest turn, and is everything without a budget |
| `Rehydrate.CutIsUnique` | internal/agentpool/rehydrate.go:60-120 | only one suffix has that property |
| `Rehydrate.OlderRowsDoNotMatter` | internal/agentpool/rehydrate.go:93-107 | once a turn no longer fits, no older rows can change the answer |
| `Rehydrate.TurnsConcat` | internal/agentpool/rehydrate.go:79-99 | grouping splits at a user message: the turns of older and newer messages are grouped independently |
| `Rehydrate.NonEmptyPagesAreAllRead` | internal/agentpool/rehydrate.go:69-109 | with non-empty pages the walk reaches every row |
| `Rehydrate.PageSizeDoesNotMatter` | internal/agentpool/rehydrate.go:60-120 | for any division of the rows into non-empty pages the result is the budgeted suffix of the chronological turns: the messages in turns of the visible rows, from one user message on |
| `Rehydrate.HistoryIsExact` | internal/agentpool/rehydrate.go:60-120 | over the visible messages in chronological order, by position: from one user message on, exactly the user messages and each assistant message directly behind one, in that order; the longest such history within the budget, always with the newest turn, everything without a budget |
| `Rehydrate.VisibleRowIsExact` | internal/agentpool/rehydrate.go:36-53 | a row is visible if and only if it is an ok user or assistant row, or an interrupted assistant row, whose content is then blanked and whose metadata is kept |
| `Rehydrate.VisibleIsInOrder` | internal/agentpool/rehydrate.go:36-53 | the visible messages stay in the order of the rows |
| `Rehydrate.ErrorIff` | internal/agentpool/rehydrate.go:69-109 | an error is returned if and only if a failing page is met while all turns before it fit |
| `RemoteFiles.ReadRegularFacts` | deploy/ssh_ops_harness/atomic_file.py:164-176 | a read changes nothing and tells the truth about a path nobody else writes, refusing links, special and over-large files |
| `RemoteFiles.WriteNewFacts` | deploy/ssh_ops_harness/atomic_file.py:319-328 | a new private file has exactly its bytes, mode and owner, or its creation is reported as failed; nothing else changes |
| `RemoteFiles.PosixRenameFacts` | deploy/ssh_ops_harness/atomic_file.py:439 | the replacing rename moves source over target or does nothing, and a lost reply hides which |
| `RemoteFiles.RenameFacts` | deploy/ssh_ops_harness/atomic_file.py:361 | the creating rename moves only to a path that was free when the call arrived |
| `AtomicFile.ReplaceOkIsApplied` | deploy/ssh_ops_harness/atomic_file.py:415-497 | under every schedule of faults and other writers, success means the planned bytes, mode and owner at the target and the original in the backup |
| `AtomicFile.UnchangedMeansUnchanged` | deploy/ssh_ops_harness/atomic_file.py:455-497 | false or absent `box_may_be_changed`: this run never touched the target, or its very last change put the approved original back; when no other writer is scheduled to change the target it is as it was |
| `AtomicFile.OriginalIsNeverLost` | deploy/ssh_ops_harness/atomic_file.py:415-497 | whatever other writers do: in every state of the run, also between the calls and in the lost-reply and rollback branches, in which they alone would have left the original at the target, it is there or in the backup |
| `AtomicFile.UncontestedOriginalIsNeverLost` | deploy/ssh_ops_harness/atomic_file.py:415-497 | when no other writer is scheduled to change the target, that is every state of the run |
| `AtomicFile.OwnChangesAreRecoverable` | deploy/ssh_ops_harness/atomic_file.py:415-497 | with other writers before every call but those between a rename and its verification: each change this run makes to the target leaves the original recoverable, and so does the run unless it left the target alone |
| `AtomicFile.UnchangedReportIsExact` | deploy/ssh_ops_harness/atomic_file.py:427-489 | an unchanged report means the target is what the other writers alone would have left, always if no rename was reported done, and after a rollback if and only if the approved original is what a writer left just before the rollback or, if none wrote then, what the rename found |
| `AtomicFile.LostUpdate` | deploy/ssh_ops_harness/atomic_file.py:422-489 | a run that reports no change although the file another writer put there between re-check and rename is gone |
| `AtomicFile.LostUpdateBeforeRollback` | deploy/ssh_ops_harness/atomic_file.py:439-489 | a run that reports no change although the file another writer put there between verification and rollback is gone, the rename having found the approved original |
| `AtomicFile.SuccessKeepsTheReplacedIff` | deploy/ssh_ops_harness/atomic_file.py:427-476 | after a success, what the other writers alone would have left is at the target or in the backup if and only if the rename found nothing, the approved original or the planned file already |
| `AtomicFile.LostUpdateOnSuccess` | deploy/ssh_ops_harness/atomic_file.py:427-450 | a successful run after which a file written between re-check and rename is neither at the target nor in the backup |
| `AtomicFile.ReplaceSucceedsUndisturbed` | deploy/ssh_ops_harness/atomic_file.py:415-450 | without faults and other writers an approved replacement succeeds |
| `AtomicFile.OnlyTheApprovedIsReplaced` | deploy/ssh_ops_harness/atomic_file.py:424-434 | under every schedule: if the re-check sees other bytes, mode, owner or resolved path than the approved ones, the target is left alone, no success and no possible change is reported, and the refusal names the first difference |
| `AtomicFile.AnsweredReplaceIsExact` | deploy/ssh_ops_harness/atomic_file.py:439-488 | a rename whose reply arrived is a success if and only if the planned bytes are seen at the target; otherwise it is taken back, and the report says whether that worked |
| `AtomicFile.UnansweredReplaceIsExact` | deploy/ssh_ops_harness/atomic_file.py:455-484 | one whose reply was lost is a success if and only if the planned file is seen, an unchanged failure if and only if the original is, and otherwise unknown, with the backup kept |
| `AtomicFile.ReplaceSucceedsUndisturbedIff` | deploy/ssh_ops_harness/atomic_file.py:415-450 | without faults and other writers a replacement succeeds if and only if the target is the approved file, its path resolves to the approved place, and both sizes are within the bound |
| `AtomicFile.UndisturbedReplaceIsExact` | deploy/ssh_ops_harness/atomic_file.py:415-497 | and then a success changes exactly target and backup, and anything else leaves every file as it was |
| `AtomicFile.CreateIsSafe` | deploy/ssh_ops_harness/atomic_file.py:337-412 | under every schedule nothing that exists is overwritten, success means the approved bytes and mode at the target, and any report but true means this run did not create it |
| `AtomicFile.CreateSucceedsUndisturbed` | deploy/ssh_ops_harness/atomic_file.py:337-399 | without faults and other writers an approved creation succeeds |
| `AtomicFile.OnlyTheApprovedIsCreated` | deploy/ssh_ops_harness/atomic_file.py:346-354 | the same for a creation: the target must be absent, the parent a directory of the approved mode and owner, and the resolved path the approved one |
| `AtomicFile.AnsweredCreateIsExact` | deploy/ssh_ops_harness/atomic_file.py:386-399 | a creating rename whose reply arrived is a success if and only if the planned bytes and mode are seen; otherwise the guest is reported as possibly changed |
| `AtomicFile.UnansweredCreateIsExact` | deploy/ssh_ops_harness/atomic_file.py:363-385 | one whose reply was lost is a success, an unchanged failure, a creation by others or an unknown outcome, exactly by what is seen at the target |
| `AtomicFile.CreateSucceedsUndisturbedIff` | deploy/ssh_ops_harness/atomic_file.py:337-399 | without faults and other writers a creation succeeds if and only if target, directory and resolved path are as approved |
| `AtomicFile.UndisturbedCreateIsExact` | deploy/ssh_ops_harness/atomic_file.py:337-412 | and then a success adds exactly the approved file, and anything else leaves every file as it was |
| `AtomicFileClient.ApplyReplace` | deploy/ssh_ops_harness/atomic_file.py:415-497 | the step-by-step code with its flags and `finally` block leaves the world and result of the specification, whose re-check, verdicts and effects the `AtomicFile` laws pin |
| `AtomicFileClient.ApplyCreate` | deploy/ssh_ops_harness/atomic_file.py:337-412 | the same for a creation |
| `EditPlan.Find` | deploy/ssh_ops_harness/atomic_file.py:261-265 | the leftmost occurrence of the fragment, or none exactly when it does not occur |
| `EditPlan.CountOneIff` | deploy/ssh_ops_harness/atomic_file.py:261-264 | the count is one if and only if all occurrences start within the leftmost one |
| `EditPlan.CountOneIsUniqueIff` | deploy/ssh_ops_harness/atomic_file.py:261-264 | a count of one means a single occurrence in every text if and only if no proper prefix of the fragment is also its suffix |
| `EditPlan.OverlappingText` | deploy/ssh_ops_harness/atomic_file.py:261-264 | for every other fragment, a text with a count of one and two occurrences |
| `EditPlan.PlanFacts` | deploy/ssh_ops_harness/atomic_file.py:251-276 | planning changes nothing; a plan is for the expected digest, within the size bound, and exchanges exactly one fragment |
| `EditPlan.SuccessIsTheApprovedEdit` | deploy/ssh_ops_harness/atomic_file.py:251-497 | whatever happens between planning and applying, success means the target is the expected bytes with that one fragment exchanged, and the expected bytes are in the backup |
| `EditPlan.QuietEditSucceeds` | deploy/ssh_ops_harness/atomic_file.py:251-276 | on a quiet guest a plan is made exactly when digest, encoding, count and size fit, and applying it then succeeds |
| `EditPlan.QuietEditDeclines` | deploy/ssh_ops_harness/atomic_file.py:251-307 | on a quiet guest an edit is declined with the reason of the first thing that is wrong: absence, kind, size, digest, encoding, count, size of the result |
| `EditPlan.CreatePlanFacts` | deploy/ssh_ops_harness/atomic_file.py:233-248 | planning a creation changes nothing, carries the request over, and saw an absent target in a real directory |
| `EditPlan.QuietCreateSucceeds` | deploy/ssh_ops_harness/atomic_file.py:233-248 | on a quiet guest a creation is planned exactly when the target is absent below a directory, and then succeeds |
| `EditPlan.QuietCreateDeclines` | deploy/ssh_ops_harness/atomic_file.py:233-307 | and a creation with the reason of the first thing that is wrong with target or parent |
| `GuestSearch.ScanLines` | deploy/ssh_ops_harness/guest_search.py:141-149 | a file's matching lines are appended in order up to the cap |
| `GuestSearch.ScanFile` | deploy/ssh_ops_harness/guest_search.py:117-151 | a file is counted, charged if it decodes, and searched, or the search stops before it because a budget does not suffice for it |
| `GuestSearch.VisitEntry` | deploy/ssh_ops_harness/guest_search.py:92-151 | one entry contributes the specified matches and at most one queued directory, nothing when not allowed or a link, and stops the search exactly at the cap or at a budget; how deep the search goes is `GuestPaths.SearchTree` |
| `GuestSearch.ScanEntries` | deploy/ssh_ops_harness/guest_search.py:91-153 | the entries of a directory are gone through in order and paid for one by one, up to the entry where the search stops |
| `GuestSearch.Scan` | deploy/ssh_ops_harness/guest_search.py:73-163 | on any tree: the matches are a prefix of the search without budgets; `truncated` is set if and only if the cap is reached or some step finds a budget too small; matches are missing if and only if more than the cap exist or one comes at or after such a step; untruncated, none is missing (which ones those are is `GuestPaths.FoundIff`) and the counters are exact; every budget is kept and find goes by depth |
| `GuestSearch.TraceHoldsBfs` | deploy/ssh_ops_harness/guest_search.py:84-153 | the steps that are paid for hold the matches in breadth-first order |
| `GuestSearch.StoppedFacts` | deploy/ssh_ops_harness/guest_search.py:85-153 | where a stopped search is: truncation is due, and matches are missing if and only if the condition for a loss holds |
| `GuestSearch.FindSpendsDirectories` | deploy/ssh_ops_harness/guest_search.py:85-90 | for find the budgets suffice if and only if the directories do not exceed their limit |
| `GuestSearch.TruncatedWithoutLoss` | deploy/ssh_ops_harness/guest_search.py:106-110 | a root with one file and a cap of one: truncation is due although nothing is missing |
| `GuestSearch.BfsIsEverythingBelow` | deploy/ssh_ops_harness/guest_search.py:73-163 | the queue visits what a plain recursive descent visits, each match as often |
| `GuestSearch.FindGoesDeeperOnly` | deploy/ssh_ops_harness/guest_search.py:102-113 | find's matches come in non-decreasing depth |
| `GuestPaths.FoundIff` | deploy/ssh_ops_harness/guest_search.py:84-153 | over paths of the tree: a find without budgets holds a path if and only if its depth is within max_depth, all but its last item are allowed directories, and the last is an allowed file or directory whose name hits; a search holds a line if and only if it hits in a decodable file of fitting name and size at the end of such a path, at any depth; each as often as there are paths |
| `GuestPaths.SearchTree` | deploy/ssh_ops_harness/guest_search.py:73-163 | the search a caller gets: every match is one of those, and an untruncated result holds exactly those, as often; its counters are the allowed directories within the depth, the files opened and decoded, and their bytes |
| `GuestPaths.CostsArePaths` | deploy/ssh_ops_harness/guest_search.py:85-140 | what an unbounded search spends: each allowed directory once, each eligible file once, the sizes of those that decode |
| `GuestPaths.TruncatedIff` | deploy/ssh_ops_harness/guest_search.py:84-125 | truncation is due if and only if the matches reach the cap, the allowed directories or eligible files exceed their limits, or a file does not fit into the bytes left; if all decode, that is when their sizes exceed the limit |
| `ReadGuard.ReadProgressGuard.constructor` | deploy/ssh_ops_harness/harness.py:936-942 | the window is at least one second and nothing is recorded |
| `ReadGuard.ReadProgressGuard.Check` | deploy/ssh_ops_harness/harness.py:967-1011 | the in-place check equals the specified one, refusal counts and stop included |
| `ReadGuard.ReadProgressGuard.Record` | deploy/ssh_ops_harness/harness.py:1013-1045 | so does recording an observation |
| `ReadGuard.ReadProgressGuard.AdvanceEpoch` | deploy/ssh_ops_harness/harness.py:1047-1050 | a change of the guest drops all entries and never the stop |
| `ReadGuard.RunKeepsInv` | deploy/ssh_ops_harness/harness.py:933-1050 | in every run with serial calls per key, every entry describes the log of its read |
| `ReadGuard.SameCountsTheTrailingRun` | deploy/ssh_ops_harness/harness.py:1013-1045 | the counter equals the trailing run of equal observations with gaps inside the window, and never exceeds two |
| `ReadGuard.RefusalIsExact` | deploy/ssh_ops_harness/harness.py:967-1011 | a check is refused if and only if the run is stopped or two equal observations stand, the last within the window |
| `ReadGuard.StopIsExactAndFinal` | deploy/ssh_ops_harness/harness.py:989-1011 | the stop is raised if and only if some read was refused twice with no observation of it and no change in between; it is never taken back, and every later check is refused |
| `ReadGuard.StopIsAskedForExactly` | deploy/ssh_ops_harness/harness.py:967-1011 | a refusal asks for the stop if and only if the run is stopped from then on |
| `JobLedger.HandshakeFits` | deploy/ssh_ops_harness/harness.py:470-482 | an accepted handshake holds at most the maximum of slots, free and taken together |
| `JobLedger.HandshakeIsExact` | deploy/ssh_ops_harness/harness.py:453-482 | a handshake is accepted if and only if it has at most 32 handles, all active, of different jobs, and a fitting capacity; each job is restored in the state handed over, and the free slots are the declared ones or what the handles leave of 32 |
| `JobLedger.LaunchStateIsExact` | deploy/ssh_ops_harness/remote_job.py:212-235 | a launch is started if and only if the launcher exited with 0, not found if and only if it cannot have taken effect, and unknown otherwise |
| `JobLedger.BackgroundJobs.TryReserve` | deploy/ssh_ops_harness/harness.py:2196-2229 | a launch takes a slot and lists its job, or is refused without one |
| `JobLedger.BackgroundJobs.LaunchReturned` | deploy/ssh_ops_harness/harness.py:2233-2248 | the returned state updates the ledger as specified |
| `JobLedger.BackgroundJobs.PollReturned` | deploy/ssh_ops_harness/harness.py:2501-2507 | a terminal state gives the slot of a listed job back, any other changes nothing |
| `JobLedger.StepConserves` | deploy/ssh_ops_harness/harness.py:2196-2248 | when jobs are polled only after their launch returned, no step fails or changes the number of slots held |
| `JobLedger.SlotsAreConserved` | deploy/ssh_ops_harness/harness.py:2196-2248 | over every run free slots plus active jobs stay constant, free slots never negative and never over the maximum |
| `JobLedger.StartedJobsStayListed` | deploy/ssh_ops_harness/remote_job.py:190-235 | a job whose launcher may have taken effect stays active until a poll reports a terminal state |
| `JobLedger.RestoredJobsStayListed` | deploy/ssh_ops_harness/harness.py:470-482 | so does a job restored by the handshake |
| `JobLedger.ListIsExact` | deploy/ssh_ops_harness/harness.py:2228-2248 | at every point of every run a job is listed if and only if it was restored or reserved and neither a terminal poll nor a launch without effect has taken it off; the free slots are the initial ones, less the jobs listed more |
| `JobLedger.StatesAreExact` | deploy/ssh_ops_harness/harness.py:2228-2248 | and it is listed as unknown until its launch call returned, in the state of that launch from then on, and as handed over if it was restored |
| `JobLedger.PolledJobsWereListed` | deploy/ssh_ops_harness/harness.py:2482-2493 | a poll that is under way was made of a job listed at the time, whose launch call had returned |
| `JobLedger.LaunchReturnConservesIff` | deploy/ssh_ops_harness/harness.py:2240-2248 | a returning launch conserves the slots if and only if its job is still listed |
| `JobLedger.EarlyPollWouldGainASlot` | deploy/ssh_ops_harness/harness.py:2501-2507 | hypothetical, and what the assumption on polls is for: the run in which a job polled before its launch call returns gives its slot back twice; no caller knows the id by then |
| `CommandSplit.MaskQuoted` | deploy/ssh_ops_harness/guardrails.py:590-604 | the loop blanks exactly the content of quoted spans and keeps offsets |
| `CommandSplit.CountBackslashes` | deploy/ssh_ops_harness/guardrails.py:2483-2488 | the loop counts the maximal run of backslashes before an index |
| `CommandSplit.StripAll` | deploy/ssh_ops_harness/guardrails.py:2493 | pieces are stripped and blank ones dropped, in order, as `CommandSplit.NonBlankIsExact` says |
| `CommandSplit.SplitAt` | deploy/ssh_ops_harness/guardrails.py:2467-2498 | the loop equals cutting at every unescaped separator of the mask |
| `CommandSplit.SplitConditionals` | deploy/ssh_ops_harness/guardrails.py:2501-2523 | the same for control-flow separators at parenthesis depth 0 |
| `CommandSplit.SplitCutsExactly` | deploy/ssh_ops_harness/guardrails.py:2467-2493 | in terms of the command alone: a cut is at a position if and only if it stands outside quotes after an even number of backslashes, and a separator starts there that is not the second half of a doubled one |
| `CommandSplit.PiecesRebuild` | deploy/ssh_ops_harness/guardrails.py:2475-2492 | the unstripped pieces with their separators are the command |
| `CommandSplit.SplitAtRebuilds` | deploy/ssh_ops_harness/guardrails.py:2467-2498 | the pieces with their separators rebuild the command, and every returned piece splits to itself alone |
| `CommandSplit.SplitAgainIsAlone` | deploy/ssh_ops_harness/guardrails.py:2467-2498 | a returned piece, split again, is the only piece |
| `CommandSplit.SplitConditionalsCutsExactly` | deploy/ssh_ops_harness/guardrails.py:2501-2522 | in terms of the command alone: a control-flow cut is at a position if and only if it stands outside quotes, unescaped, at parenthesis depth 0 counted outside quotes, and a separator starts there that is not the second half of a doubled one |
| `CommandSplit.SplitConditionalsRebuilds` | deploy/ssh_ops_harness/guardrails.py:2501-2523 | the same for control flow |
| `CommandSplit.SplitConditionalAgainIsAlone` | deploy/ssh_ops_harness/guardrails.py:2501-2523 | a returned control-flow piece, split again, is the only piece |
| `CommandSplit.SplitReturnsExactly` | deploy/ssh_ops_harness/guardrails.py:2467-2493 | a text is returned if and only if it is not blank and is a stretch between two neighbouring cuts, or a cut and an end of the command, stripped; each cut is as wide as its separator |
| `CommandSplit.SplitConditionalsReturnsExactly` | deploy/ssh_ops_harness/guardrails.py:2501-2523 | the same for control flow |
| `CommandSplit.NonBlankIsExact` | deploy/ssh_ops_harness/guardrails.py:2493 | no piece but a blank one is dropped, and the order is kept |
| `CommandSplit.StripIsExact` | deploy/ssh_ops_harness/guardrails.py:2493 | stripping takes off all blanks at both ends and nothing else, and leaves nothing if and only if all is blank |
| `CommandSplit.QuoteSpans` | deploy/ssh_ops_harness/guardrails.py:590-604 | outside quotes a quote character opens a span that ends at the same character and at nothing else, and no other character opens one |
| `CommandSplit.WidthIsExact` | deploy/ssh_ops_harness/guardrails.py:2463-2464 | the separators are the doubled ones, then ; | and newline for chains, and ; and newline for control flow |
| `CommandSplit.BackslashesAreTheRun` | deploy/ssh_ops_harness/guardrails.py:2483-2488 | the backslashes counted are the whole run in front of the character |
| `CommandSplit.DepthIsGreatestBalance` | deploy/ssh_ops_harness/guardrails.py:2510-2513 | the depth is the greatest excess of opening over closing parentheses of any stretch that ends there |
| `LineWindow.BoundaryIsNear` | deploy/ssh_ops_harness/remote_text.py:151-157 | a cut into valid text is at most three bytes behind a character boundary (section 3 of RFC 3629) |
| `LineWindow.ClipLine` | deploy/ssh_ops_harness/remote_text.py:151-157 | dropping trailing bytes until the fragment decodes gives the longest valid prefix within the bound |
| `LineWindow.TakeLines` | deploy/ssh_ops_harness/remote_text.py:145-161 | the loop takes as many whole lines as fit, or the clipped first line |
| `LineWindow.SelectWindow` | deploy/ssh_ops_harness/remote_text.py:132-177 | the window and its flags are the specified ones and at most 32 KiB |
| `LineWindow.WindowIsExact` | deploy/ssh_ops_harness/remote_text.py:132-177 | for any start and count: no window past the end; an over-long first line alone, clipped and flagged; else the lines up to the count, the end or the last that fits, with `line_end`, `truncated` and `next_line` following from that end |
| `LineWindow.CharIsEncoded` | deploy/ssh_ops_harness/remote_text.py:151-157 | a well-formed character is at the front if and only if the bytes begin with the encoding of a scalar value (section 3 of RFC 3629) |
| `LineWindow.WalkReadsEverything` | deploy/ssh_ops_harness/remote_text.py:132-177 | when every line fits, the windows reached through next_line, whatever line count is asked for at each call, concatenate to the text in at most one call per line, each within the bound |
| `LineWindow.WalkStopsAtLongLine` | deploy/ssh_ops_harness/remote_text.py:148-167 | otherwise the walk, whatever the counts, stops at the first over-long line, flags it, and falls short of the text |
| `LineWindow.WalkIsCompleteIff` | deploy/ssh_ops_harness/remote_text.py:132-177 | whatever the counts, following next_line from line 1 recovers the text if and only if no line is longer than a window |
| `AccountPaging.NewestFirstFacts` | internal/capability/describe_instances.go:102-108 | the sort is a permutation, descending in creation time, and keeps rows of one time in order |
| `AccountPaging.MergePage` | internal/capability/describe_instances.go:69-83 | a page's rows with a new id are appended, ids stay distinct |
| `AccountPaging.KeptIsExact` | internal/capability/describe_instances.go:69-83 | of the rows that arrive, one more is kept if and only if it has an id that no earlier one had, and it is kept last |
| `AccountPaging.DescribeAll` | internal/capability/describe_instances.go:38-112 | for any upstream: pages are asked for up to the first after which every reported total is reached, none is reported and the page is short, or no row is new, at most 100; an error is returned if and only if the last call failed; otherwise the rows are the first of every id, newest first, and the total is the greatest of the reported ones and their number |
| `AccountPaging.CollectsTheRest` | internal/capability/describe_instances.go:45-94 | from any page still needed, the walk over two stores ends with every row it may read |
| `AccountPaging.TwoStoresAreListed` | internal/capability/describe_instances.go:38-112 | two stores with distinct ids and an exact total come back once each, stably sorted |
| `AccountPaging.CompleteExactlyWithinTheBound` | internal/capability/describe_instances.go:38-112 | every instance is returned if and only if 100 pages hold the longer store; beyond, the total exceeds the rows |
| `AccountPaging.UncountedIsCompleteIff` | internal/capability/describe_instances.go:86-94 | without reported totals the two stores come back whole if and only if 100 pages hold the longer one, and the total never shows that rows are missing |
| `FieldContract.SchemaIsValidatorPlusShape` | internal/capability/field_contract.go:137-238 | at any depth the rendered schema accepts a value if and only if it passes `validate` and has the shape the validator leaves to others (sections 6.1.2, 6.2.2 and 6.2.4 of JSON Schema Validation, draft 2020-12) |
| `FieldContract.ValidatesIff` | internal/capability/field_contract.go:187-238 | a value passes if and only if no declared and present part of it, at any depth, is a non-empty string outside its enumeration or a number outside its range |
| `FieldContract.EmptyMemberIsTheGap` | internal/capability/field_contract.go:189-199 | on strings the two differ exactly for the empty string where it is no member |
| `ImageBreadth.CollectRows` | internal/capability/read_image_list.go:607-627 | one group's usable versions, with the seen keys carried along; which ones those are is `ImageBreadth.KeptRowsAreExact` |
| `ImageBreadth.GroupVersionRows` | internal/capability/read_image_list.go:603-633 | the nested loop equals the specified grouping |
| `ImageBreadth.GroupedFacts` | internal/capability/read_image_list.go:603-633 | no version is listed twice, no family is empty, and exactly the catalogued ids are listed |
| `ImageBreadth.KeptRowsAreExact` | internal/capability/read_image_list.go:607-627 | a version is kept if and only if it has an id, the catalog knows it, and no earlier version showed it; the kept ones stay in order |
| `ImageBreadth.FamiliesAreExact` | internal/capability/read_image_list.go:603-633 | the versions of a group that no earlier group showed are the next family, unless there are none |
| `ImageBreadth.Select` | internal/capability/read_image_list.go:556-573 | the round-robin shows the first min(cap, total) positions of the depth-by-depth order |
| `ImageBreadth.BreadthBeforeDepth` | internal/capability/read_image_list.go:556-573 | the positions shown are distinct, and each comes after every shallower one of every family and every equally deep one of an earlier family |
| `ImageBreadth.CoverageIsExact` | internal/capability/read_image_list.go:640-645 | the families covered number what the closed form says |
| `ImageBreadth.PositionsHoldDistinctKeys` | internal/capability/read_image_list.go:603-633 | where no id is listed twice, different positions hold different ids |
| `ImageBreadth.ShowImages` | internal/capability/read_image_list.go:553-580 | from the catalog to the answer: min(cap, total) versions, no id twice, all catalogued, one of every family before a second of any, and the coverage figure exact |
| `SlotCodecs.MachineTypeIsExact` | internal/actionresolver/machinetype.go:49-74 | a machine type resolves to c if and only if c is the value itself, or else the only listed name equal but for case, or else the only one equal but for case and separators |
| `SlotCodecs.MachineTypeKeepsTheProduct` | internal/actionresolver/machinetype.go:41-120 | what it resolves to or offers is listed and folds like the value, candidates are several, and it is unknown exactly when no name folds like it |
| `SlotCodecs.MatchNamesFacts` | internal/actionresolver/machinetype.go:98-113 | the matches are exactly the related non-empty names, each once |
| `SlotCodecs.MatchesInOrder` | internal/actionresolver/machinetype.go:98-113 | and they come in catalog order |
| `SlotCodecs.SeparatorsAreDropped` | internal/actionresolver/machinetype.go:118-120 | folding drops spaces, hyphens and underscores, and nothing else |
| `SlotCodecs.MachineAgain` | internal/actionresolver/machinetype.go:49-74 | a resolved name resolves to itself if and only if it is not blank, for padded catalog names too |
| `SlotCodecs.BlankMachineName` | internal/actionresolver/machinetype.go:49-120 | "-" resolves to a blank catalog name, which is itself unknown |
| `SlotCodecs.ZoneIsExact` | internal/actionresolver/zone.go:36-72 | a zone resolves to c if and only if c is the value and an id, or the only id the value names in another case, by id or title |
| `SlotCodecs.ZoneAgain` | internal/actionresolver/zone.go:36-72 | a resolved zone resolves to itself |
| `SlotCodecs.ImageAgain` | internal/deployment/image_catalog.go:243-252 | a resolved image id resolves to itself |
| `SlotCodecs.ImageIsExact` | internal/deployment/image_catalog.go:243-252 | an image resolves to c if and only if the first row whose id is the value but for case has the id c and is usable; otherwise it is unknown, and unavailable without a catalog |
| `SlotCodecs.NormalizeIsIdempotent` | internal/actionresolver/resolver.go:261-351 | for every codec and value a normalised value normalises to itself, except, exactly, a blank machine type |
| `SlotCodecs.AcceptedIntegerIff` | internal/actionresolver/resolver.go:317-328 | the integer and capacity codecs accept exactly the finite positive integers and +Inf, so an accepted value is a positive integer if and only if the number read is not +Inf |
| `SlotCodecs.InfPassesAsInteger` | internal/actionresolver/resolver.go:317-328 | the text "Inf" is accepted as an integer and as a capacity |
| `SlotCodecs.TextIsExact` | internal/actionresolver/resolver.go:282-306 | the text codecs give the trimmed text, if it is not empty and has at most 512 characters, or for a resource id at most 128 and no blank inside |
| `SlotCodecs.TrimIsExact` | internal/actionresolver/resolver.go:261-306 | trimming takes off all blanks at both ends and nothing else |
| `SlotCodecs.CapacityDropsUnit` | internal/actionresolver/resolver.go:377-391 | a text that is no number and ends in G, GB or GiB, in any case, is read without its unit and the blanks around |
| `SlotCodecs.CapacityNeedsUnit` | internal/actionresolver/resolver.go:377-391 | a number keeps its value, and any other text without such a unit is no capacity |
| `Resolver.ResolveCandidates` | internal/actionresolver/resolver.go:251-259 | the first value wins exactly when all others marshal alike |
| `Resolver.JudgeSlots` | internal/actionresolver/resolver.go:77-116 | the slot loop groups accepted values by field in order and records every other slot under its problem; which problem that is, is `Resolver.FailuresAreExact`, `Resolver.RejectionsAreExact` and `Resolver.ConflictsAreExact` |
| `Resolver.SettleGroups` | internal/actionresolver/resolver.go:117-125 | in any map order each agreeing group becomes an argument and each other one a conflict |
| `Resolver.FindMissing` | internal/actionresolver/resolver.go:126-137 | in any map order the required fields without argument or judgement |
| `Resolver.Resolve` | internal/actionresolver/resolver.go:52-189 | the loops, in any map order, come to the order-free decision; each dependency failure is a slot that met an outage of its catalog or of the adjudicator, and each rejection a slot with that very problem; an unknown operation is rejected alone |
| `Resolver.FailuresAreExact` | internal/actionresolver/resolver.go:84-106 | a field is a dependency failure once for each of its slots whose catalog was unavailable or whose target could not be verified, and for nothing else |
| `Resolver.RejectionsAreExact` | internal/actionresolver/resolver.go:77-142 | each rejection counts the slots with that problem: no such field, a value that is not admissible, a target that was rejected; the operation contract is rejected once, exactly when all slots are clean and it fails |
| `Resolver.ConflictsAreExact` | internal/actionresolver/resolver.go:84-123 | each conflict counts the slots with these very candidates, or is a field whose accepted values differ, with those values |
| `Resolver.ArgumentIsFirstAccepted` | internal/actionresolver/resolver.go:79-125 | an argument is the normalised value of the first slot of its field that is accepted |
| `Resolver.PreviewIsExact` | internal/actionresolver/resolver.go:177-187 | there is a preview if and only if the proposal is ready; it is the arguments with the sensitive texts redacted and all others equal |
| `Resolver.MissingIsUnnamed` | internal/actionresolver/resolver.go:126-137 | a required field is missing if and only if no slot names it |
| `Resolver.ReadyIsExact` | internal/actionresolver/resolver.go:138-156 | ready if and only if every slot is accepted, duplicates agree, required fields are named and the operation's contract passes; the arguments are then exactly the named fields |
| `Resolver.ArgumentsAreVerified` | internal/actionresolver/resolver.go:84-125 | whatever is proposed, ready or not, every argument is what its codec admits: a machine type, zone or usable image that the live catalog lists, an enumeration member, a positive integer or +Inf, a number that is not negative; and a target is accepted by the adjudicator in that very form |
| `Resolver.IntegerArgumentIff` | internal/actionresolver/resolver.go:317-328 | an integer or capacity argument is a finite positive integer if and only if the proposed value it comes from was not read as +Inf |
| `Resolver.IntakeIsExact` | internal/actionresolver/resolver.go:170-242 | the guided form opens if and only if the operation is guided, something is wrong, and every problem is one the form collects again |
| `Resolver.GatherIgnoresOrder` | internal/actionresolver/resolver.go:77-116 | the recorded problems of all slots do not depend on slot order |
| `Resolver.OrderIsIrrelevant` | internal/actionresolver/resolver.go:52-189 | reordering slots changes no missing field, dependency failure, ambiguity or disputed field, and, unless a field mixes NaN and infinity, no argument, rejection, preview or verdict |
| `Resolver.MixedArgumentFollowsOrder` | internal/actionresolver/resolver.go:251-259 | a field that mixes NaN and infinity has an order of the same slots with another argument |
| `Resolver.NaNOrInfByOrder` | internal/actionresolver/resolver.go:353-398 | a number field given the texts "NaN" and "Inf" is ready for confirmation in either order, with a different argument |
| `Resolver.ArgumentsIgnoreOrderIff` | internal/actionresolver/resolver.go:117-125 | the arguments are independent of slot order if and only if no field mixes NaN and infinity |
| `Resolver.ConfirmationIsAFixedPoint` | internal/actionresolver/resolver.go:52-189 | proposing a ready result's arguments again is ready with the same arguments, if and only if none is a blank machine type |

## Left out

Assumptions:

- Other writers act before each call of an edit, also before a rollback and the cleanup, but not between a rename and the
  verification of its result; the re-check is not assumed atomic with the rename, nor the verification with the rollback.
- The nonce names of temporary and backup files are unused and unknown to other writers.
- SHA-256 is injective, UTF-8 decoding and encoding are inverse, and a read that returns has returned what the file held.
- The searched directory tree does not change during a search, and the cap is at least 1, as the request validators demand.
- Calls with the same read-guard key are serial, and each observation follows a passing check of the same read.
- A job is polled only after its launch call has returned, whose reply is the first to name it;
  `JobLedger.LaunchReturnConservesIff` and `JobLedger.EarlyPollWouldGainASlot` say what that is for.
- The clock never goes back, and each release closure runs once.
- Zone and image snapshots are as their constructors leave them: trimmed, not blank, one row for each case-folded image id.

Not modelled:

- SSH, SFTP, MCP, HTTP, database and SDK traffic; their replies are parameters or schedules.
- The pool's `Close`, the ticker of its sweep, the fairness of its mutexes, and panics inside a build.
- Message texts, error details, skip counters, redaction in reports, and the display order of sorted lists; `Resolver`
  keeps what the lists hold.
- The position at which `validate` reports an error: only whether it reports one.
- Case folding outside ASCII, and floating-point rounding: finite numbers are reals, and number parsing is a parameter.
- The argument validators, path policy, regex tables, tier policy and secret masking.
- The guest-side timing of a background job; a poll's state is an input.
- `FieldContract.SchemaIsValidatorPlusShape`: key order, duplicate keys and numbers beyond the reals are outside the JSON
  values of the model.
- `SlotCodecs.ImageAgain`: covers the lookup by id only; resolution of image names by the workflow is not part of this model.
