# Verified model of dot-sync-manager

dot-sync-manager keeps dotfiles in a Git repository: a daemon watches the repository, debounces
changes, commits, pulls with a stash of local modifications and re-applies it, stores conflicts, and
a command line adds, links and configures files.  This project models the parts with the most state
and branching and proves what they keep over every input, run or interleaving.

Every system call may fail (`Common.MayFail`); where none does (`reliable`), the contracts say when an
operation succeeds.  Clocks, the remote side, time parsing and what a pull
brings in are parameters or arbitrary values.  Concurrent code is a state machine whose steps are the
lock-protected bodies and channel operations; a history is any sequence of possible steps.

| file | subject |
|---|---|
| `common.dfy`, `text.dfy`, `paths.dfy` | options, maps, byte-order sorting, splitting, clean and relative paths |
| `stash.dfy` | createStash, applyStash, PullWithStash |
| `artifacts.dfy`, `conflict_store.dfy`, `read_back.dfy` | the conflict store, its service, and the round trip between them |
| `manual_sync.dfy` | the manual-sync queue with Start and Stop |
| `timers.dfy` | per-key timers against a plain map |
| `activity.dfy`, `backoff.dfy`, `delays.dfy` | sliding window, backoff arithmetic, and the delays over whole runs |
| `debouncers.dfy` | both debouncers |
| `sync_service.dfy` | Start and Stop of the sync service |
| `file_transactions.dfy` | `dsm add` and `dsm link --force` |
| `ignore.dfy`, `watch_walk.dfy` | ignore patterns and the pruned directory walk |
| `log_tail.dfy` | reading the last lines of a log backwards |
| `nested_config.dfy` | dotted paths into the configuration |
| `backup_names.dfy`, `mappings.dfy` | backup names and the mapping table |

Where an intended property is false of the code, the code is kept, a concrete input or history shows
the failure, and the exact condition is proved:

- A file that is deleted from the index but still in the worktree is stashed as deleted
  (`Stash.CapturesUnlessUntrackedDelete`), so a pull loses its bytes
  (`Stash.PullLosesUntrackedDelete`); a locally changed file that is empty in HEAD conflicts with an
  unchanged remote (`Stash.MergeAgreement`, `Stash.RoundTripIdentity`).
- A fired timer that waits for the lock while its key is added again deletes the newer entry, even
  when its own context is cancelled (`Timers.OvertakenBodyDefeatsCancel`).  A history follows the plain
  map exactly when no step on the same key comes between the expiry of a timer and its body
  (`Timers.PlainMapUnlessOvertaken`).
- The comments promise that a quiet period resets the backoff.  The decay test reads a time stored an
  instant before, so only an Add that itself takes that long resets the count, whatever the quiet
  period (`Delays.QuietPeriodDoesNotReset`, `Delays.QuietPeriodKeepsBurst`).  Such an Add also lets the
  delays fall between completed callbacks (`Delays.DelaysNeverFallIff`, `Delays.DecayLowersDelay`).
- A long run of churn overflows the duration (`Delays.DelayBoundsOfRun`, `Delays.DefaultBurstOverflows`).
- The comments call Start and Stop of the service safe to call concurrently.  Loop and watcher are
  (`SyncService.OneLoopOneClose`), but a failing Start can reset the sync.Once inside which a Stop is
  running (`SyncService.RollbackCanBreakOnce`).  It cannot if no Stop takes effect before every Start
  that may still roll back has returned (`SyncService.OnceSafeIfStopsWait`), and otherwise it can
  (`SyncService.StopDuringStartCanCrash`).
- Stop is said to wait for a Stop in progress.  It waits for the event loop only, so a Start begun after
  such a Stop returned can succeed (`SyncService.StartAfterWaitingStop`).  It cannot if no Stop takes
  effect before every Start that may still store the stopped state has returned
  (`SyncService.NoStartAfterStopCall`), and otherwise it can (`SyncService.WaitingStopCanMiss`).
- When the status manager fails, Start returns an error and leaves the service marked as running without
  an event loop (`SyncService.StatusFailureBlocks`).
- When the symlink cannot be removed, the rollback of `dsm add` copies through it and can delete both
  remaining copies (`FileTransactions.RollbackVerdict`).
- `dsm config get machine.name` always answers the empty string, and a path ending in `machine.name`
  deeper in the tree replaces the string above it (`NestedConfig.SetThenGet`).
- A line such as `build/**/build` makes the matcher panic on the path `build` (`Ignore.OverlapPanics`);
  whether a line can do so is read off the line (`Ignore.FileIsSafe`).  A two-component pattern does
  not cover subtrees, so pruning can hide directories that are not ignored
  (`Ignore.TwoPartPatternNotClosed`, `WatchWalk.WalkIsFilter`).  A directory such as `..cache` passes
  for outside the root and is never ignored (`Ignore.MatchBelowRoot`).
- A target directly below the repository whose name begins with two dots passes as outside
  (`Mappings.OutsideCheck`, `Mappings.DottedTargetAccepted`).

## Model

| member | source | states |
|---|---|---|
| Stash.GitManager.StashOne | internal/gitmanager/stash.go:91-129 | one changed path is recorded with its worktree bytes unless it is marked or found deleted, and with its HEAD bytes if HEAD has it |
| Stash.GitManager.CollectEntries | internal/gitmanager/stash.go:84-133 | whatever order the status map yields, the entries name every changed path once and the copies are its worktree and HEAD versions |
| Stash.GitManager.CreateStash | internal/gitmanager/stash.go:54-155 | a snapshot of exactly the changed paths is registered, or nothing is registered when a call fails |
| Stash.CapturesUnlessUntrackedDelete | internal/gitmanager/stash.go:96-97 | the snapshot holds the worktree version of every changed path if and only if no path marked deleted is still in the worktree |
| Stash.UntrackedDeleteLosesLocal | internal/gitmanager/stash.go:96-97 | `git rm --cached` of an edited file: concrete trees for which stash, reset, up-to-date pull and re-apply end with an empty worktree |
| Stash.PullLosesUntrackedDelete | internal/gitmanager/stash.go:96-194 | every file deleted from the index but present with bytes that differ from HEAD: after an up-to-date pull these bytes are neither in the worktree nor in the snapshot nor in an artifact |
| Stash.MergeAgreement | internal/gitmanager/stash.go:175-268 | the re-apply decision equals textbook three-way merge if and only if the file really differs from its base and it is not an empty-in-HEAD file left empty remotely |
| Stash.NoConflictMissed | internal/gitmanager/stash.go:191-192 | every textbook conflict is reported, and with a non-empty base the decision is the textbook one |
| Stash.GitManager.EnsureConflictDir | internal/gitmanager/stash.go:286-296 | the conflict directory is created once and its contents are not touched |
| Stash.GitManager.PersistConflictArtifacts | internal/gitmanager/stash.go:298-336 | the three artifacts, with tombstones for an empty remote and a deleted local and no file for an empty base; a failure touches only these names |
| Stash.GitManager.ApplyFile | internal/gitmanager/stash.go:164-268 | one stashed file is put back or, exactly when the decision is a conflict, left pulled with its artifacts stored |
| Stash.GitManager.ReapplyAll | internal/gitmanager/stash.go:161-268 | after the loop the non-conflicting paths have their stashed version, all others their pulled one, and the artifacts of exactly the conflicting paths are stored |
| Stash.GitManager.ApplyStash | internal/gitmanager/stash.go:157-284 | nil: the pulled tree overridden by the whole stash; conflict: sorted files, snapshot kept, only non-conflicting paths overridden; failure: at most one damaged path; without failing calls never a failure, and nil if and only if nothing conflicts |
| Stash.NoLocalChangeLost | internal/gitmanager/stash.go:199-206 | after a conflict every local version is at its target or in its `.local` artifact, and conflicted and unstashed paths keep their pulled content |
| Stash.RoundTripIdentity | internal/gitmanager/git_manager.go:286-317 | stash, hard reset, up-to-date pull, re-apply gives back the worktree without conflict if and only if no file is deleted from the index but present, or changed from an empty HEAD version |
| Stash.GitManager.PullWithStash | internal/gitmanager/git_manager.go:268-318 | the whole pull: in every outcome, failures included, each local version is in the worktree or in the kept snapshot, and no other snapshot or conflict directory is touched; after a conflict each is also at its target or in its `.local` artifact; override on success, identity on an up-to-date pull when no file is at risk; without failing calls it fails if and only if the pull itself does, and conflicts if and only if some stashed file does |
| Stash.StoredOutlivesPulls | internal/gitmanager/git_manager.go:286-317 | over any run of pulls, a snapshot or conflict directory that one pull stored is still there after all later ones that do not use its name |
| Artifacts.ArtifactNameInjective | internal/gitmanager/stash.go:299-326 | artifact names are injective in path and suffix |
| Artifacts.TextsAndNamesSpelled | internal/gitmanager/stash.go:304-333 | the artifact suffixes, and texts for missing versions that can be told apart |
| ReadBack.ListsTheConflicts | internal/conflict/service.go:70-119 | in a store with one conflict directory the service lists exactly the slash-free conflicted files |
| ReadBack.ListingIsConflictErrorFiles | internal/conflict/service.go:124-134 | the listing equals the files of the conflict error, in order, if and only if all of them are slash-free |
| ReadBack.VersionsReadBack | internal/gitmanager/stash.go:304-333 | each version reads back if and only if it was there to store; the deleted mark is also set for a file containing the tombstone text |
| ReadBack.InfoReadsBack | internal/conflict/service.go:84-111 | the listing says that a base was kept if and only if it was there and not empty, and that the file was deleted if and only if it was, or holds the tombstone text |
| ReadBack.ChosenVersionReachesTarget | internal/conflict/actions.go:41 | from conflict to resolution: UseLocal leaves the local version at the target if and only if the file was not deleted, UseRemote the pulled one if and only if it exists and is not empty; otherwise the text of the tombstone |
| ConflictStore.Service.FindLatestConflictDir | internal/conflict/service.go:155-194 | the newest directory holding the file, first in name order on equal times |
| ConflictStore.Service.ScanDirectory | internal/conflict/service.go:70-121 | one directory's candidates replace known ones only when strictly newer |
| ConflictStore.Service.CollectConflicts | internal/conflict/service.go:49-122 | the table has one entry for every listed file, described by its latest directory |
| ConflictStore.Service.GetConflicts | internal/conflict/service.go:37-135 | every slash-free file with a remote artifact, once, in name order, described by its latest directory |
| ConflictStore.ListingAgreesWithLookup | internal/conflict/service.go:113-120 | the listing and the lookup by name read the same directory |
| ConflictStore.Service.HasConflicts | internal/conflict/service.go:139-145 | true only when some file is listed; false, with a readable store, only when none is |
| ConflictStore.Service.GetConflictDetails | internal/conflict/service.go:200-239 | the three versions stored in the latest directory; without failing calls they are returned if and only if that directory exists and holds the local version |
| ConflictStore.Service.RemoveConflictArtifacts | internal/conflict/actions.go:185-211 | the file's three artifacts are gone, and the directory if and only if nothing else was in it; nothing else changes, not even when a removal fails |
| ConflictStore.Service.UseVersion | internal/conflict/actions.go:18-102 | UseLocal and UseRemote: the mapped target, or for an unmapped file its place in the home directory, gets the artifact of the latest conflict, which is resolved only after that; no other target changes, in a valid table not even one; without failing calls this succeeds if and only if the artifact is there |
| ConflictStore.Service.MarkResolved | internal/conflict/actions.go:107-134 | with all removals succeeding the named files whose directory could be read are resolved in turn, all of them if no read failed; a file that resists does not keep the others from being resolved; whatever fails, only artifacts of the named files are removed |
| ConflictStore.Service.MarkAllResolved | internal/conflict/actions.go:137-153 | resolves exactly what the store lists; whatever fails, only artifacts of listed files are removed |
| ConflictStore.HoldersAfterAll | internal/conflict/actions.go:107-134 | one pass takes each file out of exactly its latest directory and no other file out of any |
| ConflictStore.HoldersAfterPasses | internal/conflict/actions.go:137-153 | after n passes a file has lost exactly n of the directories that held it |
| ConflictStore.MarkAllTerminates | internal/conflict/actions.go:137-153 | after n passes nothing is listed if and only if no file was held by more than n directories |
| ManualSync.StepKeepsInv | internal/debouncer/advanced_debouncer.go:321-426 | every step of clients, worker, direct goroutines, Start and Stop keeps the protocol and conservation invariant |
| ManualSync.ChannelsSafe | internal/debouncer/advanced_debouncer.go:333-343 | in every interleaving nothing is sent on a closed queue, no channel is closed twice, and at most one worker lives |
| ManualSync.QueuedRunsOnce | internal/debouncer/advanced_debouncer.go:702-727 | a queued request is waiting, running or answered, never two of them; when Stop has returned it ran once, got one result, and queue and worker are gone |
| ManualSync.DirectRunsOnce | internal/debouncer/advanced_debouncer.go:363-370 | a request that found the queue full runs once in its own goroutine and gets one result |
| ManualSync.AnswerOfTrigger | internal/debouncer/advanced_debouncer.go:333-349 | every request is answered: rejected if and only if `stopped` is set, cancelled only with its context, and otherwise queued if and only if fewer than a hundred wait |
| ManualSync.FirstComeFirstServed | internal/debouncer/advanced_debouncer.go:338-394 | over every history the requests taken are the requests queued, in that order, none skipped or lost |
| ManualSync.StartedAccepts | internal/debouncer/advanced_debouncer.go:755-791 | once a Start has returned and no Stop has begun, requests are accepted and exactly one worker lives |
| ManualSync.WorkProceeds | internal/debouncer/advanced_debouncer.go:382-394 | a living worker can always take the request that has waited longest or finish the one in its hand, and direct requests never wait |
| ManualSync.StartProceeds | internal/debouncer/advanced_debouncer.go:755-791 | each step of a Start is possible and leads to a running worker, and a Stop can begin when no Start is under way |
| ManualSync.NothingRunsAfterStop | internal/debouncer/advanced_debouncer.go:333-335 | a request that arrives after `stopped` is set is rejected and never runs, not even after a restart |
| ManualSync.StoppingUsesUpWork | internal/debouncer/advanced_debouncer.go:682-731 | while Stop is under way every step except a rejection uses up some of the remaining work |
| ManualSync.StoppingNeverStuck | internal/debouncer/advanced_debouncer.go:704-731 | until Stop has returned some step of the worker or of Stop is always possible |
| ManualSync.StopTerminates | internal/debouncer/advanced_debouncer.go:682-731 | Stop takes a bounded number of steps however they interleave with other goroutines |
| Timers.StepKeepsInv | internal/debouncer/advanced_debouncer.go:198-289 | every locked body and every timer expiry keeps both maps consistent and every callback single |
| Timers.MapsAgreeAndRunOnce | internal/debouncer/advanced_debouncer.go:223-288 | in every interleaving `timers` and `callback` have the same keys and no Add's callback runs twice |
| Timers.NothingRunsAfterCancel | internal/debouncer/advanced_debouncer.go:244-260 | no body whose check comes after the cancel of the context runs its callback |
| Timers.PendingAlwaysFires | internal/debouncer/advanced_debouncer.go:223-224 | a pending key always has its timer armed or its body about to run |
| Timers.PendingCanRun | internal/debouncer/advanced_debouncer.go:223-288 | a pending callback can always expire and run, and is forgotten then |
| Timers.CancelledIsForgotten | internal/debouncer/advanced_debouncer.go:235-260 | once the context is cancelled its body only forgets it |
| Timers.ClientCalls | internal/debouncer/advanced_debouncer.go:203-224 | what Add, Cancel and CancelAll leave pending and armed, for the key and for every other one |
| Timers.StepFollowsPlain | internal/debouncer/advanced_debouncer.go:198-289 | the plain map from key to last-added callback takes the same step, except that it refuses the body of a timer its key no longer has |
| Timers.PlainMapUnlessOvertaken | internal/debouncer/advanced_debouncer.go:198-289 | a history follows the plain map if and only if, between the expiry of a timer and its body, no Add, Cancel, CancelAll or other body of its key got the lock; cancelled contexts make no difference |
| Timers.AtomicDebouncerIsPlainMap | internal/debouncer/advanced_debouncer.go:223-288 | with expiry and body as one step the debouncer is the plain map, for every history |
| Timers.OvertakenBodyDefeatsCancel | internal/debouncer/advanced_debouncer.go:203-260 | a concrete interleaving, with the waiting body's context cancelled or not, in which it deletes a newer entry and Cancel no longer stops that callback |
| Timers.AddOvertakesBody | internal/debouncer/advanced_debouncer.go:203-260 | every history in which a key is added again while its first timer's body waits has left the plain map once that body has run |
| Activity.RecordedIsWindow | internal/debouncer/advanced_debouncer.go:429-449 | one recording turns the exact window into the exact window with the new arrival |
| Activity.HistoryIsExactWindow | internal/debouncer/advanced_debouncer.go:433-448 | after any run of Adds at nondecreasing times the history is the last min(cap, k) arrivals, k those inside the window |
| Activity.HistorySortedAndCounted | internal/debouncer/advanced_debouncer.go:433-448 | the history is sorted and has min(cap, k) entries |
| Activity.ChurnIsWindowCount | internal/debouncer/advanced_debouncer.go:452-457 | churn holds after an Add if and only if the threshold fits under the cap and that many Adds fell in the window |
| Backoff.DelayBounds | internal/debouncer/advanced_debouncer.go:483-489 | the delay is min(max, base·mult^count) in range, and lies in [base, max] if and only if the product fits or the platform's overflow value is at least base |
| Backoff.DelayNondecreasing | internal/debouncer/advanced_debouncer.go:480-489 | the delay never falls as the count grows, while in range |
| Backoff.DelayReachesMax | internal/debouncer/advanced_debouncer.go:483-489 | max is reached once n·(mult-1)·base >= max - base |
| Backoff.DefaultsOverflow | internal/debouncer/advanced_debouncer.go:127-138 | with the default settings the 29th churn Add without a completed callback overflows |
| Backoff.SecondsExact | internal/config/sync_config.go:874 | a positive number of seconds converts exactly if and only if it fits a 64-bit duration |
| Backoff.ValidatedConfigSurvives | internal/config/sync_config.go:758-847 | a validated configuration with backoff enabled reaches the debouncer unchanged, with base <= max, if and only if its seconds fit a duration |
| Backoff.TimeoutSurvives | internal/config/sync_config.go:886-889 | the waiting time for a manual sync arrives as written, ten seconds standing for none |
| Backoff.DefaultsFillIn | internal/debouncer/advanced_debouncer.go:142-162 | each usable parameter is kept on its own and each other one replaced by the documented default |
| Backoff.DefaultSettings | internal/config/sync_config.go:750-901 | settings that name the defaults are valid and give the default configuration |
| Backoff.ValidationBoundaries | internal/config/sync_config.go:750-844 | the values on either side of each bound that validation draws |
| Delays.ChurnAtAdd | internal/debouncer/advanced_debouncer.go:429-457 | over every run, the churn test of an Add holds if and only if the threshold fits under the cap and that many Adds arrived in the window ending at it |
| Delays.AddEffect | internal/debouncer/advanced_debouncer.go:461-498 | what an Add of any run does to count and delay, in terms of what arrived when |
| Delays.CountSinceReset | internal/debouncer/advanced_debouncer.go:463-480 | over every run the backoff count is the number of Adds that backed off since the last completed callback or decay |
| Delays.DelayClosedForm | internal/debouncer/advanced_debouncer.go:478-497 | every Add of every run waits min(max, base·mult^k), the k-th to back off since the last completed callback or decay, or else base |
| Delays.DelayBoundsOfRun | internal/debouncer/advanced_debouncer.go:483-489 | a delay lies in [base, max] if and only if the Add does not back off, or its product fits, or the platform's overflow value does no harm |
| Delays.DefaultBurstOverflows | internal/debouncer/advanced_debouncer.go:127-138 | with the default settings the 38th Add of a burst gets a negative delay where overflow yields the least integer |
| Delays.ReachesMax | internal/debouncer/advanced_debouncer.go:483-489 | from the n-th Add that backs off on, n computed from the configuration, the delay is max |
| Delays.IdleGapGivesBaseDelay | internal/debouncer/advanced_debouncer.go:437-441 | after a gap longer than the window an Add waits the base delay, for a threshold of two or more |
| Delays.CountNeverFalls | internal/debouncer/advanced_debouncer.go:281-283 | between completed callbacks the backoff count never falls if and only if no Add decays at a positive count |
| Delays.DelaysNeverFallIff | internal/debouncer/advanced_debouncer.go:461-489 | between completed callbacks the backoff delays never fall if and only if no Add decays after they have risen and before another one backs off |
| Delays.DecayLowersDelay | internal/debouncer/advanced_debouncer.go:463-467 | a run of four Adds whose backoff delay falls from 120 to 60 seconds without a completed callback |
| Delays.QuietPeriodDoesNotReset | internal/debouncer/advanced_debouncer.go:433-467 | of two consecutive Adds, whatever the quiet time between them, the second resets the backoff if and only if it takes longer than the decay time itself; otherwise the count still is the number of Adds that backed off since the last reset |
| Delays.QuietPeriodKeepsBurst | internal/debouncer/advanced_debouncer.go:433-467 | for every configuration, a burst and a quiet period longer than the decay time after which the count still stands |
| Delays.ValidatedRun | internal/config/sync_config.go:758-900 | end to end: in every run of a debouncer built from a validated configuration each delay is min(max, base·mult^k) and between base and max, as written in the file |
| Delays.DisabledRun | internal/config/sync_config.go:874-896 | with backoff disabled every Add of every run waits the debounce time written in the file |
| Debouncers.AdvancedDebouncer.constructor | internal/debouncer/advanced_debouncer.go:141-189 | any configuration becomes a usable one and the debouncer starts empty |
| Debouncers.AdvancedDebouncer.RecordActivity | internal/debouncer/advanced_debouncer.go:429-449 | the trimming loop and the cap compute the recorded history |
| Debouncers.AdvancedDebouncer.CalculateDelay | internal/debouncer/advanced_debouncer.go:461-498 | the delay lies between base and max unless the product overflows; the count rises by one if and only if there is churn and no decay, and falls only to zero |
| Debouncers.AdvancedDebouncer.AddWithContext | internal/debouncer/advanced_debouncer.go:198-289 | the locked body of an Add: the timer step, and a delay that is what the arrivals and completed callbacks of the whole run so far call for |
| Debouncers.AdvancedDebouncer.TimerBody | internal/debouncer/advanced_debouncer.go:223-288 | the body of a fired timer, with cancellation, panic and backoff reset, as one more event of the run |
| Debouncers.AdvancedDebouncer.Cancel | internal/debouncer/advanced_debouncer.go:501-510 | forgets the key's timer and callback |
| Debouncers.AdvancedDebouncer.CancelAll | internal/debouncer/advanced_debouncer.go:513-522 | the loop forgets every timer and callback, in any order |
| Debouncers.AdvancedDebouncer.StopTimers | internal/debouncer/advanced_debouncer.go:688-694 | Stop forgets all timers and cancels the context |
| Debouncers.Debouncer.Add | internal/debouncer/debouncer.go:28-65 | the simple debouncer's Add is the same timer step |
| Debouncers.Debouncer.TimerBody | internal/debouncer/debouncer.go:48-64 | the simple debouncer's timer body runs its callback; a panic skips the clean-up |
| Debouncers.PanicLeavesKeyPending | internal/debouncer/debouncer.go:53-63 | after the body every pending key can still fire if and only if the callback did not panic |
| SyncService.HistoryKeepsInv | internal/sync/service.go:271-518 | the ownership, event-loop and close invariants hold in every state of every interleaving of Starts and Stops |
| SyncService.OneLoopOneClose | internal/sync/service.go:371-377 | at most one event loop is ever spawned and the watcher is closed at most once |
| SyncService.ClosedOnceReleased | internal/sync/service.go:461-472 | once the watcher is gone and no Stop has it in its hands it was closed exactly once; no word but Stopped outlives the calls that set it |
| SyncService.LoopOfEachStart | internal/sync/service.go:371-380 | a Start has spawned the event loop if and only if it succeeded |
| SyncService.StopShutsDown | internal/sync/service.go:403-499 | a Stop of a running service closes the watcher, stores Stopped and returns |
| SyncService.StatusFailureBlocks | internal/sync/service.go:340-343 | when the status manager fails, Start returns without rollback: the word stays Running without an event loop and every later Start fails |
| SyncService.CallsNeverStuck | internal/sync/service.go:271-518 | a call that has not returned can go on, or waits for the sync.Once whose holder can |
| SyncService.WatcherNeverReturns | internal/sync/service.go:460-475 | once nil the watcher field stays nil |
| SyncService.NoStartAfterStop | internal/sync/service.go:321-331 | no Start that begins after the Stop that shut the service down has completed succeeds |
| SyncService.NoStartAfterStopCall | internal/sync/service.go:403-434 | no Start that begins after any Stop of a running or stopping service succeeds, also one that only waits, if no Stop takes effect while a Start that may still store the stopped state has not returned |
| SyncService.WaitingStopCanMiss | internal/sync/service.go:285-286 | conversely, whenever a Stop takes effect while such a Start is on its way and the watcher is open, a second Stop can return and a Start begun after it succeed |
| SyncService.StartAfterWaitingStop | internal/sync/service.go:408-433 | a concrete history in which a Stop finds another one under way, returns, and a Start begun after it succeeds |
| SyncService.StopCanOvertakeStart | internal/sync/service.go:436-476 | a reachable state in which a Stop is inside its shutdown body while a Start is still adding directories |
| SyncService.RollbackCanBreakOnce | internal/sync/service.go:285-319 | from every such state a failing Start's rollback replaces the sync.Once under the Stop, which then unlocks an unlocked mutex |
| SyncService.StepKeepsOnceHeld | internal/sync/service.go:317-318 | one step breaks the sync.Once if and only if it is a rollback's reset while a Stop is inside |
| SyncService.OnceSafeIfStopsWait | internal/sync/service.go:285-319 | over all interleavings the sync.Once is never reset under a Stop if no Stop takes effect while a Start that may still roll back has not returned |
| SyncService.StopDuringStartCanCrash | internal/sync/service.go:403-476 | conversely, whenever a Stop takes effect while such a Start is on its way and the sync.Once is fresh, steps of these two calls alone can end in the crash |
| FileTransactions.RollbackVerdict | cmd/add.go:351-387 | for every fault pattern whether the bytes survive the rollback and whether its two flags are true |
| FileTransactions.RollbackRestores | cmd/add.go:355-386 | once the symlink is removed the file is restored if and only if one of the two copies works, and backup and repository copy are cleaned up if and only if they can be after that |
| FileTransactions.FileSystem.RollbackAfterConfigFailure | cmd/add.go:351-387 | the stepwise rollback restores, cleans up and reports so |
| FileTransactions.FileSystem.CopyFile | cmd/add.go:433-458 | on success the destination reads as the source did, unless both are one file, which is emptied; only the file the destination reaches changes, and nothing does if a file cannot be opened |
| FileTransactions.FileSystem.BackupExisting | internal/symlink/backup.go:109-148 | the backup holds the bytes, or only the claimed name was touched |
| FileTransactions.FileSystem.CreateFileSecurely | internal/util/path.go:61-87 | an existing file is never overwritten |
| FileTransactions.FileSystem.CreateLink | internal/symlink/manager.go:12-40 | a link is created only where nothing is and only to an existing source |
| FileTransactions.FileSystem.RestoreFromBackup | internal/symlink/backup.go:158-193 | on success the target is the backup's content; nothing else changes |
| FileTransactions.FileSystem.ExecuteAddTransaction | cmd/add.go:257-330 | whichever steps fail the bytes are at the source, in the repository or in the backup, and an existing repository file is untouched; without failing calls it succeeds if and only if there was none |
| FileTransactions.FileSystem.ReplaceByLink | cmd/add.go:285-330 | the second half of the transaction: linked if and only if nothing goes wrong; otherwise the original is back if the restore works, the backup is reported if and only if it is still needed, and the repository copy is gone if it can be removed |
| FileTransactions.FileSystem.RunAdd | cmd/add.go:123-130 | the whole add loses the bytes only in the one named rollback pattern; a configuration that cannot be saved is rolled back to the original file as far as the faults allow |
| FileTransactions.FileSystem.LinkForce | cmd/link.go:69-139 | with a backup the bytes are at the target or in the backup at every exit, and back at the target when only the link failed; without one they are gone once removed; without failing calls it succeeds if and only if the source exists |
| Ignore.ParseRoundTrip | internal/ignore/parser.go:69-90 | a parsed line can be written down again, negated if and only if it begins with `!`, for directories only if and only if it ends with a slash |
| Ignore.StarBetween | internal/ignore/parser.go:178 | a star between literal texts matches anything without a slash, and nothing else |
| Ignore.QuestionBetween | internal/ignore/parser.go:178 | a question mark matches one character other than a slash |
| Ignore.LastMatchDecides | internal/ignore/parser.go:131-139 | a path is ignored if and only if the last pattern that matches it is not negated |
| Ignore.SlashFreeMatches | internal/ignore/parser.go:174-186 | a slash-free glob matches exactly the paths with a component that it matches |
| Ignore.DirectoryOnlyMatches | internal/ignore/parser.go:152-171 | a directory-only pattern matches exactly the directory and what is below it, a slash-free one at any depth |
| Ignore.LiteralPathMatches | internal/ignore/parser.go:291-315 | a literal pattern of several components matches exactly the paths that end in them |
| Ignore.AnyDepthPathMatches | internal/ignore/parser.go:195-204 | so does such a pattern after `**/` |
| Ignore.InnerStarMatches | internal/ignore/parser.go:224-253 | `dir/**/end` matches exactly the paths at or below dir whose text ends in `end`, even within a component, where the two do not overlap |
| Ignore.IgnoredSubtree | internal/ignore/parser.go:143-186 | slash-free globs, directory-only patterns, `dir/**` and `**/name` ignore everything below what they ignore |
| Ignore.IgnoredSubtreeOfList | internal/ignore/parser.go:129-139 | a list of such patterns never panics and ignores whole subtrees |
| Ignore.SubtreeMatches | internal/ignore/parser.go:215-221 | `dir/**` with a literal dir matches exactly dir and what is under it |
| Ignore.AnyDepthMatches | internal/ignore/parser.go:195-212 | `**/name` matches exactly the paths with a component that name matches |
| Ignore.TwoPartPatternNotClosed | internal/ignore/parser.go:291-315 | a two-component pattern matches a/b but a/b/c only if it happens to match the shifted components |
| Ignore.OverlapPanics | internal/ignore/parser.go:69-253 | the line `build/**/build` makes Match panic on the path `build`, whatever the root |
| Ignore.PanicsExactlyOnOverlap | internal/ignore/parser.go:224-253 | a pattern makes the matcher panic on a path if and only if the path is its prefix and suffix laid over one another; no earlier case catches such a path |
| Ignore.PanicsOnSomePath | internal/ignore/parser.go:224-253 | some path that Match lets through makes a pattern panic if and only if the end of its prefix is the start of its suffix, up to the end of a component, and the overlaid path is clean |
| Ignore.MatchPanics | internal/ignore/parser.go:129-139 | Match panics if and only if one of its patterns does, whatever the others answer |
| Ignore.FileIsSafe | internal/ignore/parser.go:69-139 | whatever the root, Match is safe on every path if and only if no line of the ignore file can panic |
| Ignore.AnchoredIsSafe | internal/ignore/parser.go:98-127 | a pattern with a leading slash never panics |
| Ignore.LoopSeesCleaned | internal/ignore/parser.go:98-127 | only clean relative paths reach the patterns, from absolute and relative arguments alike |
| Ignore.CleanedReachesLoop | internal/ignore/parser.go:110-127 | every clean relative path reaches them as it is |
| Ignore.MatchBelowRoot | internal/ignore/parser.go:100-109 | an absolute path below the root is matched like its relative part, except that one beginning with two dots is never ignored |
| WatchWalk.WalkIsFilter | internal/sync/service.go:531-564 | the pruned walk watches the non-ignored directories outside .git, in order, if and only if none of them lies below an ignored one |
| WatchWalk.WantedMeans | internal/sync/service.go:537-563 | a directory is wanted if and only if a chain of directories outside .git leads to it and it is not ignored |
| WatchWalk.PathFromRoot | internal/sync/service.go:537 | the path of a chain of names is these names joined by slashes |
| WatchWalk.WalkWatchesNonIgnored | internal/sync/service.go:550-560 | with subtree-closed patterns that is so for every directory tree |
| WatchWalk.WalkAsksMatch | internal/sync/service.go:552 | the walk's notion of ignored is what Match answers for the absolute path |
| LogTail.ReadBackwards | cmd/log.go:152-189 | the chunk loop terminates with the file from its stopping point on, containing enough newlines or everything, and one chunk less would not do |
| LogTail.ExtractLines | cmd/log.go:196-211 | the last n lines of the buffer |
| LogTail.TailAfterCut | cmd/log.go:178-188 | with n newlines after a cut, the last n lines differ from the file's only if the file ends in a newline and the cut is inside the first of them |
| LogTail.TailOfStretch | cmd/log.go:178-211 | reading far enough gives exactly min(n, total) lines, equal to the file's last lines up to a left part of the first, and fully equal if and only if that line is not cut |
| LogTail.ReadLastLines | cmd/log.go:141-214 | the method returns that tail |
| LogTail.ExactUnlessTrailingNewline | cmd/log.go:199-202 | the result is exact if the file does not end in a newline or was read completely |
| LogTail.LinesRoundTrip | cmd/log.go:197-202 | the lines written down again are the file, with a final newline |
| LogTail.FinalNewlineAddsNone | cmd/log.go:199-202 | a final newline adds no line |
| NestedConfig.SetThenGet | cmd/config.go:244-305 | after a successful set get returns the value if and only if the path is not machine.name and did not take the machine shortcut |
| NestedConfig.SetSucceeds | cmd/config.go:384-422 | a set succeeds if and only if only objects stand on the way, whatever stands at the path, or by the machine shortcut |
| NestedConfig.NavigateMeans | cmd/config.go:276-304 | a lookup finds what stands at the path, unless a key is empty or null stands on the way |
| NestedConfig.NavigateAfterSet | cmd/config.go:384-422 | the same for the navigation loop alone |
| NestedConfig.FailedSetChangesNothing | cmd/config.go:384-422 | a failed set leaves the whole tree as it was |
| NestedConfig.SetElsewhereKeepsGet | cmd/config.go:384-422 | a set changes nothing at a path that is neither prefix nor extension of its own |
| BackupNames.BackupDir.GenerateUniqueBackupPath | internal/symlink/backup.go:34-93 | claims the first free of a hundred names and fails, apart from other errors, if and only if all are taken |
| BackupNames.NamesDiffer | internal/symlink/backup.go:46-52 | the hundred names of one timestamp and path differ |
| BackupNames.NameRoundTrip | internal/symlink/backup.go:26 | for an absolute path a generated name gives the path back if and only if it has no underscore and no newline |
| BackupNames.OldFormatKept | internal/symlink/backup.go:258-268 | a name of the old format gives its base name, unless that begins like a counter |
| BackupNames.MatchedTail | internal/symlink/backup.go:45-52 | the collision counter is recognised and stripped |
| Mappings.OutsideCheck | internal/symlink/mappings.go:50-57 | a target is taken for outside the repository if and only if it is, or lies directly below it under a name that begins with two dots |
| Mappings.ValidationMeans | internal/symlink/mappings.go:30-60 | what validation accepts, in terms of where key and target lie |
| Paths.RelLeadsToTarget | internal/symlink/mappings.go:53 | the relative path, followed from the base, leads to the target |
| Paths.UpCancels | internal/symlink/mappings.go:37 | a name followed by two dots cancels out |
| Mappings.DottedTargetAccepted | internal/symlink/mappings.go:50-57 | a file directly below the repository with a name such as `..x` passes validation as a target |
| Mappings.AcceptedKeyStaysInside | internal/symlink/mappings.go:36-40 | a repository path that passes the check resolves inside the repository |
| Mappings.RunsKeepTable | internal/symlink/mappings.go:62-163 | over all runs with any failed saves targets stay absolute and distinct and new keys denote the repository or something inside it |
| Mappings.OtherKeysStay | internal/symlink/mappings.go:68-163 | an operation touches no key but its own, and a removed key is gone |
| Mappings.Manager.CheckTargetConflict | internal/symlink/mappings.go:12-25 | finds another key of the target if and only if there is one |
| Mappings.Manager.AddMapping | internal/symlink/mappings.go:68-101 | a failed add leaves the table unchanged |
| Mappings.Manager.UpdateMapping | internal/symlink/mappings.go:105-140 | takes effect in memory, even when the save fails, if and only if the key is there and the target valid and free or its own; no other key changes |
| Mappings.Manager.RemoveMapping | internal/symlink/mappings.go:144-163 | the key is gone in memory even when the save fails, and no other key changes |
| Mappings.Manager.FindByTarget | cmd/unlink.go:67-74 | in a valid table the scan finds the one key of a target or proves there is none |

## Left out

- go-git, push, clone and authentication, fsnotify events, the status server, command-line parsing, printing: library or I/O plumbing.
- Stash.GitManager.CreateStash: an unreadable HEAD, which the code takes for a missing base, and two snapshots taken in the same second, which would share a directory.
- Stash.RoundTripIdentity: that a hard reset restores tracked files, keeps or removes untracked ones and leaves ignored ones alone is an assumption about go-git.
- File modes, symlinked stash entries and stash entries inside the conflict directory: the worktree, the snapshot and the conflict store are separate maps of regular files.
- Directories named like an artifact, and conflict files in subdirectories beyond their not being listed: a conflict directory is one flat map of names.
- Modification times in a conflict listing, notifications to the GUI, opening folders: single-branch.
- The cleaning that filepath.Join does of home directory and repository paths, which are clean already.
- ManualSync: Start overlapping Stop is excluded, because Start replaces the channels without the lock that Stop's drain would need; the timeout of the waiting caller is not modelled.
- Timers.NothingRunsAfterCancel: a body's check of the contexts and its callback are one step, so a body that passed the check just before a cancel, which Stop does outside the lock, may still run its callback.
- Timers: callbacks that call back into the debouncer, which the code would deadlock on, and the restart after Stop, which keeps the cancelled context.
- Backoff.DelayBounds: multiplication is exact; rounding of float64 below the overflow limit is not modelled.
- Activity.HistoryIsExactWindow: the cap is fixed; changing it during a run is not modelled.
- SyncService.OneLoopOneClose: waiting for the event loop to finish is not modelled, since its time-out lets Stop go on in any case.
- FileTransactions: directories and chains of symlinks; one hop from a link to a regular file is enough for the links these commands create.
- FileTransactions.FileSystem.BackupExisting: the fresh name is a parameter; how it is claimed is `BackupNames.BackupDir.GenerateUniqueBackupPath`.
- Ignore.Match: a parser without a root, which the service never makes.
- Ignore: escapes and bracket classes of filepath.Match; the subtree theorems exclude patterns that contain them.
- Ignore.IgnoredSubtree: lists with negated patterns, which can re-include what lies below an ignored directory.
- NestedConfig.SetThenGet: the in-place update of nested maps is modelled on values, so aliasing between parts of one tree is not captured; conversion back to the configuration struct is left out.
- The PID file and command lock, `dsm remove`, sensitive-file checks, templates, version and status commands: no further state-spanning property or single-branch.
