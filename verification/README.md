# Verification of the XPanel-Go server panel

A Dafny model of those parts of the panel that carry a protocol, a parser or an online algorithm of their own, and
proofs about them. `dafny verify dfyconfig.toml` checks everything.

One module models one component:

| module | component | main results |
|---|---|---|
| `Crontab`, `CrontabLaws`, `CrontabComments` | the managed block in a shared crontab, as text | `StripIdempotent`, `MergeViews`, `MergeViewsIff`, `MergesCommute`, `MergeTwiceIff` |
| `CrontabRows` | the rows of the job table as crontab lines | `RowsAreScheduledIff` |
| `CrontabSync` | several panel instances rewriting that crontab under a host-wide lock | `NoUpdateIsLost`, `OneCallInside`, `OneWriteKeepsIff` |
| `ModuleManager` | enabling, disabling and restoring modules with dependencies | `RestartRestoresTheSame`, `ReachableIsLeastFixpoint`, `Manager.Restore` |
| `SafePath` | joining untrusted paths to a root, against symbolic links | `SafeJoinStaysInside`, `SafeJoinIs`, `WithinRootIsPrefix` |
| `Directories` | making directories and opening files, through links | `MkdirAllOutcome`, `FileInside`, `SafeJoinNeedsRealRoot` |
| `RateLimiter` | the token bucket for each address, with eviction | `EvictionIsInvisible`, `RefusedIff`, `RateIsBounded` |
| `CronSchedule`, `CronNames` | the schedule compiler, the cron parser and the matcher | `CompiledScheduleIsDue`, `DayNameMatches`, `DenotedExprMatches`, `AcceptedExprDenotes`, `AcceptedIsHostValidIff` |
| `FleetFanOut` | one command for many nodes by concurrent workers | `EveryTargetIsSettled`, `AtMost64InFlight`, `FanOutReturns`, `SummaryAddsUp` |
| `AlertEvaluator`, `AlertRuns` | alert rules with a duration and a silence | `RunAlarmsIff`, `RunRecords`, `RunSendsAreApart` |
| `RefreshTokens` | rotating refresh tokens under concurrent calls | `AtMostOneSuccessor`, `OneLiveTokenPerLogin`, `SessionEndsIff`, `NoExchangeAfterExpiry` |
| `Migration`, `MigrationOverwrite`, `MigrationRoundTrip` | packing a site, and unpacking any archive within limits | `UnpackStaysInside`, `UnpackIsBounded`, `LastMemberWins`, `PackUnpackOver` |
| `EntryProbe` | bans for probing the hidden entry too often | `BansExactlyWhenDue`, `CompactInPlace` |
| `IpBan` | the ban cache and the ban table | `BannedUntilOver`, `CacheAgreesWithTable`, `LostWriteAgreesIff` |
| `AntiTamper` | baseline, changes and event log | `ApplyingDiffGivesScan`, `LogReplaysToBaseline`, `BaselineIsAdopted`, `StepToldIff` |
| `Firewalld`, `FirewalldListing` | the printer and the parser of firewalld rules | `ListingRoundTrip`, `CanonicalPrintsTheSame`, `ListingPanicsIff` |
| `Text` | the operations of Go's `strings` and `strconv` that they use | |

Where the program updates an object, a class with the same fields does, and its methods are proved against a
specification function; loops are loops with invariants, maps are ranged over in any order. Where calls run at the same
time, a state machine takes one lock, store or channel operation at a time, in any interleaving. Clocks, failures of
statements, answers of nodes, fresh ids and the order of maps are inputs of the model: a theorem holds for all of them,
with the restrictions listed at the end.

Where code and comment disagree the model follows the code:

- `Schedule.Build` promises that what it returns passes `system.ValidCronExpr` (`internal/modules/cron/schedule.go:31-32`).
  That is true of the friendly kinds and can be false of a raw expression (`AcceptedIsHostValidIff`, `RawPlusBreaksPromise`).
- `MergeManagedBlock` promises to replace the instance's own block (`internal/system/crontab.go:144-146`). A job comment that
  prints as the end marker makes the rest of the block survive the next merge, and one that prints another begin marker makes
  a later merge strip past the block (`MergeTwiceIff`, `MergeViewsIff`, `CommentThatCloses`, `ForeignBeginEats`).
- The comment of `ValidCronExpr` says that it refuses line breaks (`internal/system/crontab.go:46`). It passes one between two
  fields, and the job then takes more than one line of the crontab (`LineBreakPasses`, `RowsAreScheduledIff`).
- `applyChanges` promises one event for each change (`internal/modules/antitamper/store.go:176-177`). The event log and the
  baseline part exactly in a round that records its changes and then cannot take them over (`StepToldIff`).
- The comment of `IPBanGuard` promises bans that outlast a restart (`internal/auth/ipban.go:10-11`). The write is not checked;
  `LostWriteAgreesIff` tells when a lost write shows.

## Model

| member | source | states |
|---|---|---|
| Crontab.MarkersParse | internal/system/crontab.go:187-206 | The begin and end marker of a key are read back as that key, and a begin marker is never taken for an end marker |
| Crontab.OpensIff | internal/system/crontab.go:187-206 | A line opens or closes a block of a key if and only if, trimmed, it is the marker of that key; the old-style markers likewise |
| Crontab.MarkerTexts | internal/system/crontab.go:31-32 | The markers of a key, written out |
| Crontab.LegacyTexts | internal/system/crontab.go:21-24 | The old-style markers, written out |
| Crontab.MarkersStartWithHash | internal/system/crontab.go:21-32 | A line that does not start with # is no marker, keyed or old-style |
| Crontab.StripManagedBlock | internal/system/crontab.go:158-184 | The loop with its two flags keeps exactly the lines outside the blocks of the key and outside old-style blocks; an unclosed block runs to the end |
| Crontab.KeepConcat | internal/system/crontab.go:163-182 | Stripping works piece by piece: the lines kept of a text are those kept of its first part and then of the rest, in the mode the first part ends in |
| Crontab.KeepIsUnopened | internal/system/crontab.go:165-175 | No line that would open a block to delete is left after stripping, and no line is made up |
| Crontab.StripIdempotent | internal/system/crontab.go:158-184 | Stripping twice is stripping once, for any text at all, well formed or not |
| Crontab.RenderManagedBlock | internal/system/crontab.go:117-133 | The builder loop yields begin marker, for each job its sanitized comment (if any) and its trimmed command line, end marker |
| Crontab.SplitRender | internal/system/crontab.go:117-142 | Line by line, a rendered block is the begin marker, the lines of the jobs in order, the end marker and a final newline |
| Crontab.TrimJoined | internal/system/crontab.go:149 | Trimming newlines from the joined text drops exactly its empty lines at the end |
| Crontab.SurvivorsPlain | internal/system/crontab.go:147-154 | What a merge keeps has no block of the key left, and joined it is the stripped and trimmed text |
| Crontab.MergedLines | internal/system/crontab.go:147-154 | A merged crontab is, line by line, the lines that survive the strip and trim, followed by the new block |
| CrontabLaws.SurvivorsOfMerge | internal/system/crontab.go:147-184 | What a later merge finds outside the block is what this merge found, plus what leaks out of the block just written |
| CrontabLaws.MergeTwice | internal/system/crontab.go:147-154 | When no body line reads as the end marker, merging m1 and then m2 for one key is merging m2 alone, on any text |
| CrontabLaws.MergeTwiceIff | internal/system/crontab.go:122-127 | That law holds of valid jobs if and only if no line of the first body reads as the end marker of the key |
| CrontabLaws.OnlyCommentsClose | internal/system/crontab.go:122-142 | Of valid jobs only a comment can do so, so that the condition is a test of the comments |
| CrontabLaws.CommentThatCloses | internal/system/crontab.go:122-127 | Such a comment exists for every key: printed after # it is the end marker |
| CrontabLaws.EarlyEndLeaks | internal/system/crontab.go:176-182 | Behind such a comment a non-empty line of the block stays in the crontab as a foreign line |
| CrontabLaws.KeepOwned | internal/system/crontab.go:158-184 | On a well-formed text stripping removes exactly the lines owned by the key and by old blocks and leaves every other owner its lines in order |
| CrontabLaws.MergeViews | internal/system/crontab.go:144-154 | When no comment prints a marker that disturbs the block, the merged text is well formed, holds exactly the new block for the key, no old-style block, every other key its block verbatim, and the non-empty foreign lines in order |
| CrontabLaws.MergesCommute | internal/system/crontab.go:144-154 | Merges for two different keys, of jobs without such comments, give the same text in either order, up to the order of blocks and empty lines |
| CrontabComments.OnlyCommentsSpoil | internal/system/crontab.go:121-129 | Of valid jobs only a comment can print a line that disturbs the block, so that the condition of MergeViews is a test of the comments |
| CrontabComments.JobShows | internal/system/crontab.go:158-184 | A comment that closes the block makes the command below it foreign; one that opens another block makes the text ill formed |
| CrontabComments.MergeViewsIff | internal/system/crontab.go:117-154 | The law of the merge holds of valid jobs if and only if no comment prints the end marker of the block or a begin marker other than its own |
| CrontabComments.BlockSurvivesIff | internal/system/crontab.go:165-175 | A merge for another key leaves a block verbatim if and only if no line of it opens a block of that key or an old-style one |
| CrontabComments.ForeignBeginEats | internal/system/crontab.go:122-127 | A comment that prints the begin marker of another key makes the next merge for that key strip the rest of the block, its end marker, and on to an end marker of its own |
| CrontabSync.WriteKeepsUpdates | internal/modules/cron/cron.go:379-384 | A write inside the lock, of jobs without marker-shaped comments, replaces just its own block by its snapshot and keeps all other blocks and the foreign lines |
| CrontabSync.StepKeepsLock | internal/system/crontab_lock.go:37-59 | Every step, whatever its jobs, keeps mutual exclusion, and what a call inside the lock has read is still the crontab |
| CrontabSync.NoUpdateIsLost | internal/modules/cron/cron.go:361-386 | From a well-formed crontab and with comments that print no marker, in every interleaving of any number of calls - giving up, failing or dying anywhere - the crontab holds the foreign lines in order, for every key written exactly the rendering of the snapshot last written, and for other keys what was there |
| CrontabSync.OneCallInside | internal/system/crontab_lock.go:37-59 | In every interleaving, whatever the crontab and the jobs hold, at most one call is between lock and release |
| CrontabSync.OneWriteKeepsIff | internal/modules/cron/cron.go:361-386 | The condition on comments is needed: a single call with valid jobs keeps all updates if and only if none of its comments prints a marker that disturbs the block |
| CrontabSync.DeathFreesTheLock | internal/system/crontab_lock.go:37-59 | A process that dies anywhere leaves the crontab as it is and the lock free |
| CrontabSync.LogGrows | internal/modules/cron/cron.go:379-386 | The history of writes used above holds one entry for each successful write, in order, and never loses one |
| CrontabSync.CrontabHost.SyncCrontab | internal/modules/cron/cron.go:361-386 | Alone, a call writes the merge of its job list, so that its block reads back as the rows, or fails and leaves the crontab as it was; the lock is released on every path |
| CrontabRows.RowsAreScheduledIff | internal/modules/cron/cron.go:366-384 | After a merge of valid rows with harmless comments the block of the key reads back, line by line, as begin marker, for each row in order its comment, if any, and one line whose first five fields are those of the expression and whose rest is the trimmed command, and end marker - if and only if no expression contains a line break |
| CrontabRows.BlockShowsRowsIff | internal/system/crontab.go:117-133 | The same of the rendered block alone |
| CrontabRows.AfterAllFields | internal/system/crontab.go:129 | What follows the fields of the expression on its line is the command |
| CrontabRows.LineBreakPasses | internal/system/crontab.go:46-58 | The validator lets a line break between two fields pass, which its comment says it refuses |
| CrontabSync.SoloCall | internal/modules/cron/cron.go:361-386 | The method is the interleaved protocol run without interruption |
| ModuleManager.ReachableIsLeastFixpoint | internal/module/manager.go:147-170 | The set that rounds of Restore reach is the least fixpoint of wanted and all Requires already in |
| ModuleManager.GrowthReaches | internal/module/manager.go:147-170 | A set grown by ready modules in any order stays below that fixpoint and is the fixpoint once nothing is ready |
| ModuleManager.OrderableIsReached | internal/module/manager.go:147-170 | A wanted set with a dependency order (nothing missing, no cycle) is reached completely |
| ModuleManager.OpKeepsConsistent | internal/module/manager.go:71-131 | Enable and Disable - refused, failing or not - keep memory and table in agreement and the enabled set in a dependency order |
| ModuleManager.RestartRoundTrip | internal/module/manager.go:71-172 | After a complete restore and any calls the table wants exactly the modules that are on, and all of them can be reached |
| ModuleManager.RestartRestoresTheSame | internal/module/manager.go:71-172 | After a successful Restore and any sequence of calls, a Restore of a new process with succeeding starts and writes succeeds, in any map order, and enables exactly the same set |
| ModuleManager.Registry.Register | internal/module/registry.go:16-23 | A new id is added at the end of the order; a taken id is refused (the source panics) |
| ModuleManager.Registry.All | internal/module/registry.go:31-37 | The modules come in the order of registration |
| ModuleManager.ModuleTable.SetModuleEnabled | internal/store/modules.go:4-16 | The row is upserted, or left as it was when the write fails |
| ModuleManager.Manager.Enable | internal/module/manager.go:71-97 | The new memory and table, the health recorded, and exactly when the id is unknown or a dependency is missing; a failed write leaves nothing changed |
| ModuleManager.Manager.Disable | internal/module/manager.go:100-131 | The new memory and table, and exactly when another enabled module still requires it |
| ModuleManager.Manager.WantedIds | internal/module/manager.go:136-146 | The loop collects the always-on modules and those the table has as enabled |
| ModuleManager.Manager.RestoreRound | internal/module/manager.go:148-169 | A pass over the remaining ids in any order enables ready ones; without progress or failure nothing is ready any more |
| ModuleManager.Manager.Restore | internal/module/manager.go:135-172 | It always terminates; changes nothing when the table cannot be read; enables a subset of the least fixpoint, all of it when starts and writes succeed, and then succeeds if and only if that is all that is wanted |
| SafePath.JoinIsConcat | internal/system/safepath.go:30-31 | Joining the root and a cleaned relative path is the concatenation of their components |
| SafePath.WithinRootIsPrefix | internal/system/safepath.go:55-63 | The string test of withinRoot holds exactly when the root is a prefix of the path component by component, for the root / too |
| SafePath.DotDotStaysBelow | internal/system/safepath.go:26-35 | The candidate is below the root for every relative path: .. never climbs above it |
| SafePath.CleanIsWalk | internal/system/safepath.go:26-31 | Cleaning a path gives where following it leads, where no link is met |
| SafePath.ResolveExistingLoop | internal/system/safepath.go:68-90 | The loop ends, keeps cur joined with missing equal to p, and returns the deepest existing ancestor resolved plus the missing rest, or the error met |
| SafePath.WalkConcat | internal/system/safepath.go:72 | Following a path is following its first part and then the rest |
| SafePath.ResolvedEntry | internal/system/safepath.go:40-50 | When the parent can be reached, resolveExisting has found the entry that a system call acts on, or that entry is a link that Lstat sees |
| SafePath.SafeJoinStaysInside | internal/system/safepath.go:25-51 | Whatever links a static file system has, a system call on a path that SafeJoin returns, not following a final link, fails or acts on an entry inside the root that is no link |
| SafePath.SafeJoinIs | internal/system/safepath.go:25-51 | For any file system and any relative path, what SafeJoin answers: the path is handed out if and only if it is the root itself, or ends at no link and the deepest part of it that is there leads into the root, through links or not; it fails where a file or too many links are on the way |
| SafePath.SafeJoinAtEntryIff | internal/system/safepath.go:36-51 | A path whose parent can be reached is handed out if and only if it is the root, or the entry that a system call acts on lies in the root and is no link |
| SafePath.ResolveDeepest | internal/system/safepath.go:68-90 | resolveExisting is the place of the deepest part that is there, and then what is missing |
| SafePath.LinkFreeAccepts | internal/system/safepath.go:25-51 | Conversely, where nothing is a link SafeJoin returns every path below the root, except below a file |
| SafePath.Walk | internal/system/safepath.go:72 | Following links ends at an entry that exists and is no link, with no more links used than allowed |
| Directories.WalkInLarger | internal/system/safepath.go:72 | A path that leads somewhere leads there still when entries are added |
| Directories.MkdirAllOutcome | internal/modules/migration/backend.go:207 | MkdirAll makes nothing, or succeeds and makes exactly the missing directories below the deepest part that is there, wherever links have led; a dangling link on the way stops it |
| Directories.MkdirAllReal | internal/modules/migration/backend.go:126 | Where no link and no file is on the way, it makes the path itself and what is missing above it |
| Directories.OpenAtEntry | internal/modules/migration/backend.go:210 | A file is opened or created at the entry of its name unless that is a link, which is followed |
| Directories.ResolveGap | internal/system/safepath.go:68-90 | resolveExisting ends exactly where MkdirAll begins |
| Directories.MkdirAllInside | internal/system/safepath.go:36-43 | A directory whose path SafeJoin has resolved below the root is made below the root, with all that is missing above it |
| Directories.FileInside | internal/system/safepath.go:36-50 | So are the directories above such a file, and the file is then opened below the root, although the file system has grown since the check |
| Directories.SafeJoinNeedsRealRoot | internal/system/safepath.go:24-43 | When the name of the root passes through a link, SafeJoin hands out nothing at all |
| Directories.SafeJoinAccepts | internal/system/safepath.go:25-51 | SafeJoin passes the root itself and what is or could be in a directory below it that is free of links, whatever links there are elsewhere |
| RateLimiter.SweepKeepsSame | internal/server/middleware.go:208-219 | A sweep deletes only buckets that are full again |
| RateLimiter.EvictionIsInvisible | internal/server/middleware.go:203-237 | For every request sequence over all addresses the sweeping limiter answers as one that never deletes a bucket, whenever it sweeps |
| RateLimiter.TakeLevel | internal/server/middleware.go:221-236 | A request takes one token from its own bucket or none, and leaves the level of every other address alone |
| RateLimiter.RateIsBounded | internal/server/middleware.go:179-237 | No address passes more than burst + T requests in any span of T seconds, whatever is requested |
| RateLimiter.RefusedIff | internal/server/middleware.go:203-237 | The sweeping limiter refuses a request if and only if less than one token would be left of a full bucket since some earlier request of the same address, with one token for each second and one spent for each request passed since |
| RateLimiter.IpLimiter.Sweep | internal/modules/files/ratelimit.go:33-42 | Deleting idle entries in any order leaves exactly the buckets used within the last burst seconds, or minute |
| RateLimiter.IpLimiter.Allow | internal/modules/files/ratelimit.go:27-60 | The method on the bucket map does one step of the limiter of the two theorems |
| CronSchedule.FillRange | internal/modules/cron/schedule.go:189-191 | The inner loop, on unbounded integers, adds exactly the arithmetic progression from the first value to the last |
| CronSchedule.LoopIsExactIff | internal/modules/cron/schedule.go:189-191 | The loop on 64-bit integers takes the same values and then leaves, if and only if the value after the last one fits into 64 bits; otherwise it goes on from a negative value. Steps up to 2^63 - 1 less the last value are fine |
| CronSchedule.ProgressionIs | internal/modules/cron/schedule.go:189-191 | A value is in the progression exactly when it lies in the range at a multiple of the step from its start |
| CronSchedule.ParseElement | internal/modules/cron/schedule.go:154-188 | The body of the loop reads one list element: its step, its range or value, or fails |
| CronSchedule.ParseFieldLoop | internal/modules/cron/schedule.go:151-197 | The loop over the comma list is the union of the elements, or fails with the first that is malformed |
| CronSchedule.ParseBaseSpells | internal/modules/cron/schedule.go:167-188 | *, a value or an ordered range is read exactly as the grammar spells it |
| CronSchedule.ParsePartSpells | internal/modules/cron/schedule.go:154-188 | So is an element with an optional step of at least 1 |
| CronSchedule.DenotedFieldParses | internal/modules/cron/schedule.go:151-197 | Every comma list of the grammar is accepted and gives exactly the union of the progressions it denotes |
| CronSchedule.ParsedFieldDenotes | internal/modules/cron/schedule.go:151-197 | Nothing else is accepted |
| CronSchedule.ParsePartsBounds | internal/modules/cron/schedule.go:151-197 | The set is never empty and stays inside the bounds of the field |
| CronSchedule.SpecMeans | internal/modules/cron/schedule.go:218-228 | matches is the calendar rule: Sunday 7 counts as 0, and the two day fields are joined by or when neither is * |
| CronSchedule.DenotedExprMatches | internal/modules/cron/schedule.go:118-148 | Five comma lists of the grammar are accepted, and the expression matches exactly the instants they mean |
| CronSchedule.AcceptedExprDenotes | internal/modules/cron/schedule.go:118-148 | Nothing else is accepted |
| CronSchedule.NumberField | internal/modules/cron/schedule.go:199-214 | A printed number is parsed to that number alone |
| CronSchedule.FieldsOfBuilt | internal/modules/cron/schedule.go:119 | The five texts of a built expression are read back as they were written |
| CronSchedule.BuildPrints | internal/modules/cron/schedule.go:33-89 | Build accepts a friendly schedule if and only if the numbers it uses are in range, and then prints its five fields |
| CronSchedule.CompiledScheduleIsDue | internal/modules/cron/schedule.go:33-75 | For every friendly schedule that Build accepts and every instant, the built expression matches exactly when the schedule is due, and the validator of the system package accepts it |
| CronSchedule.AcceptedIsHostValidIff | internal/modules/cron/schedule.go:31-32 | The comment on Build promises that all it returns passes that validator; of an accepted expression this holds if and only if its characters and field lengths are those the validator knows |
| CronSchedule.RawPlusBreaksPromise | internal/modules/cron/schedule.go:35-40 | A raw schedule +5 * * * * is returned by Build and refused by the validator |
| CronNames.DayNameIff | internal/modules/cron/schedule.go:113-115 | The names of the weekday table, in any letter case, are the seven days with their numbers, written out apart from the table |
| CronNames.MonthNameIff | internal/modules/cron/schedule.go:109-112 | So are the twelve months |
| CronNames.DayNameMatches | internal/modules/cron/schedule.go:202-207 | * * * * and a name of a weekday, in any case, matches exactly on that day |
| CronNames.MonthNameMatches | internal/modules/cron/schedule.go:202-207 | * * * and a name of a month and * matches exactly in that month |
| FleetFanOut.StepKeepsCounts | internal/modules/fleet/fleet.go:242-268 | Every step keeps the fill of the semaphore equal to the workers that hold a slot, and the signals equal to those finished |
| FleetFanOut.CollectedMeansFinished | internal/modules/fleet/fleet.go:267-272 | Once every done signal was collected every worker has finished, so nothing is stored after the sweep |
| FleetFanOut.AtMost64InFlight | internal/modules/fleet/fleet.go:242-266 | In every interleaving at most 64 dispatches are under way |
| FleetFanOut.EveryTargetIsSettled | internal/modules/fleet/fleet.go:242-273 | When fanOut has swept, each distinct target has its one row. It tells of the reply last stored for the node, as a success if and only if that does not say failed and has exit code 0; without one it is a timeout; rows of other jobs are untouched |
| FleetFanOut.RecordedIsAnswered | internal/modules/fleet/fleet.go:248-264 | In every interleaving what is stored of a node is a reply that this node gave |
| FleetFanOut.AnswerIsStored | internal/modules/fleet/fleet.go:248-264 | A reply that arrives can be stored, and then shows in the row of its node |
| FleetFanOut.RecordedStays | internal/modules/fleet/store.go:318-334 | A node whose reply was stored stays a node with a stored reply |
| FleetFanOut.FanOutReturns | internal/modules/fleet/fleet.go:242-273 | No interleaving is longer than six steps for each target and the sweep, and until the sweep some step is always possible |
| FleetFanOut.NeverStuck | internal/modules/fleet/fleet.go:245-269 | No state that keeps the counts deadlocks |
| FleetFanOut.Summarize | internal/modules/fleet/fleet.go:296-309 | The loop counts the rows of each terminal state |
| FleetFanOut.CountersAddUp | internal/modules/fleet/fleet.go:296-309 | The three counters add up to the total if and only if every row is in a terminal state |
| FleetFanOut.SummaryAddsUp | internal/modules/fleet/fleet.go:235-240 | What the handler returns has one result for each distinct target, and success + failed + timeout is the total |
| FleetFanOut.InitAllRows | internal/modules/fleet/fleet.go:228-232 | After the loop over the targets exactly they have a row, and it is pending |
| FleetFanOut.ResultStore.InitResults | internal/modules/fleet/fleet.go:228-232 | The loop of inserts makes one pending row for each target; a repeated target is refused and only logged |
| FleetFanOut.ResultStore.InitResult | internal/modules/fleet/store.go:312-316 | Refused exactly where the key is taken |
| FleetFanOut.ResultStore.StoreReply | internal/modules/fleet/fleet.go:254-264 | A reply is stored as failed when it says so or exits non-zero, as success otherwise, in an existing row only |
| FleetFanOut.ResultStore.SweepPending | internal/modules/fleet/store.go:328-334 | Exactly the pending and running rows of the job become timeouts |
| AlertEvaluator.PrefixSame | internal/modules/alert/evaluator.go:56-88 | What the history says of a round does not change as rounds are added |
| AlertEvaluator.StateAlwaysTells | internal/modules/alert/evaluator.go:10-14 | firingSince is the start of the unbroken run of firing rounds, lastNotify the last successful send since the rule was enabled |
| AlertEvaluator.EvaluatorRefinesHistory | internal/modules/alert/evaluator.go:56-88 | For one rule, at every round: overdue, tried and sent exactly as its history demands - a send is tried if and only if the unbroken run is old enough and no successful send of the enabled rule is younger than the silence |
| AlertEvaluator.SendsAreApart | internal/modules/alert/evaluator.go:75-86 | Sends of a rule that stays enabled are at least the silence apart |
| AlertEvaluator.RuleByRule | internal/modules/alert/evaluator.go:56-88 | Each rule is evaluated on its own state alone |
| AlertEvaluator.StatesAreHistories | internal/modules/alert/evaluator.go:42-96 | Over whole runs the states map holds for every rule the state of its own history, and nothing for a rule that is not enabled |
| AlertEvaluator.RoundOfRule | internal/modules/alert/evaluator.go:56-88 | In a round each rule has the one history row and the one send of its own evaluation |
| AlertEvaluator.NotifiedGoThrough | internal/modules/alert/evaluator.go:40-96 | The number that a round returns is the number of the sends tried that went through |
| AlertEvaluator.RunRefinesHistory | internal/modules/alert/evaluator.go:42-96 | In every round of every run of the whole evaluator: a send is tried for an enabled rule if and only if its history demands it; it has one history row if it is overdue and the row can be written, else none; the row says whether a send succeeded and whether none was tried |
| AlertEvaluator.RunSendsAreApart | internal/modules/alert/evaluator.go:75-86 | Over runs, a successful send and a later try, with the rule enabled all the time, are at least the silence apart |
| AlertRuns.RunAlarmsIff | internal/modules/alert/evaluator.go:42-96 | In every round of every run a send is tried for an enabled rule if and only if its metric, read from the samples, has been beyond the threshold of its comparator in every round since one that lies the duration back, and no send that succeeded since it was enabled is younger than the silence |
| AlertRuns.RunRecords | internal/modules/alert/evaluator.go:71-88 | One row for a breach that has lasted long enough and can be recorded, with the measured value, whether a send succeeded and whether none was tried; otherwise none |
| AlertRuns.BreachIff | internal/modules/alert/eval.go:45-138 | A rule fires if and only if the field of its metric is beyond its threshold: above for gt, below for lt; the disk rate is the bytes between two samples against the time between them, or 0 when there is no rate |
| AlertEvaluator.Evaluator.EvaluateRule | internal/modules/alert/evaluator.go:57-87 | The body of the loop: new state, whether it tried and whether it sent, and the history row unless that cannot be written |
| AlertEvaluator.Evaluator.EvaluateRound | internal/modules/alert/evaluator.go:42-96 | A round updates all enabled rules, drops the others, tries the sends and appends the rows of RunRefinesHistory in order and returns the number of sends; a failed rule query changes nothing |
| RefreshTokens.ConsumeKeeps | internal/auth/service.go:109-115 | The conditional revocation keeps the invariant: the token it wins was not exchanged and no other call holds it |
| RefreshTokens.StepKeeps | internal/auth/service.go:104-146 | Every store statement of every call, failing ones, logouts and restarts included, keeps the invariant |
| RefreshTokens.AtMostOneSuccessor | internal/auth/service.go:102-122 | In every interleaving a refresh token is exchanged at most once |
| RefreshTokens.OneLiveTokenPerLogin | internal/auth/service.go:102-128 | In every interleaving the tokens of a login form a path from the token of the login, all for its user, and all but the last are revoked |
| RefreshTokens.EveryTokenHasItsLogin | internal/auth/service.go:135-146 | Every token in the table belongs to the path of exactly one login |
| RefreshTokens.RevocationIsPermanent | internal/store/tokens.go:50-67 | Tokens are never deleted, given to another user or extended, and a revoked one stays revoked |
| RefreshTokens.OverIsForGood | internal/auth/service.go:104-128 | A token revoked with no exchange under way gets no successor any more |
| RefreshTokens.SessionEndsIff | internal/auth/service.go:104-128 | A session can never go on if and only if its newest token is revoked with no exchange of it under way |
| RefreshTokens.NoExchangeAfterExpiry | internal/store/tokens.go:32-67 | In every interleaving a token that was exchanged was revoked for it by a call that had read it, before it expired |
| RefreshTokens.UnsureRevokes | internal/auth/service.go:109-112 | A conditional revocation that is reported as an error has had its effect, and its call gets no token |
| RefreshTokens.LoginAlone | internal/auth/service.go:135-146 | A login issues a fresh token that comes from no other |
| RefreshTokens.LogoutAlone | internal/auth/service.go:124-127 | A logout revokes its token and does nothing else |
| RefreshTokens.RestartEnds | internal/auth/service.go:104-122 | A restart between the revocation and the issue ends the session |
| RefreshTokens.TokenStore.CreateRefreshToken | internal/store/tokens.go:18-29 | A fresh active row, or a refusal when the id is taken |
| RefreshTokens.TokenStore.GetValidRefreshToken | internal/store/tokens.go:32-48 | The token if and only if it exists, is not revoked and has not expired; in the second of its expiry it is still read |
| RefreshTokens.TokenStore.RevokeRefreshToken | internal/store/tokens.go:50-53 | The row is revoked, whatever it was |
| RefreshTokens.TokenStore.RevokeRefreshTokenIfActive | internal/store/tokens.go:57-67 | It reports true exactly when the row was active, and then has revoked it; in the second of its expiry a token is no longer active |
| RefreshTokens.TokenStore.Refresh | internal/auth/service.go:104-122 | Without interference: a new token for the same user and the old one revoked, or no token; the old one is consumed even when issuing fails |
| RefreshTokens.AloneIsTheMethod | internal/auth/service.go:104-122 | The method and the interleaved calls are one protocol |
| Migration.Pack | internal/modules/migration/backend.go:58-93 | The walk appends manifest, one member for each entry, and the dump; it fails exactly when the site holds a socket |
| Migration.PackedIsArchive | internal/modules/migration/backend.go:58-93 | The members of a package one by one: manifest.json, for each entry a member below site/ with its kind and data, and database.sql |
| Migration.ReadManifest | internal/modules/migration/backend.go:95-123 | The first member named manifest.json is decoded from what arrives of it; without one there is no manifest, and an archive that breaks off earlier cannot be read |
| Migration.ManifestIsFirst | internal/modules/migration/backend.go:95-123 | What is decoded is what arrives of the first member of that name, unless the archive breaks off before it; without one there is no manifest |
| Migration.UnsafeEntryIff | internal/modules/migration/backend.go:152-181 | A member is called unsafe if and only if SafeJoin refuses its path; one that is not of the site, or is named just site/, is passed over otherwise |
| Migration.MemberGrows | internal/modules/migration/backend.go:152-183 | Whatever its name, kind and data, and whatever links there are, a member removes nothing and changes no file into a directory or a link |
| Migration.MemberCounts | internal/modules/migration/backend.go:206-226 | A member counts as one entry and is charged the bytes that arrive |
| Migration.UnpackCounts | internal/modules/migration/backend.go:139-184 | For any archive and any file system, the counters: on success exactly the bytes of the members restored were written, on failure at most one byte more than the budget left |
| Migration.UnpackIsBounded | internal/modules/migration/backend.go:125-226 | For any archive, any file system and any destination at most maxUnpackBytes + 1 bytes are written, at most maxUnpackBytes on success, and at most maxUnpackEntries members are accepted |
| Migration.WriteFileInside | internal/modules/migration/backend.go:206-226 | Writing a member that SafeJoin has let pass leaves everything outside the destination as it was, whatever links there are |
| Migration.SiteMemberInside | internal/modules/migration/backend.go:165-173 | So does every member of the site, judged on the file system as it is when the member comes |
| Migration.UnpackInside | internal/modules/migration/backend.go:139-184 | So does the whole loop, for any archive, once the destination stands |
| Migration.UnpackStaysInside | internal/modules/migration/backend.go:125-204 | For any archive, any file system with any links and any destination, outside of the destination no file is written and nothing is made, but for the directories that making the destination makes; without a link on its way these are above it |
| Migration.Host.CopyAndCharge | internal/modules/migration/backend.go:214-225 | The copy is cut at the budget and one byte, charged by what arrived, and refused when that passes the budget |
| Migration.Host.WriteRegularTo | internal/modules/migration/backend.go:206-226 | The file, where its name leads, holds what arrived, and the budget left is returned |
| Migration.Host.ExtractMember | internal/modules/migration/backend.go:188-201 | Directories are made, regular files written, other kinds skipped |
| Migration.Host.Restore | internal/modules/migration/backend.go:152-183 | The switch over the name of a member |
| Migration.Host.RestoreAll | internal/modules/migration/backend.go:139-185 | The loop with its entry counter and shared budget is the function of the theorems, for archives that break off too |
| Migration.Host.UnpackArchive | internal/modules/migration/backend.go:125-186 | The destination is made first, then the loop |
| MigrationRoundTrip.MemberPlace | internal/modules/migration/backend.go:262-265 | The name given to a packed entry leads back to its place below any destination, for the root too |
| MigrationRoundTrip.RestoreSite | internal/modules/migration/backend.go:242-279 | When there is room, unpacking the members of the walk in order succeeds if and only if what stands at their places has their kinds, and then restores every directory and regular file and changes nothing else below the root |
| MigrationRoundTrip.PackUnpackOver | internal/modules/migration/backend.go:58-226 | A packed site unpacks over any destination free of links on its way if and only if it fits the limits and what stands at the places of its entries has their kinds; then every directory and regular file of the site is there with its own bytes, whatever the files held before, everything else is as it was, and the dump is where it is wanted |
| MigrationRoundTrip.PackUnpackRoundTrip | internal/modules/migration/backend.go:58-226 | A packed site unpacks into an empty destination if and only if it fits the limits, and then every directory and regular file is there byte for byte, nothing else is, and the dump is where it is wanted; readManifest gives back what the decoder makes of the encoded Meta |
| MigrationOverwrite.LastMemberWins | internal/modules/migration/backend.go:139-226 | After a successful unpack of any archive into any destination, with any links, a file that members lead to holds exactly the data of the last of them, whatever it held before; every other file holds what it held, and none has been made |
| MigrationOverwrite.MemberStores | internal/modules/migration/backend.go:206-226 | A member restored stores all its data at the entry that its path then leads to, and changes no other file |
| MigrationOverwrite.LastDumpWins | internal/modules/migration/backend.go:155-164 | The dump is that of the last such member, if it is wanted and there is one, else as it was |
| EntryProbe.KeptTwice | internal/server/entryprobe.go:46-52 | Times dropped at an earlier probe would be dropped at a later one too |
| EntryProbe.BansExactlyWhenDue | internal/server/entryprobe.go:39-61 | With fixed limits the guard bans at exactly the probes at which the probes of the address since its last ban in the window, this one included, exceed max |
| EntryProbe.DueSettles | internal/server/entryprobe.go:39-61 | That rule has only one solution: it names every ban |
| EntryProbe.SinceIsPending | internal/server/entryprobe.go:47-53 | Counting probes of the history and counting remembered times is the same |
| EntryProbe.AtMostMaxRemembered | internal/server/entryprobe.go:55-60 | At most max times are remembered of an address, at least one, and none of one just banned |
| EntryProbe.CompactInPlace | internal/server/entryprobe.go:47-52 | The loop moves the times after the cutoff to the front of their own array, losing and duplicating none |
| EntryProbe.EntryProbeGuard.Append | internal/server/entryprobe.go:53 | The current time is added, in place or in a new array |
| EntryProbe.EntryProbeGuard.Record | internal/server/entryprobe.go:45-53 | The times still counted and the current one, with no other address disturbed |
| EntryProbe.EntryProbeGuard.ProbeAddress | internal/server/entryprobe.go:41-61 | The guard on its slices does one step of the history of the theorems |
| EntryProbe.EntryProbeGuard.SetThresholds | internal/server/entryprobe.go:33-38 | New limits, the same record |
| IpBan.StepAgrees | internal/auth/ipban.go:44-98 | Every call keeps cache and table in agreement for all later seconds |
| IpBan.CacheAgreesWithTable | internal/auth/ipban.go:24-82 | In every run with successful writes, for every address and later time, Banned answers whether the stored row lasts longer |
| IpBan.BannedAnswersHistory | internal/auth/ipban.go:24-82 | Expiry clean-up and restarts change no answer: Banned says yes exactly when the last ban in a history nobody cleans is not over |
| IpBan.FailBansAtThreshold | internal/auth/ipban.go:60-72 | A failed login bans if and only if, itself included, the number of failures of the address since it was last banned or reset or the process began is at least the threshold then set |
| IpBan.FailBansInForce | internal/auth/ipban.go:60-90 | That threshold is the one set last, or given to the process when it began |
| IpBan.BannedUntilOver | internal/auth/ipban.go:24-90 | In every run Banned says yes exactly until the beginning of the second in which the last ban, with the duration in force when it was made, runs out |
| IpBan.CounterIsRow | internal/auth/ipban.go:60-72 | The counter in memory is the number of failed logins with no ban, reset or restart at or after them |
| IpBan.LostWriteAgreesIff | internal/auth/ipban.go:67-71 | When the row of a ban could not be written, cache and table still agree if and only if the old row ends in the same second or both are over |
| IpBan.BanStore.BanIP | internal/store/ipban.go:4-11 | The row is upserted, or nothing changes |
| IpBan.BanStore.LoadActive | internal/store/ipban.go:14-30 | The row loop collects exactly the rows that end after now, in any order |
| IpBan.BanStore.DeleteExpiredBans | internal/store/ipban.go:33-36 | Exactly the rows that end at or before now are deleted |
| IpBan.IPBanGuard.constructor | internal/auth/ipban.go:25-41 | When the bans could be read, a new process starts with the active rows as its cache and no failures |
| IpBan.IPBanGuard.Create | internal/auth/ipban.go:24-41 | There is a guard if and only if the bans can be read |
| IpBan.IPBanGuard.IsBanned | internal/auth/ipban.go:44-57 | The answer, and the new cache and table: an expired entry is dropped and expired rows are deleted |
| IpBan.IPBanGuard.RecordFailure | internal/auth/ipban.go:60-72 | A failure is counted, or bans and clears the count |
| IpBan.IPBanGuard.BanAddress | internal/auth/ipban.go:75-82 | Cache, table and failure count after a ban |
| IpBan.IPBanGuard.SetLimits | internal/auth/ipban.go:85-90 | New thresholds, nothing else |
| IpBan.IPBanGuard.ResetFailures | internal/auth/ipban.go:93-97 | The failure count is cleared, a ban in force stays |
| AntiTamper.Diff | internal/modules/antitamper/scanner.go:144-162 | The two loops over the maps, in any order, list every change exactly once |
| AntiTamper.ApplyingDiffGivesScan | internal/modules/antitamper/store.go:178-203 | The changes of a scan, taken over in any order, give the baseline exactly the paths and hashes scanned; an unchanged hash keeps its old time and mode |
| AntiTamper.SecondDiffIsEmpty | internal/modules/antitamper/store.go:176-177 | The same scan has nothing more to report |
| AntiTamper.EmptyDiffIff | internal/modules/antitamper/scanner.go:142-162 | There is nothing to report if and only if paths and hashes are the same |
| AntiTamper.ReplayingDiffGivesScan | internal/modules/antitamper/store.go:205-228 | Replaying the recorded changes on the old hashes gives the hashes scanned, each change starting from what was there |
| AntiTamper.StepToldIff | internal/modules/antitamper/monitor.go:109-121 | A round keeps the log and the baseline in step if and only if it does not record changes that it then fails to take over |
| AntiTamper.LogReplaysToBaseline | internal/modules/antitamper/monitor.go:79-122 | Over runs of rebuilds and scans, replaying the events since the last rebuild gives the hashes of the baseline, and every event starts from what the one before left of its path |
| AntiTamper.CollectIsAll | internal/modules/antitamper/monitor.go:91-108 | A scan holds the files of every directory that could be scanned, and no others |
| AntiTamper.BaselineIsAdopted | internal/modules/antitamper/monitor.go:79-122 | After any run the baseline has exactly the paths and hashes of the last rebuild or scan that took effect |
| AntiTamper.TamperStore.ReplaceBaseline | internal/modules/antitamper/store.go:134-156 | All rows are replaced by the states, in any order, or nothing changes |
| AntiTamper.TamperStore.TakeOver | internal/modules/antitamper/store.go:178-203 | The transaction applies the changes one by one, or nothing changes |
| AntiTamper.TamperStore.RecordEvents | internal/modules/antitamper/store.go:205-228 | The changes are appended in order, or nothing is |
| AntiTamper.TamperStore.ScanOnce | internal/modules/antitamper/monitor.go:79-122 | A round: nothing when paused, without baseline or without changes; else events first and then the baseline |
| Firewalld.PortRichRule | internal/modules/firewall/firewalld.go:17-30 | The builder prints family and source when there is one, then port, protocol and verb |
| Firewalld.IPRichRule | internal/modules/firewall/firewalld.go:33-39 | An address rule is printed with its family, its address and accept or drop |
| Firewalld.SingleParses | internal/modules/firewall/validate.go:72-85 | A printed number is a port specification if and only if it is a port |
| Firewalld.RangeParses | internal/modules/firewall/validate.go:86-100 | A printed range is one if and only if it is an ordered range of ports, and a range of one port is that port |
| Firewalld.ParsePortsLine | internal/modules/firewall/firewalld.go:135-153 | The loop keeps, in order, the tokens with a valid port and protocol as rules that allow them |
| Firewalld.ParseOneLine | internal/modules/firewall/firewalld.go:121-130 | One line of the listing: open ports, a rich rule, or nothing |
| Firewalld.ParseFirewalldRules | internal/modules/firewall/firewalld.go:117-132 | The loop collects the rules of all lines in order, unless a line makes the program panic |
| Firewalld.ParsePortSpec | internal/modules/firewall/validate.go:72-100 | A port specification that is accepted is an ordered pair of ports between 1 and 65535, and a range only when they differ |
| Firewalld.PortTokenParses | internal/modules/firewall/rule.go:40-46 | The canonical text of a port reads as the port does and is its own canonical text |
| Firewalld.IndexFirst | internal/modules/firewall/firewalld.go:182 | A key is found where it was put when its first two characters do not come together earlier |
| Firewalld.RichAttrReads | internal/modules/firewall/firewalld.go:181-195 | The value of an attribute is read back, quoted or not |
| Firewalld.RichAttrPanicsIff | internal/modules/firewall/firewalld.go:194 | On a trimmed line the program panics if and only if the line ends with the first occurrence of the key |
| Firewalld.PortAttr | internal/modules/firewall/firewalld.go:158 | The port of a printed rule is read back in canonical form, whatever its source |
| Firewalld.DeniesIff | internal/modules/firewall/firewalld.go:169-172 | A printed rule is taken for a denial if and only if it denies |
| Firewalld.PortRuleReads | internal/modules/firewall/firewalld.go:157-178 | A printed port rule is read back, quoted or not |
| Firewalld.IPRuleIsSkipped | internal/modules/firewall/firewalld.go:33-39 | A printed address rule is passed over |
| Firewalld.CanonicalPrintsTheSame | internal/modules/firewall/firewalld.go:17-30 | A rule read back is valid, means the same ports and prints the same text |
| FirewalldListing.PortsLineRoundTrip | internal/modules/firewall/firewalld.go:123-153 | A line of open ports, indented at will, is read back as rules that allow exactly them, in order |
| FirewalldListing.ListingRoundTrip | internal/modules/firewall/firewalld.go:117-195 | Of any listing of valid port and address rules printed one per line, indented and quoted or not, lines of open ports and other lines, in any order, the parser returns exactly the port rules in order, with action, protocol and source intact, the port canonical and the comment gone |
| FirewalldListing.RichRulePanicsIff | internal/modules/firewall/firewalld.go:157-195 | A rule makes the program panic if and only if it ends with the first occurrence of a key that is read: port, protocol, or source once the others are fine |
| FirewalldListing.ListingPanicsIff | internal/modules/firewall/firewalld.go:117-132 | A listing makes it panic if and only if some line of it does |
| FirewalldListing.CutShortPanics | internal/modules/firewall/firewalld.go:194 | rule port port= is such a line |
| FirewalldListing.TokenIsPort | internal/modules/firewall/firewalld.go:135-153 | A token of the ports line is an open port if and only if it is a valid specification, a slash and tcp or udp |
| FirewalldListing.ListingIsAcceptable | internal/modules/firewall/firewalld.go:117-178 | Whatever the listing, every rule read from it is valid |

## Left out

- HTTP handlers, routing, roles, JSON of requests and audit records: plumbing around the modelled calls.
- Commands run on the host (`crontab`, `firewall-cmd`, docker, nginx and others), NATS, mail and web hooks, metrics: their
  outcome is an input. A `crontab -` child that outlives a dead panel process is not modelled.
- SQL: each statement, or transaction, is one update of a map that takes effect or does not.
- Real clocks, floating point: times are integers in nanoseconds that never go back (only RefreshTokens lets them), tokens
  and metrics are exact. `burst` is at least 1.
- JWT, password hashing, SHA-256 and instance keys: token ids and hashes are arbitrary values, distinct instances have
  distinct keys of lower-case letters and digits.
- The polling loop of `LockCrontab`: waiting is any number of other steps before the lock is taken or given up on.
- CrontabSync.NoUpdateIsLost: keys are valid, no comment prints a marker that disturbs its block (`OneWriteKeepsIff` shows that
  this is needed) and the first crontab is well formed; the block is the last snapshot written, which need not be the job
  table of that moment, because the jobs are read before the lock is taken. Empty lines are not preserved, and only their
  order among blocks is left open.
- CrontabSync.WriteKeepsUpdates: as NoUpdateIsLost.
- CrontabSync.CrontabHost.SyncCrontab: that the block reads back as the rows is said of valid rows with harmless comments and
  expressions on one line; `RowsAreScheduledIff` shows that the last is needed.
- CrontabLaws.MergeViews: no comment prints a marker that disturbs the block; `MergeViewsIff` shows that this is needed.
- CrontabLaws.MergesCommute: for such comments too, and up to the order of the blocks and empty lines, since a block moves to
  the end.
- CronSchedule.FillRange: integers are unbounded, so that a step near 2^63 does not wrap; `LoopIsExactIff` tells which steps do
  in the source.
- SafePath.SafeJoinStaysInside: the file system does not change between the check and the use, the root exists and is
  canonical, and the kernel follows at most as many links as `EvalSymlinks`.
- FleetFanOut.EveryTargetIsSettled: the row inserts and the final sweep succeed; storing a reply may fail and then reads as
  no reply. How `activeTargets` chooses targets is not modelled: they are any list, repetitions included.
- AlertEvaluator: the decryption of channel credentials and the text of notifications; a send succeeds or fails.
- RefreshTokens.SessionEndsIff: the second half chooses the clock, so that an unrevoked token counts as one that can still
  be exchanged.
- Migration.UnpackStaysInside: hard links and mounts are not modelled, nobody else changes the file system meanwhile, and system
  calls fail only for what is in the file system. The dump goes to a file outside the trees.
- MigrationRoundTrip.PackUnpackOver: tar and gzip formats are the sequence of members, JSON is any pair of functions, file
  modes and times are not modelled, the site does not change while it is packed, and no link lies on the way to the
  destination (there may be links anywhere else).
- EntryProbe.BansExactlyWhenDue: for limits that stay fixed; `SetThresholds` alone is modelled as a method.
- IpBan.BannedAnswersHistory: every ban is written; deleting expired rows may fail.
- AntiTamper.LogReplaysToBaseline: a rebuild does not fall between the steps of a scan. How a tree is scanned and files are
  excluded is not modelled; a directory that cannot be scanned counts as empty, as in the source.
- FirewalldListing.ListingRoundTrip: `net.ParseIP` and `net.ParseCIDR` are any test that accepts only non-empty strings of hexadecimal
  digits, dots, colons and slashes. The ufw backend is not modelled.
- Validators of fixed lists, settings, other stores, the mailbox projection and the capped writers: one branch each.
