# casspeed: a verified model of its stateful parts

casspeed is a self-hosted speed-test server written in Go. This Dafny project models the parts of it whose
correctness depends on whole runs, and proves what those parts promise:

- the task scheduler with its retries (`Scheduler*.dfy`),
- the speed-test engine and its progress channel (`Throughput.dfy`, `SpeedTest.dfy`, `ProgressChannel.dfy`),
- the rate limiter (`RateLimit.dfy`),
- admin login, lock, sessions (`Admin*.dfy`) and first-run setup (`Setup*.dfy`),
- backups: names, retention, archives, round trip (`Backup*.dfy`),
- binary replacement (`Update.dfy`) and the PID file (`Pid.dfy`),
- path canonicalisation (`PathText.dfy`, `Paths.dfy`) and the metrics windows (`Metrics.dfy`).

`Common.dfy` and `Reals.dfy` hold shared vocabulary. `dafny verify dfyconfig.toml` checks everything.

## How it is built

Objects that the Go code updates in place are classes whose methods change fields, and each method's contract
equates the new state with a pure function of the old one. Protocols in which goroutines, requests or processes
interleave are transition systems over that same function: a run is any sequence of events, an event that is not
possible in a state leaves it alone, and the theorems quantify over all sequences. Reading conventions:

- Strings stand for byte strings: Go's `len` counts bytes.
- Clock readings are integers in nanoseconds and never run backwards; float64 values are reals.
- Random values, the clock, handler outcomes, I/O faults and the answers of gocron are parameters of the events.
- Argon2, AES-GCM, gzip and tar are function parameters; where a law about them is needed it is a named predicate
  (`BackupArchive.Codec.Lawful`, `SpeedTest.IsSquareRoot`).
- What the stages measure and what the samplers read are parameters of the progress channel.
- A login, a setup attempt and a start over the PID file are one step each, and so is the part of `runTask` before
  the handler: the Go code has no lock there, so interleavings inside these parts are not modelled.
- `path.Clean`, `filepath.Glob`, `os.MkdirAll` and the parts of `http.Redirect` and `url.Parse` that decide where a
  redirect leads are not part of this repository; they follow their documented rules. Clients resolve a location as
  sections 4.2 and 5.2 of RFC 3986 say, dot segments included, and send the path as the location writes it; the
  server decodes percent escapes and refuses malformed ones.

Findings, where the code does not do what one would expect, are stated as lemmas with their exact condition:

- A failed write of the setup flag followed by a restart opens setup again (`SetupSpec.SavedFlagDecides`,
  `SetupSpec.AccountCanBeAddedIff`; a schedule is in `SetupSpec.FailedSaveReopensSetup`).
- A server whose own identifier stands in a stale PID file never starts (`Pid.StaleOwnIdentifierRefusesStart`).
- After a failed WebSocket write the producer can block for good (`ProgressChannel.StuckStateIsReached`, exactly when:
  `ProgressChannel.ProducerCanFinishIff`), and a sampler that outlives its stage can send after the close, which
  panics (`ProgressChannel.LateSamplerCrashes`, exactly when: `ProgressChannel.CrashesIffALateSample`).
- Removing expired sessions is invisible only because identifiers are never drawn twice (`AdminProofs.CleanupMattersIff`).
- The trailing-slash redirect sends a path that begins with two slashes and a host to that host
  (`Paths.RedirectsCanLeave`, exactly when: `Paths.LandingIsDecided`), and it resolves parent segments that the
  traversal check would refuse.
- A page that is reached is refused under its own path when that path spells an encoded dot (`Paths.PagesAreStableIff`).
- Path cleaning is not idempotent on some paths without leading slash (`Paths.CleaningIsIdempotentIff`).
- Restoring fails halfway when a file and a directory of the same name meet (`Backup.RestoreUndoesBackup`).
- A backup whose deferred closes fail is reported as a success, prunes older backups as usual, and cannot be restored
  if its archive was torn (`Backup.BackupThenRestore`).
- Extraction leaves the target directory exactly for names that lead up (`BackupArchive.WritesOutsideIff`); archives
  that the service packs have none (`BackupArchive.TargetOfCleanName`).
- Completing the setup asks for no setup token (`SetupSpec.TokensPlayNoPart`).
- A progress speed can exceed the bound of the final rate whenever anything is sent
  (`Throughput.SampleExceedsTheRateLimitIff`), by the factor `5 * durationSec` and no more
  (`Throughput.SampleBoundIsAttained`, `Throughput.SampleSpeedIsBounded`), because the clock is read before the total.
- A question or hash mark in a decoded path is lost in the trailing-slash redirect (`Paths.PlainOwnPageIff`), and a
  parent segment that it uncovers is resolved by the client (`Paths.DotsAreResolvedByTheClient`).
- A torn write of a backup stays under a name that matches the retention pattern; the next success counts it and may
  prune a good backup in its place (`Backup.FailedBackupLeaves`, over whole runs: `Backup.RunBackups`).
- The rate limiter's key is `r.RemoteAddr` (src/server/server.go:624). The `RealIP` middleware may put a proxy's header
  there; otherwise it is address and port of the connection, so a direct client gets a new entry with every connection.
  New keys are never refused under a usable configuration, and neither limit joins connections under different keys
  (`RateLimit.FirstRequestIsAdmittedIff`, `RateLimit.DistinctKeysAreNotLimited`). "Address" below means that key.
- The rate limiter never removes an entry, not even that of a refused request (`RateLimit.EntriesAreNeverRemoved`).
- An interval longer than the longest `time.Duration` rejects everybody forever (`RateLimit.RetryAfterSuffices`).
- A negative backup limit panics (`Backup.Service.CleanOldBackups`); `Percentile` panics for far negative arguments
  (`Metrics.PercentilePanicsIff`).
- The file-extension exception of the trailing-slash redirect, announced in the code's comment, never applies
  (`Paths.RedirectIffTrailingSlash`).

## Model

| member | source | states |
|---|---|---|
| SchedulerProofs.TriggerFreeWorkIsBounded | src/scheduler/scheduler.go:150-188 | once no cron firing, RunTaskNow or AddTask arrives, every interleaving of runs and retries does at most Rank(s) goroutine steps |
| SchedulerProofs.MaximalRunIsQuiescent | src/scheduler/scheduler.go:150-188 | a trigger-free schedule after which no goroutine step is possible has left no goroutine alive, within Rank(s) steps |
| SchedulerProofs.EveryStrategyQuiesces | src/scheduler/scheduler.go:150-188 | whatever interleaving and handler outcomes an adversary chooses step by step, at most Rank(s) goroutine steps leave none alive |
| SchedulerProofs.FirstComeFirstServed | src/scheduler/scheduler.go:150-188 | such a choice of possible steps exists from every state and for any handler outcomes |
| SchedulerProofs.AnyOutcomesDrain | src/scheduler/scheduler.go:150-188 | for any sequence of handler outcomes, at most Rank(s) possible goroutine steps lead to a state without goroutines |
| SchedulerProofs.EveryHistoryQuiesces | src/scheduler/scheduler.go:150-188 | from the empty scheduler, after any history, a trigger-free continuation does at most Rank goroutine steps, and nothing more can run exactly when no goroutine is alive |
| SchedulerProofs.EveryHistoryDrains | src/scheduler/scheduler.go:150-188 | from the empty scheduler, after any history, every way to go on with the goroutines alive ends within Rank steps with none |
| SchedulerProofs.QuiescentIffNothingCanRun | src/scheduler/scheduler.go:150-188 | no goroutine is ever stuck: some goroutine step is possible exactly while one is alive |
| SchedulerProofs.WorkingStepLowersRank | src/scheduler/scheduler.go:150-188 | every step of a run or a retry strictly lowers the rank, whatever the handler returns |
| SchedulerProofs.AdministrationKeepsRank | src/scheduler/scheduler.go:92-107 | enabling, disabling and removing tasks never create work |
| SchedulerProofs.CountersAreExact | src/scheduler/scheduler.go:162-178 | over every run RunCount is the number of successes, FailCount the failures since the last success, LastStatus and LastError describe the last completion |
| SchedulerProofs.StreakIsTheFailuresSinceLastSuccess | src/scheduler/scheduler.go:165-178 | the streak used there consists of failures only and starts right after a success |
| SchedulerProofs.RetryFollowsExactlyWhen | src/scheduler/scheduler.go:165-173 | after any run, a completing run becomes a sleeping retry iff it failed, the task retries on failure, and the failures since the last success, this one included, number less than MaxRetries; otherwise its goroutine ends |
| SchedulerProofs.RetryLimit | src/scheduler/scheduler.go:168-172 | between two successes at most max(0, MaxRetries - 1) retries are launched, never more than failures |
| SchedulerProofs.ExhaustedTaskComesToRest | src/scheduler/scheduler.go:182-188 | at the retry limit, without triggers or a success, sleeping retries end instead of running and none is launched |
| SchedulerProofs.DisabledTaskStaysIdle | src/scheduler/scheduler.go:150-155 | a disabled task is never entered, by cron, by RunTaskNow or by an old retry, until EnableTask is called for its own identifier |
| SchedulerHistory.TaskIsItsHistory | src/scheduler/scheduler.go:150-227 | after any run every field of a task is what the history says: the flag its last setting, LastRun the last begin while enabled, counters and status by its completions; nothing else about it changes |
| SchedulerHistory.RetryRunsExactlyWhen | src/scheduler/scheduler.go:182-188 | after any run, a retry whose sleep is over runs the task again exactly when the failures since the last success number less than MaxRetries, otherwise its goroutine ends; all else stays |
| SchedulerHistory.HandlerIsEnteredExactlyWhen | src/scheduler/scheduler.go:150-160 | after any run, a started goroutine enters the handler with LastRun set to that moment exactly when the last setting of the flag is on, otherwise it ends; all else stays |
| SchedulerHistory.DueRetryRunsAgain | src/scheduler/scheduler.go:165-188 | a failed run that is due for a retry is in the handler again, with LastRun set to that moment, once its retry woke below the limit and began while enabled, whatever happened in between |
| SchedulerHistory.GoroutinesWait | src/scheduler/scheduler.go:145-188 | a goroutine stays where it is through everything but its own steps |
| SchedulerProofs.JobsMatchTasks | src/scheduler/scheduler.go:66-107 | in every reachable state gocron holds exactly the remembered jobs, one for each of their registered tasks |
| SchedulerHistory.RegisteredIff | src/scheduler/scheduler.go:67-107 | an identifier is registered for a task exactly when an accepted AddTask of that task was followed by no RemoveTask of it |
| SchedulerHistory.ScheduledIff | src/scheduler/scheduler.go:67-107 | gocron holds a job for an identifier exactly when an accepted AddTask of an enabled task received it and no RemoveTask followed |
| SchedulerHistory.TriggersStartOneRun | src/scheduler/scheduler.go:77-147 | RunTaskNow and the firing of its job append one started run of the registered task and change nothing else; without a task nothing happens |
| SchedulerHistory.UnknownIdentifiersAreRefused | src/scheduler/scheduler.go:92-227 | removing, enabling, disabling and running fail, without effect, exactly for unknown identifiers |
| SchedulerProofs.AddTaskOutcome | src/scheduler/scheduler.go:66-89 | AddTask accepts exactly new identifiers with an acceptable schedule (ignored when disabled), schedules exactly enabled tasks, and changes nothing otherwise |
| SchedulerProofs.TriggersRunTheRegisteredTask | src/scheduler/scheduler.go:77-80 | a firing job and RunTaskNow start one run of the task registered under the identifier |
| SchedulerProofs.RemovedTaskCannotFire | src/scheduler/scheduler.go:92-107 | after RemoveTask no cron job runs that task |
| SchedulerProofs.OnlyAddRegistersJobs | src/scheduler/scheduler.go:202-213 | EnableTask and everything else but AddTask never register a cron job |
| Scheduler.Scheduler.AddTask | src/scheduler/scheduler.go:67-89 | the maps, jobs and result are those of the specified AddTask |
| Scheduler.Scheduler.RemoveTask | src/scheduler/scheduler.go:92-107 | the maps, jobs and result are those of the specified RemoveTask |
| Scheduler.Scheduler.RunTaskNow | src/scheduler/scheduler.go:136-147 | one more goroutine for the registered task, or an error and no change |
| Scheduler.Scheduler.BeginRun | src/scheduler/scheduler.go:150-160 | a disabled task's goroutine ends; otherwise LastRun is set and the handler entered |
| Scheduler.Scheduler.FinishRun | src/scheduler/scheduler.go:162-179 | the locked bookkeeping, and the goroutine becomes a sleeping retry exactly when one is due |
| Scheduler.Scheduler.WakeRetry | src/scheduler/scheduler.go:182-188 | the retry runs only below the limit, otherwise it ends |
| Scheduler.Scheduler.EnableTask | src/scheduler/scheduler.go:202-213 | only the flag of the registered task object changes |
| Scheduler.Scheduler.DisableTask | src/scheduler/scheduler.go:216-227 | only the flag of the registered task object changes |
| Throughput.ReportedRateIsBounded | src/server/service/speedtest.go:115-170 | for every schedule of at least one worker the reported Mbps is at most threads * chunkSize * 800 / 10^6 and never negative |
| Throughput.ReportedRateIsExact | src/server/service/speedtest.go:165-169 | the reported rate times the time the test took is exactly eight bits for every byte of the total, chunkSize for each iteration |
| Throughput.WorkerStopsIff | src/server/service/speedtest.go:129-135 | after any run, a worker that looks at the clock stops exactly from the deadline on and otherwise adds chunkSize |
| Throughput.TotalIsChunkTimesIterations | src/server/service/speedtest.go:129-135 | in every reachable state the total is chunkSize times all worker iterations |
| Throughput.WorkerIterationLimit | src/server/service/speedtest.go:129-135 | no worker iterates more than 100 times per second of the test |
| Throughput.BarrierTakesTheDuration | src/server/service/speedtest.go:165-166 | the wait for the workers lasts at least the duration |
| Throughput.TotalIsFinal | src/server/service/speedtest.go:165-167 | after the barrier nothing changes the total, late samplers included |
| Throughput.SamplesAreMonotone | src/server/service/speedtest.go:142-163 | progress is positive, non-decreasing and at most 1; sampled totals are non-decreasing multiples of chunkSize never above the running total |
| Throughput.SamplesAreReadOff | src/server/service/speedtest.go:147-155 | every sample is what the clock and, no earlier, the total said at two moments of the run |
| Throughput.ProgressIsTheElapsedShare | src/server/service/speedtest.go:147-151 | progress times the duration is the elapsed time until the duration is over, and then 1 |
| Throughput.FurtherSamplesIff | src/server/service/speedtest.go:142-163 | after any run, further samples can follow exactly when one is begun or the deadline has not passed |
| Throughput.TotalNeverShrinks | src/server/service/speedtest.go:172-227 | the total seen earlier, also in the identical upload test, never exceeds a later one |
| Throughput.SampleSpeedIsBounded | src/server/service/speedtest.go:142-163 | a sample's bytes are bounded by its later reading, and its speed by 5 * durationSec times the bound of the final rate |
| Throughput.SampleExceedsTheRateLimitIff | src/server/service/speedtest.go:147-155 | for a positive duration some schedule samples a speed above the bound of the final rate exactly when threads * chunkSize > 0 |
| Throughput.SampleBoundIsAttained | src/server/service/speedtest.go:142-163 | the factor 5 * durationSec is attained for any number of workers and any chunk size |
| SpeedTest.TestPing | src/server/service/speedtest.go:77-113 | n times the mean is the sum of the n replies, n times the squares of mean and jitter is the sum of their squares, each reply takes ten percent off the loss; 0, 0, 100 without replies |
| SpeedTest.VarianceAndMean | src/server/service/speedtest.go:98-108 | variance and squared mean together are the mean of the squares, for any non-empty list |
| SpeedTest.RepliesConcat | src/server/service/speedtest.go:82-92 | the replies are exactly the positive times, in order |
| Reals.SumConcat | src/server/service/speedtest.go:98-101 | lists add up piece by piece |
| SpeedTest.PingStatistics | src/server/service/speedtest.go:98-108 | the mean lies between the extremes and the variance is at most (max - mean) * (mean - min) |
| SpeedTest.JitterIsAtMostHalfTheSpread | src/server/service/speedtest.go:104-108 | jitter is at most half the difference of the extremes |
| SpeedTest.LossIsAPercentage | src/server/service/speedtest.go:87-110 | loss lies in [0, 100] and is 100 exactly when no probe took a positive time |
| SpeedTest.GenerateRandomData | src/server/service/speedtest.go:229-245 | exactly the requested number of bytes is written, in full buffers except the last, and nothing for a size of zero or less |
| SpeedTest.ConsumeUploadData | src/server/service/speedtest.go:247-263 | the count covers every read up to and including the first that reports an end or an error, and that one decides failure |
| SpeedTest.DownloadThenUpload | src/server/service/speedtest.go:229-263 | a generated body read back is counted completely |
| ProgressChannel.ForwardedIsAPrefixOfSent | src/server/handler/speedtest.go:54-102 | in every interleaving forwarded messages are a prefix of sent ones and at most ten wait in the buffer |
| ProgressChannel.ProducerFollowsTheScript | src/server/service/speedtest.go:52-75 | the producer's messages are a prefix of the eight scripted ones, all of them at the close |
| ProgressChannel.EverythingIsForwarded | src/server/handler/speedtest.go:98-102 | when the channel is closed, no write failed and the forwarding loop has nothing left to do, every sent message was forwarded, in order |
| ProgressChannel.SamplesFollowTheirStart | src/server/service/speedtest.go:62-68 | each sampler message stands after its stage's start message |
| ProgressChannel.SamplesAreSentAsTaken | src/server/service/speedtest.go:156-161 | in every interleaving the samplers' messages are, in order, exactly the accepted samples, with their own stage, progress and speed |
| ProgressChannel.SamplesSpeakOfTheirStage | src/server/service/speedtest.go:213-218 | a sampler's message carries its own stage and no identifiers or figures |
| ProgressChannel.RowIsStoredIff | src/server/handler/speedtest.go:65-79 | the row, with everything measured, is stored exactly when the one insert succeeds |
| ProgressChannel.FinalMessageMatchesStoredRow | src/server/handler/speedtest.go:59-94 | if the insert succeeds, the row and the final message carry the same figures and identifiers |
| ProgressChannel.NoDeadlockWhileReading | src/server/handler/speedtest.go:54-102 | before the close, as long as the client is served, the producer or the forwarder can move |
| ProgressChannel.ProducerStuckAfterWriteError | src/server/handler/speedtest.go:98-102 | after a failed write the state is frozen exactly when the producer stands at a send and the buffer is full |
| ProgressChannel.ProducerCanFinishIff | src/server/handler/speedtest.go:54-102 | after a failed write some continuation closes the channel exactly when the buffered and the producer's remaining messages fit into the buffer together |
| ProgressChannel.StuckStateIsReached | src/server/handler/speedtest.go:98-102 | a failed first write and eight samples lead to a state that no event can leave before the close |
| ProgressChannel.LateSamplerCrashes | src/server/service/speedtest.go:196-220 | a schedule in which a sampler sends after the close |
| ProgressChannel.CrashesIffALateSample | src/server/service/speedtest.go:142-163 | a run panics exactly when a sampler of either stage tries to send after the close |
| RateLimit.AdmittedIff | src/server/server.go:624-651 | in every reachable state admission happens exactly below the concurrency cap and at least MinInterval after the last admission |
| RateLimit.ActiveTestsAreInFlight | src/server/server.go:649-659 | activeTests equals the admitted requests in flight and lies between 0 and MaxConcurrent |
| RateLimit.StepsOfOthersDoNotMatter | src/server/server.go:624-661 | requests of other addresses leave an entry alone |
| RateLimit.EntriesAreNeverRemoved | src/server/server.go:627-659 | an address has an entry from its first request on, admitted or not, and for good |
| RateLimit.FirstRequestIsAdmittedIff | src/server/server.go:624-651 | after any run, the first request of an address is admitted exactly when the concurrency limit is positive and the interval fits a time.Duration |
| RateLimit.DistinctKeysAreNotLimited | src/server/server.go:624-651 | any number of simultaneous requests under different addresses are all in flight together under such a configuration, and none otherwise |
| RateLimit.AdmissionsAreSpaced | src/server/server.go:640-651 | the k-th later admission of an address comes at least k intervals later |
| RateLimit.WindowLimit | src/server/server.go:640-651 | a window of length W holds at most floor(W / MinInterval) + 1 admissions |
| RateLimit.RetryAfterIsInRange | src/server/server.go:641-646 | an interval rejection announces between 0 and MinInterval seconds |
| RateLimit.RetryAfterIsTight | src/server/server.go:633-646 | after any run a refusal announces 60 seconds for too many tests, and otherwise the whole seconds left of the interval since the last admission |
| RateLimit.EarlyRetriesAreRefused | src/server/server.go:640-646 | before the announced time the interval check still refuses |
| RateLimit.RetryAfterSuffices | src/server/server.go:640-646 | one second more than announced passes the interval check exactly when the interval fits a time.Duration (section 10.2.3 of RFC 9110) |
| RateLimit.Limiter.Admit | src/server/server.go:626-651 | the shared table and decision are those of the specified locked section |
| RateLimit.Limiter.Leave | src/server/server.go:653-659 | only the entry of this address is decremented, if it exists |
| AdminProofs.FailuresAreThrottled | src/admin/admin.go:84-101 | over every run attempts count the failures since the last success, and from the sixth on failures are more than 899 seconds apart |
| AdminProofs.AccountIsItsHistory | src/server/store/sqlite.go:511-527 | after any run an account is what its right and wrong passwords make of it: attempts, lock and last login, and nothing else changes |
| AdminProofs.LoginOutcome | src/admin/admin.go:84-120 | which answer a login gets after any run: locked from the fifth wrong password for fifteen minutes in whole seconds, otherwise decided by the password, the count and the identifier |
| AdminProofs.UnknownUsersAreInvalid | src/admin/admin.go:78-82 | without an account the answer is that of a wrong password and nothing is written |
| AdminProofs.GuessingIsSlow | src/admin/admin.go:84-101 | n > 5 failures without a success take more than (n - 5) * 899 seconds |
| AdminProofs.NoSessionDuringLock | src/admin/admin.go:84-120 | after five failures no session is created within 899 seconds, and after fifteen minutes passwords are looked at again |
| AdminProofs.SuccessCleans | src/server/store/sqlite.go:511-515 | a right password clears attempts and lock |
| AdminProofs.CreatesIff | src/admin/admin.go:89-120 | a session is created exactly for a right password on an unlocked account under an unused identifier, and belongs to that account |
| AdminProofs.AdmittedIffGranted | src/admin/admin.go:200-219 | after any run a cookie is admitted exactly when a login created it, no logout followed and it is unexpired; the stored session is then that login's, for its account, refreshed |
| AdminProofs.SessionLastsThirtyDays | src/admin/admin.go:109-120 | a session not logged out is admitted for exactly thirty days, counted in whole seconds |
| AdminProofs.CleanupIsInvisible | src/server/store/sqlite.go:576-579 | with fresh identifiers, erasing every cleanup from a run changes no present or later lookup |
| AdminProofs.CleanupOnlyRemovesExpired | src/server/store/sqlite.go:576-579 | cleanups only ever remove sessions that have expired, and touch no admin row |
| AdminProofs.CleanupMattersIff | src/server/store/sqlite.go:529-579 | a cleanup before a login changes its response exactly when a right password on an unlocked account redraws the identifier of an expired session, and then exactly the lookups of that identifier |
| AdminProofs.FreshnessMatters | src/server/store/sqlite.go:529-533 | such a case over a run: an expired identifier drawn again is admitted only if a cleanup ran before |
| Admin.Handler.Login | src/admin/admin.go:55-136 | setup page, form, rejection, lock or session, with exactly the specified rows written |
| Admin.Handler.Logout | src/admin/admin.go:138-144 | the session of the cookie is removed, if there is one |
| Admin.Handler.RequireAuth | src/admin/admin.go:200-221 | admits exactly an unexpired stored session and refreshes its activity |
| Admin.Store.UpdateAdminLastLogin | src/server/store/sqlite.go:511-515 | exactly one row changes: last login set, attempts and lock cleared |
| Admin.Store.UpdateAdminFailedAttempts | src/server/store/sqlite.go:517-521 | exactly one row changes, in its attempt count |
| Admin.Store.LockAdmin | src/server/store/sqlite.go:523-527 | exactly one row changes, its lock to whole seconds |
| Admin.Store.CreateAdminSession | src/server/store/sqlite.go:529-533 | inserts unless the identifier exists |
| Admin.Store.DeleteExpiredAdminSessions | src/server/store/sqlite.go:576-579 | removes exactly the sessions whose expiry second has passed |
| SetupSpec.CompletedImpliesAdmin | src/admin/setup_handler.go:134-150 | over any attempts, faults and restarts, a completed flag in memory or stored implies an admin row |
| SetupSpec.StoredFlagNeverReverts | src/server/server.go:76-82 | a stored flag stays, no further account appears, every process that serves knows it and none accepts a token |
| SetupSpec.NoTokenAfterCompletion | src/admin/setup.go:20-56 | while setup is complete in memory no token validates in that process, even one generated later |
| SetupSpec.TokenValidatesLaterIff | src/admin/setup.go:20-56 | from any reachable state, restarts included, some later serving process accepts some token exactly when no flag is stored |
| SetupSpec.ValidTokensAreDrawn | src/admin/setup.go:38-47 | in a serving process only a drawn token of 32 hexadecimal digits validates |
| SetupSpec.TokenIsTheLastDrawn | src/admin/setup.go:20-47 | a serving process with setup open accepts exactly the token drawn last |
| SetupSpec.ProcessKnowsCompletion | src/server/server.go:76-82 | a process knows setup as complete exactly when the flag was stored at its start or an attempt has created an account since |
| SetupSpec.ProcessServesIff | src/main.go:289-297 | a process serves exactly when the flag could be read and is set, or else a token could be drawn |
| SetupSpec.AttemptOutcome | src/admin/setup_handler.go:78-150 | in every reachable serving state, which of the six answers an attempt gets, with the lengths and modes of the form spelled out, and that it changes the state exactly when it creates its account |
| SetupSpec.AccountsComeFromForms | src/admin/setup_handler.go:78-150 | over every run the accounts are exactly the names of acceptable forms that met a serving process with setup open; none comes from a password under 8 bytes |
| SetupSpec.FlagIsStoredIff | src/admin/setup_handler.go:143-150 | the flag is stored exactly when such an attempt could also write it |
| SetupSpec.SetupSucceedsIff | src/admin/setup_handler.go:78-150 | when an attempt succeeds, and that its effect survives everything after |
| SetupSpec.TokensPlayNoPart | src/admin/setup_handler.go:72-150 | completing the setup asks for no token: the outcome of any run is the same for any tokens in it |
| SetupSpec.SetupCreatesOneAdmin | src/admin/setup_handler.go:134-150 | without failing flag writes setup creates at most one account in the life of the database |
| SetupSpec.AccountCanBeAddedIff | src/admin/setup_handler.go:78-150 | from any reachable state, a further name can still become an administrator exactly when no flag is stored and the form accepts the name |
| SetupSpec.SavedFlagDecides | src/admin/setup_handler.go:134-150 | after an attempt that created its account, the next process is complete exactly when the flag write did not fail, and another account can follow exactly when it did |
| SetupSpec.FailedSaveReopensSetup | src/admin/setup_handler.go:143-150 | a failing flag write and a restart allow a second account |
| Setup.Wizard.SetupComplete | src/admin/setup_handler.go:78-150 | response and all three kinds of state are those of the specified attempt, for every fault |
| Setup.Wizard.SubmitToken | src/admin/setup_handler.go:19-49 | a submitted token leads on to the wizard exactly when it is not empty and validates |
| Setup.Wizard.Boot | src/main.go:289-297 | a new process loads the flag and draws a token exactly when setup is open |
| Setup.ValidateSetupData | src/admin/setup.go:104-140 | accepts exactly names of 3 to 30 bytes, passwords of at least 8 and the two modes or none; fills in casspeed, production and America/New_York where nothing is given |
| Setup.Memory.GenerateSetupToken | src/admin/setup.go:20-35 | replaces the token, and only it, unless randomness fails |
| Setup.Store.CreateAdmin | src/server/store/sqlite.go:496-509 | inserts unless the name exists or the write fails |
| Setup.Store.SetSetupComplete | src/server/store/sqlite.go:603-612 | stores the flag as text, or fails and changes nothing |
| BackupNames.NamesSortChronologically | src/backup/backup.go:37-38 | file names sort exactly as the wall-clock times they were made at |
| BackupNames.NameSpellsTheTime | src/backup/backup.go:37-38 | prefix, the fields of the time at their places, the dash and the suffix make up the 33 characters of a name |
| BackupNames.MatchesIff | src/backup/backup.go:249 | the pattern matches exactly the prefix, any text and the suffix |
| BackupNames.LessIff | src/backup/backup.go:258-260 | the order of the listing is decided at the first difference |
| BackupNames.WorkingFilesDoNotMatch | src/backup/backup.go:46-66 | .tmp and .decrypted files never match the retention pattern |
| BackupNames.BackupsMatch | src/backup/backup.go:37-38 | every backup name matches the pattern |
| BackupRetention.HistoryIsOnePrune | src/backup/backup.go:247-265 | for any clock and any files present, pruning after every backup leaves what pruning the whole history once would, and touches nothing outside the pattern |
| BackupRetention.NewestBackupsRemain | src/backup/backup.go:247-265 | with increasing timestamps exactly the newest min(n, MaxBackups) backups remain |
| BackupRetention.NewestIsTail | src/backup/backup.go:254-262 | keeping names with fewer than MaxBackups above them is dropping the head of the sorted listing |
| Backup.Service.CleanOldBackups | src/backup/backup.go:247-265 | removes exactly the names outside the newest MaxBackups; panics exactly for a negative limit |
| Backup.Service.CreateBackup | src/backup/backup.go:36-61 | result and directory are those of the specified job, for every fault on the way |
| Backup.BackupResult | src/backup/backup.go:36-61 | which of the results a backup has, with the faults and the key size spelled out: errors of the deferred closes are not looked at; a panic only under a negative limit, with every backup removed |
| Backup.FailedBackupLeaves | src/backup/backup.go:36-61 | a failed backup leaves all other files alone and, exactly after a torn write, a beginning of the sealed bytes under the backup's name |
| Backup.OtherFilesStay | src/backup/backup.go:46-61 | no backup touches a file outside the pattern, except the working file, which only a failing archive leaves behind |
| Backup.NewestBackupIsKept | src/backup/backup.go:36-61 | a success that no name sorts after is kept, complete, under a positive limit |
| BackupRetention.AttemptsAreOnePrune | src/backup/backup.go:36-61 | over attempts that finish, tear or leave nothing, a last success leaves the newest MaxBackups of all names ever written, torn ones counted |
| Backup.RunBackups | src/backup/backup.go:36-61 | over backups that succeed or fail: a last success leaves exactly the newest MaxBackups of all names written, torn files counted, with only successes and a forward clock the newest min(n, MaxBackups); each file holds what its job sealed or a beginning of it, and each finished one reads back as all of its files unless a close failed |
| Backup.Service.CreateArchive | src/backup/backup.go:81-128 | the archive of all visited files; an error when the file cannot be created or a visit fails; success over whatever was left when a deferred close fails |
| Backup.Service.EncryptFile | src/backup/backup.go:179-208 | nonce and sealed bytes, or an error with at most a beginning of them at the destination |
| Backup.Service.RestoreBackup | src/backup/backup.go:64-78 | fails without touching the target exactly when decryption or the write of the decrypted file fails; otherwise all that can be read is extracted and the decrypted file is removed |
| Backup.Service.ExtractArchive | src/backup/backup.go:131-176 | the entries go one by one to their names joined to the target, until one is blocked, fails or cannot be read; a torn entry leaves the bytes read |
| BackupArchive.ExtractionOverlays | src/backup/backup.go:131-176 | extracting succeeds exactly when no file needs a directory where a file stands or stands where a directory is, and then lays exactly the archived files over the disk |
| BackupArchive.EntriesStayBelowIff | src/backup/backup.go:155 | every entry stays below every target directory exactly when no cleaned name starts with a parent segment |
| BackupArchive.WritesOutsideIff | src/backup/backup.go:155-166 | extracting an entry can create a file outside its target exactly when its cleaned name starts with a parent segment |
| BackupArchive.ArchiveIsConfined | src/backup/backup.go:131-176 | without such names, complete or torn, no file outside the target changes |
| BackupArchive.TornArchiveRestoresABeginning | src/backup/backup.go:147-173 | the complete entries of a torn archive are the first files of the backup, laid over the disk exactly when they fit |
| BackupArchive.TearTouchesOneFile | src/backup/backup.go:147-173 | a torn archive ends with an error, and the tear touches at most one file, which gets the bytes read |
| BackupArchive.InterruptedExtraction | src/backup/backup.go:157-173 | an I/O error at an entry leaves the entries before it extracted, at most a beginning of its own file, and nothing of the later ones |
| BackupArchive.ExtractionTouchesOnlyItsTargets | src/backup/backup.go:131-176 | however an extraction ends, files that are no entry's joined name stay as they were |
| Backup.RestoreUndoesBackup | src/backup/backup.go:179-245 | with the same 32-byte key restoring succeeds exactly when the archive can be read to its end and the files fit, and yields the disk overlaid with them, all else unchanged |
| BackupArchive.DecryptUndoesEncrypt | src/backup/backup.go:205-239 | the nonce-prefix framing is undone exactly for 32-byte keys (sections 7.1 and 7.2 of NIST SP 800-38D) |
| BackupArchive.DecryptedIff | src/backup/backup.go:217-244 | anything is decrypted only with a 32-byte key, behind a 12-byte nonce, and if it can be opened |
| Backup.NewBackupSurvives | src/backup/backup.go:57-60 | the returned file still exists exactly when fewer than MaxBackups names sort after it |
| Backup.BackupThenRestore | src/backup/backup.go:36-78 | the round trip through the two operations: it restores exactly when no close tore the archive and the files fit |
| Update.ReplaceBinary | src/update/update.go:174-202 | success exactly when there is a new binary and no call before the clean-up fails, then with all its bytes and its mode; error: the target holds the old binary unless the roll-back fails, and then the backup does; at every moment one complete binary exists; no other file changes |
| Update.CopyFile | src/update/update.go:218-242 | succeeds exactly when no call fails, with bytes and mode copied, or nothing when source and destination are one file; on the way only the destination changes, holding a prefix of the source |
| Update.InstalledBytesAreTheGivenOnes | src/update/update.go:186-192 | the given file's bytes are installed exactly when it is not the backup path, or holds the old bytes |
| Pid.AtMostOneServer | src/pid/pid.go:48-67 | over starts, exits, crashes and identifier reuse at most one started server is alive |
| Pid.StartOutcome | src/pid/pid.go:48-67 | a start succeeds exactly when the file can be read or is missing, names no live process with our name, and can be written; what the file then holds in each case |
| Pid.EndOutcome | src/pid/pid.go:70-72 | a clean exit removes the file, a crash leaves it |
| Pid.RestartAfterExit | src/pid/pid.go:48-72 | after a clean exit any later start succeeds |
| Pid.StartRefusedIffNamed | src/pid/pid.go:48-56 | a start is refused exactly when the file names a live process with our name |
| Pid.StaleOwnIdentifierRefusesStart | src/pid/pid.go:30-44 | a stale file holding the new process's own identifier refuses it |
| Pid.RestartAfterCrash | src/pid/pid.go:30-42 | after a crash a start under another identifier succeeds |
| Pid.PrintThenParse | src/pid/pid.go:23-28 | the printed decimal identifier is read back, white space around it or not, within 64 bits |
| Pid.SignedThenParse | src/pid/pid.go:23 | a plus or minus in front is read, within 64 bits |
| Pid.OnlyNumbersParse | src/pid/pid.go:23-28 | only digits with at most a sign before them and white space around are read; everything else is corrupt |
| Pid.PidFile.CheckPIDFile | src/pid/pid.go:13-45 | running exactly when a live process with our name is named; corrupt and stale files are removed |
| Pid.PidFile.WritePIDFile | src/pid/pid.go:48-67 | refuses, fails or writes the own identifier |
| Pid.PidFile.RemovePIDFile | src/pid/pid.go:70-72 | removes the file, an error when there is none |
| Paths.LandingIsDecided | src/server/server.go:113-118 | every request and its redirects end at a last request that decides: refused, the page of its elements, another server exactly for two leading slashes and a named host or an unparsable location, or an unreadable location |
| Paths.PlainLanding | src/server/server.go:113-118 | the same read off the first path when it has no escapes: another host exactly for a trailing slash and a leading authority that names one, otherwise the page of the segments of the path asked for or a refusal |
| Paths.OwnPageIff | src/middleware/security.go:22-31 | every request that reaches a page reaches the page of its own segments exactly when its last request has the same ones |
| Paths.PlainOwnPageIff | src/middleware/security.go:22-31 | for a redirected path without escapes and parent segments, exactly when it has no question or hash mark |
| Paths.Browse | src/server/server.go:113-118 | a client over the two middlewares ends where the specified visit ends |
| Paths.PagesAreStableIff | src/server/server.go:113-118 | for every request, a page that is reached is a slash and its elements, never redirected or changed; its own path leads to it again exactly when it spells no encoded dot |
| Paths.RedirectsCanLeave | src/middleware/security.go:22-31 | a path of two slashes, a host and a trailing slash is redirected to that host |
| Paths.QuestionMarksCutThePath | src/middleware/security.go:22-31 | the simplest case of a lost page: `/a?/`, decoded, leads to the page of `/a` |
| Paths.DotsAreResolvedByTheClient | src/middleware/security.go:22-31 | `/a/..#/`, decoded, leads to the root, since a client resolves the parent segment that the hash mark uncovers |
| Paths.SamePageIffSameElements | src/server/server.go:113-118 | every two requests that reach pages reach the same one exactly when their last requests have the same elements |
| Paths.NextRequestIsShorter | src/middleware/security.go:11-36 | every redirect that stays asks for a strictly shorter path with a leading slash, so redirects end |
| Paths.QueryIsKept | src/middleware/security.go:25-29 | all redirects of a path without escapes and delimiters carry the query along unchanged |
| Paths.RedirectIffTrailingSlash | src/middleware/security.go:15-32 | a redirect happens exactly for trailing slashes other than the root |
| Paths.RedirectShortens | src/middleware/security.go:25-29 | the target is one slash shorter and carries the query |
| Paths.CleanedIsCanonical | src/middleware/security.go:81-95 | a path with a leading slash becomes a slash and its elements in order with parent segments resolved, keeping a trailing slash (compare sections 5.2.4 and 6.2.2.3 of RFC 3986) |
| PathText.ParentRemovesSegment | src/middleware/security.go:81-82 | resolving obeys the laws of section 5.2.4 of RFC 3986: a parent segment removes the segment before it, or nothing at the root |
| PathText.ElementsConcat | src/middleware/security.go:81-82 | slashes separate the elements of a path, and a piece counts unless it is empty or a dot |
| Paths.CleanedWithoutLeadingSlash | src/middleware/security.go:81-95 | the same for paths without leading slash, where a path without elements leaves a dot |
| Paths.CleaningIsIdempotentIff | src/middleware/security.go:81-95 | cleaning twice is cleaning once exactly for paths with a leading slash or whose resolved elements start with one that is no parent segment |
| Paths.RejectedIff | src/middleware/security.go:66-79 | a request is refused exactly for `..` in the decoded or raw path or `%2e`, in either case, in the raw path |
| Paths.AcceptedPathsDoNotClimb | src/middleware/security.go:72-79 | an accepted path has no parent segment before or after cleaning, so its segments are its elements |
| Paths.Request.PathSecurity | src/middleware/security.go:62-98 | rejects exactly raw or encoded traversal, otherwise rewrites the path |
| Metrics.WindowHoldsTheLast | src/metrics/metrics.go:146-156 | after any observations the histogram holds exactly the last min(n, 1000), in order |
| Reals.MeanIsWithin | src/metrics/metrics.go:177-191 | the mean lies between any bounds of the window |
| Metrics.PercentileIsAnElement | src/metrics/metrics.go:159-174 | for p in [0, 100] a non-empty window answers with one of its elements |
| Metrics.PercentilePosition | src/metrics/metrics.go:167-173 | the answer is the latest element of the window, in order of observation, with at most p percent of the window before it |
| Metrics.PercentileBelowZero | src/metrics/metrics.go:167-173 | slightly negative arguments are truncated to the oldest element |
| Metrics.PercentilePanicsIff | src/metrics/metrics.go:168-173 | the index runs out of range exactly when the scaled position is -1 or less |
| Metrics.Histogram.ReadPercentile | src/metrics/metrics.go:159-174 | 0 for an empty window, a panic exactly for far negative arguments, an element for a percentage |
| Metrics.MetricsDescribeTheCountedTests | src/metrics/metrics.go:256-298 | over runs with resets and switches the counter and the three equally long windows describe the tests recorded while enabled |
| Metrics.Histogram.Observe | src/metrics/metrics.go:146-156 | appends and trims to the last 1000 |
| Metrics.Histogram.ReadMean | src/metrics/metrics.go:177-191 | the mean of the window, 0 when empty |
| Metrics.Metrics.RecordSpeedTest | src/metrics/metrics.go:256-264 | counter and windows record the test exactly when enabled |
| Metrics.Metrics.Reset | src/metrics/metrics.go:282-298 | counter and windows start over in new histograms |

## Left out

- Goroutines of the speed test (workers, samplers, producer, forwarder) are steps over values: the in-place update of
  the shared total and of the channel is modelled as one atomic step under its mutex or channel operation.
- Speed tests of zero or negative duration or without workers: the Go division then yields NaN or an infinity, which reals do not have.
- Task handler timeouts, scheduler shutdown, NextRun, GetTask and GetStatus: handlers are taken to return, with any outcome.
- gocron's cron parsing and timing: a job may fire at any moment; whether a schedule is valid is a parameter.
- Wrap-around of the scheduler's and the limiter's integer counters: they count events one at a time.
- The URL paths to which the rate limiter applies: the model covers guarded requests.
- Failing writes of attempts, locks and last login, whose errors Login ignores: those writes are taken to succeed.
- Paths.PlainLanding: reads the end off the first path only without `%` and control characters after decoding; with
  them `Paths.LandingIsDecided` reads it off the last request.
- Paths.QueryIsKept: speaks of paths without escapes and delimiters; `Paths.QuestionMarksCutThePath` shows another case.
- Paths.PlainOwnPageIff: the same, beside `Paths.OwnPageIff` for every request.
- What a client makes of a location with control characters: such a request ends as unreadable.
- Routing by the encoded path: a page is the path field that the middlewares hand on.
- Directories that a failing `os.MkdirAll` leaves half made during a restore.
- Metrics.PercentilePosition: speaks of the order of observation, not of the order of the values, because the code does not sort the window.
- Backup directories inside the data directory, symbolic links, file modes in archives, and retention passes in which a removal fails.
- Daylight-saving jumps: the order of backups is the order of their wall-clock times.
- Permission errors in process probing: all processes belong to the same user.
- HTTP, WebSocket and template handling, CORS, GraphQL, Swagger, i18n, themes, e-mail, Tor, GeoIP, SSL discovery,
  service management, logging, the terminal client, user accounts, devices and tokens: presentation, wiring or plain row access.
