# ShellyAdmin: a verified model

ShellyAdmin is a console for a fleet of Shelly devices. This project models the parts of it whose guarantees
rest on whole runs, on interleavings or on a transformation keeping its meaning, and proves those guarantees.
`dafny verify dfyconfig.toml` checks everything.

| module | what it models |
|---|---|
| `RuntimeLease`, `LeaseTimes` | the lease on one shared row that keeps a second instance out: acquire, heartbeat, stale takeover, release; how old the row of a run is |
| `RateLimiter`, `ClockDisorder` | the sliding-window limiter, with slices filtered in place and periodic eviction; requests that enter out of order |
| `FirmwareInstall`, `InstallRuns`, `InstallPolling` | the bulk install job: workers, semaphore, quiet period, polling, deadline, shutdown; what decides a result; its polling beside the loop by itself |
| `AuditLog`, `AuditHistory` | the hash-chained log: append, verify, prune, clear; under a clock that may step back |
| `SecretBox`, `KeyRotation` | the sealed-blob format and the transactional change of the encryption key |
| `Order` | the order of strings |
| `Arith`, `Cidr` | masks and carries on address bytes, and the expansion of a subnet |
| `ScanPool`, `ScanAnswers`, `PoolRuns` | the scan job with its worker pool, its results, its row and its target count; the refresh pool as a variant |
| `Text`, `Tables`, `Credentials` | trimming and cleaning; credentials, groups, assignments and templates |
| `Backup`, `Restore`, `Overlap` | import with its report, export, and references over whole runs, of requests that overlap too |
| `Reservations` | who may work under a device key, provisioning or firmware |
| `Devices` | device rows: numbers, and reachability under writers with old copies |
| `Digest` | challenge parameters and the request counter |
| `Totp`, `CodeOverlap`, `LoginLock` | one-time and backup codes; the account lockout; logins that overlap |
| `AutoUpdate` | the update toggle kept in a device's schedule |
| `Labels` | the text that identifies a labelled counter |

Code that changes state step by step is written as classes and methods with loops; each method is proved equal to
a specification function, and the theorems are about the runs of that function. Protocols with several actors are
state machines whose runs interleave freely. Cryptographic functions, encodings and the network are parameters,
constrained only where a theorem says so.

What the proofs found, where the code is narrower than its comments:

- Lease: heartbeat interval and staleness are both a minute, so a punctual heartbeat comes when the row is already
  stale (`HeartbeatDueTooLate`). That does no harm until someone asks at that moment: `MutualExclusion` says exactly
  which runs are safe, `DeploymentExactly` what is left of it for a sound deployment.
- Rate limiter: the clock is read before the lock, so the guaranteed window is shorter by the disorder (`BoundExactly`).
- Audit log: an edit or deletion is noticed only by a later row (`EditDetected`, `DeletionDetected`), and after a
  prune the verifier reports the oldest row that lost its predecessor (`VerdictExactly`). Row ids are not part of the
  chain.
- Subnets: a text that only the first of two parsers takes skips the range check (`PublicNetworkListed`).
- Refresh: a cancelled refresh with more devices than workers can wait for ever (`RefreshStuckExactly`); a scan
  cannot. A restarted scan keeps an old total (`DoneWithinTotalExactly`). The limit on targets is never reached
  (`LimitNeverReached`).
- Lockout: the budget holds for serial attempts; overlapping ones can exceed it or lose a failure (`LoginLock.SoundExactly`,
  `TwoPassedExactly`, `LostFailure`).
- Devices: a bulk refresh hands failed rows to the scan write, which marks them online (`ScanOutcome`); a row or a
  scan written from an old copy can duplicate a number (`SingleWriteUnique`, `OldListUnique`).
- Import: a version 1 bundle announces group changes it does not make (`AnnouncedButNotApplied`); a restore drops
  the templates' credential references (`RestoreOwnTemplates`); tags are compared joined (`UpdateListExact`).
- Credentials: checks and writes are separate calls, so overlapping requests can leave a dangling reference
  (`IntactExactly`, `OverlapDangles`). An export with a stored token cannot be imported (`SealedTokenRefused`).
- Reservations: two holders of one kind on one key release each other (`StealsExactlyWhen`).
- Backup codes: the bit mask covers 64 places (`AcceptedAgainExactly`), ten codes are issued; overlapping logins can
  spend a code twice or make it good again (`CodeOverlap.SoundExactly`).
- Digest: a server that repeats a nonce gets repeated counts (`PairsExactly`).

## Model

| member | source | states |
|---|---|---|
| `RuntimeLease.Service.Acquire` | internal/services/runtimelock/runtimelock.go:155-212 | an instance gets the lease exactly when it has it already, the row is free or stale, or the row bears its own hostname; it then writes itself into the row |
| `RuntimeLease.Service.StartHeartbeat` | internal/services/runtimelock/runtimelock.go:218-228 | the heartbeat starts only for a holder, once |
| `RuntimeLease.Service.Beat` | internal/services/runtimelock/runtimelock.go:240-252 | a tick rewrites the row with the instance and the time, whoever the row named before |
| `RuntimeLease.Service.BeginRelease` | internal/services/runtimelock/runtimelock.go:260-271 | the first half of the release gives up the lease and stops the heartbeat |
| `RuntimeLease.Service.FinishRelease` | internal/services/runtimelock/runtimelock.go:289-292 | the second half deletes the row, whoever it names |
| `RuntimeLease.Play` | internal/services/runtimelock/runtimelock.go:155-292 | the calls of the objects are the steps of the protocol: an Acquire, a heartbeat and the two halves of a release leave the row and the holding that the step leaves |
| `RuntimeLease.ReadThenClaim` | internal/services/runtimelock/runtimelock.go:155-212 | the read and the write of Acquire back to back are the one-step Acquire of the protocol |
| `RuntimeLease.StepExactly` | internal/services/runtimelock/runtimelock.go:155-293 | a step from a state with at most one active instance leads to such a state if and only if it is safe there |
| `RuntimeLease.MutualExclusion` | internal/services/runtimelock/runtimelock.go:155-293 | over all runs of any number of instances: never are two active if and only if every idle instance that acquires while another is active finds a row it may not claim, and every claim that comes some time after its read finds nobody active |
| `RuntimeLease.RowNamesHolder` | internal/services/runtimelock/runtimelock.go:155-293 | in such runs, without heartbeats that outlive their release, the row names the one active instance |
| `LeaseTimes.RowIsLastChange` | internal/services/runtimelock/runtimelock.go:155-292 | in every run, torn claims and late heartbeats included, the row is what its last change left: nothing after a release, else the columns of the one that then acquired or beat, with the time of that moment, a sum of ticks, in whole seconds; for a torn claim the moment of its read |
| `LeaseTimes.RefreshedSince` | internal/services/runtimelock/runtimelock.go:240-252 | in a safe run of a sound deployment the row of an active instance bears the time of its last Acquire or heartbeat |
| `LeaseTimes.DeploymentExactly` | internal/services/runtimelock/runtimelock.go:155-292 | if instances that start have a host of their own, heartbeats stop in time and no claim comes after its read: never are two active if and only if whoever starts while another is active does so less than sixty seconds after the beginning of the second in which that other last acquired or beat, times being sums of ticks |
| `LeaseTimes.DistinctHostsSuffice` | internal/services/runtimelock/runtimelock.go:166-185 | the same for pairwise different hostnames |
| `RuntimeLease.AcquireBreaksExactly` | internal/services/runtimelock/runtimelock.go:166-199 | an Acquire produces a second holder if and only if the row is stale or bears the newcomer's hostname |
| `RuntimeLease.ClaimableFrom` | internal/services/runtimelock/runtimelock.go:188-198 | a row can be taken by another host exactly from sixty seconds after the second it was stamped with |
| `RuntimeLease.HeartbeatDueTooLate` | internal/services/runtimelock/runtimelock.go:36-55 | with the shipped constants the row is already stale when the next heartbeat is due |
| `RuntimeLease.TwoHoldersAtHeartbeat` | internal/services/runtimelock/runtimelock.go:36-55 | so a second host starting at that instant becomes a second holder |
| `RuntimeLease.TwoHoldersByTornAcquire` | internal/services/runtimelock/runtimelock.go:162-210 | two instances whose reads precede both writes both get a free lease |
| `RuntimeLease.TornClaimBreaksExactly` | internal/services/runtimelock/runtimelock.go:162-210 | a write that follows its read later makes a second holder if and only if someone became active in between |
| `RuntimeLease.TakeoverAfterCrash` | internal/services/runtimelock/runtimelock.go:155-212 | a minute after a crash any idle instance gets the lease and is the only holder |
| `RateLimiter.FilterInPlace` | internal/middleware/ratelimit.go:110-115 | filtering writes behind the read index and leaves exactly the later times, in order |
| `RateLimiter.Append` | internal/middleware/ratelimit.go:123 | append extends the slice in place or moves it, leaving all earlier times |
| `RateLimiter.AttemptStore.AllowRequest` | internal/middleware/ratelimit.go:102-129 | the answer and the new table, hit counter and eviction included, are those of the specification function |
| `RateLimiter.AttemptStore.CompactStore` | internal/middleware/ratelimit.go:131-146 | eviction keeps, for every key, the times after the cut-off, and drops keys without any |
| `RateLimiter.NextInHalves` | internal/middleware/ratelimit.go:102-129 | the two halves of a request compose to one step of the specification |
| `RateLimiter.TidiedAgrees` | internal/middleware/ratelimit.go:131-146 | an eviction changes no later answer |
| `RateLimiter.StepAgrees` | internal/middleware/ratelimit.go:102-146 | one request keeps the store and the complete log in agreement |
| `RateLimiter.AgreesWithLog` | internal/middleware/ratelimit.go:102-146 | over every run with a clock that does not run back, the limiter answers every request as a log that keeps all admissions for ever |
| `RateLimiter.LogIsGranted` | internal/middleware/ratelimit.go:102-129 | that log holds exactly the admitted requests |
| `RateLimiter.WindowBound` | internal/middleware/ratelimit.go:102-129 | in no window of the configured length are more than the maximum admitted for a key |
| `RateLimiter.RefusedOnlyWhenFull` | internal/middleware/ratelimit.go:116-122 | a request is refused exactly when its window already holds the maximum |
| `RateLimiter.TidiesExactly` | internal/middleware/ratelimit.go:109-129 | a request tidies with every 128th hit, or if its admission leaves more than 4096 keys; then only keys admitted in the last ten minutes are left, and otherwise no key but its own is touched |
| `ClockDisorder.GrantsAreGranted` | internal/middleware/ratelimit.go:102-129 | the grants of a run are the requests that the limiter answered with yes |
| `ClockDisorder.StoreHasGrants` | internal/middleware/ratelimit.go:110-146 | in whatever order times come, the store holds every grant later than the latest cut-off |
| `ClockDisorder.BoundExactly` | internal/middleware/ratelimit.go:103-129 | the clock is read before the lock, so times may come late: with times at most d late no stretch of a length sees more than the maximum of grants, in every run, if and only if the length is at most window - d |
| `ClockDisorder.AgreesExactly` | internal/middleware/ratelimit.go:103-129 | the limiter answers as the complete log does, in every run with times at most d late, if and only if d is 0 |
| `FirmwareInstall.StepKeepsInvariant` | internal/services/jobs/firmware_install.go:170-290 | every step of every worker keeps phase and status in step, at most five in flight, and moves a status only pending to error/unknown/updating and updating to current/unknown |
| `FirmwareInstall.ConcurrencyBound` | internal/services/jobs/firmware_install.go:143-158 | at every moment of every run of a job at most five installs hold the semaphore |
| `FirmwareInstall.WaitsExactlyWhenFull` | internal/services/jobs/firmware_install.go:143-155 | a worker waits for the semaphore if and only if five are in flight |
| `FirmwareInstall.TerminalIsFinal` | internal/services/jobs/types.go:220-226 | a terminal result never changes again |
| `InstallRuns.InstallOutcome` | internal/services/jobs/firmware_install.go:170-289 | in every run a result is skipped if and only if the reservation was refused; current with a version if and only if a probe under way was answered with it and it is neither empty nor the original; an error if and only if the trigger was refused; unknown if and only if the worker looked and found shutdown, or more than the timeout since the trigger |
| `InstallRuns.LateExactly` | internal/services/jobs/firmware_install.go:203-241 | the deadline check at the head of the loop finds exactly that the timeout has passed since the trigger |
| `InstallPolling.WaitsExactly` | internal/services/jobs/firmware_install.go:215-251 | the quiet period is over exactly when it has lasted since the trigger, and a wait exactly when the poll interval has passed since the look before it |
| `InstallPolling.ProbesPaced` | internal/services/jobs/firmware_install.go:215-254 | the m-th probe returns no earlier than the quiet period and m poll intervals after the trigger |
| `InstallPolling.TriggeredFirst` | internal/services/jobs/firmware_install.go:203 | a worker in the loop was triggered, and its deadline is the timeout after that |
| `InstallPolling.PollsAsTheLoop` | internal/services/jobs/firmware_install.go:223-289 | the result of a worker that went through the loop among all the others is the one the loop comes to by itself on what the worker met: the times and shutdown at its heads, the answers after its waits |
| `FirmwareInstall.CompletionIsTruthful` | internal/services/jobs/firmware_install.go:158-167 | when the job is completed as n of n every result is terminal |
| `FirmwareInstall.ActionLowersRank` | internal/services/jobs/firmware_install.go:200-250 | each step of a worker lowers its bound on remaining steps, which the deadline pays for |
| `FirmwareInstall.RankNeverRises` | internal/services/jobs/firmware_install.go:195-250 | neither time nor shutdown nor other workers raise it |
| `FirmwareInstall.JobTerminates` | internal/services/jobs/firmware_install.go:141-160 | whatever the devices answer, a job takes at most a fixed number of worker steps |
| `FirmwareInstall.NeverStuck` | internal/services/jobs/firmware_install.go:141-290 | until every worker is done some worker can move, at once or after a wait |
| `FirmwareInstall.PollUntilMoved` | internal/services/jobs/firmware_install.go:223-289 | the polling loop ends, at the first head that finds shutdown or the deadline passed or the first probe that finds the version moved, writes that result into the shared array and touches no other entry |
| `FirmwareInstall.EndsOnce` | internal/services/jobs/firmware_install.go:223-289 | what the loop meets determines where it ends and with what result |
| `AuditLog.AuditTable.AddLogWithAttrs` | internal/db/auditlog.go:48-74 | a row is appended whose anchor is the link of the last row, or empty |
| `AuditLog.AuditTable.VerifyAuditChain` | internal/db/auditlog.go:90-112 | zero means that every anchor is right; otherwise the id of the first row whose anchor is not |
| `AuditLog.AuditTable.PruneOlderThan` | internal/db/auditlog.go:120-150 | the loop removes the rows before the cut-off and tells how many |
| `Order.BeforeExactly` | internal/db/auditlog.go:135 | one text is before another if and only if, at the first place where they part, it ends or has the lower character |
| `AuditLog.PruneKeepsExactly` | internal/db/auditlog.go:120-150 | a prune keeps, in their order, exactly the rows whose time is not before the cut-off, said by that place |
| `AuditLog.LogReadsBack` | internal/db/auditlog.go:48-74 | after appends the table shows what was appended, in that order, numbered from one, each row anchored to the one before |
| `AuditLog.AuditTable.ClearLogs` | internal/db/auditlog.go:237-264 | all rows go |
| `AuditLog.BodyInjective` | internal/db/auditlog.go:80-84 | the unescaped joined body determines its columns as long as the separator occurs in the message only |
| `AuditLog.BodyDeterminesExactly` | internal/db/auditlog.go:80-84 | no other row at all has the same body if and only if the body holds no more than its five separators; so some knowledge of where separators stand is needed |
| `AuditLog.TamperEvidence` | internal/db/auditlog.go:80-112 | two accepted tables whose last rows agree are equal row for row, or exhibit a hash collision among their own bodies |
| `AuditLog.EditDetected` | internal/db/auditlog.go:90-112 | an edit of any row but the last is reported at the row after it |
| `AuditLog.EntriesDistinct` | internal/db/auditlog.go:80-112 | an accepted table never holds the same entry twice |
| `AuditLog.DeletionDetected` | internal/db/auditlog.go:44-47 | a table that lost rows is still accepted if and only if only rows at its end are gone |
| `AuditLog.PruneDropsPrefix` | internal/db/auditlog.go:120-150 | with ascending times a prune removes a beginning of the table |
| `AuditLog.StepKeepsReached` | internal/db/auditlog.go:48-150 | every append under such a clock, prune and clear keeps adjacent rows linked |
| `AuditLog.RunVerdict` | internal/db/auditlog.go:90-150 | after any run whose wall clock does not step back between appends the verifier accepts, unless a prune removed a proper beginning; then it reports exactly the oldest survivor |
| `AuditHistory.LineDistinct` | internal/db/auditlog.go:48-84 | along a line of rows each appended after the one before no entry occurs twice, unless two rows are a hash collision |
| `AuditHistory.VerdictExactly` | internal/db/auditlog.go:90-150 | after any run under any clock the verifier reports exactly the oldest row whose predecessor of the day has been pruned from in front of it, and accepts if there is none, unless two rows ever appended are a hash collision |
| `AuditLog.AppendsAccepted` | internal/db/auditlog.go:48-112 | appends and clears alone are always accepted |
| `SecretBox.OpenSeal` | internal/core/secretbox/secretbox.go:101-141 | opening undoes sealing, through the version prefix, the separators and the encoding |
| `SecretBox.OpensExactly` | internal/core/secretbox/secretbox.go:118-141 | what opens is the empty text, and a blob of this version whose parts decode, the first to 24 bytes, and whose box opens; it opens to what the box held |
| `KeyRotation.Database.Reseal` | internal/db/rotate.go:46-59 | a blob is opened with the old key and sealed anew; anything else is passed over |
| `KeyRotation.Database.RotateSealedColumns` | internal/db/rotate.go:38-189 | on success every sealed column is resealed and everything else unchanged; on any failure and on a dry run the database is unchanged; the report is the census of what there is to rotate |
| `KeyRotation.CensusCounts` | internal/db/rotate.go:92-189 | each number of the report is the number of rows of its own table with a blob in one of their columns, and the flag says that the token is a blob |
| `KeyRotation.SetAllOnTarget` | internal/db/rotate.go:92-103 | the updates land on the rows they were made from and on no other |
| `KeyRotation.RotationPreservesMeaning` | internal/db/rotate.go:25-37 | an applied rotation leaves everything readable under the new key as it was under the old one, empty and plain values included |
| `KeyRotation.RotatedOpens` | internal/db/rotate.go:38-189 | after a rotation every blob opens under the new key, so a next rotation is not refused |
| `KeyRotation.ThereAndBack` | internal/db/rotate.go:38-189 | rotating to a new key and back makes the old key read what it read at first |
| `KeyRotation.SecretBoxUndoes` | internal/core/secretbox/secretbox.go:101-141 | the blob format meets the law that the theorems ask of a cipher |
| `KeyRotation.DryRunThenRotate` | cmd/shellyctl/rotate_key.go:91-115 | a dry run that succeeds predicts the report of the real run |
| `Cidr.IncIP` | internal/core/scanner/scanner.go:482-489 | the increment in place is plus one with carry |
| `Cidr.IncAddsOne` | internal/core/scanner/scanner.go:482-489 | as numbers: plus one modulo the size of the address space |
| `Cidr.MaskValue` | internal/core/scanner/scanner.go:241 | masking gives the start of the aligned block |
| `Cidr.BroadcastValue` | internal/core/scanner/scanner.go:495-499 | setting the host bits gives the last address of the block |
| `Cidr.Membership` | internal/core/scanner/scanner.go:241 | a network contains an address exactly when it lies in the block |
| `Cidr.Ends` | internal/core/scanner/scanner.go:491-501 | the skipped addresses are exactly the first and the last of the block |
| `Cidr.AllowedRanges` | internal/core/scanner/scanner.go:254-262 | for IPv4 the allowed addresses are exactly the blocks of section 3 of RFC 1918 and section 2.1 of RFC 3927 |
| `Cidr.AllowedRangesLong` | internal/core/scanner/scanner.go:250-262 | for IPv6 the allowed addresses are exactly fc00::/7 (section 3.1 of RFC 4193) and fe80::/10 (section 2.5.6 of RFC 4291) |
| `Cidr.AllowedByPrefix` | internal/core/scanner/scanner.go:250-262 | whether an address is allowed depends on its first two bytes |
| `Cidr.FitsIsTenBits` | internal/core/scanner/scanner.go:237-239 | the limit of 1024 addresses is a limit of ten host bits |
| `Cidr.ExpandCIDR` | internal/core/scanner/scanner.go:225-248 | the text is parsed twice and the range looked at only if the second parser takes it too: refused exactly when it does and the base is outside the allowed ranges, or with more than ten host bits; otherwise base+1 ... base+2^h-2 in order, empty for h of 0 or 1, and for two or more host bits all allowed if and only if the second parser took the text or the base is allowed |
| `Cidr.PublicNetworkListed` | internal/core/scanner/scanner.go:226-248 | 8.8.8.0/024, a text only the first parser takes, expands to 254 addresses, none of them allowed |
| `Cidr.BlockFits` | internal/core/scanner/scanner.go:237-247 | an accepted block ends with the address space at the latest, so the loop ends also where the increment wraps |
| `Cidr.BlocksNest` | internal/core/scanner/scanner.go:225-248 | two networks lie one inside the other or have nothing in common |
| `ScanPool.StepKeepsInvariant` | internal/core/scanner/scanner.go:59-113 | every step of producer, workers, cancellation and job keeps: each address with one worker, reported at most once, counters right |
| `ScanPool.RunKeepsInvariant` | internal/core/scanner/scanner.go:59-113 | the same for every interleaving; the row never shows more done than there is to do, until it is completed |
| `ScanPool.EachAddressOnce` | internal/core/scanner/scanner.go:80-113 | when the pool has returned every address went to exactly one worker, which reported it exactly once, also when cancelled on the way; what is found is in ScanFinds |
| `ScanAnswers.ScanFinds` | internal/core/scanner/scanner.go:85-112 | in every run the results so far are exactly the addresses a probe of which was answered, each once, all of them of the scan |
| `ScanAnswers.EveryAddressDealtWith` | internal/core/scanner/scanner.go:85-112 | when the pool has returned every address was probed once, or skipped once after the cancellation, and not both |
| `ScanAnswers.ScanComplete` | internal/core/scanner/scanner.go:85-112 | without a cancellation the results are complete: every address was probed and is among them if and only if that probe was answered |
| `ScanAnswers.EndsAsCancelled` | internal/services/jobs/scan.go:62-106 | a job cancelled before it finished ends as interrupted with the number that was done, any other as completed with all of its total |
| `ScanAnswers.RowWithinWork` | internal/services/jobs/scan.go:29-60 | the row begins with the addresses and the discovery as its total, that of a refresh with the devices alone, and never shows more done |
| `PoolRuns.DoneWithinTotalExactly` | internal/services/jobs/recovery.go:30-44 | the row of a scan never shows more done than in total, in every run, if and only if its total covers the addresses and the discovery; a restarted scan has the total of the interrupted one |
| `PoolRuns.DoneWithinTotal` | internal/services/jobs/scan.go:29-60 | so the row of a scan from StartScan never does |
| `ScanPool.JobTerminates` | internal/core/scanner/scanner.go:80-113 | no run of the job takes more than a fixed number of steps |
| `ScanPool.StuckExactlyWhenDeserted` | internal/core/scanner/scanner.go:80-113 | the states without a move before the end are those of a pool whose workers have all left while an address is still to be sent |
| `ScanPool.ScanNeverStuck` | internal/core/scanner/scanner.go:88-94 | a scan never gets stuck, whatever is cancelled |
| `PoolRuns.RefreshStuckExactly` | internal/services/jobs/refresh.go:182-277 | a refresh can be left waiting for ever by a cancellation if and only if it has more devices than workers |
| `ScanPool.ScanParams` | internal/services/validation/validation.go:61-93 | a settings row passes exactly when its parameters are in range, every subnet expands, and there is a target; the result counts the targets |
| `ScanPool.AcceptedExactly` | internal/services/validation/validation.go:61-93 | accepted if and only if the parameters are within their limits, every subnet expands, and there is an address or the discovery |
| `ScanPool.LimitNeverReached` | internal/services/validation/validation.go:31-39 | the count is at most 64*1022+1, so the check against the limit of 65534 never refuses |
| `Text.CleanList` | internal/services/credentials/credentials.go:193-205 | the loop yields the trimmed, non-empty items in order of first appearance |
| `Text.CleanKeeps` | internal/services/credentials/credentials.go:193-205 | cleaning loses nothing but blanks and repetitions, and adds nothing |
| `Text.CleanTwice` | internal/services/backup/backup.go:300-312 | cleaning twice is cleaning once |
| `Text.SpacesListed` | internal/services/credentials/credentials.go:193-205 | the blanks that trimming takes off are the 25 white-space characters of Unicode |
| `Credentials.Store.Save` | internal/services/credentials/credentials.go:55-69 | refuses incomplete credentials, otherwise stores exactly the trimmed row |
| `Credentials.Store.Delete` | internal/services/credentials/credentials.go:73-92 | refuses exactly when some template refers to the credential |
| `Credentials.Store.SaveGroup` | internal/services/credentials/credentials.go:103-122 | stores the group and its mirror among the credentials |
| `Credentials.Store.DropGroup` | internal/db/credentials.go:145-158 | a group goes together with all assignments to it |
| `Credentials.Store.DeleteGroup` | internal/services/credentials/credentials.go:128-137 | refused exactly when the mirror is referred to; otherwise mirror, group and assignments go |
| `Credentials.Store.SaveGroupAssignments` | internal/services/credentials/credentials.go:156-188 | refused without a device or for an unknown group; otherwise exactly the given devices are assigned, or cleared |
| `Credentials.Store.AssignAll` | internal/db/credentials.go:177-200 | the loop over the devices amounts to one map update |
| `Credentials.Store.SaveTemplate` | internal/services/templates/templates.go:69-87 | refuses an invalid body and a reference to a credential that is not there |
| `Tables.OperationKeepsIntact` | internal/services/credentials/credentials.go:55-188 | an operation with nothing between its check and its writes keeps all references intact and names tidy |
| `Tables.SavesExactly` | internal/services/credentials/credentials.go:55-69 | a credential is accepted if and only if it has a name, a user, and a password or a hash; it is stored trimmed, and no other row changes |
| `Tables.SavesGroupExactly` | internal/services/credentials/credentials.go:103-122 | a group is accepted if and only if it has a name and a password or a hash; it is stored beside a credential of the user admin with its secrets and tags |
| `Tables.AssignmentsMove` | internal/services/credentials/credentials.go:128-188 | deleting a group takes along the assignments to it and no other; assigning moves exactly the listed devices |
| `Tables.MirrorCanGo` | internal/services/credentials/credentials.go:103-122 | the mirror of a group can be deleted on its own if and only if no template refers to it |
| `Restore.NoDanglingReferences` | internal/services/backup/backup.go:266-289 | from an empty store, after any sequence of saves, deletions and imports, each done before the next begins, assignments name existing groups and templates name existing credentials |
| `Restore.ImportKeepsIntact` | internal/services/backup/backup.go:266-289 | an import with nothing between its plan and its writes keeps references intact |
| `Restore.GroupsAccepted` | internal/services/backup/backup.go:188-203 | the groups of a bundle are accepted if and only if each has a name and a password or a hash, and their trimmed names differ |
| `Restore.TokenExactly` | internal/services/validation/validation.go:117-134 | a token passes if and only if it is missing or the placeholder while the interface is off, or has 16 to 128 letters, digits, underlines and hyphens |
| `Restore.AcceptsExactly` | internal/services/backup/backup.go:131-257 | a bundle is accepted if and only if it has a version, valid settings, valid templates with names, complete groups, and every assignment that counts, from version 2 on, names a group of the bundle |
| `Restore.ImportedGroups` | internal/services/backup/backup.go:266-289 | from version 2 on the groups are those of the bundle with trimmed names and secrets and cleaned tags, each with its mirror, and no other credential changes; before that groups, credentials and assignments stay |
| `Restore.ImportedRest` | internal/services/backup/backup.go:266-289 | from version 2 on the assignments are those the bundle carries; templates and settings come with every version, the templates without a credential |
| `Overlap.WriteExactly` | internal/db/credentials.go:63-220 | one call that writes leaves no dangling reference if and only if it is safe: what a template or an assignment names is there, no template names a deleted credential |
| `Overlap.PlannedIsPerform` | internal/services/credentials/credentials.go:55-188 | a check and its writes with nothing in between are the operation |
| `Overlap.PlannedIsSafe` | internal/services/credentials/credentials.go:73-188 | what a check has found holds for the writes that follow at once |
| `Overlap.ImportIsApplied` | internal/services/backup/backup.go:266-289 | the writes of an import with nothing in between are the import |
| `Overlap.SerialIsARun` | internal/services/credentials/credentials.go:55-188 | in the system of overlapping requests a request with no other between its check and its last write is let in exactly when the operation is, and does what it does |
| `Overlap.SerialImport` | internal/services/backup/backup.go:131-294 | and so is an import |
| `Overlap.IntactExactly` | internal/services/templates/templates.go:80-87 | over all runs of overlapping requests, imports included: no reference ever dangles if and only if every write is safe at the moment it happens |
| `Overlap.OverlapDangles` | internal/services/templates/templates.go:80-87 | a template is checked, its credential deleted, and the template written: a dangling reference, for every credential |
| `Backup.PlanTemplates` | internal/services/backup/backup.go:157-177 | the template lists divide the trimmed names into new and known ones |
| `Backup.PlanGroups` | internal/services/backup/backup.go:188-213 | accepts exactly complete, differently named groups; the lists are the new and the changed names, each once |
| `Backup.PlanAssignments` | internal/services/backup/backup.go:230-243 | blank assignments are skipped and an unknown group refused |
| `Backup.Import` | internal/services/backup/backup.go:131-294 | accepts exactly the valid bundles; reports the difference to the store; changes the store only when applying, and then to exactly the described state |
| `Restore.ReportBalances` | internal/services/backup/backup.go:208-257 | existing plus created minus deleted is incoming, for groups and for assignments |
| `Restore.UpdateListExact` | internal/services/backup/backup.go:208-212 | a name is listed if and only if a secret differs or the pieces of the tags between separators do; a change goes unreported exactly when it is one of the tags alone with the same pieces |
| `Restore.PlainTagsReported` | internal/services/backup/backup.go:208-212 | without the joining character in the tags the list is exact |
| `Restore.CutUnreported` | internal/services/backup/backup.go:210 | a tag with that character and the two tags it is cut into there are taken for the same |
| `Text.JoinExactly` | internal/services/backup/backup.go:210 | joins are equal if and only if the lists have the same pieces |
| `Restore.AgainNothing` | internal/services/backup/backup.go:131-294 | a second import finds no group change, and no assignment change exactly when the walk resolves keys alike |
| `Restore.ImportTwice` | internal/services/backup/backup.go:131-294 | for trimmed keys applying makes groups and assignments exactly the incoming ones, a following dry run reports nothing of them, and applying again changes nothing |
| `Restore.AnnouncedButNotApplied` | internal/services/backup/backup.go:208-289 | a second report is free of group changes if and only if the version is 2 or later or there were none: a version 1 bundle announces groups and leaves them out |
| `Restore.Export` | internal/services/backup/backup.go:89-126 | an export holds every row of every table once |
| `Restore.ExportImportable` | internal/services/backup/backup.go:89-177 | an export can be imported if and only if its contents still validate, the stored token passes as it is, and no template name is blank |
| `Restore.SealedTokenRefused` | internal/services/validation/validation.go:130-134 | the export holds the token sealed and a sealed token does not pass: while one is stored no export can be imported |
| `Restore.ExportThenDryRun` | internal/services/backup/backup.go:89-257 | a dry run on one's own export reports no change of assignments, of the groups those with blanks around a secret as updates, and of the templates every one with a trimmed name as an update |
| `Restore.RestoreOwnExport` | internal/services/backup/backup.go:274-289 | if it is accepted, restoring one's own export brings settings, assignments and groups back |
| `Restore.RestoreOwnTemplates` | internal/services/backup/backup.go:269-273 | templates with trimmed names come back with their contents and without their credential reference; nothing is lost exactly when there was none |
| `Restore.PaddedNameDoubles` | internal/services/backup/backup.go:269-273 | a template with blanks around its name stays and gets a second one beside it under the trimmed name |
| `Reservations.Targets.ReserveProvision` | internal/services/app_jobs.go:141-156 | grants and skips in order exactly the non-empty keys that firmware work does not, or does, hold |
| `Reservations.Targets.ReleaseProvision` | internal/services/app_jobs.go:158-164 | the keys are released |
| `Reservations.Targets.ReserveFirmware` | internal/services/app_jobs.go:166-181 | the same with the kinds exchanged |
| `Reservations.Targets.ReleaseFirmware` | internal/services/app_jobs.go:183-189 | the keys are released |
| `Reservations.PickedKeys` | internal/services/app_jobs.go:141-181 | a key is granted exactly when the other kind does not hold it |
| `Reservations.RequestSplits` | internal/services/app_jobs.go:141-181 | granted, skipped and empty keys make up the request |
| `Reservations.NeverBothActive` | internal/services/app_jobs.go:141-189 | in no run is a key active for both kinds |
| `Reservations.StealsExactlyWhen` | internal/services/app_jobs.go:158-189 | a step takes a key from under its holder if and only if it releases a key another holder of the same kind still has |
| `Reservations.OwnedExactly` | internal/services/app_jobs.go:141-189 | over all runs: nobody ever loses a key while holding it if and only if nobody releases a key that another holder of the same kind still has |
| `Reservations.NoOneInterferes` | internal/services/app_jobs.go:141-189 | if holders of one kind never overlap, no work under a key meets work of the other kind under that key between reservation and release |
| `Reservations.OverlapInterferes` | internal/services/app_jobs.go:152-177 | if they do, it can be: a concrete run |
| `Devices.Table.UpsertDevices` | internal/db/devices.go:79-146 | the loops over scanned and existing rows amount to the specification of a scan |
| `Devices.Table.ForgetDevice` | internal/db/devices.go:201-204 | rows with that address go |
| `Devices.ForgetExactly` | internal/db/devices.go:201-204 | a row goes if and only if the target is its hardware or its network address; the others stay as they are |
| `Devices.UpsertNumbers` | internal/db/devices.go:79-118 | a scan keeps every number and gives new addresses new different ones, also when an address repeats |
| `Devices.NumbersUnique` | internal/db/devices.go:79-204 | in every run of scans and deletions, each done before the next begins, different devices have different numbers |
| `Devices.NumbersStable` | internal/db/devices.go:97-113 | in such a run a device keeps its number until it is forgotten |
| `Devices.OldListUnique` | internal/db/devices.go:80-118 | a scan that writes from a list read earlier keeps numbers unique if and only if it gives no number that a row has which came in since |
| `Devices.UpsertedNumberFor` | internal/db/devices.go:85-112 | the number a scan gives: the one on the list, or the highest on the list plus the count of new ones up to the last occurrence |
| `Devices.OverlappingScansClash` | internal/db/devices.go:80-118 | two scans that both list before either writes give their new devices one number |
| `Devices.OverlapIsARun` | internal/db/devices.go:80-118 | and that is a run: read, read, write, write |
| `Devices.SingleWriteUnique` | internal/services/jobs/refresh.go:100 | writing one row keeps numbers unique if and only if no other address has taken its number |
| `Devices.ForgottenComesBack` | internal/services/jobs/firmware_check.go:66-78 | a check under way can bring a forgotten device back with a number that has been given away |
| `Devices.ScanOutcome` | internal/db/devices.go:96-143 | a device seen by a scan shows what was read at its last occurrence and is online without misses whatever its row said, a known one with its history and cache; one not seen has one more miss, the error of a timeout, and is offline from the second miss on |
| `Devices.Copy.ApplyCheckResult` | internal/services/jobs/firmware_check.go:218-257 | the field assignments on the held row amount to the specification of a check |
| `Devices.Copy.Refresh` | internal/services/jobs/refresh.go:53-123 | the three ways a refresh ends, and the row each writes |
| `Devices.RefreshKeeps` | internal/services/jobs/refresh.go:60-122 | number, history and opt-out survive every refresh; without a whole snapshot so does everything read before |
| `Devices.RefreshShows` | internal/services/jobs/refresh.go:53-123 | after a refresh the row says why it failed, what stands in the way, or shows the snapshot |
| `Devices.CheckShows` | internal/services/jobs/firmware_check.go:194-257 | a failed check keeps the firmware cache, is recorded as failed, and if the device was silent counts one more miss; a successful one replaces both versions and the time, each in its column; the identity columns are replaced by what was read and else kept |
| `Devices.OnlineMeansAnswering` | internal/services/jobs/refresh.go:53-123 | in every reachable table a row is online exactly when it has fewer than two misses, whichever writer wrote it and from however old a copy |
| `Devices.MissesCountSilence` | internal/services/jobs/firmware_check.go:200-217 | the misses count the silences since the last answer; a device is offline exactly after two of them |
| `Devices.SerialHappens` | internal/db/devices.go:79-204 | in the system of overlapping writers a scan with nothing between its list and its writes is the serial scan, and a deletion the serial deletion |
| `Devices.SerialWrite` | internal/services/jobs/refresh.go:53-123 | and a refresh or a check with nothing between its read and its write is the refresh or the check of that row |
| `Digest.SplitDigestPairs` | internal/core/shellyclient/client.go:449-490 | the index loop computes the specification, its index strictly increasing |
| `Digest.ReadValueAt` | internal/core/shellyclient/client.go:465-484 | a value ends at the next quote if it is quoted, at the next comma if not |
| `Digest.ReadPrinted` | internal/core/shellyclient/client.go:465-484 | commas and equals signs inside a quoted value are part of it |
| `Digest.RoundTrip` | internal/core/shellyclient/client.go:447-490 | printing parameters with different keys and splitting the text gives back exactly those parameters |
| `Digest.Challenge.Next` | internal/core/shellyclient/client.go:395-398 | the counter is incremented modulo 2^32 and read in one step |
| `Digest.CountsInOrder` | internal/core/shellyclient/client.go:385-403 | under every interleaving the counts used with a challenge are 1, 2, 3, ... modulo 2^32 (section 3.4 of RFC 7616) |
| `Digest.NoCountTwice` | internal/core/shellyclient/client.go:385-403 | no count is used twice with a challenge, the object, used fewer than 2^32 times |
| `Digest.PickThenCount` | internal/core/shellyclient/client.go:385-403 | a request with no other in between goes out with the newest challenge and its next count |
| `Digest.PicksAddUp` | internal/core/shellyclient/client.go:385-403 | in every run the requests that took a challenge are those that went out with it and those that have yet to |
| `Digest.PairsExactly` | internal/core/shellyclient/client.go:329-338 | a new challenge counts from 1 again: while none is used 2^32 times, no nonce goes out with one count twice if and only if the server repeats no nonce among the challenges used |
| `Totp.TruncatedValue` | internal/services/totp/totp.go:225-231 | the shifts and ors yield the low 31 bits of the four bytes (section 5.3 of RFC 4226) |
| `Totp.MessageExactly` | internal/services/totp/totp.go:219-221 | the hashed message is the one eight-byte text that reads, highest byte first, as the counter |
| `Totp.CodeMeans` | internal/services/totp/totp.go:219-238 | the code has six digits, and they denote the low 31 bits of the four bytes that the last byte of the hash points at, modulo a million (section 5.3 of RFC 4226) |
| `Totp.ShownCode` | internal/services/totp/totp.go:79-91 | the code of a time from 1970 on is that of the number of half minutes since, if the secret decodes |
| `Totp.Verify` | internal/services/totp/totp.go:93-117 | the loop accepts exactly the codes of the tried counters |
| `Totp.AcceptsExactly` | internal/services/totp/totp.go:93-117 | from 1970 on exactly the codes of the same, the previous and the next period pass (section 5.2 of RFC 6238) |
| `Totp.FreshCodePasses` | internal/services/totp/totp.go:79-117 | a code generated at one time passes at every time within thirty seconds |
| `Totp.VerifyBackupCode` | internal/services/totp/totp.go:173-182 | the index of the last matching hash, none exactly when no hash matches |
| `Totp.CountUsedBits` | internal/services/totp/service.go:281-289 | the number of set bits among the first ten |
| `Totp.Enrolments.Complete` | internal/services/totp/service.go:139-160 | enrols exactly when the code passes, with no backup code used |
| `Totp.Enrolments.VerifyAndAdvance` | internal/services/totp/service.go:215-258 | the outcome and the new row; only a backup code sets a bit |
| `Totp.JudgeExactly` | internal/services/totp/service.go:215-258 | a code passes by the clock if and only if it is one of the moment, and as a backup code if and only if it is not, is on the list, and the bit of its last place is clear or the place 64 or more; passing sets that bit and no other |
| `Totp.Enrolments.Disable` | internal/services/totp/service.go:195-201 | the row goes exactly when a factor passes |
| `Totp.Enrolments.BackupCodesLeft` | internal/services/totp/service.go:165-188 | list length minus used codes |
| `Totp.AcceptanceCosts` | internal/services/totp/service.go:234-258 | a backup acceptance lowers the codes left by exactly one, and nothing else changes the row |
| `Totp.SpentPlusLeft` | internal/services/totp/service.go:165-258 | codes spent and codes left add up to the list, in every run of attempts one after the other |
| `Totp.BackupCodeOnce` | internal/services/totp/service.go:244-254 | a backup code below place 64 is accepted at most once in every run of attempts one after the other |
| `Totp.AcceptedAgainExactly` | internal/services/totp/service.go:244-254 | a code just accepted is accepted again if and only if its place is 64 or more, where the shift yields no bit |
| `CodeOverlap.SoundExactly` | internal/services/totp/service.go:215-258 | a login reads the row and writes it back in two calls: over all runs of overlapping logins no code is spent twice and the mask says which are spent, if and only if no login writes back a copy that another has overtaken |
| `CodeOverlap.SoundAddsUp` | internal/services/totp/service.go:165-188 | then codes spent and codes left add up to the list |
| `CodeOverlap.SerialIsARun` | internal/services/totp/service.go:215-258 | a login with no other in between is an attempt of the serial model |
| `CodeOverlap.OneCodeTwice` | internal/services/totp/service.go:216-254 | two logins that read before either writes spend one code twice |
| `CodeOverlap.SpentCodeReturns` | internal/services/totp/service.go:216-230 | an overtaken login by the clock makes a spent code good again |
| `LoginLock.LoginState.IsLocked` | internal/services/loginlock/loginlock.go:46-59 | locked exactly before the stored end |
| `LoginLock.LoginState.WriteFailure` | internal/services/loginlock/loginlock.go:68-75 | a failure writes the row as it was read, counted up; from the twentieth on with a lock |
| `LoginLock.LoginState.RecordFailure` | internal/services/loginlock/loginlock.go:63-76 | read and write with nothing in between |
| `LoginLock.LoginState.RecordSuccess` | internal/services/loginlock/loginlock.go:80-82 | the counter and the lock are wiped |
| `LoginLock.LockedExactly` | internal/services/loginlock/loginlock.go:46-76 | locked exactly after twenty failures in a row, for fifteen minutes after the last |
| `LoginLock.FailureBudget` | internal/api/handler_auth.go:56-78 | for attempts one after the other n failures in a row need n - 20 lockouts after the twentieth: n <= 20 + (f_n - f_20)/900 |
| `LoginLock.ExpiredLockRelocks` | internal/services/loginlock/loginlock.go:19-22 | after an expired lock the next failure locks again |
| `LoginLock.RecordKeepsExactly` | internal/services/loginlock/loginlock.go:63-76 | recording a failure keeps count and spacing if and only if no other failure was counted since the row was read and there are fewer than twenty or the lock has run out by then |
| `LoginLock.SoundExactly` | internal/api/handler_auth.go:61-78 | over all runs of attempts whose check, read and write interleave freely: count and spacing hold at every moment if and only if every write meets that condition |
| `LoginLock.SerialIsARun` | internal/api/handler_auth.go:61-78 | the steps of one attempt without another in between are the serial attempt |
| `LoginLock.TwoPassedExactly` | internal/api/handler_auth.go:61-78 | two attempts that both passed the check stay within the budget if and only if there were fewer than nineteen failures |
| `LoginLock.LostFailure` | internal/services/loginlock/loginlock.go:64-75 | two failures that both read before either writes are counted as one |
| `AutoUpdate.ReadAutoUpdate` | internal/core/firmware/autoupdate.go:47-84 | the mode is that of the first enabled job that says one |
| `AutoUpdate.SetAutoUpdate` | internal/core/firmware/autoupdate.go:101-156 | on success the schedule is the unmarked jobs in order and one marked job, none for off; after a failed deletion no unmarked job is gone and none created, whether or not the lost request took effect |
| `AutoUpdate.AskedThenRead` | internal/core/firmware/autoupdate.go:101-109 | a text asks for a mode by its name in either case and with blanks around it, for off also by being blank; nothing else is accepted, and after a successful setting the schedule reads as the mode asked for |
| `AutoUpdate.ClearNext` | internal/core/firmware/autoupdate.go:115-140 | deleting the next marked job by its id takes away that job only |
| `AutoUpdate.SetThenRead` | internal/core/firmware/autoupdate.go:86-156 | reading gives back the mode set, there is one marked job or none, the others are untouched, and setting again changes only the id |
| `AutoUpdate.OthersStay` | internal/core/firmware/autoupdate.go:112-140 | setting removes exactly the jobs with an update call that bears the mark; jobs somebody else has put there stay, update jobs among them |
| `Labels.StepsAreOnePass` | internal/observability/metrics.go:171-177 | the three replacements in their order are one pass of escaping |
| `Labels.EscapedReadsBack` | internal/observability/metrics.go:171-178 | an escaped value ends at its own closing quote and can be read back |
| `Labels.EncodeInjective` | internal/observability/metrics.go:165-182 | different pairs have different texts |
| `Labels.SameTextSameLabels` | internal/observability/metrics.go:163-182 | two label maps share a counter if and only if they are equal |

## Left out

- HTTP handlers, routing, CSRF, SPA, CLI output, MCP wrappers, webhook delivery and metrics output: input, output and wiring.
- SQLite, migrations and storage failures, except in `KeyRotation`, where any write or the commit may fail: tables are maps or sequences, a transaction is one step. An import whose store fails half-way is not modelled; it is not transactional in the code either.
- Cryptography, base64, base32, JSON and time formatting: parameters or opaque values. Codes and bodies are sequences of characters; bytes beyond ASCII are not told apart from characters.
- RuntimeLease: forced clearing of the row, store errors, and an Acquire by an instance that is still releasing are not modelled; a shared hostname is a condition of the theorems.
- AuditLog: filtered reads and export are not modelled; the delete trigger that guards the table is a mechanism of the database.
- FirmwareInstall: the order in which progress snapshots reach the job row, and the device row written after a success, are not modelled.
- Cidr.ExpandCIDR: takes a parsed prefix and the verdict of the second parser on the same text; which texts each parser takes, the printing of addresses and the notation of IPv4 networks inside IPv6 are the library's.
- ScanPool: probing, mDNS discovery and the merging of their results are not modelled; a failing counter write is not either. `ConfirmScan`, which splits the result list and writes back the done and total it has read, and scan status are left out.
- Overlap: the check of a request is one read of the tables, where the deletion of a credential reads template by template; the condition on its writes does not depend on that.
- Credentials: the listing functions only read. A name is unique by its map key; timestamps of rows are left out.
- Backup.Import: the verdict on a template body is given, and so is that on the settings but for the token. The writes of an import are one step here and separate in `Overlap`.
- Restore.Export: exports with secrets redacted are not modelled; redaction rewrites template contents key by key.
- Reservations: how callers choose keys is not modelled; a device can stand under an address key and a hardware key, and exclusion is per key.
- Devices: fields that are only copied stand in one field; the list order, views and badges are left out. The install job's own row write keeps reachability and is not a separate event.
- Digest: `parseDigestChallenge` beyond the splitting, the header text and the choice of hash are not modelled.
- Totp: generation of secrets and codes, and the provisioning address are not modelled; enrolment and disabling do not overlap with logins in `CodeOverlap`.
- LoginLock: one clock reading per failure, where the code takes two in a row; a stored end that does not parse counts as no lock in the code and does not occur here.
- AutoUpdate: a schedule list with malformed entries, which the code skips, is not modelled; ids are unique on the device, and nobody else changes the schedule between the listing and the last request.
- Labels: sorting is the library's; the theorems take any ascending listing of the keys, and keys without an equals sign.
- Chunked certificate upload, settings normalisation, scheduler spacing, compliance rules and power sums: each is settled by reading one body.
