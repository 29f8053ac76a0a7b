# Hammerwork in Dafny

A model of the coordination and transformation layers of the Hammerwork job queue, with
proofs of what they promise. `dafny verify dfyconfig.toml` checks all of it.

| Component | Source | Dafny files |
|---|---|---|
| Alert cooldown protocol | `src/alerting.rs` | `AlertProtocol`, `AlertSafety`, `AlertManager` |
| Tracked background tasks | `src/task_tracker.rs` | `TrackerProtocol`, `TrackerSafety`, `TaskTracker` |
| Archival policies and payload encoding | `src/archive.rs` | `ArchivePolicy`, `ArchiveCodec` |
| Archival engine | `src/archive.rs` | `ArchiveStore`, `ArchiveBatches`, `ArchivePass`, `ScheduledArchival`, `ArchiveReports`, `NameOrder` |
| Duration formats, URL redaction | `src/config.rs` | `Decimal`, `DurationText`, `DurationGrammar`, `UrlRedaction` |
| Batches | `src/batch.rs` | `BatchChunks`, `BatchStatus` |
| Event registry and payload control | `src/events.rs` | `EventManager` |
| Cron minute matching | `src/cron.rs` | `CronMinutes` |
| Encryption statistics, job metrics | `src/encryption.rs`, `src/metrics.rs` | `RunningStats`, `JobMetrics` |
| Shared types | | `Common` |

Concurrency. The alert manager and the task tracker are transition systems: a step is one
lock acquisition, one lock region, one joined task or one move of a task, and a run is any
interleaving of any number of callers. The theorems speak about every state of every run;
those that need a hypothesis on time name it, and it concerns one alert key at a time. The
classes `AlertManager` and `TaskTracker` have the shape of the code, and are proved to do
what the transition system does.

Archival. The database is a store of active, archived and purged jobs; `archive_jobs` moves
an unspecified choice of at most `batch_size` eligible jobs. `should_stop` is an arbitrary
stream of answers. A pass is specified job by job (`ArchivePass.Outcome`), independently of
plans, batches and order of visits.

Four properties hold only under a condition, and the condition is proved to be exact:

- At most one alert of a key is under way, and deliveries of a key are spaced by the
  cooldown, as long as no attempt of that key is still unsettled when its own cooldown is
  over. The reservation stores a timestamp taken before the lock, so a slow delivery stops
  protecting itself, and when it fails at last it removes the reservation or the delivery
  record of a younger one (`AlertSafety.SlowFailureAdmitsThird`,
  `AlertSafety.SlowFailureBreaksSpacing`). The exact condition is one of the key's last
  event, the last write of its `last_alerts` entry. Say that this event holds the key back
  at a time when it is a delivery or a reservation whose timestamp plus the cooldown is
  later. After every run, a check that finds the locks free is admitted if and only if the
  last event does not hold the key back and no retry delay does
  (`AlertSafety.CheckAdmittedExactly`); so a check within the cooldown of an earlier
  delivery breaks the spacing (`AlertSafety.SpacingBreaksExactly`), and one made while
  another alert of its key is under way starts an overlap
  (`AlertSafety.OverdueAttemptAdmitsAnother`), if and only if that is so. In every interleaving each reservation obeys the
  same rule (`AlertSafety.ReservationFollowsLastEvent`).
- `redact_url` hides a password (other than the text `***`) if and only if neither the
  password nor the user name has a `/`. With a `/` in the user name the URL is shown unchanged; with one in the password,
  everything from that `/` on is shown (`UrlRedaction.HiddenExactlyWithoutSlash`).
- A URL without a password is returned unchanged, as its documentation says, unless a query
  or fragment directly after the host has an `@` with a `:` somewhere before it: then the
  text between the two is hidden (`UrlRedaction.UnchangedWithoutPasswordExactly`).
- The SQL backends and the in-memory backend archive the same jobs, except jobs that
  finished in the future under a negative retention, and jobs that finished before the Unix
  epoch under a retention reaching back before it (`ArchivePolicy.CutoffDisagreesExactly`).

Values the code gets from elsewhere are parameters: clock readings, the outcome of each
delivery, the answers of `should_stop`, the estimate of a bulk operation, the JSON and gzip
functions, the fire times of a cron expression.

## Model

| member | source | states |
|---|---|---|
| `AlertSafety.AtMostOneInFlight` | src/alerting.rs:647-703 | in every run in which no attempt of the key was overdue in flight before, at most one attempt of that (queue, alert type) is between reserving and settling, and `last_alerts` holds exactly its timestamp; other keys may be as slow as they like |
| `AlertSafety.OverlapNeedsOverdue` | src/alerting.rs:647-703 | in every run, two attempts of a key in flight together imply that some attempt of that key was overdue in flight earlier |
| `AlertSafety.FirstOverlapPassesOverdue` | src/alerting.rs:652-703 | in every run, the first overlap of a key is entered by reserving past one of the two attempts, in flight and overdue at that moment |
| `AlertSafety.DeliveredAlertsAreSpaced` | src/alerting.rs:652-703 | in every run in which no attempt of the key was overdue in flight before, after a delivery stamped t nobody reserves the key before t plus the cooldown, whatever failed attempts come in between |
| `AlertSafety.EarlyReservationNeedsOverdue` | src/alerting.rs:652-703 | in every run, a reservation within the cooldown of an earlier delivery implies that some attempt of that key was overdue in flight earlier |
| `AlertSafety.NoOverlapKeepsSpaced` | src/alerting.rs:652-703 | spacing already holds in every run without an overlap of the key |
| `AlertSafety.CheckAdmittedExactly` | src/alerting.rs:652-678 | after every run, a check that finds the locks free is admitted iff the last event of its key lets it pass (none, a failed settle, or a delivery or reservation whose own cooldown is over) and no retry delay holds |
| `AlertSafety.SpacingBreaksExactly` | src/alerting.rs:652-703 | while a delivery is in its cooldown, a check reserves the key early iff the last event of the key lets it pass and no retry delay holds |
| `AlertSafety.ReservationFollowsLastEvent` | src/alerting.rs:652-703 | in every interleaving of every run, a reservation was let pass by the event of its key before it; one that comes early after a delivery follows a later event |
| `AlertSafety.CooldownIsLastEvent` | src/alerting.rs:653-662 | in every state of every run, the cooldown check holds a key back iff its last event does |
| `AlertSafety.RestingMapsAreExact` | src/alerting.rs:689-703 | in every run, with no call about the key under way, the key is in `last_alerts` iff it was last settled by a delivery (with that timestamp), and if it was last settled by a failure it is in `failed_alerts` |
| `AlertSafety.NextCheckAfterSettling` | src/alerting.rs:663-703 | after every run, with no call about the key under way and the locks free, a check past min(60 s, cooldown) sends if the key last failed; if it was last delivered, every check within the cooldown is suppressed |
| `AlertSafety.SentAgainExactly` | src/alerting.rs:652-678 | after every run, with no call about the key under way and the locks free, a check sends iff the last delivery, if it was delivered last, is at least the configured period (at most chrono's longest duration) old and no recorded failure is younger than 60 s and than the configured period; else it is suppressed |
| `AlertSafety.QuiescentIsRest` | src/alerting.rs:652-703 | when all calls are done the locks are free and every key is at rest |
| `AlertSafety.OverdueAttemptAdmitsAnother` | src/alerting.rs:652-703 | from every reachable state with free locks, a check made while an attempt of its key is in flight is admitted iff the last event lets it pass and no retry delay holds; without an overlap so far, iff that attempt is overdue and no retry delay holds |
| `AlertSafety.SlowFailureAdmitsThird` | src/alerting.rs:692-703 | a run, for every configuration with a target and a cooldown: a slow attempt fails and thereby lets a third attempt overlap a second that is not overdue |
| `AlertSafety.SlowFailureBreaksSpacing` | src/alerting.rs:692-703 | a run in which such a failure removes the record of a delivery, and the key is reserved again within the cooldown |
| `AlertSafety.RunKeepsRecords` | src/alerting.rs:676-703 | in every state of every run the last event of a key decides its `last_alerts` entry, and a failure that settled last is recorded or still being written or cleared |
| `AlertSafety.NoOverlapKeepsExclusive` | src/alerting.rs:652-703 | until the first overlap of a key, the attempt in flight is the one recorded, and only an overdue one lets another pass the cooldown check |
| `AlertSafety.StepKeepsGuarded` | src/alerting.rs:676-703 | while a key has no overlap, no step removes or overwrites the record of a delivery before its cooldown is over |
| `AlertSafety.CheckAlone` | src/alerting.rs:652-678 | a check that nobody interleaves with admits iff neither the cooldown nor the retry delay holds at its readings, and then reserves the alert's own timestamp |
| `AlertProtocol.NoDeadlock` | src/alerting.rs:652-703 | in every reachable state with an unfinished call some call can take its next step |
| `AlertProtocol.CanAlwaysQuiesce` | src/alerting.rs:652-703 | from every reachable state all calls under way can run to their end |
| `AlertProtocol.RunKeepsLocks` | src/alerting.rs:652-703 | each lock is held by exactly the call whose position says so, in every state of every run |
| `AlertProtocol.AdvanceConsumes` | src/alerting.rs:647-717 | every step of a call uses up a finite budget, so no call goes on forever |
| `AlertManager.AlertManager.CheckAndReserve` | src/alerting.rs:652-678 | reserves iff the recorded delivery is at least the configured period (at most chrono's longest duration) old and the recorded failure at least min(60 s, that period), storing the timestamp; otherwise changes nothing |
| `AlertManager.AlertManager.SendToTargets` | src/alerting.rs:680-687 | the failures are exactly the targets that failed; every target is tried |
| `AlertManager.AlertManager.Settle` | src/alerting.rs:689-703 | the two maps after a delivery and after a failure |
| `AlertManager.AlertManager.SendAlertIfNeeded` | src/alerting.rs:647-717 | suppressed alerts change nothing; a due one that some target took, or that has no target, is recorded as delivered, one that nobody took as failed; the error counts the failed targets |
| `AlertManager.SoloRunMatchesCall` | src/alerting.rs:647-717 | one caller alone, from any reachable state with free locks, takes the protocol to exactly the maps that the call computes |
| `TrackerSafety.EveryTaskInOnePlace` | src/task_tracker.rs:58-141 | in every run each accepted task is in exactly one of the shared set, one caller's taken set, and the reaped tasks |
| `TrackerSafety.ClosedForever` | src/task_tracker.rs:58-141 | once closed, the tracker stays closed and accepts nothing more |
| `TrackerSafety.ClosedExactly` | src/task_tracker.rs:58-141 | in every run the tracker is closed iff some `close` or `drain` was called |
| `TrackerSafety.AcceptedExactly` | src/task_tracker.rs:58-141 | until then every spawn was accepted, and after it none is |
| `TrackerSafety.RunHasTrace` | src/task_tracker.rs:58-141 | every run is the trace of some sequence of calls and task moves |
| `TrackerSafety.DrainResult` | src/task_tracker.rs:118-141 | a drain that returns n asked exactly n of its tasks to abort; all others ran to their own end; none is unfinished without an abort request; nothing is left in the shared set |
| `TrackerSafety.CleanShutdown` | src/task_tracker.rs:58-141 | when only drains took tasks and they returned 0, every accepted task ran to its end and `panic_count` is the number of tasks that panicked |
| `TrackerSafety.PanicCountIsSound` | src/task_tracker.rs:74-92 | `panic_count` never exceeds the number of panicked tasks |
| `TrackerSafety.CallCanReturn` | src/task_tracker.rs:107-141 | every waiting drain or abort_all can run on to its return |
| `TrackerSafety.AbortingCallCanReturn` | src/task_tracker.rs:107-141 | an aborting call can return without any task cooperating |
| `TrackerSafety.StepKeepsInv` | src/task_tracker.rs:58-141 | every step keeps places disjoint and covering, aborts accounted for and panics counted |
| `TrackerSafety.StepKeepsAbortsAccounted` | src/task_tracker.rs:107-141 | only tasks of an aborting call were asked to abort, and each call's count is the number it asked |
| `TrackerSafety.RunKeepsInv` | src/task_tracker.rs:58-141 | that invariant holds in every state of every run |
| `TaskTracker.TaskTracker.constructor` | src/task_tracker.rs:41-47 | a new tracker is open and empty |
| `TaskTracker.TaskTracker.Spawn` | src/task_tracker.rs:58-87 | refuses iff closed and then changes nothing; otherwise reaps everything finished and accepts the future, as one protocol step |
| `TaskTracker.TaskTracker.Reap` | src/task_tracker.rs:70-71 | the loop moves exactly the finished tasks out of the shared set |
| `TaskTracker.TaskTracker.Close` | src/task_tracker.rs:102-104 | the tracker is closed and nothing else changes |
| `TaskTracker.TaskTracker.BeginDrain` | src/task_tracker.rs:119-123 | closes and moves the set out in one region, touching no task |
| `TaskTracker.TaskTracker.BeginAbortAll` | src/task_tracker.rs:108-112 | asks exactly the shared tasks to stop and moves the set out in one region, the tracker staying open or closed |
| `TaskTracker.TaskTracker.JoinLoop` | src/task_tracker.rs:113-139 | among any steps of others, joins until the taken set is empty or the timer fires, by protocol steps only |
| `TaskTracker.TaskTracker.Drain` | src/task_tracker.rs:118-141 | among any steps of others, returns the number aborted, and then all tasks it took are joined, ended or asked to stop; the tracker is closed and empty |
| `TaskTracker.TaskTracker.AbortAll` | src/task_tracker.rs:107-114 | returns iff every task it took was joined, and those left were all asked to stop |
| `TaskTracker.DrainedAtReturn` | src/task_tracker.rs:118-141 | what a returned drain in any run says about the tasks it took |
| `ArchivePolicy.CutoffAgreesWithAge` | src/archive.rs:443-463 | for finish times between the epoch and now, the cutoff form selects a job iff `should_archive` does on its age, for all retentions |
| `ArchivePolicy.ArchivedByStatus` | src/archive.rs:1438-1461 | status by status, which timestamp and which retention decide whether a job is archived |
| `ArchivePolicy.CutoffDisagreesExactly` | src/archive.rs:1438-1461 | the exact finish times and retentions on which the two forms differ, and that the cutoff form only ever selects less |
| `ArchivePolicy.DisagreementExamples` | src/archive.rs:1455-1461 | a job finished just after now, and one finished before the epoch, that only the in-memory form archives |
| `ArchivePolicy.SqlSelectsByCutoff` | src/queue/postgres.rs:2886-2902 | the disjunction of SQL conditions built from the candidate table is one cutoff on the finish time |
| `ArchivePolicy.ConditionsHold` | src/queue/postgres.rs:2892-2902 | a built condition holds iff its candidate does, for any candidate table |
| `ArchiveCodec.VerifiedRoundTrip` | src/archive.rs:1365-1431 | with verification on, and any compressor, a stored payload decodes to the original and is never longer than it |
| `ArchiveCodec.CompressedExactly` | src/archive.rs:1365-1391 | a payload is stored compressed iff the policy asks for it and it gets strictly shorter; the size kept is that of the JSON |
| `ArchiveCodec.UnverifiedRoundTripExactly` | src/archive.rs:1365-1431 | with verification off, the original comes back iff the compressor was right about it |
| `ArchiveStore.MoveConserves` | src/archive.rs:813-815 | archiving keeps every job exactly once |
| `ArchiveStore.DeleteConserves` | src/queue/postgres.rs:1680-1702 | purging turns archived jobs into purged ones, and loses none |
| `ArchiveStore.PurgeAgreesWithAge` | src/archive.rs:1455-1461 | for rows archived between the epoch and now, the purge cutoff is a minimum age |
| `ArchiveStore.BatchSizesSum` | src/archive.rs:1182-1210 | an unstopped loop archives everything, or as much as its batches hold |
| `ArchiveStore.BatchSizesShape` | src/archive.rs:1152-1160 | every batch but the last is full, none is empty, and there are at most as many as the cap |
| `ArchiveStore.BatchSizesAre` | src/archive.rs:1182-1210 | full batches followed by at most one short one are the batches of the loop |
| `ArchiveBatches.Database.ArchiveJobs` | src/queue/postgres.rs:2861-3010 | moves min(batch_size, eligible) eligible jobs and nothing else, in one transaction |
| `ArchiveBatches.Database.Purge` | src/queue/postgres.rs:1680-1702 | an archived job in scope is purged iff it was archived at or before the cutoff; every other stays |
| `ArchiveBatches.Database.ListQueueNames` | src/queue/postgres.rs:1704-1713 | the queues that have active or archived jobs, strictly increasing |
| `NameOrder.Sort` | src/queue/backend.rs:410-416 | the same names, strictly increasing |
| `NameOrder.LessIsLexicographic` | src/queue/backend.rs:410-416 | the order is lexicographic: by the first difference, a proper prefix first |
| `ArchiveBatches.RunBatches` | src/archive.rs:1178-1210 | the loop terminates with only eligible jobs moved, all batches full except perhaps the last, and, unless stopped or capped, nothing eligible left |
| `ArchiveBatches.ArchiveInBatches` | src/archive.rs:1162-1217 | unstopped, the batches are exactly those that n eligible jobs make; stopped, a prefix of them; totals and reports are their sums; `should_stop` is asked once before each batch, and a yes ends the loop |
| `ArchiveBatches.RatioBetweenBatchRatios` | src/archive.rs:1203-1215 | the combined compression ratio lies between any bounds on the batch ratios |
| `ArchiveBatches.Combine` | src/archive.rs:1212-1214 | the ratio is the job-weighted mean, and 1 when nothing was archived |
| `ArchivePass.OnePassEqualsVisitingEachQueue` | src/archive.rs:826-873 | with one policy, the single pass over all queues reaches the same active, archived and purged jobs as visiting the queues one by one, in any order |
| `ArchivePass.VisitAllIsOutcome` | src/archive.rs:853-873 | visiting distinct queues in sequence does to each job what its own queue's policy says |
| `ArchivePass.VisitEverythingIsOutcome` | src/archive.rs:826-835 | so does the pass over all queues at once |
| `ArchivePass.OutcomeNeedsOnlyItsQueues` | src/archive.rs:837-851 | queues without jobs or with a disabled policy may be left out of the plan |
| `ScheduledArchival.ScheduledPassFor` | src/archive.rs:880-920 | either complete (archived up to the cap, then purged) or stopped while archiving with nothing purged; totals equal the moves; `should_stop` was asked before each batch and before the purge |
| `ScheduledArchival.PurgeExpired` | src/archive.rs:906-917 | deletes exactly the archived jobs past the policy's purge age, conserving all jobs |
| `ScheduledArchival.CompleteExactlyWithinCap` | src/archive.rs:880-920 | an unstopped visit leaves nothing eligible iff the eligible jobs fit the batch cap, and then it is the full visit |
| `ScheduledArchival.VisitFollows` | src/archive.rs:880-920 | complete or stopped, a visit moves a job only as its own queue's policy says |
| `ScheduledArchival.RunPlan` | src/archive.rs:853-874 | stops early iff the plan is unfinished; each queue before the stop is archived up to its own cap and purged, the current one archived in part, and every other queue untouched, whatever caps other queues met |
| `ScheduledArchival.OwnVisit` | src/archive.rs:853-873 | visited once among any visits of other queues, a queue ends as if visited alone |
| `ScheduledArchival.OtherQueueUntouched` | src/archive.rs:853-873 | a visit of one queue, complete, capped or stopped, changes no job of another |
| `ScheduledArchival.VisitPlanned` | src/archive.rs:853-872 | one entry of the plan, under the queue's own policy if it has one and else the default: skipped if disabled, else polled and visited |
| `ScheduledArchival.JobArchiver.BuildPlan` | src/archive.rs:837-851 | the plan names each queue once: those with their own policy and, under an enabled default, all others with jobs |
| `ScheduledArchival.JobArchiver.RunScheduledPass` | src/archive.rs:816-875 | jobs are conserved, and moved only as their queue's own policy (else the default policy) says, not at all if that is disabled; totals equal the moves; queue by queue, what was done, done in part and not touched; not stopped early means that in each queue within its own cap nothing is left that its policy archives or purges |
| `ScheduledArchival.PlanDoesEverything` | src/archive.rs:837-875 | after a finished plan each queue within its own cap is where its policy wants it, and the whole store is when all are |
| `ScheduledArchival.CompleteLeavesNothing` | src/archive.rs:837-875 | in a finished plan, for every queue, nothing is left that `policies[q]` selects, or the default policy for a queue without one |
| `ScheduledArchival.PoliciesAreOwn` | src/archive.rs:839-856 | whatever the pass moved, it moved under the queue's own policy, or the default policy for a queue without one |
| `ArchiveReports.ArchiveJobsWithEvents` | src/archive.rs:1089-1150 | under the queue's own policy or else the default, the published events are exactly the trace of the batches made, and the loop was complete |
| `ArchiveReports.TraceShape` | src/archive.rs:1070-1143 | Started, k-1 Progress events with the strictly increasing prefix sums of the batches, below the final count and with the estimate (or the count, if larger) as total, then Completed with everything that fits |
| `ArchiveReports.PublishProgress` | src/archive.rs:1113-1135 | holding back one report publishes one event for every batch but the last |
| `ArchiveReports.ArchiveJobsWithProgress` | src/archive.rs:1021-1068 | the callback hears a first zero, every prefix sum, and last exactly `jobs_archived` |
| `Decimal.ParsePrint` | src/config.rs:101-137 | parsing a printed number returns it iff it fits the 64-bit type |
| `DurationText.ReadBack` | src/config.rs:47-137 | what every printed std duration reads back as, including refusal beyond 64-bit milliseconds |
| `DurationGrammar.ParsedExactly` | src/config.rs:101-137 | a duration is read iff the text is, between white space, a number and a unit (none meaning seconds) whose product fits, and is that product; every other text is refused |
| `DurationGrammar.RetentionParsedExactly` | src/config.rs:182-217 | the same for retentions: d, h, m, s, none meaning days, negative numbers refused |
| `DurationGrammar.BareSeconds` | src/config.rs:101-107 | a bare number, white space around it or not, is that many seconds, or refused beyond 64 bits |
| `DurationGrammar.BareDays` | src/config.rs:182-217 | a bare number is that many days, or refused when they do not fit |
| `DurationGrammar.U64Exactly` | src/config.rs:104-107 | what counts as an unsigned number: an optional plus sign, zeros, and a printed number that fits |
| `DurationGrammar.I64Exactly` | src/config.rs:185-187 | the same for signed numbers that are not negative |
| `DurationGrammar.PrintsLargestUnit` | src/config.rs:47-66 | whole seconds are printed in the largest of h, m, s that divides them |
| `DurationGrammar.PrintsMillis` | src/config.rs:47-66 | anything finer is printed in whole milliseconds, at least one |
| `DurationGrammar.PrintsLargestRetentionUnit` | src/config.rs:155-168 | a retention is printed in the largest of d, h, m, s that divides its whole seconds |
| `DurationText.RoundTripExactly` | src/config.rs:47-137 | it reads back equal iff it is whole seconds, or whole milliseconds that fit |
| `DurationText.ReadBackIsClose` | src/config.rs:47-137 | otherwise it is cut to milliseconds, and non-zero never becomes zero |
| `DurationText.ParseUnit` | src/config.rs:94-137 | each unit scales with a checked multiplication |
| `DurationText.ParseMillis` | src/config.rs:101-118 | the millisecond form |
| `DurationText.ChronoReadBack` | src/config.rs:157-217 | a printed chrono duration reads back as its whole seconds; a negative one is refused |
| `DurationText.ChronoRoundTripExactly` | src/config.rs:157-217 | it reads back equal iff it is non-negative and whole seconds |
| `UrlRedaction.RedactsPassword` | src/config.rs:570-585 | without a slash in user name and password, the password, with any `:` and `@` in it, is replaced by `***` and all else is kept |
| `UrlRedaction.PasswordDoesNotShow` | src/config.rs:570-585 | URLs that differ only in a slash-free password redact to the same text iff the user name has no slash |
| `UrlRedaction.HiddenExactlyWithoutSlash` | src/config.rs:570-585 | a password (other than `***` itself) is hidden iff neither it nor the user name has a slash; otherwise the URL is unchanged, or ends with everything from the password's first slash on |
| `UrlRedaction.SlashInUserShows` | src/config.rs:570-585 | with a slash in the user name the URL is shown unchanged, whatever the password |
| `UrlRedaction.SlashShows` | src/config.rs:570-585 | with a slash in the password the result ends with all from that slash on, and is the whole URL when no `@` comes before it |
| `UrlRedaction.PathIsKept` | src/config.rs:575-584 | redaction acts on the authority alone and keeps the path verbatim |
| `UrlRedaction.SlashInPasswordExample` | src/config.rs:570-585 | `db://u:a/b@h` is shown unchanged |
| `UrlRedaction.SlashInUserExample` | src/config.rs:570-585 | `db://a/b:pw@h` is shown unchanged |
| `UrlRedaction.UnchangedWithoutPasswordExactly` | src/config.rs:557-585 | a URL without a password is unchanged iff no `@` in a query or fragment right after the authority follows a `:` (or the text between is the mask already) |
| `UrlRedaction.PortHiddenExample` | src/config.rs:570-585 | `db://h:5?@b` has no password and becomes `db://h:***@b` |
| `UrlRedaction.RedactUrlIdempotent` | src/config.rs:570-585 | redacting twice is redacting once, for every text |
| `UrlRedaction.OnlySchemeAndHostShow` | src/config.rs:600-615 | the result depends only on scheme, host and whether anything but `/` follows |
| `UrlRedaction.RedactUrlPathIdempotent` | src/config.rs:600-615 | idempotent, for every text |
| `UrlRedaction.ShownForm` | src/config.rs:600-615 | every result is a scheme and a host without user info, path or query |
| `UrlRedaction.WithoutSeparator` | src/config.rs:570-604 | a text without `://` is shown as `***` by `redact_url_path` and unchanged by `redact_url` |
| `BatchChunks.Validate` | src/batch.rs:343-378 | accepts exactly the batches of 1 to 10,000 jobs of one queue, each with at most 1000 dependencies and 10,000 dependents, and otherwise names the first fault in the order of the checks |
| `BatchChunks.ChunksKeepEverything` | src/batch.rs:385-408 | the chunks concatenate to the batch's jobs, all but the last have `batch_size` jobs (1000 if unset or zero), they are numbered from 1, and chunks of a valid batch are valid; a small batch is left as it is |
| `BatchChunks.ChunkAt` | src/batch.rs:395-398 | the k-th chunk is the k-th slice |
| `BatchChunks.ChunkNamesDiffer` | src/batch.rs:400-400 | no two chunks have the same name |
| `BatchStatus.FromStatusCounts` | src/batch.rs:465-505 | the loop computes the sums per class of status, in wrapping 32-bit arithmetic, and the status they stand for |
| `BatchStatus.StatusSays` | src/batch.rs:484-497 | over the jobs of a batch: completed iff all completed, failed iff all failed (fail-fast: iff some failed), partly failed iff all finished and both occur, pending iff none finished, processing otherwise |
| `BatchStatus.CountersSay` | src/batch.rs:460-482 | the counters are the numbers of completed, of failed, dead and timed out, and of pending, retrying and running jobs |
| `BatchStatus.UselessRow` | src/batch.rs:475-481 | a row with an unknown status or a count outside 32 bits changes nothing |
| `BatchStatus.QuotedTextClass` | src/batch.rs:476-481 | a status in quotes counts like the bare text |
| `BatchStatus.FinishedCountWraps` | src/batch.rs:484-494 | a batch whose counts add up to 2^32 looks pending |
| `BatchStatus.RegroupingKeepsProgress` | src/batch.rs:460-505 | one row per job, reordered, split and merged any number of times, gives the direct count over the jobs |
| `BatchStatus.SumPermuted` | src/batch.rs:473-482 | the order of the rows does not matter |
| `BatchStatus.ProgressIsDirectCount` | src/batch.rs:465-505 | rows that add up like the jobs give the direct count |
| `BatchStatus.TerminalForever` | src/batch.rs:484-497 | along every run of jobs finishing, a terminal status stays terminal, and a fail-fast failure stays a failure |
| `EventManager.Matches` | src/events.rs:348-394 | the filter accepts exactly the events in all its lists, in its time range, with all its metadata; an empty filter accepts every event |
| `EventManager.RefusedTimes` | src/events.rs:364-381 | exactly which processing times a filter refuses |
| `EventManager.EventManager.constructor` | src/events.rs:543-553 | a new manager has no subscription |
| `EventManager.EventManager.Subscribe` | src/events.rs:712-726 | the registry stays exactly the live subscriptions |
| `EventManager.EventManager.Remove` | src/events.rs:431-437 | also when it is dropped and unsubscribed both |
| `EventManager.EventManager.PayloadWanted` | src/events.rs:656-663 | true iff payloads are on by default or some live subscription asks for them |
| `EventManager.EventManager.Check` | src/events.rs:610-627 | the payload is kept iff wanted and within the limit; the notice is added iff it was wanted and too large; nothing else changes |
| `EventManager.EventManager.Send` | src/events.rs:637-650 | a buffer size of 0 publishes nothing |
| `EventManager.EventManager.ChannelPayloadsWereWanted` | src/events.rs:605-651 | over every sequence of calls, for a payload in the channel payloads are on by default or a subscription live when the event was checked asked for it, and it is within the limit |
| `CronMinutes.MatchesExactly` | src/cron.rs:94-118 | a schedule matches iff some whole-second fire lies in the same minute of local time, minutes counted from the epoch |
| `RunningStats.EncryptionStats.constructor` | src/encryption.rs:885-890 | nothing recorded |
| `RunningStats.EncryptionStats.RecordEncryption` | src/encryption.rs:893-916 | the fields after one more encryption |
| `RunningStats.EncryptionStats.RecordDecryption` | src/encryption.rs:919-933 | the fields after one more decryption |
| `RunningStats.AverageIsMean` | src/encryption.rs:893-933 | after any interleaving of operations each running average is the true mean of its own operations, and counts and bytes are exact |
| `RunningStats.UsageCounts` | src/encryption.rs:911-913 | the usage map counts every algorithm, and has no other entry |
| `RunningStats.UsageSumsToJobs` | src/encryption.rs:893-916 | the usage counts add up to the jobs encrypted |
| `JobMetrics.PrometheusMetricsCollector.RecordJobEvent` | src/metrics.rs:354-428 | both counter families after one more event |
| `JobMetrics.FailuresAgree` | src/metrics.rs:354-428 | after any events, per queue and priority, failures by error type add up to failed plus timed out plus dead |
| `JobMetrics.TotalsCount` | src/metrics.rs:354-428 | each counter of jobs is the number of events of its queue, kind and priority |
| `JobMetrics.FailuresCount` | src/metrics.rs:373-410 | each counter of failures is the number of events that fail that way: failed jobs by their message, timeouts, exhausted jobs |
| `JobMetrics.RecordAddsOnce` | src/metrics.rs:354-428 | a failure adds one to each side, any other event nothing |

## Left out

- Webhook, Slack and SMTP delivery and message bodies: a delivery is a success or a failure.
- A wall clock that goes backwards: clock readings never decrease in a run.
- Threshold checks that build alerts, and the `enabled` switch in front of them: one-branch facts.
- `drain`, `abort_all` and `send_alert_if_needed` futures that are dropped half way, and lock poisoning: a dropped alert call would leave its reservation in place.
- `owner` and task names of the tracker: they appear only in log messages.
- SQL text, rows that cannot be decoded, backend errors and several archivers at once: the store has the documented effect of one archiver whose calls succeed.
- ArchiveBatches.Database.ArchiveJobs: does not model the order in which jobs are picked, nor the computation of a batch's compression ratio, because every choice satisfies the results.
- A clock that moves during a pass: a pass reads the time once.
- `bytes_archived`, durations, operation ids, archival reasons and `archived_by`.
- `estimate_archival_jobs`: a heuristic; the estimate is an arbitrary number.
- Restoring and listing archived jobs: easy members.
- gzip, JSON and base64 themselves: functions of the codec, about which only the JSON round trip is required.
- Floating-point rounding: ratios and averages are reals.
- Non-ASCII text and Unicode white space in durations and URLs.
- The number and table forms that durations may also have in a configuration file, and environment variables, builders and range checks.
- Overflow panics of debug builds in batch counters: additions wrap as in a release build.
- 64-bit overflow of statistics and metric counters.
- BatchChunks.ChunksKeepEverything: does not model ids, failure mode, creation time and metadata of a chunk, because they are copied.
- Time zones whose offset changes within a minute, leap seconds, and parsing of cron expressions: a schedule is a set of fire times and one offset.
- `next_execution`: it returns the earliest later fire, which the schedule assumes.
- Slow receivers that lose events of the broadcast channel, and delivery without receivers.
- EventManager.EventManager.Subscribe: does not model how ids are drawn, because random ids are taken to be new.
- Histograms, gauges and custom metrics.
- PII, key rotation, error and retention counters of the encryption statistics: plain increments.
