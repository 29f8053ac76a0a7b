/**
 When a finished job is old enough to archive. The repository says it twice: the policy
 compares a job's age with a retention (`should_archive`, used by the in-memory backend),
 the SQL backends compare its finish time with a cutoff per status (`archival_candidates`
 and `age_threshold`).
 */
module ArchivePolicy {
  import opened Common
  import opened JobStatuses

  // Instants and durations in nanoseconds; an instant counts from the Unix epoch.
  type Instant = int
  type Duration = int

  // chrono's earliest instant lies before the epoch; its exact value does not matter.
  const EARLIEST: Instant := -8_334_601_228_800 * 1_000_000_000
  const UNIX_EPOCH: Instant := 0

  datatype Column = CompletedAt | FailedAt | TimedOutAt

  datatype Job = Job(
    queue: string,
    status: JobStatus,
    completedAt: Option<Instant>,
    failedAt: Option<Instant>,
    timedOutAt: Option<Instant>)
  {
    function At(column: Column): Option<Instant> {
      match column
      case CompletedAt => completedAt
      case FailedAt => failedAt
      case TimedOutAt => timedOutAt
    }

    /** When the job finished, as the in-memory backend reads it. */
    function FinishedAt(): Option<Instant> {
      match status
      case Completed => completedAt
      case Failed => failedAt
      case Dead => failedAt
      case TimedOut => timedOutAt
      case _ => None
    }
  }

  datatype Policy = Policy(
    archiveCompletedAfter: Option<Duration>,
    archiveFailedAfter: Option<Duration>,
    archiveDeadAfter: Option<Duration>,
    archiveTimedOutAfter: Option<Duration>,
    purgeArchivedAfter: Option<Duration>,
    compressPayloads: bool,
    batchSize: nat,
    enabled: bool)
  {
    function Retention(status: JobStatus): Option<Duration> {
      match status
      case Completed => archiveCompletedAfter
      case Failed => archiveFailedAfter
      case Dead => archiveDeadAfter
      case TimedOut => archiveTimedOutAfter
      case _ => None
    }

    predicate ShouldArchive(status: JobStatus, age: Duration) {
      enabled &&
      match status
      case Completed => archiveCompletedAfter.Some? && age >= archiveCompletedAfter.value
      case Failed => archiveFailedAfter.Some? && age >= archiveFailedAfter.value
      case Dead => archiveDeadAfter.Some? && age >= archiveDeadAfter.value
      case TimedOut => archiveTimedOutAfter.Some? && age >= archiveTimedOutAfter.value
      case _ => false
    }

    /** The retention, status text and timestamp column of each status that can be archived. */
    function Candidates(): seq<(Option<Duration>, string, Column)> {
      [ (archiveCompletedAfter, "Completed", CompletedAt),
        (archiveFailedAfter, "Failed", FailedAt),
        (archiveDeadAfter, "Dead", FailedAt),
        (archiveTimedOutAfter, "TimedOut", TimedOutAt) ]
    }
  }

  /** Subtraction that fails outside chrono's range. */
  function CheckedSub(now: Instant, age: Duration): Option<Instant> {
    if now - age < EARLIEST then None else Some(now - age)
  }

  function AgeThreshold(now: Instant, age: Duration): Option<Instant> {
    if age <= 0 then Some(now)
    else
      var threshold := CheckedSub(now, age);
      if threshold.Some? && threshold.value >= UNIX_EPOCH then threshold else None
  }

  // One SQL condition: the status, its timestamp column, and the latest timestamp selected.
  datatype Condition = Condition(status: string, column: Column, cutoff: Instant) {
    predicate Holds(job: Job) {
      StatusText(job.status) == status && job.At(column).Some? && job.At(column).value <= cutoff
    }
  }

  /** The conditions the SQL backends build from a candidate table. */
  function Conditions(candidates: seq<(Option<Duration>, string, Column)>, now: Instant): seq<Condition> {
    if candidates == [] then []
    else
      var (after, status, column) := candidates[0];
      var rest := Conditions(candidates[1..], now);
      if after.Some? && AgeThreshold(now, after.value).Some?
      then [Condition(status, column, AgeThreshold(now, after.value).value)] + rest
      else rest
  }

  /** Whether the SQL form archives the job. */
  predicate SqlSelects(p: Policy, job: Job, now: Instant) {
    p.enabled && exists n :: 0 <= n < |Conditions(p.Candidates(), now)| && Conditions(p.Candidates(), now)[n].Holds(job)
  }

  /** Whether the in-memory form archives the job. */
  predicate MemorySelects(p: Policy, job: Job, now: Instant) {
    job.FinishedAt().Some? && p.ShouldArchive(job.status, now - job.FinishedAt().value)
  }

  predicate CandidateHolds(candidate: (Option<Duration>, string, Column), job: Job, now: Instant) {
    var (after, status, column) := candidate;
    && after.Some? && AgeThreshold(now, after.value).Some?
    && Condition(status, column, AgeThreshold(now, after.value).value).Holds(job)
  }

  lemma {:induction false} ConditionsHold(candidates: seq<(Option<Duration>, string, Column)>, job: Job, now: Instant)
    ensures (exists n :: 0 <= n < |Conditions(candidates, now)| && Conditions(candidates, now)[n].Holds(job))
       <==> (exists m :: 0 <= m < |candidates| && CandidateHolds(candidates[m], job, now))
  {
    if candidates != [] {
      var all := Conditions(candidates, now);
      var rest := Conditions(candidates[1..], now);
      ConditionsHold(candidates[1..], job, now);
      if n :| 0 <= n < |all| && all[n].Holds(job) {
        if |all| == |rest| {
          assert rest[n].Holds(job);
          var m :| 0 <= m < |candidates[1..]| && CandidateHolds(candidates[1..][m], job, now);
          assert CandidateHolds(candidates[m + 1], job, now);
        } else if n == 0 {
          assert CandidateHolds(candidates[0], job, now);
        } else {
          assert rest[n - 1].Holds(job);
          var m :| 0 <= m < |candidates[1..]| && CandidateHolds(candidates[1..][m], job, now);
          assert CandidateHolds(candidates[m + 1], job, now);
        }
      }
      if m :| 0 <= m < |candidates| && CandidateHolds(candidates[m], job, now) {
        if m == 0 {
          assert all[0].Holds(job);
        } else {
          assert CandidateHolds(candidates[1..][m - 1], job, now);
          var n :| 0 <= n < |rest| && rest[n].Holds(job);
          assert all[n + |all| - |rest|].Holds(job);
        }
      }
    }
  }

  /** The same selection as a cutoff on the finish time. */
  predicate CutoffSelects(p: Policy, job: Job, now: Instant) {
    && p.enabled && job.FinishedAt().Some? && p.Retention(job.status).Some?
    && AgeThreshold(now, p.Retention(job.status).value).Some?
    && job.FinishedAt().value <= AgeThreshold(now, p.Retention(job.status).value).value
  }

  /** The SQL conditions, read as a whole, select by one cutoff on the finish time. */
  lemma SqlSelectsByCutoff(p: Policy, job: Job, now: Instant)
    ensures SqlSelects(p, job, now) <==> CutoffSelects(p, job, now)
  {
    ConditionsHold(p.Candidates(), job, now);
    if p.Retention(job.status).Some? && job.FinishedAt().Some? {
      var m := match job.status case Completed => 0 case Failed => 1 case Dead => 2 case _ => 3;
      assert CandidateHolds(p.Candidates()[m], job, now) <==>
             AgeThreshold(now, p.Retention(job.status).value).Some?
             && job.FinishedAt().value <= AgeThreshold(now, p.Retention(job.status).value).value;
    }
  }

  /** The finish time is one that a clock between the epoch and now wrote. */
  predicate PlausibleFinish(job: Job, now: Instant) {
    job.FinishedAt().Some? ==> UNIX_EPOCH <= job.FinishedAt().value <= now
  }

  /** The two backends archive the same jobs, for zero, negative and huge retentions too. */
  lemma CutoffAgreesWithAge(p: Policy, job: Job, now: Instant)
    requires PlausibleFinish(job, now)
    ensures SqlSelects(p, job, now) <==> MemorySelects(p, job, now)
  {
    SqlSelectsByCutoff(p, job, now);
  }

  /** `at` is known and at least `after` ago. */
  predicate OldEnough(at: Option<Instant>, after: Option<Duration>, now: Instant) {
    at.Some? && after.Some? && now - at.value >= after.value
  }

  /** Which jobs both backends archive, status by status. */
  lemma ArchivedByStatus(p: Policy, job: Job, now: Instant)
    requires PlausibleFinish(job, now)
    ensures SqlSelects(p, job, now) <==>
      p.enabled &&
      (|| (job.status == Completed && OldEnough(job.completedAt, p.archiveCompletedAfter, now))
       || (job.status == Failed && OldEnough(job.failedAt, p.archiveFailedAfter, now))
       || (job.status == Dead && OldEnough(job.failedAt, p.archiveDeadAfter, now))
       || (job.status == TimedOut && OldEnough(job.timedOutAt, p.archiveTimedOutAfter, now)))
  {
    CutoffAgreesWithAge(p, job, now);
  }

  /**
   Exactly when they disagree: only on a job that finished in the future under a negative
   retention, or before the epoch under a retention reaching back before the epoch.
   Then the in-memory form alone archives it.
   */
  lemma CutoffDisagreesExactly(p: Policy, job: Job, now: Instant)
    requires now >= UNIX_EPOCH
    ensures SqlSelects(p, job, now) ==> MemorySelects(p, job, now)
    ensures (SqlSelects(p, job, now) <==> MemorySelects(p, job, now)) <==>
      !(&& p.enabled && p.Retention(job.status).Some? && job.FinishedAt().Some?
        && var finish, retention := job.FinishedAt().value, p.Retention(job.status).value;
           || now < finish <= now - retention
           || finish <= now - retention < UNIX_EPOCH)
  {
    SqlSelectsByCutoff(p, job, now);
  }

  /** One such job each: finished just after now, and just before the epoch. */
  lemma DisagreementExamples(p: Policy, now: Instant)
    requires p.enabled && now >= UNIX_EPOCH
    ensures p.archiveCompletedAfter == Some(-1) ==>
      var job := Job("q", Completed, Some(now + 1), None, None);
      MemorySelects(p, job, now) && !SqlSelects(p, job, now)
    ensures p.archiveCompletedAfter == Some(now + 1) ==>
      var job := Job("q", Completed, Some(-1), None, None);
      MemorySelects(p, job, now) && !SqlSelects(p, job, now)
  {
    SqlSelectsByCutoff(p, Job("q", Completed, Some(now + 1), None, None), now);
    SqlSelectsByCutoff(p, Job("q", Completed, Some(-1), None, None), now);
  }
}
