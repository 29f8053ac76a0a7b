/**
 `run_scheduled_pass`: each queue follows its own policy, every other queue the default
 policy, and the pass ends early only when `should_stop` says so.
 */
module ScheduledArchival {
  import opened Common
  import opened ArchivePolicy
  import opened ArchiveStore
  import opened ArchivePass
  import opened ArchiveBatches
  import NameOrder

  datatype Pass = Pass(jobsArchived: nat, jobsPurged: nat, stoppedEarly: bool)

  /** The active jobs of `s` that left. */
  function Left(s: Store, s': Store): set<JobId> {
    s.active.Keys - s'.active.Keys
  }

  /** Some eligible jobs were archived, and nothing else changed. */
  ghost predicate PartlyArchived(s: Store, s': Store, scope: Option<string>, p: Policy, now: Instant) {
    Left(s, s') <= Eligible(s, scope, p, now) && s' == s.Move(Left(s, s'), now)
  }

  /** Archived up to the cap, then purged. */
  ghost predicate ArchivedAndPurged(s: Store, s': Store, scope: Option<string>, p: Policy, now: Instant, cap: nat) {
    && Left(s, s') <= Eligible(s, scope, p, now)
    && |Left(s, s')| == Min(|Eligible(s, scope, p, now)|, Capacity(cap, p.batchSize))
    && var m := s.Move(Left(s, s'), now);
       s' == m.Delete(Purgeable(m, scope, p, now))
  }

  /** How a visit ended: cut short while archiving, or complete. */
  ghost predicate VisitEnded(s: Store, s': Store, scope: Option<string>, p: Policy, now: Instant,
                             cap: nat, stopped: bool) {
    if stopped then PartlyArchived(s, s', scope, p, now) else ArchivedAndPurged(s, s', scope, p, now, cap)
  }

  /** Jobs are only moved, and the totals grow by exactly the moves. */
  ghost predicate Accounted(s: Store, s': Store, pass: Pass, pass': Pass) {
    && s'.Valid() && s'.All() == s.All()
    && pass'.jobsArchived - pass.jobsArchived == |s.active.Keys| - |s'.active.Keys|
    && pass'.jobsPurged - pass.jobsPurged == |s'.purged| - |s.purged|
  }

  /** `should_stop` was asked before every batch, and again before a purge. */
  ghost predicate PolledBefore(jobs: int, p: Policy, polls: nat, polled: nat, stopped: bool) {
    var again := if p.purgeArchivedAfter.Some? && !stopped then 1 else 0;
    polls + again <= polled && jobs <= Fills(polled - polls - again, p.batchSize)
  }

  /** The scheduled pass over one queue, or over all of them: archive, then purge. */
  method ScheduledPassFor(db: Database, scope: Option<string>, p: Policy, now: Instant, cap: nat,
                          stop: seq<bool>, polls: nat, pass: Pass)
    returns (pass': Pass, polled: nat)
    requires db.View().Valid() && p.enabled && !pass.stoppedEarly
    modifies db
    ensures VisitEnded(old(db.View()), db.View(), scope, p, now, cap, pass'.stoppedEarly)
    ensures Accounted(old(db.View()), db.View(), pass, pass')
    ensures Polled(stop, polls, polled, pass'.stoppedEarly)
    ensures PolledBefore(pass'.jobsArchived - pass.jobsArchived, p, polls, polled, pass'.stoppedEarly)
  {
    ghost var s := db.View();
    var jobs, stopped;
    jobs, stopped, polled := ArchiveScope(db, scope, p, now, cap, stop, polls);
    ghost var m, batchPolls := db.View(), polled;
    pass' := pass.(jobsArchived := pass.jobsArchived + jobs);
    stopped, polled := AskBeforePurge(p, stop, polls, polled, stopped);
    AskedBefore(jobs, p, polls, batchPolls, polled, stopped);
    var count := 0;
    if !stopped {
      count := PurgeExpired(db, scope, p, now);
    }
    pass' := pass'.(jobsPurged := pass'.jobsPurged + count, stoppedEarly := stopped);
    VisitDone(s, m, db.View(), scope, p, now, cap, stopped, jobs, count, pass, pass');
  }

  /** Some of the eligible jobs, all of them within the cap if nothing stopped the loop, were archived. */
  ghost predicate ScopeArchived(s: Store, m: Store, scope: Option<string>, p: Policy, now: Instant, cap: nat,
                                stopped: bool, jobs: nat) {
    && PartlyArchived(s, m, scope, p, now) && m.Valid() && m.All() == s.All()
    && jobs == |Left(s, m)| == |s.active.Keys| - |m.active.Keys|
    && (!stopped ==> jobs == Min(|Eligible(s, scope, p, now)|, Capacity(cap, p.batchSize)))
  }

  /** Exactly the archived jobs past the purge age were purged. */
  ghost predicate ScopePurged(m: Store, s': Store, scope: Option<string>, p: Policy, now: Instant, count: nat) {
    && s' == m.Delete(Purgeable(m, scope, p, now))
    && s'.Valid() && s'.All() == m.All() && |s'.purged| == |m.purged| + count
  }

  lemma VisitDone(s: Store, m: Store, s': Store, scope: Option<string>, p: Policy, now: Instant, cap: nat,
                  stopped: bool, jobs: nat, count: nat, pass: Pass, pass': Pass)
    requires ScopeArchived(s, m, scope, p, now, cap, stopped, jobs)
    requires if stopped then s' == m && count == 0 else ScopePurged(m, s', scope, p, now, count)
    requires pass'.jobsArchived == pass.jobsArchived + jobs && pass'.jobsPurged == pass.jobsPurged + count
    ensures VisitEnded(s, s', scope, p, now, cap, stopped) && Accounted(s, s', pass, pass')
  {
    VisitAccounted(s, m, s', jobs, count, pass, pass');
    if !stopped {
      VisitCompletes(s, m, s', scope, p, now, cap);
    }
  }

  lemma VisitAccounted(s: Store, m: Store, s': Store, jobs: nat, count: nat, pass: Pass, pass': Pass)
    requires m.All() == s.All() && jobs == |s.active.Keys| - |m.active.Keys| && m.purged == s.purged
    requires s'.Valid() && s'.All() == m.All() && s'.active == m.active && |s'.purged| == |m.purged| + count
    requires pass'.jobsArchived == pass.jobsArchived + jobs && pass'.jobsPurged == pass.jobsPurged + count
    ensures Accounted(s, s', pass, pass')
  {
  }

  /** With a purge to come, a loop that was not stopped asks once more. */
  method AskBeforePurge(p: Policy, stop: seq<bool>, ghost polls: nat, polled: nat, stopped: bool)
    returns (halt: bool, polled': nat)
    requires Polled(stop, polls, polled, stopped)
    ensures Polled(stop, polls, polled', halt)
    ensures (stopped ==> halt) && (halt && !stopped ==> p.purgeArchivedAfter.Some?)
    ensures polled' == polled + if p.purgeArchivedAfter.Some? && !stopped then 1 else 0
  {
    if p.purgeArchivedAfter.Some? && !stopped {
      PollOnce(stop, polls, polled);
      return Answer(stop, polled), polled + 1;
    }
    return stopped, polled;
  }

  lemma AskedBefore(jobs: nat, p: Policy, polls: nat, batchPolls: nat, polled: nat, halt: bool)
    requires polls <= batchPolls <= polled <= batchPolls + 1 && jobs <= Fills(batchPolls - polls, p.batchSize)
    requires p.purgeArchivedAfter.Some? && !halt ==> polled == batchPolls + 1
    ensures PolledBefore(jobs, p, polls, polled, halt)
  {
    if polled == batchPolls + 1 && (p.purgeArchivedAfter.None? || halt) {
      FillsGrows(batchPolls - polls, polled - polls, p.batchSize);
    }
  }

  lemma VisitCompletes(s: Store, m: Store, s': Store, scope: Option<string>, p: Policy, now: Instant, cap: nat)
    requires PartlyArchived(s, m, scope, p, now)
    requires |Left(s, m)| == Min(|Eligible(s, scope, p, now)|, Capacity(cap, p.batchSize))
    requires s' == m.Delete(Purgeable(m, scope, p, now))
    ensures ArchivedAndPurged(s, s', scope, p, now, cap)
  {
  }

  /** The batch loop, as far as the pass is concerned. */
  method ArchiveScope(db: Database, scope: Option<string>, p: Policy, now: Instant, cap: nat,
                      stop: seq<bool>, polls: nat)
    returns (jobs: nat, stopped: bool, polled: nat)
    requires db.View().Valid()
    modifies db`active, db`archived
    ensures ScopeArchived(old(db.View()), db.View(), scope, p, now, cap, stopped, jobs)
    ensures Polled(stop, polls, polled, stopped)
    ensures polls <= polled && jobs <= Fills(polled - polls, p.batchSize)
  {
    ghost var s := db.View();
    var total, batches, reports;
    total, stopped, polled, batches, reports := ArchiveInBatches(db, scope, p, now, cap, stop, polls);
    jobs := total.jobs;
    LoopArchives(s, db.View(), scope, p, now, cap, Sizes(batches), stopped, jobs);
  }

  lemma LoopArchives(s: Store, m: Store, scope: Option<string>, p: Policy, now: Instant, cap: nat,
                     sizes: seq<nat>, stopped: bool, jobs: nat)
    requires s.Valid() && LoopEnded(s, m, scope, p, now, cap, sizes, stopped) && jobs == Sum(sizes)
    ensures ScopeArchived(s, m, scope, p, now, cap, stopped, jobs)
  {
    BatchSizesSum(|Eligible(s, scope, p, now)|, p.batchSize, cap);
    MoveConserves(s, Left(s, m), now);
  }

  method PurgeExpired(db: Database, scope: Option<string>, p: Policy, now: Instant) returns (count: nat)
    requires db.View().Valid() && p.enabled
    modifies db`archived, db`purged
    ensures ScopePurged(old(db.View()), db.View(), scope, p, now, count)
  {
    DeleteConserves(db.View(), Purgeable(db.View(), scope, p, now));
    count := PurgeByCutoff(db, scope, p, now);
  }

  /** Purges by the policy's cutoff, when it has one. */
  method PurgeByCutoff(db: Database, scope: Option<string>, p: Policy, now: Instant) returns (count: nat)
    requires p.enabled
    modifies db`archived, db`purged
    ensures db.View() == old(db.View()).Delete(Purgeable(old(db.View()), scope, p, now))
    ensures count == |Purgeable(old(db.View()), scope, p, now)|
  {
    ghost var s := db.View();
    count := 0;
    if p.purgeArchivedAfter.Some? {
      var older := AgeThreshold(now, p.purgeArchivedAfter.value);
      if older.Some? {
        count := db.Purge(scope, older.value);
        assert OlderThan(s, scope, older.value) == Purgeable(s, scope, p, now);
        return;
      }
    }
    NothingToPurge(s, scope, p, now);
  }

  lemma NothingToPurge(s: Store, scope: Option<string>, p: Policy, now: Instant)
    requires p.purgeArchivedAfter.None? || AgeThreshold(now, p.purgeArchivedAfter.value).None?
    ensures Purgeable(s, scope, p, now) == {} && s.Delete({}) == s
  {
  }

  // ---------------------------------------------------------------- several queues

  /** The cap lets a visit archive everything eligible. */
  predicate WithinCap(s: Store, scope: Option<string>, p: Policy, now: Instant, cap: nat) {
    |Eligible(s, scope, p, now)| <= Capacity(cap, p.batchSize)
  }

  /** Exactly then does a visit that was not stopped leave nothing eligible behind. */
  lemma CompleteExactlyWithinCap(s: Store, s': Store, scope: Option<string>, p: Policy, now: Instant, cap: nat)
    requires ArchivedAndPurged(s, s', scope, p, now, cap)
    ensures Eligible(s', scope, p, now) == {} <==> WithinCap(s, scope, p, now, cap)
    ensures WithinCap(s, scope, p, now, cap) ==> s' == Visit(s, scope, p, now)
  {
    var eligible := Eligible(s, scope, p, now);
    EligibleAfterMove(s, Left(s, s'), scope, p, now);
    assert Eligible(s', scope, p, now) == Eligible(s.Move(Left(s, s'), now), scope, p, now);
    SubsetSize(Left(s, s'), eligible);
    RemainingSize(eligible, Left(s, s'));
  }

  /** A visit, complete or not, moves jobs only as their policy says. */
  lemma VisitFollows(s: Store, s': Store, scope: Option<string>, p: Policy, policies: Policies, now: Instant,
                     cap: nat, stopped: bool)
    requires s.Valid() && VisitEnded(s, s', scope, p, now, cap, stopped) && Governs(s, scope, p, policies)
    ensures FollowsPolicies(s, s', policies, now)
  {
    var m := s.Move(Left(s, s'), now);
    MoveFollows(s, Left(s, s'), scope, p, policies, now);
    if !stopped {
      MoveConserves(s, Left(s, s'), now);
      GovernsAfterMove(s, Left(s, s'), now, scope, p, policies);
      DeleteFollows(m, Purgeable(m, scope, p, now), scope, p, policies, now);
      FollowsTransitively(s, m, s', policies, now);
    }
  }

  /** The jobs of a queue, active or archived. */
  function JobsOf(s: Store, q: string): set<JobId> {
    (set id | id in s.active && s.active[id].queue == q) + (set id | id in s.archived && s.archived[id].job.queue == q)
  }

  /** From `s`, the jobs of `q` are now where `t` has them. */
  ghost predicate QueueAt(s: Store, q: string, s': Store, t: Store) {
    forall id :: id in JobsOf(s, q) ==> SameEntry(s', t, id)
  }

  /** The active jobs of `q` that left. */
  function LeftOf(s: Store, s': Store, q: string): set<JobId> {
    set id | id in s.active && s.active[id].queue == q && id !in s'.active
  }

  /** On its own jobs, `q` was archived up to the cap, then purged; nothing if its policy is disabled. */
  ghost predicate QueueDone(s: Store, s': Store, q: string, p: Policy, now: Instant, cap: nat) {
    var moved := LeftOf(s, s', q);
    && moved <= Eligible(s, Some(q), p, now)
    && |moved| == Min(|Eligible(s, Some(q), p, now)|, Capacity(cap, p.batchSize))
    && var m := s.Move(moved, now);
       QueueAt(s, q, s', m.Delete(Purgeable(m, Some(q), p, now)))
  }

  /** On its own jobs, `q` was archived in part. */
  ghost predicate QueuePartly(s: Store, s': Store, q: string, p: Policy, now: Instant) {
    var moved := LeftOf(s, s', q);
    moved <= Eligible(s, Some(q), p, now) && QueueAt(s, q, s', s.Move(moved, now))
  }

  /** From `s` to `s'`, jobs keep their queue: they are where they were, or further along. */
  ghost predicate JobsKept(s: Store, s': Store) {
    && (forall id :: id in s'.active ==> id in s.active && s'.active[id] == s.active[id])
    && (forall id :: id in s'.archived ==>
          || (id in s.active && s'.archived[id].job == s.active[id])
          || (id in s.archived && s'.archived[id] == s.archived[id]))
  }

  lemma FollowingKeepsJobs(s: Store, s': Store, policies: Policies, now: Instant)
    requires s.Valid() && s'.Valid() && s'.All() == s.All() && FollowsPolicies(s, s', policies, now)
    ensures JobsKept(s, s')
  {
    forall id | id in s'.active ensures id in s.active && s'.active[id] == s.active[id] {
      assert id in s.All() by { assert id in s'.All(); }
    }
    forall id | id in s'.archived
      ensures (id in s.active && s'.archived[id].job == s.active[id])
           || (id in s.archived && s'.archived[id] == s.archived[id])
    {
      assert id in s.All() by { assert id in s'.All(); }
    }
  }

  /** A visit of another queue, whatever its cap and however it ended, leaves `q` alone. */
  lemma OtherQueueUntouched(s: Store, cur: Store, next: Store, q: string, r: string, p: Policy, now: Instant,
                            cap: nat, stopped: bool, id: JobId)
    requires s.Valid() && cur.Valid() && JobsKept(s, cur) && q != r && id in JobsOf(s, q)
    requires VisitEnded(cur, next, Some(r), p, now, cap, stopped)
    ensures SameEntry(next, cur, id)
  {
    assert id !in Left(cur, next);
  }

  /** What is eligible in a queue that was not touched. */
  lemma UntouchedEligible(s: Store, cur: Store, q: string, p: Policy, now: Instant)
    requires JobsKept(s, cur) && QueueAt(s, q, cur, s)
    ensures Eligible(cur, Some(q), p, now) == Eligible(s, Some(q), p, now)
  {
    forall id | id in Eligible(s, Some(q), p, now) ensures id in Eligible(cur, Some(q), p, now) {
      assert id in JobsOf(s, q);
    }
  }

  /** Where one visit leaves a job. */
  lemma VisitEndedAt(cur: Store, next: Store, q: string, p: Policy, now: Instant, cap: nat, stopped: bool, id: JobId)
    requires VisitEnded(cur, next, Some(q), p, now, cap, stopped)
    ensures var row := RowOf(cur, id, id in Left(cur, next), now);
      var expired := !stopped && row.Some? && row.value.job.queue == q && PurgeSelects(p, row.value, now);
      && (id in next.active <==> id in cur.active && id !in Left(cur, next))
      && (id in next.active ==> next.active[id] == cur.active[id])
      && (id in next.archived <==> row.Some? && !expired)
      && (id in next.archived ==> next.archived[id] == row.value)
      && (id in next.purged <==> id in cur.purged || expired)
  {
  }

  /** The visit of `q` itself, when nothing touched `q` before. */
  lemma OwnVisit(s: Store, cur: Store, next: Store, q: string, p: Policy, now: Instant, cap: nat, stopped: bool)
    requires s.Valid() && cur.Valid() && JobsKept(s, cur) && QueueAt(s, q, cur, s)
    requires VisitEnded(cur, next, Some(q), p, now, cap, stopped)
    ensures if stopped then QueuePartly(s, next, q, p, now) else QueueDone(s, next, q, p, now, cap)
  {
    UntouchedEligible(s, cur, q, p, now);
    OwnLeft(s, cur, next, q, p, now, cap, stopped);
    var t := VisitFrom(s, LeftOf(s, next, q), q, p, now, cap, stopped);
    SameVisit(s, cur, t, next, q, p, now, cap, stopped);
  }

  /** Two visits of a queue that moved the same jobs, from stores that agree on the queue. */
  lemma SameVisit(s: Store, cur: Store, t: Store, next: Store, q: string, p: Policy, now: Instant,
                  cap: nat, stopped: bool)
    requires QueueAt(s, q, cur, s) && Left(s, t) == Left(cur, next)
    requires VisitEnded(s, t, Some(q), p, now, cap, stopped) && VisitEnded(cur, next, Some(q), p, now, cap, stopped)
    ensures QueueAt(s, q, next, t)
  {
    forall id | id in JobsOf(s, q) ensures SameEntry(next, t, id) {
      assert SameEntry(cur, s, id);
      VisitEndedAt(cur, next, q, p, now, cap, stopped, id);
      VisitEndedAt(s, t, q, p, now, cap, stopped, id);
    }
  }

  /** The same visit, made from `s`. */
  lemma VisitFrom(s: Store, moved: set<JobId>, q: string, p: Policy, now: Instant, cap: nat, stopped: bool)
    returns (t: Store)
    requires moved <= Eligible(s, Some(q), p, now)
    requires !stopped ==> |moved| == Min(|Eligible(s, Some(q), p, now)|, Capacity(cap, p.batchSize))
    ensures var m := s.Move(moved, now);
      t == if stopped then m else m.Delete(Purgeable(m, Some(q), p, now))
    ensures VisitEnded(s, t, Some(q), p, now, cap, stopped) && Left(s, t) == moved
  {
    var m := s.Move(moved, now);
    t := if stopped then m else m.Delete(Purgeable(m, Some(q), p, now));
    MoveKeys(s, moved, now);
  }

  lemma OwnLeft(s: Store, cur: Store, next: Store, q: string, p: Policy, now: Instant, cap: nat, stopped: bool)
    requires JobsKept(s, cur) && QueueAt(s, q, cur, s)
    requires VisitEnded(cur, next, Some(q), p, now, cap, stopped)
    ensures LeftOf(s, next, q) == Left(cur, next)
  {
    LeftAreEligible(cur, next, q, p, now, cap, stopped);
    SameLeft(s, cur, next, q);
  }

  lemma SameLeft(s: Store, cur: Store, next: Store, q: string)
    requires JobsKept(s, cur) && QueueAt(s, q, cur, s)
    requires forall id :: id in Left(cur, next) ==> id in cur.active && cur.active[id].queue == q
    ensures LeftOf(s, next, q) == Left(cur, next)
  {
    forall id | id in LeftOf(s, next, q) ensures id in Left(cur, next) {
      assert id in JobsOf(s, q) && SameEntry(cur, s, id);
    }
    forall id | id in Left(cur, next) ensures id in LeftOf(s, next, q) {
      assert cur.active[id] == s.active[id];
    }
  }

  lemma LeftAreEligible(cur: Store, next: Store, q: string, p: Policy, now: Instant, cap: nat, stopped: bool)
    requires VisitEnded(cur, next, Some(q), p, now, cap, stopped)
    ensures forall id :: id in Left(cur, next) ==> id in cur.active && cur.active[id].queue == q
  {
  }

  /** How far a plan has come with the queue `q`. */
  ghost predicate QueueProgress(s: Store, s': Store, plan: seq<string>, visited: nat, policies: Policies,
                                now: Instant, cap: nat, stopped: bool, q: string)
    requires visited <= |plan|
  {
    if q in plan[..visited] then QueueDone(s, s', q, policies.For(q), now, cap)
    else if stopped && visited < |plan| && q == plan[visited] then QueuePartly(s, s', q, policies.For(q), now)
    else QueueAt(s, q, s', s)
  }

  /** What one entry of a plan did. */
  ghost predicate Planned(s: Store, s': Store, q: string, policies: Policies, now: Instant, cap: nat,
                          pass: Pass, pass': Pass) {
    && Accounted(s, s', pass, pass') && FollowsPolicies(s, s', policies, now)
    && VisitEnded(s, s', Some(q), policies.For(q), now, cap, pass'.stoppedEarly)
  }

  /**
   What a plan did so far, queue by queue: a queue already visited is done, up to its own
   cap; the one being visited when the pass was stopped is archived in part; every other
   queue, planned for later or not planned, is untouched.
   */
  ghost predicate PlanDid(s: Store, s': Store, plan: seq<string>, visited: nat, policies: Policies,
                          now: Instant, cap: nat, pass: Pass)
    requires visited <= |plan|
  {
    && Accounted(s, s', Pass(0, 0, false), pass) && FollowsPolicies(s, s', policies, now)
    && PlanProgress(s, s', plan, visited, policies, now, cap, pass.stoppedEarly)
  }

  ghost predicate PlanProgress(s: Store, s': Store, plan: seq<string>, visited: nat, policies: Policies,
                               now: Instant, cap: nat, stopped: bool)
    requires visited <= |plan|
  {
    forall q :: QueueProgress(s, s', plan, visited, policies, now, cap, stopped, q)
  }

  lemma FollowsReflexively(s: Store, policies: Policies, now: Instant)
    ensures FollowsPolicies(s, s, policies, now)
  {
  }

  /** Where `q` is stays true when its jobs do not move. */
  lemma ProgressCarries(s: Store, cur: Store, next: Store, plan: seq<string>, visited: nat, policies: Policies,
                        now: Instant, cap: nat, q: string)
    requires visited <= |plan| && QueueProgress(s, cur, plan, visited, policies, now, cap, false, q)
    requires QueueAt(s, q, next, cur)
    ensures QueueProgress(s, next, plan, visited, policies, now, cap, false, q)
  {
    forall id | id in s.active && s.active[id].queue == q ensures id in cur.active <==> id in next.active {
      assert id in JobsOf(s, q);
    }
    assert LeftOf(s, next, q) == LeftOf(s, cur, q);
  }

  /** One more visit, seen from the queue `q`. */
  lemma PlanStepFor(s: Store, cur: Store, next: Store, plan: seq<string>, k: nat, policies: Policies,
                    now: Instant, cap: nat, stopped: bool, q: string)
    requires s.Valid() && cur.Valid() && JobsKept(s, cur) && Distinct(plan) && k < |plan|
    requires QueueProgress(s, cur, plan, k, policies, now, cap, false, q)
    requires VisitEnded(cur, next, Some(plan[k]), policies.For(plan[k]), now, cap, stopped)
    ensures QueueProgress(s, next, plan, if stopped then k else k + 1, policies, now, cap, stopped, q)
  {
    NextOfPlan(plan, k, q);
    if q == plan[k] {
      OwnVisit(s, cur, next, q, policies.For(q), now, cap, stopped);
    } else {
      OtherVisit(s, cur, next, q, plan[k], policies.For(plan[k]), now, cap, stopped);
      ProgressCarries(s, cur, next, plan, k, policies, now, cap, q);
    }
  }

  lemma NextOfPlan(plan: seq<string>, k: nat, q: string)
    requires Distinct(plan) && k < |plan|
    ensures q in plan[..k + 1] <==> q in plan[..k] || q == plan[k]
    ensures plan[k] !in plan[..k]
  {
    assert plan[..k + 1] == plan[..k] + [plan[k]];
  }

  lemma OtherVisit(s: Store, cur: Store, next: Store, q: string, r: string, p: Policy, now: Instant,
                   cap: nat, stopped: bool)
    requires s.Valid() && cur.Valid() && JobsKept(s, cur) && q != r
    requires VisitEnded(cur, next, Some(r), p, now, cap, stopped)
    ensures QueueAt(s, q, next, cur)
  {
    forall id | id in JobsOf(s, q) ensures SameEntry(next, cur, id) {
      OtherQueueUntouched(s, cur, next, q, r, p, now, cap, stopped, id);
    }
  }

  lemma PlanStepForAll(s: Store, cur: Store, next: Store, plan: seq<string>, k: nat, policies: Policies,
                       now: Instant, cap: nat, stopped: bool)
    requires s.Valid() && cur.Valid() && JobsKept(s, cur) && Distinct(plan) && k < |plan|
    requires PlanProgress(s, cur, plan, k, policies, now, cap, false)
    requires VisitEnded(cur, next, Some(plan[k]), policies.For(plan[k]), now, cap, stopped)
    ensures PlanProgress(s, next, plan, if stopped then k else k + 1, policies, now, cap, stopped)
  {
    var visited := if stopped then k else k + 1;
    forall q ensures QueueProgress(s, next, plan, visited, policies, now, cap, stopped, q) {
      assert QueueProgress(s, cur, plan, k, policies, now, cap, false, q);
      PlanStepFor(s, cur, next, plan, k, policies, now, cap, stopped, q);
    }
  }

  lemma PlanStep(s: Store, cur: Store, next: Store, plan: seq<string>, k: nat, policies: Policies,
                 now: Instant, cap: nat, pass: Pass, pass': Pass)
    requires s.Valid() && Distinct(plan) && k < |plan| && !pass.stoppedEarly
    requires PlanDid(s, cur, plan, k, policies, now, cap, pass)
    requires Planned(cur, next, plan[k], policies, now, cap, pass, pass')
    ensures PlanDid(s, next, plan, if pass'.stoppedEarly then k else k + 1, policies, now, cap, pass')
  {
    FollowsTransitively(s, cur, next, policies, now);
    FollowingKeepsJobs(s, cur, policies, now);
    PlanStepForAll(s, cur, next, plan, k, policies, now, cap, pass'.stoppedEarly);
  }

  /** The visits of a plan, in order, until the plan is done or the pass is stopped. */
  method RunPlan(db: Database, policies: Policies, plan: seq<string>, now: Instant, cap: nat,
                 stop: seq<bool>, polls: nat)
    returns (pass: Pass, polled: nat, visited: nat)
    requires db.View().Valid() && Distinct(plan)
    modifies db
    ensures visited <= |plan| && (visited < |plan| <==> pass.stoppedEarly)
    ensures PlanDid(old(db.View()), db.View(), plan, visited, policies, now, cap, pass)
    ensures Polled(stop, polls, polled, pass.stoppedEarly)
  {
    ghost var s := db.View();
    pass, polled, visited := Pass(0, 0, false), polls, 0;
    FollowsReflexively(s, policies, now);
    while visited < |plan|
      invariant visited <= |plan| && !pass.stoppedEarly
      invariant PlanDid(s, db.View(), plan, visited, policies, now, cap, pass)
      invariant Polled(stop, polls, polled, false)
    {
      ghost var cur, before, sofar := db.View(), polled, pass;
      pass, polled := VisitPlanned(db, policies, plan[visited], now, cap, stop, polled, pass);
      PolledOn(stop, polls, before, polled, pass.stoppedEarly);
      PlanStep(s, cur, db.View(), plan, visited, policies, now, cap, sofar, pass);
      if pass.stoppedEarly {
        return;
      }
      visited := visited + 1;
    }
  }

  /** Skipping a disabled policy is a complete visit under it. */
  lemma DisabledVisit(s: Store, scope: Option<string>, p: Policy, now: Instant, cap: nat)
    requires !p.enabled
    ensures VisitEnded(s, s, scope, p, now, cap, false)
  {
    NothingMoved(s, scope, p, now);
    NothingSelected(s, scope, p, now);
    VisitCompletes(s, s, s, scope, p, now, cap);
  }

  lemma NothingSelected(s: Store, scope: Option<string>, p: Policy, now: Instant)
    requires !p.enabled
    ensures Left(s, s) == {} && Eligible(s, scope, p, now) == {}
    ensures Purgeable(s, scope, p, now) == {} && s.Delete({}) == s
  {
  }

  lemma NothingMoved(s: Store, scope: Option<string>, p: Policy, now: Instant)
    ensures PartlyArchived(s, s, scope, p, now)
  {
  }

  lemma PolledOn(stop: seq<bool>, a: nat, b: nat, c: nat, stopped: bool)
    requires Polled(stop, a, b, false) && Polled(stop, b, c, stopped)
    ensures Polled(stop, a, c, stopped)
  {
  }

  /** One queue of a plan: skipped when its policy is disabled, else a poll and a visit. */
  method VisitPlanned(db: Database, policies: Policies, q: string, now: Instant, cap: nat,
                      stop: seq<bool>, polls: nat, pass: Pass)
    returns (pass': Pass, polled: nat)
    requires db.View().Valid() && !pass.stoppedEarly
    modifies db
    ensures Planned(old(db.View()), db.View(), q, policies, now, cap, pass, pass')
    ensures q in policies.own ==>
      VisitEnded(old(db.View()), db.View(), Some(q), policies.own[q], now, cap, pass'.stoppedEarly)
    ensures q !in policies.own ==>
      VisitEnded(old(db.View()), db.View(), Some(q), policies.fallback, now, cap, pass'.stoppedEarly)
    ensures Polled(stop, polls, polled, pass'.stoppedEarly)
    ensures policies.For(q).enabled ==> polls < polled
  {
    ghost var s := db.View();
    var p := policies.For(q);
    if !p.enabled {
      FollowsReflexively(s, policies, now);
      DisabledVisit(s, Some(q), p, now, cap);
      return pass, polls;
    }
    PollOnce(stop, polls, polls);
    polled := polls + 1;
    if Answer(stop, polls) {
      NothingMoved(s, Some(q), p, now);
      return pass.(stoppedEarly := true), polled;
    }
    pass', polled := ScheduledPassFor(db, Some(q), p, now, cap, stop, polled, pass);
    PolledOn(stop, polls, polls + 1, polled, pass'.stoppedEarly);
    VisitFollows(s, db.View(), Some(q), p, policies, now, cap, pass'.stoppedEarly);
  }

  // ---------------------------------------------------------------- the whole pass

  /** No visit of the pass meets its cap. */
  ghost predicate PassWithinCap(s: Store, policies: Policies, now: Instant, cap: nat) {
    if policies.own == map[] then WithinCap(s, None, policies.fallback, now, cap)
    else forall q :: q in s.QueueNames() ==> WithinCap(s, Some(q), policies.For(q), now, cap)
  }

  /** A job of a queue governed by `p` was archived, or purged, only as `p` says. */
  ghost predicate ObeyedBy(s: Store, s': Store, id: JobId, p: Policy, now: Instant) {
    && (id in s.active ==> id in s'.active || (p.enabled && CutoffSelects(p, s.active[id], now)))
    && (id in s.archived ==> id in s'.archived || (p.enabled && PurgeSelects(p, s.archived[id], now)))
  }

  /** Each queue with a policy of its own obeys that policy, every other queue the default one. */
  ghost predicate OwnPoliciesObeyed(s: Store, s': Store, own: map<string, Policy>, default: Policy, now: Instant) {
    forall q, id :: id in JobsOf(s, q) ==> ObeysOwn(s, s', own, default, now, q, id)
  }

  ghost predicate ObeysOwn(s: Store, s': Store, own: map<string, Policy>, default: Policy, now: Instant,
                           q: string, id: JobId) {
    && (q in own ==> ObeyedBy(s, s', id, own[q], now))
    && (q !in own ==> ObeyedBy(s, s', id, default, now))
  }

  /** Nothing of the queue `q` is left that `p` archives or purges. */
  ghost predicate NothingLeft(s: Store, q: string, p: Policy, now: Instant) {
    && (forall id :: id in s.active && s.active[id].queue == q ==> !CutoffSelects(p, s.active[id], now))
    && (forall id :: id in s.archived && s.archived[id].job.queue == q ==> !PurgeSelects(p, s.archived[id], now))
  }

  lemma PoliciesAreOwn(s: Store, s': Store, policies: Policies, now: Instant)
    requires s.Valid() && FollowsPolicies(s, s', policies, now)
    ensures OwnPoliciesObeyed(s, s', policies.own, policies.fallback, now)
  {
    forall q, id | id in JobsOf(s, q)
      ensures ObeysOwn(s, s', policies.own, policies.fallback, now, q, id)
    {
      ObeysFor(s, s', policies, now, q, id);
      assert q in policies.own ==> policies.For(q) == policies.own[q];
      assert q !in policies.own ==> policies.For(q) == policies.fallback;
    }
  }

  lemma ObeysFor(s: Store, s': Store, policies: Policies, now: Instant, q: string, id: JobId)
    requires s.Valid() && FollowsPolicies(s, s', policies, now) && id in JobsOf(s, q)
    ensures ObeyedBy(s, s', id, policies.For(q), now)
  {
    if id in s.active {
      assert id !in s.archived && s.active[id].queue == q;
      assert id in s'.active || MovedLawfully(s.active[id], s', id, policies, now);
      assert id in s'.active || CutoffSelects(policies.For(q), s.active[id], now);
    } else {
      assert id in s.archived && s.archived[id].job.queue == q;
      assert id in s'.archived || PurgeSelects(policies.For(q), s.archived[id], now);
    }
  }

  /** A visit leaves nothing of its queue that its policy selects. */
  lemma VisitLeavesNothing(s: Store, q: string, p: Policy, now: Instant)
    ensures NothingLeft(Visit(s, Some(q), p, now), q, p, now)
  {
    var v := Visit(s, Some(q), p, now);
    forall id | id in v.active && v.active[id].queue == q ensures !CutoffSelects(p, v.active[id], now) {
      VisitOf(s, q, p, now, id);
    }
    forall id | id in v.archived && v.archived[id].job.queue == q ensures !PurgeSelects(p, v.archived[id], now) {
      VisitOf(s, q, p, now, id);
    }
  }

  lemma NothingLeftWhereDone(s: Store, s': Store, q: string, p: Policy, now: Instant)
    requires JobsKept(s, s') && QueueAt(s, q, s', Visit(s, Some(q), p, now))
    ensures NothingLeft(s', q, p, now)
  {
    VisitLeavesNothing(s, q, p, now);
    var v := Visit(s, Some(q), p, now);
    forall id | id in s'.active && s'.active[id].queue == q ensures !CutoffSelects(p, s'.active[id], now) {
      assert id in JobsOf(s, q) && SameEntry(s', v, id);
    }
    forall id | id in s'.archived && s'.archived[id].job.queue == q ensures !PurgeSelects(p, s'.archived[id], now) {
      assert id in JobsOf(s, q) && SameEntry(s', v, id);
    }
  }

  /** A queue without jobs has nothing left. */
  lemma NothingLeftWithoutJobs(s: Store, s': Store, q: string, p: Policy, now: Instant)
    requires JobsKept(s, s') && q !in s.QueueNames()
    ensures NothingLeft(s', q, p, now)
  {
    forall id ensures !(id in s'.active && s'.active[id].queue == q) {
      assert id in s'.active ==> s.active[id].queue in s.QueueNames();
    }
    forall id ensures !(id in s'.archived && s'.archived[id].job.queue == q) {
      assert id in s.active ==> s.active[id].queue in s.QueueNames();
      assert id in s.archived ==> s.archived[id].job.queue in s.QueueNames();
    }
  }

  /** After a finished plan: for each queue whose own policy's cap suffices, nothing is left to do. */
  ghost predicate NothingLeftWithinCap(s: Store, s': Store, own: map<string, Policy>, default: Policy,
                                       now: Instant, cap: nat) {
    && (forall q :: q in own && WithinCap(s, Some(q), own[q], now, cap) ==> NothingLeft(s', q, own[q], now))
    && (forall q :: q !in own && WithinCap(s, Some(q), default, now, cap) ==> NothingLeft(s', q, default, now))
  }

  lemma CompleteLeavesNothing(s: Store, s': Store, policies: Policies, now: Instant, cap: nat)
    requires JobsKept(s, s') && CompleteWithinCap(s, s', policies, now, cap)
    ensures NothingLeftWithinCap(s, s', policies.own, policies.fallback, now, cap)
  {
    forall q | WithinCap(s, Some(q), policies.For(q), now, cap) ensures NothingLeft(s', q, policies.For(q), now) {
      if q in s.QueueNames() {
        NothingLeftWhereDone(s, s', q, policies.For(q), now);
      } else {
        NothingLeftWithoutJobs(s, s', q, policies.For(q), now);
      }
    }
    assert forall q :: q in policies.own ==> policies.For(q) == policies.own[q];
    assert forall q :: q !in policies.own ==> policies.For(q) == policies.fallback;
  }

  /** The pass over all queues at once leaves nothing in any of them. */
  lemma AllAtOnceLeavesNothing(s: Store, s': Store, p: Policy, now: Instant, cap: nat, q: string)
    requires VisitEnded(s, s', None, p, now, cap, false) && WithinCap(s, None, p, now, cap)
    ensures NothingLeft(s', q, p, now)
  {
    CompleteExactlyWithinCap(s, s', None, p, now, cap);
    forall id | id in s'.active ensures !CutoffSelects(p, s'.active[id], now) {
      assert id !in Eligible(s', None, p, now);
    }
    PurgeLeavesNothing(s.Move(Eligible(s, None, p, now), now), p, now);
  }

  lemma PurgeLeavesNothing(m: Store, p: Policy, now: Instant)
    ensures var r := m.Delete(Purgeable(m, None, p, now));
      forall id :: id in r.archived ==> !PurgeSelects(p, r.archived[id], now)
  {
    var r := m.Delete(Purgeable(m, None, p, now));
    forall id | id in r.archived ensures !PurgeSelects(p, r.archived[id], now) {
      assert id !in Purgeable(m, None, p, now) && r.archived[id] == m.archived[id];
    }
  }

  class JobArchiver {
    var policies: map<string, Policy>
    var defaultPolicy: Policy

    constructor (defaultPolicy: Policy)
      ensures policies == map[] && this.defaultPolicy == defaultPolicy
    {
      policies := map[];
      this.defaultPolicy := defaultPolicy;
    }

    function All(): Policies
      reads this
    {
      Policies(policies, defaultPolicy)
    }

    /** The queues with a policy of their own and, under an enabled default policy, all others. */
    method BuildPlan(db: Database) returns (plan: seq<string>)
      ensures NameOrder.Sorted(plan)
      ensures forall q :: q in plan <==> q in policies || (defaultPolicy.enabled && q in db.View().QueueNames())
    {
      var names := policies.Keys;
      if defaultPolicy.enabled {
        var listed := db.ListQueueNames();
        for i := 0 to |listed|
          invariant forall q :: q in names <==> q in policies || q in listed[..i]
        {
          if listed[i] !in policies {
            names := names + {listed[i]};
          }
        }
        assert listed[..|listed|] == listed;
      }
      plan := NameOrder.Sort(names);
    }

    /**
     One pass over every queue. Whatever happens, jobs are only moved as their own queue's
     policy says and the totals count the moves. With policies of their own, queues are
     visited in the order of the plan: each queue before `plan[visited]` is archived up to
     its own cap and purged, `plan[visited]`, at which the pass was stopped, is archived in
     part, and all others are untouched. A pass that was not stopped has done everything
     the policies ask for in each queue that met no cap of its own: nothing is left that the
     queue's own policy, or else the default policy, archives or purges.
     */
    method RunScheduledPass(db: Database, now: Instant, stop: seq<bool>)
      returns (pass: Pass, polled: nat, plan: seq<string>, visited: nat)
      requires db.View().Valid()
      modifies db
      ensures var s, cap := old(db.View()), 10_000;
        && Accounted(s, db.View(), Pass(0, 0, false), pass)
        && FollowsPolicies(s, db.View(), All(), now)
        && OwnPoliciesObeyed(s, db.View(), policies, defaultPolicy, now)
        && (!pass.stoppedEarly && PassWithinCap(s, All(), now, cap) ==>
              db.View() == Outcome(s, s.QueueNames(), All(), now))
        && (policies == map[] ==> VisitEnded(s, db.View(), None, defaultPolicy, now, cap, pass.stoppedEarly))
        && (policies == map[] && !pass.stoppedEarly && WithinCap(s, None, defaultPolicy, now, cap) ==>
              forall q :: NothingLeft(db.View(), q, defaultPolicy, now))
        && (policies != map[] ==>
              && NameOrder.Sorted(plan) && visited <= |plan| && (visited < |plan| <==> pass.stoppedEarly)
              && (forall q :: q in plan <==> q in policies || (defaultPolicy.enabled && q in s.QueueNames()))
              && PlanDid(s, db.View(), plan, visited, All(), now, cap, pass)
              && (!pass.stoppedEarly ==>
                    && CompleteWithinCap(s, db.View(), All(), now, cap)
                    && NothingLeftWithinCap(s, db.View(), policies, defaultPolicy, now, cap)))
      ensures Polled(stop, 0, polled, pass.stoppedEarly)
    {
      ghost var s := db.View();
      var cap := MAX_ARCHIVAL_BATCHES_PER_OPERATION;
      pass, polled, plan, visited := Pass(0, 0, false), 0, [], 0;
      if policies == map[] {
        if defaultPolicy.enabled {
          pass, polled := ScheduledPassFor(db, None, defaultPolicy, now, cap, stop, 0, pass);
          VisitFollows(s, db.View(), None, defaultPolicy, All(), now, cap, pass.stoppedEarly);
        } else {
          FollowsReflexively(s, All(), now);
          DisabledVisit(s, None, defaultPolicy, now, cap);
        }
        AllAtOnce(s, db.View(), defaultPolicy, now, cap, pass.stoppedEarly);
        PoliciesAreOwn(s, db.View(), All(), now);
        return;
      }
      plan := BuildPlan(db);
      SortedIsDistinct(plan);
      pass, polled, visited := RunPlan(db, All(), plan, now, cap, stop, 0);
      PoliciesAreOwn(s, db.View(), All(), now);
      if !pass.stoppedEarly {
        PlanDoesEverything(s, db.View(), plan, All(), now, cap, pass);
      }
    }
  }

  lemma SortedIsDistinct(names: seq<string>)
    requires NameOrder.Sorted(names)
    ensures Distinct(names)
  {
    forall i, j | 0 <= i < j < |names| ensures names[i] != names[j] {
      NameOrder.LessIrreflexive(names[i]);
    }
  }

  lemma AllAtOnce(s: Store, s': Store, p: Policy, now: Instant, cap: nat, stopped: bool)
    requires VisitEnded(s, s', None, p, now, cap, stopped)
    ensures !stopped && WithinCap(s, None, p, now, cap) ==>
      && s' == Outcome(s, s.QueueNames(), Policies(map[], p), now)
      && forall q :: NothingLeft(s', q, p, now)
  {
    if !stopped && WithinCap(s, None, p, now, cap) {
      CompleteExactlyWithinCap(s, s', None, p, now, cap);
      VisitEverythingIsOutcome(s, p, now);
      forall q ensures NothingLeft(s', q, p, now) {
        AllAtOnceLeavesNothing(s, s', p, now, cap, q);
      }
    }
  }

  /** A queue that was done within its own cap is where the policies want it. */
  lemma DoneWithinCap(s: Store, s': Store, q: string, policies: Policies, now: Instant, cap: nat)
    requires QueueDone(s, s', q, policies.For(q), now, cap) && WithinCap(s, Some(q), policies.For(q), now, cap)
    ensures QueueAt(s, q, s', Visit(s, Some(q), policies.For(q), now))
  {
    SubsetSize(LeftOf(s, s', q), Eligible(s, Some(q), policies.For(q), now));
  }

  /** Each queue whose own cap suffices is where its policy wants it, whatever the other queues do. */
  ghost predicate CompleteWithinCap(s: Store, s': Store, policies: Policies, now: Instant, cap: nat) {
    forall q :: q in s.QueueNames() && WithinCap(s, Some(q), policies.For(q), now, cap) ==>
      QueueAt(s, q, s', Visit(s, Some(q), policies.For(q), now))
  }

  /** The queues that a finished plan has not visited have nothing to do. */
  lemma PlannedOrIdle(s: Store, s': Store, plan: seq<string>, policies: Policies, now: Instant, cap: nat,
                      pass: Pass, q: string)
    requires forall q :: q in plan <==> q in policies.own || (policies.fallback.enabled && q in s.QueueNames())
    requires PlanDid(s, s', plan, |plan|, policies, now, cap, pass) && !pass.stoppedEarly
    requires q in s.QueueNames() && WithinCap(s, Some(q), policies.For(q), now, cap)
    ensures QueueAt(s, q, s', Visit(s, Some(q), policies.For(q), now))
  {
    assert plan[..|plan|] == plan;
    assert QueueProgress(s, s', plan, |plan|, policies, now, cap, false, q);
    if q in plan {
      DoneWithinCap(s, s', q, policies, now, cap);
    } else {
      VisitDisabled(s, q, policies.For(q), now);
    }
  }

  /**
   After a finished plan, each queue within its own cap is where its policy wants it, and
   the whole store is when all of them are.
   */
  lemma PlanDoesEverything(s: Store, s': Store, plan: seq<string>, policies: Policies, now: Instant, cap: nat,
                           pass: Pass)
    requires s.Valid() && policies.own != map[] && !pass.stoppedEarly
    requires forall q :: q in plan <==> q in policies.own || (policies.fallback.enabled && q in s.QueueNames())
    requires PlanDid(s, s', plan, |plan|, policies, now, cap, pass)
    ensures CompleteWithinCap(s, s', policies, now, cap)
    ensures NothingLeftWithinCap(s, s', policies.own, policies.fallback, now, cap)
    ensures PassWithinCap(s, policies, now, cap) ==> s' == Outcome(s, s.QueueNames(), policies, now)
  {
    forall q | q in s.QueueNames() && WithinCap(s, Some(q), policies.For(q), now, cap)
      ensures QueueAt(s, q, s', Visit(s, Some(q), policies.For(q), now))
    {
      PlannedOrIdle(s, s', plan, policies, now, cap, pass, q);
    }
    FollowingKeepsJobs(s, s', policies, now);
    CompleteLeavesNothing(s, s', policies, now, cap);
    if PassWithinCap(s, policies, now, cap) {
      var all := Outcome(s, s.QueueNames(), policies, now);
      forall id ensures SameEntry(s', all, id) {
        EverywhereAt(s, s', policies, now, id);
      }
      SameStore(s', all);
    }
  }

  lemma EverywhereAt(s: Store, s': Store, policies: Policies, now: Instant, id: JobId)
    requires s.Valid() && s'.Valid() && s'.All() == s.All() && s.purged <= s'.purged
    requires forall q :: q in s.QueueNames() ==> QueueAt(s, q, s', Visit(s, Some(q), policies.For(q), now))
    ensures SameEntry(s', Outcome(s, s.QueueNames(), policies, now), id)
  {
    OutcomeOf(s, s.QueueNames(), policies, now, id);
    if id in s.active || id in s.archived {
      var q := if id in s.active then s.active[id].queue else s.archived[id].job.queue;
      assert q in s.QueueNames() && id in JobsOf(s, q);
      VisitOf(s, q, policies.For(q), now, id);
    } else {
      assert id in s'.All() <==> id in s.purged;
    }
  }
}
