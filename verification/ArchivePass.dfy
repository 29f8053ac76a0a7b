/**
 What a scheduled archival pass means, job by job, and why visiting queues one at a time
 or all at once gives the same result.
 */
module ArchivePass {
  import opened Common
  import opened ArchivePolicy
  import opened ArchiveStore

  // The policies by queue name, and the one for every other queue.
  datatype Policies = Policies(own: map<string, Policy>, fallback: Policy) {
    function For(queue: string): Policy {
      if queue in own then own[queue] else fallback
    }
  }

  /** One complete visit: archive everything eligible, then purge. */
  function Visit(s: Store, scope: Option<string>, p: Policy, now: Instant): Store {
    var moved := s.Move(Eligible(s, scope, p, now), now);
    moved.Delete(Purgeable(moved, scope, p, now))
  }

  function VisitAll(s: Store, names: seq<string>, policies: Policies, now: Instant): Store {
    if names == [] then s
    else
      var last := names[|names| - 1];
      Visit(VisitAll(s, names[..|names| - 1], policies, now), Some(last), policies.For(last), now)
  }

  /** The jobs of `queues` that their own policies archive. */
  function Due(s: Store, queues: set<string>, policies: Policies, now: Instant): set<JobId> {
    set id | id in s.active && s.active[id].queue in queues
             && CutoffSelects(policies.For(s.active[id].queue), s.active[id], now)
  }

  function Expired(s: Store, queues: set<string>, policies: Policies, now: Instant): set<JobId> {
    set id | id in s.archived && s.archived[id].job.queue in queues
             && PurgeSelects(policies.For(s.archived[id].job.queue), s.archived[id], now)
  }

  /** The pass defined job by job: each job of `queues` follows its own queue's policy. */
  function Outcome(s: Store, queues: set<string>, policies: Policies, now: Instant): Store {
    var moved := s.Move(Due(s, queues, policies, now), now);
    moved.Delete(Expired(moved, queues, policies, now))
  }

  /** The archive row of a job, once the jobs that are due have been moved. */
  function RowOf(s: Store, id: JobId, due: bool, now: Instant): Option<Row> {
    if due && id in s.active then Some(Row(s.active[id], now))
    else if id in s.archived then Some(s.archived[id])
    else None
  }

  /** Where each job is after the pass. */
  lemma OutcomeOf(s: Store, queues: set<string>, policies: Policies, now: Instant, id: JobId)
    ensures var r := Outcome(s, queues, policies, now);
      var due := id in Due(s, queues, policies, now);
      var row := RowOf(s, id, due, now);
      var expired := row.Some? && row.value.job.queue in queues
                     && PurgeSelects(policies.For(row.value.job.queue), row.value, now);
      && (id in r.active <==> id in s.active && !due)
      && (id in r.active ==> r.active[id] == s.active[id])
      && (id in r.archived <==> row.Some? && !expired)
      && (id in r.archived ==> r.archived[id] == row.value)
      && (id in r.purged <==> id in s.purged || expired)
  {
  }

  lemma VisitOf(s: Store, q: string, p: Policy, now: Instant, id: JobId)
    ensures var r := Visit(s, Some(q), p, now);
      var due := id in s.active && s.active[id].queue == q && CutoffSelects(p, s.active[id], now);
      var row := RowOf(s, id, due, now);
      var expired := row.Some? && row.value.job.queue == q && PurgeSelects(p, row.value, now);
      && (id in r.active <==> id in s.active && !due)
      && (id in r.active ==> r.active[id] == s.active[id])
      && (id in r.archived <==> row.Some? && !expired)
      && (id in r.archived ==> r.archived[id] == row.value)
      && (id in r.purged <==> id in s.purged || expired)
  {
  }

  lemma VisitExtendsAt(s: Store, done: set<string>, q: string, policies: Policies, now: Instant, id: JobId)
    requires s.Valid() && q !in done
    ensures SameEntry(Visit(Outcome(s, done, policies, now), Some(q), policies.For(q), now),
                      Outcome(s, done + {q}, policies, now), id)
  {
    var before := Outcome(s, done, policies, now);
    OutcomeOf(s, done, policies, now, id);
    OutcomeOf(s, done + {q}, policies, now, id);
    VisitOf(before, q, policies.For(q), now, id);
  }

  /** Visiting one more queue extends the outcome by that queue. */
  lemma VisitExtends(s: Store, done: set<string>, q: string, policies: Policies, now: Instant)
    requires s.Valid() && q !in done
    ensures Visit(Outcome(s, done, policies, now), Some(q), policies.For(q), now)
         == Outcome(s, done + {q}, policies, now)
  {
    var visited := Visit(Outcome(s, done, policies, now), Some(q), policies.For(q), now);
    var after := Outcome(s, done + {q}, policies, now);
    forall id ensures SameEntry(visited, after, id) {
      VisitExtendsAt(s, done, q, policies, now, id);
    }
    SameStore(visited, after);
  }

  ghost predicate SameEntry(a: Store, b: Store, id: JobId) {
    && (id in a.active <==> id in b.active) && (id in a.active ==> a.active[id] == b.active[id])
    && (id in a.archived <==> id in b.archived) && (id in a.archived ==> a.archived[id] == b.archived[id])
    && (id in a.purged <==> id in b.purged)
  }

  lemma SameStore(a: Store, b: Store)
    requires forall id :: SameEntry(a, b, id)
    ensures a == b
  {
    assert forall id :: id in a.active ==> SameEntry(a, b, id);
    assert forall id :: id in b.active ==> SameEntry(a, b, id);
    assert a.active == b.active;
    assert forall id :: id in a.archived ==> SameEntry(a, b, id);
    assert forall id :: id in b.archived ==> SameEntry(a, b, id);
    assert a.archived == b.archived;
    assert forall id :: id in a.purged ==> SameEntry(a, b, id);
    assert forall id :: id in b.purged ==> SameEntry(a, b, id);
  }

  lemma OutcomeOfNothing(s: Store, policies: Policies, now: Instant)
    ensures Outcome(s, {}, policies, now) == s
  {
  }

  /** Queues without jobs, and queues whose policy is disabled, do not matter. */
  lemma OutcomeNeedsOnlyItsQueues(s: Store, a: set<string>, b: set<string>, policies: Policies, now: Instant)
    requires forall q :: q in s.QueueNames() && policies.For(q).enabled ==> (q in a <==> q in b)
    ensures Outcome(s, a, policies, now) == Outcome(s, b, policies, now)
  {
    assert Due(s, a, policies, now) == Due(s, b, policies, now);
    var moved := s.Move(Due(s, a, policies, now), now);
    forall id | id in moved.archived ensures moved.archived[id].job.queue in s.QueueNames() {
      if id in Due(s, a, policies, now) {
        assert moved.archived[id].job == s.active[id];
      } else {
        assert moved.archived[id] == s.archived[id];
      }
    }
    assert Expired(moved, a, policies, now) == Expired(moved, b, policies, now);
  }

  function Names(names: seq<string>): set<string> {
    set i | 0 <= i < |names| :: names[i]
  }

  lemma NamesSplit(names: seq<string>)
    requires names != [] && Distinct(names)
    ensures var front, last := names[..|names| - 1], names[|names| - 1];
      Distinct(front) && last !in Names(front) && Names(names) == Names(front) + {last}
  {
  }

  lemma {:induction false} VisitAllIsOutcome(s: Store, names: seq<string>, policies: Policies, now: Instant)
    requires s.Valid() && Distinct(names)
    ensures VisitAll(s, names, policies, now) == Outcome(s, Names(names), policies, now)
  {
    if names == [] {
      OutcomeOfNothing(s, policies, now);
    } else {
      var front, last := names[..|names| - 1], names[|names| - 1];
      VisitAllIsOutcome(s, front, policies, now);
      NamesSplit(names);
      VisitExtends(s, Names(front), last, policies, now);
    }
  }

  /** A pass over all queues at once is the outcome over every queue that has jobs. */
  lemma VisitEverythingIsOutcome(s: Store, p: Policy, now: Instant)
    ensures Visit(s, None, p, now) == Outcome(s, s.QueueNames(), Policies(map[], p), now)
  {
    var due := Due(s, s.QueueNames(), Policies(map[], p), now);
    assert Eligible(s, None, p, now) == due;
    var moved := s.Move(due, now);
    forall id | id in moved.archived ensures moved.archived[id].job.queue in s.QueueNames() {
      if id in due {
        assert moved.archived[id].job == s.active[id];
      } else {
        assert moved.archived[id] == s.archived[id];
      }
    }
    assert Purgeable(moved, None, p, now) == Expired(moved, s.QueueNames(), Policies(map[], p), now);
  }

  /**
   With one policy for every queue, the single pass over all queues reaches the same active,
   archived and purged jobs as visiting the queues separately, in any order.
   */
  lemma OnePassEqualsVisitingEachQueue(s: Store, names: seq<string>, p: Policy, now: Instant)
    requires s.Valid() && Distinct(names) && s.QueueNames() <= Names(names)
    ensures Visit(s, None, p, now) == VisitAll(s, names, Policies(map[], p), now)
  {
    VisitEverythingIsOutcome(s, p, now);
    VisitAllIsOutcome(s, names, Policies(map[], p), now);
    OutcomeNeedsOnlyItsQueues(s, s.QueueNames(), Names(names), Policies(map[], p), now);
  }

  // ---------------------------------------------------------------- what every pass obeys

  /** From `s` to `s'`, every job that moved did so under its own queue's policy. */
  ghost predicate FollowsPolicies(s: Store, s': Store, policies: Policies, now: Instant) {
    && (forall id :: id in s.active ==>
          (id in s'.active && s'.active[id] == s.active[id]) || MovedLawfully(s.active[id], s', id, policies, now))
    && (forall id :: id in s.archived ==>
          || (id in s'.archived && s'.archived[id] == s.archived[id])
          || (id in s'.purged && PurgeSelects(policies.For(s.archived[id].job.queue), s.archived[id], now)))
    && s.purged <= s'.purged
  }

  ghost predicate MovedLawfully(job: Job, s': Store, id: JobId, policies: Policies, now: Instant) {
    && CutoffSelects(policies.For(job.queue), job, now)
    && (|| (id in s'.archived && s'.archived[id] == Row(job, now))
        || (id in s'.purged && PurgeSelects(policies.For(job.queue), Row(job, now), now)))
  }

  lemma FollowsTransitively(a: Store, b: Store, c: Store, policies: Policies, now: Instant)
    requires FollowsPolicies(a, b, policies, now) && FollowsPolicies(b, c, policies, now)
    ensures FollowsPolicies(a, c, policies, now)
  {
  }

  lemma MoveFollows(s: Store, ids: set<JobId>, scope: Option<string>, p: Policy, policies: Policies, now: Instant)
    requires s.Valid() && ids <= Eligible(s, scope, p, now) && Governs(s, scope, p, policies)
    ensures FollowsPolicies(s, s.Move(ids, now), policies, now)
  {
  }

  lemma DeleteFollows(s: Store, ids: set<JobId>, scope: Option<string>, p: Policy, policies: Policies, now: Instant)
    requires s.Valid() && ids <= Purgeable(s, scope, p, now) && Governs(s, scope, p, policies)
    ensures FollowsPolicies(s, s.Delete(ids), policies, now)
  {
  }

  /** `p` is the policy of every queue in scope. */
  ghost predicate Governs(s: Store, scope: Option<string>, p: Policy, policies: Policies) {
    forall q :: q in s.QueueNames() && InScope(q, scope) ==> policies.For(q) == p
  }

  lemma GovernsAfterMove(s: Store, ids: set<JobId>, now: Instant, scope: Option<string>, p: Policy, policies: Policies)
    requires ids <= s.active.Keys && Governs(s, scope, p, policies)
    ensures Governs(s.Move(ids, now), scope, p, policies)
  {
  }

  /** A disabled policy leaves its queue alone. */
  lemma VisitDisabled(s: Store, q: string, p: Policy, now: Instant)
    requires !p.enabled
    ensures Visit(s, Some(q), p, now) == s
  {
  }
}
