/**
 The batch loop of the archiver, with its stop signal and its cap, over a database that
 moves jobs a batch at a time. `stop` is an arbitrary stream of answers of `should_stop`,
 and `polls` counts how many were asked for; the time is read once per pass (`now`).
 */
module ArchiveBatches {
  import opened Common
  import opened ArchivePolicy
  import opened ArchiveStore
  import NameOrder

  datatype BatchStats = BatchStats(jobs: nat, ratio: real)

  datatype Totals = Totals(jobs: nat, ratio: real)

  class Database {
    var active: map<JobId, Job>
    var archived: map<JobId, Row>
    var purged: set<JobId>

    function View(): Store
      reads this
    {
      Store(active, archived, purged)
    }

    /** Moves up to `batchSize` eligible jobs in one transaction; which ones is not said. */
    method ArchiveJobs(scope: Option<string>, p: Policy, now: Instant) returns (batch: BatchStats)
      modifies this`active, this`archived
      ensures var s := old(View());
        var eligible := Eligible(s, scope, p, now);
        var ids := s.active.Keys - active.Keys;
        && ids <= eligible && batch.jobs == |ids| == Min(p.batchSize, |eligible|)
        && View() == s.Move(ids, now)
    {
      var eligible := Eligible(View(), scope, p, now);
      var picked := Pick(eligible, p.batchSize);
      var moved := View().Move(picked, now);
      MoveKeys(View(), picked, now);
      var ratio: real := *;
      batch := BatchStats(|picked|, ratio);
      active, archived := moved.active, moved.archived;
      assert View() == moved;
    }

    /** Deletes the archived jobs of `scope` archived at or before `olderThan`. */
    method Purge(scope: Option<string>, olderThan: Instant) returns (count: nat)
      modifies this`archived, this`purged
      ensures View() == old(View()).Delete(OlderThan(old(View()), scope, olderThan))
      ensures count == |OlderThan(old(View()), scope, olderThan)|
      ensures active == old(active) && forall id :: id in old(archived) ==>
        if old(archived)[id].archivedAt <= olderThan && (scope == None || scope == Some(old(archived)[id].job.queue))
        then id !in archived && id in purged
        else id in archived && archived[id] == old(archived)[id]
    {
      var ids := OlderThan(View(), scope, olderThan);
      archived, purged := archived - ids, purged + ids;
      count := |ids|;
    }

    method ListQueueNames() returns (names: seq<string>)
      ensures NameOrder.Sorted(names) && forall q :: q in names <==> q in View().QueueNames()
    {
      names := NameOrder.Sort(View().QueueNames());
    }
  }

  /** Any `limit` of the candidates, or all of them when there are fewer. */
  method Pick(candidates: set<JobId>, limit: nat) returns (picked: set<JobId>)
    ensures picked <= candidates && |picked| == Min(limit, |candidates|)
  {
    picked := {};
    while |picked| < limit && picked != candidates
      invariant picked <= candidates && |picked| <= limit
      decreases candidates - picked
    {
      assert candidates - picked != {};
      var id :| id in candidates - picked;
      picked := picked + {id};
    }
    SubsetSize(picked, candidates);
  }

  lemma SubsetSize(a: set<JobId>, b: set<JobId>)
    requires a <= b
    ensures |a| <= |b| && (|a| == |b| ==> a == b)
  {
    assert b == a + (b - a);
  }

  function Sizes(batches: seq<BatchStats>): (r: seq<nat>)
    ensures |r| == |batches|
  {
    if batches == [] then [] else Sizes(batches[..|batches| - 1]) + [batches[|batches| - 1].jobs]
  }

  /** A ratio counted once per job: their product, built up so that proofs stay linear. */
  function Weight(ratio: real, jobs: nat): real {
    if jobs == 0 then 0.0 else Weight(ratio, jobs - 1) + ratio
  }

  lemma {:induction false} WeightIsProduct(ratio: real, jobs: nat)
    ensures Weight(ratio, jobs) == ratio * jobs as real
  {
    if jobs > 0 {
      WeightIsProduct(ratio, jobs - 1);
      assert jobs as real == (jobs - 1) as real + 1.0;
      assert ratio * ((jobs - 1) as real + 1.0) == ratio * (jobs - 1) as real + ratio;
    }
  }

  lemma {:induction false} WeightAdds(ratio: real, a: nat, b: nat)
    ensures Weight(ratio, a + b) == Weight(ratio, a) + Weight(ratio, b)
  {
    if b > 0 {
      WeightAdds(ratio, a, b - 1);
    }
  }

  lemma {:induction false} WeightGrows(x: real, y: real, jobs: nat)
    requires x <= y
    ensures Weight(x, jobs) <= Weight(y, jobs)
    ensures x < y && jobs > 0 ==> Weight(x, jobs) < Weight(y, jobs)
  {
    if jobs > 0 {
      WeightGrows(x, y, jobs - 1);
    }
  }

  function WeightedSum(batches: seq<BatchStats>): real {
    if batches == [] then 0.0
    else
      var last := batches[|batches| - 1];
      WeightedSum(batches[..|batches| - 1]) + Weight(last.ratio, last.jobs)
  }

  /** The running totals of a list: what the batch callback is called with. */
  function PrefixSums(xs: seq<nat>): (r: seq<nat>)
    ensures |r| == |xs|
  {
    if xs == [] then [] else PrefixSums(xs[..|xs| - 1]) + [Sum(xs)]
  }

  lemma SizesSnoc(batches: seq<BatchStats>, b: BatchStats)
    ensures Sizes(batches + [b]) == Sizes(batches) + [b.jobs]
    ensures Sum(Sizes(batches + [b])) == Sum(Sizes(batches)) + b.jobs
    ensures WeightedSum(batches + [b]) == WeightedSum(batches) + Weight(b.ratio, b.jobs)
  {
  }

  lemma PrefixSumsSnoc(sizes: seq<nat>, x: nat)
    ensures PrefixSums(sizes + [x]) == PrefixSums(sizes) + [Sum(sizes) + x]
  {
    assert (sizes + [x])[..|sizes|] == sizes;
    assert Sum(sizes + [x]) == Sum(sizes) + x;
  }

  lemma {:induction false} WeightedSumBetween(batches: seq<BatchStats>, lo: real, hi: real)
    requires forall i :: 0 <= i < |batches| ==> lo <= batches[i].ratio <= hi
    ensures Weight(lo, Sum(Sizes(batches))) <= WeightedSum(batches) <= Weight(hi, Sum(Sizes(batches)))
  {
    if batches != [] {
      var front, last := batches[..|batches| - 1], batches[|batches| - 1];
      WeightedSumBetween(front, lo, hi);
      SizesSnoc(front, last);
      assert front + [last] == batches;
      WeightAdds(lo, Sum(Sizes(front)), last.jobs);
      WeightAdds(hi, Sum(Sizes(front)), last.jobs);
      WeightGrows(lo, last.ratio, last.jobs);
      WeightGrows(last.ratio, hi, last.jobs);
    }
  }

  /** The numbers a run of batches adds up to. */
  ghost predicate TotalsOf(total: Totals, batches: seq<BatchStats>) {
    && total.jobs == Sum(Sizes(batches))
    && (total.jobs == 0 ==> total.ratio == 1.0)
    && (total.jobs > 0 ==> Weight(total.ratio, total.jobs) == WeightedSum(batches))
  }

  /** The combined ratio lies between the smallest and the largest batch ratio. */
  lemma RatioBetweenBatchRatios(total: Totals, batches: seq<BatchStats>, lo: real, hi: real)
    requires TotalsOf(total, batches) && total.jobs > 0
    requires forall i :: 0 <= i < |batches| ==> lo <= batches[i].ratio <= hi
    ensures lo <= total.ratio <= hi
  {
    WeightedSumBetween(batches, lo, hi);
    if total.ratio < lo {
      WeightGrows(total.ratio, lo, total.jobs);
    } else if hi < total.ratio {
      WeightGrows(hi, total.ratio, total.jobs);
    }
  }

  /** Why an archival loop ended, and with what. */
  ghost predicate LoopEnded(s: Store, s': Store, scope: Option<string>, p: Policy, now: Instant,
                            cap: nat, sizes: seq<nat>, stopped: bool) {
    var eligible := Eligible(s, scope, p, now);
    var moved := s.active.Keys - s'.active.Keys;
    var all := BatchSizes(|eligible|, p.batchSize, cap);
    && moved <= eligible && s' == s.Move(moved, now) && |moved| == Sum(sizes)
    && sizes <= all && (!stopped ==> sizes == all)
  }

  // What the loop of `archive_in_batches` accumulates; `reports` are the callback's arguments.
  datatype Tally = Tally(jobs: nat, weighted: real, batches: seq<BatchStats>, reports: seq<nat>) {
    ghost predicate Ok() {
      && jobs == Sum(Sizes(batches)) && weighted == WeightedSum(batches)
      && reports == PrefixSums(Sizes(batches))
    }

    function Add(b: BatchStats): Tally {
      Tally(jobs + b.jobs, weighted + Weight(b.ratio, b.jobs), batches + [b], reports + [jobs + b.jobs])
    }

    lemma AddOk(b: BatchStats)
      requires Ok()
      ensures Add(b).Ok()
    {
      SizesSnoc(batches, b);
      PrefixSumsSnoc(Sizes(batches), b.jobs);
    }
  }

  /** The first `k` batches were full, a further one was not empty. */
  ghost predicate FullBefore(batches: seq<BatchStats>, k: nat, size: nat) {
    && k <= |batches| <= k + 1
    && (forall i :: 0 <= i < k ==> batches[i].jobs == size)
    && (k > 0 ==> size > 0)
    && (|batches| == k + 1 ==> 0 < batches[k].jobs < size)
  }

  lemma FullBeforeAdd(batches: seq<BatchStats>, k: nat, size: nat, b: BatchStats)
    requires |batches| == k && FullBefore(batches, k, size) && 0 < b.jobs <= size
    ensures b.jobs < size ==> FullBefore(batches + [b], k, size)
    ensures b.jobs == size ==> FullBefore(batches + [b], k + 1, size)
  {
  }

  lemma NothingReached(s: Store, eligible: set<JobId>, now: Instant)
    requires eligible <= s.active.Keys
    ensures Reached(s, s, {}, eligible, now)
  {
  }

  /** Where the loop is: `moved` archived so far, in `full` full batches and perhaps a short one. */
  ghost predicate LoopAt(s: Store, cur: Store, moved: set<JobId>, eligible: set<JobId>, now: Instant,
                         t: Tally, full: nat, size: nat) {
    && Reached(s, cur, moved, eligible, now) && |moved| == t.jobs && t.Ok()
    && full <= |t.batches| && FullBefore(t.batches, full, size)
  }

  /**
   The loop of `archive_in_batches`, up to its combined statistics. `cap` is the bound on
   the number of batches, MAX_ARCHIVAL_BATCHES_PER_OPERATION.
   */
  method RunBatches(db: Database, scope: Option<string>, p: Policy, now: Instant, cap: nat,
                    stop: seq<bool>, polls: nat)
    returns (t: Tally, stopped: bool, polled: nat, ghost full: nat, ghost moved: set<JobId>)
    modifies db`active, db`archived
    ensures LoopAt(old(db.View()), db.View(), moved, Eligible(old(db.View()), scope, p, now), now, t, full, p.batchSize)
    ensures |t.batches| <= cap
    ensures (!stopped && |t.batches| < cap && p.batchSize > 0) || full < |t.batches| ==>
      t.jobs == |Eligible(old(db.View()), scope, p, now)|
    ensures Polled(stop, polls, polled, stopped) && PolledEach(|t.batches|, polls, polled, stopped)
  {
    ghost var s, eligible := db.View(), Eligible(db.View(), scope, p, now);
    moved, full := {}, 0;
    t, stopped, polled := Tally(0, 0.0, [], []), false, polls;
    LoopStarts(s, eligible, now, p.batchSize);
    for n := 0 to cap
      invariant LoopAt(s, db.View(), moved, eligible, now, t, full, p.batchSize)
      invariant |t.batches| == full == n
      invariant !stopped && Polled(stop, polls, polled, false) && polled == polls + n
    {
      var more;
      t, stopped, more, polled, moved, full := Turn(db, scope, p, now, t, stop, polled, s, moved, polls);
      if !more {
        break;
      }
    }
  }

  /** One turn of the loop: ask, and unless told to stop archive one batch. */
  method Turn(db: Database, scope: Option<string>, p: Policy, now: Instant, t: Tally, stop: seq<bool>, polled: nat,
              ghost s: Store, ghost moved: set<JobId>, ghost polls: nat)
    returns (t': Tally, stopped: bool, more: bool, polled': nat, ghost moved': set<JobId>, ghost full: nat)
    requires LoopAt(s, db.View(), moved, Eligible(s, scope, p, now), now, t, |t.batches|, p.batchSize)
    requires Polled(stop, polls, polled, false)
    modifies db`active, db`archived
    ensures LoopAt(s, db.View(), moved', Eligible(s, scope, p, now), now, t', full, p.batchSize)
    ensures |t.batches| <= |t'.batches| <= |t.batches| + 1
    ensures full == |t.batches| + if more then 1 else 0
    ensures !more && ((!stopped && p.batchSize > 0) || full < |t'.batches|) ==>
      t'.jobs == |Eligible(s, scope, p, now)|
    ensures Polled(stop, polls, polled', stopped) && polled' == polled + 1
    ensures stopped ==> !more && |t'.batches| == |t.batches|
  {
    PollOnce(stop, polls, polled);
    polled' := polled + 1;
    stopped := Answer(stop, polled);
    if stopped {
      return t, true, false, polled', moved, |t.batches|;
    }
    t', more, moved', full := Round(db, scope, p, now, t, s, moved);
  }

  lemma LoopStarts(s: Store, eligible: set<JobId>, now: Instant, size: nat)
    requires eligible <= s.active.Keys
    ensures LoopAt(s, s, {}, eligible, now, Tally(0, 0.0, [], []), 0, size)
  {
    NothingReached(s, eligible, now);
  }

  /** One batch: added up unless it is empty, and the last one unless it is full. */
  method Round(db: Database, scope: Option<string>, p: Policy, now: Instant, t: Tally,
               ghost s: Store, ghost moved: set<JobId>)
    returns (t': Tally, more: bool, ghost moved': set<JobId>, ghost full: nat)
    requires LoopAt(s, db.View(), moved, Eligible(s, scope, p, now), now, t, |t.batches|, p.batchSize)
    modifies db`active, db`archived
    ensures LoopAt(s, db.View(), moved', Eligible(s, scope, p, now), now, t', full, p.batchSize)
    ensures |t.batches| <= |t'.batches| <= |t.batches| + 1
    ensures full == |t.batches| + if more then 1 else 0
    ensures !more && (p.batchSize > 0 || full < |t'.batches|) ==> t'.jobs == |Eligible(s, scope, p, now)|
  {
    var batch;
    batch, moved' := NextBatch(db, scope, p, now, s, moved);
    if batch.jobs == 0 {
      return t, false, moved', |t.batches|;
    }
    t.AddOk(batch);
    FullBeforeAdd(t.batches, |t.batches|, p.batchSize, batch);
    more := batch.jobs >= p.batchSize;
    t' := t.Add(batch);
    full := |t.batches| + if more then 1 else 0;
  }

  /** The answer of the `i`th call of `should_stop`. */
  predicate Answer(stop: seq<bool>, i: nat) {
    i < |stop| && stop[i]
  }

  /** `should_stop` is asked once before each batch, also before one that is stopped or finds nothing. */
  ghost predicate PolledEach(batches: nat, polls: nat, polled: nat, stopped: bool) {
    && polls + batches <= polled <= polls + batches + 1
    && (stopped ==> polled == polls + batches + 1)
  }

  /** All answers asked for were no, except a yes that stopped the loop. */
  ghost predicate Polled(stop: seq<bool>, polls: nat, polled: nat, stopped: bool) {
    if stopped then polls < polled <= |stop| && NoYes(stop, polls, polled - 1) && stop[polled - 1]
    else polls <= polled && NoYes(stop, polls, polled)
  }

  ghost predicate NoYes(stop: seq<bool>, from: nat, to: nat) {
    forall i :: from <= i < to && i < |stop| ==> !stop[i]
  }

  lemma PollOnce(stop: seq<bool>, polls: nat, polled: nat)
    requires Polled(stop, polls, polled, false)
    ensures Polled(stop, polls, polled + 1, Answer(stop, polled))
  {
  }

  method ArchiveInBatches(db: Database, scope: Option<string>, p: Policy, now: Instant, cap: nat,
                          stop: seq<bool>, polls: nat)
    returns (total: Totals, stopped: bool, polled: nat, batches: seq<BatchStats>, reports: seq<nat>)
    modifies db`active, db`archived
    ensures LoopEnded(old(db.View()), db.View(), scope, p, now, cap, Sizes(batches), stopped)
    ensures TotalsOf(total, batches) && reports == PrefixSums(Sizes(batches))
    ensures Polled(stop, polls, polled, stopped) && PolledEach(|batches|, polls, polled, stopped)
    ensures total.jobs <= Fills(polled - polls, p.batchSize)
  {
    ghost var s := db.View();
    var t;
    ghost var full, moved;
    t, stopped, polled, full, moved := RunBatches(db, scope, p, now, cap, stop, polls);
    LoopFinished(s, db.View(), moved, scope, p, now, cap, t, full, stopped);
    FillsGrows(|t.batches|, polled - polls, p.batchSize);
    batches, reports := t.batches, t.reports;
    total := Combine(t);
  }

  /** What the batches of a finished loop are. */
  lemma LoopFinished(s: Store, cur: Store, moved: set<JobId>, scope: Option<string>, p: Policy, now: Instant,
                     cap: nat, t: Tally, full: nat, stopped: bool)
    requires LoopAt(s, cur, moved, Eligible(s, scope, p, now), now, t, full, p.batchSize) && |t.batches| <= cap
    requires (!stopped && |t.batches| < cap && p.batchSize > 0) || full < |t.batches| ==>
      t.jobs == |Eligible(s, scope, p, now)|
    ensures LoopEnded(s, cur, scope, p, now, cap, Sizes(t.batches), stopped)
    ensures t.jobs <= Fills(|t.batches|, p.batchSize)
  {
    MoveKeys(s, moved, now);
    BatchesAre(|Eligible(s, scope, p, now)|, p.batchSize, cap, t.batches, full);
  }

  lemma BatchesAre(n: nat, size: nat, cap: nat, batches: seq<BatchStats>, full: nat)
    requires full <= |batches| <= cap && FullBefore(batches, full, size) && Sum(Sizes(batches)) <= n
    requires full < |batches| ==> Sum(Sizes(batches)) == n
    ensures Sizes(batches) <= BatchSizes(n, size, cap) && Sum(Sizes(batches)) <= Fills(|batches|, size)
    ensures |batches| == cap || Sum(Sizes(batches)) == n || size == 0 ==> Sizes(batches) == BatchSizes(n, size, cap)
  {
    forall i | 0 <= i < |batches| ensures Sizes(batches)[i] == batches[i].jobs <= size {
      SizesAt(batches, i);
    }
    SumWithin(Sizes(batches), size);
    BatchSizesAre(n, size, cap, Sizes(batches), full);
  }

  method Combine(t: Tally) returns (total: Totals)
    requires t.Ok()
    ensures TotalsOf(total, t.batches)
  {
    total := Totals(t.jobs, if t.jobs > 0 then t.weighted / t.jobs as real else 1.0);
    WeightIsProduct(total.ratio, t.jobs);
  }

  /** One batch of a loop that started from `s` and has archived `moved`. */
  method NextBatch(db: Database, scope: Option<string>, p: Policy, now: Instant,
                   ghost s: Store, ghost moved: set<JobId>)
    returns (batch: BatchStats, ghost moved': set<JobId>)
    requires Reached(s, db.View(), moved, Eligible(s, scope, p, now), now)
    modifies db`active, db`archived
    ensures Reached(s, db.View(), moved', Eligible(s, scope, p, now), now)
    ensures |moved'| == |moved| + batch.jobs
    ensures batch.jobs == Min(p.batchSize, |Eligible(s, scope, p, now)| - |moved|)
  {
    ghost var before := db.View();
    batch := db.ArchiveJobs(scope, p, now);
    ghost var ids := before.active.Keys - db.active.Keys;
    BatchAdds(s, before, moved, ids, scope, p, now);
    moved' := moved + ids;
  }

  /** Exactly `moved`, all of it eligible, is archived so far. */
  ghost predicate Reached(s: Store, cur: Store, moved: set<JobId>, eligible: set<JobId>, now: Instant) {
    moved <= eligible <= s.active.Keys && |moved| <= |eligible| && cur == s.Move(moved, now)
  }

  /** One more batch of the jobs eligible now is one more batch of those eligible at the start. */
  lemma BatchAdds(s: Store, cur: Store, moved: set<JobId>, ids: set<JobId>,
                  scope: Option<string>, p: Policy, now: Instant)
    requires Reached(s, cur, moved, Eligible(s, scope, p, now), now) && ids <= Eligible(cur, scope, p, now)
    ensures |Eligible(cur, scope, p, now)| == |Eligible(s, scope, p, now)| - |moved|
    ensures |moved + ids| == |moved| + |ids|
    ensures Reached(s, cur.Move(ids, now), moved + ids, Eligible(s, scope, p, now), now)
  {
    var eligible := Eligible(s, scope, p, now);
    EligibleAfterMove(s, moved, scope, p, now);
    BatchReaches(s, cur, moved, ids, eligible, now);
  }

  /** One more batch, on top of the jobs moved so far. */
  lemma BatchReaches(s: Store, cur: Store, moved: set<JobId>, ids: set<JobId>, eligible: set<JobId>, now: Instant)
    requires Reached(s, cur, moved, eligible, now) && ids <= eligible - moved
    ensures |eligible - moved| == |eligible| - |moved|
    ensures ids <= cur.active.Keys && |moved + ids| == |moved| + |ids|
    ensures Reached(s, cur.Move(ids, now), moved + ids, eligible, now)
  {
    RemainingSize(eligible, moved);
    MoveKeys(s, moved, now);
    MoveMove(s, moved, ids, now);
    SubsetSize(moved + ids, eligible);
  }

  lemma {:induction false} SizesAt(batches: seq<BatchStats>, i: nat)
    requires i < |batches|
    ensures Sizes(batches)[i] == batches[i].jobs
  {
    if i < |batches| - 1 {
      SizesAt(batches[..|batches| - 1], i);
    }
  }

  lemma RemainingSize(all: set<JobId>, part: set<JobId>)
    requires part <= all
    ensures |all - part| == |all| - |part|
  {
  }
}
