/**
 The two bulk operations of the archiver: `archive_jobs_with_events`, whose last batch is
 reported only by the completion event, and `archive_jobs_with_progress`, whose callback
 hears about every batch. Both run the batch loop with a `should_stop` that never stops.
 */
module ArchiveReports {
  import opened Common
  import opened ArchivePolicy
  import opened ArchiveStore
  import opened ArchivePass
  import opened ArchiveBatches

  datatype ArchiveEvent =
    | BulkStarted(estimatedJobs: nat)
    | BulkProgress(processed: nat, total: nat)
    | BulkCompleted(stats: Totals)

  /** The progress events for batches of the given sizes: one for each of them. */
  function ProgressFor(sizes: seq<nat>, estimated: nat): (r: seq<ArchiveEvent>)
    ensures |r| == |sizes|
  {
    if sizes == [] then []
    else ProgressFor(sizes[..|sizes| - 1], estimated) + [BulkProgress(Sum(sizes), Max(estimated, Sum(sizes)))]
  }

  function AllButLast(sizes: seq<nat>): seq<nat> {
    if sizes == [] then [] else sizes[..|sizes| - 1]
  }

  /** What is published for non-empty batches of the given sizes. */
  function Trace(sizes: seq<nat>, estimated: nat, stats: Totals): seq<ArchiveEvent> {
    [BulkStarted(estimated)] + ProgressFor(AllButLast(sizes), estimated) + [BulkCompleted(stats)]
  }

  /** `cap` is MAX_ARCHIVAL_BATCHES_PER_OPERATION, `estimated` an arbitrary estimate. */
  method ArchiveJobsWithEvents(db: Database, policies: Policies, scope: Option<string>, now: Instant,
                               cap: nat, estimated: nat)
    returns (events: seq<ArchiveEvent>, stats: Totals)
    modifies db`active, db`archived
    ensures var s := old(db.View());
      var p := if scope.Some? && scope.value in policies.own then policies.own[scope.value] else policies.fallback;
      var sizes := BatchSizes(|Eligible(s, scope, p, now)|, p.batchSize, cap);
      && stats.jobs == Sum(sizes) && events == Trace(sizes, estimated, stats)
      && LoopEnded(s, db.View(), scope, p, now, cap, sizes, false)
  {
    var p := PolicyFor(policies, scope);
    events := [BulkStarted(estimated)];
    var reports;
    ghost var sizes;
    stats, reports, sizes := ArchiveUnstopped(db, scope, p, now, cap);
    var progress := PublishProgress(sizes, reports, estimated);
    events := events + progress + [BulkCompleted(stats)];
  }

  /** The batch loop that nothing stops: its batches are known in advance. */
  method ArchiveUnstopped(db: Database, scope: Option<string>, p: Policy, now: Instant, cap: nat)
    returns (stats: Totals, reports: seq<nat>, ghost sizes: seq<nat>)
    modifies db`active, db`archived
    ensures sizes == BatchSizes(|Eligible(old(db.View()), scope, p, now)|, p.batchSize, cap)
    ensures LoopEnded(old(db.View()), db.View(), scope, p, now, cap, sizes, false)
    ensures stats.jobs == Sum(sizes) && reports == PrefixSums(sizes)
  {
    var stopped, polled, batches;
    stats, stopped, polled, batches, reports := ArchiveInBatches(db, scope, p, now, cap, [], 0);
    sizes := Sizes(batches);
  }

  /** The policy of a queue, or the default policy for all queues. */
  function PolicyFor(policies: Policies, scope: Option<string>): Policy {
    if scope.Some? then policies.For(scope.value) else policies.fallback
  }

  /** Each report publishes the one before it. */
  method PublishProgress(ghost sizes: seq<nat>, reports: seq<nat>, estimated: nat) returns (events: seq<ArchiveEvent>)
    requires reports == PrefixSums(sizes)
    ensures events == ProgressFor(AllButLast(sizes), estimated)
  {
    events := [];
    var pending: Option<nat> := None;
    for i := 0 to |reports|
      invariant events == ProgressFor(AllButLast(sizes[..i]), estimated)
      invariant pending == if i == 0 then None else Some(Sum(sizes[..i]))
    {
      if pending.Some? {
        events := events + [BulkProgress(pending.value, Max(estimated, pending.value))];
      }
      PrefixSumAt(sizes, i);
      assert sizes[..i + 1][..i] == sizes[..i];
      assert i > 0 ==> AllButLast(sizes[..i]) == sizes[..i][..i - 1];
      pending := Some(reports[i]);
    }
    assert sizes[..|reports|] == sizes;
  }

  lemma {:induction false} PrefixSumAt(sizes: seq<nat>, i: nat)
    requires i < |sizes|
    ensures PrefixSums(sizes)[i] == Sum(sizes[..i + 1])
  {
    if i == |sizes| - 1 {
      assert sizes[..i + 1] == sizes;
    } else {
      PrefixSumAt(sizes[..|sizes| - 1], i);
      assert sizes[..|sizes| - 1][..i + 1] == sizes[..i + 1];
    }
  }

  lemma {:induction false} ProgressAt(sizes: seq<nat>, estimated: nat, i: nat)
    requires i < |sizes|
    ensures ProgressFor(sizes, estimated)[i] == BulkProgress(Sum(sizes[..i + 1]), Max(estimated, Sum(sizes[..i + 1])))
  {
    if i == |sizes| - 1 {
      assert sizes[..i + 1] == sizes;
    } else {
      ProgressAt(sizes[..|sizes| - 1], estimated, i);
      assert sizes[..|sizes| - 1][..i + 1] == sizes[..i + 1];
    }
  }

  lemma {:induction false} SumGrows(sizes: seq<nat>, i: nat, j: nat)
    requires i < j <= |sizes| && forall k :: 0 <= k < |sizes| ==> sizes[k] > 0
    ensures Sum(sizes[..i]) < Sum(sizes[..j])
  {
    assert sizes[..j][..j - 1] == sizes[..j - 1];
    if i < j - 1 {
      SumGrows(sizes, i, j - 1);
    }
  }

  /**
   For `n` eligible jobs in `k` batches: Started, `k - 1` Progress events (none for `k` 0)
   that count the jobs of the batches before, strictly increasing and below the final count,
   each with a total at least as large as its count, then Completed with everything that
   fits the cap.
   */
  lemma TraceShape(n: nat, size: nat, cap: nat, estimated: nat, stats: Totals)
    requires stats.jobs == Sum(BatchSizes(n, size, cap))
    ensures var k := |BatchSizes(n, size, cap)|;
      var t := Trace(BatchSizes(n, size, cap), estimated, stats);
      && |t| == (if k == 0 then 2 else k + 1)
      && t[0] == BulkStarted(estimated) && t[|t| - 1] == BulkCompleted(stats)
      && stats.jobs == Min(n, Capacity(cap, size))
      && (forall i :: 1 <= i < |t| - 1 ==>
            && t[i].BulkProgress? && t[i].processed == Sum(BatchSizes(n, size, cap)[..i])
            && t[i].total == (if t[i].processed <= estimated then estimated else t[i].processed)
            && 0 < t[i].processed < stats.jobs)
      && (forall i, j :: 1 <= i < j < |t| - 1 ==> t[i].processed < t[j].processed)
  {
    var sizes := BatchSizes(n, size, cap);
    var t := Trace(sizes, estimated, stats);
    BatchSizesSum(n, size, cap);
    forall k | 0 <= k < |sizes| ensures sizes[k] > 0 {
      BatchSizesShape(n, size, cap, k);
    }
    forall i | 1 <= i < |t| - 1
      ensures t[i] == BulkProgress(Sum(sizes[..i]), Max(estimated, Sum(sizes[..i])))
      ensures 0 < t[i].processed < stats.jobs
    {
      ProgressAt(AllButLast(sizes), estimated, i - 1);
      assert AllButLast(sizes)[..i] == sizes[..i];
      SumGrows(sizes, 0, i);
      SumGrows(sizes, i, |sizes|);
      assert sizes[..|sizes|] == sizes;
    }
    forall i, j | 1 <= i < j < |t| - 1
      ensures t[i].processed < t[j].processed
    {
      SumGrows(sizes, i, j);
    }
  }

  /** The calls of the progress callback: `(processed, total)`. */
  method ArchiveJobsWithProgress(db: Database, policies: Policies, scope: Option<string>, now: Instant,
                                 cap: nat, estimated: nat)
    returns (calls: seq<(nat, nat)>, stats: Totals)
    modifies db`active, db`archived
    ensures var s := old(db.View());
      var p := if scope.Some? && scope.value in policies.own then policies.own[scope.value] else policies.fallback;
      var sizes := BatchSizes(|Eligible(s, scope, p, now)|, p.batchSize, cap);
      && stats.jobs == Sum(sizes) && LoopEnded(s, db.View(), scope, p, now, cap, sizes, false)
      && ReportsEveryBatch(calls, sizes, estimated)
    ensures calls != [] && calls[|calls| - 1].0 == stats.jobs
  {
    var p := PolicyFor(policies, scope);
    var reports;
    ghost var sizes;
    stats, reports, sizes := ArchiveUnstopped(db, scope, p, now, cap);
    NoJobsNoBatches(|Eligible(old(db.View()), scope, p, now)|, p.batchSize, cap);
    calls := ReportAll(sizes, reports, stats.jobs, estimated);
  }

  method ReportAll(ghost sizes: seq<nat>, reports: seq<nat>, jobs: nat, estimated: nat) returns (calls: seq<(nat, nat)>)
    requires reports == PrefixSums(sizes) && jobs == Sum(sizes) && (jobs == 0 <==> sizes == [])
    ensures ReportsEveryBatch(calls, sizes, estimated) && calls[|calls| - 1].0 == jobs
  {
    calls := CallForEach(sizes, reports, estimated);
    assert sizes[..|sizes|] == sizes;
    if jobs == 0 {
      calls := calls + [(0, estimated)];
    }
  }

  /** The total reported is the estimate, or what was processed if that is more. */
  ghost predicate Reports(call: (nat, nat), processed: nat, estimated: nat) {
    call.0 == processed && call.1 == if processed <= estimated then estimated else processed
  }

  /** A first call with nothing processed, one per batch, and a final one if there was none. */
  ghost predicate ReportsEveryBatch(calls: seq<(nat, nat)>, sizes: seq<nat>, estimated: nat) {
    && |calls| == (if sizes == [] then 2 else |sizes| + 1)
    && calls[0] == (0, estimated)
    && (forall i :: 1 <= i <= |sizes| ==> Reports(calls[i], Sum(sizes[..i]), estimated))
    && (sizes == [] ==> calls[1] == (0, estimated))
  }

  method CallForEach(ghost sizes: seq<nat>, reports: seq<nat>, estimated: nat) returns (calls: seq<(nat, nat)>)
    requires reports == PrefixSums(sizes)
    ensures |calls| == |sizes| + 1 && calls[0] == (0, estimated)
    ensures forall i :: 1 <= i <= |sizes| ==> Reports(calls[i], Sum(sizes[..i]), estimated)
  {
    calls := [(0, estimated)];
    for i := 0 to |reports|
      invariant |calls| == i + 1 && calls[0] == (0, estimated)
      invariant forall j :: 1 <= j <= i ==> Reports(calls[j], Sum(sizes[..j]), estimated)
    {
      PrefixSumAt(sizes, i);
      calls := calls + [(reports[i], Max(estimated, reports[i]))];
    }
  }

  lemma NoJobsNoBatches(n: nat, size: nat, cap: nat)
    ensures Sum(BatchSizes(n, size, cap)) == 0 <==> BatchSizes(n, size, cap) == []
  {
    BatchSizesSum(n, size, cap);
    if BatchSizes(n, size, cap) != [] {
      var sizes := BatchSizes(n, size, cap);
      BatchSizesShape(n, size, cap, |sizes| - 1);
    }
  }
}
