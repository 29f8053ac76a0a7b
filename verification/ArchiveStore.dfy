/**
 The database as the archiver sees it: active jobs, archived jobs and the jobs purged so
 far, with the documented effect of `archive_jobs` and of the two purges.
 */
module ArchiveStore {
  import opened Common
  import opened ArchivePolicy

  type JobId = nat

  datatype Row = Row(job: Job, archivedAt: Instant)

  datatype Store = Store(active: map<JobId, Job>, archived: map<JobId, Row>, purged: set<JobId>) {
    ghost predicate Valid() {
      active.Keys !! archived.Keys !! purged
    }

    function All(): set<JobId> {
      active.Keys + archived.Keys + purged
    }

    /** The queues that have jobs, active or archived. */
    function QueueNames(): set<string> {
      (set id | id in active :: active[id].queue) + (set id | id in archived :: archived[id].job.queue)
    }

    /** Moves the given jobs to the archive. */
    function Move(ids: set<JobId>, now: Instant): Store
      requires ids <= active.Keys
    {
      Store(active - ids, archived + (map id | id in ids :: Row(active[id], now)), purged)
    }

    function Delete(ids: set<JobId>): Store
      requires ids <= archived.Keys
    {
      Store(active, archived - ids, purged + ids)
    }
  }

  predicate InScope(queue: string, scope: Option<string>) {
    scope.None? || queue == scope.value
  }

  /** The jobs `archive_jobs` may pick. */
  function Eligible(s: Store, scope: Option<string>, p: Policy, now: Instant): set<JobId> {
    set id | id in s.active && InScope(s.active[id].queue, scope) && CutoffSelects(p, s.active[id], now)
  }

  /** The archived jobs of `scope` at or before the policy's purge cutoff. */
  function Purgeable(s: Store, scope: Option<string>, p: Policy, now: Instant): set<JobId> {
    set id | id in s.archived && InScope(s.archived[id].job.queue, scope) && PurgeSelects(p, s.archived[id], now)
  }

  /** The archived jobs of `scope` archived at or before `cutoff`. */
  function OlderThan(s: Store, scope: Option<string>, cutoff: Instant): set<JobId> {
    set id | id in s.archived && InScope(s.archived[id].job.queue, scope) && s.archived[id].archivedAt <= cutoff
  }

  predicate PurgeSelects(p: Policy, row: Row, now: Instant) {
    p.enabled && p.purgeArchivedAfter.Some? && AgeThreshold(now, p.purgeArchivedAfter.value).Some?
    && row.archivedAt <= AgeThreshold(now, p.purgeArchivedAfter.value).value
  }

  /** For a row archived between the epoch and now, the purge cutoff is a minimum age. */
  lemma PurgeAgreesWithAge(p: Policy, row: Row, now: Instant)
    requires UNIX_EPOCH <= row.archivedAt <= now
    ensures PurgeSelects(p, row, now) <==>
      p.enabled && p.purgeArchivedAfter.Some? && now - row.archivedAt >= p.purgeArchivedAfter.value
  {
  }

  lemma SetMove(from: set<JobId>, to: set<JobId>, rest: set<JobId>, ids: set<JobId>)
    requires from !! to !! rest && ids <= from
    ensures from - ids !! to + ids !! rest
    ensures (from - ids) + (to + ids) + rest == from + to + rest
    ensures |from - ids| == |from| - |ids| && |to + ids| == |to| + |ids|
  {
  }

  lemma MoveKeys(s: Store, ids: set<JobId>, now: Instant)
    requires ids <= s.active.Keys
    ensures s.Move(ids, now).archived.Keys == s.archived.Keys + ids
    ensures s.Move(ids, now).active.Keys == s.active.Keys - ids
    ensures s.active.Keys - s.Move(ids, now).active.Keys == ids
  {
  }

  /** Archiving loses no job. */
  lemma MoveConserves(s: Store, ids: set<JobId>, now: Instant)
    requires s.Valid() && ids <= s.active.Keys
    ensures s.Move(ids, now).Valid() && s.Move(ids, now).All() == s.All()
    ensures |s.Move(ids, now).active.Keys| == |s.active.Keys| - |ids|
  {
    MoveKeys(s, ids, now);
    SetMove(s.active.Keys, s.archived.Keys, s.purged, ids);
  }

  /** Purging turns archived jobs into purged ones. */
  lemma DeleteConserves(s: Store, ids: set<JobId>)
    requires s.Valid() && ids <= s.archived.Keys
    ensures s.Delete(ids).Valid() && s.Delete(ids).All() == s.All()
    ensures |s.Delete(ids).purged| == |s.purged| + |ids|
  {
    DeleteKeys(s, ids);
    SetMove(s.archived.Keys, s.purged, s.active.Keys, ids);
    UnionOrder(s.active.Keys, s.archived.Keys, s.purged);
    UnionOrder(s.active.Keys, s.archived.Keys - ids, s.purged + ids);
  }

  lemma DeleteKeys(s: Store, ids: set<JobId>)
    requires ids <= s.archived.Keys
    ensures s.Delete(ids).archived.Keys == s.archived.Keys - ids
  {
  }

  lemma UnionOrder(a: set<JobId>, b: set<JobId>, c: set<JobId>)
    ensures a + b + c == b + c + a
    ensures b !! c !! a ==> a !! b !! c
  {
  }

  /** A job stays eligible until it is moved itself. */
  lemma EligibleAfterMove(s: Store, ids: set<JobId>, scope: Option<string>, p: Policy, now: Instant)
    requires ids <= s.active.Keys
    ensures Eligible(s.Move(ids, now), scope, p, now) == Eligible(s, scope, p, now) - ids
  {
  }

  lemma MoveMove(s: Store, a: set<JobId>, b: set<JobId>, now: Instant)
    requires a <= s.active.Keys && b <= s.active.Keys - a
    ensures s.Move(a, now).Move(b, now) == s.Move(a + b, now)
  {
    MoveKeys(s, a, now);
    var two, one := s.Move(a, now).Move(b, now), s.Move(a + b, now);
    assert s.active - a - b == s.active - (a + b);
    forall id | id in two.archived ensures id in one.archived && one.archived[id] == two.archived[id] {}
    forall id | id in one.archived ensures id in two.archived {}
    assert two.archived == one.archived;
  }

  // ---------------------------------------------------------------- batches

  const MAX_ARCHIVAL_BATCHES_PER_OPERATION: nat := 10_000

  /** The batches an unstopped loop makes of `n` eligible jobs. */
  function BatchSizes(n: nat, size: nat, batches: nat): seq<nat> {
    if batches == 0 || n == 0 || size == 0 then []
    else if n < size then [n]
    else [size] + BatchSizes(n - size, size, batches - 1)
  }

  function Sum(xs: seq<nat>): nat {
    if xs == [] then 0 else Sum(xs[..|xs| - 1]) + xs[|xs| - 1]
  }

  lemma {:induction false} SumCons(x: nat, xs: seq<nat>)
    ensures Sum([x] + xs) == x + Sum(xs)
  {
    if xs == [] {
      assert ([x] + xs)[..0] == [];
    } else {
      assert ([x] + xs)[..|xs|] == [x] + xs[..|xs| - 1];
      SumCons(x, xs[..|xs| - 1]);
    }
  }

  /** How many jobs `batches` full batches hold: their product, built up so that proofs stay linear. */
  function Capacity(batches: nat, size: nat): nat {
    if size == 0 then 0 else Capacity(batches, size - 1) + batches
  }

  lemma {:induction false} CapacityIsProduct(batches: nat, size: nat)
    ensures Capacity(batches, size) == batches * size
  {
    if size > 0 {
      CapacityIsProduct(batches, size - 1);
      assert batches * size == batches * (size - 1) + batches;
    }
  }

  lemma {:induction false} BatchSizesFill(n: nat, size: nat, batches: nat)
    ensures Sum(BatchSizes(n, size, batches)) == Min(n, Fills(batches, size))
  {
    if batches == 0 || n == 0 || size == 0 {
      FillsGrows(0, batches, size);
      FillsNothing(batches);
    } else if n < size {
      FillsGrows(1, batches, size);
      assert Sum([n]) == Sum([n][..0]) + n;
    } else {
      BatchSizesFill(n - size, size, batches - 1);
      SumCons(size, BatchSizes(n - size, size, batches - 1));
    }
  }

  lemma {:induction false} FillsNothing(batches: nat)
    ensures Fills(batches, 0) == 0
  {
    if batches > 0 {
      FillsNothing(batches - 1);
    }
  }

  /** An unstopped loop archives everything, up to the capacity of all its batches. */
  lemma BatchSizesSum(n: nat, size: nat, batches: nat)
    ensures Sum(BatchSizes(n, size, batches)) == Min(n, Capacity(batches, size))
  {
    BatchSizesFill(n, size, batches);
    FillsIsCapacity(batches, size);
  }

  /** All batches but the last are full, and no batch is empty. */
  lemma {:induction false} BatchSizesShape(n: nat, size: nat, batches: nat, k: nat)
    requires k < |BatchSizes(n, size, batches)|
    ensures |BatchSizes(n, size, batches)| <= batches
    ensures 0 < BatchSizes(n, size, batches)[k] <= size
    ensures k < |BatchSizes(n, size, batches)| - 1 ==> BatchSizes(n, size, batches)[k] == size
  {
    if n >= size {
      if k > 0 {
        BatchSizesShape(n - size, size, batches - 1, k - 1);
      } else if BatchSizes(n - size, size, batches - 1) != [] {
        BatchSizesShape(n - size, size, batches - 1, 0);
      }
    }
  }

  lemma {:induction false} CapacityStep(n: nat, size: nat)
    ensures Capacity(n + 1, size) == Capacity(n, size) + size
  {
    if size > 0 {
      CapacityStep(n, size - 1);
    }
  }

  /** The capacity again, batch by batch. */
  function Fills(batches: nat, size: nat): nat {
    if batches == 0 then 0 else Fills(batches - 1, size) + size
  }

  lemma {:induction false} FillsIsCapacity(batches: nat, size: nat)
    ensures Fills(batches, size) == Capacity(batches, size)
  {
    if batches > 0 {
      FillsIsCapacity(batches - 1, size);
      CapacityStep(batches - 1, size);
    } else {
      NoCapacity(size);
    }
  }

  lemma {:induction false} NoCapacity(size: nat)
    ensures Capacity(0, size) == 0
  {
    if size > 0 {
      NoCapacity(size - 1);
    }
  }

  lemma {:induction false} FillsGrows(a: nat, b: nat, size: nat)
    requires a <= b
    ensures Fills(a, size) <= Fills(b, size)
  {
    if a < b {
      FillsGrows(a, b - 1, size);
    }
  }

  /** So many batches hold at most so many jobs. */
  lemma {:induction false} SumWithin(sizes: seq<nat>, size: nat)
    requires forall k :: 0 <= k < |sizes| ==> sizes[k] <= size
    ensures Sum(sizes) <= Fills(|sizes|, size)
  {
    if sizes != [] {
      SumWithin(sizes[..|sizes| - 1], size);
    }
  }

  /** Full batches are the first of `BatchSizes`, and all of them once nothing more fits. */
  lemma {:induction false} BatchSizesAre(n: nat, size: nat, cap: nat, sizes: seq<nat>, full: nat)
    requires full <= |sizes| <= full + 1 && |sizes| <= cap && Sum(sizes) <= n
    requires forall i :: 0 <= i < full ==> sizes[i] == size
    requires full > 0 ==> size > 0
    requires full < |sizes| ==> 0 < sizes[full] < size && Sum(sizes) == n
    ensures sizes <= BatchSizes(n, size, cap)
    ensures |sizes| == cap || Sum(sizes) == n || size == 0 ==> sizes == BatchSizes(n, size, cap)
  {
    if sizes != [] {
      var rest := sizes[1..];
      assert [sizes[0]] + rest == sizes;
      SumCons(sizes[0], rest);
      if full == 0 {
        assert rest == [] && sizes == [sizes[0]];
      } else {
        BatchSizesAre(n - size, size, cap - 1, rest, full - 1);
      }
    }
  }
}
