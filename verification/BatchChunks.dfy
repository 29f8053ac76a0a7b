/** `JobBatch`: validation and splitting into chunks. */
module BatchChunks {
  import opened Common
  import opened Decimal

  const MAX_BATCH: nat := 10_000
  const MAX_JOB_DEPENDENCIES: nat := 1000
  const MAX_JOB_DEPENDENTS: nat := 10_000

  // The parts of a job a batch looks at; the lists are given by their lengths.
  datatype Job = Job(id: nat, queue: string, dependsOn: nat, dependents: nat) {
    predicate WithinLimits() {
      dependsOn <= MAX_JOB_DEPENDENCIES && dependents <= MAX_JOB_DEPENDENTS
    }
  }

  datatype JobBatch = JobBatch(name: string, jobs: seq<Job>, batchSize: Option<nat>) {
    function ChunkSize(): (n: nat)
      ensures n > 0
    {
      if batchSize.Some? && batchSize.value > 0 then batchSize.value else 1000
    }

    predicate Valid() {
      && 0 < |jobs| <= MAX_BATCH
      && (forall i :: 0 <= i < |jobs| ==> jobs[i].WithinLimits())
      && (forall i :: 0 <= i < |jobs| ==> jobs[i].queue == jobs[0].queue)
    }
  }

  datatype Validation = Ok | Empty | TooLarge(size: nat) | OverLimits(index: nat) | MixedQueues(index: nat)

  /** Accepts exactly the valid batches, and otherwise reports the first thing wrong. */
  method Validate(b: JobBatch) returns (r: Validation)
    ensures r.Ok? <==> b.Valid()
    ensures r.Ok? <==>
      && 0 < |b.jobs| <= 10_000
      && (forall i :: 0 <= i < |b.jobs| ==> b.jobs[i].dependsOn <= 1000 && b.jobs[i].dependents <= 10_000)
      && (forall i, j :: 0 <= i < |b.jobs| && 0 <= j < |b.jobs| ==> b.jobs[i].queue == b.jobs[j].queue)
    ensures r.Empty? <==> b.jobs == []
    ensures r.TooLarge? ==> r.size == |b.jobs| > MAX_BATCH
    ensures r.OverLimits? ==>
      && r.index < |b.jobs| <= MAX_BATCH && !b.jobs[r.index].WithinLimits()
      && (forall i :: 0 <= i < r.index ==> b.jobs[i].WithinLimits())
    ensures r.MixedQueues? ==>
      && r.index < |b.jobs| && b.jobs[r.index].queue != b.jobs[0].queue
      && (forall i :: 0 <= i < r.index ==> b.jobs[i].queue == b.jobs[0].queue)
      && (forall i :: 0 <= i < |b.jobs| ==> b.jobs[i].WithinLimits())
  {
    if |b.jobs| == 0 {
      return Empty;
    }
    if |b.jobs| > MAX_BATCH {
      return TooLarge(|b.jobs|);
    }
    for i := 0 to |b.jobs|
      invariant forall j :: 0 <= j < i ==> b.jobs[j].WithinLimits()
    {
      if !b.jobs[i].WithinLimits() {
        return OverLimits(i);
      }
    }
    for i := 0 to |b.jobs|
      invariant forall j :: 0 <= j < i ==> b.jobs[j].queue == b.jobs[0].queue
    {
      if b.jobs[i].queue != b.jobs[0].queue {
        return MixedQueues(i);
      }
    }
    return Ok;
  }

  /** `slice::chunks`: consecutive pieces of `size` elements, the last one perhaps shorter. */
  function Chunks<T>(xs: seq<T>, size: nat): seq<seq<T>>
    requires size > 0
  {
    if xs == [] then []
    else if |xs| <= size then [xs]
    else [xs[..size]] + Chunks(xs[size..], size)
  }

  function IntoChunks(b: JobBatch): seq<JobBatch> {
    if |b.jobs| <= b.ChunkSize() then [b]
    else
      var pieces := Chunks(b.jobs, b.ChunkSize());
      seq(|pieces|, i requires 0 <= i < |pieces| =>
        JobBatch(b.name + "_chunk_" + Print(i + 1), pieces[i], b.batchSize))
  }

  function Concat<T>(xss: seq<seq<T>>): seq<T> {
    if xss == [] then [] else xss[0] + Concat(xss[1..])
  }

  function JobsOf(batches: seq<JobBatch>): (r: seq<seq<Job>>)
    ensures |r| == |batches|
  {
    seq(|batches|, i requires 0 <= i < |batches| => batches[i].jobs)
  }

  lemma {:induction false} ChunksConcat<T>(xs: seq<T>, size: nat)
    requires size > 0
    ensures Concat(Chunks(xs, size)) == xs
  {
    if |xs| > size {
      ChunksConcat(xs[size..], size);
      assert Chunks(xs, size)[1..] == Chunks(xs[size..], size);
      assert xs == xs[..size] + xs[size..];
    } else if xs != [] {
      assert Chunks(xs, size)[1..] == [];
    }
  }

  /** Where chunk `k` starts: at `size * k`, built up so that proofs stay linear. */
  function Offset(size: nat, k: nat): nat {
    if k == 0 then 0 else size + Offset(size, k - 1)
  }

  lemma {:induction false} OffsetIsProduct(size: nat, k: nat)
    ensures Offset(size, k) == size * k
  {
    if k > 0 {
      OffsetIsProduct(size, k - 1);
      assert size * k == size * (k - 1) + size;
    }
  }

  /** Chunk `k` is a slice at its offset; every chunk but the last is full, and no chunk is empty. */
  lemma {:induction false} SliceAt<T>(xs: seq<T>, size: nat, k: nat)
    requires size > 0 && k < |Chunks(xs, size)|
    ensures var c, start := Chunks(xs, size), Offset(size, k);
      && 0 < |c[k]| <= size && (k < |c| - 1 ==> |c[k]| == size)
      && start + |c[k]| <= |xs| && c[k] == xs[start..start + |c[k]|]
  {
    if |xs| > size {
      if k > 0 {
        SliceAt(xs[size..], size, k - 1);
        assert Chunks(xs, size)[k] == Chunks(xs[size..], size)[k - 1];
      } else {
        assert Chunks(xs[size..], size) != [];
      }
    }
  }

  /** Chunk `k` starts at `size * k`. */
  lemma ChunkAt<T>(xs: seq<T>, size: nat, k: nat)
    requires size > 0 && k < |Chunks(xs, size)|
    ensures var c, start := Chunks(xs, size), size * k;
      && 0 < |c[k]| <= size && (k < |c| - 1 ==> |c[k]| == size)
      && start + |c[k]| <= |xs| && c[k] == xs[start..start + |c[k]|]
  {
    SliceAt(xs, size, k);
    OffsetIsProduct(size, k);
  }

  /**
   The chunks hold the jobs of the batch in order, every chunk but the last is full, and
   the chunks of a valid batch are valid.
   */
  lemma ChunksKeepEverything(b: JobBatch)
    ensures Concat(JobsOf(IntoChunks(b))) == b.jobs
    ensures var chunks := IntoChunks(b);
      var size := if b.batchSize.None? || b.batchSize == Some(0) then 1000 else b.batchSize.value;
      && chunks != []
      && (|b.jobs| <= size ==> chunks == [b])
      && (forall k :: 0 <= k < |chunks| ==> |chunks[k].jobs| <= size && chunks[k].batchSize == b.batchSize)
      && (forall k :: 0 <= k < |chunks| - 1 ==> |chunks[k].jobs| == size)
      && (|b.jobs| > size ==>
            forall k :: 0 <= k < |chunks| ==>
              chunks[k].jobs != [] && chunks[k].name == b.name + "_chunk_" + Print(k + 1))
      && (b.Valid() ==> forall k :: 0 <= k < |chunks| ==> chunks[k].Valid())
  {
    var chunks := IntoChunks(b);
    if |b.jobs| <= b.ChunkSize() {
      assert JobsOf(chunks)[1..] == [];
    } else {
      assert JobsOf(chunks) == Chunks(b.jobs, b.ChunkSize());
      ChunksConcat(b.jobs, b.ChunkSize());
      forall k | 0 <= k < |chunks| ensures ChunkOk(b, chunks[k], k == |chunks| - 1) {
        ChunkIsOk(b, k);
      }
    }
  }

  /** A chunk of `b`: full unless it is the last, never empty, and valid if `b` is. */
  ghost predicate ChunkOk(b: JobBatch, chunk: JobBatch, last: bool) {
    && 0 < |chunk.jobs| <= b.ChunkSize() && (!last ==> |chunk.jobs| == b.ChunkSize())
    && (b.Valid() ==> chunk.Valid())
  }

  lemma ChunkIsOk(b: JobBatch, k: nat)
    requires |b.jobs| > b.ChunkSize() && k < |IntoChunks(b)|
    ensures ChunkOk(b, IntoChunks(b)[k], k == |IntoChunks(b)| - 1)
  {
    SliceAt(b.jobs, b.ChunkSize(), k);
    assert IntoChunks(b)[k].jobs == Chunks(b.jobs, b.ChunkSize())[k];
    SliceValid(b, IntoChunks(b)[k], Offset(b.ChunkSize(), k));
  }

  /** No two chunks have the same name. */
  lemma ChunkNamesDiffer(b: JobBatch, i: nat, j: nat)
    requires i < j < |IntoChunks(b)|
    ensures IntoChunks(b)[i].name != IntoChunks(b)[j].name
  {
    ValueOfPrint(i + 1);
    ValueOfPrint(j + 1);
    var prefix := b.name + "_chunk_";
    assert IntoChunks(b)[i].name[|prefix|..] == Print(i + 1);
    assert IntoChunks(b)[j].name[|prefix|..] == Print(j + 1);
  }

  lemma SliceValid(b: JobBatch, chunk: JobBatch, start: nat)
    requires chunk.jobs != [] && start + |chunk.jobs| <= |b.jobs| && chunk.jobs == b.jobs[start..start + |chunk.jobs|]
    ensures b.Valid() ==> chunk.Valid()
  {
  }
}
