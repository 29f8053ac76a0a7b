/** `EncryptionStats`: counters, running averages and a usage map, updated in place. */
module RunningStats {
  import opened Common

  // One recorded operation.
  datatype Op =
    | Encryption(algorithm: string, sizeBytes: nat, durationMs: real)
    | Decryption(sizeBytes: nat, durationMs: real)

  // What is kept about encryptions, and about decryptions.
  datatype Half = Half(jobs: nat, bytes: nat, average: real) {
    function Add(op: Op): Half {
      Half(jobs + 1, bytes + op.sizeBytes, NextAverage(average, jobs + 1, op.durationMs))
    }
  }

  datatype Stats = Stats(encrypted: Half, decrypted: Half, usage: map<string, nat>) {
    function Of(encryption: bool): Half {
      if encryption then encrypted else decrypted
    }
  }

  const EMPTY := Stats(Half(0, 0, 0.0), Half(0, 0, 0.0), map[])

  function Usage(usage: map<string, nat>, name: string): nat {
    if name in usage then usage[name] else 0
  }

  /** The average over `jobs` durations, from the average over the others and the last one. */
  function NextAverage(average: real, jobs: nat, duration: real): real
    requires jobs > 0
  {
    if jobs == 1 then duration
    else
      var totalTime := average * (jobs - 1) as real + duration;
      totalTime / jobs as real
  }

  /** What one recording makes of the statistics. */
  function Record(s: Stats, op: Op): Stats {
    match op
    case Encryption(algorithm, _, _) =>
      s.(encrypted := s.encrypted.Add(op), usage := s.usage[algorithm := Usage(s.usage, algorithm) + 1])
    case Decryption(_, _) => s.(decrypted := s.decrypted.Add(op))
  }

  function RecordAll(ops: seq<Op>): Stats {
    if ops == [] then EMPTY else Record(RecordAll(ops[..|ops| - 1]), ops[|ops| - 1])
  }

  lemma RecordOneMore(ops: seq<Op>, op: Op)
    ensures RecordAll(ops + [op]) == Record(RecordAll(ops), op)
  {
    assert (ops + [op])[..|ops|] == ops;
  }

  class EncryptionStats {
    var jobsEncrypted: nat
    var jobsDecrypted: nat
    var totalEncryptedBytes: nat
    var totalDecryptedBytes: nat
    var avgEncryptionTimeMs: real
    var avgDecryptionTimeMs: real
    var algorithmUsage: map<string, nat>

    function View(): Stats
      reads this
    {
      Stats(Half(jobsEncrypted, totalEncryptedBytes, avgEncryptionTimeMs),
            Half(jobsDecrypted, totalDecryptedBytes, avgDecryptionTimeMs), algorithmUsage)
    }

    constructor ()
      ensures View() == RecordAll([])
    {
      jobsEncrypted, totalEncryptedBytes, avgEncryptionTimeMs := 0, 0, 0.0;
      jobsDecrypted, totalDecryptedBytes, avgDecryptionTimeMs := 0, 0, 0.0;
      algorithmUsage := map[];
    }

    /** `ops` are the operations recorded before. */
    method RecordEncryption(ghost ops: seq<Op>, algorithm: string, sizeBytes: nat, durationMs: real)
      requires View() == RecordAll(ops)
      modifies this
      ensures View() == RecordAll(ops + [Encryption(algorithm, sizeBytes, durationMs)])
    {
      RecordOneMore(ops, Encryption(algorithm, sizeBytes, durationMs));
      UpdateEncrypted(algorithm, sizeBytes, durationMs);
    }

    method UpdateEncrypted(algorithm: string, sizeBytes: nat, durationMs: real)
      modifies this
      ensures View() == Record(old(View()), Encryption(algorithm, sizeBytes, durationMs))
    {
      jobsEncrypted := jobsEncrypted + 1;
      totalEncryptedBytes := totalEncryptedBytes + sizeBytes;
      avgEncryptionTimeMs := NextAverage(avgEncryptionTimeMs, jobsEncrypted, durationMs);
      algorithmUsage := algorithmUsage[algorithm := Usage(algorithmUsage, algorithm) + 1];
    }

    method RecordDecryption(ghost ops: seq<Op>, sizeBytes: nat, durationMs: real)
      requires View() == RecordAll(ops)
      modifies this
      ensures View() == RecordAll(ops + [Decryption(sizeBytes, durationMs)])
    {
      RecordOneMore(ops, Decryption(sizeBytes, durationMs));
      UpdateDecrypted(sizeBytes, durationMs);
    }

    method UpdateDecrypted(sizeBytes: nat, durationMs: real)
      modifies this
      ensures View() == Record(old(View()), Decryption(sizeBytes, durationMs))
    {
      jobsDecrypted := jobsDecrypted + 1;
      totalDecryptedBytes := totalDecryptedBytes + sizeBytes;
      avgDecryptionTimeMs := NextAverage(avgDecryptionTimeMs, jobsDecrypted, durationMs);
    }
  }

  /** The encryptions among the operations, or the decryptions. */
  function Only(ops: seq<Op>, encryption: bool): seq<Op> {
    if ops == [] then []
    else
      var front, last := Only(ops[..|ops| - 1], encryption), ops[|ops| - 1];
      if last.Encryption? == encryption then front + [last] else front
  }

  function TotalTime(ops: seq<Op>): real {
    if ops == [] then 0.0 else TotalTime(ops[..|ops| - 1]) + ops[|ops| - 1].durationMs
  }

  function TotalBytes(ops: seq<Op>): nat {
    if ops == [] then 0 else TotalBytes(ops[..|ops| - 1]) + ops[|ops| - 1].sizeBytes
  }

  /** The half-statistics of a list of operations: its length, its bytes, its mean. */
  ghost predicate Describes(h: Half, ops: seq<Op>) {
    && h.jobs == |ops| && h.bytes == TotalBytes(ops)
    && (ops != [] ==> h.average == TotalTime(ops) / |ops| as real)
  }

  lemma AddDescribes(h: Half, ops: seq<Op>, op: Op)
    requires Describes(h, ops)
    ensures Describes(h.Add(op), ops + [op])
  {
  }

  /**
   After any number of recordings, however encryptions and decryptions alternate, each
   running average is the true mean of its own operations.
   */
  lemma {:induction false} AverageIsMean(ops: seq<Op>, encryption: bool)
    ensures Describes(RecordAll(ops).Of(encryption), Only(ops, encryption))
  {
    if ops != [] {
      var front, last := ops[..|ops| - 1], ops[|ops| - 1];
      AverageIsMean(front, encryption);
      if last.Encryption? == encryption {
        AddDescribes(RecordAll(front).Of(encryption), Only(front, encryption), last);
      }
    }
  }

  function CountOf(ops: seq<Op>, algorithm: string): nat {
    if ops == [] then 0
    else
      var last := ops[|ops| - 1];
      CountOf(ops[..|ops| - 1], algorithm) + if last.Encryption? && last.algorithm == algorithm then 1 else 0
  }

  /** The usage map counts each algorithm, and only algorithms that were used. */
  lemma {:induction false} UsageCounts(ops: seq<Op>, algorithm: string)
    ensures Usage(RecordAll(ops).usage, algorithm) == CountOf(ops, algorithm)
    ensures algorithm in RecordAll(ops).usage <==> CountOf(ops, algorithm) > 0
  {
    if ops != [] {
      UsageCounts(ops[..|ops| - 1], algorithm);
    }
  }

  /** The counts of the listed algorithms, added up. */
  function SumUsage(usage: map<string, nat>, names: seq<string>): nat {
    if names == [] then 0 else SumUsage(usage, names[..|names| - 1]) + Usage(usage, names[|names| - 1])
  }

  /** Counting one more use adds one to the sum, once. */
  lemma {:induction false} SumUsageAdds(usage: map<string, nat>, name: string, names: seq<string>)
    requires Distinct(names)
    ensures SumUsage(usage[name := Usage(usage, name) + 1], names)
         == SumUsage(usage, names) + if name in names then 1 else 0
  {
    if names != [] {
      var front, last := names[..|names| - 1], names[|names| - 1];
      SumUsageAdds(usage, name, front);
      assert last !in front;
      assert name in names <==> name in front || name == last;
    }
  }

  /** So the usage counts add up to the number of jobs encrypted. */
  lemma {:induction false} UsageSumsToJobs(ops: seq<Op>, names: seq<string>)
    requires Distinct(names) && forall i :: 0 <= i < |ops| && ops[i].Encryption? ==> ops[i].algorithm in names
    ensures SumUsage(RecordAll(ops).usage, names) == RecordAll(ops).encrypted.jobs
  {
    if ops == [] {
      NoUsage(names);
    } else {
      var front, last := ops[..|ops| - 1], ops[|ops| - 1];
      UsageSumsToJobs(front, names);
      if last.Encryption? {
        SumUsageAdds(RecordAll(front).usage, last.algorithm, names);
      }
    }
  }

  lemma {:induction false} NoUsage(names: seq<string>)
    ensures SumUsage(map[], names) == 0
  {
    if names != [] {
      NoUsage(names[..|names| - 1]);
    }
  }
}
