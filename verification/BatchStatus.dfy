/** `BatchProgress::from_status_counts`: the state of a batch, derived from its jobs. */
module BatchStatus {
  import opened JobStatuses

  datatype FailureMode = ContinueOnError | FailFast | CollectErrors

  datatype Status = BatchPending | Processing | BatchCompleted | PartiallyFailed | BatchFailed {
    predicate Terminal() {
      BatchCompleted? || PartiallyFailed? || BatchFailed?
    }
  }

  datatype Progress = Progress(completed: nat, failed: nat, pending: nat, status: Status)

  const U32: nat := 0x1_0000_0000

  type Row = (string, int)

  function TrimQuotes(s: string): string {
    if s != [] && s[0] == '"' then TrimQuotes(s[1..])
    else if s != [] && s[|s| - 1] == '"' then TrimQuotes(s[..|s| - 1])
    else s
  }

  datatype Kind = Done | Bad | Open | Other

  function ClassOf(status: string): Kind {
    var s := TrimQuotes(status);
    if s == "Completed" then Done
    else if s == "Failed" || s == "Dead" || s == "TimedOut" then Bad
    else if s == "Pending" || s == "Retrying" || s == "Running" then Open
    else Other
  }

  /** A count outside 32 bits counts as nothing. */
  function Clamp(count: int): nat {
    if 0 <= count < U32 then count else 0
  }

  /** The rows of one class, added up. */
  function SumOf(rows: seq<Row>, kind: Kind): nat {
    if rows == [] then 0
    else
      var (status, count) := rows[|rows| - 1];
      SumOf(rows[..|rows| - 1], kind) + if ClassOf(status) == kind then Clamp(count) else 0
  }

  /** 32-bit addition that wraps, as in a release build. */
  function WrapAdd(a: nat, b: nat): nat {
    (a + b) % U32
  }

  lemma WrapAddMod(a: nat, b: nat)
    ensures WrapAdd(a % U32, b) == (a + b) % U32
  {
  }

  /** The status the three counters stand for; the sum is in 32 bits. */
  function StatusOf(completed: nat, failed: nat, total: nat, mode: FailureMode): Status {
    var finished := WrapAdd(completed, failed);
    if failed > 0 && mode == FailFast then BatchFailed
    else if total > 0 && completed >= total then BatchCompleted
    else if total > 0 && failed >= total then BatchFailed
    else if total > 0 && finished >= total then PartiallyFailed
    else if finished == 0 then BatchPending
    else Processing
  }

  function ProgressOf(rows: seq<Row>, total: nat, mode: FailureMode): Progress {
    var c, f, p := SumOf(rows, Done) % U32, SumOf(rows, Bad) % U32, SumOf(rows, Open) % U32;
    Progress(c, f, p, StatusOf(c, f, total, mode))
  }

  /** The loop over the rows. */
  method FromStatusCounts(rows: seq<Row>, total: nat, mode: FailureMode) returns (r: Progress)
    ensures r == ProgressOf(rows, total, mode)
  {
    var completed, failed, pending := 0, 0, 0;
    for i := 0 to |rows|
      invariant completed == SumOf(rows[..i], Done) % U32
      invariant failed == SumOf(rows[..i], Bad) % U32
      invariant pending == SumOf(rows[..i], Open) % U32
    {
      assert rows[..i + 1][..i] == rows[..i];
      var (status, count) := rows[i];
      match ClassOf(status) {
        case Done =>
          WrapAddMod(SumOf(rows[..i], Done), Clamp(count));
          completed := WrapAdd(completed, Clamp(count));
        case Bad =>
          WrapAddMod(SumOf(rows[..i], Bad), Clamp(count));
          failed := WrapAdd(failed, Clamp(count));
        case Open =>
          WrapAddMod(SumOf(rows[..i], Open), Clamp(count));
          pending := WrapAdd(pending, Clamp(count));
        case Other =>
      }
    }
    assert rows[..|rows|] == rows;
    r := Progress(completed, failed, pending, StatusOf(completed, failed, total, mode));
  }

  // ---------------------------------------------------------------- order and grouping

  lemma {:induction false} SumConcat(a: seq<Row>, b: seq<Row>, kind: Kind)
    ensures SumOf(a + b, kind) == SumOf(a, kind) + SumOf(b, kind)
  {
    if b == [] {
      assert a + b == a;
    } else {
      assert (a + b)[..|a + b| - 1] == a + b[..|b| - 1];
      SumConcat(a, b[..|b| - 1], kind);
    }
  }

  lemma PullOut(b: seq<Row>, k: nat)
    requires k < |b|
    ensures multiset(b) == multiset(b[..k] + b[k + 1..]) + multiset{b[k]}
  {
    assert b == b[..k] + [b[k]] + b[k + 1..];
  }

  lemma Cancel(x: multiset<Row>, y: multiset<Row>, row: Row)
    requires x + multiset{row} == y + multiset{row}
    ensures x == y
  {
    assert x == x + multiset{row} - multiset{row};
    assert y == y + multiset{row} - multiset{row};
  }

  lemma SumPullOut(b: seq<Row>, k: nat, kind: Kind)
    requires k < |b|
    ensures SumOf(b, kind) == SumOf(b[..k] + b[k + 1..], kind) + SumOf([b[k]], kind)
  {
    assert b == b[..k] + [b[k]] + b[k + 1..];
    SumConcat(b[..k] + [b[k]], b[k + 1..], kind);
    SumConcat(b[..k], [b[k]], kind);
    SumConcat(b[..k], b[k + 1..], kind);
  }

  /** A row of both lists, and the lists without it. */
  lemma RestPermuted(a: seq<Row>, b: seq<Row>) returns (k: nat)
    requires multiset(a) == multiset(b) && a != []
    ensures k < |b| && b[k] == a[0] && multiset(a[1..]) == multiset(b[..k] + b[k + 1..])
  {
    assert a[0] in multiset(b);
    k :| 0 <= k < |b| && b[k] == a[0];
    assert a[..0] + a[1..] == a[1..];
    PullOut(a, 0);
    PullOut(b, k);
    Cancel(multiset(a[1..]), multiset(b[..k] + b[k + 1..]), a[0]);
  }

  lemma SumFirst(a: seq<Row>, kind: Kind)
    requires a != []
    ensures SumOf(a, kind) == SumOf(a[1..], kind) + SumOf([a[0]], kind)
  {
    assert a == [a[0]] + a[1..];
    SumConcat([a[0]], a[1..], kind);
  }

  lemma NoRows(b: seq<Row>)
    requires multiset(b) == multiset{}
    ensures b == []
  {
    assert |multiset(b)| == |b|;
  }

  /** The order of the rows does not matter. */
  lemma {:induction false} SumPermuted(a: seq<Row>, b: seq<Row>, kind: Kind)
    requires multiset(a) == multiset(b)
    ensures SumOf(a, kind) == SumOf(b, kind)
  {
    if a == [] {
      NoRows(b);
    } else {
      var k := RestPermuted(a, b);
      SumPermuted(a[1..], b[..k] + b[k + 1..], kind);
      SumFirst(a, kind);
      SumPullOut(b, k, kind);
    }
  }

  /** Splitting a row in two does not matter either. */
  lemma SumSplit(before: seq<Row>, status: string, x: nat, y: nat, after: seq<Row>, kind: Kind)
    requires x + y < U32
    ensures SumOf(before + [(status, x + y)] + after, kind) == SumOf(before + [(status, x), (status, y)] + after, kind)
  {
    var one, two := [(status, x + y)], [(status, x), (status, y)];
    assert two == [(status, x)] + [(status, y)];
    SumConcat([(status, x)], [(status, y)], kind);
    SumConcat(before + one, after, kind);
    SumConcat(before, one, kind);
    SumConcat(before + two, after, kind);
    SumConcat(before, two, kind);
    SumOfOne(status, x + y, kind);
    SumOfOne(status, x, kind);
    SumOfOne(status, y, kind);
  }

  lemma SumOfOne(status: string, n: nat, kind: Kind)
    ensures SumOf([(status, n)], kind) == if ClassOf(status) == kind then Clamp(n) else 0
  {
  }

  // ---------------------------------------------------------------- jobs

  function ClassOfJob(s: JobStatus): Kind {
    match s
    case Completed => Done
    case Failed => Bad
    case Dead => Bad
    case TimedOut => Bad
    case Pending => Open
    case Retrying => Open
    case Running => Open
    case Archived => Other
  }

  function CountOf(jobs: seq<JobStatus>, kind: Kind): nat {
    if jobs == [] then 0
    else CountOf(jobs[..|jobs| - 1], kind) + if ClassOfJob(jobs[|jobs| - 1]) == kind then 1 else 0
  }

  /** One row per job. */
  function RowPerJob(jobs: seq<JobStatus>): seq<Row> {
    if jobs == [] then [] else RowPerJob(jobs[..|jobs| - 1]) + [(StatusText(jobs[|jobs| - 1]), 1)]
  }

  lemma {:induction false} RowsCountJobs(jobs: seq<JobStatus>, kind: Kind)
    ensures SumOf(RowPerJob(jobs), kind) == CountOf(jobs, kind)
  {
    if jobs != [] {
      var front, last := jobs[..|jobs| - 1], jobs[|jobs| - 1];
      RowsCountJobs(front, kind);
      assert RowPerJob(jobs)[..|RowPerJob(jobs)| - 1] == RowPerJob(front);
      TextClass(last);
    }
  }

  lemma TextClass(s: JobStatus)
    ensures ClassOf(StatusText(s)) == ClassOfJob(s)
  {
  }

  /** The progress of a batch whose jobs have the given statuses. */
  function JobProgress(jobs: seq<JobStatus>, total: nat, mode: FailureMode): Progress {
    var c, f, p := CountOf(jobs, Done), CountOf(jobs, Bad), CountOf(jobs, Open);
    Progress(c, f, p, StatusOf(c, f, total, mode))
  }

  lemma {:induction false} CountsWithinJobs(jobs: seq<JobStatus>)
    ensures CountOf(jobs, Done) + CountOf(jobs, Bad) + CountOf(jobs, Open) <= |jobs|
  {
    if jobs != [] {
      CountsWithinJobs(jobs[..|jobs| - 1]);
    }
  }

  lemma SmallMod(n: nat)
    ensures n < U32 ==> n % U32 == n
  {
  }

  /** Rows that add up like the jobs, in whatever order and grouping, give the direct count. */
  lemma ProgressIsDirectCount(jobs: seq<JobStatus>, rows: seq<Row>, total: nat, mode: FailureMode)
    requires |jobs| < U32
    requires forall kind :: SumOf(rows, kind) == SumOf(RowPerJob(jobs), kind)
    ensures ProgressOf(rows, total, mode) == JobProgress(jobs, total, mode)
  {
    RowsCountJobs(jobs, Done);
    RowsCountJobs(jobs, Bad);
    RowsCountJobs(jobs, Open);
    CountsWithinJobs(jobs);
    SmallMod(CountOf(jobs, Done));
    SmallMod(CountOf(jobs, Bad));
    SmallMod(CountOf(jobs, Open));
  }

  /** The same rows in another order, or with one row split in two (or two merged, backwards). */
  ghost predicate Regroups(a: seq<Row>, b: seq<Row>) {
    multiset(a) == multiset(b) || Splits(a, b) || Splits(b, a)
  }

  ghost predicate Splits(a: seq<Row>, b: seq<Row>) {
    exists before: seq<Row>, status: string, x: nat, y: nat, after: seq<Row> ::
      SplitAt(a, b, before, status, x, y, after)
  }

  ghost predicate SplitAt(a: seq<Row>, b: seq<Row>, before: seq<Row>, status: string, x: nat, y: nat, after: seq<Row>) {
    x + y < U32 && a == before + [(status, x + y)] + after && b == before + [(status, x), (status, y)] + after
  }

  lemma SplitsKeepSum(a: seq<Row>, b: seq<Row>, kind: Kind)
    requires Splits(a, b)
    ensures SumOf(a, kind) == SumOf(b, kind)
  {
    var before: seq<Row>, status: string, x: nat, y: nat, after: seq<Row> :| SplitAt(a, b, before, status, x, y, after);
    SumSplit(before, status, x, y, after, kind);
  }

  lemma RegroupsKeepSum(a: seq<Row>, b: seq<Row>, kind: Kind)
    requires Regroups(a, b)
    ensures SumOf(a, kind) == SumOf(b, kind)
  {
    if multiset(a) == multiset(b) {
      SumPermuted(a, b, kind);
    } else if Splits(a, b) {
      SplitsKeepSum(a, b, kind);
    } else {
      SplitsKeepSum(b, a, kind);
    }
  }

  ghost predicate Regrouping(chain: seq<seq<Row>>) {
    forall n :: 0 <= n < |chain| - 1 ==> Regroups(chain[n], chain[n + 1])
  }

  lemma {:induction false} RegroupingKeepsSum(chain: seq<seq<Row>>, n: nat, kind: Kind)
    requires Regrouping(chain) && n < |chain|
    ensures SumOf(chain[n], kind) == SumOf(chain[0], kind)
  {
    if n > 0 {
      RegroupingKeepsSum(chain, n - 1, kind);
      assert Regroups(chain[n - 1], chain[n - 1 + 1]);
      RegroupsKeepSum(chain[n - 1], chain[n], kind);
    }
  }

  /** One row per job, reordered, split and merged any number of times, gives the direct count. */
  lemma RegroupingKeepsProgress(jobs: seq<JobStatus>, chain: seq<seq<Row>>, total: nat, mode: FailureMode)
    requires |jobs| < U32 && Regrouping(chain) && chain != [] && chain[0] == RowPerJob(jobs)
    ensures ProgressOf(chain[|chain| - 1], total, mode) == JobProgress(jobs, total, mode)
  {
    var rows := chain[|chain| - 1];
    assert forall kind :: SumOf(rows, kind) == SumOf(RowPerJob(jobs), kind) by {
      forall kind ensures SumOf(rows, kind) == SumOf(RowPerJob(jobs), kind) {
        RegroupingKeepsSum(chain, |chain| - 1, kind);
      }
    }
    ProgressIsDirectCount(jobs, rows, total, mode);
  }

  // ---------------------------------------------------------------- what the status says

  predicate Succeeded(s: JobStatus) {
    s == Completed
  }

  predicate Fell(s: JobStatus) {
    s == Failed || s == Dead || s == TimedOut
  }

  lemma {:induction false} CountAllOrNone(jobs: seq<JobStatus>, kind: Kind)
    ensures CountOf(jobs, kind) <= |jobs|
    ensures CountOf(jobs, kind) == |jobs| <==> forall i :: 0 <= i < |jobs| ==> ClassOfJob(jobs[i]) == kind
    ensures CountOf(jobs, kind) == 0 <==> forall i :: 0 <= i < |jobs| ==> ClassOfJob(jobs[i]) != kind
  {
    if jobs != [] {
      CountAllOrNone(jobs[..|jobs| - 1], kind);
    }
  }

  lemma {:induction false} AllFinished(jobs: seq<JobStatus>)
    ensures CountOf(jobs, Done) + CountOf(jobs, Bad) <= |jobs|
    ensures CountOf(jobs, Done) + CountOf(jobs, Bad) == |jobs| <==>
      forall i :: 0 <= i < |jobs| ==> ClassOfJob(jobs[i]) == Done || ClassOfJob(jobs[i]) == Bad
  {
    if jobs != [] {
      AllFinished(jobs[..|jobs| - 1]);
    }
  }

  lemma KindsOfJobs(s: JobStatus)
    ensures ClassOfJob(s) == Done <==> Succeeded(s)
    ensures ClassOfJob(s) == Bad <==> Fell(s)
    ensures ClassOfJob(s) == Open <==> s == Pending || s == Retrying || s == Running
  {
  }

  /**
   What the status of a batch of `total` jobs says about those that still exist. With all of
   them there: completed when all completed, failed when all failed, partly failed when all
   finished and both kinds occur. Otherwise it is pending when none finished, and processing.
   With fail-fast, one failure is enough to fail.
   */
  lemma StatusSays(jobs: seq<JobStatus>, total: nat, mode: FailureMode)
    requires |jobs| <= total < U32
    ensures var status := JobProgress(jobs, total, mode).status;
      var somebodyFell := exists i :: 0 <= i < |jobs| && Fell(jobs[i]);
      var somebodySucceeded := exists i :: 0 <= i < |jobs| && Succeeded(jobs[i]);
      var allSucceeded := |jobs| == total > 0 && forall i :: 0 <= i < |jobs| ==> Succeeded(jobs[i]);
      var allFell := |jobs| == total > 0 && forall i :: 0 <= i < |jobs| ==> Fell(jobs[i]);
      var allFinished := |jobs| == total && forall i :: 0 <= i < |jobs| ==> Succeeded(jobs[i]) || Fell(jobs[i]);
      && (status == BatchFailed <==> if mode == FailFast then somebodyFell else allFell)
      && (status == BatchCompleted <==> allSucceeded)
      && (status == PartiallyFailed <==> mode != FailFast && allFinished && somebodyFell && somebodySucceeded)
      && (status == BatchPending <==> !somebodyFell && !somebodySucceeded)
  {
    forall s ensures ClassOfJob(s) == Done <==> Succeeded(s) {
      KindsOfJobs(s);
    }
    forall s ensures ClassOfJob(s) == Bad <==> Fell(s) {
      KindsOfJobs(s);
    }
    CountAllOrNone(jobs, Done);
    CountAllOrNone(jobs, Bad);
    AllFinished(jobs);
    SmallMod(CountOf(jobs, Done) + CountOf(jobs, Bad));
  }

  /** The counters, job by job: open jobs are pending, archived ones count nowhere. */
  lemma {:induction false} CountersSay(jobs: seq<JobStatus>, total: nat, mode: FailureMode)
    ensures var p := JobProgress(jobs, total, mode);
      && p.completed == |set i | 0 <= i < |jobs| && Succeeded(jobs[i])|
      && p.failed == |set i | 0 <= i < |jobs| && Fell(jobs[i])|
      && p.pending == |set i | 0 <= i < |jobs| && jobs[i] in {Pending, Retrying, Running}|
  {
    CountIsSize(jobs, Done);
    CountIsSize(jobs, Bad);
    CountIsSize(jobs, Open);
    forall s ensures (ClassOfJob(s) == Done <==> Succeeded(s)) && (ClassOfJob(s) == Bad <==> Fell(s))
      && (ClassOfJob(s) == Open <==> s in {Pending, Retrying, Running})
    {
      KindsOfJobs(s);
    }
    assert Members(jobs, Done) == set i | 0 <= i < |jobs| && Succeeded(jobs[i]);
    assert Members(jobs, Bad) == set i | 0 <= i < |jobs| && Fell(jobs[i]);
    assert Members(jobs, Open) == set i | 0 <= i < |jobs| && jobs[i] in {Pending, Retrying, Running};
  }

  function Members(jobs: seq<JobStatus>, kind: Kind): set<int> {
    set i | 0 <= i < |jobs| && ClassOfJob(jobs[i]) == kind
  }

  lemma {:induction false} CountIsSize(jobs: seq<JobStatus>, kind: Kind)
    ensures CountOf(jobs, kind) == |Members(jobs, kind)|
  {
    if jobs != [] {
      var n := |jobs| - 1;
      CountIsSize(jobs[..n], kind);
      if ClassOfJob(jobs[n]) == kind {
        assert Members(jobs, kind) == Members(jobs[..n], kind) + {n};
      } else {
        assert Members(jobs, kind) == Members(jobs[..n], kind);
      }
    }
  }

  /** The sum of the counters is taken in 32 bits: two counts that reach it look like none. */
  lemma FinishedCountWraps(mode: FailureMode)
    requires mode != FailFast
    ensures ProgressOf([("Completed", U32 - 2), ("Failed", 2)], U32 - 1, mode).status == BatchPending
  {
    var rows: seq<Row> := [("Completed", U32 - 2), ("Failed", 2)];
    assert rows[..1] == [("Completed", U32 - 2)];
    SumOfOne("Completed", U32 - 2, Done);
    SumOfOne("Completed", U32 - 2, Bad);
    TextClass(Completed);
    TextClass(Failed);
  }

  /** A status stored as JSON, in quotes, counts like the bare text. */
  lemma QuotedTextClass(s: JobStatus)
    ensures ClassOf(['"'] + StatusText(s) + ['"']) == ClassOfJob(s)
  {
    var text := StatusText(s);
    var quoted := ['"'] + text + ['"'];
    assert quoted[1..] == text + ['"'] && (text + ['"'])[..|text|] == text;
    assert (text + ['"'])[0] == text[0] != '"';
    assert TrimQuotes(quoted) == TrimQuotes(text + ['"']) == TrimQuotes(text);
    TextClass(s);
  }

  /** Rows with an unknown status, or a count outside 32 bits, change nothing. */
  lemma UselessRow(rows: seq<Row>, row: Row, total: nat, mode: FailureMode)
    requires ClassOf(row.0) == Other || row.1 < 0 || row.1 >= U32
    ensures ProgressOf(rows + [row], total, mode) == ProgressOf(rows, total, mode)
  {
    assert (rows + [row])[..|rows|] == rows;
  }

  // ---------------------------------------------------------------- finishing jobs

  /** Job `i`, still open, finishes one way or the other. */
  ghost predicate Finishes(jobs: seq<JobStatus>, jobs': seq<JobStatus>, i: nat) {
    && i < |jobs| && ClassOfJob(jobs[i]) == Open
    && |jobs'| == |jobs| && ClassOfJob(jobs'[i]) in {Done, Bad} && jobs' == jobs[i := jobs'[i]]
  }

  lemma {:induction false} CountUpdate(jobs: seq<JobStatus>, i: nat, s: JobStatus, kind: Kind)
    requires i < |jobs|
    ensures CountOf(jobs[i := s], kind) == CountOf(jobs, kind)
      - (if ClassOfJob(jobs[i]) == kind then 1 else 0) + (if ClassOfJob(s) == kind then 1 else 0)
  {
    var n := |jobs| - 1;
    if i == n {
      assert jobs[i := s][..n] == jobs[..n];
    } else {
      assert jobs[i := s][..n] == jobs[..n][i := s];
      CountUpdate(jobs[..n], i, s, kind);
    }
  }

  ghost predicate Step(jobs: seq<JobStatus>, jobs': seq<JobStatus>) {
    exists i: nat :: Finishes(jobs, jobs', i)
  }

  ghost predicate IsRun(run: seq<seq<JobStatus>>) {
    forall n :: 0 <= n < |run| - 1 ==> Step(run[n], run[n + 1])
  }

  /** Finishing a job adds one to the finished jobs and takes none away. */
  lemma StepCounts(jobs: seq<JobStatus>, jobs': seq<JobStatus>)
    requires Step(jobs, jobs')
    ensures |jobs'| == |jobs|
    ensures CountOf(jobs, Done) <= CountOf(jobs', Done) && CountOf(jobs, Bad) <= CountOf(jobs', Bad)
  {
    var i: nat :| Finishes(jobs, jobs', i);
    CountUpdate(jobs, i, jobs'[i], Done);
    CountUpdate(jobs, i, jobs'[i], Bad);
  }

  /** More finished jobs keep a terminal status terminal, and a fail-fast failure a failure. */
  lemma TerminalGrows(c: nat, f: nat, c': nat, f': nat, total: nat, mode: FailureMode)
    requires c <= c' && f <= f' && c' + f' < U32 && StatusOf(c, f, total, mode).Terminal()
    ensures StatusOf(c', f', total, mode).Terminal()
    ensures mode == FailFast && f > 0 ==> StatusOf(c', f', total, mode) == BatchFailed
  {
  }

  lemma TerminalIsFinal(status: Status)
    ensures status.Terminal() <==> status !in {BatchPending, Processing}
  {
  }

  /** Once a batch has reached a terminal status, finishing more jobs never leaves it. */
  lemma {:induction false} TerminalForever(run: seq<seq<JobStatus>>, m: nat, n: nat, total: nat, mode: FailureMode)
    requires IsRun(run) && m <= n < |run| && |run[m]| < U32
    requires JobProgress(run[m], total, mode).status !in {BatchPending, Processing}
    ensures |run[n]| == |run[m]| && CountOf(run[m], Bad) <= CountOf(run[n], Bad)
    ensures JobProgress(run[n], total, mode).status !in {BatchPending, Processing}
    ensures mode == FailFast && CountOf(run[m], Bad) > 0 ==> JobProgress(run[n], total, mode).status == BatchFailed
  {
    if m < n {
      TerminalForever(run, m, n - 1, total, mode);
      assert Step(run[n - 1], run[n - 1 + 1]);
      StepCounts(run[n - 1], run[n]);
      CountsWithinJobs(run[n]);
      TerminalIsFinal(JobProgress(run[n - 1], total, mode).status);
      TerminalIsFinal(JobProgress(run[n], total, mode).status);
      TerminalGrows(CountOf(run[n - 1], Done), CountOf(run[n - 1], Bad),
                    CountOf(run[n], Done), CountOf(run[n], Bad), total, mode);
    }
  }
}
