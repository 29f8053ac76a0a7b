/**
 What `TaskTracker` guarantees over every run of spawn, close, drain, abort_all and task
 steps: where each task is, what a drain's result counts, and that shutdown cannot hang.
 */
module TrackerSafety {
  import opened TrackerProtocol

  // ---------------------------------------------------------------- preservation

  lemma StepKeepsTasksOk(s: State, step: Step)
    requires TasksOk(s) && Enabled(s, step)
    ensures TasksOk(Do(s, step))
  {
  }

  lemma StepKeepsDisjoint(s: State, step: Step)
    requires Disjoint(s) && Enabled(s, step)
    ensures Disjoint(Do(s, step))
  {
    var s' := Do(s, step);
    forall c | 0 <= c < |s'.calls|
      ensures Ids(s', s'.calls[c].took) && s'.calls[c].left <= s'.calls[c].took
      ensures s'.calls[c].took !! s'.shared && s'.calls[c].left !! s'.reaped
    {
      assert c < |s.calls| ==> Ids(s, s.calls[c].took) && s'.calls[c].took == s.calls[c].took;
      if step.Join? && c != step.call {
        assert s.calls[c].took !! s.calls[step.call].took;
      }
    }
    forall c, d | 0 <= c < d < |s'.calls|
      ensures s'.calls[c].took !! s'.calls[d].took
    {
      assert s'.calls[c].took == s.calls[c].took;
      assert d < |s.calls| ==> s'.calls[d].took == s.calls[d].took;
    }
  }

  lemma StepKeepsCovered(s: State, step: Step)
    requires Disjoint(s) && Covered(s) && Enabled(s, step)
    ensures Covered(Do(s, step))
  {
    var s' := Do(s, step);
    forall t | 0 <= t < |s'.tasks|
      ensures t in s'.shared || t in s'.reaped || InSomeCall(s', t)
    {
      if t < |s.tasks| {
        if InSomeCall(s, t) {
          var c :| 0 <= c < |s.calls| && t in s.calls[c].left;
          assert t in s'.reaped || t in s'.calls[c].left;
        } else if t in s.shared && (step.StartDrain? || step.StartAbortAll?) {
          assert t in s'.calls[|s.calls|].left;
        }
      }
    }
    forall c, t | 0 <= c < |s'.calls| && t in s'.calls[c].took
      ensures t in s'.calls[c].left || t in s'.reaped
    {
      assert c < |s.calls| ==> s'.calls[c].took == s.calls[c].took;
    }
  }

  lemma SameAborted(s: State, s': State, ids: set<nat>)
    requires |s.tasks| <= |s'.tasks| && Ids(s, ids)
    requires forall t :: t in ids ==> s'.tasks[t].supervisorAbort == s.tasks[t].supervisorAbort
    ensures Aborted(s', ids) == Aborted(s, ids)
  {
  }

  lemma StepKeepsCallOk(s: State, step: Step, c: nat)
    requires Disjoint(s) && AbortsAccounted(s) && Enabled(s, step)
    requires c < |Do(s, step).calls|
    ensures CallOk(Do(s, step), Do(s, step).calls[c])
  {
    var s' := Do(s, step);
    if c == |s.calls| {
      assert step.StartDrain? ==> Aborted(s', s.shared) == {};
    } else {
      var took := s.calls[c].took;
      assert CallOk(s, s.calls[c]) && Ids(s, took) && s'.calls[c].took == took;
      if step == GracePeriodEnds(c) {
        forall t | t in s.calls[c].left ensures t in Aborted(s', took) {}
        assert Aborted(s', took) == s.calls[c].left by {
          assert forall t :: t in took ==> t !in Aborted(s, took);
        }
      } else {
        if step.GracePeriodEnds? {
          assert took !! s.calls[step.call].took;
        }
        SameAborted(s, s', took);
      }
    }
  }

  lemma StepKeepsAbortsAccounted(s: State, step: Step)
    requires Disjoint(s) && AbortsAccounted(s) && Enabled(s, step)
    ensures AbortsAccounted(Do(s, step))
  {
    var s' := Do(s, step);
    forall t | 0 <= t < |s'.tasks| && s'.tasks[t].supervisorAbort
      ensures TakenToAbort(s', t)
    {
      StepKeepsTakenToAbort(s, step, t);
    }
    forall c | 0 <= c < |s'.calls|
      ensures CallOk(s', s'.calls[c])
    {
      StepKeepsCallOk(s, step, c);
    }
    forall t | t in s'.shared && t < |s'.tasks|
      ensures !s'.tasks[t].supervisorAbort
    {
      if step.GracePeriodEnds? {
        assert s.calls[step.call].took !! s.shared;
      }
    }
  }

  lemma StepKeepsTakenToAbort(s: State, step: Step, t: nat)
    requires Disjoint(s) && AbortsAccounted(s) && Enabled(s, step)
    requires t < |Do(s, step).tasks| && Do(s, step).tasks[t].supervisorAbort
    ensures TakenToAbort(Do(s, step), t)
  {
    var s' := Do(s, step);
    if t < |s.tasks| && s.tasks[t].supervisorAbort {
      assert TakenToAbort(s, t);
      var c :| 0 <= c < |s.calls| && t in s.calls[c].took && s.calls[c].kind != Grace
               && s.calls[c].kind != DrainReturned(0);
      assert CallOk(s, s.calls[c]);
      assert t in s'.calls[c].took && s'.calls[c].kind != Grace;
      assert s'.calls[c].kind != DrainReturned(0);
    } else if step.StartAbortAll? {
      assert t in s'.calls[|s.calls|].took;
    } else {
      assert step.GracePeriodEnds?;
      assert t in s'.calls[step.call].took;
    }
  }

  lemma StepKeepsDrainCloses(s: State, step: Step)
    requires DrainCloses(s) && Enabled(s, step)
    ensures DrainCloses(Do(s, step))
  {
  }

  lemma {:induction false} CountPanicsUpdate(tasks: seq<Task>, t: nat, task: Task)
    requires t < |tasks|
    ensures CountPanics(tasks[t := task]) == CountPanics(tasks)
      - (if tasks[t].CountedPanic() then 1 else 0) + (if task.CountedPanic() then 1 else 0)
  {
    var n := |tasks| - 1;
    if t == n {
      assert tasks[t := task][..n] == tasks[..n];
    } else {
      assert tasks[t := task][..n] == tasks[..n][t := task];
      CountPanicsUpdate(tasks[..n], t, task);
    }
  }

  lemma {:induction false} CountPanicsCongruent(a: seq<Task>, b: seq<Task>)
    requires |a| == |b|
    requires forall t :: 0 <= t < |a| ==> a[t].CountedPanic() == b[t].CountedPanic()
    ensures CountPanics(a) == CountPanics(b)
  {
    if a != [] {
      CountPanicsCongruent(a[..|a| - 1], b[..|b| - 1]);
    }
  }

  lemma StepKeepsPanicCount(s: State, step: Step)
    requires TasksOk(s) && s.panics == CountPanics(s.tasks) && Enabled(s, step)
    ensures Do(s, step).panics == CountPanics(Do(s, step).tasks)
  {
    var s' := Do(s, step);
    match step
    case Observe(t) => CountPanicsUpdate(s.tasks, t, s'.tasks[t]);
    case DropSupervisor(t) => CountPanicsUpdate(s.tasks, t, s'.tasks[t]);
    case EndInner(t, _) =>
      assert TaskOk(s.tasks[t]);
      CountPanicsUpdate(s.tasks, t, s'.tasks[t]);
    case Spawn(_) =>
      if !s.closed {
        SpawnedIsNoPanic(s.tasks);
      }
    case StartAbortAll => AbortsAreNoPanics(s.tasks, s.shared);
    case GracePeriodEnds(c) => AbortsAreNoPanics(s.tasks, s.calls[c].left);
    case _ =>
  }

  lemma SpawnedIsNoPanic(tasks: seq<Task>)
    ensures CountPanics(tasks + [Task(Running, false, Watching, false)]) == CountPanics(tasks)
  {
    assert (tasks + [Task(Running, false, Watching, false)])[..|tasks|] == tasks;
  }

  lemma AbortsAreNoPanics(tasks: seq<Task>, ids: set<nat>)
    ensures CountPanics(RequestAborts(tasks, ids)) == CountPanics(tasks)
  {
    CountPanicsCongruent(RequestAborts(tasks, ids), tasks);
  }

  lemma StepKeepsInv(s: State, step: Step)
    requires Inv(s) && Enabled(s, step)
    ensures Inv(Do(s, step))
  {
    StepKeepsTasksOk(s, step);
    StepKeepsDisjoint(s, step);
    StepKeepsCovered(s, step);
    StepKeepsAbortsAccounted(s, step);
    StepKeepsDrainCloses(s, step);
    StepKeepsPanicCount(s, step);
  }

  lemma {:induction false} RunKeepsInv(run: seq<State>, n: nat)
    requires IsRun(run) && n < |run|
    ensures Inv(run[n])
  {
    if n > 0 {
      RunKeepsInv(run, n - 1);
      assert Next(run[n - 1], run[n - 1 + 1]);
      var step :| Enabled(run[n - 1], step) && run[n] == Do(run[n - 1], step);
      StepKeepsInv(run[n - 1], step);
    }
  }

  // ---------------------------------------------------------------- main results

  /** Each accepted task is in exactly one of the shared set, one call's set, and the reaped tasks. */
  lemma EveryTaskInOnePlace(run: seq<State>, n: nat, t: nat)
    requires IsRun(run) && n < |run| && t < |run[n].tasks|
    ensures var s := run[n];
      && (t in s.shared || t in s.reaped || InSomeCall(s, t))
      && !(t in s.shared && t in s.reaped)
      && !(t in s.shared && InSomeCall(s, t))
      && !(t in s.reaped && InSomeCall(s, t))
      && (forall c, d :: (0 <= c < |s.calls| && 0 <= d < |s.calls|
                          && t in s.calls[c].left && t in s.calls[d].left) ==> c == d)
  {
    RunKeepsInv(run, n);
  }

  /** A run with the steps it took. */
  ghost predicate IsTrace(run: seq<State>, steps: seq<Step>) {
    && |run| == |steps| + 1 && run[0] == INIT
    && forall n :: 0 <= n < |steps| ==> Enabled(run[n], steps[n]) && run[n + 1] == Do(run[n], steps[n])
  }

  predicate Closes(step: Step) {
    step.Close? || step.StartDrain?
  }

  function SpawnsOf(steps: seq<Step>): nat {
    if steps == [] then 0 else SpawnsOf(steps[..|steps| - 1]) + if steps[|steps| - 1].Spawn? then 1 else 0
  }

  /** In every run the tracker is closed exactly when somebody called `close` or `drain`. */
  lemma {:induction false} ClosedExactly(run: seq<State>, steps: seq<Step>, n: nat)
    requires IsTrace(run, steps) && n <= |steps|
    ensures run[n].closed <==> exists m :: 0 <= m < n && Closes(steps[m])
  {
    if n > 0 {
      ClosedExactly(run, steps, n - 1);
      assert run[n - 1 + 1] == Do(run[n - 1], steps[n - 1]);
      OnlySpawnAccepts(run[n - 1], steps[n - 1]);
    }
  }

  /** Until then every `spawn` is accepted; from then on none is. */
  lemma {:induction false} AcceptedExactly(run: seq<State>, steps: seq<Step>, n: nat)
    requires IsTrace(run, steps) && n <= |steps|
    ensures !run[n].closed ==> |run[n].tasks| == SpawnsOf(steps[..n])
    ensures forall m :: 0 <= m < n && Closes(steps[m]) ==> |run[n].tasks| == |run[m].tasks|
  {
    if n > 0 {
      ClosedExactly(run, steps, n - 1);
      AcceptedExactly(run, steps, n - 1);
      assert run[n - 1 + 1] == Do(run[n - 1], steps[n - 1]);
      SpawnsSnoc(steps, n);
      OnlySpawnAccepts(run[n - 1], steps[n - 1]);
    }
  }

  lemma SpawnsSnoc(steps: seq<Step>, n: nat)
    requires 0 < n <= |steps|
    ensures SpawnsOf(steps[..n]) == SpawnsOf(steps[..n - 1]) + if steps[n - 1].Spawn? then 1 else 0
  {
    assert steps[..n][..n - 1] == steps[..n - 1];
  }

  /** Only `close` and `drain` close, and only `spawn` on an open tracker accepts. */
  lemma OnlySpawnAccepts(s: State, step: Step)
    requires Enabled(s, step)
    ensures Do(s, step).closed == (s.closed || Closes(step))
    ensures |Do(s, step).tasks| == |s.tasks| + if step.Spawn? && !s.closed then 1 else 0
  {
  }

  lemma {:induction false} RunHasTrace(run: seq<State>) returns (steps: seq<Step>)
    requires IsRun(run)
    ensures IsTrace(run, steps)
  {
    if |run| == 1 {
      steps := [];
    } else {
      var n := |run| - 1;
      assert IsRun(run[..n]);
      steps := RunHasTrace(run[..n]);
      assert Next(run[n - 1], run[n - 1 + 1]);
      var step :| Enabled(run[n - 1], step) && run[n] == Do(run[n - 1], step);
      steps := steps + [step];
      forall m | 0 <= m < |steps| ensures Enabled(run[m], steps[m]) && run[m + 1] == Do(run[m], steps[m]) {
        assert m < n - 1 ==> run[..n][m] == run[m] && run[..n][m + 1] == run[m + 1];
      }
    }
  }

  /** Once closed, a tracker never accepts another task. */
  lemma {:induction false} ClosedForever(run: seq<State>, m: nat, n: nat)
    requires IsRun(run) && m <= n < |run| && run[m].closed
    ensures run[n].closed && |run[n].tasks| == |run[m].tasks|
  {
    if m < n {
      ClosedForever(run, m, n - 1);
      assert Next(run[n - 1], run[n - 1 + 1]);
    }
  }

  /**
   A drain that returns `n` requested the abort of exactly `n` of the tasks it took; all
   others ran to their own end. Nothing it took is left unfinished without an abort request.
   */
  lemma DrainResult(run: seq<State>, n: nat, c: nat)
    requires IsRun(run) && n < |run|
    requires c < |run[n].calls| && run[n].calls[c].kind.DrainReturned?
    ensures var s := run[n];
      var took := s.calls[c].took;
      && s.closed && s.shared == {}
      && |Aborted(s, took)| == s.calls[c].kind.aborted
      && (forall t :: t in took ==> t < |s.tasks| && t in s.reaped)
      && (forall t :: t in took ==> s.tasks[t].inner != Running || s.tasks[t].innerAbort)
      && (forall t :: t in took && t !in Aborted(s, took) ==> s.tasks[t].RanToItsEnd())
      && (s.calls[c].kind.aborted == 0 ==> forall t :: t in took ==> s.tasks[t].RanToItsEnd())
  {
    RunKeepsInv(run, n);
    var s := run[n];
    var took := s.calls[c].took;
    assert CallOk(s, s.calls[c]) && Ids(s, took);
    forall t | t in took
      ensures t in s.reaped && (s.tasks[t].inner != Running || s.tasks[t].innerAbort)
      ensures t !in Aborted(s, took) ==> s.tasks[t].RanToItsEnd()
    {
      assert t in s.reaped;
      assert TaskOk(s.tasks[t]) && s.tasks[t].Joinable();
    }
    if s.calls[c].kind.aborted == 0 {
      assert Aborted(s, took) == {};
    }
  }

  function CountInner(tasks: seq<Task>, inner: Inner): nat {
    if tasks == [] then 0
    else CountInner(tasks[..|tasks| - 1], inner) + if tasks[|tasks| - 1].inner == inner then 1 else 0
  }

  lemma {:induction false} AllExitedPanicsCount(tasks: seq<Task>)
    requires forall t :: 0 <= t < |tasks| ==> tasks[t].supervisor == Exited
    ensures CountPanics(tasks) == CountInner(tasks, Panicked)
  {
    if tasks != [] {
      AllExitedPanicsCount(tasks[..|tasks| - 1]);
    }
  }

  lemma {:induction false} PanicsNeverOvercounted(tasks: seq<Task>)
    ensures CountPanics(tasks) <= CountInner(tasks, Panicked)
  {
    if tasks != [] {
      PanicsNeverOvercounted(tasks[..|tasks| - 1]);
    }
  }

  /** `panic_count` never exceeds the number of accepted tasks that panicked. */
  lemma PanicCountIsSound(run: seq<State>, n: nat)
    requires IsRun(run) && n < |run|
    ensures run[n].panics <= CountInner(run[n].tasks, Panicked)
  {
    RunKeepsInv(run, n);
    PanicsNeverOvercounted(run[n].tasks);
  }

  /**
   When the only calls that took the set are drains and each returned 0, every accepted
   task ran to its end and `panic_count` is exact.
   */
  lemma CleanShutdown(run: seq<State>, n: nat)
    requires IsRun(run) && n < |run| && run[n].calls != []
    requires forall c :: 0 <= c < |run[n].calls| ==> run[n].calls[c].kind == DrainReturned(0)
    ensures forall t :: 0 <= t < |run[n].tasks| ==> run[n].tasks[t].RanToItsEnd()
    ensures run[n].panics == CountInner(run[n].tasks, Panicked)
  {
    RunKeepsInv(run, n);
    var s := run[n];
    assert s.calls[0].kind.IsDrain();
    forall t | 0 <= t < |s.tasks|
      ensures s.tasks[t].supervisor == Exited && s.tasks[t].RanToItsEnd()
    {
      assert !TakenToAbort(s, t);
      forall c | 0 <= c < |s.calls| ensures s.calls[c].left == {} {
        assert CallOk(s, s.calls[c]);
      }
      assert t in s.reaped && TaskOk(s.tasks[t]);
    }
    AllExitedPanicsCount(s.tasks);
  }

  // ---------------------------------------------------------------- shutdown cannot hang

  ghost predicate SameInner(s: State, s': State) {
    |s.tasks| == |s'.tasks|
    && forall t :: 0 <= t < |s.tasks| ==> s'.tasks[t].inner == s.tasks[t].inner
  }

  /** An aborting call can join any task it still has. */
  lemma JoinAborted(run: seq<State>, c: nat, t: nat) returns (longer: seq<State>)
    requires IsRun(run) && c < |run[|run| - 1].calls|
    requires var call := run[|run| - 1].calls[c];
      t in call.left && (call.kind.GraceOver? || call.kind.AbortAll?)
    ensures IsRun(longer) && run < longer
    ensures var s := run[|run| - 1];
      var s' := longer[|longer| - 1];
      SameInner(s, s') && s'.calls == s.calls[c := s.calls[c].(left := s.calls[c].left - {t})]
  {
    var s := run[|run| - 1];
    LeftIsAborted(run, c, t);
    if s.tasks[t].Joinable() {
      longer := ExtendRun(run, Join(c, t));
    } else {
      var dropped := Do(s, DropSupervisor(t));
      longer := ExtendRun(run, DropSupervisor(t));
      assert longer[|longer| - 1] == dropped;
      assert Finished(dropped, {t});
      longer := ExtendRun(longer, Join(c, t));
    }
  }

  lemma LeftIsAborted(run: seq<State>, c: nat, t: nat)
    requires IsRun(run) && c < |run[|run| - 1].calls|
    requires var call := run[|run| - 1].calls[c];
      t in call.left && (call.kind.GraceOver? || call.kind.AbortAll?)
    ensures t < |run[|run| - 1].tasks| && run[|run| - 1].tasks[t].supervisorAbort
  {
    var s := run[|run| - 1];
    RunKeepsInv(run, |run| - 1);
    assert Ids(s, s.calls[c].took) && CallOk(s, s.calls[c]);
  }

  /** A call that asked its tasks to stop can join them all and return. */
  lemma {:induction false} AbortingCallCanReturn(run: seq<State>, c: nat) returns (longer: seq<State>)
    requires IsRun(run) && c < |run[|run| - 1].calls|
    requires run[|run| - 1].calls[c].kind.GraceOver? || run[|run| - 1].calls[c].kind.AbortAll?
    ensures IsRun(longer) && run < longer
    ensures CallReturned(run[|run| - 1], longer[|longer| - 1], c)
    decreases |run[|run| - 1].calls[c].left|
  {
    var left := run[|run| - 1].calls[c].left;
    if left == {} {
      longer := ExtendRun(run, Return(c));
    } else {
      var t :| t in left;
      var next := JoinAborted(run, c, t);
      longer := AbortingCallCanReturn(next, c);
    }
  }

  ghost predicate CallReturned(s: State, s': State, c: nat) {
    SameInner(s, s') && c < |s'.calls| && !s'.calls[c].kind.Waiting()
  }

  /**
   Whatever the inner tasks do, a call that is still waiting can return: end the grace
   period, drop the aborted supervisors, join them. No step of an inner task is used.
   */
  lemma CallCanReturn(run: seq<State>, c: nat) returns (longer: seq<State>)
    requires IsRun(run) && c < |run[|run| - 1].calls| && run[|run| - 1].calls[c].kind.Waiting()
    ensures IsRun(longer) && run < longer
    ensures CallReturned(run[|run| - 1], longer[|longer| - 1], c)
  {
    var s := run[|run| - 1];
    if s.calls[c].left == {} {
      longer := ExtendRun(run, Return(c));
    } else if s.calls[c].kind.Grace? {
      var next := ExtendRun(run, GracePeriodEnds(c));
      assert SameInner(s, next[|next| - 1]);
      longer := AbortingCallCanReturn(next, c);
    } else {
      longer := AbortingCallCanReturn(run, c);
    }
  }
}
