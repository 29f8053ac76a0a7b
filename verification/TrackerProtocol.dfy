/**
 The life of tracked background tasks, as a transition system over `TaskTracker` calls.

 Each accepted task is an inner task watched by a supervisor; the supervisor sits in a join
 set, the tracker's shared one until `drain` or `abort_all` moves the set out. A step is one
 lock region of a call, one `join_next`, or one move of a task. An abort is a request: a
 task being polled when the request arrives may still finish by itself. Dropping a
 supervisor drops its `AbortOnDrop` guard, which requests an abort of the inner task and
 does not wait for it.
 */
module TrackerProtocol {
  datatype Inner = Running | Completed | Panicked | Cancelled

  datatype Supervisor = Watching | Exited | Dropped

  datatype Task = Task(inner: Inner, innerAbort: bool, supervisor: Supervisor, supervisorAbort: bool) {
    predicate Joinable() {
      supervisor != Watching
    }

    /** Ended by itself, not by an abort. */
    predicate RanToItsEnd() {
      inner == Completed || inner == Panicked
    }

    predicate CountedPanic() {
      inner == Panicked && supervisor == Exited
    }
  }

  datatype Kind =
    | Grace                         // drain, waiting for tasks to finish on their own
    | GraceOver(remaining: nat)     // drain, after aborting what was left
    | AbortAll
    | DrainReturned(aborted: nat)
    | AbortAllReturned
  {
    predicate IsDrain() {
      Grace? || GraceOver? || DrainReturned?
    }

    predicate Waiting() {
      Grace? || GraceOver? || AbortAll?
    }
  }

  // `took` is the join set as taken from the tracker, `left` what was not joined yet.
  datatype Call = Call(kind: Kind, took: set<nat>, left: set<nat>)

  // `tasks` are the accepted tasks in order; a rejected future is dropped and leaves no trace.
  datatype State = State(
    tasks: seq<Task>,
    shared: set<nat>,
    closed: bool,
    panics: nat,
    calls: seq<Call>,
    reaped: set<nat>)

  const INIT := State([], {}, false, 0, [], {})

  datatype Step =
    | Spawn(reap: set<nat>)
    | Close
    | StartDrain
    | StartAbortAll
    | Join(call: nat, task: nat)
    | GracePeriodEnds(call: nat)
    | Return(call: nat)
    | EndInner(task: nat, outcome: Inner)
    | Observe(task: nat)              // the supervisor sees how the inner task ended
    | DropSupervisor(task: nat)       // an aborted supervisor is dropped

  predicate Finished(s: State, ids: set<nat>) {
    forall t :: t in ids ==> t < |s.tasks| && s.tasks[t].Joinable()
  }

  predicate Enabled(s: State, step: Step) {
    match step
    case Spawn(reap) => reap <= s.shared && Finished(s, reap)
    case Close => true
    case StartDrain => true
    case StartAbortAll => true
    case Join(c, t) =>
      c < |s.calls| && s.calls[c].kind.Waiting() && t in s.calls[c].left && Finished(s, {t})
    case GracePeriodEnds(c) => c < |s.calls| && s.calls[c].kind.Grace? && s.calls[c].left != {}
    case Return(c) => c < |s.calls| && s.calls[c].kind.Waiting() && s.calls[c].left == {}
    case EndInner(t, outcome) =>
      t < |s.tasks| && s.tasks[t].inner == Running && outcome != Running
      && (outcome == Cancelled ==> s.tasks[t].innerAbort)
    case Observe(t) => t < |s.tasks| && s.tasks[t].supervisor == Watching && s.tasks[t].inner != Running
    case DropSupervisor(t) =>
      t < |s.tasks| && s.tasks[t].supervisor == Watching && s.tasks[t].supervisorAbort
  }

  /** `JoinSet::abort_all`: asks every listed supervisor to stop. */
  function RequestAborts(tasks: seq<Task>, ids: set<nat>): (r: seq<Task>)
    ensures |r| == |tasks|
    ensures forall t :: 0 <= t < |tasks| ==>
      r[t] == if t in ids then tasks[t].(supervisorAbort := true) else tasks[t]
  {
    seq(|tasks|, t requires 0 <= t < |tasks| =>
      if t in ids then tasks[t].(supervisorAbort := true) else tasks[t])
  }

  function Do(s: State, step: Step): State
    requires Enabled(s, step)
  {
    match step
    case Spawn(reap) =>
      if s.closed then s
      else s.(tasks := s.tasks + [Task(Running, false, Watching, false)],
              shared := s.shared - reap + {|s.tasks|}, reaped := s.reaped + reap)
    case Close => s.(closed := true)
    case StartDrain =>
      s.(closed := true, shared := {}, calls := s.calls + [Call(Grace, s.shared, s.shared)])
    case StartAbortAll =>
      s.(tasks := RequestAborts(s.tasks, s.shared), shared := {},
         calls := s.calls + [Call(AbortAll, s.shared, s.shared)])
    case Join(c, t) =>
      s.(calls := s.calls[c := s.calls[c].(left := s.calls[c].left - {t})], reaped := s.reaped + {t})
    case GracePeriodEnds(c) =>
      s.(tasks := RequestAborts(s.tasks, s.calls[c].left),
         calls := s.calls[c := s.calls[c].(kind := GraceOver(|s.calls[c].left|))])
    case Return(c) =>
      var kind := match s.calls[c].kind
        case Grace => DrainReturned(0)
        case GraceOver(n) => DrainReturned(n)
        case _ => AbortAllReturned;
      s.(calls := s.calls[c := s.calls[c].(kind := kind)])
    case EndInner(t, outcome) => s.(tasks := s.tasks[t := s.tasks[t].(inner := outcome)])
    case Observe(t) =>
      s.(tasks := s.tasks[t := s.tasks[t].(supervisor := Exited, innerAbort := true)],
         panics := s.panics + if s.tasks[t].inner == Panicked then 1 else 0)
    case DropSupervisor(t) =>
      s.(tasks := s.tasks[t := s.tasks[t].(supervisor := Dropped, innerAbort := true)])
  }

  ghost predicate Next(s: State, s': State) {
    exists step :: Enabled(s, step) && s' == Do(s, step)
  }

  ghost predicate IsRun(run: seq<State>) {
    && |run| > 0
    && run[0] == INIT
    && forall n :: 0 <= n < |run| - 1 ==> Next(run[n], run[n + 1])
  }

  lemma ExtendRun(run: seq<State>, step: Step) returns (longer: seq<State>)
    requires IsRun(run) && Enabled(run[|run| - 1], step)
    ensures longer == run + [Do(run[|run| - 1], step)] && IsRun(longer)
  {
    longer := run + [Do(run[|run| - 1], step)];
    forall n | 0 <= n < |longer| - 1
      ensures Next(longer[n], longer[n + 1])
    {
      if n < |run| - 1 {
        assert Next(run[n], run[n + 1]);
      }
    }
  }

  // ---------------------------------------------------------------- the invariant

  ghost predicate TaskOk(t: Task) {
    && (t.supervisor == Watching ==> !t.innerAbort)
    && (t.inner == Cancelled ==> t.supervisor == Dropped)
    && (t.supervisor == Exited ==> t.RanToItsEnd())
    && (t.supervisor == Dropped ==> t.supervisorAbort && t.innerAbort)
  }

  ghost predicate TasksOk(s: State) {
    forall t :: 0 <= t < |s.tasks| ==> TaskOk(s.tasks[t])
  }

  ghost predicate Ids(s: State, ids: set<nat>) {
    forall t :: t in ids ==> t < |s.tasks|
  }

  /** No task is in two places. */
  ghost predicate Disjoint(s: State) {
    && Ids(s, s.shared) && Ids(s, s.reaped) && s.shared !! s.reaped
    && (forall c :: 0 <= c < |s.calls| ==>
          Ids(s, s.calls[c].took) && s.calls[c].left <= s.calls[c].took
          && s.calls[c].took !! s.shared && s.calls[c].left !! s.reaped)
    && (forall c, d :: 0 <= c < d < |s.calls| ==> s.calls[c].took !! s.calls[d].took)
  }

  ghost predicate InSomeCall(s: State, t: nat) {
    exists c :: 0 <= c < |s.calls| && t in s.calls[c].left
  }

  /** Every task is somewhere. */
  ghost predicate Covered(s: State) {
    && (forall t :: 0 <= t < |s.tasks| ==> t in s.shared || t in s.reaped || InSomeCall(s, t))
    && (forall c, t :: 0 <= c < |s.calls| && t in s.calls[c].took ==>
          t in s.calls[c].left || t in s.reaped)
  }

  /** Only finished tasks were reaped, and only the tasks of an aborting call were aborted. */
  ghost predicate AbortsAccounted(s: State) {
    && Finished(s, s.reaped)
    && (forall t :: t in s.shared && t < |s.tasks| ==> !s.tasks[t].supervisorAbort)
    && (forall t :: 0 <= t < |s.tasks| && s.tasks[t].supervisorAbort ==> TakenToAbort(s, t))
    && (forall c :: 0 <= c < |s.calls| ==> CallOk(s, s.calls[c]))
  }

  ghost predicate TakenToAbort(s: State, t: nat) {
    exists c :: 0 <= c < |s.calls| && t in s.calls[c].took && s.calls[c].kind != Grace
                && s.calls[c].kind != DrainReturned(0)
  }

  function Aborted(s: State, ids: set<nat>): set<nat> {
    set t | t in ids && t < |s.tasks| && s.tasks[t].supervisorAbort
  }

  ghost predicate CallOk(s: State, call: Call) {
    && (call.kind.Grace? ==> Aborted(s, call.took) == {})
    && (call.kind.GraceOver? ==> |Aborted(s, call.took)| == call.kind.remaining > 0)
    && (call.kind.DrainReturned? ==> |Aborted(s, call.took)| == call.kind.aborted)
    && (!call.kind.Waiting() ==> call.left == {})
    && (call.kind.GraceOver? || call.kind.AbortAll? ==>
          forall t :: t in call.left && t < |s.tasks| ==> s.tasks[t].supervisorAbort)
  }

  /** Once a drain has started, the tracker is closed and the shared set stays empty. */
  ghost predicate DrainCloses(s: State) {
    forall c :: 0 <= c < |s.calls| && s.calls[c].kind.IsDrain() ==> s.closed && s.shared == {}
  }

  function CountPanics(tasks: seq<Task>): nat {
    if tasks == [] then 0
    else CountPanics(tasks[..|tasks| - 1]) + if tasks[|tasks| - 1].CountedPanic() then 1 else 0
  }

  ghost predicate Inv(s: State) {
    && TasksOk(s)
    && Disjoint(s)
    && Covered(s)
    && AbortsAccounted(s)
    && DrainCloses(s)
    && s.panics == CountPanics(s.tasks)
  }
}
