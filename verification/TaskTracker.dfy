/**
 `TaskTracker` as the object it is: a join set and a flag behind one lock, a panic counter,
 and calls that loop over a join set they moved out. The calls run among arbitrary steps of
 other threads and of the tasks, and are proved to take only steps of the protocol.
 */
module TaskTracker {
  import opened Common
  import opened TrackerProtocol
  import TrackerSafety

  // What a waiting call sees next.
  datatype Event =
    | Other(step: Step)       // somebody else's step
    | JoinNext(task: nat)     // `join_next` hands out a finished task
    | TimerFires

  /** Steps of call `c` itself. */
  predicate Own(step: Step, c: nat) {
    match step
    case Join(d, _) => d == c
    case GracePeriodEnds(d) => d == c
    case Return(d) => d == c
    case _ => false
  }

  function FinishedAmong(tasks: seq<Task>, ids: set<nat>): set<nat> {
    set t | t in ids && t < |tasks| && tasks[t].Joinable()
  }

  /** Only call `c` changes call `c`. */
  lemma OthersLeaveCall(s: State, step: Step, c: nat)
    requires Enabled(s, step) && c < |s.calls| && !Own(step, c)
    ensures c < |Do(s, step).calls| && Do(s, step).calls[c] == s.calls[c]
  {}

  /** Joined, and the inner task has ended or was asked to stop. */
  ghost predicate Stopped(s: State, ids: set<nat>) {
    forall t :: t in ids ==>
      && t in s.reaped && t < |s.tasks| && s.tasks[t].Joinable()
      && (s.tasks[t].inner != Running || s.tasks[t].innerAbort)
  }

  /** What a drain that returned says about the tasks it took. */
  ghost predicate Drained(s: State, took: set<nat>, aborted: nat) {
    && aborted == |Aborted(s, took)|
    && Stopped(s, took)
    && (aborted == 0 ==> forall t :: t in took && t < |s.tasks| ==> s.tasks[t].RanToItsEnd())
  }

  lemma DrainedAtReturn(run: seq<State>, c: nat)
    requires IsRun(run) && c < |run[|run| - 1].calls| && run[|run| - 1].calls[c].kind.DrainReturned?
    ensures var s := run[|run| - 1];
      Drained(s, s.calls[c].took, s.calls[c].kind.aborted)
  {
    var s := run[|run| - 1];
    TrackerSafety.RunKeepsInv(run, |run| - 1);
    TrackerSafety.DrainResult(run, |run| - 1, c);
    if |Aborted(s, s.calls[c].took)| == 0 {
      forall t | t in s.calls[c].took && t < |s.tasks|
        ensures s.tasks[t].RanToItsEnd()
      {
        assert t !in Aborted(s, s.calls[c].took);
      }
    }
  }

  /** An `abort_all` that is waiting or has returned has asked all its tasks to stop. */
  lemma AllAskedToStop(run: seq<State>, c: nat)
    requires IsRun(run) && c < |run[|run| - 1].calls|
    requires run[|run| - 1].calls[c].kind.AbortAll?
    ensures var s := run[|run| - 1];
      && (forall t :: t in s.calls[c].left && t < |s.tasks| ==> s.tasks[t].supervisorAbort)
      && Stopped(s, s.calls[c].took - s.calls[c].left)
      && s.calls[c].left <= s.calls[c].took && s.calls[c].left !! s.reaped
  {
    var s := run[|run| - 1];
    TrackerSafety.RunKeepsInv(run, |run| - 1);
    forall t | t in s.calls[c].took - s.calls[c].left
      ensures t in s.reaped && t < |s.tasks| && TaskOk(s.tasks[t])
    {}
  }

  /** What is left in a waiting call's set was not reaped by anybody. */
  lemma LeftNotReaped(run: seq<State>, c: nat)
    requires IsRun(run) && c < |run[|run| - 1].calls|
    ensures var s := run[|run| - 1];
      s.calls[c].left <= s.calls[c].took && s.calls[c].left !! s.reaped
  {
    TrackerSafety.RunKeepsInv(run, |run| - 1);
  }

  lemma DrainsKeepSharedEmpty(run: seq<State>, c: nat)
    requires IsRun(run) && c < |run[|run| - 1].calls| && run[|run| - 1].calls[c].kind.IsDrain()
    ensures run[|run| - 1].closed && run[|run| - 1].shared == {}
  {
    TrackerSafety.RunKeepsInv(run, |run| - 1);
  }

  class TaskTracker {
    var shared: set<nat>
    var closed: bool
    var panics: nat

    // The runtime's side: the tasks, the calls made, the tasks already joined.
    var tasks: seq<Task>
    var calls: seq<Call>
    var reaped: set<nat>

    // Every state so far: a run of the protocol.
    ghost var history: seq<State>

    function View(): State
      reads this
    {
      State(tasks, shared, closed, panics, calls, reaped)
    }

    ghost predicate Valid()
      reads this
    {
      IsRun(history) && history[|history| - 1] == View()
    }

    constructor ()
      ensures Valid() && View() == INIT
    {
      shared, closed, panics, tasks, calls, reaped := {}, false, 0, [], [], {};
      history := [INIT];
    }

    /** A step taken by somebody else. */
    method Perform(step: Step)
      requires Valid() && Enabled(View(), step)
      modifies this
      ensures Valid() && View() == Do(old(View()), step) && old(history) < history
    {
      var s := Do(View(), step);
      history := ExtendRun(history, step);
      tasks, shared, closed, panics, calls, reaped := s.tasks, s.shared, s.closed, s.panics, s.calls, s.reaped;
    }

    /** Moves everything finished out of the shared set. */
    method Reap()
      modifies this`shared, this`reaped
      ensures var ready := FinishedAmong(tasks, old(shared));
        shared == old(shared) - ready && reaped == old(reaped) + ready
    {
      ghost var all := shared;
      while exists t :: t in shared && t < |tasks| && tasks[t].Joinable()
        invariant shared <= all && reaped == old(reaped) + (all - shared)
        invariant all - shared <= FinishedAmong(tasks, all)
        decreases shared
      {
        var t :| t in shared && t < |tasks| && tasks[t].Joinable();
        shared, reaped := shared - {t}, reaped + {t};
      }
      assert all - shared == FinishedAmong(tasks, all);
    }

    /** Refused exactly when closed; otherwise first reaps everything that has finished. */
    method Spawn() returns (accepted: bool)
      requires Valid()
      modifies this
      ensures Valid() && old(history) < history
      ensures accepted == !old(closed)
      ensures View() == Do(old(View()), Step.Spawn(FinishedAmong(old(tasks), old(shared))))
      ensures accepted ==> FinishedAmong(tasks, shared) == {}
      ensures closed == old(closed) && panics == old(panics) && calls == old(calls)
      ensures tasks == if accepted then old(tasks) + [Task(Running, false, Watching, false)] else old(tasks)
      ensures accepted ==> |old(tasks)| in shared
    {
      history := ExtendRun(history, Step.Spawn(FinishedAmong(tasks, shared)));
      if closed {
        return false;
      }
      Reap();
      shared := shared + {|tasks|};
      tasks := tasks + [Task(Running, false, Watching, false)];
      return true;
    }

    method Close()
      requires Valid()
      modifies this`closed, this`history
      ensures Valid() && old(history) < history && View() == Do(old(View()), Step.Close)
      ensures closed && View() == old(View()).(closed := true)
    {
      history := ExtendRun(history, Step.Close);
      closed := true;
    }

    /** `drain`'s lock region: close, and move the join set out. */
    method BeginDrain() returns (c: nat)
      requires Valid()
      modifies this
      ensures Valid() && old(history) < history && View() == Do(old(View()), StartDrain)
      ensures c == |old(calls)| && calls[c] == Call(Grace, old(shared), old(shared))
      ensures closed && shared == {} && tasks == old(tasks) && panics == old(panics) && reaped == old(reaped)
    {
      c := |calls|;
      history := ExtendRun(history, StartDrain);
      closed, calls := true, calls + [Call(Grace, shared, shared)];
      shared := {};
    }

    /** `abort_all`'s lock region: ask every task to stop, and move the join set out. */
    method BeginAbortAll() returns (c: nat)
      requires Valid()
      modifies this
      ensures Valid() && old(history) < history && View() == Do(old(View()), StartAbortAll)
      ensures c == |old(calls)| && calls[c] == Call(Kind.AbortAll, old(shared), old(shared))
      ensures closed == old(closed) && shared == {} && panics == old(panics) && reaped == old(reaped)
      ensures |tasks| == |old(tasks)| && forall t :: 0 <= t < |tasks| ==>
        tasks[t] == if t in old(shared) then old(tasks)[t].(supervisorAbort := true) else old(tasks)[t]
    {
      c := |calls|;
      history := ExtendRun(history, StartAbortAll);
      tasks, calls := RequestAborts(tasks, shared), calls + [Call(Kind.AbortAll, shared, shared)];
      shared := {};
    }

    /** One event while call `c` waits; an event that cannot happen is passed over. */
    method Wait(event: Event, c: nat)
      requires Valid() && c < |calls| && calls[c].kind.Waiting()
      modifies this
      ensures Valid() && old(history) <= history && c < |calls|
      ensures calls[c] == old(calls[c]).(left := calls[c].left)
      ensures calls[c].left == match event
        case JoinNext(t) => if old(Enabled(View(), Join(c, t))) then old(calls[c].left) - {t} else old(calls[c].left)
        case _ => old(calls[c].left)
    {
      match event {
        case Other(step) =>
          if Enabled(View(), step) && !Own(step, c) {
            OthersLeaveCall(View(), step, c);
            Perform(step);
          }
        case JoinNext(t) =>
          if Enabled(View(), Join(c, t)) {
            Perform(Join(c, t));
          }
        case TimerFires =>
      }
    }

    /**
     Waits, from event `from` on, until the join set of call `c` is empty; with `timed`, the
     timer also ends the wait.
     */
    method JoinLoop(events: seq<Event>, from: nat, c: nat, timed: bool) returns (next: nat)
      requires Valid() && from <= |events| && c < |calls| && calls[c].kind.Waiting()
      modifies this
      ensures Valid() && old(history) <= history && from <= next <= |events|
      ensures c < |calls| && calls[c] == old(calls[c]).(left := calls[c].left)
      ensures calls[c].left == {} || next == |events| || (timed && events[next].TimerFires?)
    {
      next := from;
      while calls[c].left != {} && next < |events| && !(timed && events[next].TimerFires?)
        invariant Valid() && old(history) <= history && from <= next <= |events|
        invariant c < |calls| && calls[c] == old(calls[c]).(left := calls[c].left)
        decreases |events| - next
      {
        Wait(events[next], c);
        next := next + 1;
      }
    }

    /** The whole call among any `events`; `None` when they end before it can return. */
    method Drain(events: seq<Event>) returns (r: Option<nat>)
      requires Valid()
      modifies this
      ensures Valid() && old(history) < history
      ensures closed && shared == {}
      ensures r.Some? ==> Drained(View(), old(shared), r.value)
      ensures r.None? ==> exists t :: t in old(shared) && t !in reaped
    {
      var c := BeginDrain();
      var next := JoinLoop(events, 0, c, true);
      var remaining := |calls[c].left|;
      if calls[c].left != {} && next < |events| {
        Perform(GracePeriodEnds(c));
        next := JoinLoop(events, next + 1, c, false);
      }
      if calls[c].left == {} {
        Perform(Return(c));
        DrainedAtReturn(history, c);
        r := Some(remaining);
      } else {
        LeftNotReaped(history, c);
        r := None;
      }
      DrainsKeepSharedEmpty(history, c);
    }

    /** Aborts the tasks it takes and waits for them; the tracker stays as open as it was. */
    method AbortAll(events: seq<Event>) returns (returned: bool)
      requires Valid()
      modifies this
      ensures Valid() && old(history) < history
      ensures returned <==> old(shared) <= reaped
      ensures returned ==> Stopped(View(), old(shared))
      ensures forall t :: t in old(shared) && t !in reaped && t < |tasks| ==> tasks[t].supervisorAbort
    {
      var c := BeginAbortAll();
      var _ := JoinLoop(events, 0, c, false);
      returned := calls[c].left == {};
      AllAskedToStop(history, c);
      if returned {
        assert old(shared) - calls[c].left == old(shared);
        Perform(Return(c));
      }
    }
  }
}
