/**
 What the cooldown protocol guarantees in every interleaving, key by key. Some guarantees
 hold in every run. That at most one alert of a key is under way holds as long as no attempt
 of that key outlives its own cooldown, and the runs at the end show what happens otherwise.
 */
module AlertSafety {
  import opened Common
  import opened AlertProtocol

  /** The event that last settled `k` in `last_alerts`, if any. */
  function LastSettle(log: seq<Event>, k: Key): (r: Option<Event>)
    ensures r.Some? ==> r.value in log && r.value.Settled? && r.value.key == k
  {
    if log == [] then None
    else
      var e := log[|log| - 1];
      if e.Settled? && e.key == k then Some(e) else LastSettle(log[..|log| - 1], k)
  }

  /** The last event of `k`: a reservation or a settling. */
  function LastEvent(log: seq<Event>, k: Key): (r: Option<Event>)
    ensures r.Some? ==> r.value in log && r.value.key == k
    ensures r.Some? && r.value.Settled? ==> r == LastSettle(log, k)
    ensures r.None? ==> LastSettle(log, k).None?
  {
    if log == [] then None
    else if log[|log| - 1].key == k then Some(log[|log| - 1])
    else LastEvent(log[..|log| - 1], k)
  }

  lemma LastAppend(log: seq<Event>, e: Event, k: Key)
    ensures LastSettle(log + [e], k) == if e.Settled? && e.key == k then Some(e) else LastSettle(log, k)
    ensures LastEvent(log + [e], k) == if e.key == k then Some(e) else LastEvent(log, k)
  {
    assert (log + [e])[..|log|] == log;
  }

  predicate InFlight(s: State, i: nat, k: Key) {
    i < |s.attempts| && s.attempts[i].key == k && s.attempts[i].phase.InFlight()
  }

  predicate Overdue(c: Config, s: State, i: nat)
    requires i < |s.attempts|
  {
    s.attempts[i].timestamp + c.Cooldown() <= s.now
  }

  /** What no step changes about the attempts. */
  lemma StepKeepsAttempts(c: Config, s: State, step: Step)
    requires Enabled(c, s, step)
    ensures var s' := Do(c, s, step);
      && s.now <= s'.now && |s.attempts| <= |s'.attempts|
      && (forall j :: 0 <= j < |s.attempts| ==>
            s'.attempts[j] == s.attempts[j].(phase := s'.attempts[j].phase))
      && (forall j :: 0 <= j < |s.attempts| && !(step.Advance? && step.id == j) ==>
            s'.attempts[j] == s.attempts[j])
      && (forall j :: |s.attempts| <= j < |s'.attempts| ==> s'.attempts[j].phase == Built)
  {
    if step.Advance? {
      AdvanceTouchesOne(c, s, step.id, step.failures);
    }
  }

  // ---------------------------------------------------------------- in every run

  ghost predicate ClockAhead(s: State) {
    && (forall i :: 0 <= i < |s.attempts| ==> s.attempts[i].timestamp <= s.now)
    && (forall k :: k in s.failed ==> s.failed[k] <= s.now)
    && (forall e :: e in s.log && e.Settled? ==> e.timestamp <= s.now)
  }

  /** The last event of `k` decides what `last_alerts` says about it. */
  ghost predicate LastDecided(s: State, k: Key) {
    match LastEvent(s.log, k)
    case None => k !in s.last
    case Some(Reserved(i, _, _)) => InFlight(s, i, k) && k in s.last && s.last[k] == s.attempts[i].timestamp
    case Some(Settled(_, _, t, delivered)) => if delivered then k in s.last && s.last[k] == t else k !in s.last
  }

  /** Whether the attempt has released its reservation but not yet recorded its failure. */
  ghost predicate FailurePending(s: State, i: nat, k: Key) {
    i < |s.attempts| && s.attempts[i].key == k
    && (s.attempts[i].phase == BetweenRegions(false) || s.attempts[i].phase == InSecondRegion(false))
  }

  /** Whether the attempt has cleared the failure but not yet recorded its delivery. */
  ghost predicate DeliveryPending(s: State, i: nat, k: Key) {
    i < |s.attempts| && s.attempts[i].key == k
    && (s.attempts[i].phase == BetweenRegions(true) || s.attempts[i].phase == InSecondRegion(true))
  }

  /** A failure that was the last to settle `k` is recorded, unless somebody is still at it. */
  ghost predicate FailureRecorded(s: State, k: Key) {
    var settle := LastSettle(s.log, k);
    settle.Some? && !settle.value.delivered ==>
      k in s.failed || FailurePending(s, settle.value.id, k) || exists i: nat :: DeliveryPending(s, i, k)
  }

  lemma AdvanceKeepsClockAhead(c: Config, s: State, i: nat, failures: nat)
    requires ClockAhead(s) && Enabled(c, s, Advance(i, failures))
    ensures ClockAhead(AdvanceOne(c, s, i, failures))
  {
  }

  /** An action that reserves or settles: the three writes of `last_alerts`, each with its event. */
  ghost predicate WritesLast(s: State, i: nat, a: Action)
    requires i < |s.attempts|
  {
    var k, t, phase := s.attempts[i].key, s.attempts[i].timestamp, s.attempts[i].phase;
    || (phase.Passed() && a.phase.InFlight() && a.log == s.log + [Reserved(i, k, s.now)] && a.last == s.last[k := t])
    || (phase.InFlight() && a.phase == BetweenRegions(false)
        && a.log == s.log + [Settled(i, k, t, false)] && a.last == s.last - {k})
    || (phase.InFlight() && a.phase == Finished(true)
        && a.log == s.log + [Settled(i, k, t, true)] && a.last == s.last[k := t])
  }

  ghost predicate KeepsLast(s: State, i: nat, a: Action)
    requires i < |s.attempts|
  {
    a.log == s.log && a.last == s.last && a.phase.InFlight() == s.attempts[i].phase.InFlight()
  }

  lemma ActionWritesLast(c: Config, s: State, i: nat, failures: nat)
    requires Enabled(c, s, Advance(i, failures))
    ensures var a := NextAction(c, s, i, failures);
      KeepsLast(s, i, a) || WritesLast(s, i, a)
  {
  }

  lemma ApplyKeepsLastDecided(s: State, i: nat, a: Action, k: Key)
    requires LastDecided(s, k) && i < |s.attempts| && (KeepsLast(s, i, a) || WritesLast(s, i, a))
    ensures LastDecided(Apply(s, i, a), k)
  {
    if WritesLast(s, i, a) {
      var e := WriteAppends(s, i, a);
      LastAppend(s.log, e, k);
      if s.attempts[i].key == k {
        WriteDecides(s, i, a, e);
      } else {
        OthersLeaveLast(s, i, a, k);
      }
    } else {
      OthersLeaveLast(s, i, a, k);
    }
  }

  lemma WriteAppends(s: State, i: nat, a: Action) returns (e: Event)
    requires i < |s.attempts| && WritesLast(s, i, a)
    ensures a.log == s.log + [e] && e.key == s.attempts[i].key
  {
    e := a.log[|s.log|];
  }

  /** Whoever writes `last_alerts` decides it. */
  lemma WriteDecides(s: State, i: nat, a: Action, e: Event)
    requires i < |s.attempts| && WritesLast(s, i, a) && a.log == s.log + [e]
    requires LastEvent(a.log, s.attempts[i].key) == Some(e)
    ensures LastDecided(Apply(s, i, a), s.attempts[i].key)
  {
    assert e.Reserved? ==> InFlight(Apply(s, i, a), i, s.attempts[i].key);
  }

  /** Without an event of `k`, what was decided about it stays so. */
  lemma OthersLeaveLast(s: State, i: nat, a: Action, k: Key)
    requires LastDecided(s, k) && i < |s.attempts| && LastEvent(a.log, k) == LastEvent(s.log, k)
    requires KeepsLast(s, i, a) || (WritesLast(s, i, a) && s.attempts[i].key != k)
    ensures LastDecided(Apply(s, i, a), k)
  {
    var s' := Apply(s, i, a);
    assert k in s'.last <==> k in s.last;
    assert k in s.last ==> s'.last[k] == s.last[k];
    forall j: nat | InFlight(s, j, k)
      ensures InFlight(s', j, k) && s'.attempts[j].timestamp == s.attempts[j].timestamp
    {
      assert j != i ==> s'.attempts[j] == s.attempts[j];
    }
  }

  /** What an action does to the record of failures. */
  ghost predicate WritesFailed(s: State, i: nat, a: Action)
    requires i < |s.attempts|
  {
    var k, phase := s.attempts[i].key, s.attempts[i].phase;
    && (forall l :: l != k ==> (l in a.failed <==> l in s.failed))
    && (k in s.failed && k !in a.failed ==> a.phase == BetweenRegions(true))
    && (phase == BetweenRegions(true) ==> a.phase == InSecondRegion(true))
    && (phase == InSecondRegion(true) ==> a.phase == Finished(true) && a.log != s.log)
    && (phase == BetweenRegions(false) ==> a.phase == InSecondRegion(false))
    && (phase == InSecondRegion(false) ==> k in a.failed)
  }

  lemma ActionWritesFailed(c: Config, s: State, i: nat, failures: nat)
    requires Enabled(c, s, Advance(i, failures))
    ensures WritesFailed(s, i, NextAction(c, s, i, failures))
  {
  }

  lemma ApplyKeepsFailureRecorded(s: State, i: nat, a: Action, k: Key)
    requires FailureRecorded(s, k) && i < |s.attempts| && WritesFailed(s, i, a)
    requires KeepsLast(s, i, a) || WritesLast(s, i, a)
    ensures FailureRecorded(Apply(s, i, a), k)
  {
    var s' := Apply(s, i, a);
    var settle, settle' := LastSettle(s.log, k), LastSettle(a.log, k);
    if WritesLast(s, i, a) {
      var e := WriteAppends(s, i, a);
      LastAppend(s.log, e, k);
    }
    if settle'.Some? && !settle'.value.delivered {
      if settle' != settle {
        assert FailurePending(s', i, k);
      } else if a.phase == BetweenRegions(true) && s.attempts[i].key == k {
        assert DeliveryPending(s', i, k);
      } else if k !in s.failed {
        PendingCarries(s, i, a, k, settle.value.id);
      }
    }
  }

  /** Whoever is about to write `failed_alerts`, or has just cleared it, stays so or writes. */
  lemma PendingCarries(s: State, i: nat, a: Action, k: Key, failed: nat)
    requires i < |s.attempts| && WritesFailed(s, i, a) && LastSettle(a.log, k) == LastSettle(s.log, k)
    requires LastSettle(s.log, k).Some? && !LastSettle(s.log, k).value.delivered
    requires KeepsLast(s, i, a) || WritesLast(s, i, a)
    requires FailurePending(s, failed, k) || exists j: nat :: DeliveryPending(s, j, k)
    ensures var s' := Apply(s, i, a);
      k in s'.failed || FailurePending(s', failed, k) || exists j: nat :: DeliveryPending(s', j, k)
  {
    var s' := Apply(s, i, a);
    if FailurePending(s, failed, k) {
      assert failed != i ==> s'.attempts[failed] == s.attempts[failed];
    } else {
      var j: nat :| DeliveryPending(s, j, k);
      assert j != i ==> s'.attempts[j] == s.attempts[j];
      if j == i && s.attempts[i].phase == InSecondRegion(true) {
        LastAppend(s.log, a.log[|s.log|], k);
      }
      assert DeliveryPending(s', j, k);
    }
  }

  /** Every run keeps the maps in agreement with the log, key by key. */
  lemma {:induction false} RunKeepsRecords(c: Config, run: seq<State>, n: nat, k: Key)
    requires IsRun(c, run) && n < |run|
    ensures ClockAhead(run[n]) && LastDecided(run[n], k) && FailureRecorded(run[n], k)
  {
    if n > 0 {
      RunKeepsRecords(c, run, n - 1, k);
      assert Next(c, run[n - 1], run[n - 1 + 1]);
      var step :| Enabled(c, run[n - 1], step) && run[n] == Do(c, run[n - 1], step);
      match step
      case Advance(i, failures) =>
        AdvanceKeepsClockAhead(c, run[n - 1], i, failures);
        ActionWritesLast(c, run[n - 1], i, failures);
        ActionWritesFailed(c, run[n - 1], i, failures);
        ApplyKeepsLastDecided(run[n - 1], i, NextAction(c, run[n - 1], i, failures), k);
        ApplyKeepsFailureRecorded(run[n - 1], i, NextAction(c, run[n - 1], i, failures), k);
      case _ =>
        IdleKeepsRecords(c, run[n - 1], step, k);
    }
  }

  lemma IdleKeepsRecords(c: Config, s: State, step: Step, k: Key)
    requires ClockAhead(s) && LastDecided(s, k) && FailureRecorded(s, k) && !step.Advance?
    ensures var s' := Do(c, s, step);
      ClockAhead(s') && LastDecided(s', k) && FailureRecorded(s', k)
  {
    if i: nat :| DeliveryPending(s, i, k) {
      assert DeliveryPending(Do(c, s, step), i, k);
    }
  }

  /** No call about `k` is under way. */
  ghost predicate AtRest(s: State, k: Key) {
    forall i :: 0 <= i < |s.attempts| && s.attempts[i].key == k ==> s.attempts[i].phase.Done()
  }

  /** When no call about a key is under way, the maps say how it was last settled. */
  lemma RestingMapsAreExact(c: Config, run: seq<State>, n: nat, k: Key)
    requires IsRun(c, run) && n < |run| && AtRest(run[n], k)
    ensures var s := run[n];
      var settle := LastSettle(s.log, k);
      && (k in s.last <==> settle.Some? && settle.value.delivered)
      && (k in s.last ==> s.last[k] == settle.value.timestamp <= s.now)
      && (settle.Some? && !settle.value.delivered ==> k in s.failed && s.failed[k] <= s.now)
  {
    RunKeepsRecords(c, run, n, k);
    assert forall i: nat :: !InFlight(run[n], i, k) && !DeliveryPending(run[n], i, k);
    assert forall i: nat :: !FailurePending(run[n], i, k);
  }

  // ---------------------------------------------------------------- one attempt per key

  ghost predicate OneInFlight(s: State, k: Key) {
    forall i: nat, j: nat :: InFlight(s, i, k) && InFlight(s, j, k) ==> i == j
  }

  /** `last_alerts` holds the timestamp of the attempt in flight. */
  ghost predicate Reserving(s: State, k: Key) {
    forall i: nat :: InFlight(s, i, k) ==> k in s.last && s.last[k] == s.attempts[i].timestamp
  }

  predicate Passed(s: State, i: nat, k: Key) {
    i < |s.attempts| && s.attempts[i].key == k && s.attempts[i].phase.Passed()
  }

  /** Only an overdue attempt lets another one pass the cooldown check. */
  ghost predicate PassedOverdue(c: Config, s: State, k: Key) {
    forall i: nat, j: nat :: Passed(s, i, k) && InFlight(s, j, k) ==> Overdue(c, s, j)
  }

  ghost predicate Exclusive(c: Config, s: State, k: Key) {
    OneInFlight(s, k) && Reserving(s, k) && PassedOverdue(c, s, k)
  }

  ghost predicate NoOverlap(run: seq<State>, n: nat, k: Key)
    requires n <= |run|
  {
    forall m :: 0 <= m < n ==> OneInFlight(run[m], k)
  }

  lemma EntersFlightOnlyByReserving(c: Config, s: State, step: Step, i: nat, k: Key)
    requires Enabled(c, s, step) && InFlight(Do(c, s, step), i, k)
    ensures InFlight(s, i, k)
      || (step.Advance? && step.id == i && Passed(s, i, k) && s.attempts[i].phase.HoldsLast())
  {
    StepKeepsAttempts(c, s, step);
  }

  lemma StepKeepsReserving(c: Config, s: State, step: Step, k: Key)
    requires Exclusive(c, s, k) && Enabled(c, s, step) && OneInFlight(Do(c, s, step), k)
    ensures Reserving(Do(c, s, step), k)
  {
    var s' := Do(c, s, step);
    forall j: nat | InFlight(s', j, k)
      ensures k in s'.last && s'.last[k] == s'.attempts[j].timestamp
    {
      StepKeepsAttempts(c, s, step);
      EntersFlightOnlyByReserving(c, s, step, j, k);
      if step.Advance? {
        ActionWritesLast(c, s, step.id, step.failures);
        if step.id != j {
          assert !InFlight(s, step.id, k) && !InFlight(s', step.id, k);
          OthersLeaveReservation(s, step.id, NextAction(c, s, step.id, step.failures), k);
        } else {
          OwnReservation(s, j, NextAction(c, s, j, step.failures), k);
        }
      }
    }
  }

  lemma OthersLeaveReservation(s: State, i: nat, a: Action, k: Key)
    requires i < |s.attempts| && (KeepsLast(s, i, a) || WritesLast(s, i, a))
    requires !InFlight(s, i, k) && !InFlight(Apply(s, i, a), i, k)
    ensures k in a.last <==> k in s.last
    ensures k in s.last ==> a.last[k] == s.last[k]
  {
    assert s.attempts[i].key == k ==> a.last == s.last;
  }

  lemma OwnReservation(s: State, i: nat, a: Action, k: Key)
    requires i < |s.attempts| && (KeepsLast(s, i, a) || WritesLast(s, i, a))
    requires Reserving(s, k) && InFlight(Apply(s, i, a), i, k)
    ensures k in a.last && a.last[k] == s.attempts[i].timestamp
  {
    assert KeepsLast(s, i, a) ==> InFlight(s, i, k);
  }

  lemma StepKeepsPassedOverdue(c: Config, s: State, step: Step, k: Key, i: nat, j: nat)
    requires LocksAgree(s) && Exclusive(c, s, k) && Enabled(c, s, step)
    requires Passed(Do(c, s, step), i, k) && InFlight(Do(c, s, step), j, k)
    ensures Overdue(c, Do(c, s, step), j)
  {
    var s' := Do(c, s, step);
    StepKeepsAttempts(c, s, step);
    EntersFlightOnlyByReserving(c, s, step, j, k);
    // Whoever has passed the check holds last_alerts, so nobody else reserves meanwhile.
    assert s.attempts[i].phase.HoldsLast() && s.lastLock == Some(i);
    assert InFlight(s, j, k);
    if !Passed(s, i, k) {
      assert !InCooldown(c, s.last, k, s.now);
    }
  }

  lemma StepKeepsExclusive(c: Config, s: State, step: Step, k: Key)
    requires LocksAgree(s) && Exclusive(c, s, k) && Enabled(c, s, step) && OneInFlight(Do(c, s, step), k)
    ensures Exclusive(c, Do(c, s, step), k)
  {
    var s' := Do(c, s, step);
    StepKeepsReserving(c, s, step, k);
    forall i: nat, j: nat | Passed(s', i, k) && InFlight(s', j, k) ensures Overdue(c, s', j) {
      StepKeepsPassedOverdue(c, s, step, k, i, j);
    }
  }

  lemma {:induction false} NoOverlapKeepsExclusive(c: Config, run: seq<State>, n: nat, k: Key)
    requires IsRun(c, run) && n < |run| && NoOverlap(run, n + 1, k)
    ensures Exclusive(c, run[n], k)
  {
    if n > 0 {
      NoOverlapKeepsExclusive(c, run, n - 1, k);
      RunKeepsLocks(c, run, n - 1);
      assert Next(c, run[n - 1], run[n - 1 + 1]);
      var step :| Enabled(c, run[n - 1], step) && run[n] == Do(c, run[n - 1], step);
      StepKeepsExclusive(c, run[n - 1], step, k);
    }
  }

  /** In every run, the first overlap of two attempts of a key is entered past an overdue one. */
  lemma FirstOverlapPassesOverdue(c: Config, run: seq<State>, n: nat, k: Key, i: nat, j: nat)
    requires IsRun(c, run) && n < |run| && NoOverlap(run, n, k)
    requires i != j && InFlight(run[n], i, k) && InFlight(run[n], j, k)
    ensures n > 0
    ensures (InFlight(run[n - 1], i, k) && Overdue(c, run[n - 1], i))
         || (InFlight(run[n - 1], j, k) && Overdue(c, run[n - 1], j))
  {
    assert n > 0;
    var s := run[n - 1];
    NoOverlapKeepsExclusive(c, run, n - 1, k);
    assert Next(c, s, run[n - 1 + 1]);
    var step :| Enabled(c, s, step) && run[n] == Do(c, s, step);
    EntersFlightOnlyByReserving(c, s, step, i, k);
    EntersFlightOnlyByReserving(c, s, step, j, k);
    assert !(InFlight(s, i, k) && InFlight(s, j, k));
  }

  /** No attempt of `k` was in flight and overdue before the `n`th state. */
  ghost predicate TimelyBefore(c: Config, run: seq<State>, n: nat, k: Key)
    requires n <= |run|
  {
    forall m, i: nat :: 0 <= m < n && InFlight(run[m], i, k) ==> !Overdue(c, run[m], i)
  }

  lemma {:induction false} TimelyMeansNoOverlap(c: Config, run: seq<State>, n: nat, k: Key)
    requires IsRun(c, run) && n < |run| && TimelyBefore(c, run, n, k)
    ensures NoOverlap(run, n + 1, k)
  {
    if n > 0 {
      TimelyMeansNoOverlap(c, run, n - 1, k);
    }
    forall i: nat, j: nat | InFlight(run[n], i, k) && InFlight(run[n], j, k) ensures i == j {
      if i != j {
        FirstOverlapPassesOverdue(c, run, n, k, i, j);
      }
    }
  }

  /**
   At most one attempt per key is between reserving and settling, and its timestamp is
   stored, as long as the attempts of this key were timely before.
   */
  lemma AtMostOneInFlight(c: Config, run: seq<State>, n: nat, k: Key, i: nat, j: nat)
    requires IsRun(c, run) && n < |run| && TimelyBefore(c, run, n, k)
    requires InFlight(run[n], i, k) && InFlight(run[n], j, k)
    ensures i == j
    ensures k in run[n].last && run[n].last[k] == run[n].attempts[i].timestamp
  {
    TimelyMeansNoOverlap(c, run, n, k);
    NoOverlapKeepsExclusive(c, run, n, k);
  }

  /** In every run, an overlap needs an attempt of the same key that was overdue in flight. */
  lemma OverlapNeedsOverdue(c: Config, run: seq<State>, n: nat, k: Key, i: nat, j: nat)
    requires IsRun(c, run) && n < |run|
    requires i != j && InFlight(run[n], i, k) && InFlight(run[n], j, k)
    ensures exists m, x: nat :: 0 <= m < n && InFlight(run[m], x, k) && Overdue(c, run[m], x)
  {
    if TimelyBefore(c, run, n, k) {
      AtMostOneInFlight(c, run, n, k, i, j);
    }
  }

  // ---------------------------------------------------------------- spacing of deliveries

  predicate DeliveryOf(e: Event, k: Key) {
    e.Settled? && e.delivered && e.key == k
  }

  /** The cooldown that a delivery started is over, or `last_alerts` still records it. */
  ghost predicate Guarded(c: Config, s: State, k: Key, t: Instant) {
    || t + c.Cooldown() <= s.now
    || (k in s.last && s.last[k] == t && forall i: nat :: !InFlight(s, i, k))
  }

  ghost predicate DeliveriesGuarded(c: Config, s: State, k: Key) {
    && (forall e :: e in s.log && DeliveryOf(e, k) ==> Guarded(c, s, k, e.timestamp))
    && (forall i: nat, e :: Passed(s, i, k) && e in s.log && DeliveryOf(e, k) ==> e.timestamp + c.Cooldown() <= s.now)
  }

  /** No reservation follows a delivery of the same key within its cooldown. */
  ghost predicate Spaced(c: Config, log: seq<Event>, k: Key) {
    forall m, n :: (0 <= m < n < |log| && DeliveryOf(log[m], k) && log[n].Reserved? && log[n].key == k) ==>
      log[m].timestamp + c.Cooldown() <= log[n].at
  }

  lemma StepKeepsGuarded(c: Config, s: State, step: Step, k: Key, e: Event)
    requires Exclusive(c, s, k) && DeliveriesGuarded(c, s, k)
    requires Enabled(c, s, step) && e in Do(c, s, step).log && DeliveryOf(e, k)
    ensures Guarded(c, Do(c, s, step), k, e.timestamp)
  {
    StepKeepsAttempts(c, s, step);
    if step.Advance? {
      ActionWritesLast(c, s, step.id, step.failures);
      ApplyKeepsGuarded(c, s, step.id, NextAction(c, s, step.id, step.failures), k, e);
    } else {
      assert forall i: nat :: InFlight(Do(c, s, step), i, k) ==> InFlight(s, i, k);
      assert Guarded(c, s, k, e.timestamp);
    }
  }

  lemma ApplyKeepsGuarded(c: Config, s: State, i: nat, a: Action, k: Key, e: Event)
    requires Exclusive(c, s, k) && DeliveriesGuarded(c, s, k) && i < |s.attempts|
    requires KeepsLast(s, i, a) || WritesLast(s, i, a)
    requires e in a.log && DeliveryOf(e, k)
    ensures Guarded(c, Apply(s, i, a), k, e.timestamp)
  {
    var s' := Apply(s, i, a);
    assert forall j: nat :: j != i ==> (InFlight(s, j, k) <==> InFlight(s', j, k));
    if e in s.log {
      assert Guarded(c, s, k, e.timestamp);
      assert s.attempts[i].key == k && s.attempts[i].phase.InFlight() ==> InFlight(s, i, k);
      assert s.attempts[i].key == k && s.attempts[i].phase.Passed() ==> Passed(s, i, k);
    } else {
      assert InFlight(s, i, k) && !InFlight(s', i, k);
    }
  }

  lemma StepKeepsPassedClear(c: Config, s: State, step: Step, k: Key, i: nat, e: Event)
    requires LocksAgree(s) && DeliveriesGuarded(c, s, k) && Enabled(c, s, step)
    requires Passed(Do(c, s, step), i, k) && e in Do(c, s, step).log && DeliveryOf(e, k)
    ensures e.timestamp + c.Cooldown() <= Do(c, s, step).now
  {
    PassedHoldsLast(c, s, step, i, k);
    assert Guarded(c, s, k, e.timestamp);
    StepKeepsAttempts(c, s, step);
  }

  lemma StepKeepsSpaced(c: Config, s: State, step: Step, k: Key)
    requires DeliveriesGuarded(c, s, k) && Spaced(c, s.log, k) && Enabled(c, s, step)
    ensures Spaced(c, Do(c, s, step).log, k)
  {
    var log' := Do(c, s, step).log;
    if step.Advance? {
      ActionWritesLast(c, s, step.id, step.failures);
    }
    forall m, n | 0 <= m < n < |log'| && DeliveryOf(log'[m], k) && log'[n].Reserved? && log'[n].key == k
      ensures log'[m].timestamp + c.Cooldown() <= log'[n].at
    {
      assert log'[m] == s.log[m] && s.log[m] in s.log;
      if n < |s.log| {
        assert log'[n] == s.log[n];
      } else {
        assert Passed(s, step.id, k) && log'[n].at == s.now;
      }
    }
  }

  lemma {:induction false} NoOverlapKeepsSpaced(c: Config, run: seq<State>, n: nat, k: Key)
    requires IsRun(c, run) && n < |run| && NoOverlap(run, n + 1, k)
    ensures DeliveriesGuarded(c, run[n], k) && Spaced(c, run[n].log, k)
  {
    if n > 0 {
      var s, s' := run[n - 1], run[n];
      NoOverlapKeepsSpaced(c, run, n - 1, k);
      NoOverlapKeepsExclusive(c, run, n - 1, k);
      RunKeepsLocks(c, run, n - 1);
      assert Next(c, s, run[n - 1 + 1]);
      var step :| Enabled(c, s, step) && s' == Do(c, s, step);
      StepKeepsSpaced(c, s, step, k);
      forall e | e in s'.log && DeliveryOf(e, k) ensures Guarded(c, s', k, e.timestamp) {
        StepKeepsGuarded(c, s, step, k, e);
      }
      forall i: nat, e | Passed(s', i, k) && e in s'.log && DeliveryOf(e, k)
        ensures e.timestamp + c.Cooldown() <= s'.now
      {
        StepKeepsPassedClear(c, s, step, k, i, e);
      }
    }
  }

  /**
   Once an alert was delivered, nobody reserves its key again before the cooldown is over,
   as long as the attempts of this key were timely before.
   */
  lemma DeliveredAlertsAreSpaced(c: Config, run: seq<State>, n: nat, k: Key, d: nat, r: nat)
    requires IsRun(c, run) && n < |run| && TimelyBefore(c, run, n, k)
    requires d < r < |run[n].log| && DeliveryOf(run[n].log[d], k)
    requires run[n].log[r].Reserved? && run[n].log[r].key == k
    ensures run[n].log[d].timestamp + c.Cooldown() <= run[n].log[r].at
  {
    TimelyMeansNoOverlap(c, run, n, k);
    NoOverlapKeepsSpaced(c, run, n, k);
  }

  /** In every run, an early reservation needs an attempt of the same key that was overdue in flight. */
  lemma EarlyReservationNeedsOverdue(c: Config, run: seq<State>, n: nat, k: Key, d: nat, r: nat)
    requires IsRun(c, run) && n < |run|
    requires EarlyAfter(c, run[n].log, d, r, k)
    ensures exists m, x: nat :: 0 <= m < n && InFlight(run[m], x, k) && Overdue(c, run[m], x)
  {
    if TimelyBefore(c, run, n, k) {
      DeliveredAlertsAreSpaced(c, run, n, k, d, r);
    }
  }

  // ---------------------------------------------------------------- calls on their own

  lemma Take(c: Config, run: seq<State>, step: Step) returns (longer: seq<State>)
    requires IsRun(c, run) && Enabled(c, run[|run| - 1], step)
    ensures longer == run + [Do(c, run[|run| - 1], step)]
    ensures IsRun(c, longer)
  {
    assert Next(c, run[|run| - 1], Do(c, run[|run| - 1], step));
    ExtendRun(c, run, Do(c, run[|run| - 1], step));
    longer := run + [Do(c, run[|run| - 1], step)];
  }

  predicate LocksFree(s: State) {
    s.lastLock.None? && s.failedLock.None?
  }

  /** A new call up to its cooldown check, alone. */
  lemma CooldownCheckAlone(c: Config, run: seq<State>, k: Key, toBuild: nat, toCheck: nat)
    returns (longer: seq<State>)
    requires IsRun(c, run) && LocksFree(run[|run| - 1])
    ensures IsRun(c, longer) && run < longer
    ensures var s := run[|run| - 1];
      var t := s.now + toBuild;
      var held := InCooldown(c, s.last, k, t + toCheck);
      longer[|longer| - 1] == s.(
        now := t + toCheck,
        lastLock := if held then None else Some(|s.attempts|),
        attempts := s.attempts + [Attempt(k, t, if held then Suppressed else PassedCooldown)])
  {
    var i := |run[|run| - 1].attempts|;
    longer := Take(c, run, Tick(toBuild));
    longer := Take(c, longer, Build(k));
    longer := Take(c, longer, Tick(toCheck));
    longer := Take(c, longer, Advance(i, 0));
    longer := Take(c, longer, Advance(i, 0));
  }

  /** The rest of the check, alone. */
  lemma RetryCheckAlone(c: Config, run: seq<State>, i: nat, toRetry: nat) returns (longer: seq<State>)
    requires IsRun(c, run) && run[|run| - 1].failedLock.None?
    requires i < |run[|run| - 1].attempts| && run[|run| - 1].attempts[i].phase == PassedCooldown
    ensures IsRun(c, longer) && run < longer
    ensures var s := run[|run| - 1];
      var s' := longer[|longer| - 1];
      var a, at := s.attempts[i], s.now + toRetry;
      var held := InRetryDelay(c, s.failed, a.key, at);
      && s'.now == at && LocksFree(s') && s'.failed == s.failed
      && s'.last == (if held then s.last else s.last[a.key := a.timestamp])
      && s'.attempts == s.attempts[i := a.(phase := if held then Suppressed else Sending)]
      && s'.log == if held then s.log else s.log + [Reserved(i, a.key, at)]
  {
    longer := Take(c, run, Tick(toRetry));
    longer := Take(c, longer, Advance(i, 0));
    longer := Take(c, longer, Advance(i, 0));
  }

  /** A check that nobody interleaves with, the clock moving on before each of its readings. */
  lemma CheckAlone(c: Config, run: seq<State>, k: Key, toBuild: nat, toCheck: nat, toRetry: nat)
    returns (longer: seq<State>)
    requires IsRun(c, run) && LocksFree(run[|run| - 1])
    ensures IsRun(c, longer) && run < longer
    ensures var s := run[|run| - 1];
      var t := s.now + toBuild;
      var held := InCooldown(c, s.last, k, t + toCheck);
      var admitted := !held && !InRetryDelay(c, s.failed, k, t + toCheck + toRetry);
      var s' := longer[|longer| - 1];
      && s'.now == (if held then t + toCheck else t + toCheck + toRetry)
      && s'.last == (if admitted then s.last[k := t] else s.last)
      && s'.failed == s.failed && LocksFree(s')
      && s'.attempts == s.attempts + [Attempt(k, t, if admitted then Sending else Suppressed)]
      && s'.log == if admitted then s.log + [Reserved(|s.attempts|, k, s'.now)] else s.log
  {
    var s := run[|run| - 1];
    longer := CooldownCheckAlone(c, run, k, toBuild, toCheck);
    if !InCooldown(c, s.last, k, s.now + toBuild + toCheck) {
      longer := RetryCheckAlone(c, longer, |s.attempts|, toRetry);
    }
  }

  /** The end of sending and the first region of settling, alone. */
  lemma FirstRegionAlone(c: Config, run: seq<State>, i: nat, failures: nat) returns (longer: seq<State>)
    requires IsRun(c, run) && LocksFree(run[|run| - 1]) && failures <= c.targets
    requires i < |run[|run| - 1].attempts| && run[|run| - 1].attempts[i].phase == Sending
    ensures IsRun(c, longer) && run < longer
    ensures var s := run[|run| - 1];
      var s' := longer[|longer| - 1];
      var a, reached := s.attempts[i], c.Reached(failures);
      && s'.now == s.now && LocksFree(s')
      && s'.attempts == s.attempts[i := a.(phase := BetweenRegions(reached))]
      && s'.last == (if reached then s.last else s.last - {a.key})
      && s'.failed == (if reached then s.failed - {a.key} else s.failed)
      && s'.log == if reached then s.log else s.log + [Settled(i, a.key, a.timestamp, false)]
  {
    longer := Take(c, run, Advance(i, failures));
    longer := Take(c, longer, Advance(i, failures));
    longer := Take(c, longer, Advance(i, failures));
  }

  /** The second region of settling, alone. */
  lemma SecondRegionAlone(c: Config, run: seq<State>, i: nat) returns (longer: seq<State>)
    requires IsRun(c, run) && LocksFree(run[|run| - 1])
    requires i < |run[|run| - 1].attempts| && run[|run| - 1].attempts[i].phase.BetweenRegions?
    ensures IsRun(c, longer) && run < longer
    ensures var s := run[|run| - 1];
      var s' := longer[|longer| - 1];
      var a, reached := s.attempts[i], s.attempts[i].phase.delivered;
      && s'.now == s.now && LocksFree(s')
      && s'.attempts == s.attempts[i := a.(phase := Finished(reached))]
      && s'.last == (if reached then s.last[a.key := a.timestamp] else s.last)
      && s'.failed == (if reached then s.failed else s.failed[a.key := s.now])
      && s'.log == if reached then s.log + [Settled(i, a.key, a.timestamp, true)] else s.log
  {
    longer := Take(c, run, Advance(i, 0));
    longer := Take(c, longer, Advance(i, 0));
  }

  /** When every call is done, every key is at rest and the locks are free. */
  lemma QuiescentIsRest(c: Config, run: seq<State>, k: Key)
    requires IsRun(c, run) && Quiescent(run[|run| - 1])
    ensures LocksFree(run[|run| - 1]) && AtRest(run[|run| - 1], k)
  {
    RunKeepsLocks(c, run, |run| - 1);
  }

  /**
   An alert that reached nobody is tried again by the first check after the retry delay,
   which is at most a minute and at most the cooldown; a delivered one is held back for
   the whole cooldown. This holds after every run, whatever other keys are doing.
   */
  lemma NextCheckAfterSettling(c: Config, run: seq<State>, wait: nat, k: Key) returns (longer: seq<State>)
    requires IsRun(c, run) && LocksFree(run[|run| - 1]) && AtRest(run[|run| - 1], k)
    requires LastSettle(run[|run| - 1].log, k).Some?
    ensures IsRun(c, longer) && run < longer
    ensures var s := run[|run| - 1];
      var settle := LastSettle(s.log, k).value;
      var outcome := longer[|longer| - 1].attempts;
      && |outcome| == |s.attempts| + 1
      && (!settle.delivered && wait >= c.RetryDelay() ==> outcome[|s.attempts|].phase == Sending)
      && (settle.delivered && s.now + wait < settle.timestamp + c.Cooldown() ==>
            outcome[|s.attempts|].phase == Suppressed)
    ensures c.RetryDelay() <= FAILED_ALERT_RETRY_DELAY && c.RetryDelay() <= c.cooldownPeriod
  {
    RestingMapsAreExact(c, run, |run| - 1, k);
    longer := CheckAlone(c, run, k, wait, 0, 0);
  }

  /** The cooldown after a delivery stamped `t` is over: it lasts the configured period, at most chrono's longest. */
  predicate CooldownOver(c: Config, t: Instant, at: Instant) {
    t + c.cooldownPeriod <= at || t + CHRONO_MAX <= at
  }

  /** A failure at `t` no longer holds a key back: after a minute, or the configured period if that is shorter. */
  predicate RetryDue(c: Config, t: Instant, at: Instant) {
    t + 60_000_000_000 <= at || t + c.cooldownPeriod <= at
  }

  /**
   After every run, with no call about a key under way and the locks free, a check of the key
   is sent exactly when the cooldown of its last delivery, if it was delivered last, is over
   and no recorded failure is younger than a minute and than the configured period.
   */
  lemma SentAgainExactly(c: Config, run: seq<State>, k: Key, toBuild: nat, toCheck: nat, toRetry: nat)
    returns (longer: seq<State>)
    requires IsRun(c, run) && LocksFree(run[|run| - 1]) && AtRest(run[|run| - 1], k)
    ensures IsRun(c, longer) && run < longer
    ensures var s := run[|run| - 1];
      var settle := LastSettle(s.log, k);
      var at := s.now + toBuild + toCheck;
      var outcome := longer[|longer| - 1].attempts;
      && |outcome| == |s.attempts| + 1 && outcome[|s.attempts|].key == k
      && (outcome[|s.attempts|].phase == Sending <==>
            && (settle.Some? && settle.value.delivered ==> CooldownOver(c, settle.value.timestamp, at))
            && (k in s.failed ==> RetryDue(c, s.failed[k], at + toRetry)))
      && (outcome[|s.attempts|].phase != Sending ==> outcome[|s.attempts|].phase == Suppressed)
      && (settle.Some? && !settle.value.delivered ==> k in s.failed)
  {
    RestingMapsAreExact(c, run, |run| - 1, k);
    longer := CheckAlone(c, run, k, toBuild, toCheck, toRetry);
  }

  // ---------------------------------------------------------------- when a check is admitted

  /** Whether the last event of `k` lets a check at the time `at` pass the cooldown. */
  predicate LetsPass(c: Config, attempts: seq<Attempt>, log: seq<Event>, k: Key, at: Instant) {
    match LastEvent(log, k)
    case None => true
    case Some(Reserved(i, _, _)) => i < |attempts| && attempts[i].timestamp + c.Cooldown() <= at
    case Some(Settled(_, _, t, delivered)) => delivered ==> t + c.Cooldown() <= at
  }

  /** In every state of every run, the cooldown check asks exactly about the last event. */
  lemma CooldownIsLastEvent(c: Config, run: seq<State>, n: nat, k: Key, at: Instant)
    requires IsRun(c, run) && n < |run|
    ensures InCooldown(c, run[n].last, k, at) <==> !LetsPass(c, run[n].attempts, run[n].log, k, at)
  {
    RunKeepsRecords(c, run, n, k);
  }

  /**
   After every run, a check that finds the locks free is admitted exactly when the last event
   of its key lets it pass and no recent failure holds the key back.
   */
  lemma CheckAdmittedExactly(c: Config, run: seq<State>, k: Key, toBuild: nat, toCheck: nat, toRetry: nat)
    returns (longer: seq<State>)
    requires IsRun(c, run) && LocksFree(run[|run| - 1])
    ensures IsRun(c, longer) && run < longer
    ensures var s := run[|run| - 1];
      var s' := longer[|longer| - 1];
      var at := s.now + toBuild + toCheck;
      var admitted := LetsPass(c, s.attempts, s.log, k, at) && !InRetryDelay(c, s.failed, k, at + toRetry);
      && |s'.attempts| == |s.attempts| + 1 && s'.attempts[..|s.attempts|] == s.attempts
      && s'.attempts[|s.attempts|].key == k
      && (InFlight(s', |s.attempts|, k) <==> admitted)
      && s'.log == if admitted then s.log + [Reserved(|s.attempts|, k, at + toRetry)] else s.log
  {
    CooldownIsLastEvent(c, run, |run| - 1, k, run[|run| - 1].now + toBuild + toCheck);
    longer := CheckAlone(c, run, k, toBuild, toCheck, toRetry);
  }

  /**
   So, while a delivery is still in its cooldown, a check breaks the spacing exactly when the
   last event of the key is no longer a record that holds: a failure settled since, or a
   reservation or another delivery whose own cooldown is over.
   */
  lemma SpacingBreaksExactly(c: Config, run: seq<State>, k: Key, d: nat, wait: nat) returns (longer: seq<State>)
    requires IsRun(c, run) && LocksFree(run[|run| - 1])
    requires d < |run[|run| - 1].log| && DeliveryOf(run[|run| - 1].log[d], k)
    requires run[|run| - 1].now + wait < run[|run| - 1].log[d].timestamp + c.Cooldown()
    ensures IsRun(c, longer) && run < longer
    ensures var s := run[|run| - 1];
      var at := s.now + wait;
      EarlyAfter(c, longer[|longer| - 1].log, d, |s.log|, k) <==>
        LetsPass(c, s.attempts, s.log, k, at) && !InRetryDelay(c, s.failed, k, at)
  {
    longer := CheckAdmittedExactly(c, run, k, wait, 0, 0);
  }

  /** Every reservation in the log was let pass by the event of its key before it. */
  ghost predicate ReservationsLawful(c: Config, s: State, k: Key) {
    forall r :: 0 <= r < |s.log| && s.log[r].Reserved? && s.log[r].key == k ==>
      LetsPass(c, s.attempts, s.log[..r], k, s.log[r].at)
  }

  /** Whoever has passed the check holds `last_alerts`, so it would still pass. */
  ghost predicate PassedLawful(c: Config, s: State, k: Key) {
    forall i: nat :: Passed(s, i, k) ==> LetsPass(c, s.attempts, s.log, k, s.now)
  }

  lemma LetsPassStays(c: Config, s: State, s': State, log: seq<Event>, k: Key, at: Instant, at': Instant)
    requires LetsPass(c, s.attempts, log, k, at) && at <= at' && |s.attempts| <= |s'.attempts|
    requires forall j :: 0 <= j < |s.attempts| ==> s'.attempts[j].timestamp == s.attempts[j].timestamp
    ensures LetsPass(c, s'.attempts, log, k, at')
  {
  }

  lemma StepKeepsReservationsLawful(c: Config, s: State, step: Step, k: Key)
    requires ReservationsLawful(c, s, k) && PassedLawful(c, s, k) && Enabled(c, s, step)
    ensures ReservationsLawful(c, Do(c, s, step), k)
  {
    var s' := Do(c, s, step);
    StepKeepsAttempts(c, s, step);
    if step.Advance? {
      ActionWritesLast(c, s, step.id, step.failures);
    }
    forall r | 0 <= r < |s'.log| && s'.log[r].Reserved? && s'.log[r].key == k
      ensures LetsPass(c, s'.attempts, s'.log[..r], k, s'.log[r].at)
    {
      assert s'.log[..r] == s.log[..r];
      if r < |s.log| {
        assert s'.log[r] == s.log[r];
        LetsPassStays(c, s, s', s.log[..r], k, s.log[r].at, s.log[r].at);
      } else {
        assert Passed(s, step.id, k) && s.log[..r] == s.log;
        LetsPassStays(c, s, s', s.log, k, s.now, s.now);
      }
    }
  }

  lemma StepKeepsPassedLawful(c: Config, s: State, step: Step, k: Key, i: nat)
    requires LocksAgree(s) && LastDecided(s, k) && PassedLawful(c, s, k) && Enabled(c, s, step)
    requires Passed(Do(c, s, step), i, k)
    ensures LetsPass(c, Do(c, s, step).attempts, Do(c, s, step).log, k, Do(c, s, step).now)
  {
    var s' := Do(c, s, step);
    StepKeepsAttempts(c, s, step);
    PassedHoldsLast(c, s, step, i, k);
    assert LetsPass(c, s.attempts, s.log, k, s.now) by {
      if !Passed(s, i, k) {
        assert !InCooldown(c, s.last, k, s.now);
      }
    }
    LetsPassStays(c, s, s', s.log, k, s.now, s'.now);
  }

  /** While a call has passed the check, nobody writes `last_alerts`. */
  lemma PassedHoldsLast(c: Config, s: State, step: Step, i: nat, k: Key)
    requires LocksAgree(s) && Enabled(c, s, step) && Passed(Do(c, s, step), i, k)
    ensures Do(c, s, step).log == s.log
    ensures Passed(s, i, k) || (step.Advance? && step.id == i && i < |s.attempts| && s.attempts[i].key == k
                                && !InCooldown(c, s.last, k, s.now))
  {
    StepKeepsAttempts(c, s, step);
    assert s.attempts[i].phase.HoldsLast() && s.lastLock == Some(i);
    if step.Advance? && step.id != i {
      assert !s.attempts[step.id].phase.HoldsLast();
    }
  }

  ghost predicate Lawful(c: Config, s: State, k: Key) {
    ReservationsLawful(c, s, k) && PassedLawful(c, s, k)
  }

  lemma StepKeepsLawful(c: Config, s: State, step: Step, k: Key)
    requires LocksAgree(s) && LastDecided(s, k) && Lawful(c, s, k) && Enabled(c, s, step)
    ensures Lawful(c, Do(c, s, step), k)
  {
    var s' := Do(c, s, step);
    StepKeepsReservationsLawful(c, s, step, k);
    forall i: nat | Passed(s', i, k) ensures LetsPass(c, s'.attempts, s'.log, k, s'.now) {
      StepKeepsPassedLawful(c, s, step, k, i);
    }
  }

  lemma {:induction false} RunKeepsLawful(c: Config, run: seq<State>, n: nat, k: Key)
    requires IsRun(c, run) && n < |run|
    ensures Lawful(c, run[n], k)
  {
    if n > 0 {
      var s := run[n - 1];
      RunKeepsLawful(c, run, n - 1, k);
      RunKeepsLocks(c, run, n - 1);
      RunKeepsRecords(c, run, n - 1, k);
      assert Next(c, s, run[n - 1 + 1]);
      var step :| Enabled(c, s, step) && run[n] == Do(c, s, step);
      StepKeepsLawful(c, s, step, k);
    }
  }

  /**
   In every interleaving, a reservation comes only when the event of its key before it lets
   it pass. So one that comes early after a delivery follows a later event of the key that
   holds nothing back: a failed settle, or a record whose own cooldown is over.
   */
  lemma ReservationFollowsLastEvent(c: Config, run: seq<State>, n: nat, k: Key, r: nat)
    requires IsRun(c, run) && n < |run|
    requires r < |run[n].log| && run[n].log[r].Reserved? && run[n].log[r].key == k
    ensures LetsPass(c, run[n].attempts, run[n].log[..r], k, run[n].log[r].at)
    ensures forall d: nat :: EarlyAfter(c, run[n].log, d, r, k) ==>
      LastEvent(run[n].log[..r], k).Some? && LastEvent(run[n].log[..r], k) != Some(run[n].log[d])
  {
    RunKeepsLawful(c, run, n, k);
    var log := run[n].log;
    forall d: nat | EarlyAfter(c, log, d, r, k)
      ensures LastEvent(log[..r], k).Some? && LastEvent(log[..r], k) != Some(log[d])
    {
      assert log[..r][d] == log[d];
      HasLastEvent(log[..r], d);
    }
  }

  lemma {:induction false} HasLastEvent(log: seq<Event>, d: nat)
    requires d < |log|
    ensures LastEvent(log, log[d].key).Some?
  {
    if d < |log| - 1 {
      HasLastEvent(log[..|log| - 1], d);
    }
  }

  // ---------------------------------------------------------------- overdue attempts

  /**
   A check made while an attempt of its key is in flight is sent too exactly when the last
   event of the key lets it pass and no recent failure holds it back. As long as the key had
   no overlap, that event is the reservation of this attempt: the check is sent exactly when
   the attempt has outlived its cooldown. Waiting for the cooldown always gets there.
   */
  lemma OverdueAttemptAdmitsAnother(c: Config, run: seq<State>, k: Key, i: nat, wait: nat)
    returns (longer: seq<State>)
    requires IsRun(c, run) && LocksFree(run[|run| - 1]) && InFlight(run[|run| - 1], i, k)
    ensures IsRun(c, longer) && run < longer
    ensures var s := run[|run| - 1];
      var s' := longer[|longer| - 1];
      var at := s.now + wait;
      && |s'.attempts| == |s.attempts| + 1
      && s'.attempts[i] == s.attempts[i] && s'.attempts[|s.attempts|].key == k
      && (InFlight(s', |s.attempts|, k) <==>
            LetsPass(c, s.attempts, s.log, k, at) && !InRetryDelay(c, s.failed, k, at))
      && (NoOverlap(run, |run|, k) ==>
            (LetsPass(c, s.attempts, s.log, k, at) <==> s.attempts[i].timestamp + c.Cooldown() <= at))
      && (wait >= c.Cooldown() ==> InFlight(s', |s.attempts|, k))
  {
    var s := run[|run| - 1];
    RunKeepsRecords(c, run, |run| - 1, k);
    CooldownIsLastEvent(c, run, |run| - 1, k, s.now + wait);
    if NoOverlap(run, |run|, k) {
      NoOverlapKeepsExclusive(c, run, |run| - 1, k);
    }
    longer := CheckAdmittedExactly(c, run, k, wait, 0, 0);
    assert longer[|longer| - 1].attempts[..|s.attempts|][i] == s.attempts[i];
  }

  /** A first alert of `k`, in flight until its cooldown is over, and a second one. */
  lemma SlowFirstAttempt(c: Config, now: Instant, k: Key) returns (run: seq<State>)
    ensures IsRun(c, run) && LocksFree(run[|run| - 1])
    ensures var s := run[|run| - 1];
      && s.now == now + c.Cooldown() && s.failed == map[] && s.last == map[k := s.now]
      && s.attempts == [Attempt(k, now, Sending), Attempt(k, s.now, Sending)]
      && s.log == [Reserved(0, k, now), Reserved(1, k, s.now)]
  {
    run := CheckAlone(c, [Init(now)], k, 0, 0, 0);
    var s := run[|run| - 1];
    assert s == State(now, map[k := now], map[], None, None, [Attempt(k, now, Sending)], [Reserved(0, k, now)]);
    run := CheckAlone(c, run, k, c.Cooldown(), 0, 0);
    assert s.last[k := now + c.Cooldown()] == map[k := now + c.Cooldown()];
  }

  /**
   The overlap outlives the slow attempt: when that one fails, it removes the reservation of
   the second attempt, and a third is admitted although the second is not overdue.
   */
  lemma SlowFailureAdmitsThird(c: Config, now: Instant, k: Key) returns (run: seq<State>)
    requires c.targets > 0 && c.Cooldown() > 0
    ensures IsRun(c, run)
    ensures var s := run[|run| - 1];
      InFlight(s, 1, k) && InFlight(s, 2, k) && !InFlight(s, 0, k) && !Overdue(c, s, 1) && !Overdue(c, s, 2)
  {
    run := SlowFirstAttempt(c, now, k);
    run := FirstRegionAlone(c, run, 0, c.targets);
    run := CheckAlone(c, run, k, 0, 0, 0);
  }

  /** If the second attempt is delivered meanwhile, a third is reserved within its cooldown. */
  lemma SlowFailureBreaksSpacing(c: Config, now: Instant, k: Key) returns (run: seq<State>)
    requires c.targets > 0 && c.Cooldown() > 0
    ensures IsRun(c, run)
    ensures EarlyAfter(c, run[|run| - 1].log, 2, 4, k)
  {
    run := SlowFirstAttempt(c, now, k);
    run := FirstRegionAlone(c, run, 1, 0);
    run := SecondRegionAlone(c, run, 1);
    run := FirstRegionAlone(c, run, 0, c.targets);
    run := CheckAlone(c, run, k, 0, 0, 0);
  }

  ghost predicate EarlyAfter(c: Config, log: seq<Event>, d: nat, r: nat, k: Key) {
    && d < r < |log|
    && DeliveryOf(log[d], k) && log[r].Reserved? && log[r].key == k
    && log[r].at < log[d].timestamp + c.Cooldown()
  }
}
