/**
 The cooldown protocol of `AlertManager::send_alert_if_needed`, as a transition system.

 Any number of callers run the same code. Each caller is an attempt with a phase; a step
 advances one attempt by one action: taking a lock, or the body of a lock region together
 with the release of that lock. `last_alerts` is taken first and `failed_alerts` nests
 inside it while checking; settling takes the two locks one after the other. The only
 reader of `failed_alerts` holds `last_alerts` for writing, so a single holder is enough
 to model both locks. Clock readings never go backwards.
 */
module AlertProtocol {
  import opened Common

  // Instants and durations, in nanoseconds.
  type Instant = int

  const SECOND: nat := 1_000_000_000
  const FAILED_ALERT_RETRY_DELAY: nat := 60 * SECOND
  // The longest `chrono::Duration`: i64::MAX milliseconds.
  const CHRONO_MAX: nat := 0x7FFF_FFFF_FFFF_FFFF * 1_000_000

  datatype AlertType = HighErrorRate | QueueDepthExceeded | WorkerStarvation | SlowProcessing | Custom(name: string)

  datatype Key = Key(queue: string, alertType: AlertType)

  datatype Config = Config(cooldownPeriod: nat, targets: nat) {
    /** A cooldown too long for chrono becomes the longest chrono duration. */
    function Cooldown(): nat {
      if cooldownPeriod <= CHRONO_MAX then cooldownPeriod else CHRONO_MAX
    }

    /** The delay after an attempt that reached no target. */
    function RetryDelay(): nat {
      if FAILED_ALERT_RETRY_DELAY <= cooldownPeriod then FAILED_ALERT_RETRY_DELAY else cooldownPeriod
    }

    /** Some target was reached, or there is none to reach. */
    predicate Reached(failures: nat) {
      failures < targets || targets == 0
    }
  }

  predicate InCooldown(c: Config, last: map<Key, Instant>, k: Key, now: Instant) {
    k in last && now - last[k] < c.Cooldown()
  }

  predicate InRetryDelay(c: Config, failed: map<Key, Instant>, k: Key, now: Instant) {
    k in failed && now - failed[k] < c.RetryDelay()
  }

  // The program counter of one call. `delivered` says whether some target was reached.
  datatype Phase =
    | Built                             // the alert exists, no lock taken yet
    | CheckingCooldown                  // holds last_alerts
    | PassedCooldown                    // holds last_alerts, waits for failed_alerts
    | CheckingRetry                     // holds both
    | Sending                           // the cooldown is reserved, no lock held
    | Settling(delivered: bool)         // the outcome is known, no lock held
    | InFirstRegion(delivered: bool)    // holds failed_alerts if delivered, else last_alerts
    | BetweenRegions(delivered: bool)   // no lock held
    | InSecondRegion(delivered: bool)   // holds last_alerts if delivered, else failed_alerts
    | Suppressed
    | Finished(delivered: bool)
  {
    predicate HoldsLast() {
      CheckingCooldown? || PassedCooldown? || CheckingRetry?
      || (InFirstRegion? && !delivered) || (InSecondRegion? && delivered)
    }

    predicate HoldsFailed() {
      CheckingRetry? || (InFirstRegion? && delivered) || (InSecondRegion? && !delivered)
    }

    /** Between reserving the cooldown and settling `last_alerts`. */
    predicate InFlight() {
      Sending? || Settling? || InFirstRegion?
      || ((BetweenRegions? || InSecondRegion?) && delivered)
    }

    /** Has passed the cooldown check but not yet reserved. */
    predicate Passed() {
      PassedCooldown? || CheckingRetry?
    }

    predicate Done() {
      Suppressed? || Finished?
    }
  }

  datatype Attempt = Attempt(key: Key, timestamp: Instant, phase: Phase)

  // What an observer of `last_alerts` sees: reservations, and the write that settles one.
  datatype Event =
    | Reserved(id: nat, key: Key, at: Instant)
    | Settled(id: nat, key: Key, timestamp: Instant, delivered: bool)

  datatype State = State(
    now: Instant,
    last: map<Key, Instant>,
    failed: map<Key, Instant>,
    lastLock: Option<nat>,
    failedLock: Option<nat>,
    attempts: seq<Attempt>,
    log: seq<Event>)

  function Init(now: Instant): State {
    State(now, map[], map[], None, None, [], [])
  }

  datatype Step =
    | Tick(elapsed: nat)
    | Build(key: Key)                     // stamps the alert with the current time
    | Advance(id: nat, failures: nat)     // `failures` matters only when sending ends

  predicate CanAdvance(s: State, i: nat)
    requires i < |s.attempts|
  {
    match s.attempts[i].phase
    case Built => s.lastLock.None?
    case PassedCooldown => s.failedLock.None?
    case Settling(delivered) => if delivered then s.failedLock.None? else s.lastLock.None?
    case BetweenRegions(delivered) => if delivered then s.lastLock.None? else s.failedLock.None?
    case Suppressed => false
    case Finished(_) => false
    case _ => true
  }

  predicate Enabled(c: Config, s: State, step: Step) {
    match step
    case Tick(_) => true
    case Build(_) => true
    case Advance(i, failures) => i < |s.attempts| && failures <= c.targets && CanAdvance(s, i)
  }

  // What one action changes: the caller's own phase, and the shared state.
  datatype Action = Action(
    phase: Phase,
    last: map<Key, Instant>,
    failed: map<Key, Instant>,
    lastLock: Option<nat>,
    failedLock: Option<nat>,
    log: seq<Event>)

  function NextAction(c: Config, s: State, i: nat, failures: nat): Action
    requires i < |s.attempts| && failures <= c.targets && CanAdvance(s, i)
  {
    var k := s.attempts[i].key;
    var t := s.attempts[i].timestamp;
    var a := Action(s.attempts[i].phase, s.last, s.failed, s.lastLock, s.failedLock, s.log);
    match s.attempts[i].phase
    case Built => a.(phase := CheckingCooldown, lastLock := Some(i))
    case CheckingCooldown =>
      if InCooldown(c, s.last, k, s.now) then a.(phase := Suppressed, lastLock := None)
      else a.(phase := PassedCooldown)
    case PassedCooldown => a.(phase := CheckingRetry, failedLock := Some(i))
    case CheckingRetry =>
      if InRetryDelay(c, s.failed, k, s.now) then a.(phase := Suppressed, lastLock := None, failedLock := None)
      else
        a.(phase := Sending, lastLock := None, failedLock := None,
           last := s.last[k := t], log := s.log + [Reserved(i, k, s.now)])
    case Sending => a.(phase := Settling(c.Reached(failures)))
    case Settling(delivered) =>
      if delivered then a.(phase := InFirstRegion(true), failedLock := Some(i))
      else a.(phase := InFirstRegion(false), lastLock := Some(i))
    case InFirstRegion(delivered) =>
      if delivered then a.(phase := BetweenRegions(true), failedLock := None, failed := s.failed - {k})
      else
        a.(phase := BetweenRegions(false), lastLock := None, last := s.last - {k},
           log := s.log + [Settled(i, k, t, false)])
    case BetweenRegions(delivered) =>
      if delivered then a.(phase := InSecondRegion(true), lastLock := Some(i))
      else a.(phase := InSecondRegion(false), failedLock := Some(i))
    case InSecondRegion(delivered) =>
      if delivered then
        a.(phase := Finished(true), lastLock := None, last := s.last[k := t],
           log := s.log + [Settled(i, k, t, true)])
      else a.(phase := Finished(false), failedLock := None, failed := s.failed[k := s.now])
  }

  function Apply(s: State, i: nat, a: Action): State
    requires i < |s.attempts|
  {
    State(s.now, a.last, a.failed, a.lastLock, a.failedLock,
          s.attempts[i := s.attempts[i].(phase := a.phase)], a.log)
  }

  function AdvanceOne(c: Config, s: State, i: nat, failures: nat): State
    requires i < |s.attempts| && failures <= c.targets && CanAdvance(s, i)
  {
    Apply(s, i, NextAction(c, s, i, failures))
  }

  function Do(c: Config, s: State, step: Step): State
    requires Enabled(c, s, step)
  {
    match step
    case Tick(elapsed) => s.(now := s.now + elapsed)
    case Build(k) => s.(attempts := s.attempts + [Attempt(k, s.now, Built)])
    case Advance(i, failures) => AdvanceOne(c, s, i, failures)
  }

  ghost predicate Next(c: Config, s: State, s': State) {
    exists step :: Enabled(c, s, step) && s' == Do(c, s, step)
  }

  /** A finite run of the protocol from empty maps: every interleaving is one. */
  ghost predicate IsRun(c: Config, run: seq<State>) {
    && |run| > 0
    && run[0] == Init(run[0].now)
    && forall n :: 0 <= n < |run| - 1 ==> Next(c, run[n], run[n + 1])
  }

  // ---------------------------------------------------------------- locks

  ghost predicate LocksAgree(s: State) {
    && (s.lastLock.Some? ==> s.lastLock.value < |s.attempts|)
    && (s.failedLock.Some? ==> s.failedLock.value < |s.attempts|)
    && (forall i :: 0 <= i < |s.attempts| ==>
          (s.attempts[i].phase.HoldsLast() <==> s.lastLock == Some(i)))
    && (forall i :: 0 <= i < |s.attempts| ==>
          (s.attempts[i].phase.HoldsFailed() <==> s.failedLock == Some(i)))
  }

  lemma StepKeepsLocks(c: Config, s: State, step: Step)
    requires LocksAgree(s) && Enabled(c, s, step)
    ensures LocksAgree(Do(c, s, step))
  {
    if step.Advance? {
      var i := step.id;
      var s', a := AdvanceOne(c, s, i, step.failures), NextAction(c, s, i, step.failures);
      ActionMovesLast(c, s, i, step.failures);
      ActionMovesFailed(c, s, i, step.failures);
      forall j | 0 <= j < |s'.attempts|
        ensures s'.attempts[j].phase.HoldsLast() <==> s'.lastLock == Some(j)
        ensures s'.attempts[j].phase.HoldsFailed() <==> s'.failedLock == Some(j)
      {
        assert s'.attempts[j].phase == if j == i then a.phase else s.attempts[j].phase;
      }
    }
  }

  /** An action takes a free lock, releases its own, or leaves the locks alone. */
  ghost predicate Moves(i: nat, before: Option<nat>, after: Option<nat>) {
    after == before || ((before.None? || before == Some(i)) && (after.None? || after == Some(i)))
  }

  lemma ActionMovesLast(c: Config, s: State, i: nat, failures: nat)
    requires LocksAgree(s) && Enabled(c, s, Advance(i, failures))
    ensures var a := NextAction(c, s, i, failures);
      (a.phase.HoldsLast() <==> a.lastLock == Some(i)) && Moves(i, s.lastLock, a.lastLock)
  {
    assert s.attempts[i].phase.HoldsLast() <==> s.lastLock == Some(i);
  }

  lemma ActionMovesFailed(c: Config, s: State, i: nat, failures: nat)
    requires LocksAgree(s) && Enabled(c, s, Advance(i, failures))
    ensures var a := NextAction(c, s, i, failures);
      (a.phase.HoldsFailed() <==> a.failedLock == Some(i)) && Moves(i, s.failedLock, a.failedLock)
  {
    assert s.attempts[i].phase.HoldsFailed() <==> s.failedLock == Some(i);
  }

  lemma AdvanceTouchesOne(c: Config, s: State, i: nat, failures: nat)
    requires Enabled(c, s, Advance(i, failures))
    ensures var s' := AdvanceOne(c, s, i, failures);
      && s'.now == s.now
      && s'.attempts == s.attempts[i := s.attempts[i].(phase := s'.attempts[i].phase)]
  {
  }

  lemma {:induction false} RunKeepsLocks(c: Config, run: seq<State>, n: nat)
    requires IsRun(c, run) && n < |run|
    ensures LocksAgree(run[n])
  {
    if n > 0 {
      RunKeepsLocks(c, run, n - 1);
      assert Next(c, run[n - 1], run[n - 1 + 1]);
      var step :| Enabled(c, run[n - 1], step) && run[n] == Do(c, run[n - 1], step);
      StepKeepsLocks(c, run[n - 1], step);
    }
  }

  /**
   No interleaving deadlocks: while some attempt is unfinished, some attempt can advance.
   A holder of `failed_alerts` never waits, so a holder of `last_alerts` waits for it only
   finitely often, and with both locks free everybody can move.
   */
  lemma NoDeadlock(c: Config, run: seq<State>, n: nat, unfinished: nat)
    requires IsRun(c, run) && n < |run|
    requires unfinished < |run[n].attempts| && !run[n].attempts[unfinished].phase.Done()
    ensures exists i :: 0 <= i < |run[n].attempts| && CanAdvance(run[n], i)
  {
    RunKeepsLocks(c, run, n);
    var s := run[n];
    var mover := if s.failedLock.Some? then s.failedLock.value
                 else if s.lastLock.Some? then s.lastLock.value
                 else unfinished;
    assert CanAdvance(s, mover);
  }

  /** How many more advances a call can make: bounded, so no call can loop. */
  function Remaining(p: Phase): nat {
    match p
    case Built => 9
    case CheckingCooldown => 8
    case PassedCooldown => 7
    case CheckingRetry => 6
    case Sending => 5
    case Settling(_) => 4
    case InFirstRegion(_) => 3
    case BetweenRegions(_) => 2
    case InSecondRegion(_) => 1
    case Suppressed => 0
    case Finished(_) => 0
  }

  function TotalRemaining(attempts: seq<Attempt>): nat {
    if attempts == [] then 0 else Remaining(attempts[0].phase) + TotalRemaining(attempts[1..])
  }

  lemma {:induction false} TotalRemainingUpdate(attempts: seq<Attempt>, i: nat, a: Attempt)
    requires i < |attempts|
    ensures TotalRemaining(attempts[i := a])
         == TotalRemaining(attempts) - Remaining(attempts[i].phase) + Remaining(a.phase)
  {
    if i == 0 {
      assert attempts[i := a][1..] == attempts[1..];
    } else {
      assert attempts[i := a][1..] == attempts[1..][i - 1 := a];
      TotalRemainingUpdate(attempts[1..], i - 1, a);
    }
  }

  /** Every advance uses up a finite budget, which only building a new alert refills. */
  lemma AdvanceConsumes(c: Config, s: State, i: nat, failures: nat)
    requires Enabled(c, s, Advance(i, failures))
    ensures TotalRemaining(Do(c, s, Advance(i, failures)).attempts) < TotalRemaining(s.attempts)
  {
    var s' := Do(c, s, Advance(i, failures));
    assert s'.attempts == s.attempts[i := s'.attempts[i]];
    TotalRemainingUpdate(s.attempts, i, s'.attempts[i]);
  }

  /** From every reachable state, the calls under way can all run to their end. */
  lemma {:induction false} CanAlwaysQuiesce(c: Config, run: seq<State>) returns (longer: seq<State>)
    requires IsRun(c, run)
    ensures IsRun(c, longer) && run <= longer
    ensures Quiescent(longer[|longer| - 1])
    decreases TotalRemaining(run[|run| - 1].attempts)
  {
    var s := run[|run| - 1];
    if Quiescent(s) {
      longer := run;
    } else {
      var u :| 0 <= u < |s.attempts| && !s.attempts[u].phase.Done();
      NoDeadlock(c, run, |run| - 1, u);
      var i :| 0 <= i < |s.attempts| && CanAdvance(s, i);
      assert Enabled(c, s, Advance(i, 0));
      var s' := Do(c, s, Advance(i, 0));
      AdvanceConsumes(c, s, i, 0);
      assert Next(c, s, s');
      ExtendRun(c, run, s');
      longer := CanAlwaysQuiesce(c, run + [s']);
    }
  }

  lemma ExtendRun(c: Config, run: seq<State>, s': State)
    requires IsRun(c, run) && Next(c, run[|run| - 1], s')
    ensures IsRun(c, run + [s'])
  {
  }

  ghost predicate Quiescent(s: State) {
    forall i :: 0 <= i < |s.attempts| ==> s.attempts[i].phase.Done()
  }
}
