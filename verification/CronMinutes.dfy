/**
 `CronSchedule::matches`, over an abstract schedule: a set of fire times, of which
 `next(t)` is the earliest after `t`. The cron library fires on whole seconds.
 */
module CronMinutes {
  import opened Common

  const SECOND: int := 1_000_000_000
  const MINUTE: int := 60_000_000_000

  ghost predicate EarliestAfter(fires: iset<int>, t: int, r: Option<int>) {
    if r.None? then forall f :: f in fires ==> f <= t
    else r.value in fires && t < r.value && forall f :: f in fires && t < f ==> r.value <= f
  }

  ghost predicate IsSchedule(fires: iset<int>, next: int -> Option<int>) {
    forall t :: EarliestAfter(fires, t, next(t))
  }

  /** How far the local time, `offset` ahead of UTC, is into its minute. */
  function IntoMinute(t: int, offset: int): int {
    (t + offset) % MINUTE
  }

  /** The code: the first fire strictly after one second before the minute. */
  predicate Matches(next: int -> Option<int>, offset: int, t: int) {
    var start := t - IntoMinute(t, offset);
    var fire := next(start - SECOND);
    fire.Some? && fire.value < start + MINUTE
  }

  /** Some fire lies in the local minute of `t`. */
  ghost predicate FiresInMinute(fires: iset<int>, offset: int, t: int) {
    exists f :: f in fires && SameMinute(f, t, offset)
  }

  /** Whether two instants lie in the same minute of local time, minutes counted from the epoch. */
  predicate SameMinute(f: int, t: int, offset: int) {
    (f + offset) / MINUTE == (t + offset) / MINUTE
  }

  lemma MinuteOf(f: int, t: int, offset: int)
    ensures var start := t - IntoMinute(t, offset);
      SameMinute(f, t, offset) <==> start <= f < start + MINUTE
  {
    var m, n := (t + offset) / MINUTE, (f + offset) / MINUTE;
    assert t + offset == m * MINUTE + IntoMinute(t, offset);
    assert f + offset == n * MINUTE + IntoMinute(f, offset);
    MinutesApart(m, n, IntoMinute(f, offset));
  }

  lemma MinutesApart(m: int, n: int, into: int)
    requires 0 <= into < MINUTE
    ensures n == m <==> m * MINUTE <= n * MINUTE + into < m * MINUTE + MINUTE
  {
  }

  /**
   A schedule matches exactly when it fires in the minute, for whole-second fires and a
   whole-second offset.
   */
  lemma MatchesExactly(fires: iset<int>, next: int -> Option<int>, offset: int, t: int)
    requires IsSchedule(fires, next) && offset % SECOND == 0
    requires forall f :: f in fires ==> f % SECOND == 0
    ensures Matches(next, offset, t) <==> FiresInMinute(fires, offset, t)
  {
    var start := t - IntoMinute(t, offset);
    var fire := next(start - SECOND);
    MinuteStartsOnSecond(t, offset);
    assert EarliestAfter(fires, start - SECOND, fire);
    if Matches(next, offset, t) {
      NoFireBetween(fire.value, start);
      MinuteOf(fire.value, t, offset);
    }
    if f :| f in fires && SameMinute(f, t, offset) {
      MinuteOf(f, t, offset);
      assert fire.Some? && fire.value <= f;
    }
  }

  lemma MinuteStartsOnSecond(t: int, offset: int)
    requires offset % SECOND == 0
    ensures (t - IntoMinute(t, offset)) % SECOND == 0
  {
    var minutes, seconds := (t + offset) / MINUTE, offset / SECOND;
    assert t + offset == minutes * MINUTE + IntoMinute(t, offset);
    assert offset == seconds * SECOND;
    Multiple(60 * minutes - seconds, t - IntoMinute(t, offset));
  }

  lemma Multiple(n: int, x: int)
    requires x == n * SECOND
    ensures x % SECOND == 0
  {
  }

  /** Between whole seconds there is no fire. */
  lemma NoFireBetween(f: int, start: int)
    requires f % SECOND == 0 && start % SECOND == 0 && start - SECOND < f
    ensures start <= f
  {
  }
}
