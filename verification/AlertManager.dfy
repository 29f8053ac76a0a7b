/**
 `AlertManager` as the object it is: two maps that `send_alert_if_needed` updates, and a
 loop over the targets. A call that nobody interleaves with is proved to do to the maps
 exactly what the same call does as an attempt of the protocol.
 */
module AlertManager {
  import opened AlertProtocol
  import AlertSafety

  datatype Result = Ok | Err(failed: nat, targets: nat)

  // The clock readings of one call: at the two checks and when a failure is recorded.
  datatype Readings = Readings(cooldownCheck: Instant, retryCheck: Instant, failedAt: Instant)

  datatype Maps = Maps(last: map<Key, Instant>, failed: map<Key, Instant>)

  function CountFailures(results: seq<bool>): (n: nat)
    ensures n <= |results|
  {
    if results == [] then 0
    else CountFailures(results[..|results| - 1]) + (if results[|results| - 1] then 0 else 1)
  }

  /** Every target failed exactly when nobody answered. */
  lemma {:induction false} AllFailed(results: seq<bool>)
    ensures CountFailures(results) == |results| <==> forall t :: 0 <= t < |results| ==> !results[t]
  {
    if results != [] {
      AllFailed(results[..|results| - 1]);
    }
  }

  predicate Admits(c: Config, m: Maps, k: Key, clock: Readings) {
    !InCooldown(c, m.last, k, clock.cooldownCheck) && !InRetryDelay(c, m.failed, k, clock.retryCheck)
  }

  /** What a call alone leaves in the maps. */
  function SoloCall(c: Config, m: Maps, k: Key, timestamp: Instant, clock: Readings, failures: nat): Maps {
    if !Admits(c, m, k, clock) then m
    else if c.Reached(failures) then Maps(m.last[k := timestamp], m.failed - {k})
    else Maps(m.last - {k}, m.failed[k := clock.failedAt])
  }

  class AlertManager {
    const config: Config
    var lastAlerts: map<Key, Instant>
    var failedAlerts: map<Key, Instant>

    constructor (config: Config)
      ensures this.config == config && lastAlerts == map[] && failedAlerts == map[]
    {
      this.config := config;
      lastAlerts, failedAlerts := map[], map[];
    }

    function View(): Maps
      reads this
    {
      Maps(lastAlerts, failedAlerts)
    }

    method CheckAndReserve(k: Key, timestamp: Instant, clock: Readings) returns (reserved: bool)
      modifies this`lastAlerts
      ensures reserved == Admits(config, old(View()), k, clock)
      ensures reserved <==>
        && (k in old(lastAlerts) ==> AlertSafety.CooldownOver(config, old(lastAlerts)[k], clock.cooldownCheck))
        && (k in failedAlerts ==> AlertSafety.RetryDue(config, failedAlerts[k], clock.retryCheck))
      ensures lastAlerts == if reserved then old(lastAlerts)[k := timestamp] else old(lastAlerts)
    {
      if k in lastAlerts {
        if clock.cooldownCheck - lastAlerts[k] < config.Cooldown() {
          return false;
        }
      }
      if k in failedAlerts {
        if clock.retryCheck - failedAlerts[k] < config.RetryDelay() {
          return false;
        }
      }
      lastAlerts := lastAlerts[k := timestamp];
      return true;
    }

    /** Sends to every target in turn, whatever happened to the earlier ones. */
    method SendToTargets(results: seq<bool>) returns (failures: seq<nat>)
      requires |results| == config.targets
      ensures |failures| == CountFailures(results)
      ensures forall t :: t in failures <==> 0 <= t < |results| && !results[t]
      ensures |failures| == 0 <==> forall t :: 0 <= t < |results| ==> results[t]
    {
      failures := [];
      for t := 0 to config.targets
        invariant |failures| == CountFailures(results[..t])
        invariant forall u :: u in failures <==> 0 <= u < t && !results[u]
      {
        assert results[..t + 1][..t] == results[..t];
        if !results[t] {
          failures := failures + [t];
        }
      }
      assert results[..config.targets] == results;
      if |failures| == 0 {
        forall t | 0 <= t < |results| ensures results[t] {
          assert t !in failures;
        }
      } else {
        assert failures[0] in failures;
      }
    }

    method Settle(k: Key, timestamp: Instant, failedAt: Instant, failures: nat)
      modifies this
      ensures config.Reached(failures) ==>
        lastAlerts == old(lastAlerts)[k := timestamp] && failedAlerts == old(failedAlerts) - {k}
      ensures !config.Reached(failures) ==>
        lastAlerts == old(lastAlerts) - {k} && failedAlerts == old(failedAlerts)[k := failedAt]
    {
      if failures < config.targets || config.targets == 0 {
        failedAlerts := failedAlerts - {k};
        lastAlerts := lastAlerts[k := timestamp];
      } else {
        lastAlerts := lastAlerts - {k};
        failedAlerts := failedAlerts[k := failedAt];
      }
    }

    /** The whole call, `results` saying which target answers. */
    method SendAlertIfNeeded(k: Key, timestamp: Instant, clock: Readings, results: seq<bool>)
      returns (r: Result)
      requires |results| == config.targets
      modifies this
      ensures View() == SoloCall(config, old(View()), k, timestamp, clock, CountFailures(results))
      ensures r == if Admits(config, old(View()), k, clock) && CountFailures(results) > 0
                   then Err(CountFailures(results), config.targets) else Ok
      ensures var due :=
          && (k in old(lastAlerts) ==> AlertSafety.CooldownOver(config, old(lastAlerts)[k], clock.cooldownCheck))
          && (k in old(failedAlerts) ==> AlertSafety.RetryDue(config, old(failedAlerts)[k], clock.retryCheck));
        var reached := results == [] || exists t :: 0 <= t < |results| && results[t];
        && (!due ==> lastAlerts == old(lastAlerts) && failedAlerts == old(failedAlerts) && r == Ok)
        && (due && reached ==> lastAlerts == old(lastAlerts)[k := timestamp] && k !in failedAlerts)
        && (due && !reached ==> k !in lastAlerts && failedAlerts == old(failedAlerts)[k := clock.failedAt])
        && (due ==> (r == Ok <==> forall t :: 0 <= t < |results| ==> results[t]))
    {
      AllFailed(results);
      var reserved := CheckAndReserve(k, timestamp, clock);
      if !reserved {
        return Ok;
      }
      var failures := SendToTargets(results);
      Settle(k, timestamp, clock.failedAt, |failures|);
      r := if failures == [] then Ok else Err(|failures|, config.targets);
    }
  }

  /**
   The protocol, run by one caller alone from any reachable state with the locks free,
   agrees with `SoloCall`.
   */
  lemma SoloRunMatchesCall(c: Config, run: seq<State>, k: Key, waits: (nat, nat, nat, nat), failures: nat)
    returns (longer: seq<State>)
    requires IsRun(c, run) && failures <= c.targets
    requires run[|run| - 1].lastLock.None? && run[|run| - 1].failedLock.None?
    ensures IsRun(c, longer) && run < longer
    ensures var s := run[|run| - 1];
      var s' := longer[|longer| - 1];
      var checkAt := s.now + waits.0 + waits.1;
      var clock := Readings(checkAt, checkAt + waits.2, checkAt + waits.2 + waits.3);
      && Maps(s'.last, s'.failed) == SoloCall(c, Maps(s.last, s.failed), k, s.now + waits.0, clock, failures)
      && |s'.attempts| == |s.attempts| + 1 && s'.attempts[|s.attempts|].phase.Done()
  {
    var s := run[|run| - 1];
    var i := |s.attempts|;
    longer := AlertSafety.CheckAlone(c, run, k, waits.0, waits.1, waits.2);
    if longer[|longer| - 1].attempts[i].phase == Sending {
      longer := SettleAlone(c, longer, i, waits.3, failures);
    }
  }

  lemma SettleAlone(c: Config, run: seq<State>, i: nat, wait: nat, failures: nat)
    returns (longer: seq<State>)
    requires IsRun(c, run) && failures <= c.targets
    requires run[|run| - 1].lastLock.None? && run[|run| - 1].failedLock.None?
    requires i < |run[|run| - 1].attempts| && run[|run| - 1].attempts[i].phase == Sending
    ensures IsRun(c, longer) && run < longer
    ensures var s := run[|run| - 1];
      var s' := longer[|longer| - 1];
      var a := s.attempts[i];
      && s'.attempts == s.attempts[i := a.(phase := Finished(c.Reached(failures)))]
      && s'.last == (if c.Reached(failures) then s.last[a.key := a.timestamp] else s.last - {a.key})
      && s'.failed == (if c.Reached(failures) then s.failed - {a.key} else s.failed[a.key := s.now + wait])
  {
    longer := AlertSafety.Take(c, run, Tick(wait));
    longer := AlertSafety.FirstRegionAlone(c, longer, i, failures);
    longer := AlertSafety.SecondRegionAlone(c, longer, i);
  }
}
