/** `PrometheusMetricsCollector::record_job_event`: labelled counters that must agree. */
module JobMetrics {
  import opened Common

  datatype EventType = Started | Completed | Failed | Retried | Dead | TimedOut

  datatype JobEvent = JobEvent(eventType: EventType, queue: string, priority: string, errorMessage: Option<string>)

  // Queue, label (status or error type), priority.
  type Labels = (string, string, string)

  type Counters = map<Labels, nat>

  function Get(m: Counters, l: Labels): nat {
    if l in m then m[l] else 0
  }

  function Inc(m: Counters, l: Labels): Counters {
    m[l := Get(m, l) + 1]
  }

  predicate OccursAt(s: string, t: string, i: nat) {
    i + |t| <= |s| && s[i..i + |t|] == t
  }

  predicate Contains(s: string, t: string) {
    exists i: nat | i <= |s| :: OccursAt(s, t, i)
  }

  function ErrorType(message: Option<string>): string {
    if message.None? then "unknown"
    else if Contains(message.value, "timeout") then "timeout"
    else if Contains(message.value, "connection") then "connection"
    else "other"
  }

  function StatusLabel(t: EventType): string {
    match t
    case Completed => "completed"
    case Failed => "failed"
    case TimedOut => "timed_out"
    case Dead => "dead"
    case Retried => "retried"
    case Started => "started"
  }

  /** The error type counted for an event, if it is a failure. */
  function FailureLabel(e: JobEvent): Option<string> {
    match e.eventType
    case Failed => Some(ErrorType(e.errorMessage))
    case TimedOut => Some("timeout")
    case Dead => Some("exhausted")
    case _ => None
  }

  datatype Metrics = Metrics(jobsTotal: Counters, jobsFailedTotal: Counters)

  function Record(m: Metrics, e: JobEvent): Metrics {
    var total := Inc(m.jobsTotal, (e.queue, StatusLabel(e.eventType), e.priority));
    var failure := FailureLabel(e);
    Metrics(total,
            if failure.Some? then Inc(m.jobsFailedTotal, (e.queue, failure.value, e.priority)) else m.jobsFailedTotal)
  }

  function RecordAll(events: seq<JobEvent>): Metrics {
    if events == [] then Metrics(map[], map[]) else Record(RecordAll(events[..|events| - 1]), events[|events| - 1])
  }

  class PrometheusMetricsCollector {
    var jobsTotal: Counters
    var jobsFailedTotal: Counters

    function View(): Metrics
      reads this
    {
      Metrics(jobsTotal, jobsFailedTotal)
    }

    constructor ()
      ensures View() == RecordAll([])
    {
      jobsTotal, jobsFailedTotal := map[], map[];
    }

    /** `events` are the events recorded before. */
    method RecordJobEvent(ghost events: seq<JobEvent>, e: JobEvent)
      requires View() == RecordAll(events)
      modifies this
      ensures View() == RecordAll(events + [e])
    {
      assert (events + [e])[..|events|] == events;
      match e.eventType {
        case Completed =>
          jobsTotal := Inc(jobsTotal, (e.queue, "completed", e.priority));
        case Failed =>
          jobsTotal := Inc(jobsTotal, (e.queue, "failed", e.priority));
          jobsFailedTotal := Inc(jobsFailedTotal, (e.queue, ErrorType(e.errorMessage), e.priority));
        case TimedOut =>
          jobsTotal := Inc(jobsTotal, (e.queue, "timed_out", e.priority));
          jobsFailedTotal := Inc(jobsFailedTotal, (e.queue, "timeout", e.priority));
        case Dead =>
          jobsTotal := Inc(jobsTotal, (e.queue, "dead", e.priority));
          jobsFailedTotal := Inc(jobsFailedTotal, (e.queue, "exhausted", e.priority));
        case Retried =>
          jobsTotal := Inc(jobsTotal, (e.queue, "retried", e.priority));
        case Started =>
          jobsTotal := Inc(jobsTotal, (e.queue, "started", e.priority));
      }
    }
  }

  // ---------------------------------------------------------------- what the counters count

  function CountTotal(events: seq<JobEvent>, q: string, p: string, kind: EventType): nat {
    if events == [] then 0
    else
      var e := events[|events| - 1];
      CountTotal(events[..|events| - 1], q, p, kind)
      + if e.queue == q && e.priority == p && e.eventType == kind then 1 else 0
  }

  /** A failed job by its message: without one, mentioning a timeout, else a connection, or neither. */
  predicate FailedWith(e: JobEvent, errorType: string) {
    e.eventType == Failed &&
    match e.errorMessage
    case None => errorType == "unknown"
    case Some(m) =>
      var timeout, connection := Mentions(m, "timeout"), Mentions(m, "connection");
      || (timeout && errorType == "timeout")
      || (!timeout && connection && errorType == "connection")
      || (!timeout && !connection && errorType == "other")
  }

  predicate Mentions(message: string, word: string) {
    exists i | 0 <= i <= |message| :: word <= message[i..]
  }

  /** Whether an event is counted under an error type. */
  predicate FailsAs(e: JobEvent, errorType: string) {
    || FailedWith(e, errorType)
    || (e.eventType == TimedOut && errorType == "timeout")
    || (e.eventType == Dead && errorType == "exhausted")
  }

  function CountFailed(events: seq<JobEvent>, q: string, p: string, errorType: string): nat {
    if events == [] then 0
    else
      var e := events[|events| - 1];
      CountFailed(events[..|events| - 1], q, p, errorType)
      + if e.queue == q && e.priority == p && FailsAs(e, errorType) then 1 else 0
  }

  lemma ContainsIsMentions(s: string, t: string)
    ensures Contains(s, t) <==> Mentions(s, t)
  {
    if i: nat :| i <= |s| && OccursAt(s, t, i) {
      assert s[i..][..|t|] == t;
      assert t <= s[i..];
    }
    if i :| 0 <= i <= |s| && t <= s[i..] {
      assert s[i..i + |t|] == s[i..][..|t|];
      assert OccursAt(s, t, i);
    }
  }

  lemma LabelOf(e: JobEvent, errorType: string)
    ensures FailureLabel(e) == Some(errorType) <==> FailsAs(e, errorType)
  {
    if e.eventType == Failed && e.errorMessage.Some? {
      ContainsIsMentions(e.errorMessage.value, "timeout");
      ContainsIsMentions(e.errorMessage.value, "connection");
    }
  }

  lemma {:induction false} TotalCounts(events: seq<JobEvent>, q: string, p: string, kind: EventType)
    ensures Get(RecordAll(events).jobsTotal, (q, StatusLabel(kind), p)) == CountTotal(events, q, p, kind)
  {
    if events != [] {
      var front, e := events[..|events| - 1], events[|events| - 1];
      TotalCounts(front, q, p, kind);
      assert StatusLabel(e.eventType) == StatusLabel(kind) <==> e.eventType == kind;
    }
  }

  /** Each counter of jobs is the number of events of its queue, kind and priority. */
  lemma TotalsCount(events: seq<JobEvent>, q: string, p: string)
    ensures var total := RecordAll(events).jobsTotal;
      && Get(total, (q, "completed", p)) == CountTotal(events, q, p, Completed)
      && Get(total, (q, "failed", p)) == CountTotal(events, q, p, Failed)
      && Get(total, (q, "timed_out", p)) == CountTotal(events, q, p, TimedOut)
      && Get(total, (q, "dead", p)) == CountTotal(events, q, p, Dead)
      && Get(total, (q, "retried", p)) == CountTotal(events, q, p, Retried)
      && Get(total, (q, "started", p)) == CountTotal(events, q, p, Started)
  {
    TotalCounts(events, q, p, Completed);
    TotalCounts(events, q, p, Failed);
    TotalCounts(events, q, p, TimedOut);
    TotalCounts(events, q, p, Dead);
    TotalCounts(events, q, p, Retried);
    TotalCounts(events, q, p, Started);
  }

  /** Each counter of failures is the number of events that fail as it says. */
  lemma {:induction false} FailuresCount(events: seq<JobEvent>, q: string, p: string, errorType: string)
    ensures Get(RecordAll(events).jobsFailedTotal, (q, errorType, p)) == CountFailed(events, q, p, errorType)
  {
    if events != [] {
      FailuresCount(events[..|events| - 1], q, p, errorType);
      LabelOf(events[|events| - 1], errorType);
    }
  }

  // ---------------------------------------------------------------- agreement

  function FailuresByType(m: Metrics, q: string, p: string): nat {
    Get(m.jobsFailedTotal, (q, "timeout", p)) + Get(m.jobsFailedTotal, (q, "connection", p))
    + Get(m.jobsFailedTotal, (q, "other", p)) + Get(m.jobsFailedTotal, (q, "unknown", p))
    + Get(m.jobsFailedTotal, (q, "exhausted", p))
  }

  function FailuresByStatus(m: Metrics, q: string, p: string): nat {
    Get(m.jobsTotal, (q, "failed", p)) + Get(m.jobsTotal, (q, "timed_out", p)) + Get(m.jobsTotal, (q, "dead", p))
  }

  /** One if the event is a failure of this queue and priority. */
  function Counts(e: JobEvent, q: string, p: string): nat {
    if e.queue == q && e.priority == p && FailureLabel(e).Some? then 1 else 0
  }

  lemma TypesAddOnce(m: Metrics, e: JobEvent, q: string, p: string)
    ensures FailuresByType(Record(m, e), q, p) == FailuresByType(m, q, p) + Counts(e, q, p)
  {
    var failure := FailureLabel(e);
    if failure.Some? {
      assert failure.value in {"timeout", "connection", "other", "unknown", "exhausted"};
    }
  }

  lemma StatusesAddOnce(m: Metrics, e: JobEvent, q: string, p: string)
    ensures FailuresByStatus(Record(m, e), q, p) == FailuresByStatus(m, q, p) + Counts(e, q, p)
  {
  }

  /** A failure adds one to each side, any other event nothing. */
  lemma RecordAddsOnce(m: Metrics, e: JobEvent, q: string, p: string)
    ensures FailuresByType(Record(m, e), q, p) == FailuresByType(m, q, p) + Counts(e, q, p)
    ensures FailuresByStatus(Record(m, e), q, p) == FailuresByStatus(m, q, p) + Counts(e, q, p)
  {
    TypesAddOnce(m, e, q, p);
    StatusesAddOnce(m, e, q, p);
  }

  /** Per queue and priority, failures by error type add up to failed, timed out and dead jobs. */
  lemma {:induction false} FailuresAgree(events: seq<JobEvent>, q: string, p: string)
    ensures FailuresByType(RecordAll(events), q, p) == FailuresByStatus(RecordAll(events), q, p)
  {
    if events != [] {
      FailuresAgree(events[..|events| - 1], q, p);
      RecordAddsOnce(RecordAll(events[..|events| - 1]), events[|events| - 1], q, p);
    }
  }
}
