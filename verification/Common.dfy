/** What several components share. */
module Common {
  datatype Option<+T> = None | Some(value: T)

  function Min(a: nat, b: nat): nat {
    if a <= b then a else b
  }

  function Max(a: nat, b: nat): nat {
    if a <= b then b else a
  }

  predicate Distinct(names: seq<string>) {
    forall i, j :: 0 <= i < j < |names| ==> names[i] != names[j]
  }
}

/** A value or an error whose message does not matter. */
module Results {
  datatype Result<+T> = Ok(value: T) | Err
}

/** The status of a job, and the text it is stored as. */
module JobStatuses {
  datatype JobStatus = Pending | Running | Completed | Failed | Dead | TimedOut | Retrying | Archived

  function StatusText(s: JobStatus): string {
    match s
    case Pending => "Pending"
    case Running => "Running"
    case Completed => "Completed"
    case Failed => "Failed"
    case Dead => "Dead"
    case TimedOut => "TimedOut"
    case Retrying => "Retrying"
    case Archived => "Archived"
  }
}
