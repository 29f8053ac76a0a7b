/** The duration formats of the configuration file: `serde_duration` and `chrono_duration_days`. */
module DurationText {
  import opened Common
  import opened Results
  import opened Decimal

  // ---------------------------------------------------------------- std::time::Duration

  datatype StdDuration = StdDuration(secs: nat, nanos: nat) {
    predicate Valid() {
      secs <= U64_MAX && nanos < 1_000_000_000
    }

    /** Whole milliseconds, in 128 bits. */
    function Millis(): nat {
      secs * 1000 + nanos / 1_000_000
    }

    function Nanos(): nat {
      secs * 1_000_000_000 + nanos
    }
  }

  function FromMillis(ms: nat): StdDuration {
    StdDuration(ms / 1000, ms % 1000 * 1_000_000)
  }

  function Serialize(d: StdDuration): string {
    if d.nanos != 0 then Print(Max(d.Millis(), 1)) + "ms"
    else if d.secs == 0 then "0s"
    else if d.secs % 3600 == 0 then Print(d.secs / 3600) + "h"
    else if d.secs % 60 == 0 then Print(d.secs / 60) + "m"
    else Print(d.secs) + "s"
  }

  function CheckedSecs(num: nat, unit: nat): Result<StdDuration> {
    if num * unit <= U64_MAX then Ok(StdDuration(num * unit, 0)) else Err
  }

  function ParseDuration(text: string): Result<StdDuration> {
    var s := Trim(text);
    if ParseU64(s).Some? then Ok(StdDuration(ParseU64(s).value, 0))
    else if |s| >= 2 && s[|s| - 2..] == "ms" then
      var millis := ParseU64(Trim(s[..|s| - 2]));
      if millis.Some? then Ok(FromMillis(millis.value)) else Err
    else if |s| < 2 then Err
    else
      var num := ParseU64(s[..|s| - 1]);
      if num.None? then Err
      else match s[|s| - 1]
        case 's' => Ok(StdDuration(num.value, 0))
        case 'm' => CheckedSecs(num.value, 60)
        case 'h' => CheckedSecs(num.value, 3600)
        case 'd' => CheckedSecs(num.value, 86400)
        case _ => Err
  }

  lemma TrimKeeps(s: string)
    requires s != [] && !IsSpace(s[0]) && !IsSpace(s[|s| - 1])
    ensures Trim(s) == s
  {
  }

  /** How `n` followed by a unit letter reads. */
  lemma ParseUnit(n: nat, unit: char)
    requires unit == 's' || unit == 'm' || unit == 'h' || unit == 'd'
    ensures ParseDuration(Print(n) + [unit]) ==
      if n > U64_MAX then Err
      else CheckedSecs(n, if unit == 's' then 1 else if unit == 'm' then 60 else if unit == 'h' then 3600 else 86400)
  {
    var s := Print(n) + [unit];
    assert IsDigit(s[0]) && s[|s| - 1] == unit;
    TrimKeeps(s);
    LetterIsNoNumber(s);
    assert IsDigit(s[|s| - 2]);
    assert s[|s| - 2..][0] == s[|s| - 2];
    assert s[..|s| - 1] == Print(n);
    ParsePrint(n);
  }

  lemma ParseMillis(n: nat)
    ensures ParseDuration(Print(n) + "ms") == if n <= U64_MAX then Ok(FromMillis(n)) else Err
  {
    var s := Print(n) + "ms";
    assert IsDigit(s[0]) && s[|s| - 1] == 's';
    TrimKeeps(s);
    LetterIsNoNumber(s);
    assert s[|s| - 2..] == "ms";
    assert s[..|s| - 2] == Print(n);
    assert IsDigit(Print(n)[0]) && IsDigit(Print(n)[|Print(n)| - 1]);
    TrimKeeps(Print(n));
    ParsePrint(n);
  }

  /** What a printed duration reads back as, for every duration. */
  lemma ReadBack(d: StdDuration)
    requires d.Valid()
    ensures ParseDuration(Serialize(d)) ==
      if d.nanos == 0 then Ok(d)
      else if Max(d.Millis(), 1) <= U64_MAX then Ok(FromMillis(Max(d.Millis(), 1)))
      else Err
  {
    if d.nanos != 0 {
      ParseMillis(Max(d.Millis(), 1));
    } else if d.secs == 0 {
      assert Print(0) == "0";
      assert "0s" == Print(0) + ['s'];
      ParseUnit(0, 's');
    } else if d.secs % 3600 == 0 {
      UnitReadBack(d.secs, 3600, 'h');
    } else if d.secs % 60 == 0 {
      UnitReadBack(d.secs, 60, 'm');
    } else {
      UnitReadBack(d.secs, 1, 's');
    }
  }

  lemma UnitReadBack(secs: nat, unit: nat, letter: char)
    requires secs <= U64_MAX && (unit, letter) in {(1, 's'), (60, 'm'), (3600, 'h')} && secs % unit == 0
    ensures ParseDuration(Print(secs / unit) + [letter]) == Ok(StdDuration(secs, 0))
  {
    ParseUnit(secs / unit, letter);
    assert secs / unit * unit == secs;
  }

  /** A duration survives exactly when it is whole seconds, or whole milliseconds that fit 64 bits. */
  lemma RoundTripExactly(d: StdDuration)
    requires d.Valid()
    ensures ParseDuration(Serialize(d)) == Ok(d) <==>
      d.nanos == 0 || (d.nanos % 1_000_000 == 0 && d.Millis() <= U64_MAX)
  {
    ReadBack(d);
    MillisRoundTrip(d);
  }

  lemma MillisRoundTrip(d: StdDuration)
    requires d.Valid()
    ensures FromMillis(d.Millis()) == StdDuration(d.secs, d.nanos / 1_000_000 * 1_000_000)
  {
  }

  /** Otherwise it is cut to milliseconds, and a non-zero duration never reads back as zero. */
  lemma ReadBackIsClose(d: StdDuration)
    requires d.Valid() && ParseDuration(Serialize(d)).Ok?
    ensures var r := ParseDuration(Serialize(d)).value;
      && r.Valid()
      && (d.Nanos() > 0 ==> r.Nanos() > 0)
      && (d.Nanos() >= 1_000_000 ==> r.Nanos() <= d.Nanos() < r.Nanos() + 1_000_000)
      && (0 < d.Nanos() < 1_000_000 ==> r.Nanos() == 1_000_000)
  {
    ReadBack(d);
    MillisRoundTrip(d);
    if d.nanos != 0 && d.Millis() == 0 {
      assert FromMillis(1) == StdDuration(0, 1_000_000);
    }
  }

  // ---------------------------------------------------------------- chrono::Duration

  // A chrono duration in nanoseconds; its range is that of i64 milliseconds.
  const CHRONO_MAX_SECS: int := I64_MAX / 1000

  predicate ValidChrono(nanos: int) {
    -(I64_MAX * 1_000_000) <= nanos <= I64_MAX * 1_000_000
  }

  /** Division that truncates toward zero, as Rust's. */
  function TruncDiv(a: int, b: int): int
    requires b > 0
  {
    if a >= 0 then a / b else -(-a / b)
  }

  /** Whether Rust's remainder is zero. */
  predicate Divides(b: int, a: int)
    requires b > 0
  {
    a - TruncDiv(a, b) * b == 0
  }

  function NumSeconds(nanos: int): int {
    TruncDiv(nanos, 1_000_000_000)
  }

  function FormatChrono(nanos: int): string {
    var secs := NumSeconds(nanos);
    if Divides(86_400, secs) then PrintInt(TruncDiv(secs, 86_400)) + "d"
    else if Divides(3600, secs) then PrintInt(TruncDiv(secs, 3600)) + "h"
    else if Divides(60, secs) then PrintInt(TruncDiv(secs, 60)) + "m"
    else PrintInt(secs) + "s"
  }

  function UnitSecs(unit: char): Option<nat> {
    match unit
    case 'd' => Some(86_400)
    case 'h' => Some(3600)
    case 'm' => Some(60)
    case 's' => Some(1)
    case _ => None
  }

  function Scaled(num: Option<int>, unit: nat): Result<int> {
    if num.None? || num.value < 0 then Err
    else if num.value * unit <= I64_MAX && num.value * unit <= CHRONO_MAX_SECS
    then Ok(num.value * unit * 1_000_000_000)
    else Err
  }

  function ParseChrono(text: string): Result<int> {
    var s := Trim(text);
    if ParseI64(s).Some? then Scaled(ParseI64(s), 86_400)
    else if |s| < 2 || UnitSecs(s[|s| - 1]).None? then Err
    else Scaled(ParseI64(s[..|s| - 1]), UnitSecs(s[|s| - 1]).value)
  }

  lemma ParseChronoUnit(n: int, unit: char)
    requires UnitSecs(unit).Some? && -I64_MAX <= n <= I64_MAX
    ensures ParseChrono(PrintInt(n) + [unit]) == Scaled(Some(n), UnitSecs(unit).value)
  {
    var s := PrintInt(n) + [unit];
    assert !IsSpace(s[0]) && s[|s| - 1] == unit;
    TrimKeeps(s);
    LetterIsNoNumber(s);
    assert s[..|s| - 1] == PrintInt(n);
    if n < 0 {
      ParsePrintNegative(-n);
    } else {
      ParsePrint(n);
    }
  }

  /** Printing and reading keeps the whole seconds of a duration, and refuses negative ones. */
  lemma ChronoReadBack(nanos: int)
    requires ValidChrono(nanos)
    ensures ParseChrono(FormatChrono(nanos)) == NonNegative(NumSeconds(nanos))
  {
    var secs := NumSeconds(nanos);
    NumSecondsInRange(nanos);
    if Divides(86_400, secs) {
      DaysBack(secs);
      ParseChronoUnit(TruncDiv(secs, 86_400), 'd');
    } else if Divides(3600, secs) {
      HoursBack(secs);
      ParseChronoUnit(TruncDiv(secs, 3600), 'h');
    } else if Divides(60, secs) {
      MinutesBack(secs);
      ParseChronoUnit(TruncDiv(secs, 60), 'm');
    } else {
      ParseChronoUnit(secs, 's');
    }
  }

  /** The whole seconds of a duration, or a refusal. */
  function NonNegative(secs: int): Result<int> {
    if secs < 0 then Err else Ok(secs * 1_000_000_000)
  }

  predicate ChronoSecs(secs: int) {
    -CHRONO_MAX_SECS <= secs <= CHRONO_MAX_SECS
  }

  lemma DaysBack(secs: int)
    requires ChronoSecs(secs) && Divides(86_400, secs)
    ensures ChronoSecs(TruncDiv(secs, 86_400)) && Scaled(Some(TruncDiv(secs, 86_400)), 86_400) == NonNegative(secs)
  {
  }

  lemma HoursBack(secs: int)
    requires ChronoSecs(secs) && Divides(3600, secs)
    ensures ChronoSecs(TruncDiv(secs, 3600)) && Scaled(Some(TruncDiv(secs, 3600)), 3600) == NonNegative(secs)
  {
  }

  lemma MinutesBack(secs: int)
    requires ChronoSecs(secs) && Divides(60, secs)
    ensures ChronoSecs(TruncDiv(secs, 60)) && Scaled(Some(TruncDiv(secs, 60)), 60) == NonNegative(secs)
  {
  }

  lemma NumSecondsInRange(nanos: int)
    requires ValidChrono(nanos)
    ensures ChronoSecs(NumSeconds(nanos))
  {
  }

  /** So a chrono duration survives exactly when it is non-negative and whole seconds. */
  lemma ChronoRoundTripExactly(nanos: int)
    requires ValidChrono(nanos)
    ensures ParseChrono(FormatChrono(nanos)) == Ok(nanos) <==> nanos >= 0 && nanos % 1_000_000_000 == 0
  {
    ChronoReadBack(nanos);
  }
}
