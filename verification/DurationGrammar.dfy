/**
 Which texts the duration parsers read, and as what: a grammar that does not follow the
 parsers' branches. A number is an optional sign, any zeros, and the printed number.
 */
module DurationGrammar {
  import opened Common
  import opened Results
  import opened Decimal
  import opened DurationText

  // ---------------------------------------------------------------- numbers

  function Zeros(z: nat): string {
    if z == 0 then "" else Zeros(z - 1) + "0"
  }

  /** Any text of digits is some zeros and the printed value. */
  lemma {:induction false} DigitsAre(s: string) returns (z: nat)
    requires s != [] && AllDigits(s)
    ensures s == Zeros(z) + Print(Value(s))
  {
    var front, last := s[..|s| - 1], s[|s| - 1];
    assert s == front + [last] && DigitChar(DigitValue(last)) == last;
    assert Value(s) == 10 * Value(front) + DigitValue(last);
    if front == [] {
      z := 0;
    } else {
      z := DigitsAre(front);
      PrintStep(Value(front), DigitValue(last));
      if Value(front) == 0 {
        z := z + 1;
      } else {
        Prefixed(Zeros(z), Print(Value(front)), [last]);
      }
    }
  }

  lemma PrintStep(v: nat, d: nat)
    requires d < 10
    ensures Print(10 * v + d) == if v == 0 then [DigitChar(d)] else Print(v) + [DigitChar(d)]
    ensures v == 0 ==> Print(v) == "0"
  {
  }

  lemma {:induction false} ZerosAndNumber(z: nat, n: nat)
    ensures var s := Zeros(z) + Print(n);
      s != [] && AllDigits(s) && Value(s) == n
  {
    if n < 10 {
      ZerosAreZero(z);
      AppendDigit(Zeros(z), n);
    } else {
      ZerosAndNumber(z, n / 10);
      AppendDigit(Zeros(z) + Print(n / 10), n % 10);
      Prefixed(Zeros(z), Print(n / 10), [DigitChar(n % 10)]);
    }
  }

  lemma AppendDigit(s: string, d: nat)
    requires AllDigits(s) && d < 10
    ensures var t := s + [DigitChar(d)];
      t != [] && AllDigits(t) && Value(t) == 10 * Value(s) + d
  {
    assert (s + [DigitChar(d)])[..|s|] == s;
  }

  lemma {:induction false} ZerosAreZero(z: nat)
    ensures |Zeros(z)| == z && AllDigits(Zeros(z)) && Value(Zeros(z)) == 0
  {
    if z > 0 {
      ZerosAreZero(z - 1);
      assert Zeros(z)[..z - 1] == Zeros(z - 1);
    }
  }

  ghost predicate Spells(s: string, sign: string, z: nat, n: nat) {
    s == sign + Zeros(z) + Print(n)
  }

  /** What `parse::<u64>` reads: an optional plus sign, zeros, and a number that fits. */
  lemma U64Exactly(s: string, n: nat)
    ensures ParseU64(s) == Some(n) <==>
      n <= U64_MAX && exists z: nat :: Spells(s, "", z, n) || Spells(s, "+", z, n)
  {
    var digits := if s != [] && s[0] == '+' then s[1..] else s;
    if ParseU64(s) == Some(n) {
      var z := DigitsAre(digits);
      var sign := if digits == s then "" else "+";
      assert s == sign + digits;
      Prefixed(sign, Zeros(z), Print(n));
      assert Spells(s, sign, z, n);
    }
    if z: nat :| Spells(s, "", z, n) || Spells(s, "+", z, n) {
      SignedDigits(s, if Spells(s, "", z, n) then "" else "+", z, n);
    }
  }

  lemma SignedDigits(s: string, sign: string, z: nat, n: nat)
    requires Spells(s, sign, z, n) && sign in {"", "+", "-"}
    ensures s != [] && (sign == "" ==> IsDigit(s[0])) && (sign != "" ==> s[0] == sign[0])
    ensures ParseNat(s[|sign|..]) == Some(n)
  {
    ZerosAndNumber(z, n);
    assert s[|sign|..] == Zeros(z) + Print(n);
    assert sign == "" ==> s == Zeros(z) + Print(n);
  }

  /** What `parse::<i64>` reads as a number that is not negative; `-0` is one. */
  lemma I64Exactly(s: string, n: nat)
    ensures ParseI64(s) == Some(n) <==>
      && n <= I64_MAX
      && exists z: nat :: Spells(s, "", z, n) || Spells(s, "+", z, n) || (n == 0 && Spells(s, "-", z, n))
  {
    if ParseI64(s) == Some(n) {
      SpelledSigned(s, n);
    }
    if z: nat :| Spells(s, "", z, n) || Spells(s, "+", z, n) || (n == 0 && Spells(s, "-", z, n)) {
      var sign := if Spells(s, "", z, n) then "" else if Spells(s, "+", z, n) then "+" else "-";
      SignedDigits(s, sign, z, n);
      assert sign == "" ==> s[0..] == s;
    }
  }

  lemma SpelledSigned(s: string, n: nat)
    requires ParseI64(s) == Some(n)
    ensures exists z: nat :: Spells(s, "", z, n) || Spells(s, "+", z, n) || (n == 0 && Spells(s, "-", z, n))
  {
    if s[0] == '+' || s[0] == '-' {
      var z := DigitsAre(s[1..]);
      assert Value(s[1..]) == n && (s[0] == '-' ==> n == 0);
      SpelledWith(s, s[0], z, n);
      assert s[0] == '+' ==> Spells(s, "+", z, n);
      assert s[0] == '-' ==> Spells(s, "-", z, n);
    } else {
      var z := DigitsAre(s);
      assert "" + Zeros(z) == Zeros(z);
      assert Spells(s, "", z, n);
    }
  }

  lemma SpelledWith(s: string, sign: char, z: nat, n: nat)
    requires s != [] && s[0] == sign && s[1..] == Zeros(z) + Print(n)
    ensures s == [sign] + Zeros(z) + Print(n)
  {
    assert s == [sign] + s[1..];
    Prefixed([sign], Zeros(z), Print(n));
  }

  lemma Prefixed(a: string, b: string, c: string)
    ensures a + (b + c) == a + b + c
  {
  }

  lemma EndsInDigit(s: string)
    requires ParseU64(s).Some? || ParseI64(s).Some?
    ensures s != [] && IsDigit(s[|s| - 1])
  {
    assert s != [] ==> |s[1..]| == |s| - 1;
  }

  // ---------------------------------------------------------------- white space

  predicate Blank(s: string) {
    forall i :: 0 <= i < |s| ==> IsSpace(s[i])
  }

  /** ASCII white space: tab, line feed, vertical tab, form feed, carriage return and space. */
  lemma SpacesAre(c: char)
    ensures IsSpace(c) <==> c as int in {9, 10, 11, 12, 13, 32}
  {
  }

  /** White space around a text is dropped. */
  lemma TrimStrips(before: string, s: string, after: string)
    requires Blank(before) && Blank(after) && s != [] && !IsSpace(s[0]) && !IsSpace(s[|s| - 1])
    ensures Trim(before + s + after) == s
  {
    assert before + s + after == before + (s + after);
    StartStripped(before, s + after);
    EndStripped(s, after);
  }

  lemma {:induction false} StartStripped(before: string, s: string)
    requires Blank(before) && s != [] && !IsSpace(s[0])
    ensures TrimStart(before + s) == s
  {
    if before == [] {
      assert before + s == s;
    } else {
      assert (before + s)[1..] == before[1..] + s;
      StartStripped(before[1..], s);
    }
  }

  lemma {:induction false} EndStripped(s: string, after: string)
    requires Blank(after) && s != [] && !IsSpace(s[|s| - 1])
    ensures TrimEnd(s + after) == s
  {
    if after == [] {
      assert s + after == s;
    } else {
      assert (s + after)[..|s + after| - 1] == s + after[..|after| - 1];
      EndStripped(s, after[..|after| - 1]);
    }
  }

  /** A bare number of seconds, white space around it or not. */
  lemma BareSeconds(before: string, n: nat, after: string)
    requires Blank(before) && Blank(after)
    ensures ParseDuration(before + Print(n) + after) == if n <= U64_MAX then Ok(StdDuration(n, 0)) else Err
  {
    assert IsDigit(Print(n)[0]) && IsDigit(Print(n)[|Print(n)| - 1]);
    TrimStrips(before, Print(n), after);
    ParsePrint(n);
    if n > U64_MAX {
      TooLong(n);
    }
  }

  lemma TooLong(n: nat)
    ensures |Print(n)| >= 2 ==> ParseU64(Print(n)).None? ==>
      Print(n)[|Print(n)| - 2..] != "ms" && Print(n)[|Print(n)| - 1] !in {'s', 'm', 'h', 'd'}
  {
    var s := Print(n);
    assert |s| >= 2 ==> s[|s| - 2..][1] == s[|s| - 1];
  }

  /** A bare number of days, for retentions. */
  lemma BareDays(before: string, n: nat, after: string)
    requires Blank(before) && Blank(after)
    ensures ParseChrono(before + Print(n) + after) ==
      if n * 86_400 <= CHRONO_MAX_SECS then Ok(n * 86_400 * 1_000_000_000) else Err
  {
    var s := Print(n);
    assert IsDigit(s[0]) && IsDigit(s[|s| - 1]);
    TrimStrips(before, s, after);
    ParsePrint(n);
  }

  // ---------------------------------------------------------------- durations

  const UNITS := map["" := 1_000_000_000, "ms" := 1_000_000, "s" := 1_000_000_000, "m" := 60_000_000_000,
                     "h" := 3_600_000_000_000, "d" := 86_400_000_000_000]

  /** The text is a number and a unit, no unit meaning seconds, and their product fits. */
  ghost predicate Reads(s: string, num: string, unit: string, n: nat, d: StdDuration) {
    && s == num + unit && unit in UNITS
    && ParseU64(if unit == "ms" then Trim(num) else num) == Some(n)
    && d.Valid() && d.Nanos() == n * UNITS[unit]
  }

  lemma SameNanos(d: StdDuration, e: StdDuration)
    requires d.nanos < 1_000_000_000 && e.nanos < 1_000_000_000 && d.Nanos() == e.Nanos()
    ensures d == e
  {
    var x := d.secs - e.secs;
    assert x * 1_000_000_000 == e.nanos - d.nanos;
  }

  lemma MillisNanos(n: nat)
    ensures FromMillis(n).nanos < 1_000_000_000 && FromMillis(n).Nanos() == n * 1_000_000
    ensures n <= U64_MAX ==> FromMillis(n).Valid()
  {
    assert n == n / 1000 * 1000 + n % 1000;
  }

  /**
   A duration is read exactly from the texts that are, between white space, a number and a
   unit whose product fits; every other text is refused.
   */
  lemma ParsedExactly(text: string, d: StdDuration)
    ensures ParseDuration(text) == Ok(d) <==>
      exists num: string, unit: string, n: nat :: Reads(Trim(text), num, unit, n, d)
  {
    var s := Trim(text);
    if ParseDuration(text) == Ok(d) {
      ReadOne(s, d, text);
    }
    if num: string, unit: string, n: nat :| Reads(s, num, unit, n, d) {
      ReadsParse(text, num, unit, n, d);
    }
  }

  lemma ReadOne(s: string, d: StdDuration, text: string)
    requires s == Trim(text) && ParseDuration(text) == Ok(d)
    ensures exists num: string, unit: string, n: nat :: Reads(s, num, unit, n, d)
  {
    if ParseU64(s).Some? {
      ReadBare(s, ParseU64(s).value);
    } else if |s| >= 2 && s[|s| - 2..] == "ms" {
      var num := s[..|s| - 2];
      ReadMillis(s, num, ParseU64(Trim(num)).value);
    } else {
      var num, letter := s[..|s| - 1], s[|s| - 1];
      ReadLetter(s, num, letter, ParseU64(num).value, d);
    }
  }

  lemma ReadBare(s: string, n: nat)
    requires ParseU64(s) == Some(n)
    ensures Reads(s, s, "", n, StdDuration(n, 0))
  {
    assert s + "" == s;
  }

  lemma ReadMillis(s: string, num: string, n: nat)
    requires |s| >= 2 && s[|s| - 2..] == "ms" && num == s[..|s| - 2] && ParseU64(Trim(num)) == Some(n)
    ensures Reads(s, num, "ms", n, FromMillis(n))
  {
    assert s == num + "ms";
    MillisNanos(n);
  }

  lemma ReadLetter(s: string, num: string, letter: char, n: nat, d: StdDuration)
    requires s != [] && num == s[..|s| - 1] && letter == s[|s| - 1] && ParseU64(num) == Some(n)
    requires || (letter == 's' && d == StdDuration(n, 0))
             || (letter == 'm' && CheckedSecs(n, 60) == Ok(d))
             || (letter == 'h' && CheckedSecs(n, 3600) == Ok(d))
             || (letter == 'd' && CheckedSecs(n, 86_400) == Ok(d))
    ensures Reads(s, num, [letter], n, d)
  {
    assert s == num + [letter];
    LettersAreUnits(letter);
  }

  lemma LettersAreUnits(c: char)
    ensures c == 's' ==> [c] == "s" && UNITS[[c]] == 1_000_000_000
    ensures c == 'm' ==> [c] == "m" && UNITS[[c]] == 60_000_000_000
    ensures c == 'h' ==> [c] == "h" && UNITS[[c]] == 3_600_000_000_000
    ensures c == 'd' ==> [c] == "d" && UNITS[[c]] == 86_400_000_000_000
  {
  }

  lemma ReadsParse(text: string, num: string, unit: string, n: nat, d: StdDuration)
    requires Reads(Trim(text), num, unit, n, d)
    ensures ParseDuration(text) == Ok(d)
  {
    if unit == "" {
      assert num == Trim(text);
      SameNanos(d, StdDuration(n, 0));
    } else if unit == "ms" {
      MillisParse(text, Trim(text), num, n);
      MillisNanos(n);
      SameNanos(d, FromMillis(n));
    } else {
      LetterReads(Trim(text), num, unit);
      LetterParses(text, Trim(text), num, unit, n);
      LetterValue(unit, n, d);
    }
  }

  lemma MillisParse(text: string, s: string, num: string, n: nat)
    requires s == Trim(text) == num + "ms" && ParseU64(Trim(num)) == Some(n)
    ensures ParseDuration(text) == Ok(FromMillis(n))
  {
    assert s[|s| - 1] == 's';
    LetterIsNoNumber(s);
    assert s[|s| - 2..] == "ms" && s[..|s| - 2] == num;
  }

  lemma LetterParses(text: string, s: string, num: string, unit: string, n: nat)
    requires s == Trim(text) && ParseU64(s).None? && |s| >= 2 && s[|s| - 2..] != "ms"
    requires s[..|s| - 1] == num && [s[|s| - 1]] == unit && ParseU64(num) == Some(n)
    ensures unit == "s" ==> ParseDuration(text) == Ok(StdDuration(n, 0))
    ensures unit == "m" ==> ParseDuration(text) == CheckedSecs(n, 60)
    ensures unit == "h" ==> ParseDuration(text) == CheckedSecs(n, 3600)
    ensures unit == "d" ==> ParseDuration(text) == CheckedSecs(n, 86_400)
  {
    assert unit[0] == s[|s| - 1];
  }

  lemma LetterReads(s: string, num: string, unit: string)
    requires s == num + unit && ParseU64(num).Some? && unit in {"s", "m", "h", "d"}
    ensures ParseU64(s).None? && |s| >= 2 && s[|s| - 2..] != "ms"
    ensures s[..|s| - 1] == num && [s[|s| - 1]] == unit
  {
    assert s[|s| - 1] == unit[0];
    LetterIsNoNumber(s);
    EndsInDigit(num);
    assert s[|s| - 2..][0] == num[|num| - 1];
  }

  lemma LetterValue(unit: string, n: nat, d: StdDuration)
    requires unit in UNITS && d.Valid() && d.Nanos() == n * UNITS[unit]
    ensures unit == "s" ==> d == StdDuration(n, 0)
    ensures unit == "m" ==> d == StdDuration(n * 60, 0)
    ensures unit == "h" ==> d == StdDuration(n * 3600, 0)
    ensures unit == "d" ==> d == StdDuration(n * 86_400, 0)
  {
    if unit == "s" {
      SameNanos(d, StdDuration(n, 0));
    } else if unit == "m" {
      SameNanos(d, StdDuration(n * 60, 0));
    } else if unit == "h" {
      SameNanos(d, StdDuration(n * 3600, 0));
    } else if unit == "d" {
      SameNanos(d, StdDuration(n * 86_400, 0));
    }
  }

  // ---------------------------------------------------------------- retentions

  const RETENTION_UNITS := map["" := 86_400, "d" := 86_400, "h" := 3600, "m" := 60, "s" := 1]

  /** The text is a number that is not negative and a unit, no unit meaning days, and their product fits. */
  ghost predicate ReadsRetention(s: string, num: string, unit: string, n: nat, nanos: int) {
    && s == num + unit && unit in RETENTION_UNITS
    && ParseI64(num) == Some(n)
    && n * RETENTION_UNITS[unit] <= CHRONO_MAX_SECS && nanos == n * RETENTION_UNITS[unit] * 1_000_000_000
  }

  lemma RetentionParsedExactly(text: string, nanos: int)
    ensures ParseChrono(text) == Ok(nanos) <==>
      exists num: string, unit: string, n: nat :: ReadsRetention(Trim(text), num, unit, n, nanos)
  {
    if ParseChrono(text) == Ok(nanos) {
      ReadOneRetention(text, Trim(text), nanos);
    }
    if num: string, unit: string, n: nat :| ReadsRetention(Trim(text), num, unit, n, nanos) {
      RetentionParses(text, Trim(text), num, unit, n, nanos);
    }
  }

  lemma ReadOneRetention(text: string, s: string, nanos: int)
    requires s == Trim(text) && ParseChrono(text) == Ok(nanos)
    ensures exists num: string, unit: string, n: nat :: ReadsRetention(s, num, unit, n, nanos)
  {
    if ParseI64(s).Some? {
      assert s + "" == s;
      assert ReadsRetention(s, s, "", ParseI64(s).value, nanos);
    } else {
      var num, letter := s[..|s| - 1], s[|s| - 1];
      assert s == num + [letter];
      RetentionLetters(letter);
      assert ReadsRetention(s, num, [letter], ParseI64(num).value, nanos);
    }
  }

  lemma RetentionLetters(c: char)
    ensures UnitSecs(c).Some? <==> [c] in RETENTION_UNITS
    ensures UnitSecs(c).Some? ==> UnitSecs(c).value == RETENTION_UNITS[[c]]
  {
    assert c == 'd' ==> [c] == "d";
    assert c == 'h' ==> [c] == "h";
    assert c == 'm' ==> [c] == "m";
    assert c == 's' ==> [c] == "s";
  }

  lemma RetentionParses(text: string, s: string, num: string, unit: string, n: nat, nanos: int)
    requires s == Trim(text) && ReadsRetention(s, num, unit, n, nanos)
    ensures ParseChrono(text) == Ok(nanos)
  {
    if unit == "" {
      assert num == s;
    } else {
      assert |unit| == 1 && unit == [unit[0]];
      assert s[|s| - 1] == unit[0] && s[..|s| - 1] == num;
      RetentionLetters(unit[0]);
      LetterIsNoNumber(s);
      EndsInDigit(num);
    }
  }

  // ---------------------------------------------------------------- printing

  /** Whole seconds are printed in the largest unit that divides them, up to hours. */
  lemma PrintsLargestUnit(d: StdDuration) returns (n: nat, unit: string)
    requires d.Valid() && d.nanos == 0
    ensures unit in {"s", "m", "h"} && Serialize(d) == Print(n) + unit
    ensures n * UNITS[unit] == d.Nanos()
    ensures unit == "h" <==> d.secs > 0 && d.secs % 3600 == 0
    ensures unit == "s" <==> d.secs == 0 || d.secs % 60 != 0
  {
    if d.secs == 0 {
      n, unit := 0, "s";
      assert Print(0) == "0";
    } else if d.secs % 3600 == 0 {
      n, unit := d.secs / 3600, "h";
    } else if d.secs % 60 == 0 {
      n, unit := d.secs / 60, "m";
    } else {
      n, unit := d.secs, "s";
    }
  }

  /** Anything finer is printed in milliseconds, at least one. */
  lemma PrintsMillis(d: StdDuration) returns (n: nat)
    requires d.Valid() && d.nanos != 0
    ensures Serialize(d) == Print(n) + "ms" && n >= 1
    ensures n * 1_000_000 <= d.Nanos() < (n + 1) * 1_000_000 || (n == 1 && d.Nanos() < 1_000_000)
  {
    n := Max(d.Millis(), 1);
    assert d.nanos == d.nanos / 1_000_000 * 1_000_000 + d.nanos % 1_000_000;
  }

  /** A retention is printed in the largest unit that divides its whole seconds, up to days. */
  lemma PrintsLargestRetentionUnit(nanos: int) returns (n: int, unit: string)
    requires ValidChrono(nanos)
    ensures unit in {"d", "h", "m", "s"} && FormatChrono(nanos) == PrintInt(n) + unit
    ensures n * RETENTION_UNITS[unit] == NumSeconds(nanos)
    ensures forall larger :: larger in {"d", "h", "m"} && RETENTION_UNITS[larger] > RETENTION_UNITS[unit] ==>
      NumSeconds(nanos) % RETENTION_UNITS[larger] != 0
  {
    var secs := NumSeconds(nanos);
    DividesDays(secs);
    DividesHours(secs);
    DividesMinutes(secs);
    if Divides(86_400, secs) {
      n, unit := TruncDiv(secs, 86_400), "d";
    } else if Divides(3600, secs) {
      n, unit := TruncDiv(secs, 3600), "h";
    } else if Divides(60, secs) {
      n, unit := TruncDiv(secs, 60), "m";
    } else {
      n, unit := secs, "s";
    }
  }

  lemma DividesDays(secs: int)
    ensures Divides(86_400, secs) <==> secs % 86_400 == 0
    ensures Divides(86_400, secs) ==> TruncDiv(secs, 86_400) * 86_400 == secs
  {
  }

  lemma DividesHours(secs: int)
    ensures Divides(3600, secs) <==> secs % 3600 == 0
    ensures Divides(3600, secs) ==> TruncDiv(secs, 3600) * 3600 == secs
  {
  }

  lemma DividesMinutes(secs: int)
    ensures Divides(60, secs) <==> secs % 60 == 0
    ensures Divides(60, secs) ==> TruncDiv(secs, 60) * 60 == secs
  {
  }
}
