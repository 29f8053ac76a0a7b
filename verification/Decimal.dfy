/** Decimal numbers as text, the way Rust prints and parses integers, on ASCII text. */
module Decimal {
  import opened Common

  const U64_MAX: nat := 0xFFFF_FFFF_FFFF_FFFF
  const I64_MAX: int := 0x7FFF_FFFF_FFFF_FFFF

  function DigitChar(d: nat): char
    requires d < 10
  {
    '0' + d as char
  }

  predicate IsDigit(c: char) {
    '0' <= c <= '9'
  }

  function DigitValue(c: char): nat
    requires IsDigit(c)
  {
    (c - '0') as nat
  }

  predicate AllDigits(s: string) {
    forall i :: 0 <= i < |s| ==> IsDigit(s[i])
  }

  function Print(n: nat): (s: string)
    ensures s != [] && AllDigits(s)
  {
    if n < 10 then [DigitChar(n)] else Print(n / 10) + [DigitChar(n % 10)]
  }

  function PrintInt(n: int): string {
    if n < 0 then "-" + Print(-n) else Print(n)
  }

  function Value(s: string): nat
    requires AllDigits(s)
  {
    if s == [] then 0 else 10 * Value(s[..|s| - 1]) + DigitValue(s[|s| - 1])
  }

  function ParseNat(s: string): Option<nat> {
    if s != [] && AllDigits(s) then Some(Value(s)) else None
  }

  /** `str::parse::<u64>`: an optional plus sign, digits, and no overflow. */
  function ParseU64(s: string): Option<nat> {
    var n := ParseNat(if s != [] && s[0] == '+' then s[1..] else s);
    if n.Some? && n.value <= U64_MAX then n else None
  }

  /** `str::parse::<i64>`: an optional sign, digits, and no overflow. */
  function ParseI64(s: string): Option<int> {
    var n := ParseNat(if s != [] && (s[0] == '+' || s[0] == '-') then s[1..] else s);
    if n.None? then None
    else if s[0] == '-' then (if n.value <= I64_MAX + 1 then Some(0 - n.value as int) else None)
    else if n.value <= I64_MAX then Some(n.value)
    else None
  }

  lemma {:induction false} ValueOfPrint(n: nat)
    ensures Value(Print(n)) == n
  {
    if n < 10 {
      assert Print(n)[..0] == [];
    } else {
      ValueOfPrint(n / 10);
      assert Print(n)[..|Print(n)| - 1] == Print(n / 10);
    }
  }

  /** The ten digits, and that the most significant one comes first. */
  lemma DigitsSpelled(d: nat)
    requires d < 10
    ensures Print(d) == ["0123456789"[d]] && Print(10) == "10"
  {
  }

  /** Printing and parsing are inverse within the width of the type. */
  lemma ParsePrint(n: nat)
    ensures ParseU64(Print(n)) == if n <= U64_MAX then Some(n) else None
    ensures ParseI64(Print(n)) == if n <= I64_MAX then Some(n) else None
  {
    ValueOfPrint(n);
    assert IsDigit(Print(n)[0]);
  }

  lemma ParsePrintNegative(n: int)
    requires 0 < n <= I64_MAX
    ensures ParseI64(PrintInt(-n)) == Some(-n)
  {
    ValueOfPrint(n);
    assert PrintInt(-n)[1..] == Print(n);
  }

  /** Text that ends in a letter is not a number. */
  lemma LetterIsNoNumber(s: string)
    requires s != [] && !IsDigit(s[|s| - 1]) && s[|s| - 1] != '+' && s[|s| - 1] != '-'
    ensures ParseU64(s) == None && ParseI64(s) == None
  {
  }

  // ---------------------------------------------------------------- trimming

  predicate IsSpace(c: char) {
    c == ' ' || '\t' <= c <= '\r'
  }

  function TrimStart(s: string): string {
    if s != [] && IsSpace(s[0]) then TrimStart(s[1..]) else s
  }

  function TrimEnd(s: string): string {
    if s != [] && IsSpace(s[|s| - 1]) then TrimEnd(s[..|s| - 1]) else s
  }

  function Trim(s: string): string {
    TrimEnd(TrimStart(s))
  }
}
