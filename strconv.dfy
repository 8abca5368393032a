/**
 * Decimal integer parsing as Go's strconv.Atoi (on a 64-bit platform) and
 * strconv.ParseInt(s, 10, 64) do it: an optional sign, then at least one
 * decimal digit and nothing else, with a value inside the int64 range.
 * Itoa, the formatting direction, is the partner the parse is checked against.
 */
module Strconv {
  import opened Wrappers

  const MinInt64: int := -0x8000_0000_0000_0000
  const MaxInt64: int := 0x7fff_ffff_ffff_ffff

  predicate IsDigit(c: char)
  {
    '0' <= c <= '9'
  }

  predicate AllDigits(s: string)
  {
    forall i :: 0 <= i < |s| ==> IsDigit(s[i])
  }

  /** The value of a digit string, most significant digit first. */
  function DigitsValue(s: string): nat
    requires AllDigits(s)
  {
    if |s| == 0 then 0
    else 10 * DigitsValue(s[..|s| - 1]) + (s[|s| - 1] as int - '0' as int)
  }

  /** The parse: None stands for the error Go returns (syntax or range). */
  function ParseInt64(s: string): Option<int>
  {
    var negative := |s| > 0 && s[0] == '-';
    var digits := if |s| > 0 && (s[0] == '-' || s[0] == '+') then s[1..] else s;
    if |digits| == 0 || !AllDigits(digits) then None
    else
      var magnitude: int := DigitsValue(digits);
      var v := if negative then -magnitude else magnitude;
      if MinInt64 <= v <= MaxInt64 then Some(v) else None
  }

  function DigitChar(d: nat): char
    requires d < 10
  {
    ('0' as int + d) as char
  }

  /** The shortest decimal spelling of `n`. */
  function Decimal(n: nat): (s: string)
    ensures |s| > 0 && AllDigits(s)
  {
    if n < 10 then [DigitChar(n)] else Decimal(n / 10) + [DigitChar(n % 10)]
  }

  /** strconv.Itoa: a leading '-' for negative values, then the digits. */
  function Itoa(n: int): string
  {
    if n < 0 then "-" + Decimal(-n) else Decimal(n)
  }

  lemma {:induction false} DecimalValue(n: nat)
    ensures DigitsValue(Decimal(n)) == n
  {
    if n >= 10 {
      DecimalValue(n / 10);
      var s := Decimal(n);
      assert s[..|s| - 1] == Decimal(n / 10);
    }
  }

  /** Every int64 survives formatting and parsing unchanged. */
  lemma ParseItoa(n: int)
    requires MinInt64 <= n <= MaxInt64
    ensures ParseInt64(Itoa(n)) == Some(n)
  {
    var s := Itoa(n);
    if n < 0 {
      var d := Decimal(-n);
      DecimalValue(-n);
      assert s[0] == '-' && s[1..] == d;
    } else {
      DecimalValue(n);
      assert IsDigit(s[0]);
    }
  }

  /** A value outside the int64 range is a range error, even when spelled canonically. */
  lemma ParseRejectsOutOfRange(n: int)
    requires n < MinInt64 || MaxInt64 < n
    ensures ParseInt64(Itoa(n)) == None
  {
    var s := Itoa(n);
    if n < 0 {
      DecimalValue(-n);
      assert s[0] == '-' && s[1..] == Decimal(-n);
    } else {
      DecimalValue(n);
      assert IsDigit(s[0]);
    }
  }

  /** Any non-digit after the optional sign makes the parse fail. */
  lemma ParseRejectsNonDigit(s: string, i: nat)
    requires i < |s| && !IsDigit(s[i])
    requires i > 0 || (s[0] != '-' && s[0] != '+')
    ensures ParseInt64(s) == None
  {
  }
}
