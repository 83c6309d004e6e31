/**
 * Decimal numerals as the Go code prints and parses them: `%d` and
 * `strconv.Itoa`, `strconv.Atoi` on a 64-bit platform, and the `%04s`
 * padding of the date.
 */
module Decimal {
  import opened Wrappers
  import opened Text

  /** The numeral character of a digit. */
  function DigitChar(d: nat): (c: char)
    requires d < 10
    ensures IsAsciiDigit(c) && c as int - '0' as int == d
  {
    ('0' as int + d) as char
  }

  /** The value of a numeral character. */
  function DigitValue(c: char): (d: nat)
    requires IsAsciiDigit(c)
    ensures d < 10
  {
    c as int - '0' as int
  }

  /** Every character is an ASCII digit (RE2's `\d`). */
  predicate AllDigits(s: string) {
    forall i :: 0 <= i < |s| ==> IsAsciiDigit(s[i])
  }

  /** The decimal numeral of a natural number, without leading zeros. */
  function NatString(n: nat): (s: string)
    ensures s != [] && AllDigits(s)
    ensures |s| > 1 ==> s[0] != '0'
    decreases n
  {
    if n < 10 then [DigitChar(n)] else NatString(n / 10) + [DigitChar(n % 10)]
  }

  /** `%d` and `strconv.Itoa`: a minus sign before the numeral of a negative number. */
  function IntString(n: int): (s: string)
    ensures s != [] && '_' !in s
    ensures n >= 0 ==> s == NatString(n)
    ensures n < 0 ==> s == "-" + NatString(-n)
  {
    if n < 0 then "-" + NatString(-n) else NatString(n)
  }

  /** The value of a string of digits, read most significant first. */
  function DigitsValue(s: string): nat
    requires AllDigits(s)
  {
    if s == [] then 0 else 10 * DigitsValue(s[..|s| - 1]) + DigitValue(s[|s| - 1])
  }

  /** Reading back a printed natural number gives the number. */
  lemma {:induction false} NatStringValue(n: nat)
    ensures DigitsValue(NatString(n)) == n
    decreases n
  {
    if n >= 10 {
      var s := NatString(n);
      assert s[..|s| - 1] == NatString(n / 10);
      NatStringValue(n / 10);
    }
  }

  /** Parse an optional sign and one or more digits, with no bound on the value. */
  function ParseInt(s: string): (r: Option<int>)
    ensures r.Some? <==>
      || (s != [] && AllDigits(s))
      || (|s| >= 2 && (s[0] == '+' || s[0] == '-') && AllDigits(s[1..]))
    ensures r.Some? && s[0] == '-' ==> r.value == 0 - DigitsValue(s[1..]) as int
    ensures r.Some? && s[0] != '-' ==> r.value >= 0
    ensures r.Some? && s[0] != '-' ==> r.value == DigitsValue(if s[0] == '+' then s[1..] else s) as int
  {
    if s == [] then None
    else if s[0] == '+' || s[0] == '-' then
      var digits := s[1..];
      if digits == [] || !AllDigits(digits) then None
      else Some(if s[0] == '-' then 0 - DigitsValue(digits) as int else DigitsValue(digits) as int)
    else if AllDigits(s) then Some(DigitsValue(s))
    else None
  }

  const MinInt64: int := -0x8000_0000_0000_0000
  const MaxInt64: int := 0x7FFF_FFFF_FFFF_FFFF

  /**
   * `strconv.Atoi`: an optional `+` or `-` and at least one ASCII digit,
   * and a value that fits in 64 bits; anything else is an error.
   */
  function Atoi(s: string): (r: Option<int>)
    ensures r.Some? ==> MinInt64 <= r.value <= MaxInt64
    ensures r.Some? ==> ParseInt(s) == r
    ensures ParseInt(s).Some? && MinInt64 <= ParseInt(s).value <= MaxInt64 ==> r == ParseInt(s)
  {
    match ParseInt(s)
    case Some(n) => if MinInt64 <= n <= MaxInt64 then Some(n) else None
    case None => None
  }

  /** Printing and parsing are inverse: every number is read back from its numeral. */
  lemma ParsePrinted(n: int)
    ensures ParseInt(IntString(n)) == Some(n)
    ensures MinInt64 <= n <= MaxInt64 ==> Atoi(IntString(n)) == Some(n)
  {
    if n < 0 {
      NatStringValue(-n);
      assert ("-" + NatString(-n))[1..] == NatString(-n);
    } else {
      NatStringValue(n);
    }
  }

  /** Different numbers print differently. */
  lemma IntStringInjective(a: int, b: int)
    requires IntString(a) == IntString(b)
    ensures a == b
  {
    ParsePrinted(a);
    ParsePrinted(b);
  }

  /** `%04s`: pad on the left with `0` up to four characters; longer strings are unchanged. */
  function Pad4(s: string): (r: string)
    ensures |r| == if |s| < 4 then 4 else |s|
    ensures r[|r| - |s|..] == s
    ensures forall i :: 0 <= i < |r| - |s| ==> r[i] == '0'
  {
    if |s| < 4 then seq(4 - |s|, _ => '0') + s else s
  }

  /** Padding a four-character string changes nothing, so padding is idempotent. */
  lemma Pad4Idempotent(s: string)
    ensures Pad4(Pad4(s)) == Pad4(s)
    ensures |s| == 4 ==> Pad4(s) == s
  {
  }
}
