/**
 * Go's `strconv.ParseInt(s, 10, 0)` on a 64-bit platform (bit size 0 means the
 * platform's `int`, 64 bits), reduced to what its caller observes: the value,
 * or a failure. Syntax errors and range errors are both failures.
 */
module Strconv {
  import opened Wrappers

  const MinInt64: int := -0x8000_0000_0000_0000
  const MaxInt64: int := 0x7FFF_FFFF_FFFF_FFFF

  predicate InInt64Range(n: int) {
    MinInt64 <= n <= MaxInt64
  }

  predicate IsDigit(c: char) {
    '0' <= c <= '9'
  }

  predicate AllDigits(s: string) {
    forall i :: 0 <= i < |s| ==> IsDigit(s[i])
  }

  /** The value of a string of ASCII decimal digits, most significant first. */
  function DigitsValue(s: string): nat
    requires AllDigits(s)
  {
    if |s| == 0 then 0
    else DigitsValue(s[..|s| - 1]) * 10 + (s[|s| - 1] as int - '0' as int)
  }

  /**
   * `ParseInt(s, 10, 0)`: an optional leading `+` or `-`, then one or more
   * ASCII digits (base 10 admits no underscores and no base prefix), and the
   * signed value must lie in the int64 range. `None` is any error return.
   */
  function ParseInt(s: string): (r: Option<int>)
    ensures r.Some? ==> InInt64Range(r.value)
  {
    if |s| == 0 then None
    else
      var negative := s[0] == '-';
      var digits := if s[0] == '+' || s[0] == '-' then s[1..] else s;
      if |digits| == 0 || !AllDigits(digits) then None
      else
        var magnitude: int := DigitsValue(digits);
        var n := if negative then -magnitude else magnitude;
        if InInt64Range(n) then Some(n) else None
  }

  /** The character of one decimal digit. */
  function DigitChar(d: nat): (c: char)
    requires d < 10
    ensures IsDigit(c) && c as int - '0' as int == d
  {
    ('0' as int + d) as char
  }

  /** `strconv.FormatUint(n, 10)`: the shortest decimal numeral of `n`. */
  function Decimal(n: nat): (s: string)
    decreases n
  {
    if n < 10 then [DigitChar(n)]
    else Decimal(n / 10) + [DigitChar(n % 10)]
  }

  /** `strconv.FormatInt(n, 10)`: a `-` sign for negative numbers, then the decimal magnitude. */
  function FormatInt(n: int): string {
    if n < 0 then "-" + Decimal(-n) else Decimal(n)
  }

  /** A decimal numeral is a non-empty digit string whose value is the number it renders. */
  lemma {:induction false} DecimalIsNumeral(n: nat)
    ensures |Decimal(n)| > 0 && AllDigits(Decimal(n))
    ensures DigitsValue(Decimal(n)) == n
    decreases n
  {
    var s := Decimal(n);
    if n >= 10 {
      DecimalIsNumeral(n / 10);
      assert s[..|s| - 1] == Decimal(n / 10);
    }
  }

  /** An unsigned numeral parses to its value when that value fits in an int64. */
  lemma ParseDecimal(n: nat)
    requires n <= MaxInt64
    ensures ParseInt(Decimal(n)) == Some(n)
  {
    DecimalIsNumeral(n);
    var s := Decimal(n);
    assert IsDigit(s[0]);
  }

  /** A `-` followed by a numeral parses to the negated value when that fits in an int64. */
  lemma ParseNegativeDecimal(m: nat)
    requires m <= -MinInt64
    ensures ParseInt("-" + Decimal(m)) == Some(-(m as int))
  {
    DecimalIsNumeral(m);
    var s := "-" + Decimal(m);
    assert s[0] == '-';
    assert s[1..] == Decimal(m);
  }

  /** Round trip: every int64 formatted in base 10 parses back to itself. */
  lemma ParseFormatInt(n: int)
    requires InInt64Range(n)
    ensures ParseInt(FormatInt(n)) == Some(n)
  {
    if n < 0 {
      ParseNegativeDecimal(-n);
    } else {
      ParseDecimal(n);
    }
  }

  /** A numeral whose value lies outside the int64 range is rejected, with either sign. */
  lemma ParseOutOfRange(n: nat)
    requires n > MaxInt64
    ensures ParseInt(Decimal(n)) == None
    ensures ParseInt("+" + Decimal(n)) == None
    ensures n > -MinInt64 ==> ParseInt("-" + Decimal(n)) == None
  {
    DecimalIsNumeral(n);
    assert IsDigit(Decimal(n)[0]);
    assert ("+" + Decimal(n))[1..] == Decimal(n);
    assert ("-" + Decimal(n))[1..] == Decimal(n);
  }

  /**
   * What an accepted string looks like: a sign is allowed only in front, every
   * other character is a digit, at least one digit is present, and the value is
   * the decimal value of those digits, negated after a `-`.
   */
  lemma ParseIntAccepts(s: string)
    requires ParseInt(s).Some?
    ensures |s| > 0
    ensures var digits := if s[0] == '+' || s[0] == '-' then s[1..] else s;
      |digits| > 0 && AllDigits(digits) &&
      ParseInt(s).value == (if s[0] == '-' then -(DigitsValue(digits) as int) else DigitsValue(digits))
  {
  }

  /** Any non-empty run of digits, leading zeros included, parses to its decimal value when that fits in int64. */
  lemma ParseDigits(digits: string)
    requires |digits| > 0 && AllDigits(digits)
    ensures ParseInt(digits) == if DigitsValue(digits) <= MaxInt64 then Some(DigitsValue(digits) as int) else None
  {
    assert IsDigit(digits[0]);
  }

  /** A leading `+` changes nothing. */
  lemma ParsePlusDigits(digits: string)
    requires |digits| > 0 && AllDigits(digits)
    ensures ParseInt("+" + digits) == ParseInt(digits)
  {
    var plus := "+" + digits;
    assert plus[0] == '+' && plus[1..] == digits;
    assert IsDigit(digits[0]);
  }

  /** A leading `-` negates, down to -2^63. */
  lemma ParseMinusDigits(digits: string)
    requires |digits| > 0 && AllDigits(digits)
    ensures ParseInt("-" + digits) ==
      if DigitsValue(digits) <= -MinInt64 then Some(-(DigitsValue(digits) as int)) else None
  {
    var minus := "-" + digits;
    assert minus[0] == '-' && minus[1..] == digits;
  }

  /** Leading zeros and a negative zero are accepted. */
  lemma LeadingZerosExamples()
    ensures ParseInt("007") == Some(7)
    ensures ParseInt("-0") == Some(0)
  {
    assert "007"[..2] == "00" && "00"[..1] == "0";
    ParseDigits("007");
    assert "-0"[1..] == "0";
  }
}
