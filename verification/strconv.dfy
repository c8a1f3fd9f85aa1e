/** Go's `strconv.ParseInt(s, 10, 64)`, as `parseHeader` uses it for the continuation count,
    with `strconv.FormatInt(n, 10)` as its inverse. */
module Strconv {
  import opened Wrappers

  const MinInt64: int := -0x8000_0000_0000_0000
  const MaxInt64: int := 0x7FFF_FFFF_FFFF_FFFF

  predicate IsDigit(ch: char) { '0' <= ch <= '9' }

  predicate AllDigits(s: string) { forall i :: 0 <= i < |s| ==> IsDigit(s[i]) }

  function DigitValue(ch: char): (d: nat)
    requires IsDigit(ch)
    ensures d < 10
  {
    ch as int - '0' as int
  }

  function DigitChar(d: nat): (ch: char)
    requires d < 10
    ensures IsDigit(ch) && DigitValue(ch) == d
  {
    ('0' as int + d) as char
  }

  /** Value of a run of decimal digits, most significant first. */
  function DecimalValue(s: string): nat
    requires AllDigits(s)
  {
    if s == [] then 0 else DecimalValue(s[..|s| - 1]) * 10 + DigitValue(s[|s| - 1])
  }

  /** An optional `+` or `-` followed by at least one decimal digit: the only text base 10 accepts. */
  predicate IsIntegerLiteral(s: string)
  {
    |s| > 0 &&
    var digits := if s[0] == '+' || s[0] == '-' then s[1..] else s;
    digits != [] && AllDigits(digits)
  }

  /** `strconv.ParseInt(s, 10, 64)`: a syntax error for anything but an optionally signed
      digit run, a range error outside the signed 64-bit range. */
  function ParseInt(s: string): (r: Option<int>)
    ensures r.Some? ==> IsIntegerLiteral(s)
    ensures r.Some? ==> MinInt64 <= r.value <= MaxInt64
    ensures r.Some? ==> (r.value < 0 ==> s[0] == '-')
  {
    if s == [] then None
    else
      var negative := s[0] == '-';
      var digits := if s[0] == '+' || s[0] == '-' then s[1..] else s;
      if digits == [] || !AllDigits(digits) then None
      else
        var magnitude: int := DecimalValue(digits);
        if !negative && magnitude > MaxInt64 then None
        else if negative && magnitude > -MinInt64 then None
        else
          var value: int := if negative then -magnitude else magnitude;
          Some(value)
  }

  /** What the count field yields, for every optionally signed digit run: the signed
      value of its digits when that fits in 64 bits, and nothing when it does not. */
  lemma ParseSigned(sign: string, digits: string)
    requires sign == "" || sign == "+" || sign == "-"
    requires digits != [] && AllDigits(digits)
    ensures var v := if sign == "-" then 0 - DecimalValue(digits) as int else DecimalValue(digits) as int;
      ParseInt(sign + digits) == if MinInt64 <= v <= MaxInt64 then Some(v) else None
  {
    var s := sign + digits;
    if sign == "" {
      assert s == digits;
      assert s[0] != '+' && s[0] != '-' by { assert IsDigit(digits[0]); }
    } else {
      assert s[0] == sign[0] && s[1..] == digits;
    }
  }

  /** Decimal digits of `n` without leading zeros. */
  function FormatNat(n: nat): string
  {
    if n < 10 then [DigitChar(n)] else FormatNat(n / 10) + [DigitChar(n % 10)]
  }

  /** `strconv.FormatInt(n, 10)`. */
  function FormatInt(n: int): string
  {
    if n < 0 then "-" + FormatNat(-n) else FormatNat(n)
  }

  lemma {:induction false} FormatNatValue(n: nat)
    ensures FormatNat(n) != [] && AllDigits(FormatNat(n)) && DecimalValue(FormatNat(n)) == n
  {
    if n >= 10 {
      FormatNatValue(n / 10);
      var s := FormatNat(n);
      assert s[..|s| - 1] == FormatNat(n / 10);
    }
  }

  /** Every 64-bit integer survives formatting and parsing back. */
  lemma ParseFormat(n: int)
    requires MinInt64 <= n <= MaxInt64
    ensures ParseInt(FormatInt(n)) == Some(n)
  {
    var s := FormatInt(n);
    if n < 0 {
      FormatNatValue(-n);
      assert s[0] == '-' && s[1..] == FormatNat(-n);
    } else {
      FormatNatValue(n);
      assert s[0] != '-' && s[0] != '+' by { assert IsDigit(s[0]); }
    }
  }

  /** Leading zeros are accepted and do not change the value (`"007"` parses as 7). */
  lemma {:induction false} LeadingZero(digits: string)
    requires AllDigits(digits)
    ensures AllDigits("0" + digits) && DecimalValue("0" + digits) == DecimalValue(digits)
  {
    if digits != [] {
      var s := "0" + digits;
      assert s[..|s| - 1] == "0" + digits[..|digits| - 1];
      LeadingZero(digits[..|digits| - 1]);
    }
  }

  lemma ParseLeadingZero(digits: string)
    requires digits != [] && AllDigits(digits)
    ensures ParseInt("0" + digits) == ParseInt(digits)
  {
    LeadingZero(digits);
  }
}
