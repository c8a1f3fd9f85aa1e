/** The history file's timestamp field, read with the Go layout `20060102T15:04:05Z`
    (four-digit year, then month, day, `T`, hour, `:`, minute, `:`, second, `Z`, all UTC).
    The check is a fixed-width character-class match followed by Go's range checks;
    `FormatTime` writes a date back in the same layout. */
module Timestamp {
  import opened Wrappers
  import opened Strconv

  datatype DateTime = DateTime(year: nat, month: nat, day: nat, hour: nat, minute: nat, second: nat)

  /** The layout as Go writes it; a digit in it stands for any digit in the value. */
  const Layout: string := "20060102T15:04:05Z"

  predicate IsLeap(year: nat) { year % 4 == 0 && (year % 100 != 0 || year % 400 == 0) }

  function DaysIn(month: nat, year: nat): nat
  {
    if month == 2 then (if IsLeap(year) then 29 else 28)
    else if month == 4 || month == 6 || month == 9 || month == 11 then 30
    else 31
  }

  /** The ranges `time.Parse` enforces on each field. */
  predicate Valid(t: DateTime)
  {
    t.year < 10000 && 1 <= t.month <= 12 && 1 <= t.day <= DaysIn(t.month, t.year) &&
    t.hour < 24 && t.minute < 60 && t.second < 60
  }

  /** Each character of `s` fits the character class of the layout at that position. */
  predicate FitsLayout(s: string)
  {
    |s| == |Layout| &&
    forall i :: 0 <= i < |s| ==> if IsDigit(Layout[i]) then IsDigit(s[i]) else s[i] == Layout[i]
  }

  /** `time.Parse("20060102T15:04:05Z", s)`, with the date kept as its six fields. */
  function ParseTime(s: string): (r: Option<DateTime>)
    ensures r.Some? ==> FitsLayout(s) && Valid(r.value)
  {
    if !FitsLayout(s) then None
    else
      LayoutDigits(s);
      var t := DateTime(DecimalValue(s[0..4]), DecimalValue(s[4..6]), DecimalValue(s[6..8]),
                        DecimalValue(s[9..11]), DecimalValue(s[12..14]), DecimalValue(s[15..17]));
      if Valid(t) then Some(t) else None
  }

  /** `n` written with exactly `width` digits, zero-padded on the left. */
  function Fixed(n: nat, width: nat): (s: string)
    ensures |s| == width && AllDigits(s)
  {
    if width == 0 then [] else Fixed(n / 10, width - 1) + [DigitChar(n % 10)]
  }

  function Pow10(k: nat): nat { if k == 0 then 1 else 10 * Pow10(k - 1) }

  /** `t.Format("20060102T15:04:05Z")`. */
  function FormatTime(t: DateTime): string
  {
    Fixed(t.year, 4) + Fixed(t.month, 2) + Fixed(t.day, 2) + "T" +
    Fixed(t.hour, 2) + ":" + Fixed(t.minute, 2) + ":" + Fixed(t.second, 2) + "Z"
  }

  lemma {:induction false} FixedValue(n: nat, width: nat)
    requires n < Pow10(width)
    ensures DecimalValue(Fixed(n, width)) == n
  {
    if width > 0 {
      assert n / 10 < Pow10(width - 1);
      FixedValue(n / 10, width - 1);
      var s := Fixed(n, width);
      assert s[..|s| - 1] == Fixed(n / 10, width - 1);
    }
  }

  lemma {:induction false} FixedOfDigits(s: string)
    requires AllDigits(s)
    ensures Fixed(DecimalValue(s), |s|) == s
  {
    if s != [] {
      var init := s[..|s| - 1];
      var d := DigitValue(s[|s| - 1]);
      assert (DecimalValue(init) * 10 + d) / 10 == DecimalValue(init);
      assert (DecimalValue(init) * 10 + d) % 10 == d;
      FixedOfDigits(init);
      assert DigitChar(d) == s[|s| - 1];
    }
  }

  /** Where each field of a formatted time sits, and that the result fits the layout. */
  lemma FormatFields(t: DateTime)
    ensures var s := FormatTime(t);
      s[0..4] == Fixed(t.year, 4) && s[4..6] == Fixed(t.month, 2) && s[6..8] == Fixed(t.day, 2) &&
      s[9..11] == Fixed(t.hour, 2) && s[12..14] == Fixed(t.minute, 2) && s[15..17] == Fixed(t.second, 2) &&
      FitsLayout(s)
  {
    var s := FormatTime(t);
    assert s[0..4] == Fixed(t.year, 4);
    assert s[4..6] == Fixed(t.month, 2);
    assert s[6..8] == Fixed(t.day, 2);
    assert s[9..11] == Fixed(t.hour, 2);
    assert s[12..14] == Fixed(t.minute, 2);
    assert s[15..17] == Fixed(t.second, 2);
    forall i | 0 <= i < |s|
      ensures if IsDigit(Layout[i]) then IsDigit(s[i]) else s[i] == Layout[i]
    {
      if i < 4 { assert s[i] == s[0..4][i]; }
      else if i < 6 { assert s[i] == s[4..6][i - 4]; }
      else if i < 8 { assert s[i] == s[6..8][i - 6]; }
      else if 9 <= i < 11 { assert s[i] == s[9..11][i - 9]; }
      else if 12 <= i < 14 { assert s[i] == s[12..14][i - 12]; }
      else if 15 <= i < 17 { assert s[i] == s[15..17][i - 15]; }
    }
  }

  /** Every valid date written in the layout is read back unchanged. */
  lemma ParseFormatTime(t: DateTime)
    requires Valid(t)
    ensures ParseTime(FormatTime(t)) == Some(t)
  {
    FormatFields(t);
    FixedValue(t.year, 4);
    FixedValue(t.month, 2);
    FixedValue(t.day, 2);
    FixedValue(t.hour, 2);
    FixedValue(t.minute, 2);
    FixedValue(t.second, 2);
  }

  /** An accepted field is the canonical spelling of the date read from it: the layout
      admits exactly one text per date. */
  lemma FormatParseTime(s: string)
    requires ParseTime(s).Some?
    ensures FormatTime(ParseTime(s).value) == s
  {
    LayoutDigits(s);
    var t := ParseTime(s).value;
    FixedOfDigits(s[0..4]);
    FixedOfDigits(s[4..6]);
    FixedOfDigits(s[6..8]);
    FixedOfDigits(s[9..11]);
    FixedOfDigits(s[12..14]);
    FixedOfDigits(s[15..17]);
    assert FormatTime(t) == s[0..4] + s[4..6] + s[6..8] + "T" + s[9..11] + ":" + s[12..14] + ":" + s[15..17] + "Z";
    Reassemble(s);
  }

  /** What `FitsLayout` says of each field of an accepted timestamp. */
  lemma LayoutDigits(s: string)
    requires FitsLayout(s)
    ensures AllDigits(s[0..4]) && AllDigits(s[4..6]) && AllDigits(s[6..8])
    ensures AllDigits(s[9..11]) && AllDigits(s[12..14]) && AllDigits(s[15..17])
    ensures s[8] == 'T' && s[11] == ':' && s[14] == ':' && s[17] == 'Z'
  {
    assert forall i :: 0 <= i < 8 ==> IsDigit(Layout[i]);
    assert forall i :: 9 <= i < 11 || 12 <= i < 14 || 15 <= i < 17 ==> IsDigit(Layout[i]);
    assert Layout[8] == 'T' && Layout[11] == ':' && Layout[14] == ':' && Layout[17] == 'Z';
  }

  lemma Reassemble(s: string)
    requires |s| == 18 && s[8] == 'T' && s[11] == ':' && s[14] == ':' && s[17] == 'Z'
    ensures s == s[0..4] + s[4..6] + s[6..8] + "T" + s[9..11] + ":" + s[12..14] + ":" + s[15..17] + "Z"
  {
    assert s == s[0..4] + s[4..6] + s[6..8] + s[8..9] + s[9..11] + s[11..12] + s[12..14] + s[14..15] + s[15..17] + s[17..];
  }
}
