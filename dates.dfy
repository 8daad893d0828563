/** Calendar values held in a `date` column and their `%Y-%m-%d` rendering. */
module Dates {
  import opened Wrappers

  type Year = y: int | 1000 <= y <= 9999 witness 1000
  type Month = m: int | 1 <= m <= 12 witness 1
  type DayOfMonth = d: int | 1 <= d <= 31 witness 1
  type Hour = h: int | 0 <= h < 24
  type Minute = m: int | 0 <= m < 60
  type Second = s: int | 0 <= s < 60

  datatype DateTime = DateTime(year: Year, month: Month, day: DayOfMonth,
                               hour: Hour, minute: Minute, second: Second)

  /** One non-null cell of a date column: a timestamp (the values of a
      `datetime64` column), a calendar date object, or text. */
  datatype DateValue =
    | Stamp(stamp: DateTime)
    | Calendar(year: Year, month: Month, day: DayOfMonth)
    | Text(text: string)

  function Pow10(n: nat): (p: nat)
    ensures p >= 1
  {
    if n == 0 then 1 else 10 * Pow10(n - 1)
  }

  predicate IsDigit(c: char) {
    '0' <= c <= '9'
  }

  function DigitChar(d: int): (c: char)
    requires 0 <= d < 10
    ensures IsDigit(c)
  {
    (48 + d) as char
  }

  function DigitValue(c: char): int {
    c as int - 48
  }

  /** `n` written in decimal with exactly `width` digits, zero-padded. */
  function Digits(n: nat, width: nat): (s: string)
    requires n < Pow10(width)
    ensures |s| == width
    ensures forall i | 0 <= i < |s| :: IsDigit(s[i])
  {
    if width == 0 then [] else Digits(n / 10, width - 1) + [DigitChar(n % 10)]
  }

  /** The number a string of decimal digits denotes. */
  function Value(s: string): int {
    if |s| == 0 then 0 else 10 * Value(s[..|s| - 1]) + DigitValue(s[|s| - 1])
  }

  lemma {:induction false} ValueOfDigits(n: nat, width: nat)
    requires n < Pow10(width)
    ensures Value(Digits(n, width)) == n
  {
    if width > 0 {
      var s := Digits(n, width);
      ValueOfDigits(n / 10, width - 1);
      assert s[..|s| - 1] == Digits(n / 10, width - 1);
    }
  }

  /** `strftime('%Y-%m-%d')`: a ten-character `YYYY-MM-DD` string. */
  function FormatYmd(y: Year, m: Month, d: DayOfMonth): (s: string)
    ensures |s| == 10 && s[4] == '-' && s[7] == '-'
    ensures forall i | 0 <= i < 10 && i != 4 && i != 7 :: IsDigit(s[i])
  {
    Digits(y, 4) + "-" + Digits(m, 2) + "-" + Digits(d, 2)
  }

  /** Reads a `YYYY-MM-DD` string back into its year, month and day. */
  function ParseYmd(s: string): Option<(int, int, int)> {
    if |s| == 10 && s[4] == '-' && s[7] == '-'
       && forall i | 0 <= i < 10 && i != 4 && i != 7 :: IsDigit(s[i])
    then Some((Value(s[..4]), Value(s[5..7]), Value(s[8..])))
    else None
  }

  /** The rendering loses nothing of the calendar day: parsing it gives the
      year, month and day back (so distinct days render distinctly). */
  lemma FormatYmdRoundTrip(y: Year, m: Month, d: DayOfMonth)
    ensures ParseYmd(FormatYmd(y, m, d)) == Some((y as int, m as int, d as int))
  {
    var s := FormatYmd(y, m, d);
    assert s[..4] == Digits(y, 4);
    assert s[5..7] == Digits(m, 2);
    assert s[8..] == Digits(d, 2);
    ValueOfDigits(y, 4);
    ValueOfDigits(m, 2);
    ValueOfDigits(d, 2);
  }

  lemma FormatYmdInjective(y1: Year, m1: Month, d1: DayOfMonth, y2: Year, m2: Month, d2: DayOfMonth)
    requires FormatYmd(y1, m1, d1) == FormatYmd(y2, m2, d2)
    ensures y1 == y2 && m1 == m2 && d1 == d2
  {
    FormatYmdRoundTrip(y1, m1, d1);
    FormatYmdRoundTrip(y2, m2, d2);
  }
}
