/** The two date renderings the generator takes from `strftime`: the
    compact `%Y%m%d` stamp of the default output file name and the Korean
    `%Y년 %m월 %d일` line of the copyright page. The date itself is an input:
    it stands for a reading of the clock. */
module Dates {

  datatype Date = Date(year: int, month: int, day: int)

  /** Gregorian leap years, as `datetime` counts them. */
  predicate IsLeapYear(year: int)
  {
    year % 4 == 0 && (year % 100 != 0 || year % 400 == 0)
  }

  function DaysInMonth(year: int, month: int): int
    requires 1 <= month <= 12
  {
    if month == 2 then (if IsLeapYear(year) then 29 else 28)
    else if month == 4 || month == 6 || month == 9 || month == 11 then 30
    else 31
  }

  /** The dates Python's `datetime` can hold: years 1 to 9999, and each
      month with its own number of days. */
  predicate Valid(d: Date)
  {
    1 <= d.year <= 9999 && 1 <= d.month <= 12 && 1 <= d.day <= DaysInMonth(d.year, d.month)
  }

  function Pow10(n: nat): nat
  {
    if n == 0 then 1 else 10 * Pow10(n - 1)
  }

  predicate IsDigit(c: char)
  {
    '0' <= c <= '9'
  }

  function DigitChar(v: nat): char
    requires v < 10
  {
    ('0' as int + v) as char
  }

  /** The last `width` decimal digits of `n`, zero-padded on the left. */
  function Digits(n: nat, width: nat): (r: string)
    ensures |r| == width
    ensures forall k :: 0 <= k < |r| ==> IsDigit(r[k])
  {
    if width == 0 then "" else Digits(n / 10, width - 1) + [DigitChar(n % 10)]
  }

  /** The number a string of decimal digits denotes. */
  function Value(s: string): nat
  {
    if s == [] then 0
    else Value(s[..|s| - 1]) * 10 + (if IsDigit(s[|s| - 1]) then s[|s| - 1] as int - '0' as int else 0)
  }

  /** Padding a number that fits in `width` digits loses nothing. */
  lemma {:induction false} ValueOfDigits(n: nat, width: nat)
    requires n < Pow10(width)
    ensures Value(Digits(n, width)) == n
  {
    if width > 0 {
      var s := Digits(n, width);
      assert s[..|s| - 1] == Digits(n / 10, width - 1);
      ValueOfDigits(n / 10, width - 1);
    }
  }

  /** `strftime('%Y%m%d')`. */
  function Compact(d: Date): string
    requires Valid(d)
  {
    Digits(d.year, 4) + Digits(d.month, 2) + Digits(d.day, 2)
  }

  /** `strftime('%Y년 %m월 %d일')`. */
  function Korean(d: Date): string
    requires Valid(d)
  {
    Digits(d.year, 4) + "년 " + Digits(d.month, 2) + "월 " + Digits(d.day, 2) + "일"
  }

  /** The Korean date line shows the year, month and day digits at fixed
      places, and each reads back as the date's field. */
  lemma KoreanRoundTrip(d: Date)
    requires Valid(d)
    ensures |Korean(d)| == 13
    ensures Value(Korean(d)[0..4]) == d.year
    ensures Value(Korean(d)[6..8]) == d.month
    ensures Value(Korean(d)[10..12]) == d.day
  {
    var s := Korean(d);
    assert s[0..4] == Digits(d.year, 4);
    assert s[6..8] == Digits(d.month, 2);
    assert s[10..12] == Digits(d.day, 2);
    ValueOfDigits(d.year, 4);
    ValueOfDigits(d.month, 2);
    ValueOfDigits(d.day, 2);
  }

  /** Reads a compact stamp back. */
  function ParseCompact(s: string): Date
    requires |s| == 8
  {
    Date(Value(s[..4]), Value(s[4..6]), Value(s[6..]))
  }

  /** The compact stamp is eight digits from which the date can be read back:
      two different dates never share a stamp. */
  lemma CompactRoundTrip(d: Date)
    requires Valid(d)
    ensures |Compact(d)| == 8
    ensures forall k :: 0 <= k < 8 ==> IsDigit(Compact(d)[k])
    ensures ParseCompact(Compact(d)) == d
  {
    var s := Compact(d);
    assert s[..4] == Digits(d.year, 4);
    assert s[4..6] == Digits(d.month, 2);
    assert s[6..] == Digits(d.day, 2);
    ValueOfDigits(d.year, 4);
    ValueOfDigits(d.month, 2);
    ValueOfDigits(d.day, 2);
  }
}
