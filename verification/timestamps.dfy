/**
 The `time` column: the wall-clock reading at the moment of recording,
 printed with `strftime('%m/%d/%Y %H:%M')`, so to the minute and with
 every number zero-padded.
 */
module Timestamps {
  import opened Wrappers

  /** A local wall-clock reading, as `datetime.now()` supplies it (sub-second part omitted). */
  datatype Clock = Clock(year: int, month: int, day: int, hour: int, minute: int, second: int)

  predicate IsLeapYear(year: int) {
    year % 4 == 0 && (year % 100 != 0 || year % 400 == 0)
  }

  function DaysInMonth(year: int, month: int): (n: int)
    requires 1 <= month <= 12
    ensures 28 <= n <= 31
  {
    if month == 2 then (if IsLeapYear(year) then 29 else 28)
    else if month == 4 || month == 6 || month == 9 || month == 11 then 30
    else 31
  }

  /** A reading a `datetime` can hold: years 1 to 9999, a real calendar day. */
  predicate IsDateTime(c: Clock) {
    && 1 <= c.year <= 9999
    && 1 <= c.month <= 12
    && 1 <= c.day <= DaysInMonth(c.year, c.month)
    && 0 <= c.hour < 24
    && 0 <= c.minute < 60
    && 0 <= c.second < 60
  }

  /** A reading Python 2's `strftime` accepts: that method refuses years before 1900. */
  predicate Valid(c: Clock) {
    IsDateTime(c) && 1900 <= c.year
  }

  /** The reading with its seconds cleared: all the column keeps of it. */
  function ToMinute(c: Clock): Clock {
    c.(second := 0)
  }

  predicate IsDigit(ch: char) {
    '0' <= ch <= '9'
  }

  predicate AllDigits(s: string) {
    forall i :: 0 <= i < |s| ==> IsDigit(s[i])
  }

  function Digit(d: int): (ch: char)
    requires 0 <= d < 10
    ensures IsDigit(ch)
  {
    ('0' as int + d) as char
  }

  function DigitValue(ch: char): (d: int)
    requires IsDigit(ch)
    ensures 0 <= d < 10
    ensures Digit(d) == ch
  {
    ch as int - '0' as int
  }

  function Pow10(width: nat): (p: nat)
    ensures p >= 1
  {
    if width == 0 then 1 else 10 * Pow10(width - 1)
  }

  /** `n` in decimal, left-padded with zeros to exactly `width` digits. */
  function Padded(n: nat, width: nat): (s: string)
    requires n < Pow10(width)
    ensures |s| == width
    ensures AllDigits(s)
  {
    if width == 0 then [] else Padded(n / 10, width - 1) + [Digit(n % 10)]
  }

  /** The number a string of decimal digits denotes. */
  function DecimalValue(s: string): (n: nat)
    requires AllDigits(s)
    ensures n < Pow10(|s|)
  {
    if s == [] then 0 else 10 * DecimalValue(s[..|s| - 1]) + DigitValue(s[|s| - 1])
  }

  /** Reading a padded number back gives the number. */
  lemma {:induction false} DecimalValuePadded(n: nat, width: nat)
    requires n < Pow10(width)
    ensures DecimalValue(Padded(n, width)) == n
  {
    if width > 0 {
      var s := Padded(n, width);
      assert s[..|s| - 1] == Padded(n / 10, width - 1);
      DecimalValuePadded(n / 10, width - 1);
    }
  }

  /** `MM/DD/YYYY HH:MM`: separators at fixed positions, digits everywhere else. */
  predicate TimeShaped(s: string) {
    && |s| == 16
    && s[2] == '/' && s[5] == '/' && s[10] == ' ' && s[13] == ':'
    && AllDigits(s[0..2]) && AllDigits(s[3..5]) && AllDigits(s[6..10])
    && AllDigits(s[11..13]) && AllDigits(s[14..16])
  }

  /** `strftime('%m/%d/%Y %H:%M')` of a reading. */
  function FormatTime(c: Clock): (s: string)
    requires Valid(c)
    ensures TimeShaped(s)
  {
    var s := Padded(c.month, 2) + "/" + Padded(c.day, 2) + "/" + Padded(c.year, 4)
             + " " + Padded(c.hour, 2) + ":" + Padded(c.minute, 2);
    assert s[0..2] == Padded(c.month, 2) && s[3..5] == Padded(c.day, 2);
    assert s[6..10] == Padded(c.year, 4);
    assert s[11..13] == Padded(c.hour, 2) && s[14..16] == Padded(c.minute, 2);
    s
  }

  /** Why `strftime` refused a reading. */
  datatype TimeError = YearBefore1900(year: int)

  /**
   `strftime('%m/%d/%Y %H:%M')` on any reading a `datetime` can hold: the
   formatted time from 1900 on, the `ValueError` for an earlier year.
   */
  function Strftime(c: Clock): (r: Result<string, TimeError>)
    requires IsDateTime(c)
    ensures r.Failure? <==> c.year < 1900
    ensures r.Failure? ==> r.error == YearBefore1900(c.year)
    ensures r.Success? ==> Valid(c) && r.value == FormatTime(c)
  {
    if c.year < 1900 then Failure(YearBefore1900(c.year)) else Success(FormatTime(c))
  }

  /** Where each field of the reading sits in its printed form. */
  lemma FormatTimeParts(c: Clock)
    requires Valid(c)
    ensures var s := FormatTime(c);
            && s[0..2] == Padded(c.month, 2) && s[3..5] == Padded(c.day, 2)
            && s[6..10] == Padded(c.year, 4)
            && s[11..13] == Padded(c.hour, 2) && s[14..16] == Padded(c.minute, 2)
  {
  }

  /** Reads a `time` cell back into a reading at the start of its minute. */
  function ParseTime(s: string): (r: Option<Clock>)
    ensures r.Some? ==> TimeShaped(s) && Valid(r.value) && r.value.second == 0
  {
    if !TimeShaped(s) then None
    else
      var c := Clock(DecimalValue(s[6..10]), DecimalValue(s[0..2]), DecimalValue(s[3..5]),
                     DecimalValue(s[11..13]), DecimalValue(s[14..16]), 0);
      if Valid(c) then Some(c) else None
  }

  /** The column round-trips every field of the reading except the seconds. */
  lemma ParseFormatTime(c: Clock)
    requires Valid(c)
    ensures ParseTime(FormatTime(c)) == Some(ToMinute(c))
  {
    var s := FormatTime(c);
    FormatTimeParts(c);
    DecimalValuePadded(c.month, 2);
    DecimalValuePadded(c.day, 2);
    DecimalValuePadded(c.year, 4);
    DecimalValuePadded(c.hour, 2);
    DecimalValuePadded(c.minute, 2);
    assert Clock(DecimalValue(s[6..10]), DecimalValue(s[0..2]), DecimalValue(s[3..5]),
                 DecimalValue(s[11..13]), DecimalValue(s[14..16]), 0) == ToMinute(c);
  }

  /**
   Two readings print the same exactly when they fall in the same minute:
   seconds are never recorded, every other field is.
   */
  lemma FormatTimeSameMinute(a: Clock, b: Clock)
    requires Valid(a) && Valid(b)
    ensures FormatTime(a) == FormatTime(b) <==> ToMinute(a) == ToMinute(b)
  {
    ParseFormatTime(a);
    ParseFormatTime(b);
  }

  /** 2016-01-14 12:01 prints as `01/14/2016 12:01`. */
  lemma FormatTimeExample(second: int)
    requires 0 <= second < 60
    ensures FormatTime(Clock(2016, 1, 14, 12, 1, second)) == "01/14/2016 12:01"
  {
  }
}
