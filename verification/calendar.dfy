/** Dates as the two screens use them: `LocalDateTime` values read with the
    pattern `dd-MM-yyyy HH:mm`, and the `YearMonth` they fall in. */
module Calendar {
  import opened Wrappers
  import opened Text

  datatype YearMonth = YearMonth(year: int, month: int)

  datatype DateTime = DateTime(year: int, month: int, day: int, hour: int, minute: int)

  /** Leap years of the proleptic Gregorian calendar. */
  predicate IsLeapYear(y: int) {
    y % 4 == 0 && (y % 100 != 0 || y % 400 == 0)
  }

  function DaysInMonth(year: int, month: int): (n: int)
    requires 1 <= month <= 12
    ensures 28 <= n <= 31
  {
    if month == 2 then (if IsLeapYear(year) then 29 else 28)
    else if month == 4 || month == 6 || month == 9 || month == 11 then 30
    else 31
  }

  /** A date-time that a four-digit `yyyy` field can name: year 1 to 9999, a
      real day of a real month, hour 0 to 23, minute 0 to 59. */
  predicate ValidDateTime(dt: DateTime) {
    && 1 <= dt.year <= 9999
    && 1 <= dt.month <= 12
    && 1 <= dt.day <= DaysInMonth(dt.year, dt.month)
    && 0 <= dt.hour <= 23
    && 0 <= dt.minute <= 59
  }

  predicate ValidYearMonth(ym: YearMonth) {
    1 <= ym.month <= 12
  }

  /** `YearMonth.from(dateTime)`: the day and the time are dropped. */
  function MonthOf(dt: DateTime): YearMonth {
    YearMonth(dt.year, dt.month)
  }

  /** `YearMonth.compareTo`: by year, then by month. */
  predicate MonthBefore(a: YearMonth, b: YearMonth) {
    a.year < b.year || (a.year == b.year && a.month < b.month)
  }

  /** Months counted from January of year 0: the sort key of a `YearMonth`. */
  function MonthIndex(ym: YearMonth): int {
    ym.year * 12 + (ym.month - 1)
  }

  /** On real months the index orders months as `compareTo` does and names
      each month once. */
  lemma MonthIndexOrder(a: YearMonth, b: YearMonth)
    requires ValidYearMonth(a) && ValidYearMonth(b)
    ensures MonthIndex(a) < MonthIndex(b) <==> MonthBefore(a, b)
    ensures MonthIndex(a) == MonthIndex(b) <==> a == b
  {
  }

  /** `LocalDateTime.compareTo`: by date (year, month, day), then by time
      (hour, minute). */
  predicate Before(a: DateTime, b: DateTime) {
    || a.year < b.year
    || (a.year == b.year && a.month < b.month)
    || (a.year == b.year && a.month == b.month && a.day < b.day)
    || (a.year == b.year && a.month == b.month && a.day == b.day && a.hour < b.hour)
    || (a.year == b.year && a.month == b.month && a.day == b.day && a.hour == b.hour && a.minute < b.minute)
  }

  /** Minutes counted on a clock whose months all have 31 days: the sort key
      of a `DateTime`. */
  function ChronoKey(dt: DateTime): int {
    (((dt.year * 12 + (dt.month - 1)) * 31 + (dt.day - 1)) * 24 + dt.hour) * 60 + dt.minute
  }

  /** On valid date-times the key orders them as `compareTo` does and names
      each date-time once. */
  lemma ChronoKeyOrder(a: DateTime, b: DateTime)
    requires ValidDateTime(a) && ValidDateTime(b)
    ensures ChronoKey(a) < ChronoKey(b) <==> Before(a, b)
    ensures ChronoKey(a) == ChronoKey(b) <==> a == b
  {
  }

  /** `LocalDateTime.parse(s, ofPattern("dd-MM-yyyy HH:mm"))`: exactly two
      digits of day, a dash, two of month, a dash, four of year, a space, two
      of hour, a colon, two of minute, and the fields must name a valid
      date-time; otherwise the text does not parse. */
  function ParseDateTime(s: string): (r: Option<DateTime>)
    ensures r.Some? ==> ValidDateTime(r.value)
    ensures r.Some? ==> |s| == 16 && s[2] == '-' && s[5] == '-' && s[10] == ' ' && s[13] == ':'
  {
    if |s| != 16 || s[2] != '-' || s[5] != '-' || s[10] != ' ' || s[13] != ':' then None
    else if !(AllDigits(s[0..2]) && AllDigits(s[3..5]) && AllDigits(s[6..10])
              && AllDigits(s[11..13]) && AllDigits(s[14..16])) then None
    else
      var dt := DateTime(Number(s[6..10]), Number(s[3..5]), Number(s[0..2]),
                         Number(s[11..13]), Number(s[14..16]));
      if ValidDateTime(dt) then Some(dt) else None
  }

  /** The text of a date-time in the `dd-MM-yyyy HH:mm` pattern. */
  function FormatDateTime(dt: DateTime): (s: string)
    requires ValidDateTime(dt)
    ensures |s| == 16
  {
    Pad(dt.day, 2) + ['-'] + Pad(dt.month, 2) + ['-'] + Pad(dt.year, 4) + [' ']
      + Pad(dt.hour, 2) + [':'] + Pad(dt.minute, 2)
  }

  /** Every valid date-time is read back from its own text. */
  lemma ParseFormattedDateTime(dt: DateTime)
    requires ValidDateTime(dt)
    ensures ParseDateTime(FormatDateTime(dt)) == Some(dt)
  {
    var s := FormatDateTime(dt);
    FormatFields(dt);
    NumberOfPad(dt.day, 2);
    NumberOfPad(dt.month, 2);
    NumberOfPad(dt.year, 4);
    NumberOfPad(dt.hour, 2);
    NumberOfPad(dt.minute, 2);
  }

  /** Where each field sits in the text of a date-time. */
  lemma FormatFields(dt: DateTime)
    requires ValidDateTime(dt)
    ensures var s := FormatDateTime(dt);
            && s[2] == '-' && s[5] == '-' && s[10] == ' ' && s[13] == ':'
            && s[0..2] == Pad(dt.day, 2) && s[3..5] == Pad(dt.month, 2)
            && s[6..10] == Pad(dt.year, 4) && s[11..13] == Pad(dt.hour, 2)
            && s[14..16] == Pad(dt.minute, 2)
  {
  }

  /** Every text that parses is the text of the date-time it parses to: the
      pattern is fixed-width, so two different texts never name one value. */
  lemma FormatParsedDateTime(s: string)
    requires ParseDateTime(s).Some?
    ensures FormatDateTime(ParseDateTime(s).value) == s
  {
    PadOfNumber(s[0..2]);
    PadOfNumber(s[3..5]);
    PadOfNumber(s[6..10]);
    PadOfNumber(s[11..13]);
    PadOfNumber(s[14..16]);
    assert s == s[0..2] + [s[2]] + s[3..5] + [s[5]] + s[6..10] + [s[10]]
              + s[11..13] + [s[13]] + s[14..16];
  }
}
