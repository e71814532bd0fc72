/** Calendar dates as `datetime.strptime(text, "%Y-%m-%d")` reads them, and
    the whole-day difference `(later - earlier).days` of two such dates.
    Python's `datetime` counts days on the proleptic Gregorian calendar with
    `toordinal()` (day 1 is 0001-01-01); `Ordinal` is that count. */
module Calendar {

  import opened Wrappers

  datatype Date = Date(year: int, month: int, day: int)

  predicate IsLeapYear(y: int) {
    y % 4 == 0 && (y % 100 != 0 || y % 400 == 0)
  }

  function DaysInMonth(y: int, m: int): (n: int)
    requires 1 <= m <= 12
    ensures 28 <= n <= 31
  {
    if m == 2 then (if IsLeapYear(y) then 29 else 28)
    else if m == 4 || m == 6 || m == 9 || m == 11 then 30
    else 31
  }

  function YearLength(y: int): int {
    if IsLeapYear(y) then 366 else 365
  }

  /** A date `datetime` accepts: years 1 to 9999, a real month and day. */
  predicate IsValid(d: Date) {
    1 <= d.year <= 9999 && 1 <= d.month <= 12 && 1 <= d.day <= DaysInMonth(d.year, d.month)
  }

  /** Days in the years before `y`, in the closed form Python uses. */
  function DaysBeforeYear(y: int): int
    requires y >= 1
  {
    var n := y - 1;
    n * 365 + n / 4 - n / 100 + n / 400
  }

  /** Days in the months of year `y` before month `m`, from the cumulative
      table Python uses, plus one after February in a leap year. */
  function DaysBeforeMonth(y: int, m: int): int
    requires 1 <= m <= 12
  {
    [0, 0, 31, 59, 90, 120, 151, 181, 212, 243, 273, 304, 334][m]
      + (if m > 2 && IsLeapYear(y) then 1 else 0)
  }

  /** `date.toordinal()`, from Python's closed-form formula. It is the
      number of the day counted from 0001-01-01, which is day 1. */
  function Ordinal(d: Date): (n: int)
    requires IsValid(d)
    ensures n == CountDays(d)
  {
    DaysBeforeYearCounts(d.year);
    DaysBeforeMonthCounts(d.year, d.month);
    DaysBeforeYear(d.year) + DaysBeforeMonth(d.year, d.month) + d.day
  }

  /** `(later - earlier).days` for two dates at midnight: the number of days
      counted from `earlier` to `later`, positive exactly when `later` comes
      later on the calendar and zero exactly for the same date. */
  function DaysBetween(later: Date, earlier: Date): (n: int)
    requires IsValid(later) && IsValid(earlier)
    ensures n == CountDays(later) - CountDays(earlier)
    ensures n > 0 <==> Precedes(earlier, later)
    ensures n == 0 <==> later == earlier
  {
    OrdinalOrder(earlier, later);
    Ordinal(later) - Ordinal(earlier)
  }

  // ----- A reference count of days, year by year and month by month -----

  /** The lengths of years 1 .. y - 1, added up one by one. */
  function CountYears(y: int): int
    requires y >= 1
    decreases y
  {
    if y == 1 then 0 else CountYears(y - 1) + YearLength(y - 1)
  }

  /** The lengths of months 1 .. m - 1 of year `y`, added up one by one. */
  function CountMonths(y: int, m: int): int
    requires 1 <= m <= 12
    decreases m
  {
    if m == 1 then 0 else CountMonths(y, m - 1) + DaysInMonth(y, m - 1)
  }

  /** Python's closed form for the years agrees with counting them. */
  lemma {:induction false} DaysBeforeYearCounts(y: int)
    requires y >= 1
    ensures DaysBeforeYear(y) == CountYears(y)
    decreases y
  {
    if y > 1 {
      DaysBeforeYearCounts(y - 1);
      DaysBeforeYearStep(y - 1);
    }
  }

  lemma DaysBeforeYearStep(y: int)
    requires y >= 1
    ensures DaysBeforeYear(y + 1) == DaysBeforeYear(y) + YearLength(y)
  {
    var n := y - 1;
    assert (n + 1) / 4 == n / 4 + (if y % 4 == 0 then 1 else 0);
    assert (n + 1) / 100 == n / 100 + (if y % 100 == 0 then 1 else 0);
    assert (n + 1) / 400 == n / 400 + (if y % 400 == 0 then 1 else 0);
  }

  /** Python's month table agrees with counting the months. */
  lemma {:induction false} DaysBeforeMonthCounts(y: int, m: int)
    requires 1 <= m <= 12
    ensures DaysBeforeMonth(y, m) == CountMonths(y, m)
    decreases m
  {
    if m > 1 {
      DaysBeforeMonthCounts(y, m - 1);
    }
  }

  /** The day number of `d`, counted: the days of all earlier years, plus
      those of the earlier months of its year, plus its day of the month. */
  function CountDays(d: Date): int
    requires IsValid(d)
  {
    CountYears(d.year) + CountMonths(d.year, d.month) + d.day
  }

  // ----- Order -----

  /** `a` comes strictly before `b` on the calendar. */
  predicate Precedes(a: Date, b: Date) {
    || a.year < b.year
    || (a.year == b.year && a.month < b.month)
    || (a.year == b.year && a.month == b.month && a.day < b.day)
  }

  lemma {:induction false} CountYearsGrows(y: int, z: int)
    requires 1 <= y <= z
    ensures CountYears(y) + (if y < z then YearLength(y) else 0) <= CountYears(z)
    decreases z - y
  {
    if y < z - 1 {
      CountYearsGrows(y, z - 1);
    }
  }

  lemma {:induction false} CountMonthsGrows(y: int, m: int, n: int)
    requires 1 <= m <= n <= 12
    ensures CountMonths(y, m) + (if m < n then DaysInMonth(y, m) else 0) <= CountMonths(y, n)
    decreases n - m
  {
    if m < n - 1 {
      CountMonthsGrows(y, m, n - 1);
    }
  }

  /** A year's months fill the year exactly. */
  lemma MonthsFillYear(y: int)
    ensures CountMonths(y, 12) + DaysInMonth(y, 12) == YearLength(y)
  {
  }

  lemma PrecedesOrdinal(a: Date, b: Date)
    requires IsValid(a) && IsValid(b) && Precedes(a, b)
    ensures Ordinal(a) < Ordinal(b)
  {
    PrecedesCount(a, b);
  }

  lemma PrecedesCount(a: Date, b: Date)
    requires IsValid(a) && IsValid(b) && Precedes(a, b)
    ensures CountDays(a) < CountDays(b)
  {
    var monthsA, monthsB := CountMonths(a.year, a.month), CountMonths(b.year, b.month);
    assert monthsB >= 0 by {
      CountMonthsGrows(b.year, 1, b.month);
    }
    if a.year < b.year {
      // a's year ends no later than b's begins
      assert monthsA + a.day <= YearLength(a.year) by {
        CountMonthsGrows(a.year, a.month, 12);
        MonthsFillYear(a.year);
      }
      CountYearsGrows(a.year, b.year);
    } else if a.month < b.month {
      CountMonthsGrows(a.year, a.month, b.month);
    }
  }

  /** Day numbers follow the calendar: one date has a smaller ordinal than
      another exactly when it comes first, and equal ordinals mean the same
      date. */
  lemma OrdinalOrder(a: Date, b: Date)
    requires IsValid(a) && IsValid(b)
    ensures Ordinal(a) < Ordinal(b) <==> Precedes(a, b)
    ensures Ordinal(a) == Ordinal(b) <==> a == b
  {
    if Precedes(a, b) {
      PrecedesOrdinal(a, b);
    } else if Precedes(b, a) {
      PrecedesOrdinal(b, a);
    }
  }

  // ----- Reading and writing "%Y-%m-%d" -----

  predicate IsDigit(c: char) {
    '0' <= c <= '9'
  }

  function DigitValue(c: char): (n: int)
    requires IsDigit(c)
    ensures 0 <= n <= 9
  {
    c as int - '0' as int
  }

  function DigitChar(n: int): (c: char)
    requires 0 <= n <= 9
    ensures IsDigit(c) && DigitValue(c) == n
  {
    ('0' as int + n) as char
  }

  /** strptime's `%m` field and the '-' after it, starting at position `i`
      of `s`: the regular expression `1[0-2]|0[1-9]|[1-9]` followed by '-'.
      The alternatives never both lead to the '-', so at most one applies.
      Gives the month and the position after the '-'. */
  function MonthField(s: string, i: nat): (r: Option<(int, nat)>)
    ensures r.Some? ==> 1 <= r.value.0 <= 12 && r.value.1 <= |s|
  {
    if i + 3 <= |s| && ((s[i] == '1' && '0' <= s[i + 1] <= '2') || (s[i] == '0' && '1' <= s[i + 1] <= '9'))
       && s[i + 2] == '-' then
      Some((10 * DigitValue(s[i]) + DigitValue(s[i + 1]), i + 3))
    else if i + 2 <= |s| && '1' <= s[i] <= '9' && s[i + 1] == '-' then
      Some((DigitValue(s[i]), i + 2))
    else
      None
  }

  /** strptime's `%d` field from position `i`, which must use up the rest of
      `s`: the regular expression `3[01]|[12]\d|0[1-9]|[1-9]| [1-9]`, whose
      first matching alternative is taken; anything left after it makes
      strptime raise ("unconverted data remains"). */
  function DayField(s: string, i: nat): (r: Option<int>)
    ensures r.Some? ==> 1 <= r.value <= 31
  {
    if |s| == i + 1 && '1' <= s[i] <= '9' then
      Some(DigitValue(s[i]))
    else if |s| == i + 2 && ((s[i] == '3' && '0' <= s[i + 1] <= '1') || ('1' <= s[i] <= '2' && IsDigit(s[i + 1]))
                             || (s[i] == '0' && '1' <= s[i + 1] <= '9')) then
      Some(10 * DigitValue(s[i]) + DigitValue(s[i + 1]))
    else if |s| == i + 2 && s[i] == ' ' && '1' <= s[i + 1] <= '9' then
      Some(DigitValue(s[i + 1]))
    else
      None
  }

  /** `datetime.strptime(s, "%Y-%m-%d")`: four digits of year, '-', the
      month, '-', the day, then the date must exist (`None` stands for the
      ValueError strptime raises). */
  function ParseDate(s: string): (r: Option<Date>)
    ensures r.Some? ==> IsValid(r.value)
  {
    if |s| < 5 || !(IsDigit(s[0]) && IsDigit(s[1]) && IsDigit(s[2]) && IsDigit(s[3])) || s[4] != '-' then
      None
    else
      var year := 1000 * DigitValue(s[0]) + 100 * DigitValue(s[1]) + 10 * DigitValue(s[2]) + DigitValue(s[3]);
      match MonthField(s, 5)
      case None => None
      case Some((month, dayStart)) =>
        match DayField(s, dayStart)
        case None => None
        case Some(day) =>
          var d := Date(year, month, day);
          if IsValid(d) then Some(d) else None
  }

  /** The canonical "YYYY-MM-DD" text of a date, as the price API sends it. */
  function FormatDate(d: Date): (s: string)
    requires IsValid(d)
    ensures |s| == 10 && s[4] == '-' && s[7] == '-'
  {
    [DigitChar(d.year / 1000), DigitChar(d.year / 100 % 10), DigitChar(d.year / 10 % 10),
     DigitChar(d.year % 10), '-', DigitChar(d.month / 10), DigitChar(d.month % 10), '-',
     DigitChar(d.day / 10), DigitChar(d.day % 10)]
  }

  lemma DigitCharOfValue(c: char)
    requires IsDigit(c)
    ensures DigitChar(DigitValue(c)) == c
  {
  }

  lemma TwoDigitNumber(n: int)
    requires 0 <= n <= 99
    ensures n == 10 * (n / 10) + n % 10 && 0 <= n / 10 <= 9
  {
  }

  lemma FourDigitNumber(n: int)
    requires 0 <= n <= 9999
    ensures n == 1000 * (n / 1000) + 100 * (n / 100 % 10) + 10 * (n / 10 % 10) + n % 10
    ensures 0 <= n / 1000 <= 9
  {
    var q := n / 10;
    assert n == 10 * q + n % 10;
    assert q / 10 == n / 100;
    assert q == 10 * (n / 100) + q % 10;
    assert (n / 100) / 10 == n / 1000;
  }

  lemma DigitsOfNumber(a: int, b: int, c: int, e: int)
    requires 0 <= a <= 9 && 0 <= b <= 9 && 0 <= c <= 9 && 0 <= e <= 9
    ensures var n := 1000 * a + 100 * b + 10 * c + e;
      n / 1000 == a && n / 100 % 10 == b && n / 10 % 10 == c && n % 10 == e
  {
    var n := 1000 * a + 100 * b + 10 * c + e;
    assert n / 10 == 100 * a + 10 * b + c;
    assert n / 100 == 10 * a + b;
  }

  /** A month written with two digits is read back, whatever follows its '-'. */
  lemma MonthFieldReadsTwoDigits(s: string, i: nat, m: int)
    requires 1 <= m <= 12 && i + 3 <= |s|
    requires s[i] == DigitChar(m / 10) && s[i + 1] == DigitChar(m % 10) && s[i + 2] == '-'
    ensures MonthField(s, i) == Some((m, i + 3))
  {
    TwoDigitNumber(m);
  }

  /** A day written with two digits at the end of the text is read back. */
  lemma DayFieldReadsTwoDigits(s: string, i: nat, day: int)
    requires 1 <= day <= 31 && |s| == i + 2
    requires s[i] == DigitChar(day / 10) && s[i + 1] == DigitChar(day % 10)
    ensures DayField(s, i) == Some(day)
  {
    TwoDigitNumber(day);
  }

  /** Reading the canonical text of a date gives the date back. */
  lemma ParseFormatRoundTrip(d: Date)
    requires IsValid(d)
    ensures ParseDate(FormatDate(d)) == Some(d)
  {
    var s := FormatDate(d);
    FourDigitNumber(d.year);
    MonthFieldReadsTwoDigits(s, 5, d.month);
    DayFieldReadsTwoDigits(s, 8, d.day);
  }

  lemma TwoDigitChars(a: char, b: char)
    requires IsDigit(a) && IsDigit(b)
    ensures var n := 10 * DigitValue(a) + DigitValue(b);
      DigitChar(n / 10) == a && DigitChar(n % 10) == b
  {
    DigitCharOfValue(a);
    DigitCharOfValue(b);
  }

  lemma FourDigitChars(a: char, b: char, c: char, e: char)
    requires IsDigit(a) && IsDigit(b) && IsDigit(c) && IsDigit(e)
    ensures var n := 1000 * DigitValue(a) + 100 * DigitValue(b) + 10 * DigitValue(c) + DigitValue(e);
      DigitChar(n / 1000) == a && DigitChar(n / 100 % 10) == b
      && DigitChar(n / 10 % 10) == c && DigitChar(n % 10) == e
  {
    DigitsOfNumber(DigitValue(a), DigitValue(b), DigitValue(c), DigitValue(e));
    DigitCharOfValue(a);
    DigitCharOfValue(b);
    DigitCharOfValue(c);
    DigitCharOfValue(e);
  }

  /** A ten-character text without a space-padded day that reads as a date
      holds its month and its day as two digits each. */
  lemma TenCharacterFields(s: string)
    requires |s| == 10 && s[8] != ' ' && ParseDate(s).Some?
    ensures IsDigit(s[5]) && IsDigit(s[6]) && IsDigit(s[8]) && IsDigit(s[9]) && s[7] == '-'
    ensures ParseDate(s).value.month == 10 * DigitValue(s[5]) + DigitValue(s[6])
    ensures ParseDate(s).value.day == 10 * DigitValue(s[8]) + DigitValue(s[9])
  {
    // A one-digit month would leave three characters for the day.
  }

  /** Conversely, a ten-character text that reads as a date, and does not
      use the space-padded day form, is that date's canonical text. */
  lemma FormatParseRoundTrip(s: string)
    requires |s| == 10 && s[8] != ' ' && ParseDate(s).Some?
    ensures FormatDate(ParseDate(s).value) == s
  {
    TenCharacterFields(s);
    FourDigitChars(s[0], s[1], s[2], s[3]);
    TwoDigitChars(s[5], s[6]);
    TwoDigitChars(s[8], s[9]);
    var t := FormatDate(ParseDate(s).value);
    assert forall i | 0 <= i < 10 :: t[i] == s[i];
  }

  /** strptime also takes an unpadded month and day, and a space-padded day. */
  lemma LenientFormsAccepted()
    ensures ParseDate("2024-9-1") == Some(Date(2024, 9, 1))
    ensures ParseDate("2024-09- 5") == Some(Date(2024, 9, 5))
  {
  }

  /** strptime refuses a day that leaves text behind, a date that does not
      exist and the year zero. */
  lemma MalformedFormsRefused()
    ensures ParseDate("2024-09-010") == None
    ensures ParseDate("2023-02-29") == None
    ensures ParseDate("0000-01-01") == None
  {
  }
}
