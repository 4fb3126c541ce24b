/** Civil dates (src/utils/date.ts, and `daysBetween` in the two streak
    middlewares): the next calendar day as `Date.UTC` normalises it, the
    whole-day difference of two UTC midnights, and the `YYYY-MM-DD` text
    that `toISOString().slice(0, 10)` and MySQL DATE columns use. */
module Calendar {
  import opened Common
  import opened Strings

  /** A proleptic Gregorian calendar day. */
  datatype Date = Date(year: int, month: int, day: int)

  predicate IsLeapYear(y: int) {
    y % 4 == 0 && (y % 100 != 0 || y % 400 == 0)
  }

  function DaysInMonth(y: int, m: int): int {
    if m == 2 then (if IsLeapYear(y) then 29 else 28)
    else if m == 4 || m == 6 || m == 9 || m == 11 then 30
    else 31
  }

  predicate ValidDate(d: Date) {
    1 <= d.month <= 12 && 1 <= d.day <= DaysInMonth(d.year, d.month)
  }

  /** Calendar order: how MySQL compares two DATE values. */
  predicate Before(a: Date, b: Date) {
    a.year < b.year
    || (a.year == b.year && (a.month < b.month || (a.month == b.month && a.day < b.day)))
  }

  predicate AtOrBefore(a: Date, b: Date) {
    a == b || Before(a, b)
  }

  /** `Date.UTC(y, m, d + 1)`: a day past the end of the month overflows
      into the 1st of the next month, and past December into January. */
  function NextDay(d: Date): (r: Date)
    requires ValidDate(d)
    ensures ValidDate(r) && Before(d, r)
  {
    if d.day < DaysInMonth(d.year, d.month) then Date(d.year, d.month, d.day + 1)
    else if d.month < 12 then Date(d.year, d.month + 1, 1)
    else Date(d.year + 1, 1, 1)
  }

  /** Days in the years before `y`, counted from year 0; a leap year is one of
      the years 0, 4, ... in [0, y) that is not a century, or is one of 400
      years.  Euclidean division keeps the count right for negative years. */
  function DaysBeforeYear(y: int): int {
    365 * y + (y + 3) / 4 - (y + 99) / 100 + (y + 399) / 400
  }

  function DaysBeforeMonth(y: int, m: int): (r: int)
    ensures r >= 0
    decreases m
  {
    if m <= 1 then 0 else DaysBeforeMonth(y, m - 1) + DaysInMonth(y, m - 1)
  }

  function YearLength(y: int): int {
    if IsLeapYear(y) then 366 else 365
  }

  /** Days since 1970-01-01: `getTime()` of the UTC midnight divided by
      the milliseconds of a day. */
  function DayNumber(d: Date): int {
    DaysBeforeYear(d.year) + DaysBeforeMonth(d.year, d.month) + d.day - 1 - 719528
  }

  /** `daysBetween(d1, d2)` of the streak middlewares on two parsed dates:
      `Math.round((b - a) / 86400000)`, exact because both are midnights. */
  function DaysBetween(a: Date, b: Date): int {
    DayNumber(b) - DayNumber(a)
  }

  lemma EpochIsDayZero()
    ensures DayNumber(Date(1970, 1, 1)) == 0
  {
  }

  lemma YearBoundary(y: int)
    ensures DaysBeforeYear(y + 1) == DaysBeforeYear(y) + YearLength(y)
  {
    StepFour(y);
    StepHundred(y);
    StepFourHundred(y);
    DivisorChain(y);
    var leap := if y % 4 == 0 then 1 else 0;
    var century := if y % 100 == 0 then 1 else 0;
    var fourCenturies := if y % 400 == 0 then 1 else 0;
    assert YearLength(y) == 365 + leap - century + fourCenturies;
  }

  /** A multiple of 400 is one of 100, and a multiple of 100 one of 4. */
  lemma DivisorChain(y: int)
    ensures y % 400 == 0 ==> y % 100 == 0
    ensures y % 100 == 0 ==> y % 4 == 0
  {
    if y % 400 == 0 {
      var m := 4 * (y / 400);
      assert y == 100 * m;
      MultipleRemainders(m);
    }
    if y % 100 == 0 {
      var m := 25 * (y / 100);
      assert y == 4 * m;
      MultipleRemainders(m);
    }
  }

  lemma MultipleRemainders(m: int)
    ensures (100 * m) % 100 == 0 && (4 * m) % 4 == 0
  {
  }

  /** One more year adds a year of 4 exactly when `y` is a multiple of 4;
      the next two lemmas do the same for 100 and 400. */
  lemma StepFour(y: int)
    ensures (y + 4) / 4 - (y + 3) / 4 == if y % 4 == 0 then 1 else 0
  {
  }

  lemma StepHundred(y: int)
    ensures (y + 100) / 100 - (y + 99) / 100 == if y % 100 == 0 then 1 else 0
  {
  }

  lemma StepFourHundred(y: int)
    ensures (y + 400) / 400 - (y + 399) / 400 == if y % 400 == 0 then 1 else 0
  {
  }

  lemma {:induction false} MonthsFillYear(y: int)
    ensures DaysBeforeMonth(y, 13) == YearLength(y)
  {
    assert DaysBeforeMonth(y, 2) == 31;
    assert DaysBeforeMonth(y, 3) == 31 + DaysInMonth(y, 2);
  }

  /** The day `NextDay` yields is exactly one day after its argument. */
  lemma NextDayIsOneDayLater(d: Date)
    requires ValidDate(d)
    ensures DaysBetween(d, NextDay(d)) == 1
  {
    if d.day == DaysInMonth(d.year, d.month) && d.month == 12 {
      YearBoundary(d.year);
      MonthsFillYear(d.year);
    }
  }

  lemma {:induction false} DaysBeforeMonthGrows(y: int, m1: int, m2: int)
    requires 1 <= m1 < m2
    ensures DaysBeforeMonth(y, m1) + DaysInMonth(y, m1) <= DaysBeforeMonth(y, m2)
    decreases m2 - m1
  {
    if m1 + 1 < m2 {
      DaysBeforeMonthGrows(y, m1 + 1, m2);
    }
  }

  lemma {:induction false} DaysBeforeYearGrows(y1: int, y2: int)
    requires y1 < y2
    ensures DaysBeforeYear(y1) + YearLength(y1) <= DaysBeforeYear(y2)
    decreases y2 - y1
  {
    YearBoundary(y1);
    if y1 + 1 < y2 {
      DaysBeforeYearGrows(y1 + 1, y2);
    }
  }

  /** Day numbers follow the calendar order. */
  lemma DayNumberMonotone(a: Date, b: Date)
    requires ValidDate(a) && ValidDate(b) && Before(a, b)
    ensures DayNumber(a) < DayNumber(b)
  {
    if a.year < b.year {
      DaysBeforeMonthGrows(a.year, a.month, 13);
      MonthsFillYear(a.year);
      DaysBeforeYearGrows(a.year, b.year);
      assert DaysBeforeMonth(a.year, a.month) + a.day <= YearLength(a.year);
      assert DaysBeforeYear(a.year) + YearLength(a.year) <= DaysBeforeYear(b.year);
    } else if a.month < b.month {
      DaysBeforeMonthGrows(a.year, a.month, b.month);
      assert DaysBeforeMonth(a.year, a.month) + a.day <= DaysBeforeMonth(b.year, b.month);
    }
  }

  /** A gap of exactly one day means "the next calendar day", and a gap of
      zero means "the same day". */
  lemma GapMeaning(a: Date, b: Date)
    requires ValidDate(a) && ValidDate(b)
    ensures DaysBetween(a, b) == 0 <==> a == b
    ensures DaysBetween(a, b) == 1 <==> b == NextDay(a)
    ensures DaysBetween(a, b) > 0 <==> Before(a, b)
  {
    NextDayIsOneDayLater(a);
    var n := NextDay(a);
    if Before(a, b) { DayNumberMonotone(a, b); }
    if Before(b, a) { DayNumberMonotone(b, a); }
    if Before(n, b) { DayNumberMonotone(n, b); }
    if Before(b, n) { DayNumberMonotone(b, n); }
  }

  /** The year as `toISOString` writes it: four digits for 0..9999, else a
      sign and six digits. */
  function YearText(y: int): string
    requires -1000000 < y < 1000000
  {
    if 0 <= y <= 9999 then Pad(y, 4)
    else if y < 0 then "-" + Pad(-y, 6)
    else "+" + Pad(y, 6)
  }

  /** The `YYYY-MM-DD` text of a date. */
  function FormatIso(d: Date): string
    requires ValidDate(d) && -1000000 < d.year < 1000000
  {
    YearText(d.year) + "-" + Pad(d.month, 2) + "-" + Pad(d.day, 2)
  }

  /** A JavaScript `Date` of the given UTC day (a year that `Date.UTC` takes
      literally, 100 on, and whose next day is still a representable Date). */
  predicate ClockDate(d: Date) {
    ValidDate(d) && 100 <= d.year < 275760
  }

  /** getTomorrowDateIso: the next UTC day after `now`, as
      `toISOString().slice(0, 10)` writes it. */
  function TomorrowIso(now: Date): (r: string)
    requires ClockDate(now)
    ensures |r| == 10
  {
    (FormatIso(NextDay(now)) + "T00:00:00.000Z")[..10]
  }

  /** Up to year 9999 the result is the zero-padded `YYYY-MM-DD` text of the
      day after `now`: it reads back as that day, one day later. */
  lemma TomorrowIsNextDay(now: Date)
    requires ClockDate(now) && NextDay(now).year <= 9999
    ensures TomorrowIso(now) == FormatIso(NextDay(now))
    ensures ParseIso(TomorrowIso(now)) == Some(NextDay(now))
    ensures DaysBetween(now, NextDay(now)) == 1
  {
    var t := NextDay(now);
    assert (FormatIso(t) + "T00:00:00.000Z")[..10] == FormatIso(t);
    ParseFormat(t);
    NextDayIsOneDayLater(now);
  }

  /** `new Date(s + 'T00:00:00Z')` for the `YYYY-MM-DD` strings the database
      hands back: a date, or None where JavaScript produces an invalid Date. */
  function ParseIso(s: string): (r: Option<Date>)
    ensures r.Some? ==> ValidDate(r.value) && 0 <= r.value.year <= 9999
  {
    if |s| == 10 && s[4] == '-' && s[7] == '-'
       && AllDigits(s[..4]) && AllDigits(s[5..7]) && AllDigits(s[8..])
    then
      assert Pow10(4) == 10000;
      var d := Date(ParseDigits(s[..4]), ParseDigits(s[5..7]), ParseDigits(s[8..]));
      if ValidDate(d) then Some(d) else None
    else None
  }

  /** The streak middlewares' `daysBetween` on the text of two dates; None
      stands for NaN (a string that does not parse). */
  function DaysBetweenIso(s1: string, s2: string): Option<int>
  {
    match (ParseIso(s1), ParseIso(s2))
    case (Some(a), Some(b)) => Some(DaysBetween(a, b))
    case _ => None
  }

  /** Reading back the text of a four-digit-year date gives the date. */
  lemma ParseFormat(d: Date)
    requires ValidDate(d) && 0 <= d.year <= 9999
    ensures ParseIso(FormatIso(d)) == Some(d)
  {
    var s := FormatIso(d);
    assert s[..4] == Pad(d.year, 4);
    assert s[5..7] == Pad(d.month, 2);
    assert s[8..] == Pad(d.day, 2);
    ParsePad(d.year, 4);
    ParsePad(d.month, 2);
    ParsePad(d.day, 2);
  }

  /** `daysBetween` on the stored text of two dates is their day difference. */
  lemma DaysBetweenOfFormatted(a: Date, b: Date)
    requires ValidDate(a) && 0 <= a.year <= 9999
    requires ValidDate(b) && 0 <= b.year <= 9999
    ensures DaysBetweenIso(FormatIso(a), FormatIso(b)) == Some(DaysBetween(a, b))
  {
    ParseFormat(a);
    ParseFormat(b);
  }

  /** `toIsoDate` of questions.ts on a string: the first ten characters, or ''
      for the empty string. */
  function ToIsoDate(s: string): (r: string)
    ensures |s| >= 10 ==> r == s[..10]
    ensures |s| < 10 ==> r == s
  {
    if s == [] then [] else if |s| <= 10 then s else s[..10]
  }

  lemma {:induction false} LexLessConcat(x: string, y: string, x': string, y': string)
    requires |x| == |x'|
    ensures LexLess(x + y, x' + y') <==> LexLess(x, x') || (x == x' && LexLess(y, y'))
    decreases |x|
  {
    if x == [] {
      assert x + y == y && x' + y' == y';
    } else {
      assert (x + y)[0] == x[0] && (x' + y')[0] == x'[0];
      assert (x + y)[1..] == x[1..] + y;
      assert (x' + y')[1..] == x'[1..] + y';
      LexLessConcat(x[1..], y, x'[1..], y');
      if x[0] == x'[0] && x[1..] == x'[1..] {
        assert x == [x[0]] + x[1..] && x' == [x'[0]] + x'[1..];
      }
    }
  }

  lemma PadOrder(a: nat, b: nat, w: nat)
    requires a < Pow10(w) && b < Pow10(w)
    ensures LexLess(Pad(a, w), Pad(b, w)) <==> a < b
    ensures Pad(a, w) == Pad(b, w) <==> a == b
  {
    ParsePad(a, w);
    ParsePad(b, w);
    LexLessDigits(Pad(a, w), Pad(b, w));
  }

  /** For four-digit years, JavaScript's string `<` on the stored text of two
      dates is the calendar order. */
  lemma IsoTextOrder(a: Date, b: Date)
    requires ValidDate(a) && 0 <= a.year <= 9999
    requires ValidDate(b) && 0 <= b.year <= 9999
    ensures LexLess(FormatIso(a), FormatIso(b)) <==> Before(a, b)
  {
    var ya, yb := Pad(a.year, 4), Pad(b.year, 4);
    var ma, mb := Pad(a.month, 2), Pad(b.month, 2);
    var da, db := Pad(a.day, 2), Pad(b.day, 2);
    var ra, rb := "-" + ma + "-" + da, "-" + mb + "-" + db;
    FormatFourDigit(a);
    FormatFourDigit(b);
    LexLessConcat(ya, ra, yb, rb);
    DashedOrder(ma, da, mb, db);
    PadOrder(a.year, b.year, 4);
    PadOrder(a.month, b.month, 2);
    PadOrder(a.day, b.day, 2);
  }

  /** The text of a four-digit-year date is its padded year followed by
      its `-MM-DD` tail, every field within its width. */
  lemma FormatFourDigit(d: Date)
    requires ValidDate(d) && 0 <= d.year <= 9999
    ensures FormatIso(d) == Pad(d.year, 4) + ("-" + Pad(d.month, 2) + "-" + Pad(d.day, 2))
    ensures d.year < Pow10(4) && d.month < Pow10(2) && d.day < Pow10(2)
  {
    assert Pow10(4) == 10000 && Pow10(2) == 100;
  }

  /** Text order of `-MM-DD` tails with equally long month parts: month
      first, then day. */
  lemma DashedOrder(m: string, d: string, m': string, d': string)
    requires |m| == |m'|
    ensures LexLess("-" + m + "-" + d, "-" + m' + "-" + d') <==> LexLess(m, m') || (m == m' && LexLess(d, d'))
  {
    assert "-" + m + "-" + d == "-" + (m + ("-" + d));
    assert "-" + m' + "-" + d' == "-" + (m' + ("-" + d'));
    LexLessConcat("-", m + ("-" + d), "-", m' + ("-" + d'));
    LexLessConcat(m, "-" + d, m', "-" + d');
    LexLessConcat("-", d, "-", d');
  }
}
