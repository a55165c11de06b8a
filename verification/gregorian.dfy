/** Proleptic Gregorian civil dates, as JavaScript's `Date` sees them once the
    time of day and the time zone are stripped away.

    A date is numbered by the days since 0001-01-01 (day 0, a Monday).
    `FromDayNumber` inverts `DayNumber`, and `JsDate` reproduces the
    roll-over of `new Date(year, monthIndex, day)`: an out-of-range month or
    day is carried into the neighbouring months and years instead of being
    rejected, and a two-digit year 0..99 is read as 1900..1999. */
module Gregorian {

  datatype Date = Date(year: int, month: int, day: int)

  predicate IsLeapYear(y: int) {
    (y % 4 == 0 && y % 100 != 0) || y % 400 == 0
  }

  function DaysInMonth(y: int, m: int): (r: int)
    requires 1 <= m <= 12
    ensures 28 <= r <= 31
    ensures m == 2 ==> (r == 29 <==> IsLeapYear(y))
  {
    if m == 2 then (if IsLeapYear(y) then 29 else 28)
    else if m == 4 || m == 6 || m == 9 || m == 11 then 30
    else 31
  }

  function DaysInYear(y: int): int {
    if IsLeapYear(y) then 366 else 365
  }

  /** A real calendar day: month 1..12 and day within the month. */
  predicate Valid(d: Date) {
    1 <= d.month <= 12 && 1 <= d.day <= DaysInMonth(d.year, d.month)
  }

  /** Days from 0001-01-01 to January 1st of year `y` (negative before year 1).
      Dafny's division by a positive constant floors, as the count needs. */
  function DaysBeforeYear(y: int): int {
    365 * (y - 1) + (y - 1) / 4 - (y - 1) / 100 + (y - 1) / 400
  }

  /** Days of year `y` that precede the first of month `m` (13 means the year's end). */
  function DaysBeforeMonth(y: int, m: int): (r: int)
    requires 1 <= m <= 13
    ensures 0 <= r <= 366
  {
    var common :=
      if m == 1 then 0 else if m == 2 then 31 else if m == 3 then 59
      else if m == 4 then 90 else if m == 5 then 120 else if m == 6 then 151
      else if m == 7 then 181 else if m == 8 then 212 else if m == 9 then 243
      else if m == 10 then 273 else if m == 11 then 304 else if m == 12 then 334
      else 365;
    if m > 2 && IsLeapYear(y) then common + 1 else common
  }

  function DayNumber(d: Date): int
    requires 1 <= d.month <= 12
  {
    DaysBeforeYear(d.year) + DaysBeforeMonth(d.year, d.month) + d.day - 1
  }

  /** JavaScript `getDay()`: 0 is Sunday, 6 is Saturday. */
  function Weekday(d: Date): (r: int)
    requires 1 <= d.month <= 12
    ensures 0 <= r < 7
  {
    (DayNumber(d) + 1) % 7
  }

  function NextDay(d: Date): Date
    requires Valid(d)
  {
    if d.day < DaysInMonth(d.year, d.month) then Date(d.year, d.month, d.day + 1)
    else if d.month < 12 then Date(d.year, d.month + 1, 1)
    else Date(d.year + 1, 1, 1)
  }

  function PrevDay(d: Date): Date
    requires Valid(d)
  {
    if d.day > 1 then Date(d.year, d.month, d.day - 1)
    else if d.month > 1 then Date(d.year, d.month - 1, DaysInMonth(d.year, d.month - 1))
    else Date(d.year - 1, 12, 31)
  }

  lemma HundredsAreFours(y: int)
    requires y % 100 == 0
    ensures y % 4 == 0
  {
    var q := y / 100;
    assert y == 4 * (25 * q);
  }

  lemma FourHundredsAreHundreds(y: int)
    requires y % 400 == 0
    ensures y % 100 == 0
  {
    var q := y / 400;
    assert y == 100 * (4 * q);
  }

  lemma DivStep(x: int)
    ensures (x + 1) / 4 == x / 4 + (if (x + 1) % 4 == 0 then 1 else 0)
    ensures (x + 1) / 100 == x / 100 + (if (x + 1) % 100 == 0 then 1 else 0)
    ensures (x + 1) / 400 == x / 400 + (if (x + 1) % 400 == 0 then 1 else 0)
  {
  }

  /** The year-length part of the count: the leap days added by year `y`. */
  function LeapDay(y: int): int {
    (if y % 4 == 0 then 1 else 0) - (if y % 100 == 0 then 1 else 0) + (if y % 400 == 0 then 1 else 0)
  }

  lemma DaysBeforeYearStep(y: int)
    ensures DaysBeforeYear(y + 1) == DaysBeforeYear(y) + 365 + LeapDay(y)
  {
    DivStep(y - 1);
  }

  lemma LeapDayIsLeapYear(y: int)
    ensures LeapDay(y) == (if IsLeapYear(y) then 1 else 0)
  {
    if y % 400 == 0 {
      FourHundredsAreHundreds(y);
      HundredsAreFours(y);
    } else if y % 100 == 0 {
      HundredsAreFours(y);
    }
  }

  /** Consecutive years differ by the length of the first. */
  lemma DaysBeforeNextYear(y: int)
    ensures DaysBeforeYear(y + 1) == DaysBeforeYear(y) + DaysInYear(y)
  {
    DaysBeforeYearStep(y);
    LeapDayIsLeapYear(y);
  }

  lemma DaysBeforeMonthStep(y: int, m: int)
    requires 1 <= m <= 12
    ensures DaysBeforeMonth(y, m + 1) == DaysBeforeMonth(y, m) + DaysInMonth(y, m)
  {
  }

  lemma DaysBeforeMonthMono(y: int, m1: int, m2: int)
    requires 1 <= m1 <= m2 <= 13
    ensures DaysBeforeMonth(y, m1) + 28 * (m2 - m1) <= DaysBeforeMonth(y, m2)
  {
  }

  lemma YearEnd(y: int)
    ensures DaysBeforeMonth(y, 13) == DaysInYear(y)
  {
  }

  /** Days since January 1st of the date's year. */
  function DayOfYear(d: Date): int
    requires 1 <= d.month <= 12
  {
    DayNumber(d) - DayNumber(Date(d.year, 1, 1))
  }

  /** The days of a valid date's year surround its number. */
  lemma DayNumberWithinYear(d: Date)
    requires Valid(d)
    ensures DaysBeforeYear(d.year) <= DayNumber(d) < DaysBeforeYear(d.year + 1)
  {
    DaysBeforeNextYear(d.year);
    DaysBeforeMonthStep(d.year, d.month);
    DaysBeforeMonthMono(d.year, d.month + 1, 13);
    YearEnd(d.year);
  }

  lemma {:induction false} DaysBeforeYearMono(a: int, b: int)
    requires a <= b
    ensures DaysBeforeYear(a) + 365 * (b - a) <= DaysBeforeYear(b)
    decreases b - a
  {
    if a < b {
      DaysBeforeYearMono(a, b - 1);
      DaysBeforeNextYear(b - 1);
    }
  }

  /** `NextDay` is the day numbered one more, and stays a real date. */
  lemma NextDayNumber(d: Date)
    requires Valid(d)
    ensures Valid(NextDay(d))
    ensures DayNumber(NextDay(d)) == DayNumber(d) + 1
  {
    if d.day < DaysInMonth(d.year, d.month) {
    } else if d.month < 12 {
      DaysBeforeMonthStep(d.year, d.month);
    } else {
      DaysBeforeNextYear(d.year);
      YearEnd(d.year);
    }
  }

  /** `PrevDay` is the day numbered one less, and stays a real date. */
  lemma PrevDayNumber(d: Date)
    requires Valid(d)
    ensures Valid(PrevDay(d))
    ensures DayNumber(PrevDay(d)) == DayNumber(d) - 1
  {
    if d.day > 1 {
    } else if d.month > 1 {
      DaysBeforeMonthStep(d.year, d.month - 1);
    } else {
      DaysBeforeNextYear(d.year - 1);
      YearEnd(d.year - 1);
    }
  }

  /** The date with the given day number, found by walking day by day from
      0001-01-01: every number names a date. */
  function WalkToDayNumber(n: int): (r: Date)
    ensures Valid(r)
    ensures DayNumber(r) == n
    decreases if n < 0 then -n else n
  {
    if n == 0 then Date(1, 1, 1)
    else if n > 0 then
      var p := WalkToDayNumber(n - 1);
      NextDayNumber(p);
      NextDay(p)
    else
      var q := WalkToDayNumber(n + 1);
      PrevDayNumber(q);
      PrevDay(q)
  }

  lemma DayNumberOnto(n: int)
    ensures exists r :: Valid(r) && DayNumber(r) == n
  {
    var r := WalkToDayNumber(n);
  }

  lemma DayNumberInjectiveAll()
    ensures forall a, b :: Valid(a) && Valid(b) && DayNumber(a) == DayNumber(b) ==> a == b
  {
    forall a, b | Valid(a) && Valid(b) && DayNumber(a) == DayNumber(b)
      ensures a == b
    {
      DayNumberInjective(a, b);
    }
  }

  /** The one real date with the given day number. */
  function FromDayNumber(n: int): (r: Date)
    ensures Valid(r)
    ensures DayNumber(r) == n
  {
    DayNumberOnto(n);
    DayNumberInjectiveAll();
    var r :| Valid(r) && DayNumber(r) == n;
    r
  }

  /** Two real dates with the same number are the same date. */
  lemma DayNumberInjective(a: Date, b: Date)
    requires Valid(a) && Valid(b)
    requires DayNumber(a) == DayNumber(b)
    ensures a == b
  {
    SameNumberSameYear(a, b);
    SameNumberSameMonth(a, b);
  }

  lemma SameNumberSameYear(a: Date, b: Date)
    requires Valid(a) && Valid(b)
    requires DayNumber(a) == DayNumber(b)
    ensures a.year == b.year
  {
    if a.year < b.year {
      EarlierYearSmaller(a, b);
      assert false;
    } else if b.year < a.year {
      EarlierYearSmaller(b, a);
      assert false;
    }
  }

  lemma SameNumberSameMonth(a: Date, b: Date)
    requires Valid(a) && Valid(b) && a.year == b.year
    requires DayNumber(a) == DayNumber(b)
    ensures a.month == b.month
  {
    if a.month < b.month {
      EarlierMonthSmaller(a, b);
      assert false;
    } else if b.month < a.month {
      EarlierMonthSmaller(b, a);
      assert false;
    }
  }

  /** `DayNumberInjective` for a date known only through its number. */
  lemma SameDayNumber(r: Date, d: Date)
    requires Valid(r) && Valid(d) && DayNumber(r) == DayNumber(d)
    ensures r == d
  {
    DayNumberInjective(r, d);
  }

  /** Numbering a real date and converting back gives the date itself. */
  lemma FromDayNumberOfDayNumber(d: Date)
    requires Valid(d)
    ensures FromDayNumber(DayNumber(d)) == d
  {
    DayNumberInjective(FromDayNumber(DayNumber(d)), d);
  }

  /** Real dates are ordered by their numbers as they are lexicographically. */
  predicate Before(a: Date, b: Date) {
    a.year < b.year || (a.year == b.year && (a.month < b.month || (a.month == b.month && a.day < b.day)))
  }

  lemma DayNumberOrder(a: Date, b: Date)
    requires Valid(a) && Valid(b)
    ensures Before(a, b) <==> DayNumber(a) < DayNumber(b)
  {
    if a.year < b.year {
      EarlierYearSmaller(a, b);
    } else if b.year < a.year {
      EarlierYearSmaller(b, a);
    } else if a.month < b.month {
      EarlierMonthSmaller(a, b);
    } else if b.month < a.month {
      EarlierMonthSmaller(b, a);
    }
  }

  lemma EarlierYearSmaller(a: Date, b: Date)
    requires Valid(a) && Valid(b) && a.year < b.year
    ensures DayNumber(a) < DayNumber(b)
  {
    DayNumberWithinYear(a);
    DayNumberWithinYear(b);
    DaysBeforeYearMono(a.year + 1, b.year);
  }

  lemma EarlierMonthSmaller(a: Date, b: Date)
    requires Valid(a) && Valid(b) && a.year == b.year && a.month < b.month
    ensures DayNumber(a) < DayNumber(b)
  {
    DaysBeforeMonthStep(a.year, a.month);
    DaysBeforeMonthMono(a.year, a.month + 1, b.month);
  }

  /** The date `n` days after `d` (before it for negative `n`): `setDate(getDate() + n)`. */
  function AddDays(d: Date, n: int): (r: Date)
    requires 1 <= d.month <= 12
    ensures Valid(r)
    ensures DayNumber(r) == DayNumber(d) + n
  {
    FromDayNumber(DayNumber(d) + n)
  }

  /** The year `new Date(y, …)` actually uses: 0..99 are read as 1900..1999. */
  function JsFullYear(y: int): (r: int)
    ensures 0 <= y <= 99 ==> r == 1900 + y
    ensures (y < 0 || y > 99) ==> r == y
  {
    if 0 <= y <= 99 then 1900 + y else y
  }

  /** `new Date(y, monthIndex, day)` with the month counted from 0: months and
      days outside their ranges roll into the neighbouring months and years. */
  function JsDate(y: int, monthIndex: int, day: int): (r: Date)
    ensures Valid(r)
    ensures DayNumber(r) == DayNumber(Date(JsFullYear(y) + monthIndex / 12, monthIndex % 12 + 1, 1)) + day - 1
  {
    var first := Date(JsFullYear(y) + monthIndex / 12, monthIndex % 12 + 1, 1);
    AddDays(first, day - 1)
  }

  /** Inside the ranges, `new Date` builds the date it was given, in the
      year the two-digit mapping makes of `y`. */
  lemma JsDateNormal(y: int, monthIndex: int, day: int)
    requires 0 <= monthIndex < 12
    requires 1 <= day <= DaysInMonth(JsFullYear(y), monthIndex + 1)
    ensures JsDate(y, monthIndex, day) == Date(JsFullYear(y), monthIndex + 1, day)
  {
    assert monthIndex / 12 == 0 && monthIndex % 12 == monthIndex;
    var r := JsDate(y, monthIndex, day);
    var d := Date(JsFullYear(y), monthIndex + 1, day);
    assert DayNumber(r) == DayNumber(d);
    DayNumberInjective(r, d);
  }

  /** The 1st of the month after `m` follows the last day of `m`. */
  lemma FirstAfterLast(y: int, m: int)
    requires 1 <= m <= 12
    ensures DayNumber(Date(y + m / 12, m % 12 + 1, 1)) == DayNumber(Date(y, m, DaysInMonth(y, m))) + 1
  {
    var last := Date(y, m, DaysInMonth(y, m));
    NextDayNumber(last);
    if m < 12 {
      assert m / 12 == 0 && m % 12 == m;
    } else {
      assert m / 12 == 1 && m % 12 == 0;
    }
  }

  /** Day 0 of the month after `m` is the last day of `m`. */
  lemma JsDateDayZero(y: int, m: int)
    requires 1 <= m <= 12
    ensures JsDate(y, m, 0) == Date(JsFullYear(y), m, DaysInMonth(JsFullYear(y), m))
  {
    var fy := JsFullYear(y);
    DayZeroNumber(y, m);
    SameDayNumber(JsDate(y, m, 0), Date(fy, m, DaysInMonth(fy, m)));
  }

  lemma DayZeroNumber(y: int, m: int)
    requires 1 <= m <= 12
    ensures DayNumber(JsDate(y, m, 0)) == DayNumber(Date(JsFullYear(y), m, DaysInMonth(JsFullYear(y), m)))
  {
    var fy := JsFullYear(y);
    var first := Date(fy + m / 12, m % 12 + 1, 1);
    assert DayNumber(JsDate(y, m, 0)) == DayNumber(first) - 1;
    FirstAfterLast(fy, m);
  }

  /** Day 1 of month index `monthIndex` of year `y`, with the index carried
      into the neighbouring years: month `monthIndex + 1` counted from
      January of `JsFullYear(y)`. */
  function JsFirstOfMonth(y: int, monthIndex: int): (r: Date)
    ensures Valid(r) && r.day == 1
    ensures r.year * 12 + r.month == JsFullYear(y) * 12 + monthIndex + 1
  {
    Date(JsFullYear(y) + monthIndex / 12, monthIndex % 12 + 1, 1)
  }

  /** Day 1 of any month index is what `new Date(y, monthIndex, 1)` builds. */
  lemma JsDateFirst(y: int, monthIndex: int)
    ensures JsDate(y, monthIndex, 1) == JsFirstOfMonth(y, monthIndex)
  {
    DayNumberInjective(JsDate(y, monthIndex, 1), JsFirstOfMonth(y, monthIndex));
  }

  /** A year 0..99 lies more than eighteen centuries before the year
      `new Date` reads for it: the whole of it comes before that year starts. */
  lemma TwoDigitYearFarAhead(y: int)
    requires 0 <= y <= 99
    ensures DaysBeforeYear(y + 1) + 365 * 1899 <= DaysBeforeYear(JsFullYear(y))
  {
    DaysBeforeYearMono(y + 1, 1900 + y);
  }

  /** So a date in the years 0..99 comes long before 1 January of the year
      `new Date` reads for its year. */
  lemma YearStartFarAhead(d: Date)
    requires Valid(d)
    ensures 0 <= d.year <= 99 ==> DayNumber(d) + 365 * 1899 <= DayNumber(Date(JsFullYear(d.year), 1, 1))
  {
    if 0 <= d.year <= 99 {
      DayNumberWithinYear(d);
      TwoDigitYearFarAhead(d.year);
    }
  }

  /** The number of 1970-01-01, the day the time values of `Date` count from. */
  const EPOCH_DAY := 719162

  /** A `Date` holds at most 8.64e15 ms either side of the epoch (TimeClip,
      section 21.4.1.31 of ECMA-262): 100 000 000 days, from -271821-04-20
      to 275760-09-13. */
  const MAX_EPOCH_DAYS := 100000000

  lemma EpochDay()
    ensures DayNumber(Date(1970, 1, 1)) == EPOCH_DAY
  {
  }

  /** The date is one a `Date` can hold; outside, `new Date` gives an
      Invalid Date, whose `getTime()` is NaN. The day is taken at UTC offset
      zero. */
  predicate InTimeRange(d: Date)
    requires 1 <= d.month <= 12
  {
    -MAX_EPOCH_DAYS <= DayNumber(d) - EPOCH_DAY <= MAX_EPOCH_DAYS
  }

  /** Every date of the years -271820 to 275759 is in range. */
  lemma YearsInTimeRange(d: Date)
    requires Valid(d) && -271820 <= d.year <= 275759
    ensures InTimeRange(d)
  {
    DayNumberWithinYear(d);
    DaysBeforeYearMono(-271820, d.year);
    DaysBeforeYearMono(d.year + 1, 275760);
  }

  /** No date after the year 275760, nor before the year -271821, is. */
  lemma FarYearsOutOfTimeRange(d: Date)
    requires Valid(d) && (d.year > 275760 || d.year < -271821)
    ensures !InTimeRange(d)
  {
    DayNumberWithinYear(d);
    if d.year > 275760 {
      DaysBeforeYearMono(275761, d.year);
    } else {
      DaysBeforeYearMono(d.year + 1, -271821);
    }
  }

  /** For years from 100 on, and for negative years, where no two-digit
      mapping applies, `new Date` builds exactly the date it was given. */
  lemma JsDateInRange(y: int, monthIndex: int, day: int)
    requires y < 0 || y > 99
    requires 0 <= monthIndex < 12
    requires 1 <= day <= DaysInMonth(y, monthIndex + 1)
    ensures JsDate(y, monthIndex, day) == Date(y, monthIndex + 1, day)
  {
    JsDateNormal(y, monthIndex, day);
  }
}
