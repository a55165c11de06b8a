/** The date helpers of the modular front end: the first and last day of a
    month, day arithmetic, same-day comparison, the `DD/MM/AAAA` parser and
    the Portuguese weekday names. A JavaScript `Date` is reduced to its
    civil day; the `Intl` formatters are left to the browser. */
module DateUtils {
  import opened Gregorian
  import Wrappers
  import Decimal
  import Text

  const DAY_NAMES: seq<string> := ["Domingo", "Segunda", "Terça", "Quarta", "Quinta", "Sexta", "Sábado"]
  const DAY_SHORT_NAMES: seq<string> := ["Dom", "Seg", "Ter", "Qua", "Qui", "Sex", "Sáb"]

  /** `getFirstDayOfMonth`: the 1st of the month, in the year the two-digit
      mapping gives (`FirstDayOfMonthIsNewDate`). */
  function FirstDayOfMonth(d: Date): (r: Date)
    requires 1 <= d.month <= 12
    ensures Valid(r) && r.day == 1 && r.month == d.month
  {
    Date(JsFullYear(d.year), d.month, 1)
  }

  /** It is `new Date(getFullYear(), getMonth(), 1)`. */
  lemma FirstDayOfMonthIsNewDate(d: Date)
    requires 1 <= d.month <= 12
    ensures FirstDayOfMonth(d) == JsDate(d.year, d.month - 1, 1)
  {
    JsDateNormal(d.year, d.month - 1, 1);
  }

  /** `getLastDayOfMonth`: the last day of the month
      (`LastDayOfMonthIsNewDate`). */
  function LastDayOfMonth(d: Date): (r: Date)
    requires 1 <= d.month <= 12
    ensures Valid(r) && r.month == d.month && r.year == FirstDayOfMonth(d).year
  {
    var y := JsFullYear(d.year);
    Date(y, d.month, DaysInMonth(y, d.month))
  }

  /** It is `new Date(getFullYear(), getMonth() + 1, 0)`: day 0 of the next
      month. */
  lemma LastDayOfMonthIsNewDate(d: Date)
    requires 1 <= d.month <= 12
    ensures LastDayOfMonth(d) == JsDate(d.year, d.month, 0)
  {
    JsDateDayZero(d.year, d.month);
  }

  /** A real date lies `day - 1` days after the first of its month and
      `DaysInMonth - day` days before the last; the last day is 28 to 31
      days into the month, and 29 in February exactly in leap years. */
  lemma MonthBounds(d: Date)
    requires Valid(d) && (d.year < 0 || d.year > 99)
    ensures DayNumber(d) - DayNumber(FirstDayOfMonth(d)) == d.day - 1
    ensures DayNumber(LastDayOfMonth(d)) - DayNumber(d) == DaysInMonth(d.year, d.month) - d.day
    ensures 28 <= LastDayOfMonth(d).day <= 31
    ensures d.month == 2 ==> (LastDayOfMonth(d).day == 29 <==> IsLeapYear(d.year))
  {
  }

  /** `addDays(d, 0)` is `d` itself. */
  lemma AddDaysZero(d: Date)
    requires Valid(d)
    ensures AddDays(d, 0) == d
  {
    FromDayNumberOfDayNumber(d);
  }

  /** Adding `a` days and then `b` days is adding `t = a + b` days. */
  lemma AddDaysCompose(d: Date, a: int, b: int, t: int)
    requires 1 <= d.month <= 12 && t == a + b
    ensures AddDays(AddDays(d, a), b) == AddDays(d, t)
  {
    DayNumberInjective(AddDays(AddDays(d, a), b), AddDays(d, t));
  }

  lemma ModSeven(a: int, n: int)
    ensures (a + n) % 7 == (a % 7 + n) % 7
  {
    var q := a / 7;
    assert a == 7 * q + a % 7;
    assert a + n == 7 * q + (a % 7 + n);
  }

  /** Moving `n` days moves the weekday by `n`, modulo 7. */
  lemma AddDaysWeekday(d: Date, n: int)
    requires 1 <= d.month <= 12
    ensures Weekday(AddDays(d, n)) == (Weekday(d) + n) % 7
  {
    ModSeven(DayNumber(d) + 1, n);
    assert DayNumber(AddDays(d, n)) + 1 == DayNumber(d) + 1 + n;
  }

  /** `isSameDay`: year, month and day agree; the time of day is ignored. */
  predicate IsSameDay(a: Date, b: Date): (r: bool)
    ensures Valid(a) && Valid(b) ==> (r <==> DayNumber(a) == DayNumber(b))
  {
    DayNumberInjectiveAll();
    a.day == b.day && a.month == b.month && a.year == b.year
  }

  /** On real dates, being the same day means having the same day number,
      so the relation is reflexive and symmetric. */
  lemma SameDayIffSameNumber(a: Date, b: Date)
    requires Valid(a) && Valid(b)
    ensures IsSameDay(a, b) <==> DayNumber(a) == DayNumber(b)
    ensures IsSameDay(a, a) && (IsSameDay(a, b) <==> IsSameDay(b, a))
  {
    if DayNumber(a) == DayNumber(b) {
      DayNumberInjective(a, b);
    }
  }

  /** Outcome of `parseBrazilianDate`: an exception, an invalid `Date`
      (from a part `parseInt` reads as NaN, or a day beyond the range a
      `Date` can hold), or a date. */
  datatype Parsed = Thrown | InvalidDate | Parsed(date: Date)

  /** `parseBrazilianDate`: `DD/MM/AAAA` split on '/', each part read by
      `parseInt`, and the three passed to `new Date(year, month - 1, day)`,
      which rolls out-of-range days and months over and gives an invalid
      date past 100 000 000 days either side of 1 January 1970. */
  function ParseBrazilianDate(s: string): (r: Parsed)
    ensures r.Thrown? <==> |Text.Split(s, '/')| != 3
    ensures r.Parsed? <==>
      (var parts := Text.Split(s, '/');
       |parts| == 3 && Decimal.ParseInt(parts[0]).Some? && Decimal.ParseInt(parts[1]).Some?
       && Decimal.ParseInt(parts[2]).Some?
       && InTimeRange(NewDate(Decimal.ParseInt(parts[2]).value, Decimal.ParseInt(parts[1]).value,
                              Decimal.ParseInt(parts[0]).value)))
    ensures r.Parsed? ==> Valid(r.date) && InTimeRange(r.date)
  {
    var parts := Text.Split(s, '/');
    if |parts| != 3 then Thrown
    else
      var day := Decimal.ParseInt(parts[0]);
      var month := Decimal.ParseInt(parts[1]);
      var year := Decimal.ParseInt(parts[2]);
      if day.None? || month.None? || year.None? then InvalidDate
      else
        var date := NewDate(year.value, month.value, day.value);
        if InTimeRange(date) then Parsed(date) else InvalidDate
  }

  /** `new Date(year, month - 1, day)` for a month written from 1, as a
      calendar day; whether that day is within the range of a `Date` is
      `InTimeRange`. */
  function NewDate(year: int, month: int, day: int): (r: Date)
    ensures Valid(r)
  {
    JsDate(year, month - 1, day)
  }

  /** `DD/MM/AAAA` as the application writes it. */
  function BrazilianDate(d: Date): string
    requires Valid(d) && d.year >= 0
  {
    Decimal.TwoDigits(d.day) + "/" + Decimal.TwoDigits(d.month) + "/" + Decimal.NatToString(d.year)
  }

  lemma DigitsHaveNoSlash(s: string)
    requires Decimal.AllDigits(s)
    ensures '/' !in s
  {
    assert forall i :: 0 <= i < |s| ==> Decimal.IsDigit(s[i]);
  }

  /** Three runs of digits joined by '/' parse as the day, month and year
      they spell, or as an invalid date when that day is out of range. */
  lemma ParseDigitParts(ds: string, ms: string, ys: string)
    requires 1 <= |ds| && 1 <= |ms| && 1 <= |ys|
    requires Decimal.AllDigits(ds) && Decimal.AllDigits(ms) && Decimal.AllDigits(ys)
    ensures var date := NewDate(Decimal.DigitsValue(ys), Decimal.DigitsValue(ms), Decimal.DigitsValue(ds));
      ParseBrazilianDate(ds + "/" + ms + "/" + ys) == (if InTimeRange(date) then Parsed(date) else InvalidDate)
  {
    DigitPartsRead(ds, ms, ys);
    ParseOfReadParts(ds + "/" + ms + "/" + ys, Decimal.DigitsValue(ds), Decimal.DigitsValue(ms), Decimal.DigitsValue(ys));
  }

  lemma ParseOfReadParts(s: string, day: int, month: int, year: int)
    requires |Text.Split(s, '/')| == 3
    requires Decimal.ParseInt(Text.Split(s, '/')[0]) == Wrappers.Some(day)
    requires Decimal.ParseInt(Text.Split(s, '/')[1]) == Wrappers.Some(month)
    requires Decimal.ParseInt(Text.Split(s, '/')[2]) == Wrappers.Some(year)
    ensures var date := NewDate(year, month, day);
      ParseBrazilianDate(s) == (if InTimeRange(date) then Parsed(date) else InvalidDate)
  {
  }

  lemma DigitPartsRead(ds: string, ms: string, ys: string)
    requires 1 <= |ds| && 1 <= |ms| && 1 <= |ys|
    requires Decimal.AllDigits(ds) && Decimal.AllDigits(ms) && Decimal.AllDigits(ys)
    ensures Text.Split(ds + "/" + ms + "/" + ys, '/') == [ds, ms, ys]
    ensures Decimal.ParseInt(ds) == Wrappers.Some(Decimal.DigitsValue(ds))
    ensures Decimal.ParseInt(ms) == Wrappers.Some(Decimal.DigitsValue(ms))
    ensures Decimal.ParseInt(ys) == Wrappers.Some(Decimal.DigitsValue(ys))
  {
    DigitsHaveNoSlash(ds);
    DigitsHaveNoSlash(ms);
    DigitsHaveNoSlash(ys);
    Text.SplitThree(ds, ms, ys, '/');
    Decimal.ParseIntOfDigits(ds);
    Decimal.ParseIntOfDigits(ms);
    Decimal.ParseIntOfDigits(ys);
  }

  /** A real date written `DD/MM/AAAA` parses back to itself, for every year
      from 100 on, as long as a `Date` can hold it; past that range it is an
      invalid date. */
  lemma ParseBrazilianRoundTrip(d: Date)
    requires Valid(d) && d.year >= 100
    ensures InTimeRange(d) ==> ParseBrazilianDate(BrazilianDate(d)) == Parsed(d)
    ensures !InTimeRange(d) ==> ParseBrazilianDate(BrazilianDate(d)) == InvalidDate
  {
    ParseDigitParts(Decimal.TwoDigits(d.day), Decimal.TwoDigits(d.month), Decimal.NatToString(d.year));
    JsDateInRange(d.year, d.month - 1, d.day);
  }

  /** The round trip holds for every year from 100 to 275759. */
  lemma ParseBrazilianRoundTripInRange(d: Date)
    requires Valid(d) && 100 <= d.year <= 275759
    ensures ParseBrazilianDate(BrazilianDate(d)) == Parsed(d)
  {
    YearsInTimeRange(d);
    ParseBrazilianRoundTrip(d);
  }

  /** A well-formed date past the year 275760 is an invalid date. */
  lemma ParseBrazilianBeyondRange(d: Date)
    requires Valid(d) && d.year > 275760
    ensures ParseBrazilianDate(BrazilianDate(d)) == InvalidDate
  {
    FarYearsOutOfTimeRange(d);
    ParseBrazilianRoundTrip(d);
  }

  /** Out-of-range days are not rejected: 31 February of a common year is
      read as 3 March. */
  lemma ParseBrazilianRollsOver(y: int)
    requires y >= 100 && !IsLeapYear(y)
    ensures y <= 275759 ==> ParseBrazilianDate("31/02/" + Decimal.NatToString(y)) == Parsed(Date(y, 3, 3))
    ensures y > 275759 ==> ParseBrazilianDate("31/02/" + Decimal.NatToString(y)) == InvalidDate
  {
    var ys := Decimal.NatToString(y);
    ThirtyFirstOfFebruary(ys);
    ParseDigitParts("31", "02", ys);
    RollOver(y);
    RolledOverRange(y);
  }

  lemma RolledOverRange(y: int)
    requires y >= 100 && !IsLeapYear(y)
    ensures y <= 275759 ==> InTimeRange(Date(y, 3, 3))
    ensures y > 275759 ==> !InTimeRange(Date(y, 3, 3))
  {
    if y <= 275759 {
      YearsInTimeRange(Date(y, 3, 3));
    } else {
      FarYearsOutOfTimeRange(Date(y, 3, 3));
    }
  }

  lemma ThirtyFirstOfFebruary(ys: string)
    ensures "31/02/" + ys == "31" + "/" + "02" + "/" + ys
    ensures Decimal.AllDigits("31") && Decimal.DigitsValue("31") == 31
    ensures Decimal.AllDigits("02") && Decimal.DigitsValue("02") == 2
  {
    assert "31"[..1] == "3" && "02"[..1] == "0";
    assert "3"[..0] == "" && "0"[..0] == "";
    assert Decimal.DigitsValue("3") == 3;
    assert Decimal.DigitsValue("0") == 0;
  }

  lemma RollOver(y: int)
    requires y >= 100 && !IsLeapYear(y)
    ensures JsDate(y, 1, 31) == Date(y, 3, 3)
  {
    assert JsFullYear(y) == y && 1 / 12 == 0 && 1 % 12 == 1;
    var feb := Date(y, 2, 1);
    var mar := Date(y, 3, 3);
    assert DaysBeforeMonth(y, 2) == 31 && DaysBeforeMonth(y, 3) == 59;
    var r := JsDate(y, 1, 31);
    assert DayNumber(r) == DayNumber(feb) + 30;
    assert DayNumber(mar) == DayNumber(feb) + 30;
    DayNumberInjective(r, mar);
  }

  /** `getDayOfWeekName`: the Sunday-first table indexed by `getDay()`. */
  function DayName(d: Date): (r: string)
    requires 1 <= d.month <= 12
    ensures r in DAY_NAMES
  {
    DAY_NAMES[Weekday(d)]
  }

  /** `getDayOfWeekShortName`: the abbreviation of the same weekday. */
  function DayShortName(d: Date): (r: string)
    requires 1 <= d.month <= 12
    ensures r in DAY_SHORT_NAMES
  {
    DAY_SHORT_NAMES[Weekday(d)]
  }

  /** The short name is the first three letters of the full name, and the
      name repeats every seven days. */
  lemma DayNamesAgree(d: Date)
    requires 1 <= d.month <= 12
    ensures |DayName(d)| >= 3 && DayShortName(d) == DayName(d)[..3]
    ensures DayName(AddDays(d, 7)) == DayName(d)
  {
    TablesAgree();
    AddDaysWeekday(d, 7);
    var w := Weekday(d);
    assert (w + 7) % 7 == w;
  }

  lemma TablesAgree()
    ensures forall i :: 0 <= i < 7 ==> |DAY_NAMES[i]| >= 3 && DAY_SHORT_NAMES[i] == DAY_NAMES[i][..3]
  {
    assert DAY_NAMES[0][..3] == "Dom";
    assert DAY_NAMES[1][..3] == "Seg";
    assert DAY_NAMES[2][..3] == "Ter";
    assert DAY_NAMES[3][..3] == "Qua";
    assert DAY_NAMES[4][..3] == "Qui";
    assert DAY_NAMES[5][..3] == "Sex";
    assert DAY_NAMES[6][..3] == "Sáb";
  }

  /** Both tables start on Sunday: 5 January 2025, a Sunday, is "Domingo". */
  lemma TablesStartOnSunday()
    ensures DayName(Date(2025, 1, 5)) == "Domingo"
    ensures DayShortName(Date(2025, 1, 5)) == "Dom"
  {
    assert DaysBeforeYear(2025) == 739251;
    assert DayNumber(Date(2025, 1, 5)) == 739255;
  }
}
