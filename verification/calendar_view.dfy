/** The delivery calendar of the modular front end: a header of seven
    weekday names starting at the configured first day of the week, then a
    fixed grid of six weeks (42 days) that begins on that weekday on or
    before the 1st of the displayed month, with month navigation and date
    selection.

    "Today" is a parameter, and so is the way a delivery-date string is read
    into a day (`new Date(string)` depends on the browser and the time
    zone). Dates are civil days. */
module CalendarView {
  import opened Wrappers
  import opened Gregorian
  import DateUtils
  import MonthGrid
  import opened Records

  /** `config.dayNames`: the same Sunday-first abbreviations as the date
      helpers use. */
  const DAY_NAMES: seq<string> := DateUtils.DAY_SHORT_NAMES

  /** `config.weekendDays`: Sunday and Saturday. */
  predicate IsWeekendIndex(i: int) {
    i == 0 || i == 6
  }

  /** The configuration the module reads. `firstDayOfWeek` is 0 (Sunday) or
      1 (Monday) in the application; any weekday index works. */
  datatype Config = Config(firstDayOfWeek: nat, highlightToday: bool)

  predicate ValidConfig(c: Config) {
    c.firstDayOfWeek < 7
  }

  /** `state`: the date whose month is displayed, the selected date, and
      the products shown. */
  datatype State = State(currentDate: Date, selectedDate: Option<Date>, products: seq<Product>)

  predicate ValidState(s: State) {
    1 <= s.currentDate.month <= 12
  }

  datatype HeaderCell = HeaderCell(name: string, weekend: bool)

  /** The header row: cell `i` names weekday `(i + firstDayOfWeek) % 7`. */
  function Header(c: Config): (h: seq<HeaderCell>)
    requires ValidConfig(c)
    ensures |h| == 7
    ensures forall i :: 0 <= i < 7 ==>
      h[i] == HeaderCell(DAY_NAMES[(i + c.firstDayOfWeek) % 7], IsWeekendIndex((i + c.firstDayOfWeek) % 7))
  {
    seq(7, i requires 0 <= i < 7 =>
      HeaderCell(DAY_NAMES[(i + c.firstDayOfWeek) % 7], IsWeekendIndex((i + c.firstDayOfWeek) % 7)))
  }

  function HeaderNames(h: seq<HeaderCell>): (names: seq<string>)
    ensures |names| == |h| && forall i :: 0 <= i < |h| ==> names[i] == h[i].name
  {
    seq(|h|, i requires 0 <= i < |h| => h[i].name)
  }

  /** Whatever the first day of the week, the header shows every weekday
      name exactly once: it is the table rotated by `firstDayOfWeek`. */
  lemma HeaderIsPermutation(c: Config)
    requires ValidConfig(c)
    ensures HeaderNames(Header(c)) == DAY_NAMES[c.firstDayOfWeek..] + DAY_NAMES[..c.firstDayOfWeek]
    ensures multiset(HeaderNames(Header(c))) == multiset(DAY_NAMES)
  {
    var f := c.firstDayOfWeek;
    var names := HeaderNames(Header(c));
    var rotated := DAY_NAMES[f..] + DAY_NAMES[..f];
    forall i | 0 <= i < 7
      ensures names[i] == rotated[i]
    {
      if i < 7 - f {
        assert (i + f) % 7 == i + f;
      } else {
        assert (i + f) % 7 == i + f - 7;
      }
    }
    assert names == rotated;
    assert DAY_NAMES == DAY_NAMES[..f] + DAY_NAMES[f..];
  }

  /** A day cell of the grid and the classes it carries. */
  datatype DayCell = DayCell(
    date: Date,
    otherMonth: bool,
    today: bool,
    selected: bool,
    weekend: bool,
    loads: nat)

  /** `daysToSubtract`: how far the grid starts before the 1st. The operand
      of `%` is positive, so JavaScript's remainder agrees with Dafny's. */
  function Offset(first: Date, c: Config): (k: nat)
    requires 1 <= first.month <= 12 && ValidConfig(c)
    ensures k < 7
  {
    (Weekday(first) - c.firstDayOfWeek + 7) % 7
  }

  /** The first cell of the grid: `Offset` days before the 1st. */
  function GridStart(s: State, c: Config): (r: Date)
    requires ValidState(s) && ValidConfig(c)
    ensures Valid(r)
    ensures var first := DateUtils.FirstDayOfMonth(s.currentDate);
      DayNumber(r) == DayNumber(first) - Offset(first, c)
  {
    var first := DateUtils.FirstDayOfMonth(s.currentDate);
    var back: int := Offset(first, c);
    AddDays(first, -back)
  }

  /** The 42 day cells of `updateCalendar`, `null` when the grid or the
      month label is missing from the page. */
  function Grid(s: State, c: Config, today: Date, parse: string -> Option<Date>, present: bool)
    : (r: Option<seq<DayCell>>)
    requires ValidState(s) && ValidConfig(c)
    ensures r.Some? <==> present
    ensures r.Some? ==> |r.value| == 42
    ensures r.Some? ==> forall i :: 0 <= i < 42 ==>
      r.value[i].date == AddDays(GridStart(s, c), i)
      && (r.value[i].otherMonth <==> r.value[i].date.month != s.currentDate.month)
      && (r.value[i].selected <==> s.selectedDate == Some(r.value[i].date))
      && r.value[i].loads == |MonthGrid.ProductsOn(s.products, r.value[i].date, parse)|
  {
    if !present then None
    else
      var start := GridStart(s, c);
      Some(seq(42, i requires 0 <= i < 42 =>
        var d := AddDays(start, i);
        DayCell(
          d,
          d.month != s.currentDate.month,
          DateUtils.IsSameDay(d, today) && c.highlightToday,
          s.selectedDate.Some? && DateUtils.IsSameDay(d, s.selectedDate.value),
          IsWeekendIndex(Weekday(d)),
          |MonthGrid.ProductsOn(s.products, d, parse)|)))
  }

  /** Going back `k = (w - f + 7) % 7` days from weekday `w` lands on
      weekday `f`; `i` days on, the weekday is `(i + f) % 7`. */
  lemma OffsetArith(w: int, f: int, k: int, ws: int, i: int)
    requires 0 <= f < 7 && k == (w - f + 7) % 7 && ws == (w + -k) % 7
    ensures (ws + i) % 7 == (i + f) % 7
  {
    var q := (w - f + 7) / 7;
    assert w - f + 7 == 7 * q + k;
    assert w + -k == f + 7 * (q - 1);
    assert ws == f;
  }

  /** Cell `i` falls on weekday `(i + firstDayOfWeek) % 7`, the weekday its
      header column names. */
  lemma CellsUnderTheirHeader(s: State, c: Config, i: int)
    requires ValidState(s) && ValidConfig(c) && 0 <= i < 42
    ensures Weekday(AddDays(GridStart(s, c), i)) == (i + c.firstDayOfWeek) % 7
  {
    var first := DateUtils.FirstDayOfMonth(s.currentDate);
    var k: int := Offset(first, c);
    var start := GridStart(s, c);
    MonthGrid.WeekdayShift(first, start, -k);
    MonthGrid.WeekdayShift(start, AddDays(start, i), i);
    OffsetArith(Weekday(first), c.firstDayOfWeek, k, Weekday(start), i);
  }

  /** Day `day` of the displayed month is cell `offset + day - 1`, so the
      whole month is in the grid. */
  lemma MonthInGrid(s: State, c: Config, day: int)
    requires ValidState(s) && ValidConfig(c)
    requires var y := JsFullYear(s.currentDate.year); 1 <= day <= DaysInMonth(y, s.currentDate.month)
    ensures var first := DateUtils.FirstDayOfMonth(s.currentDate);
      var i := Offset(first, c) + day - 1;
      0 <= i < 42 && AddDays(GridStart(s, c), i) == Date(first.year, first.month, day)
  {
    var first := DateUtils.FirstDayOfMonth(s.currentDate);
    var i := Offset(first, c) + day - 1;
    var d := Date(first.year, first.month, day);
    assert DayNumber(d) == DayNumber(first) + day - 1;
    DayNumberInjective(AddDays(GridStart(s, c), i), d);
  }

  /** The day `t` days after the 1st of a month stays in the month exactly
      for `0 <= t < DaysInMonth`, as long as it is less than four weeks
      outside it. */
  lemma SameMonthIffInside(first: Date, t: int)
    requires 1 <= first.month <= 12 && first.day == 1
    requires -28 <= t < DaysInMonth(first.year, first.month) + 28
    ensures AddDays(first, t).month == first.month <==> 0 <= t < DaysInMonth(first.year, first.month)
  {
    var y, m := first.year, first.month;
    var dim := DaysInMonth(y, m);
    var r := AddDays(first, t);
    if 0 <= t < dim {
      DayNumberInjective(r, Date(y, m, t + 1));
    } else if t < 0 {
      var p := PrevDay(first);
      PrevDayNumber(first);
      var q := Date(p.year, p.month, p.day + t + 1);
      assert DayNumber(q) == DayNumber(p) + t + 1;
      DayNumberInjective(r, q);
    } else {
      var last := Date(y, m, dim);
      var n := NextDay(last);
      NextDayNumber(last);
      var q := Date(n.year, n.month, t - dim + 1);
      assert DayNumber(q) == DayNumber(n) + t - dim;
      DayNumberInjective(r, q);
    }
  }

  /** Cell `i` is `i - Offset` days after the 1st. */
  lemma CellFromFirst(s: State, c: Config, i: int)
    requires ValidState(s) && ValidConfig(c)
    ensures var first := DateUtils.FirstDayOfMonth(s.currentDate);
      AddDays(GridStart(s, c), i) == AddDays(first, i - Offset(first, c))
  {
    var first := DateUtils.FirstDayOfMonth(s.currentDate);
    DayNumberInjective(AddDays(GridStart(s, c), i), AddDays(first, i - Offset(first, c)));
  }

  /** A cell is marked other-month exactly when it lies before the 1st or
      after the last day of the displayed month. */
  lemma OtherMonthIffOutside(s: State, c: Config, i: int)
    requires ValidState(s) && ValidConfig(c) && 0 <= i < 42
    ensures var first := DateUtils.FirstDayOfMonth(s.currentDate);
      var k := Offset(first, c);
      (AddDays(GridStart(s, c), i).month != s.currentDate.month) <==>
        !(k <= i < k + DaysInMonth(first.year, first.month))
  {
    var first := DateUtils.FirstDayOfMonth(s.currentDate);
    CellFromFirst(s, c, i);
    SameMonthIffInside(first, i - Offset(first, c));
  }

  /** The "previous month" button: the 1st of the month before. */
  function PrevMonth(s: State): (r: State)
    requires ValidState(s)
    ensures ValidState(r) && r.currentDate.day == 1
    ensures r.currentDate.year * 12 + r.currentDate.month
      == JsFullYear(s.currentDate.year) * 12 + s.currentDate.month - 1
    ensures r.selectedDate == s.selectedDate && r.products == s.products
  {
    s.(currentDate := JsFirstOfMonth(s.currentDate.year, s.currentDate.month - 2))
  }

  /** The "next month" button: the 1st of the month after. */
  function NextMonth(s: State): (r: State)
    requires ValidState(s)
    ensures ValidState(r) && r.currentDate.day == 1
    ensures r.currentDate.year * 12 + r.currentDate.month
      == JsFullYear(s.currentDate.year) * 12 + s.currentDate.month + 1
    ensures r.selectedDate == s.selectedDate && r.products == s.products
  {
    s.(currentDate := JsFirstOfMonth(s.currentDate.year, s.currentDate.month))
  }

  /** The "previous month" button builds `new Date(year, month - 1, 1)`. */
  lemma PrevMonthIsNewDate(s: State)
    requires ValidState(s)
    ensures PrevMonth(s).currentDate == JsDate(s.currentDate.year, s.currentDate.month - 2, 1)
  {
    JsDateFirst(s.currentDate.year, s.currentDate.month - 2);
  }

  /** The "next month" button builds `new Date(year, month + 1, 1)`. */
  lemma NextMonthIsNewDate(s: State)
    requires ValidState(s)
    ensures NextMonth(s).currentDate == JsDate(s.currentDate.year, s.currentDate.month, 1)
  {
    JsDateFirst(s.currentDate.year, s.currentDate.month);
  }

  /** From the year 100 on, the 1st of month index `m - 1 + delta` is the
      month step of the corrected navigation. */
  lemma JsMonthStep(d: Date, monthIndex: int, delta: int)
    requires 1 <= d.month <= 12 && d.year >= 100 && monthIndex == d.month - 1 + delta
    ensures JsFirstOfMonth(d.year, monthIndex) == MonthGrid.MonthStep(d, delta)
  {
    assert JsFullYear(d.year) == d.year;
  }

  /** The buttons move to day 1 of the neighbouring month, as the corrected
      navigation does; the two-digit year mapping of `new Date` makes the
      statement hold from the year 100 on. */
  lemma NavigationIsMonthStep(s: State)
    requires ValidState(s) && s.currentDate.year >= 100
    ensures PrevMonth(s).currentDate == MonthGrid.MonthStep(s.currentDate, -1)
    ensures NextMonth(s).currentDate == MonthGrid.MonthStep(s.currentDate, 1)
  {
    JsMonthStep(s.currentDate, s.currentDate.month - 2, -1);
    JsMonthStep(s.currentDate, s.currentDate.month, 1);
  }

  /** "Next" after "previous", or the reverse, shows the month again (from
      the year 101 on, so that the neighbouring month is past the year 100). */
  lemma NavigationRoundTrip(s: State)
    requires ValidState(s) && s.currentDate.year >= 101
    ensures NextMonth(PrevMonth(s)).currentDate == Date(s.currentDate.year, s.currentDate.month, 1)
    ensures PrevMonth(NextMonth(s)).currentDate == Date(s.currentDate.year, s.currentDate.month, 1)
  {
    var d := s.currentDate;
    NavigationIsMonthStep(s);
    var p := PrevMonth(s);
    var n := NextMonth(s);
    NavigationIsMonthStep(p);
    NavigationIsMonthStep(n);
    MonthGrid.MonthStepNeverSkips(d);
  }

  /** `selectDate`: select the date and display its month. */
  function SelectDate(s: State, date: Date): (r: State)
    requires 1 <= date.month <= 12
    ensures ValidState(r) && r.selectedDate == Some(date) && r.products == s.products
    ensures r.currentDate.month == date.month && r.currentDate.day == 1
  {
    s.(selectedDate := Some(date), currentDate := DateUtils.FirstDayOfMonth(date))
  }

  /** `selectDate` displays `new Date(getFullYear(), getMonth(), 1)`. */
  lemma SelectDateIsNewDate(s: State, date: Date)
    requires 1 <= date.month <= 12
    ensures SelectDate(s, date).currentDate == JsDate(date.year, date.month - 1, 1)
  {
    DateUtils.FirstDayOfMonthIsNewDate(date);
  }

  /** After `selectDate` (year from 100 on) the grid shows the date as a
      selected cell of the displayed month. */
  lemma SelectedDateShown(s: State, c: Config, date: Date, today: Date, parse: string -> Option<Date>)
    requires ValidConfig(c) && Valid(date) && date.year >= 100
    ensures var s2 := SelectDate(s, date);
      var cells := Grid(s2, c, today, parse, true).value;
      exists i :: 0 <= i < 42 && cells[i].date == date && cells[i].selected && !cells[i].otherMonth
  {
    var s2 := SelectDate(s, date);
    var first := DateUtils.FirstDayOfMonth(s2.currentDate);
    assert first == Date(date.year, date.month, 1);
    MonthInGrid(s2, c, date.day);
    var i := Offset(first, c) + date.day - 1;
    var cells := Grid(s2, c, today, parse, true).value;
    assert cells[i].date == date;
  }

  /** `updateProducts`: the product list is replaced by a copy. */
  function UpdateProducts(s: State, products: seq<Product>): (r: State)
    ensures r.products == products && r.currentDate == s.currentDate && r.selectedDate == s.selectedDate
  {
    s.(products := products)
  }
}
