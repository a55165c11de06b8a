/** The price-analysis page of the older front end: one row per quote,
    newest first, with the dollar, the metal's price, the price per ton and
    the averages of the quote's Sunday-to-Saturday week and calendar month.

    A quote's cell is what the page receives for it: the placeholder `'-'`,
    `null`, a number (a numeric string counts as its value), or something
    `isNaN` rejects. Dates are calendar days; the `pt-BR` number and date
    formatting is left to `Intl`. */
module Analysis {
  import opened Wrappers
  import opened Gregorian
  import Dashboard
  import DateUtils

  type Day = Dashboard.Day

  datatype Cell = Dash | Null | Num(x: real) | NotANumber

  /** What `formatNumber` and `formatDollarNumber` show: the dash, or the
      number with a fixed count of decimal places. */
  datatype Shown = DashText | Fixed(value: real, places: nat)

  const DAYS: seq<string> := ["DOM", "SEG", "TER", "QUA", "QUI", "SEX", "SAB"]

  // ---------------------------------------------------------------------
  // Formatting and arithmetic on cells

  /** The dash for `'-'`, `null` and anything not a number; otherwise the
      number with `places` decimals. */
  function FormatPlaces(c: Cell, places: nat): (r: Shown)
    ensures r.DashText? <==> !c.Num?
    ensures r.Fixed? ==> r.value == c.x && r.places == places
  {
    if c.Dash? || c.Null? || c.NotANumber? then DashText else Fixed(c.x, places)
  }

  /** `formatNumber`: two decimals. */
  function FormatNumber(c: Cell): (r: Shown)
    ensures r.Fixed? ==> r.places == 2
  {
    FormatPlaces(c, 2)
  }

  /** `formatDollarNumber`: four decimals. */
  function FormatDollarNumber(c: Cell): (r: Shown)
    ensures r.Fixed? ==> r.places == 4
  {
    FormatPlaces(c, 4)
  }

  /** `Number(c)`: `null` is 0, the dash and non-numbers are NaN (`None`). */
  function NumberOf(c: Cell): (r: Option<real>)
    ensures r.Some? <==> c.Num? || c.Null?
  {
    match c
    case Num(x) => Some(x)
    case Null => Some(0.0)
    case _ => None
  }

  /** The numbers `calculateAverage` keeps: not `'-'`, not NaN, not `null`. */
  function Numbers(cs: seq<Cell>): (r: seq<real>)
    ensures |r| <= |cs|
    ensures forall x :: x in r <==> Num(x) in cs
  {
    if cs == [] then []
    else
      var rest := Numbers(cs[1..]);
      assert forall c :: c in cs <==> c == cs[0] || c in cs[1..];
      if cs[0].Num? then [cs[0].x] + rest else rest
  }

  lemma {:induction false} NumbersAppend(a: seq<Cell>, b: seq<Cell>)
    ensures Numbers(a + b) == Numbers(a) + Numbers(b)
  {
    if a != [] {
      assert (a + b)[0] == a[0];
      assert (a + b)[1..] == a[1..] + b;
      NumbersAppend(a[1..], b);
      if a[0].Num? {
        assert Numbers(a + b) == [a[0].x] + (Numbers(a[1..]) + Numbers(b));
        assert Numbers(a) == [a[0].x] + Numbers(a[1..]);
      } else {
        assert Numbers(a + b) == Numbers(a[1..] + b);
        assert Numbers(a) == Numbers(a[1..]);
      }
    } else {
      assert a + b == b;
    }
  }

  /** `calculateAverage`: the dash when no number is left, else the mean of
      the numbers. */
  function CalculateAverage(cs: seq<Cell>): (r: Cell)
    ensures r.Dash? || r.Num?
    ensures r.Dash? <==> forall c :: c in cs ==> !c.Num?
  {
    var xs := Numbers(cs);
    if xs == [] then
      assert forall c :: c in cs ==> !c.Num?;
      Dash
    else
      assert xs[0] in xs;
      Num(Dashboard.Mean(xs))
  }

  /** The average lies between any bounds of the numbers. */
  lemma AverageBetween(cs: seq<Cell>, lo: real, hi: real)
    requires forall x :: Num(x) in cs ==> lo <= x <= hi
    ensures CalculateAverage(cs).Num? ==> lo <= CalculateAverage(cs).x <= hi
  {
    if Numbers(cs) != [] {
      Dashboard.MeanBetween(Numbers(cs), lo, hi);
    }
  }

  /** Appending a dash, a `null` or a non-number leaves the average alone. */
  lemma AverageIgnoresNonNumbers(cs: seq<Cell>, c: Cell)
    requires !c.Num?
    ensures CalculateAverage(cs + [c]) == CalculateAverage(cs)
  {
    NumbersAppend(cs, [c]);
    assert [c][1..] == [];
    assert Numbers([c]) == [];
    assert cs + [c] != [];
    assert Numbers(cs + [c]) == Numbers(cs);
  }

  /** `calculatePrecoTon`: the dash when either side is the dash, else the
      product of the two as numbers (NaN when either is not one). */
  function CalculatePrecoTon(lme: Cell, dolar: Cell): (r: Cell)
    ensures r.Dash? <==> lme.Dash? || dolar.Dash?
    ensures r.Num? <==> NumberOf(lme).Some? && NumberOf(dolar).Some?
    ensures r.Num? ==> r.x == NumberOf(lme).value * NumberOf(dolar).value
  {
    if lme.Dash? || dolar.Dash? then Dash
    else match (NumberOf(lme), NumberOf(dolar))
      case (Some(a), Some(b)) => Num(a * b)
      case _ => NotANumber
  }

  // ---------------------------------------------------------------------
  // Days

  /** `getDayOfWeek`: the Sunday-first abbreviation of the weekday. */
  function GetDayOfWeek(d: Day): (r: string)
    ensures r in DAYS
  {
    DAYS[Weekday(d)]
  }

  /** `getWeekOfMonth`: `ceil((day + weekday of the 1st) / 7)`. */
  function GetWeekOfMonth(d: Day): (w: int)
    ensures 1 <= w <= 6
  {
    (d.day + Weekday(DateUtils.FirstDayOfMonth(d)) + 6) / 7
  }

  /** The 1st of a month is in week 1 of it. */
  lemma FirstOfMonthIsWeekOne(d: Day)
    requires d.day == 1
    ensures GetWeekOfMonth(d) == 1
  {
  }

  /** Within a month the week number goes up by one exactly on Sundays:
      the next day of the same month is in the next week iff it is a
      Sunday. */
  lemma WeekOfMonthTurnsOnSunday(d: Day, e: Day)
    requires d.year < 0 || d.year > 99
    requires e.year == d.year && e.month == d.month && e.day == d.day + 1
    ensures GetWeekOfMonth(e) == GetWeekOfMonth(d) + (if Weekday(e) == 0 then 1 else 0)
  {
    var f := DateUtils.FirstDayOfMonth(d);
    assert DateUtils.FirstDayOfMonth(e) == f;
    DateUtils.MonthBounds(e);
    DateUtils.ModSeven(DayNumber(f) + 1, e.day - 1);
    CeilStep(d.day + Weekday(f));
  }

  lemma CeilStep(k: int)
    requires k >= 0
    ensures (k + 1 + 6) / 7 == (k + 6) / 7 + (if (k + 1 + 6) % 7 == 0 then 1 else 0)
  {
  }

  // ---------------------------------------------------------------------
  // Period windows

  /** The Sunday on or before the day (`setDate(getDate() - getDay())`). */
  function WeekStart(d: Day): (s: Day)
    ensures Weekday(s) == 0
    ensures 0 <= DayNumber(d) - DayNumber(s) <= 6
  {
    DateUtils.AddDaysWeekday(d, -Weekday(d));
    AddDays(d, -Weekday(d))
  }

  /** Six days after the week's Sunday. */
  function WeekEnd(d: Day): (e: Day)
    ensures DayNumber(e) == DayNumber(WeekStart(d)) + 6
  {
    AddDays(WeekStart(d), 6)
  }

  /** The weekly filter: from the Sunday to the Saturday, both included. */
  predicate InWeekOf(x: Day, d: Day) {
    DayNumber(WeekStart(d)) <= DayNumber(x) <= DayNumber(WeekEnd(d))
  }

  /** The monthly filter: from `new Date(y, m, 1)` to `new Date(y, m + 1, 0)`. */
  predicate InMonthOf(x: Day, d: Day) {
    DayNumber(DateUtils.FirstDayOfMonth(d)) <= DayNumber(x) <= DayNumber(DateUtils.LastDayOfMonth(d))
  }

  /** The weekly window of a day holds exactly the days with the same
      Sunday, so it is the same window for every day in it. */
  lemma WeekWindowIsSundayWeek(x: Day, d: Day)
    ensures InWeekOf(x, d) <==> WeekStart(x) == WeekStart(d)
  {
    var s := WeekStart(d);
    if InWeekOf(x, d) {
      SundayWithinSix(x, s);
    }
  }

  /** A day up to six days after a Sunday has that Sunday as its own. */
  lemma SundayWithinSix(x: Day, s: Day)
    requires Weekday(s) == 0 && 0 <= DayNumber(x) - DayNumber(s) <= 6
    ensures WeekStart(x) == s
  {
    var k := DayNumber(x) - DayNumber(s);
    WeekdayAfterSunday(DayNumber(s), k);
    assert Weekday(x) == k;
    var w := WeekStart(x);
    assert DayNumber(w) == DayNumber(s);
    DayNumberInjective(w, s);
  }

  /** Outside the years 0 to 99 (which `new Date` reads as 1900 to 1999),
      the monthly window of a day is its calendar month. */
  lemma MonthWindowIsCalendarMonth(x: Day, d: Day)
    requires d.year < 0 || d.year > 99
    ensures InMonthOf(x, d) <==> x.year == d.year && x.month == d.month
  {
    var f, l := DateUtils.FirstDayOfMonth(d), DateUtils.LastDayOfMonth(d);
    DayNumberOrder(x, f);
    DayNumberOrder(l, x);
  }

  lemma WeekdayAfterSunday(n: int, k: int)
    requires (n + 1) % 7 == 0 && 0 <= k <= 6
    ensures (n + k + 1) % 7 == k
  {
    DateUtils.ModSeven(n + 1, k);
  }

  // ---------------------------------------------------------------------
  // Period averages

  /** A quote: its day, the dollar, and the metals' prices by key. */
  datatype Item = Item(date: Day, dolar: Cell, prices: map<string, Cell>)

  /** `item[metal]`: a missing key reads as `undefined`, which `isNaN`
      rejects. */
  function MetalCell(item: Item, metal: string): Cell {
    if metal in item.prices then item.prices[metal] else NotANumber
  }

  datatype Averages = Averages(dolar: Shown, lme: Shown, precoTon: Shown)

  datatype Period = Period(weekly: Averages, monthly: Averages)

  /** The items whose day lies in a window, in order. */
  function Window(data: seq<Item>, lo: int, hi: int): (r: seq<Item>)
    ensures forall x :: x in r <==> x in data && lo <= DayNumber(x.date) <= hi
  {
    if data == [] then []
    else
      var rest := Window(data[1..], lo, hi);
      assert forall x :: x in data <==> x == data[0] || x in data[1..];
      if lo <= DayNumber(data[0].date) <= hi then [data[0]] + rest else rest
  }

  function Dollars(items: seq<Item>): (r: seq<Cell>)
    ensures |r| == |items| && forall i :: 0 <= i < |items| ==> r[i] == items[i].dolar
  {
    seq(|items|, i requires 0 <= i < |items| => items[i].dolar)
  }

  function MetalCells(items: seq<Item>, metal: string): (r: seq<Cell>)
    ensures |r| == |items| && forall i :: 0 <= i < |items| ==> r[i] == MetalCell(items[i], metal)
  {
    seq(|items|, i requires 0 <= i < |items| => MetalCell(items[i], metal))
  }

  function PrecoTons(items: seq<Item>, metal: string): (r: seq<Cell>)
    ensures |r| == |items|
    ensures forall i :: 0 <= i < |items| ==> r[i] == CalculatePrecoTon(MetalCell(items[i], metal), items[i].dolar)
  {
    seq(|items|, i requires 0 <= i < |items| => CalculatePrecoTon(MetalCell(items[i], metal), items[i].dolar))
  }

  /** The three averages of a window, formatted. */
  function AveragesOf(items: seq<Item>, metal: string): (r: Averages)
    ensures r.dolar.DashText? <==> forall i :: 0 <= i < |items| ==> !items[i].dolar.Num?
    ensures r.lme.DashText? <==> forall i :: 0 <= i < |items| ==> !MetalCell(items[i], metal).Num?
  {
    var dolar := Dollars(items);
    var lme := MetalCells(items, metal);
    assert forall c :: c in dolar <==> exists i :: 0 <= i < |items| && c == items[i].dolar;
    assert forall c :: c in lme <==> exists i :: 0 <= i < |items| && c == MetalCell(items[i], metal);
    Averages(FormatDollarNumber(CalculateAverage(dolar)), FormatNumber(CalculateAverage(lme)),
      FormatNumber(CalculateAverage(PrecoTons(items, metal))))
  }

  function WeeklyItems(data: seq<Item>, d: Day): seq<Item> {
    Window(data, DayNumber(WeekStart(d)), DayNumber(WeekEnd(d)))
  }

  function MonthlyItems(data: seq<Item>, d: Day): seq<Item> {
    Window(data, DayNumber(DateUtils.FirstDayOfMonth(d)), DayNumber(DateUtils.LastDayOfMonth(d)))
  }

  /** `calculatePeriodAverages`: the averages of the week's and the month's
      quotes. */
  function CalculatePeriodAverages(data: seq<Item>, d: Day, metal: string): (r: Period)
    ensures r.weekly == AveragesOf(WeeklyItems(data, d), metal)
    ensures r.monthly == AveragesOf(MonthlyItems(data, d), metal)
  {
    Period(AveragesOf(WeeklyItems(data, d), metal), AveragesOf(MonthlyItems(data, d), metal))
  }

  /** The weekly quotes are those sharing the day's Sunday; the monthly
      ones, those of its calendar month. */
  lemma PeriodItems(data: seq<Item>, d: Day)
    requires d.year < 0 || d.year > 99
    ensures forall x :: x in WeeklyItems(data, d) <==> x in data && WeekStart(x.date) == WeekStart(d)
    ensures forall x :: x in MonthlyItems(data, d) <==> x in data && x.date.year == d.year && x.date.month == d.month
  {
    forall x | x in data
      ensures InWeekOf(x.date, d) <==> WeekStart(x.date) == WeekStart(d)
      ensures InMonthOf(x.date, d) <==> x.date.year == d.year && x.date.month == d.month
    {
      WeekWindowIsSundayWeek(x.date, d);
      MonthWindowIsCalendarMonth(x.date, d);
    }
  }

  /** Every day of a week shows the same weekly averages, and every day of
      a month the same monthly ones. */
  lemma PeriodAveragesShared(data: seq<Item>, d: Day, e: Day, metal: string)
    ensures InWeekOf(e, d) ==> CalculatePeriodAverages(data, e, metal).weekly == CalculatePeriodAverages(data, d, metal).weekly
    ensures e.year == d.year && e.month == d.month ==>
      CalculatePeriodAverages(data, e, metal).monthly == CalculatePeriodAverages(data, d, metal).monthly
  {
    WeekWindowIsSundayWeek(e, d);
  }

  // ---------------------------------------------------------------------
  // The table

  predicate NewestFirst(s: seq<Item>) {
    forall i, j :: 0 <= i < j < |s| ==> Key(s[j]) <= Key(s[i])
  }

  function Key(x: Item): int {
    DayNumber(x.date)
  }

  /** Places an item after every item at least as new. */
  function Insert(x: Item, s: seq<Item>): (r: seq<Item>)
    requires NewestFirst(s)
    ensures NewestFirst(r)
    ensures multiset(r) == multiset(s) + multiset{x}
  {
    if s == [] then [x]
    else if Key(x) > Key(s[0]) then
      PrependNewest(x, s);
      [x] + s
    else
      var rest := Insert(x, s[1..]);
      assert s == [s[0]] + s[1..];
      BoundedAfterInsert(rest, s[1..], x, Key(s[0]));
      PrependNewest(s[0], rest);
      [s[0]] + rest
  }

  lemma PrependNewest(x: Item, s: seq<Item>)
    requires NewestFirst(s) && (s != [] ==> Key(s[0]) <= Key(x))
    ensures NewestFirst([x] + s)
  {
    var r := [x] + s;
    forall i, j | 0 <= i < j < |r| ensures Key(r[j]) <= Key(r[i]) {
      if i == 0 {
        assert r[j] == s[j - 1];
        assert Key(s[j - 1]) <= Key(s[0]);
      } else {
        assert r[i] == s[i - 1] && r[j] == s[j - 1];
      }
    }
  }

  lemma BoundedAfterInsert(r: seq<Item>, t: seq<Item>, x: Item, k: int)
    requires multiset(r) == multiset(t) + multiset{x}
    requires NewestFirst(t) && (t != [] ==> Key(t[0]) <= k) && Key(x) <= k
    ensures r != [] && Key(r[0]) <= k
  {
    assert r[0] in multiset(r);
    if r[0] != x {
      assert r[0] in multiset(t);
      var j :| 0 <= j < |t| && t[j] == r[0];
      assert j == 0 || Key(t[j]) <= Key(t[0]);
    }
  }

  /** `[...data].sort((a, b) => new Date(b.data) - new Date(a.data))`: a
      stable sort, newest first. */
  function SortNewestFirst(data: seq<Item>): (r: seq<Item>)
    ensures NewestFirst(r)
    ensures multiset(r) == multiset(data)
  {
    if data == [] then []
    else
      var n := |data| - 1;
      assert data == data[..n] + [data[n]];
      Insert(data[n], SortNewestFirst(data[..n]))
  }

  /** One table row: the day, its weekday, the dollar, the metal, the
      price per ton, and the period averages. */
  datatype Row = Row(date: Day, weekday: string, dolar: Shown, lme: Shown, precoTon: Shown, averages: Period)

  function RowOf(data: seq<Item>, item: Item, metal: string): Row {
    var lme := MetalCell(item, metal);
    Row(item.date, GetDayOfWeek(item.date), FormatDollarNumber(item.dolar), FormatNumber(lme),
      FormatNumber(CalculatePrecoTon(lme, item.dolar)), CalculatePeriodAverages(data, item.date, metal))
  }

  function Rows(data: seq<Item>, s: seq<Item>, metal: string): (rows: seq<Row>)
    ensures |rows| == |s| && forall i :: 0 <= i < |s| ==> rows[i] == RowOf(data, s[i], metal)
  {
    seq(|s|, i requires 0 <= i < |s| => RowOf(data, s[i], metal))
  }

  /** `updateDataTable`: nothing without the table body; otherwise one row
      per quote, newest first, each with the averages over all quotes. */
  function UpdateDataTable(bodyPresent: bool, data: seq<Item>, metal: string): (r: Option<seq<Row>>)
    ensures r.Some? <==> bodyPresent
  {
    if !bodyPresent then None
    else Some(Rows(data, SortNewestFirst(data), metal))
  }

  /** The table has one row per quote, each row describing a quote, and
      the rows run from the newest day to the oldest. */
  lemma TableRowsAreQuotes(data: seq<Item>, metal: string)
    ensures var rows := UpdateDataTable(true, data, metal).value;
      |rows| == |data|
      && (forall i, j :: 0 <= i < j < |rows| ==> DayNumber(rows[j].date) <= DayNumber(rows[i].date))
      && (forall k :: 0 <= k < |data| ==> RowOf(data, data[k], metal) in rows)
      && (forall row :: row in rows ==> exists k :: 0 <= k < |data| && row == RowOf(data, data[k], metal))
  {
    var s := SortNewestFirst(data);
    RowsOfPermutation(data, s, metal);
    RowsOrdered(data, s, metal);
  }

  lemma RowsOfPermutation(data: seq<Item>, s: seq<Item>, metal: string)
    requires multiset(s) == multiset(data)
    ensures var rows := Rows(data, s, metal);
      |rows| == |data|
      && (forall k :: 0 <= k < |data| ==> RowOf(data, data[k], metal) in rows)
      && (forall row :: row in rows ==> exists k :: 0 <= k < |data| && row == RowOf(data, data[k], metal))
  {
    assert |s| == |multiset(s)| == |data|;
    RowsCoverQuotes(data, s, metal);
    RowsDescribeQuotes(data, s, metal);
  }

  lemma RowsCoverQuotes(data: seq<Item>, s: seq<Item>, metal: string)
    requires multiset(s) == multiset(data)
    ensures forall k :: 0 <= k < |data| ==> RowOf(data, data[k], metal) in Rows(data, s, metal)
  {
    var rows := Rows(data, s, metal);
    forall k | 0 <= k < |data| ensures RowOf(data, data[k], metal) in rows {
      assert data[k] in multiset(s);
      var i :| 0 <= i < |s| && s[i] == data[k];
      assert rows[i] == RowOf(data, data[k], metal);
    }
  }

  lemma RowsDescribeQuotes(data: seq<Item>, s: seq<Item>, metal: string)
    requires multiset(s) == multiset(data)
    ensures forall row :: row in Rows(data, s, metal) ==> exists k :: 0 <= k < |data| && row == RowOf(data, data[k], metal)
  {
    var rows := Rows(data, s, metal);
    forall row | row in rows ensures exists k :: 0 <= k < |data| && row == RowOf(data, data[k], metal) {
      var i :| 0 <= i < |rows| && rows[i] == row;
      assert s[i] in multiset(data);
      var k :| 0 <= k < |data| && data[k] == s[i];
    }
  }

  lemma RowsOrdered(data: seq<Item>, s: seq<Item>, metal: string)
    requires NewestFirst(s)
    ensures var rows := Rows(data, s, metal);
      forall i, j :: 0 <= i < j < |rows| ==> DayNumber(rows[j].date) <= DayNumber(rows[i].date)
  {
    var rows := Rows(data, s, metal);
    forall i, j | 0 <= i < j < |rows| ensures DayNumber(rows[j].date) <= DayNumber(rows[i].date) {
      assert Key(s[j]) <= Key(s[i]);
    }
  }
}
