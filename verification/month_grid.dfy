/** The month calendar of the purchase-request pages, as the three
    monolithic page scripts and the purchase-request calendar module draw
    it: numbered week rows, `startingDay` empty cells before day 1, and a
    new row whenever the next day falls on a Sunday. A day cell shows the
    number of loads delivered that day, and a selected day lists them with
    their total weight.

    Dates are civil days (`Gregorian.Date`). How a delivery-date string is
    read into a day is a parameter, since `new Date(string)` depends on the
    browser and on the time zone. */
module MonthGrid {
  import opened Wrappers
  import opened Gregorian
  import Decimal
  import DateUtils
  import opened Records

  datatype Cell = Empty | Day(day: nat)

  /** A `calendar-week` row: its week number and its cells. */
  datatype Week = Week(number: nat, cells: seq<Cell>)

  /** Position `k` of a month laid out from weekday `startingDay`, counting
      across the rows: the empty cells come first, then the days in order. */
  function CellAt(startingDay: nat, k: nat): Cell {
    if k < startingDay then Empty else Day(k - startingDay + 1)
  }

  /** The layout the grid is meant to have: weeks numbered from 1, every
      row but the last holding seven cells, the last holding the rest, and
      cell `c` of row `w` being position `7 * w + c`. */
  predicate LaidOut(weeks: seq<Week>, startingDay: nat, totalDays: nat) {
    && |weeks| >= 1
    && (forall w :: 0 <= w < |weeks| ==> weeks[w].number == w + 1)
    && (forall w :: 0 <= w < |weeks| - 1 ==> |weeks[w].cells| == 7)
    && |weeks[|weeks| - 1].cells| <= 7
    && (startingDay + totalDays > 0 ==> |weeks[|weeks| - 1].cells| >= 1)
    && 7 * (|weeks| - 1) + |weeks[|weeks| - 1].cells| == startingDay + totalDays
    && (forall w, c :: 0 <= w < |weeks| && 0 <= c < |weeks[w].cells| ==>
          weeks[w].cells[c] == CellAt(startingDay, 7 * w + c))
  }

  /** `createCalendarGrid` and the grid loops of the page scripts: empty
      cells for the weekdays before the 1st, then each day, closing the row
      before day `dayCount` when `(dayCount + startingDay - 1) % 7 == 0` and
      `dayCount != 1`. */
  method CreateCalendarGrid(startingDay: nat, totalDays: nat) returns (weeks: seq<Week>)
    requires startingDay < 7
    ensures LaidOut(weeks, startingDay, totalDays)
  {
    var currentWeek: nat := 1;
    var dayCount: nat := 1;
    var week := Week(currentWeek, []);
    weeks := [];
    var i := 0;
    while i < startingDay
      invariant 0 <= i <= startingDay
      invariant week.number == 1 && |week.cells| == i
      invariant forall c :: 0 <= c < i ==> week.cells[c] == Empty
    {
      week := week.(cells := week.cells + [Empty]);
      i := i + 1;
    }
    while dayCount <= totalDays
      invariant 1 <= dayCount <= totalDays + 1
      invariant currentWeek == |weeks| + 1 && week.number == currentWeek
      invariant forall w :: 0 <= w < |weeks| ==> weeks[w].number == w + 1 && |weeks[w].cells| == 7
      invariant 7 * |weeks| + |week.cells| == startingDay + dayCount - 1
      invariant |week.cells| <= 7
      invariant |week.cells| == 0 ==> weeks == [] && dayCount == 1
      invariant forall w, c :: 0 <= w < |weeks| && 0 <= c < 7 ==>
        weeks[w].cells[c] == CellAt(startingDay, 7 * w + c)
      invariant forall c :: 0 <= c < |week.cells| ==> week.cells[c] == CellAt(startingDay, 7 * |weeks| + c)
    {
      if (dayCount + startingDay - 1) % 7 == 0 && dayCount != 1 {
        weeks := weeks + [week];
        currentWeek := currentWeek + 1;
        week := Week(currentWeek, []);
      }
      week := week.(cells := week.cells + [Day(dayCount)]);
      dayCount := dayCount + 1;
    }
    weeks := weeks + [week];
  }

  /** Every day of the month sits in exactly one cell, at position
      `startingDay + day - 1`, so the days run in order across the rows;
      the cells before it are empty. */
  lemma EachDayOnce(weeks: seq<Week>, startingDay: nat, totalDays: nat, day: nat)
    requires LaidOut(weeks, startingDay, totalDays)
    requires 1 <= day <= totalDays
    ensures var k := startingDay + day - 1;
      k / 7 < |weeks| && k % 7 < |weeks[k / 7].cells| && weeks[k / 7].cells[k % 7] == Day(day)
    ensures forall w, c :: 0 <= w < |weeks| && 0 <= c < |weeks[w].cells| && weeks[w].cells[c] == Day(day) ==>
      7 * w + c == startingDay + day - 1
    ensures forall w, c :: 0 <= w < |weeks| && 0 <= c < |weeks[w].cells| && 7 * w + c < startingDay ==>
      weeks[w].cells[c] == Empty
  {
    var k := startingDay + day - 1;
    var last := |weeks| - 1;
    if k / 7 < last {
    } else {
      assert k / 7 == last;
    }
  }

  /** A row other than the first starts with the day `dayCount` for which
      `(dayCount + startingDay - 1) % 7 == 0` and `dayCount != 1`. */
  lemma RowStartsAtSplit(weeks: seq<Week>, startingDay: nat, totalDays: nat, w: nat)
    requires startingDay < 7
    requires LaidOut(weeks, startingDay, totalDays)
    requires 1 <= w < |weeks|
    ensures |weeks[w].cells| >= 1
    ensures weeks[w].cells[0].Day?
    ensures var d := weeks[w].cells[0].day; (d + startingDay - 1) % 7 == 0 && d != 1
  {
    if w < |weeks| - 1 {
      assert |weeks[w].cells| == 7;
    }
    assert weeks[w].cells[0] == CellAt(startingDay, 7 * w);
  }

  /** The number of weeks a month occupies: five for a 31-day month that
      starts on a Thursday, six when it starts on a Friday. */
  lemma WeekCount(weeks: seq<Week>, startingDay: nat, totalDays: nat)
    requires LaidOut(weeks, startingDay, totalDays)
    requires startingDay + totalDays > 0
    ensures |weeks| == (startingDay + totalDays - 1) / 7 + 1
  {
  }

  /** The `startingDay` and `totalDays` of the page scripts:
      `new Date(year, month, 1).getDay()` and the day of
      `new Date(year, month + 1, 0)`. */
  function MonthShape(d: Date): (r: (nat, nat))
    requires 1 <= d.month <= 12
    ensures r.0 < 7 && 28 <= r.1 <= 31
  {
    (Weekday(DateUtils.FirstDayOfMonth(d)), DateUtils.LastDayOfMonth(d).day)
  }

  /** In a real month (year from 100 on), the column of day `day` is its
      weekday, so the grid's columns line up with the Sunday-first header,
      and `totalDays` is the length of the month. */
  lemma ColumnIsWeekday(y: int, m: int, day: int)
    requires y >= 100 && 1 <= m <= 12 && 1 <= day <= DaysInMonth(y, m)
    ensures MonthShape(Date(y, m, day)).1 == DaysInMonth(y, m)
    ensures (MonthShape(Date(y, m, day)).0 + day - 1) % 7 == Weekday(Date(y, m, day))
  {
    var d := Date(y, m, day);
    var first := Date(y, m, 1);
    assert JsFullYear(y) == y;
    var shape := MonthShape(d);
    assert shape.0 == Weekday(first);
    assert shape.1 == DaysInMonth(y, m);
    assert DayNumber(d) == DayNumber(first) + (day - 1);
    WeekdayShift(first, d, day - 1);
  }

  lemma WeekdayShift(a: Date, b: Date, k: int)
    requires 1 <= a.month <= 12 && 1 <= b.month <= 12
    requires DayNumber(b) == DayNumber(a) + k
    ensures Weekday(b) == (Weekday(a) + k) % 7
  {
    DateUtils.ModSeven(DayNumber(a) + 1, k);
  }

  /** The products delivered on `day`, in list order (`getProductsForDate`):
      those whose delivery date reads as that day. A date string that does
      not read as a date (`Invalid Date`) matches no day. */
  function ProductsOn(ps: seq<Product>, day: Date, parse: string -> Option<Date>): (r: seq<Product>)
    ensures forall x :: x in r <==> x in ps && parse(x.deliveryDate) == Some(day)
    ensures |r| <= |ps|
  {
    if ps == [] then []
    else
      var rest := ProductsOn(ps[1..], day, parse);
      if parse(ps[0].deliveryDate) == Some(day) then [ps[0]] + rest else rest
  }

  /** Filtering a concatenation filters each part. */
  lemma {:induction false} ProductsOnAppend(a: seq<Product>, b: seq<Product>, day: Date, parse: string -> Option<Date>)
    ensures ProductsOn(a + b, day, parse) == ProductsOn(a, day, parse) + ProductsOn(b, day, parse)
  {
    if a == [] {
      assert a + b == b;
    } else {
      var ab := a + b;
      assert ab[0] == a[0];
      assert ab[1..] == a[1..] + b;
      ProductsOnAppend(a[1..], b, day, parse);
      if parse(a[0].deliveryDate) == Some(day) {
        assert [a[0]] + (ProductsOn(a[1..], day, parse) + ProductsOn(b, day, parse))
          == ([a[0]] + ProductsOn(a[1..], day, parse)) + ProductsOn(b, day, parse);
      }
    }
  }

  /** The load count of a day cell: absent for no loads, 'N carga' for one
      and 'N cargas' for more. */
  function LoadLabel(n: nat): (r: Option<string>)
    ensures r.None? <==> n == 0
    ensures n == 1 ==> r == Some("1 carga")
  {
    assert Decimal.DigitChar(1) == '1' && Decimal.NatToString(1) == "1";
    if n == 0 then None
    else
      var s := Decimal.NatToString(n) + " carga" + (if n > 1 then "s" else "");
      assert "1" + " carga" + "" == "1 carga";
      assert n == 1 ==> s == "1 carga";
      Some(s)
  }

  /** The label starts with the count, which `parseInt` reads back, and
      ends in the plural exactly when there is more than one load. */
  lemma LoadLabelReadsBack(n: nat)
    requires n > 0
    ensures Decimal.ParseInt(LoadLabel(n).value) == Some(n)
    ensures var s := LoadLabel(n).value; (s[|s| - 1] == 's' <==> n > 1)
  {
    var suffix := " carga" + (if n > 1 then "s" else "");
    assert LoadLabel(n).value == Decimal.NatToString(n) + suffix;
    Decimal.ParseIntStopsAtNonDigit(Decimal.NatToString(n), suffix);
  }

  /** What `parseFloat(product.quantity)` gives for a quantity: the number
      itself, NaN, or what the reader makes of a string. */
  function QuantityValue(q: Quantity, parseFloat: string -> Option<int>): Option<int> {
    match q
    case Num(v) => Some(v)
    case NaN => None
    case Text(t) => parseFloat(t)
  }

  /** `totalKg`: the quantities added one by one; NaN (`None`) absorbs. */
  function TotalKg(ps: seq<Product>, parseFloat: string -> Option<int>): (r: Option<int>)
    ensures r.Some? <==> forall i :: 0 <= i < |ps| ==> QuantityValue(ps[i].quantity, parseFloat).Some?
  {
    if ps == [] then Some(0)
    else
      var prefix := TotalKg(ps[..|ps| - 1], parseFloat);
      var last := QuantityValue(ps[|ps| - 1].quantity, parseFloat);
      assert forall i :: 0 <= i < |ps| - 1 ==> ps[..|ps| - 1][i] == ps[i];
      if prefix.Some? && last.Some? then Some(prefix.value + last.value) else None
  }

  /** The day-details panel: a no-loads message, or one item per product
      and a day total. */
  datatype Details = NoLoads | Listed(items: seq<Product>, totalKg: Option<int>)

  /** `updateDayDetails` of the purchase-request calendar module. */
  function DayDetails(ps: seq<Product>, day: Date, parse: string -> Option<Date>,
                      parseFloat: string -> Option<int>): (r: Details)
    ensures r.NoLoads? <==> forall x :: x in ps ==> parse(x.deliveryDate) != Some(day)
    ensures r.Listed? ==> r.items == ProductsOn(ps, day, parse) && |r.items| >= 1
  {
    var items := ProductsOn(ps, day, parse);
    if |items| == 0 then NoLoads else Listed(items, TotalKg(items, parseFloat))
  }

  /** When every quantity on the day is a number, the day total is the sum
      the purchase request would record for the same products. */
  lemma {:induction false} TotalOfNumbers(ps: seq<Product>, parseFloat: string -> Option<int>)
    requires forall i :: 0 <= i < |ps| ==> ps[i].quantity.Num?
    ensures TotalKg(ps, parseFloat) == WeightSum(ps)
  {
    if ps != [] {
      TotalOfNumbers(ps[..|ps| - 1], parseFloat);
    }
  }

  /** Month navigation of the page script with a creation history:
      `currentDate.setMonth(currentDate.getMonth() + delta)`. `setMonth`
      keeps the day of the month, so a day the target month lacks rolls
      over into the month after it. */
  function SetMonthBy(d: Date, delta: int): (r: Date)
    requires Valid(d)
    ensures Valid(r)
    ensures DayNumber(r) ==
      DayNumber(Date(d.year + (d.month - 1 + delta) / 12, (d.month - 1 + delta) % 12 + 1, 1)) + d.day - 1
  {
    AddDays(Date(d.year + (d.month - 1 + delta) / 12, (d.month - 1 + delta) % 12 + 1, 1), d.day - 1)
  }

  /** As written, from 31 January "next" shows March, skipping February,
      and from 31 March "previous" stays on March. */
  lemma SetMonthSkips(y: int)
    ensures SetMonthBy(Date(y, 1, 31), 1).month == 3
    ensures SetMonthBy(Date(y, 3, 31), -1).month == 3
  {
    var feb := Date(y, 2, 1);
    var mar := Date(y, 3, 1);
    assert DaysBeforeMonth(y, 3) == DaysBeforeMonth(y, 2) + DaysInMonth(y, 2);
    var r1 := SetMonthBy(Date(y, 1, 31), 1);
    assert (0 + 1) / 12 == 0 && (0 + 1) % 12 + 1 == 2;
    assert DayNumber(r1) == DayNumber(feb) + 30;
    InMarch(y, r1);
    var r2 := SetMonthBy(Date(y, 3, 31), -1);
    assert (2 - 1) / 12 == 0 && (2 - 1) % 12 + 1 == 2;
    assert DayNumber(r2) == DayNumber(feb) + 30;
    InMarch(y, r2);
  }

  /** The day 30 days after 1 February is 2 or 3 March. */
  lemma InMarch(y: int, r: Date)
    requires Valid(r)
    requires DayNumber(r) == DayNumber(Date(y, 2, 1)) + 30
    ensures r.month == 3
  {
    var mar := Date(y, 3, if IsLeapYear(y) then 2 else 3);
    assert DaysBeforeMonth(y, 3) == DaysBeforeMonth(y, 2) + DaysInMonth(y, 2);
    assert DayNumber(mar) == DayNumber(r);
    DayNumberInjective(r, mar);
  }

  /** The first day of the month `delta` months away, as `calendar.js`
      builds it with `new Date(year, month + delta, 1)`: going to day 1
      first means no day can roll over. */
  function MonthStep(d: Date, delta: int): (r: Date)
    requires 1 <= d.month <= 12
    ensures Valid(r) && r.day == 1
    ensures r.year * 12 + r.month == d.year * 12 + d.month + delta
  {
    Date(d.year + (d.month - 1 + delta) / 12, (d.month - 1 + delta) % 12 + 1, 1)
  }

  /** Corrected navigation: "next" always shows the following month, and
      "previous" then "next" come back to the month shown. */
  lemma MonthStepNeverSkips(d: Date)
    requires 1 <= d.month <= 12
    ensures MonthStep(d, 1).month == d.month % 12 + 1
    ensures MonthStep(d, -1).month == (if d.month == 1 then 12 else d.month - 1)
    ensures MonthStep(MonthStep(d, -1), 1) == Date(d.year, d.month, 1)
    ensures MonthStep(MonthStep(d, 1), -1) == Date(d.year, d.month, 1)
  {
  }
}
