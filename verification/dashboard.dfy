/** The price dashboard: quotes of one metal grouped by ISO week and by
    calendar month, averaged, and compared in the daily, weekly and monthly
    variation cards.

    A quote is the calendar day the browser reads from its `data` field and
    the selected metal's price, absent when `null` or `undefined`. Prices are
    real numbers; the charts and the formatting are left out. */
module Dashboard {
  import opened Wrappers
  import opened Gregorian
  import Decimal
  import Text
  import DateUtils

  /** A real calendar day. */
  type Day = d: Date | Valid(d) witness Date(2000, 1, 1)

  datatype Price = Price(date: Day, value: Option<real>)

  // ---------------------------------------------------------------------
  // Averages

  /** The values that are neither `null` nor `undefined`. */
  function Present(values: seq<Option<real>>): (r: seq<real>)
    ensures |r| <= |values|
    ensures forall x :: x in r <==> Some(x) in values
  {
    if values == [] then []
    else
      var rest := Present(values[1..]);
      assert forall v :: v in values <==> v == values[0] || v in values[1..];
      if values[0].Some? then [values[0].value] + rest else rest
  }

  function Sum(xs: seq<real>): real {
    if xs == [] then 0.0 else xs[0] + Sum(xs[1..])
  }

  /** `calculateAverage`: 0 for an empty list and for one of absent values
      only; otherwise the mean of the present values. */
  function CalculateAverage(values: seq<Option<real>>): (r: real)
    ensures Present(values) == [] ==> r == 0.0
  {
    var valid := Present(values);
    if valid == [] then 0.0 else Mean(valid)
  }

  function Mean(xs: seq<real>): real
    requires xs != []
  {
    Sum(xs) / (|xs| as real)
  }

  lemma {:induction false} SumBetween(xs: seq<real>, lo: real, hi: real)
    requires forall x :: x in xs ==> lo <= x <= hi
    ensures (|xs| as real) * lo <= Sum(xs) <= (|xs| as real) * hi
  {
    if xs != [] {
      assert forall x :: x in xs[1..] ==> x in xs;
      SumBetween(xs[1..], lo, hi);
      assert xs[0] in xs;
      assert Sum(xs) == xs[0] + Sum(xs[1..]);
      AddBetween(xs[0], Sum(xs[1..]), |xs[1..]| as real, lo, hi);
      assert |xs| as real == |xs[1..]| as real + 1.0;
    }
  }

  /** One more value within the bounds moves both bounds of a sum by one
      step. */
  lemma AddBetween(x: real, s: real, m: real, lo: real, hi: real)
    requires lo <= x <= hi && m * lo <= s <= m * hi
    ensures (m + 1.0) * lo <= x + s <= (m + 1.0) * hi
  {
    assert (m + 1.0) * lo == m * lo + lo && (m + 1.0) * hi == m * hi + hi;
  }

  /** The average lies between any bounds of the present values: with
      equal bounds, the average of equal prices is that price. */
  lemma AverageBetween(values: seq<Option<real>>, lo: real, hi: real)
    requires Present(values) != []
    requires forall x :: Some(x) in values ==> lo <= x <= hi
    ensures lo <= CalculateAverage(values) <= hi
  {
    MeanBetween(Present(values), lo, hi);
  }

  lemma MeanBetween(xs: seq<real>, lo: real, hi: real)
    requires xs != []
    requires forall x :: x in xs ==> lo <= x <= hi
    ensures lo <= Mean(xs) <= hi
  {
    SumBetween(xs, lo, hi);
    QuotientBetween(Sum(xs), |xs| as real, lo, hi);
  }

  lemma QuotientBetween(s: real, n: real, lo: real, hi: real)
    requires n > 0.0 && n * lo <= s <= n * hi
    ensures lo <= s / n <= hi
  {
    var q := s / n;
    assert q * n == s;
    ScaleBack(q, lo, n);
    ScaleBack(hi, q, n);
  }

  lemma ScaleBack(a: real, b: real, n: real)
    requires n > 0.0 && n * b <= a * n
    ensures b <= a
  {
  }

  // ---------------------------------------------------------------------
  // ISO weeks

  /** `getUTCDay() || 7`: Monday 1 .. Sunday 7. */
  function IsoWeekday(d: Day): (r: int)
    ensures 1 <= r <= 7
    ensures r % 7 == Weekday(d)
  {
    if Weekday(d) == 0 then 7 else Weekday(d)
  }

  /** The Thursday of the date's Monday-to-Sunday week
      (`setUTCDate(getUTCDate() + 4 - dayNum)`). */
  function ThursdayOf(d: Day): (t: Day)
    ensures Weekday(t) == 4
    ensures DayNumber(t) - DayNumber(d) == 4 - IsoWeekday(d)
  {
    var iso := IsoWeekday(d);
    DateUtils.AddDaysWeekday(d, 4 - iso);
    ThursdayShift(Weekday(d), iso);
    AddDays(d, 4 - iso)
  }

  lemma ThursdayShift(w: int, iso: int)
    requires 0 <= w < 7 && 1 <= iso <= 7 && iso % 7 == w
    ensures (w + (4 - iso)) % 7 == 4
  {
    if iso == 7 { assert w == 0; } else { assert iso == w; }
  }

  /** `ceil((days from January 1st to the Thursday, plus one) / 7)`. */
  function WeekOfThursday(t: Day): (w: int)
    ensures 1 <= w <= 53
  {
    DayNumberWithinYear(t);
    DaysBeforeNextYear(t.year);
    (DayOfYear(t) + 1 + 6) / 7
  }

  /** The ISO week of a date: the week of its Thursday, counted in the
      Thursday's year. */
  function IsoWeek(d: Day): (w: int)
    ensures 1 <= w <= 53
  {
    WeekOfThursday(ThursdayOf(d))
  }

  /** `new Date(Date.UTC(getFullYear(), getMonth(), getDate()))`: the same
      month and day in the year `Date.UTC` reads, 1900..1999 for 0..99. */
  function UtcDay(d: Day): (r: Day)
    ensures DayNumber(r) == DayNumber(Date(JsFullYear(d.year), d.month, 1)) + d.day - 1
    ensures !(0 <= d.year <= 99) ==> r == d
  {
    SameDayOutsideTwoDigitYears(d);
    var mi := d.month - 1;
    assert mi / 12 == 0 && mi % 12 + 1 == d.month;
    JsDate(d.year, mi, d.day)
  }

  lemma SameDayOutsideTwoDigitYears(d: Day)
    ensures !(0 <= d.year <= 99) ==> JsDate(d.year, d.month - 1, d.day) == d
  {
    if !(0 <= d.year <= 99) { JsDateInRange(d.year, d.month - 1, d.day); }
  }

  /** `getWeekNumber`: the Thursday of the date's week, and its distance
      from `Date.UTC(getUTCFullYear(), 0, 1)`. That is the ISO week, except
      when the Thursday falls in the years 0..99: `Date.UTC` then starts the
      count in 1900..1999, and the number comes out negative. */
  function GetWeekNumber(d: Day): (w: int)
    ensures !(0 <= ThursdayOf(UtcDay(d)).year <= 99) ==> w == IsoWeek(UtcDay(d))
    ensures 0 <= ThursdayOf(UtcDay(d)).year <= 99 ==> w < 0
  {
    var t := ThursdayOf(UtcDay(d));
    var yearStart := Date(JsFullYear(t.year), 1, 1);
    YearStartFarAhead(t);
    (DayNumber(t) - DayNumber(yearStart) + 1 + 6) / 7
  }

  /** A day of the years 0..99 lies more than a week before January 1st of
      the year `Date.UTC` reads for its year. */
  /** Outside the years 0..99, `getWeekNumber` is the ISO week. */
  lemma GetWeekNumberIsIso(d: Day)
    requires !(0 <= d.year <= 99) && !(0 <= ThursdayOf(d).year <= 99)
    ensures GetWeekNumber(d) == IsoWeek(d)
  {
  }

  lemma WeekdayNext(d: Day)
    ensures Valid(NextDay(d))
    ensures Weekday(NextDay(d)) == (Weekday(d) + 1) % 7
  {
    NextDayNumber(d);
    DateUtils.ModSeven(DayNumber(d) + 1, 1);
  }

  /** Week numbers follow section 4.1.4 of ISO 8601:2004 (week dates): the
      days from a Monday to the next Sunday share a week. */
  lemma SameWeekMondayToSunday(d: Day)
    requires Weekday(d) != 0
    ensures Valid(NextDay(d))
    ensures IsoWeek(NextDay(d)) == IsoWeek(d)
  {
    WeekdayNext(d);
    NextDayNumber(d);
    var e: Day := NextDay(d);
    assert IsoWeekday(e) == IsoWeekday(d) + 1;
    var t, u := ThursdayOf(d), ThursdayOf(e);
    DayNumberInjective(u, t);
  }

  /** From a Sunday to the Monday after it, the week number goes up by one,
      or starts again at 1 in a new week-year. */
  lemma NewWeekOnMonday(d: Day)
    requires Weekday(d) == 0
    ensures Valid(NextDay(d))
    ensures var w := IsoWeek(NextDay(d)); w == IsoWeek(d) + 1 || w == 1
  {
    WeekdayNext(d);
    NextDayNumber(d);
    var e: Day := NextDay(d);
    assert IsoWeekday(e) == 1;
    WeekAfter(ThursdayOf(d), ThursdayOf(e));
  }

  /** A Thursday one week later has the next week number, or number 1. */
  lemma WeekAfter(t: Day, u: Day)
    requires DayNumber(u) == DayNumber(t) + 7
    ensures WeekOfThursday(u) == WeekOfThursday(t) + 1 || WeekOfThursday(u) == 1
  {
    YearsOneWeekApart(t, u);
    if u.year == t.year {
      WeekOfLaterDay(DayOfYear(t));
    } else {
      WeekOfEarlyDay(DayOfYear(u));
    }
  }

  /** A day one week later is in the same year, seven days further on, or
      in the next year among its first seven days. */
  lemma YearsOneWeekApart(t: Day, u: Day)
    requires DayNumber(u) == DayNumber(t) + 7
    ensures u.year == t.year ==> DayOfYear(u) == DayOfYear(t) + 7 && DayOfYear(t) >= 0
    ensures u.year != t.year ==> 0 <= DayOfYear(u) < 7
  {
    DayNumberWithinYear(t);
    DayNumberWithinYear(u);
    if u.year > t.year {
      DaysBeforeYearMono(t.year + 1, u.year);
    } else if u.year < t.year {
      DaysBeforeYearMono(u.year + 1, t.year);
      assert false;
    }
  }

  lemma WeekOfEarlyDay(x: int)
    requires 0 <= x < 7
    ensures (x + 1 + 6) / 7 == 1
  {
  }

  lemma WeekOfLaterDay(x: int)
    requires 0 <= x
    ensures (x + 7 + 1 + 6) / 7 == (x + 1 + 6) / 7 + 1
  {
  }

  /** Week 1 is the week holding the year's first Thursday: a date is in
      week 1 exactly when its Thursday falls on January 1st to 7th. */
  lemma WeekOneHoldsFirstThursday(d: Day)
    ensures IsoWeek(d) == 1 <==> ThursdayOf(d).month == 1 && ThursdayOf(d).day <= 7
  {
    WeekOneIff(ThursdayOf(d));
  }

  lemma WeekOneIff(t: Day)
    ensures WeekOfThursday(t) == 1 <==> t.month == 1 && t.day <= 7
  {
    if t.month > 1 {
      DaysBeforeMonthMono(t.year, 2, t.month);
    }
  }

  /** A Thursday on January 1st to 7th is in week 1 itself. */
  lemma FirstThursdayIsWeekOne(d: Day)
    requires Weekday(d) == 4 && d.month == 1 && d.day <= 7
    ensures IsoWeek(d) == 1
  {
    DayNumberInjective(ThursdayOf(d), d);
    WeekOneIff(d);
  }

  // ---------------------------------------------------------------------
  // Grouping

  /** The quotes with the key, in their order. */
  function Select<K(==)>(ps: seq<Price>, key: Price -> K, k: K): (r: seq<Price>)
    ensures forall p :: p in r <==> p in ps && key(p) == k
  {
    if ps == [] then []
    else
      var n := |ps| - 1;
      assert ps == ps[..n] + [ps[n]];
      var front := Select(ps[..n], key, k);
      if key(ps[n]) == k then front + [ps[n]] else front
  }

  /** `grouped[key].push(price)` for every quote in turn: one group per key
      that occurs, holding its quotes in order. */
  function GroupBy<K(==)>(ps: seq<Price>, key: Price -> K): (g: map<K, seq<Price>>)
    ensures g.Keys == set p | p in ps :: key(p)
    ensures forall k :: k in g ==> g[k] == Select(ps, key, k) && g[k] != []
  {
    var keys := set p | p in ps :: key(p);
    var g := map k | k in keys :: Select(ps, key, k);
    assert forall k :: k in g ==> g[k] != [] by {
      forall k | k in g ensures g[k] != [] {
        var p :| p in ps && key(p) == k;
        assert p in g[k];
      }
    }
    g
  }

  function WeekKey(p: Price): int {
    GetWeekNumber(p.date)
  }

  /** `groupByWeek`: the key is the week number alone, an ISO week 1..53 or,
      for a Thursday in the years 0..99, a negative number. */
  function GroupByWeek(ps: seq<Price>): (g: map<int, seq<Price>>)
    ensures forall k :: k in g ==> 1 <= k <= 53 || k < 0
    ensures forall p :: p in ps ==> WeekKey(p) in g && p in g[WeekKey(p)]
  {
    var g := GroupBy(ps, WeekKey);
    forall k | k in g ensures 1 <= k <= 53 || k < 0 {
      var p :| p in ps && WeekKey(p) == k;
      WeekKeyRange(p);
    }
    g
  }

  lemma WeekKeyRange(p: Price)
    ensures 1 <= WeekKey(p) <= 53 || WeekKey(p) < 0
  {
    var t := ThursdayOf(UtcDay(p.date));
    assert 0 <= t.year <= 99 ==> GetWeekNumber(p.date) < 0;
    assert !(0 <= t.year <= 99) ==> GetWeekNumber(p.date) == IsoWeek(UtcDay(p.date));
  }

  /** Two quotes a year apart, both in week 1, share a group: 2024-01-03
      and 2025-01-01. */
  lemma WeekGroupsMixYears(a: Price, b: Price)
    requires a.date == Date(2024, 1, 3) && b.date == Date(2025, 1, 1)
    ensures var g := GroupByWeek([a, b]); g.Keys == {1} && g[1] == [a, b]
  {
    WeekKeyOne(a, Date(2024, 1, 3));
    WeekKeyOne(b, Date(2025, 1, 1));
    SameWeekGroup(a, b, 1);
  }

  /** The key of a quote dated on one of the two days shown in week 1. */
  lemma WeekKeyOne(p: Price, d: Day)
    requires p.date == d && (d == Date(2024, 1, 3) || d == Date(2025, 1, 1))
    ensures WeekKey(p) == 1
  {
    if d == Date(2024, 1, 3) {
      WeekOneOf2024(p.date);
    } else {
      WeekOneOf2025(p.date);
    }
  }

  lemma SameWeekGroup(a: Price, b: Price, k: int)
    requires WeekKey(a) == k && WeekKey(b) == k
    ensures var g := GroupByWeek([a, b]); g.Keys == {k} && g[k] == [a, b]
  {
    SameKeyGroup(a, b, WeekKey, k);
  }

  /** Two quotes with the same key make one group. */
  lemma SameKeyGroup<K>(a: Price, b: Price, key: Price -> K, k: K)
    requires key(a) == k && key(b) == k
    ensures var g := GroupBy([a, b], key); g.Keys == {k} && g[k] == [a, b]
  {
    var g := GroupBy([a, b], key);
    assert g.Keys == {k} by {
      assert forall p :: p in [a, b] ==> p == a || p == b;
    }
    SelectAll([a, b], key, k);
  }

  lemma WeekOneOf2024(d: Day)
    requires d == Date(2024, 1, 3)
    ensures GetWeekNumber(d) == 1
  {
    assert Weekday(d) == 3;
    WeekOneByThursday(d, Date(2024, 1, 4));
    GetWeekNumberIsIso(d);
  }

  lemma WeekOneOf2025(d: Day)
    requires d == Date(2025, 1, 1)
    ensures GetWeekNumber(d) == 1
  {
    assert Weekday(d) == 3;
    WeekOneByThursday(d, Date(2025, 1, 2));
    GetWeekNumberIsIso(d);
  }

  /** When every quote has the key, its group is all of them. */
  lemma {:induction false} SelectAll<K>(ps: seq<Price>, key: Price -> K, k: K)
    requires forall p :: p in ps ==> key(p) == k
    ensures Select(ps, key, k) == ps
  {
    if ps != [] {
      var n := |ps| - 1;
      assert ps == ps[..n] + [ps[n]];
      assert forall p :: p in ps[..n] ==> p in ps;
      SelectAll(ps[..n], key, k);
    }
  }

  lemma WeekOneByThursday(d: Day, t: Day)
    requires t.month == 1 && t.day <= 7 && DayNumber(t) == DayNumber(d) + 4 - IsoWeekday(d)
    ensures ThursdayOf(d) == t && IsoWeek(d) == 1
  {
    DayNumberInjective(ThursdayOf(d), t);
    WeekOneIff(t);
  }

  /** `${getFullYear()}-${month padded to two digits}`. */
  function MonthKey(d: Day): string {
    Decimal.IntToString(d.year) + "-" + Decimal.TwoDigits(d.month)
  }

  function MonthKeyOf(p: Price): string {
    MonthKey(p.date)
  }

  /** `groupByMonth`. */
  function GroupByMonth(ps: seq<Price>): (g: map<string, seq<Price>>)
    ensures forall p :: p in ps ==> MonthKeyOf(p) in g && p in g[MonthKeyOf(p)]
    ensures forall k :: k in g ==> exists p :: p in ps && MonthKeyOf(p) == k
  {
    GroupBy(ps, MonthKeyOf)
  }

  /** For four-digit years the string order of month keys is the order of
      the months, and one key is one month. */
  lemma MonthKeyOrder(a: Day, b: Day)
    requires 1000 <= a.year <= 9999 && 1000 <= b.year <= 9999
    ensures Text.Less(MonthKey(a), MonthKey(b)) <==> a.year < b.year || (a.year == b.year && a.month < b.month)
    ensures MonthKey(a) == MonthKey(b) <==> a.year == b.year && a.month == b.month
  {
    var ya, yb := Decimal.NatToString(a.year), Decimal.NatToString(b.year);
    var ma, mb := Decimal.TwoDigits(a.month), Decimal.TwoDigits(b.month);
    Decimal.NatToStringLength(a.year);
    Decimal.NatToStringLength(b.year);
    Text.DigitsOrder(ya, yb);
    Text.DigitsOrder(ma, mb);
    assert MonthKey(a) == ya + ("-" + ma);
    assert MonthKey(b) == yb + ("-" + mb);
    Text.LessAppend(ya, yb, "-" + ma, "-" + mb);
    Text.LessAppend("-", "-", ma, mb);
    Text.LessTotal("-", "-");
    if MonthKey(a) == MonthKey(b) {
      assert ya == MonthKey(a)[..4] && yb == MonthKey(b)[..4];
      assert ma == MonthKey(a)[5..] && mb == MonthKey(b)[5..];
    }
  }

  // ---------------------------------------------------------------------
  // Variation cards

  /** The first quote among the newest: what a stable sort by descending
      date puts first. */
  function LatestIndex(ps: seq<Price>): (i: nat)
    requires ps != []
    ensures i < |ps|
    ensures forall j :: 0 <= j < |ps| ==> DayNumber(ps[j].date) <= DayNumber(ps[i].date)
    ensures forall j :: 0 <= j < i ==> DayNumber(ps[j].date) < DayNumber(ps[i].date)
  {
    if |ps| == 1 then 0
    else
      var k := LatestIndex(ps[1..]) + 1;
      assert forall j :: 1 <= j < |ps| ==> ps[j] == ps[1..][j - 1];
      if DayNumber(ps[0].date) >= DayNumber(ps[k].date) then 0 else k
  }

  /** `(current - previous) / previous * 100`; `None` stands for the
      infinite or NaN result of a zero previous value. */
  function Variation(current: real, previous: real): (r: Option<real>)
    ensures r.None? <==> previous == 0.0
    ensures previous > 0.0 ==> (r.value >= 0.0 <==> current >= previous)
  {
    if previous == 0.0 then None
    else
      VariationSign(current, previous);
      Some((current - previous) / previous * 100.0)
  }

  lemma VariationSign(current: real, previous: real)
    ensures previous > 0.0 ==> ((current - previous) / previous * 100.0 >= 0.0 <==> current >= previous)
  {
    if previous > 0.0 && current < previous {
      NegativeQuotient(current - previous, previous);
    }
  }

  lemma NegativeQuotient(a: real, b: real)
    requires a < 0.0 && b > 0.0
    ensures a / b * 100.0 < 0.0
  {
    assert a / b < 0.0;
  }

  /** The arrow and class of a variation: up and positive from zero on. */
  function Trend(v: real): (r: (string, string))
    ensures r.0 == "↑" <==> v >= 0.0
    ensures r.1 == "positive" <==> v >= 0.0
  {
    if v >= 0.0 then ("↑", "positive") else ("↓", "negative")
  }

  function MaxInt(xs: seq<int>): (m: int)
    requires xs != []
    ensures m in xs && forall x :: x in xs ==> x <= m
  {
    if |xs| == 1 then xs[0]
    else
      var r := MaxInt(xs[1..]);
      assert forall x :: x in xs ==> x == xs[0] || x in xs[1..];
      if xs[0] > r then xs[0] else r
  }

  /** The last of some strings in string order: `sort()`, `reverse()`, and
      the first entry. */
  function LastKey(xs: seq<string>): (m: string)
    requires xs != []
    ensures m in xs && forall x :: x in xs ==> !Text.Less(m, x)
  {
    if |xs| == 1 then Text.LessTotal(xs[0], xs[0]); xs[0]
    else
      var r := LastKey(xs[1..]);
      assert forall x :: x in xs ==> x == xs[0] || x in xs[1..];
      Text.LessTotal(xs[0], r);
      if Text.Less(r, xs[0]) then
        assert forall y :: y in xs[1..] ==> !Text.Less(xs[0], y) by {
          forall y | y in xs[1..] && Text.Less(xs[0], y) ensures false {
            Text.LessTransitive(r, xs[0], y);
          }
        }
        xs[0]
      else r
  }

  function Except<T(==,!new)>(xs: seq<T>, v: T): (r: seq<T>)
    ensures forall x :: x in r <==> x in xs && x != v
  {
    if xs == [] then []
    else
      var rest := Except(xs[1..], v);
      assert forall x :: x in xs ==> x == xs[0] || x in xs[1..];
      if xs[0] == v then rest else [xs[0]] + rest
  }

  /** The key of every quote, in order. */
  function KeysOf<K(!new)>(ps: seq<Price>, key: Price -> K): (ks: seq<K>)
    ensures forall k :: k in ks <==> exists p :: p in ps && key(p) == k
  {
    var ks := seq(|ps|, i requires 0 <= i < |ps| => key(ps[i]));
    assert forall p :: p in ps ==> key(p) in ks by {
      forall p | p in ps ensures key(p) in ks {
        var i :| 0 <= i < |ps| && ps[i] == p;
        assert ks[i] == key(p);
      }
    }
    ks
  }

  function Values(ps: seq<Price>): (vs: seq<Option<real>>)
    ensures |vs| == |ps| && forall i :: 0 <= i < |ps| ==> vs[i] == ps[i].value
  {
    seq(|ps|, i requires 0 <= i < |ps| => ps[i].value)
  }

  /** A card comparing two periods and their average prices. */
  datatype Card<K> = Card(current: K, previous: K, currentAverage: real, previousAverage: real)

  /** What `updateVariationCards` fills in: each card is `None` when it is
      left untouched. */
  datatype Cards = Cards(daily: Option<(Price, Price)>, weekly: Option<Card<int>>, monthly: Option<Card<string>>)

  function Without(ps: seq<Price>, i: nat): (r: seq<Price>)
    requires i < |ps|
    ensures |r| == |ps| - 1 && forall x :: x in r ==> x in ps
  {
    ps[..i] + ps[i + 1..]
  }

  /** The day number of a quote's date. */
  function Stamp(p: Price): int {
    DayNumber(p.date)
  }

  /** The quote a stable sort by descending date puts second: the first of
      the newest among the quotes other than `LatestIndex`. */
  function SecondIndex(ps: seq<Price>): (j: nat)
    requires |ps| >= 2
    ensures j < |ps| && j != LatestIndex(ps)
    ensures forall k :: 0 <= k < |ps| && k != LatestIndex(ps) ==> Stamp(ps[k]) <= Stamp(ps[j])
    ensures forall k :: 0 <= k < j && k != LatestIndex(ps) ==> Stamp(ps[k]) < Stamp(ps[j])
  {
    var i := LatestIndex(ps);
    var k := LatestIndex(Without(ps, i));
    var j := if k < i then k else k + 1;
    SecondFromRest(ps, i, k, j);
    SecondIsFirstOfNewest(ps, i, k, j);
    j
  }

  /** Position `n` of the list without position `i` is position `n` or
      `n + 1` of the whole list. */
  lemma WithoutAt(ps: seq<Price>, i: nat, n: nat)
    requires i < |ps| && n < |ps| - 1
    ensures Without(ps, i)[n] == ps[if n < i then n else n + 1]
  {
  }

  /** Position `k` of the list without position `i`, told as a position of
      the whole list, holds the newest of the others. */
  lemma SecondFromRest(ps: seq<Price>, i: nat, k: nat, j: nat)
    requires |ps| >= 2 && i < |ps| && k == LatestIndex(Without(ps, i)) && j == if k < i then k else k + 1
    ensures j < |ps| && j != i && Without(ps, i)[k] == ps[j]
    ensures forall m :: 0 <= m < |ps| && m != i ==> Stamp(ps[m]) <= Stamp(ps[j])
  {
    WithoutAt(ps, i, k);
    forall m | 0 <= m < |ps| && m != i
      ensures Stamp(ps[m]) <= Stamp(ps[j])
    {
      RestBelowLatest(ps, i, k, m);
    }
  }

  /** Any other quote is no newer than the newest of the others. */
  lemma RestBelowLatest(ps: seq<Price>, i: nat, k: nat, m: nat)
    requires |ps| >= 2 && i < |ps| && k == LatestIndex(Without(ps, i)) && m < |ps| && m != i
    ensures Stamp(ps[m]) <= Stamp(Without(ps, i)[k])
  {
    var rest := Without(ps, i);
    var n := if m < i then m else m - 1;
    WithoutAt(ps, i, n);
    assert DayNumber(rest[n].date) <= DayNumber(rest[k].date);
  }

  /** ... and it is the first of the newest others. */
  lemma SecondIsFirstOfNewest(ps: seq<Price>, i: nat, k: nat, j: nat)
    requires |ps| >= 2 && i < |ps| && k == LatestIndex(Without(ps, i)) && j == if k < i then k else k + 1
    ensures j < |ps| && forall m :: 0 <= m < j && m != i ==> Stamp(ps[m]) < Stamp(ps[j])
  {
    var rest := Without(ps, i);
    WithoutAt(ps, i, k);
    forall m | 0 <= m < j && m != i
      ensures Stamp(ps[m]) < Stamp(ps[j])
    {
      var n := if m < i then m else m - 1;
      assert n < k;
      WithoutAt(ps, i, n);
      assert DayNumber(rest[n].date) < DayNumber(rest[k].date);
    }
  }

  function DailyCard(ps: seq<Price>): (r: Option<(Price, Price)>)
    ensures r.Some? <==> |ps| >= 2
    ensures r.Some? ==> r.value.0 == ps[LatestIndex(ps)] && r.value.1 == ps[SecondIndex(ps)]
    ensures r.Some? ==> DayNumber(r.value.1.date) <= DayNumber(r.value.0.date)
  {
    if |ps| < 2 then None
    else
      Some((ps[LatestIndex(ps)], ps[SecondIndex(ps)]))
  }

  /** Position `a` comes before `b` in a stable sort by descending date:
      a later date, or the same date and an earlier position. */
  predicate NewerFirst(ps: seq<Price>, a: nat, b: nat)
    requires a < |ps| && b < |ps|
  {
    Stamp(ps[a]) > Stamp(ps[b]) || (Stamp(ps[a]) == Stamp(ps[b]) && a < b)
  }

  /** `order` lists the positions of `ps` once each, as the stable sort
      `sort((a, b) => new Date(b.data) - new Date(a.data))` arranges them. */
  predicate SortedNewestFirst(ps: seq<Price>, order: seq<nat>)
  {
    |order| == |ps|
    && (forall a :: 0 <= a < |order| ==> order[a] < |ps|)
    && (forall k :: 0 <= k < |ps| ==> k in order)
    && (forall a, b :: 0 <= a < b < |order| ==> order[a] != order[b])
    && forall a, b :: 0 <= a < b < |order| ==> order[a] < |ps| && order[b] < |ps| && NewerFirst(ps, order[a], order[b])
  }

  /** The daily card compares the first two entries of the sorted quotes. */
  lemma DailyCardTakesSortedFirstTwo(ps: seq<Price>, order: seq<nat>)
    requires |ps| >= 2 && SortedNewestFirst(ps, order)
    ensures DailyCard(ps) == Some((ps[order[0]], ps[order[1]]))
  {
    SortedFirstIsLatest(ps, order);
    SortedSecondIsSecond(ps, order);
  }

  lemma SortedFirstIsLatest(ps: seq<Price>, order: seq<nat>)
    requires |ps| >= 2 && SortedNewestFirst(ps, order)
    ensures order[0] == LatestIndex(ps)
  {
    var m := order[0];
    forall k | 0 <= k < |ps| && k != m ensures NewerFirst(ps, m, k) {
      assert k in order;
      var b :| 0 <= b < |order| && order[b] == k;
      assert 0 < b;
    }
    LatestUnique(ps, m);
  }

  lemma SortedSecondIsSecond(ps: seq<Price>, order: seq<nat>)
    requires |ps| >= 2 && SortedNewestFirst(ps, order) && order[0] == LatestIndex(ps)
    ensures order[1] == SecondIndex(ps)
  {
    var m := order[1];
    forall k | 0 <= k < |ps| && k != m && k != order[0] ensures NewerFirst(ps, m, k) {
      assert k in order;
      var b :| 0 <= b < |order| && order[b] == k;
      assert 1 < b;
    }
    SecondUnique(ps, m);
  }

  /** Only one position is the first of the newest. */
  lemma LatestUnique(ps: seq<Price>, m: nat)
    requires m < |ps|
    requires forall k :: 0 <= k < |ps| && k != m ==> NewerFirst(ps, m, k)
    ensures m == LatestIndex(ps)
  {
    var i := LatestIndex(ps);
    assert m == i || NewerFirst(ps, m, i);
  }

  /** Only one position is the first of the newest others. */
  lemma SecondUnique(ps: seq<Price>, m: nat)
    requires |ps| >= 2 && m < |ps| && m != LatestIndex(ps)
    requires forall k :: 0 <= k < |ps| && k != m && k != LatestIndex(ps) ==> NewerFirst(ps, m, k)
    ensures m == SecondIndex(ps)
  {
    var j := SecondIndex(ps);
    assert m == j || NewerFirst(ps, m, j);
  }



  /** The largest and the second largest distinct week numbers. */
  function TopTwoWeeks(ks: seq<int>): (r: Option<(int, int)>)
    ensures r.Some? <==> exists a, b :: a in ks && b in ks && a != b
    ensures r.Some? ==> r.value.0 in ks && r.value.1 in ks && r.value.1 < r.value.0
    ensures r.Some? ==> forall x :: x in ks ==> x <= r.value.0
    ensures r.Some? ==> forall x :: x in ks && x != r.value.0 ==> x <= r.value.1
  {
    if ks == [] then None
    else
      var top := MaxInt(ks);
      var rest := Except(ks, top);
      if rest == [] then
        assert forall a :: a in ks ==> a == top;
        None
      else
        var second := MaxInt(rest);
        Some((top, second))
  }

  /** The last and the second last distinct month keys in string order. */
  function TopTwoMonths(ks: seq<string>): (r: Option<(string, string)>)
    ensures r.Some? <==> exists a, b :: a in ks && b in ks && a != b
    ensures r.Some? ==> r.value.0 in ks && r.value.1 in ks && r.value.1 != r.value.0
    ensures r.Some? ==> forall x :: x in ks ==> !Text.Less(r.value.0, x)
    ensures r.Some? ==> forall x :: x in ks && x != r.value.0 ==> !Text.Less(r.value.1, x)
  {
    if ks == [] then None
    else
      var top := LastKey(ks);
      var rest := Except(ks, top);
      if rest == [] then
        assert forall a :: a in ks ==> a == top;
        None
      else
        var second := LastKey(rest);
        Some((top, second))
  }

  /** The weekly card: the two latest week numbers and their averages. */
  function WeeklyCard(ps: seq<Price>): (r: Option<Card<int>>)
    ensures r.Some? <==> TopTwoWeeks(KeysOf(ps, WeekKey)).Some?
  {
    match TopTwoWeeks(KeysOf(ps, WeekKey))
    case None => None
    case Some((top, second)) =>
      Some(Card(top, second, CalculateAverage(Values(Select(ps, WeekKey, top))),
        CalculateAverage(Values(Select(ps, WeekKey, second)))))
  }

  /** The weekly card is shown exactly when two quotes fall in different
      week numbers. */
  lemma WeeklyCardShownIff(ps: seq<Price>)
    ensures WeeklyCard(ps).Some? <==> exists p, q :: p in ps && q in ps && WeekKey(p) != WeekKey(q)
  {
    TopTwoWeeksOfQuotes(ps, WeekKey);
  }

  /** The weekly card compares the highest week number with the highest
      of the others, both of which occur. */
  lemma WeeklyCardPicksTopWeeks(ps: seq<Price>)
    requires WeeklyCard(ps).Some?
    ensures var c := WeeklyCard(ps).value;
      c.previous < c.current
      && (forall p :: p in ps ==> WeekKey(p) <= c.current)
      && (forall p :: p in ps && WeekKey(p) != c.current ==> WeekKey(p) <= c.previous)
      && (exists p :: p in ps && WeekKey(p) == c.current)
      && (exists q :: q in ps && WeekKey(q) == c.previous)
  {
    TopTwoWeeksOfQuotes(ps, WeekKey);
  }

  lemma TopTwoWeeksOfQuotes(ps: seq<Price>, key: Price -> int)
    ensures TopTwoWeeks(KeysOf(ps, key)).Some? <==> exists p, q :: p in ps && q in ps && key(p) != key(q)
    ensures TopTwoWeeks(KeysOf(ps, key)).Some? ==> var (top, second) := TopTwoWeeks(KeysOf(ps, key)).value;
      (forall p :: p in ps ==> key(p) <= top)
      && (forall p :: p in ps && key(p) != top ==> key(p) <= second)
      && (exists p :: p in ps && key(p) == top)
      && (exists q :: q in ps && key(q) == second)
  {
    var ks := KeysOf(ps, key);
    if exists p, q :: p in ps && q in ps && key(p) != key(q) {
      var p, q :| p in ps && q in ps && key(p) != key(q);
      assert key(p) in ks && key(q) in ks;
    }
    if TopTwoWeeks(ks).Some? {
      var (top, second) := TopTwoWeeks(ks).value;
      forall p | p in ps ensures key(p) <= top && (key(p) != top ==> key(p) <= second) {
        assert key(p) in ks;
      }
    }
  }

  /** The monthly card: the two last month keys in string order and their
      averages. */
  function MonthlyCard(ps: seq<Price>): (r: Option<Card<string>>)
    ensures r.Some? <==> TopTwoMonths(KeysOf(ps, MonthKeyOf)).Some?
  {
    match TopTwoMonths(KeysOf(ps, MonthKeyOf))
    case None => None
    case Some((top, second)) =>
      Some(Card(top, second, CalculateAverage(Values(Select(ps, MonthKeyOf, top))),
        CalculateAverage(Values(Select(ps, MonthKeyOf, second)))))
  }

  /** The monthly card is shown exactly when two quotes fall in different
      months. */
  lemma MonthlyCardShownIff(ps: seq<Price>)
    ensures MonthlyCard(ps).Some? <==> exists p, q :: p in ps && q in ps && MonthKeyOf(p) != MonthKeyOf(q)
  {
    TopTwoMonthsOfQuotes(ps, MonthKeyOf);
  }

  /** The monthly card compares the last month key with the last of the
      others, both of which occur. */
  lemma MonthlyCardPicksTopMonths(ps: seq<Price>)
    requires MonthlyCard(ps).Some?
    ensures var c := MonthlyCard(ps).value;
      c.previous != c.current
      && (forall p :: p in ps ==> !Text.Less(c.current, MonthKeyOf(p)))
      && (forall p :: p in ps && MonthKeyOf(p) != c.current ==> !Text.Less(c.previous, MonthKeyOf(p)))
      && (exists p :: p in ps && MonthKeyOf(p) == c.current)
      && (exists q :: q in ps && MonthKeyOf(q) == c.previous)
  {
    TopTwoMonthsOfQuotes(ps, MonthKeyOf);
  }

  lemma TopTwoMonthsOfQuotes(ps: seq<Price>, key: Price -> string)
    ensures TopTwoMonths(KeysOf(ps, key)).Some? <==> exists p, q :: p in ps && q in ps && key(p) != key(q)
    ensures TopTwoMonths(KeysOf(ps, key)).Some? ==> var (top, second) := TopTwoMonths(KeysOf(ps, key)).value;
      (forall p :: p in ps ==> !Text.Less(top, key(p)))
      && (forall p :: p in ps && key(p) != top ==> !Text.Less(second, key(p)))
      && (exists p :: p in ps && key(p) == top)
      && (exists q :: q in ps && key(q) == second)
  {
    var ks := KeysOf(ps, key);
    if exists p, q :: p in ps && q in ps && key(p) != key(q) {
      var p, q :| p in ps && q in ps && key(p) != key(q);
      assert key(p) in ks && key(q) in ks;
    }
    if TopTwoMonths(ks).Some? {
      var (top, second) := TopTwoMonths(ks).value;
      forall p | p in ps
        ensures !Text.Less(top, key(p))
        ensures key(p) != top ==> !Text.Less(second, key(p))
      {
        assert key(p) in ks;
      }
    }
  }

  /** `updateVariationCards`: nothing for no quotes; the daily card needs
      two quotes, the weekly and monthly cards two different weeks and
      months. */
  function UpdateVariationCards(ps: seq<Price>): (r: Cards)
    ensures ps == [] ==> r == Cards(None, None, None)
    ensures r.daily == DailyCard(ps) && r.weekly == WeeklyCard(ps) && r.monthly == MonthlyCard(ps)
  {
    if ps == [] then Cards(None, None, None)
    else Cards(DailyCard(ps), WeeklyCard(ps), MonthlyCard(ps))
  }

  /** The weekly card has two groups to compare exactly when the week
      grouping has two keys. */
  lemma WeeklyCardNeedsTwoGroups(ps: seq<Price>)
    ensures WeeklyCard(ps).Some? <==> exists a, b :: a in GroupByWeek(ps) && b in GroupByWeek(ps) && a != b
  {
    var differ := exists p, q :: p in ps && q in ps && WeekKey(p) != WeekKey(q);
    WeeklyCardShownIff(ps);
    assert WeeklyCard(ps).Some? == differ;
    TwoGroupsIff(ps, WeekKey);
    assert GroupByWeek(ps) == GroupBy(ps, WeekKey);
  }

  /** Two groups exist exactly when two quotes have different keys. */
  lemma TwoGroupsIff<K>(ps: seq<Price>, key: Price -> K)
    ensures (exists a, b :: a in GroupBy(ps, key) && b in GroupBy(ps, key) && a != b)
      <==> exists p, q :: p in ps && q in ps && key(p) != key(q)
  {
    var g := GroupBy(ps, key);
    if exists p, q :: p in ps && q in ps && key(p) != key(q) {
      var p, q :| p in ps && q in ps && key(p) != key(q);
      assert key(p) in g && key(q) in g;
    }
    if exists a, b :: a in g && b in g && a != b {
      var a, b :| a in g && b in g && a != b;
      var p :| p in ps && key(p) == a;
      var q :| q in ps && key(q) == b;
    }
  }

  /** With four-digit years, the monthly card's current month is the month
      of the newest quote. */
  lemma MonthlyCardIsLatestMonth(ps: seq<Price>)
    requires forall p :: p in ps ==> 1000 <= p.date.year <= 9999
    requires MonthlyCard(ps).Some?
    ensures exists p :: (p in ps && MonthKeyOf(p) == MonthlyCard(ps).value.current
      && forall q :: q in ps ==> q.date.year < p.date.year || (q.date.year == p.date.year && q.date.month <= p.date.month))
  {
    MonthlyCardPicksTopMonths(ps);
    var m := MonthlyCard(ps).value.current;
    var p :| p in ps && MonthKeyOf(p) == m;
    forall q | q in ps
      ensures q.date.year < p.date.year || (q.date.year == p.date.year && q.date.month <= p.date.month)
    {
      MonthKeyOrder(p.date, q.date);
    }
  }
}
