/** The price page's client logic (`script.js`): the retried fetch of
    `/api/lme` and the stale-cache warning, business days and their week
    numbers, the week grouping that fills days without a quote, the PTAX
    lookup cache with its BCB date format, and the variation cell.

    Dates are civil dates; the UTC-noon normalisation the source applies
    before every comparison is what makes them behave as such. */
module ClientPrices {
  import opened Wrappers
  import opened Decimal
  import opened Text
  import opened Gregorian
  import Retry
  import CacheService
  import PriceProxy

  const MAX_RETRIES: nat := 3
  const RETRY_DELAY: nat := 1000

  // ---------------------------------------------------------------------
  // Fetching `/api/lme`

  /** `fetchWithRetry(url)`: the same bounded retry as the server's, with
      the client's own constants. */
  function FetchWithRetry<P>(upstream: seq<Retry.Outcome<P>>): (r: Retry.Run<P>)
    ensures 1 <= r.calls <= 4 && r.waited == 1000 * (r.calls - 1)
    ensures r.result.Err? ==> r.calls == 4 && forall i :: 0 <= i < 4 ==> !Retry.IsOk(Retry.Attempt(upstream, i))
    ensures r.result.Ok? ==> Retry.IsOk(Retry.Attempt(upstream, r.calls - 1))
  {
    Retry.FetchWithRetry(upstream, MAX_RETRIES, RETRY_DELAY)
  }

  /** The warning banner is shown when the response says it came from the cache. */
  predicate ShowsCacheWarning(headers: map<string, string>) {
    PriceProxy.SOURCE_HEADER in headers && headers[PriceProxy.SOURCE_HEADER] == "cache"
  }

  /** Against the proxy, the client warns about cached data exactly when the
      proxy's refresh failed and it fell back to older data. */
  lemma CacheWarningIffStale<P>(s: PriceProxy.Server<P>, now: nat)
    ensures var reply := PriceProxy.HandleLme(s, now).0;
      (reply.Json? && ShowsCacheWarning(reply.headers)) <==>
      !CacheService.IsValid(s.cache, now) && PriceProxy.Refresh(s).result.Err? && s.cache.data.Some?
  {
  }

  // ---------------------------------------------------------------------
  // BCB date format

  /** `formatDateForBCB`: `MM-DD-YYYY`, month and day padded to two digits,
      the year as `String` writes it. */
  function FormatDateForBcb(d: Date): (r: string)
    requires Valid(d)
    ensures |r| >= 7 && r[2] == '-' && r[5] == '-'
    ensures AllDigits(r[..2]) && DigitsValue(r[..2]) == d.month
    ensures AllDigits(r[3..5]) && DigitsValue(r[3..5]) == d.day
    ensures r[6..] == IntToString(d.year)
  {
    var r := TwoDigits(d.month) + "-" + TwoDigits(d.day) + "-" + IntToString(d.year);
    assert r[..2] == TwoDigits(d.month) && r[3..5] == TwoDigits(d.day);
    r
  }

  /** Reading a BCB date back: three `-`-separated integers, month first. */
  function ParseBcbDate(s: string): Option<Date> {
    var parts := Split(s, '-');
    if |parts| != 3 then None
    else
      match (ParseInt(parts[0]), ParseInt(parts[1]), ParseInt(parts[2]))
      case (Some(m), Some(d), Some(y)) => Some(Date(y, m, d))
      case _ => None
  }

  /** For the years from 0 on, the BCB string reads back as the date it
      was made from. */
  lemma BcbDateRoundTrip(d: Date)
    requires Valid(d) && d.year >= 0
    ensures ParseBcbDate(FormatDateForBcb(d)) == Some(d)
  {
    var m, dd, y := TwoDigits(d.month), TwoDigits(d.day), NatToString(d.year);
    BcbDateParts(d);
    ParseIntOfDigits(m);
    ParseIntOfDigits(dd);
    ParseIntOfNatToString(d.year);
    ParseBcbParts(FormatDateForBcb(d), m, dd, y, d);
  }

  /** The BCB string splits at its dashes into month, day and year. */
  lemma BcbDateParts(d: Date)
    requires Valid(d) && d.year >= 0
    ensures Split(FormatDateForBcb(d), '-') == [TwoDigits(d.month), TwoDigits(d.day), NatToString(d.year)]
  {
    var m, dd, y := TwoDigits(d.month), TwoDigits(d.day), NatToString(d.year);
    assert '-' !in m && '-' !in dd && '-' !in y by {
      assert !IsDigit('-');
    }
    assert FormatDateForBcb(d) == m + ['-'] + (dd + ['-'] + y);
    SplitPrefix(m, '-', dd + ['-'] + y);
    SplitPrefix(dd, '-', y);
    SplitNoSeparator(y, '-');
  }

  /** A string of three `-`-separated integers reads as month, day, year. */
  lemma ParseBcbParts(s: string, m: string, dd: string, y: string, d: Date)
    requires Split(s, '-') == [m, dd, y]
    requires ParseInt(m) == Some(d.month) && ParseInt(dd) == Some(d.day) && ParseInt(y) == Some(d.year)
    ensures ParseBcbDate(s) == Some(d)
  {
  }

  // ---------------------------------------------------------------------
  // Business days

  /** `isBusinessDay`: Monday to Friday. */
  predicate IsBusinessDay(d: Date)
    requires 1 <= d.month <= 12
  {
    1 <= Weekday(d) <= 5
  }

  /** The business days whose numbers lie in `lo..hi`, in calendar order:
      the reference that `generateDateRange` is checked against. */
  function BusinessDays(lo: int, hi: int): (r: seq<Date>)
    ensures AllValid(r)
    decreases hi - lo + 1
  {
    if lo > hi then []
    else (if IsBusinessDay(FromDayNumber(lo)) then [FromDayNumber(lo)] else []) + BusinessDays(lo + 1, hi)
  }

  /** The business days of `lo..hi` are real Monday-to-Friday dates inside
      the range, strictly ascending, and every such date is listed. */
  lemma {:induction false} BusinessDaysSpec(lo: int, hi: int)
    ensures forall i :: 0 <= i < |BusinessDays(lo, hi)| ==>
      Valid(BusinessDays(lo, hi)[i]) && IsBusinessDay(BusinessDays(lo, hi)[i])
      && lo <= DayNumber(BusinessDays(lo, hi)[i]) <= hi
    ensures forall i, j :: 0 <= i < j < |BusinessDays(lo, hi)| ==>
      DayNumber(BusinessDays(lo, hi)[i]) < DayNumber(BusinessDays(lo, hi)[j])
    ensures forall d :: Valid(d) && lo <= DayNumber(d) <= hi && IsBusinessDay(d) ==> d in BusinessDays(lo, hi)
    decreases hi - lo + 1
  {
    if lo <= hi {
      BusinessDaysSpec(lo + 1, hi);
      forall d | Valid(d) && lo <= DayNumber(d) <= hi && IsBusinessDay(d)
        ensures d in BusinessDays(lo, hi)
      {
        if DayNumber(d) == lo {
          FromDayNumberOfDayNumber(d);
        }
      }
    }
  }

  /** `generateDateRange(start, end)`: walk the calendar one day at a time
      from `start` while not past `end`, keeping the business days. */
  method GenerateDateRange(start: Date, end: Date) returns (dates: seq<Date>)
    requires Valid(start) && Valid(end)
    ensures dates == BusinessDays(DayNumber(start), DayNumber(end))
  {
    dates := [];
    var current := start;
    var last := DayNumber(end);
    while DayNumber(current) <= last
      invariant Valid(current)
      invariant dates + BusinessDays(DayNumber(current), last) == BusinessDays(DayNumber(start), last)
      decreases last - DayNumber(current)
    {
      WalkStep(dates, current, last);
      if IsBusinessDay(current) {
        dates := dates + [current];
      }
      var next := AddDays(current, 1);
      assert DayNumber(next) == DayNumber(current) + 1;
      current := next;
    }
    assert BusinessDays(DayNumber(current), last) == [];
  }

  /** Keeping `d` when it is a business day moves the walk on by one day. */
  lemma WalkStep(dates: seq<Date>, d: Date, hi: int)
    requires Valid(d) && DayNumber(d) <= hi
    ensures dates + BusinessDays(DayNumber(d), hi) ==
      (if IsBusinessDay(d) then dates + [d] else dates) + BusinessDays(DayNumber(d) + 1, hi)
  {
    var head: seq<Date> := if IsBusinessDay(d) then [d] else [];
    var rest := BusinessDays(DayNumber(d) + 1, hi);
    BusinessDaysStep(d, hi);
    assert dates + (head + rest) == (dates + head) + rest;
    assert IsBusinessDay(d) ==> dates + head == dates + [d];
    assert !IsBusinessDay(d) ==> dates + head == dates;
  }

  /** One step of the walk: the range starting at a real date begins with
      that date when it is a business day. */
  lemma BusinessDaysStep(d: Date, hi: int)
    requires Valid(d) && DayNumber(d) <= hi
    ensures BusinessDays(DayNumber(d), hi) ==
      (if IsBusinessDay(d) then [d] else []) + BusinessDays(DayNumber(d) + 1, hi)
  {
    FromDayNumberOfDayNumber(d);
  }

  /** The range `generateDateRange(start, end)` produces, in calendar terms:
      Monday-to-Friday dates, in increasing order, and every business day
      neither before `start` nor after `end`. */
  lemma DateRangeSpec(start: Date, end: Date)
    requires Valid(start) && Valid(end)
    ensures var dates := BusinessDays(DayNumber(start), DayNumber(end));
      (forall i :: 0 <= i < |dates| ==> IsBusinessDay(dates[i]) && !Before(dates[i], start) && !Before(end, dates[i]))
      && (forall i, j :: 0 <= i < j < |dates| ==> Before(dates[i], dates[j]))
      && (forall d :: Valid(d) && !Before(d, start) && !Before(end, d) && IsBusinessDay(d) ==> d in dates)
  {
    var dates := BusinessDays(DayNumber(start), DayNumber(end));
    BusinessDaysSpec(DayNumber(start), DayNumber(end));
    forall i | 0 <= i < |dates|
      ensures !Before(dates[i], start) && !Before(end, dates[i])
    {
      DayNumberOrder(dates[i], start);
      DayNumberOrder(end, dates[i]);
    }
    forall i, j | 0 <= i < j < |dates|
      ensures Before(dates[i], dates[j])
    {
      DayNumberOrder(dates[i], dates[j]);
    }
    forall d | Valid(d) && !Before(d, start) && !Before(end, d) && IsBusinessDay(d)
      ensures d in dates
    {
      DayNumberOrder(d, start);
      DayNumberOrder(end, d);
    }
  }

  // ---------------------------------------------------------------------
  // Week numbers

  /** `getWeekNumber` of the price page: `ceil((days + weekday(Jan 1)) / 7)`,
      where `days` counts from 1 January of the year `new Date` reads for the
      date's year. That is the date's own year except in the years 0..99,
      which `new Date` moves to 1900..1999: there the count is far below zero. */
  function WeekNumber(d: Date): (w: int)
    requires Valid(d)
    ensures !(0 <= d.year <= 99) ==> 0 <= w <= 53
    ensures !(0 <= d.year <= 99) && IsBusinessDay(d) ==> w >= 1
    ensures 0 <= d.year <= 99 ==> w < 0
  {
    var start := Date(JsFullYear(d.year), 1, 1);
    var x := DayNumber(d) - DayNumber(start) + Weekday(start);
    DayNumberWithinYear(d);
    DaysBeforeNextYear(d.year);
    YearStartFarAhead(d);
    (x + 6) / 7
  }

  lemma ModShift(a: int, j: int)
    ensures (a + j % 7) % 7 == (a + j) % 7
  {
    assert j == 7 * (j / 7) + j % 7;
  }

  /** Within a year the number moves on exactly on Mondays: the price page's
      weeks run from Monday to Sunday, and a week that starts in the old year
      carries on into the new one only by number. */
  lemma WeekNumberStep(d: Date)
    requires Valid(d) && NextDay(d).year == d.year
    ensures WeekNumber(NextDay(d)) == WeekNumber(d) + (if Weekday(NextDay(d)) == 1 then 1 else 0)
  {
    var e := NextDay(d);
    NextDayNumber(d);
    var start := Date(JsFullYear(d.year), 1, 1);
    var x := DayNumber(d) - DayNumber(start) + Weekday(start);
    assert WeekNumber(d) == (x + 6) / 7;
    assert WeekNumber(e) == (x + 7) / 7;
    ModShift(DayNumber(e) - DayNumber(start), DayNumber(start) + 1);
    assert Weekday(e) == (x + 1) % 7;
    CeilStep(x);
  }

  lemma CeilStep(x: int)
    ensures (x + 7) / 7 == (x + 6) / 7 + (if (x + 1) % 7 == 1 then 1 else 0)
  {
    assert x == 7 * (x / 7) + x % 7;
  }

  // ---------------------------------------------------------------------
  // Grouping quotes by week

  /** One quote record: its date and the metal prices, kept opaque. */
  datatype Price<Q> = Price(date: Date, quotes: Q)

  /** A table row: a quote found for the day, or the placeholder for a day
      without one (`isMissing`, every metal shown as `-`). */
  datatype Row<Q> = Priced(price: Price<Q>) | Missing(date: Date, quotes: map<string, string>)

  const QUOTE_FIELDS: seq<string> := ["cobre", "zinco", "aluminio", "chumbo", "estanho", "niquel", "dolar"]

  const DASH_QUOTES: map<string, string> := map f | f in QUOTE_FIELDS :: "-"

  function RowDate<Q>(row: Row<Q>): Date {
    match row
    case Priced(p) => p.date
    case Missing(d, _) => d
  }

  /** `findPrice`: the index of the first quote dated `d`. */
  function FindPrice<Q>(d: Date, prices: seq<Price<Q>>): (r: Option<nat>)
    ensures r.None? <==> forall i :: 0 <= i < |prices| ==> prices[i].date != d
    ensures r.Some? ==> r.value < |prices| && prices[r.value].date == d
    ensures r.Some? ==> forall j :: 0 <= j < r.value ==> prices[j].date != d
  {
    if |prices| == 0 then None
    else if prices[0].date == d then Some(0)
    else
      var r := FindPrice(d, prices[1..]);
      if r.Some? then Some(r.value + 1) else None
  }

  function RowFor<Q>(d: Date, prices: seq<Price<Q>>): (row: Row<Q>)
    ensures RowDate(row) == d
  {
    match FindPrice(d, prices)
    case Some(i) => Priced(prices[i])
    case None => Missing(d, DASH_QUOTES)
  }

  /** A day gets a placeholder row exactly when no quote carries its date,
      and the placeholder shows `-` for each of the seven quotes. */
  lemma MissingRowIff<Q>(d: Date, prices: seq<Price<Q>>)
    ensures RowFor(d, prices).Missing? <==> forall i :: 0 <= i < |prices| ==> prices[i].date != d
    ensures RowFor(d, prices).Missing? ==>
      RowFor(d, prices).quotes.Keys == set f | f in QUOTE_FIELDS
      && forall f :: f in QUOTE_FIELDS ==> RowFor(d, prices).quotes[f] == "-"
  {
  }

  function Rows<Q>(dates: seq<Date>, prices: seq<Price<Q>>): seq<Row<Q>> {
    seq(|dates|, i requires 0 <= i < |dates| => RowFor(dates[i], prices))
  }

  predicate AllValid(dates: seq<Date>) {
    forall i :: 0 <= i < |dates| ==> Valid(dates[i])
  }

  /** The dates of `dates` whose week number is `k`, in order. */
  function InWeek(dates: seq<Date>, k: int): seq<Date>
    requires AllValid(dates)
  {
    if |dates| == 0 then []
    else InWeek(dates[..|dates| - 1], k) + (if WeekNumber(dates[|dates| - 1]) == k then [dates[|dates| - 1]] else [])
  }

  lemma {:induction false} InWeekMembers(dates: seq<Date>, k: int)
    requires AllValid(dates)
    ensures forall d :: d in InWeek(dates, k) <==> d in dates && WeekNumber(d) == k
  {
    if |dates| > 0 {
      InWeekMembers(dates[..|dates| - 1], k);
      assert dates == dates[..|dates| - 1] + [dates[|dates| - 1]];
    }
  }

  /** The grouping loop: each date's row is pushed onto its week's list. */
  function Group<Q>(dates: seq<Date>, prices: seq<Price<Q>>): map<int, seq<Row<Q>>>
    requires AllValid(dates)
  {
    if |dates| == 0 then map[]
    else
      var g := Group(dates[..|dates| - 1], prices);
      var d := dates[|dates| - 1];
      var k := WeekNumber(d);
      g[k := (if k in g then g[k] else []) + [RowFor(d, prices)]]
  }

  /** A week has a group exactly when some date falls in it, and the group
      holds the rows of that week's dates in date order. */
  lemma {:induction false} GroupContents<Q>(dates: seq<Date>, prices: seq<Price<Q>>, k: int)
    requires AllValid(dates)
    ensures k in Group(dates, prices) <==> |InWeek(dates, k)| > 0
    ensures k in Group(dates, prices) ==> Group(dates, prices)[k] == Rows(InWeek(dates, k), prices)
  {
    if |dates| > 0 {
      var init := dates[..|dates| - 1];
      GroupContents(init, prices, k);
      var d := dates[|dates| - 1];
      if WeekNumber(d) == k {
        assert Rows(InWeek(init, k) + [d], prices) == Rows(InWeek(init, k), prices) + [RowFor(d, prices)];
      }
    }
  }

  predicate ValidPrices<Q>(prices: seq<Price<Q>>) {
    forall i :: 0 <= i < |prices| ==> Valid(prices[i].date)
  }

  /** The earliest quote date. */
  function Earliest<Q>(prices: seq<Price<Q>>): (d: Date)
    requires |prices| > 0 && ValidPrices(prices)
    ensures Valid(d) && exists i :: 0 <= i < |prices| && prices[i].date == d
    ensures forall i :: 0 <= i < |prices| ==> DayNumber(d) <= DayNumber(prices[i].date)
  {
    assert Valid(prices[0].date);
    if |prices| == 1 then prices[0].date
    else
      var rest := Earliest(prices[1..]);
      if DayNumber(prices[0].date) <= DayNumber(rest) then prices[0].date else rest
  }

  /** The latest quote date. */
  function Latest<Q>(prices: seq<Price<Q>>): (d: Date)
    requires |prices| > 0 && ValidPrices(prices)
    ensures Valid(d) && exists i :: 0 <= i < |prices| && prices[i].date == d
    ensures forall i :: 0 <= i < |prices| ==> DayNumber(prices[i].date) <= DayNumber(d)
  {
    assert Valid(prices[0].date);
    if |prices| == 1 then prices[0].date
    else
      var rest := Latest(prices[1..]);
      if DayNumber(rest) <= DayNumber(prices[0].date) then prices[0].date else rest
  }

  /** `groupByWeek(prices)`: the business days from the earliest to the
      latest quote, grouped by week number. An empty list fails, as reading
      the first element of the sorted copy does. */
  function GroupByWeek<Q>(prices: seq<Price<Q>>): (r: Result<map<int, seq<Row<Q>>>>)
    requires ValidPrices(prices)
    ensures r.Err? <==> |prices| == 0
  {
    if |prices| == 0 then Err("Cannot read properties of undefined (reading 'data')")
    else
      var dates := BusinessDays(DayNumber(Earliest(prices)), DayNumber(Latest(prices)));
      BusinessDaysSpec(DayNumber(Earliest(prices)), DayNumber(Latest(prices)));
      Ok(Group(dates, prices))
  }

  /** A date of the list has its row in its own week's group; a row of any
      other group carries another date. */
  lemma GroupPlacesDate<Q>(dates: seq<Date>, prices: seq<Price<Q>>, d: Date)
    requires AllValid(dates) && d in dates
    ensures WeekNumber(d) in Group(dates, prices)
    ensures RowFor(d, prices) in Group(dates, prices)[WeekNumber(d)]
    ensures forall k, row | k in Group(dates, prices) && k != WeekNumber(d) && row in Group(dates, prices)[k] :: RowDate(row) != d
  {
    var g := Group(dates, prices);
    InWeekMembers(dates, WeekNumber(d));
    GroupContents(dates, prices, WeekNumber(d));
    var week := InWeek(dates, WeekNumber(d));
    var i :| 0 <= i < |week| && week[i] == d;
    assert Rows(week, prices)[i] == RowFor(d, prices);
    forall k, row | k in g && k != WeekNumber(d) && row in g[k]
      ensures RowDate(row) != d
    {
      GroupContents(dates, prices, k);
      InWeekMembers(dates, k);
      var rows := Rows(InWeek(dates, k), prices);
      var j :| 0 <= j < |rows| && rows[j] == row;
      assert InWeek(dates, k)[j] in InWeek(dates, k);
    }
  }

  /** Every business day from the earliest to the latest quote has its row
      in the group of its week number and in no other group. */
  lemma GroupByWeekCovers<Q>(prices: seq<Price<Q>>, d: Date)
    requires |prices| > 0 && ValidPrices(prices)
    requires Valid(d) && IsBusinessDay(d)
    requires DayNumber(Earliest(prices)) <= DayNumber(d) <= DayNumber(Latest(prices))
    ensures WeekNumber(d) in GroupByWeek(prices).value
    ensures RowFor(d, prices) in GroupByWeek(prices).value[WeekNumber(d)]
    ensures forall k, row | k in GroupByWeek(prices).value && k != WeekNumber(d) && row in GroupByWeek(prices).value[k] :: RowDate(row) != d
  {
    var lo, hi := DayNumber(Earliest(prices)), DayNumber(Latest(prices));
    InBusinessDays(lo, hi, d);
    GroupByWeekPlaces(prices, d);
  }

  /** A business day in range is listed, among valid dates only. */
  lemma InBusinessDays(lo: int, hi: int, d: Date)
    requires Valid(d) && IsBusinessDay(d) && lo <= DayNumber(d) <= hi
    ensures d in BusinessDays(lo, hi) && AllValid(BusinessDays(lo, hi))
  {
    BusinessDaysSpec(lo, hi);
  }

  /** The same for a date known to be one of the listed business days. */
  lemma GroupByWeekPlaces<Q>(prices: seq<Price<Q>>, d: Date)
    requires |prices| > 0 && ValidPrices(prices)
    requires d in BusinessDays(DayNumber(Earliest(prices)), DayNumber(Latest(prices)))
    requires AllValid(BusinessDays(DayNumber(Earliest(prices)), DayNumber(Latest(prices))))
    ensures Valid(d)
    ensures WeekNumber(d) in GroupByWeek(prices).value
    ensures RowFor(d, prices) in GroupByWeek(prices).value[WeekNumber(d)]
    ensures forall k, row | k in GroupByWeek(prices).value && k != WeekNumber(d) && row in GroupByWeek(prices).value[k] :: RowDate(row) != d
  {
    var dates := BusinessDays(DayNumber(Earliest(prices)), DayNumber(Latest(prices)));
    GroupByWeekIsGroup(prices);
    GroupPlacesDate(dates, prices, d);
  }

  /** The weeks are those of the business days from the earliest to the
      latest price. */
  lemma GroupByWeekIsGroup<Q>(prices: seq<Price<Q>>)
    requires |prices| > 0 && ValidPrices(prices)
    ensures GroupByWeek(prices).value == Group(BusinessDays(DayNumber(Earliest(prices)), DayNumber(Latest(prices))), prices)
  {
  }

  // ---------------------------------------------------------------------
  // PTAX lookups

  /** What the BCB answered for one day: a list of quotes (possibly empty),
      a reply without a `value` list, or a failed request. */
  datatype PtaxReply<R> = Rates(values: seq<R>) | NoValueList | RequestFailed

  datatype PtaxLookup<R> = PtaxLookup(rate: Option<R>, cache: map<string, R>, calls: nat)

  /** `fetchPtaxRate(dateStr)`: a cached key answers with no request;
      otherwise the first quote's selling rate is cached and returned, and
      any other reply gives null without caching. */
  function FetchPtaxRate<R>(cache: map<string, R>, key: string, reply: PtaxReply<R>): (r: PtaxLookup<R>)
    ensures key in cache ==> r == PtaxLookup(Some(cache[key]), cache, 0)
    ensures key !in cache ==> r.calls == 1
    ensures key !in cache ==> (r.rate.Some? <==> reply.Rates? && |reply.values| > 0)
    ensures key !in cache && r.rate.Some? ==> r.rate.value == reply.values[0] && r.cache == cache[key := reply.values[0]]
    ensures key !in cache && r.rate.None? ==> r.cache == cache
  {
    if key in cache then PtaxLookup(Some(cache[key]), cache, 0)
    else
      match reply
      case Rates(values) =>
        if |values| > 0 then PtaxLookup(Some(values[0]), cache[key := values[0]], 1)
        else PtaxLookup(None, cache, 1)
      case _ => PtaxLookup(None, cache, 1)
  }

  /** Once a rate was fetched, asking again for the same day gives the same
      rate without a request, whatever the BCB would answer now; other keys
      keep their cached rates. */
  lemma PtaxCachedAfterSuccess<R>(cache: map<string, R>, key: string, reply: PtaxReply<R>, again: PtaxReply<R>)
    requires FetchPtaxRate(cache, key, reply).rate.Some?
    ensures var first := FetchPtaxRate(cache, key, reply);
      FetchPtaxRate(first.cache, key, again) == PtaxLookup(first.rate, first.cache, 0)
    ensures forall k :: k in cache ==> k in FetchPtaxRate(cache, key, reply).cache && FetchPtaxRate(cache, key, reply).cache[k] == cache[k]
  {
  }

  // ---------------------------------------------------------------------
  // Variation cells

  /** JavaScript falsiness of a quote: null or zero. */
  predicate Falsy(v: Option<real>) {
    v.None? || v.value == 0.0
  }

  /** `calculateVariation(current, previous)`: the percentage change, or
      null when either operand is falsy. */
  function CalculateVariation(current: Option<real>, previous: Option<real>): (r: Option<real>)
    ensures r.None? <==> Falsy(current) || Falsy(previous)
    ensures r.Some? ==> r.value * previous.value == (current.value - previous.value) * 100.0
  {
    if Falsy(current) || Falsy(previous) then None
    else Some(((current.value - previous.value) / previous.value) * 100.0)
  }

  datatype VariationCell = Dash | Cell(className: string, text: string)

  function Abs(x: real): real {
    if x < 0.0 then -x else x
  }

  /** `createVariationCell`: `-` for null, otherwise the magnitude in a cell
      classed by the sign. `format` stands for the locale formatter. */
  function CreateVariationCell(v: Option<real>, format: real -> string): (c: VariationCell)
    ensures c.Dash? <==> v.None?
    ensures c.Cell? ==> c.text == format(Abs(v.value))
  {
    if v.None? then Dash
    else Cell(if v.value >= 0.0 then "variation-positive" else "variation-negative", format(Abs(v.value)))
  }

  /** For a positive previous price, the cell is classed positive exactly
      when the price did not fall; a falsy operand gives `-`; a rise and a
      fall of the same size show the same text. */
  lemma VariationCellMeaning(current: Option<real>, previous: Option<real>, format: real -> string)
    ensures Falsy(current) || Falsy(previous) ==> CreateVariationCell(CalculateVariation(current, previous), format) == Dash
    ensures !Falsy(current) && !Falsy(previous) && previous.value > 0.0 ==>
      CreateVariationCell(CalculateVariation(current, previous), format).className ==
        (if current.value >= previous.value then "variation-positive" else "variation-negative")
    ensures forall x: real :: CreateVariationCell(Some(x), format).text == CreateVariationCell(Some(-x), format).text
  {
    if !Falsy(current) && !Falsy(previous) && previous.value > 0.0 {
      var c, p := current.value, previous.value;
      var q := (c - p) / p;
      assert q * p == c - p;
      assert q >= 0.0 <==> c >= p;
    }
  }
}
