/** What the consumption-analysis page shows of the imported records: the
    filters (a date range, an alloy, a client), the table newest first
    with the variation of the net quantity against the next row, and the
    options of the filter selects.

    Instants are milliseconds since the epoch, in UTC; the browser's time
    zone enters as `offset`, the milliseconds local time is ahead of UTC
    (negative west of Greenwich: -3 hours in Brasília). */
module Consumption {
  import opened Wrappers
  import opened Gregorian
  import Text
  import Dashboard
  import Spreadsheet

  type Record = Spreadsheet.Record
  type Day = Dashboard.Day

  const MS_PER_DAY := 86400000

  /** `setHours(23, 59, 59, 999)`: the last millisecond of a day. */
  const LAST_MS := 86399999

  /** Brasília time, three hours behind UTC. */
  const BRASILIA := -10800000

  /** A time zone less than a day away from UTC. */
  predicate RealOffset(offset: int) {
    -MS_PER_DAY < offset < MS_PER_DAY
  }

  // ---------------------------------------------------------------------
  // Instants

  /** `new Date(year, monthIndex, day)`: local midnight of the day. */
  function LocalMidnight(d: Day, offset: int): int {
    DayNumber(d) * MS_PER_DAY - offset
  }

  /** `new Date("YYYY-MM-DD")`: a date-only ISO string is read as UTC
      midnight. */
  function IsoMidnight(d: Day): int {
    DayNumber(d) * MS_PER_DAY
  }

  /** The local day number of an instant. */
  function LocalDay(t: int, offset: int): int {
    (t + offset) / MS_PER_DAY
  }

  /** `setHours(23, 59, 59, 999)`: the last millisecond of the instant's
      local day. */
  function EndOfLocalDay(t: int, offset: int): (r: int)
    ensures LocalDay(r, offset) == LocalDay(t, offset)
  {
    var k := LocalDay(t, offset);
    DayOfShift(k, LAST_MS);
    k * MS_PER_DAY + LAST_MS - offset
  }

  /** A day's start shifted by less than a day either way falls in that day
      or the one before. */
  lemma DayOfShift(k: int, o: int)
    requires -MS_PER_DAY < o < MS_PER_DAY
    ensures (k * MS_PER_DAY + o) / MS_PER_DAY == if o < 0 then k - 1 else k
  {
    var t := k * MS_PER_DAY + o;
    var q := t / MS_PER_DAY;
    assert t == q * MS_PER_DAY + t % MS_PER_DAY;
    if o < 0 {
      assert (k - 1) * MS_PER_DAY <= t < k * MS_PER_DAY;
    } else {
      assert k * MS_PER_DAY <= t < (k + 1) * MS_PER_DAY;
    }
  }

  /** Local midnight lies in its own local day. */
  lemma LocalMidnightDay(d: Day, offset: int)
    ensures LocalDay(LocalMidnight(d, offset), offset) == DayNumber(d)
  {
    DayOfShift(DayNumber(d), 0);
  }

  // ---------------------------------------------------------------------
  // The date range as written

  /** `item.dataProducao >= dataIni` with `dataIni = new Date(dataInicial.value)`. */
  predicate AfterStart(r: Record, start: Day, offset: int) {
    LocalMidnight(r.dataProducao, offset) >= IsoMidnight(start)
  }

  /** `item.dataProducao <= dataFim` with `dataFim = new Date(dataFinal.value)`
      moved to 23:59:59.999 of its local day. */
  predicate BeforeEnd(r: Record, end: Day, offset: int) {
    LocalMidnight(r.dataProducao, offset) <= EndOfLocalDay(IsoMidnight(end), offset)
  }

  /** West of UTC and in UTC the start of the range is the chosen day; east
      of UTC that day is left out. */
  lemma AfterStartByDay(r: Record, start: Day, offset: int)
    requires RealOffset(offset)
    ensures offset <= 0 ==> (AfterStart(r, start, offset) <==> DayNumber(start) <= DayNumber(r.dataProducao))
    ensures offset > 0 ==> (AfterStart(r, start, offset) <==> DayNumber(start) < DayNumber(r.dataProducao))
  {
  }

  /** In UTC and east of it the end of the range is the chosen day; west
      of UTC the instant lands on the local day before, so the chosen day
      is left out. */
  lemma BeforeEndByDay(r: Record, end: Day, offset: int)
    requires RealOffset(offset)
    ensures offset >= 0 ==> (BeforeEnd(r, end, offset) <==> DayNumber(r.dataProducao) <= DayNumber(end))
    ensures offset < 0 ==> (BeforeEnd(r, end, offset) <==> DayNumber(r.dataProducao) < DayNumber(end))
  {
    var e := DayNumber(end);
    DayOfShift(e, offset);
    var k := LocalDay(IsoMidnight(end), offset);
    assert EndOfLocalDay(IsoMidnight(end), offset) == k * MS_PER_DAY + LAST_MS - offset;
    var n := DayNumber(r.dataProducao);
    assert BeforeEnd(r, end, offset) <==> n * MS_PER_DAY <= k * MS_PER_DAY + LAST_MS;
    assert n * MS_PER_DAY <= k * MS_PER_DAY + LAST_MS <==> n <= k by {
      if n > k { assert n * MS_PER_DAY >= (k + 1) * MS_PER_DAY; }
    }
  }

  /** In Brasília a production on the last day of the range is filtered
      out. */
  lemma FinalDayDroppedInBrasilia(r: Record)
    ensures !BeforeEnd(r, r.dataProducao, BRASILIA)
  {
    BeforeEndByDay(r, r.dataProducao, BRASILIA);
  }

  // ---------------------------------------------------------------------
  // The date range by day

  /** The range compared with the chosen days read as local dates
      (`new Date(year, month - 1, day)`), as the comment "include the whole
      last day" intends. */
  predicate AfterStartLocal(r: Record, start: Day, offset: int) {
    LocalMidnight(r.dataProducao, offset) >= LocalMidnight(start, offset)
  }

  predicate BeforeEndLocal(r: Record, end: Day, offset: int) {
    LocalMidnight(r.dataProducao, offset) <= EndOfLocalDay(LocalMidnight(end, offset), offset)
  }

  /** Read as local dates, the range holds exactly the records from the
      first chosen day to the last, both included, in every time zone. */
  lemma LocalRangeByDay(r: Record, start: Day, end: Day, offset: int)
    requires RealOffset(offset)
    ensures AfterStartLocal(r, start, offset) <==> DayNumber(start) <= DayNumber(r.dataProducao)
    ensures BeforeEndLocal(r, end, offset) <==> DayNumber(r.dataProducao) <= DayNumber(end)
  {
    var e := DayNumber(end);
    LocalMidnightDay(end, offset);
    var n := DayNumber(r.dataProducao);
    assert EndOfLocalDay(LocalMidnight(end, offset), offset) == e * MS_PER_DAY + LAST_MS - offset;
    assert n * MS_PER_DAY <= e * MS_PER_DAY + LAST_MS <==> n <= e by {
      if n > e { assert n * MS_PER_DAY >= (e + 1) * MS_PER_DAY; }
    }
  }

  // ---------------------------------------------------------------------
  // The filters

  /** The filter inputs: the two dates (`None` for an empty input), and
      the selected alloy and client (`""` for "all"). */
  datatype Filters = Filters(start: Option<Day>, end: Option<Day>, liga: string, cliente: string)

  /** The alloy and client selects keep a record when nothing is selected
      or the record's value is the one selected. */
  predicate SelectsKeep(f: Filters, r: Record) {
    (f.liga == "" || r.liga == f.liga) && (f.cliente == "" || r.cliente == f.cliente)
  }

  /** The four filters of `aplicarFiltrosDados` as written. */
  predicate KeepsAsWritten(f: Filters, r: Record, offset: int) {
    (f.start.None? || AfterStart(r, f.start.value, offset))
    && (f.end.None? || BeforeEnd(r, f.end.value, offset))
    && SelectsKeep(f, r)
  }

  /** The four filters with the range taken by day. */
  predicate Keeps(f: Filters, r: Record) {
    (f.start.None? || DayNumber(f.start.value) <= DayNumber(r.dataProducao))
    && (f.end.None? || DayNumber(r.dataProducao) <= DayNumber(f.end.value))
    && SelectsKeep(f, r)
  }

  function Filter(data: seq<Record>, keep: Record -> bool): (r: seq<Record>)
    ensures forall x :: x in r <==> x in data && keep(x)
    ensures multiset(r) <= multiset(data)
  {
    if data == [] then []
    else
      var rest := Filter(data[1..], keep);
      assert data == [data[0]] + data[1..];
      if keep(data[0]) then [data[0]] + rest else rest
  }

  /** The date order: `a.dataProducao - b.dataProducao`. */
  function ByDate(r: Record): int {
    DayNumber(r.dataProducao)
  }

  /** `aplicarFiltrosDados` as written: nothing without imported data,
      otherwise the records the filters keep, oldest first. */
  function ApplyFiltersAsWritten(data: seq<Record>, f: Filters, offset: int): (r: Option<seq<Record>>)
    ensures r.None? <==> data == []
  {
    if data == [] then None
    else Some(SortBy(Filter(data, x => KeepsAsWritten(f, x, offset)), ByDate))
  }

  /** `aplicarFiltrosDados` with the range taken by day. */
  function ApplyFilters(data: seq<Record>, f: Filters): (r: Option<seq<Record>>)
    ensures r.None? <==> data == []
  {
    if data == [] then None
    else Some(SortBy(Filter(data, x => Keeps(f, x)), ByDate))
  }

  /** The filtered records are the imported ones the filters keep, each as
      often as it was imported, oldest first. */
  lemma ApplyFiltersKeeps(data: seq<Record>, f: Filters)
    requires data != []
    ensures var s := ApplyFilters(data, f).value;
      (forall x :: x in s <==> x in data && Keeps(f, x))
      && multiset(s) <= multiset(data)
      && Ascending(s, ByDate)
  {
    var kept := Filter(data, x => Keeps(f, x));
    var s := SortBy(kept, ByDate);
    SameMembers(s, kept);
  }

  lemma SameMembers<T>(a: seq<T>, b: seq<T>)
    requires multiset(a) == multiset(b)
    ensures forall x :: x in a <==> x in b
  {
    forall x ensures x in a <==> x in b {
      assert x in a <==> x in multiset(a);
      assert x in b <==> x in multiset(b);
    }
  }

  /** With the browser on UTC the filters as written keep what the
      filters by day keep. */
  lemma AsWrittenAgreesInUtc(data: seq<Record>, f: Filters)
    ensures ApplyFiltersAsWritten(data, f, 0) == ApplyFilters(data, f)
  {
    var k1 := (x: Record) => KeepsAsWritten(f, x, 0);
    var k2 := (x: Record) => Keeps(f, x);
    forall x: Record ensures k1(x) == k2(x) {
      if f.start.Some? { AfterStartByDay(x, f.start.value, 0); }
      if f.end.Some? { BeforeEndByDay(x, f.end.value, 0); }
    }
    FilterCongruent(data, k1, k2);
  }

  lemma {:induction false} FilterCongruent(data: seq<Record>, k1: Record -> bool, k2: Record -> bool)
    requires forall x :: k1(x) == k2(x)
    ensures Filter(data, k1) == Filter(data, k2)
  {
    if data != [] {
      FilterCongruent(data[1..], k1, k2);
    }
  }

  // ---------------------------------------------------------------------
  // Sorting

  predicate Ascending<T>(s: seq<T>, key: T -> int) {
    forall i, j :: 0 <= i < j < |s| ==> key(s[i]) <= key(s[j])
  }

  /** Places `x` after every element whose key is not greater, so equal
      keys keep their order of arrival. */
  function InsertBy<T>(x: T, s: seq<T>, key: T -> int): (r: seq<T>)
    requires Ascending(s, key)
    ensures Ascending(r, key)
    ensures multiset(r) == multiset(s) + multiset{x}
  {
    if s == [] then [x]
    else if key(x) < key(s[0]) then
      PrependSmallest(x, s, key);
      [x] + s
    else
      var rest := InsertBy(x, s[1..], key);
      assert s == [s[0]] + s[1..];
      BoundedAfterInsert(rest, s[1..], x, key, key(s[0]));
      PrependSmallest(s[0], rest, key);
      [s[0]] + rest
  }

  lemma PrependSmallest<T>(x: T, s: seq<T>, key: T -> int)
    requires Ascending(s, key) && (s != [] ==> key(x) <= key(s[0]))
    ensures Ascending([x] + s, key)
  {
    var r := [x] + s;
    forall i, j | 0 <= i < j < |r| ensures key(r[i]) <= key(r[j]) {
      if i == 0 {
        assert r[j] == s[j - 1];
        assert key(s[0]) <= key(s[j - 1]);
      } else {
        assert r[i] == s[i - 1] && r[j] == s[j - 1];
      }
    }
  }

  lemma BoundedAfterInsert<T>(r: seq<T>, t: seq<T>, x: T, key: T -> int, k: int)
    requires multiset(r) == multiset(t) + multiset{x}
    requires Ascending(t, key) && (t != [] ==> k <= key(t[0])) && k <= key(x)
    ensures r != [] && k <= key(r[0])
  {
    assert r[0] in multiset(r);
    if r[0] != x {
      assert r[0] in multiset(t);
      var j :| 0 <= j < |t| && t[j] == r[0];
      assert j == 0 || key(t[0]) <= key(t[j]);
    }
  }

  /** `sort` with a comparator on `key`: stable, by insertion. */
  function SortBy<T>(xs: seq<T>, key: T -> int): (r: seq<T>)
    ensures Ascending(r, key)
    ensures multiset(r) == multiset(xs)
  {
    if xs == [] then []
    else
      var n := |xs| - 1;
      assert xs == xs[..n] + [xs[n]];
      InsertBy(xs[n], SortBy(xs[..n], key), key)
  }

  // ---------------------------------------------------------------------
  // The table

  /** The last column of a row: `-` on the last row, `NaN%` when either
      quantity is zero, otherwise the percentage and its colour. */
  datatype Variation = NoVariation | NaNPercent | Percent(positive: bool, value: real)

  /** `calcularVariacao(index, dadosFiltrados)`: the net quantity of a row
      against that of the row below it (the next older production). */
  function VariationAt(s: seq<Record>, i: nat): (r: Variation)
    requires i < |s|
    ensures r.NoVariation? <==> i == |s| - 1
    ensures r.NaNPercent? <==> i < |s| - 1 && (s[i].qtLiquida == 0.0 || s[i + 1].qtLiquida == 0.0)
  {
    if i == |s| - 1 then NoVariation
    else
      var atual := s[i].qtLiquida;
      var proximo := s[i + 1].qtLiquida;
      if atual == 0.0 || proximo == 0.0 then NaNPercent
      else
        var v := Dashboard.Variation(atual, proximo).value;
        Percent(v >= 0.0, v)
  }

  /** The percentage is the change from the row below, and below a
      positive quantity it is shown as a gain exactly when the row's
      quantity is at least as large. */
  lemma VariationAtMeaning(s: seq<Record>, i: nat)
    requires i < |s| && VariationAt(s, i).Percent?
    ensures Some(VariationAt(s, i).value) == Dashboard.Variation(s[i].qtLiquida, s[i + 1].qtLiquida)
    ensures s[i + 1].qtLiquida > 0.0 ==> (VariationAt(s, i).positive <==> s[i].qtLiquida >= s[i + 1].qtLiquida)
  {
  }

  /** One table row: the record (shown as date, client, alloy, gross and
      net quantity, efficiency) and the variation column. */
  datatype TableRow = TableRow(record: Record, variation: Variation)

  /** Newest first: `b.dataProducao - a.dataProducao`. */
  function NewestFirst(r: Record): int {
    -DayNumber(r.dataProducao)
  }

  /** `atualizarTabelaAgrupada` (and `updateDataTable` over all the data):
      the records newest first, each with its variation. */
  function TableRows(data: seq<Record>): (rows: seq<TableRow>)
    ensures |rows| == |data|
  {
    var s := SortBy(data, NewestFirst);
    assert |s| == |multiset(s)| == |data|;
    seq(|s|, i requires 0 <= i < |s| => TableRow(s[i], VariationAt(s, i)))
  }

  /** The table lists every record as often as it occurs, runs from the
      newest day to the oldest, and compares each row with the next. */
  lemma TableRowsMeaning(data: seq<Record>)
    ensures var rows := TableRows(data);
      multiset(seq(|rows|, i requires 0 <= i < |rows| => rows[i].record)) == multiset(data)
      && (forall i, j :: 0 <= i < j < |rows| ==> DayNumber(rows[j].record.dataProducao) <= DayNumber(rows[i].record.dataProducao))
      && (forall i :: 0 <= i < |rows| ==> rows[i].variation == VariationAt(seq(|rows|, k requires 0 <= k < |rows| => rows[k].record), i))
  {
    var s := SortBy(data, NewestFirst);
    var rows := TableRows(data);
    var recs := seq(|rows|, i requires 0 <= i < |rows| => rows[i].record);
    assert recs == s;
    forall i, j | 0 <= i < j < |rows| ensures DayNumber(rows[j].record.dataProducao) <= DayNumber(rows[i].record.dataProducao) {
      assert NewestFirst(s[i]) <= NewestFirst(s[j]);
    }
  }

  // ---------------------------------------------------------------------
  // The filter selects

  /** The alloy select: "all" and then the fixed list. */
  const ALLOY_OPTIONS: seq<string> := [""] + Spreadsheet.LIGAS

  /** Strictly increasing in the string order, hence without repeats. */
  predicate StrictlySorted(s: seq<string>) {
    forall i :: 0 <= i < |s| - 1 ==> Text.Less(s[i], s[i + 1])
  }

  /** Adds `x` to a strictly sorted list unless it is already there. */
  function InsertDistinct(x: string, s: seq<string>): (r: seq<string>)
    requires StrictlySorted(s)
    ensures StrictlySorted(r)
    ensures forall c :: c in r <==> c == x || c in s
    ensures r != [] && (r[0] == x || (s != [] && r[0] == s[0]))
  {
    if s == [] then [x]
    else if x == s[0] then s
    else if Text.Less(x, s[0]) then
      assert StrictlySorted([x] + s) by {
        forall i | 0 <= i < |s| ensures Text.Less(([x] + s)[i], ([x] + s)[i + 1]) {
          if i > 0 { assert ([x] + s)[i] == s[i - 1] && ([x] + s)[i + 1] == s[i]; }
        }
      }
      [x] + s
    else
      Text.LessTotal(x, s[0]);
      var rest := InsertDistinct(x, s[1..]);
      assert forall c :: c in s <==> c == s[0] || c in s[1..];
      var r := [s[0]] + rest;
      assert StrictlySorted(r) by {
        forall i | 0 <= i < |r| - 1 ensures Text.Less(r[i], r[i + 1]) {
          if i > 0 { assert r[i] == rest[i - 1] && r[i + 1] == rest[i]; }
        }
      }
      r
  }

  /** `[...new Set(importedData.map(item => item.cliente))].sort()`. */
  function ClientOptions(data: seq<Record>): (r: seq<string>)
    ensures StrictlySorted(r)
    ensures forall c :: c in r <==> exists i :: 0 <= i < |data| && data[i].cliente == c
  {
    if data == [] then []
    else
      var n := |data| - 1;
      var front := ClientOptions(data[..n]);
      assert forall i :: 0 <= i < n ==> data[..n][i] == data[i];
      InsertDistinct(data[n].cliente, front)
  }

  /** No client is offered twice. */
  lemma {:induction false} StrictlySortedDistinct(s: seq<string>)
    requires StrictlySorted(s)
    ensures forall i, j :: 0 <= i < j < |s| ==> Text.Less(s[i], s[j]) && s[i] != s[j]
  {
    if |s| > 1 {
      var t := s[1..];
      assert StrictlySorted(t) by {
        forall i | 0 <= i < |t| - 1 ensures Text.Less(t[i], t[i + 1]) {
          assert t[i] == s[i + 1] && t[i + 1] == s[i + 2];
        }
      }
      StrictlySortedDistinct(t);
      forall i, j | 0 <= i < j < |s| ensures Text.Less(s[i], s[j]) && s[i] != s[j] {
        if i == 0 {
          if j > 1 {
            assert Text.Less(t[0], t[j - 1]);
            Text.LessTransitive(s[0], s[1], s[j]);
          }
          Text.LessTotal(s[0], s[j]);
        } else {
          assert s[i] == t[i - 1] && s[j] == t[j - 1];
        }
      }
    }
  }

  /** The client options list each client of the data once, in string
      order. */
  lemma ClientOptionsDistinct(data: seq<Record>)
    ensures var r := ClientOptions(data);
      forall i, j :: 0 <= i < j < |r| ==> Text.Less(r[i], r[j]) && r[i] != r[j]
  {
    StrictlySortedDistinct(ClientOptions(data));
  }
}
