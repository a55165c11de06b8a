/** Column sorting of the weekly price table (`sortTableByColumn` in
    `script.js`): the rows are grouped by their `data-week`, the day rows of
    each week are sorted by one column with `-` placed after the numbers
    when ascending and before them when descending, and the weeks are laid
    out in descending order, each followed by its average row.

    A cell's number (`parseFloat` of the Brazilian spelling) is a parameter
    `value`; the sort is the stable insertion sort JavaScript's `sort`
    behaves as. */
module PriceTable {
  import opened Wrappers

  /** One `<tr>`: its week, whether it is the week's average row, and the
      text of its cells. */
  datatype TableRow = TableRow(week: int, isAverage: bool, cells: seq<string>)

  // ---------------------------------------------------------------------
  // The comparator

  /** `a` may stand before `b`: the comparator of `sortTableByColumn`
      returns at most 0. */
  predicate CellsInOrder(a: string, b: string, ascending: bool, value: string -> real) {
    if a == "-" && b == "-" then true
    else if a == "-" then !ascending
    else if b == "-" then ascending
    else if ascending then value(a) <= value(b)
    else value(b) <= value(a)
  }

  /** The comparator is a total preorder, as a sort needs. */
  lemma CellsInOrderPreorder(a: string, b: string, c: string, ascending: bool, value: string -> real)
    ensures CellsInOrder(a, b, ascending, value) || CellsInOrder(b, a, ascending, value)
    ensures CellsInOrder(a, b, ascending, value) && CellsInOrder(b, c, ascending, value) ==> CellsInOrder(a, c, ascending, value)
  {
  }

  /** Every row of `rows` has the sort column. */
  predicate HasColumn(rows: seq<TableRow>, col: nat) {
    forall x :: x in rows ==> col < |x.cells|
  }

  predicate SortedBy(rows: seq<TableRow>, col: nat, ascending: bool, value: string -> real)
    requires HasColumn(rows, col)
  {
    forall i, j :: 0 <= i < j < |rows| ==> CellsInOrder(rows[i].cells[col], rows[j].cells[col], ascending, value)
  }

  // ---------------------------------------------------------------------
  // Stable insertion sort

  /** Insert `x` after every row that may precede it. */
  function Insert(x: TableRow, s: seq<TableRow>, col: nat, ascending: bool, value: string -> real): (r: seq<TableRow>)
    requires col < |x.cells| && HasColumn(s, col) && SortedBy(s, col, ascending, value)
    ensures HasColumn(r, col) && SortedBy(r, col, ascending, value)
    ensures multiset(r) == multiset(s) + multiset{x}
  {
    if |s| == 0 then [x]
    else if !CellsInOrder(s[0].cells[col], x.cells[col], ascending, value) then
      var r := [x] + s;
      forall j | 0 < j < |r|
        ensures CellsInOrder(x.cells[col], r[j].cells[col], ascending, value)
      {
        CellsInOrderPreorder(x.cells[col], s[0].cells[col], r[j].cells[col], ascending, value);
      }
      r
    else
      var rest := Insert(x, s[1..], col, ascending, value);
      assert s == [s[0]] + s[1..];
      var r := [s[0]] + rest;
      forall j | 0 < j < |r|
        ensures CellsInOrder(s[0].cells[col], r[j].cells[col], ascending, value)
      {
        assert r[j] in multiset(rest);
        if r[j] != x {
          assert r[j] in s[1..];
          var k :| 0 <= k < |s[1..]| && s[1..][k] == r[j];
          assert s[k + 1] == r[j];
        }
      }
      r
  }

  /** The rows sorted by column `col`, equal rows keeping their order. */
  function SortRows(s: seq<TableRow>, col: nat, ascending: bool, value: string -> real): (r: seq<TableRow>)
    requires HasColumn(s, col)
    ensures HasColumn(r, col) && SortedBy(r, col, ascending, value)
    ensures multiset(r) == multiset(s)
  {
    if |s| == 0 then []
    else
      assert s == s[..|s| - 1] + [s[|s| - 1]];
      Insert(s[|s| - 1], SortRows(s[..|s| - 1], col, ascending, value), col, ascending, value)
  }

  /** Where the `-` cells end up in sorted day rows: after all numbers when
      ascending, before all numbers when descending. */
  lemma DashPlacement(s: seq<TableRow>, col: nat, ascending: bool, value: string -> real, i: int, j: int)
    requires HasColumn(s, col) && SortedBy(s, col, ascending, value)
    requires 0 <= i < j < |s|
    ensures ascending && s[i].cells[col] == "-" ==> s[j].cells[col] == "-"
    ensures !ascending && s[j].cells[col] == "-" ==> s[i].cells[col] == "-"
  {
    assert CellsInOrder(s[i].cells[col], s[j].cells[col], ascending, value);
  }

  // ---------------------------------------------------------------------
  // Weeks

  predicate Decreasing(s: seq<int>) {
    forall i, j :: 0 <= i < j < |s| ==> s[i] > s[j]
  }

  function InsertDesc(x: int, s: seq<int>): (r: seq<int>)
    requires Decreasing(s)
    ensures Decreasing(r)
    ensures forall y :: y in r <==> y == x || y in s
  {
    if |s| == 0 then [x]
    else if x > s[0] then [x] + s
    else if x == s[0] then s
    else
      var rest := InsertDesc(x, s[1..]);
      assert forall y :: y in s[1..] ==> y < s[0];
      var r := [s[0]] + rest;
      assert forall j :: 0 < j < |r| ==> r[j] in rest;
      r
  }

  /** The distinct weeks of the table, largest first: `Object.entries`
      sorted by `b[0] - a[0]`. */
  function WeekOrder(rows: seq<TableRow>): (r: seq<int>)
    ensures Decreasing(r)
    ensures forall w :: w in r <==> exists x :: x in rows && x.week == w
  {
    if |rows| == 0 then []
    else
      var r := InsertDesc(rows[|rows| - 1].week, WeekOrder(rows[..|rows| - 1]));
      assert rows == rows[..|rows| - 1] + [rows[|rows| - 1]];
      r
  }

  /** The day rows of week `w`, in table order. */
  function DayRows(rows: seq<TableRow>, w: int): (r: seq<TableRow>)
    ensures forall x :: x in r <==> x in rows && !x.isAverage && x.week == w
  {
    if |rows| == 0 then []
    else (if !rows[0].isAverage && rows[0].week == w then [rows[0]] else []) + DayRows(rows[1..], w)
  }

  /** The week's average row: the last one seen, as each overwrites the
      previous. */
  function AverageOf(rows: seq<TableRow>, w: int): (r: Option<TableRow>)
    ensures r.Some? ==> r.value in rows && r.value.isAverage && r.value.week == w
    ensures r.None? <==> forall x :: x in rows ==> !(x.isAverage && x.week == w)
  {
    if |rows| == 0 then None
    else
      var rest := AverageOf(rows[1..], w);
      if rest.Some? then rest
      else if rows[0].isAverage && rows[0].week == w then Some(rows[0])
      else None
  }

  predicate DayRowsHaveColumn(rows: seq<TableRow>, col: nat) {
    forall x :: x in rows && !x.isAverage ==> col < |x.cells|
  }

  /** One week as it is put back: its sorted day rows, then its average row. */
  function Block(rows: seq<TableRow>, w: int, col: nat, ascending: bool, value: string -> real): (r: seq<TableRow>)
    requires DayRowsHaveColumn(rows, col)
  {
    SortRows(DayRows(rows, w), col, ascending, value)
      + (match AverageOf(rows, w) case Some(a) => [a] case None => [])
  }

  /** The blocks of the weeks `ws`, in that order. */
  function Layout(rows: seq<TableRow>, ws: seq<int>, col: nat, ascending: bool, value: string -> real): (bs: seq<seq<TableRow>>)
    requires DayRowsHaveColumn(rows, col)
    ensures |bs| == |ws|
  {
    seq(|ws|, k requires 0 <= k < |ws| => Block(rows, ws[k], col, ascending, value))
  }

  function Flatten(bs: seq<seq<TableRow>>): seq<TableRow> {
    if |bs| == 0 then [] else bs[0] + Flatten(bs[1..])
  }

  /** `sortTableByColumn(col, ascending)`: the tbody emptied and refilled
      week by week. Only the day rows are compared, so only they need the
      column. */
  function SortTableByColumn(rows: seq<TableRow>, col: nat, ascending: bool, value: string -> real): (r: seq<TableRow>)
    requires DayRowsHaveColumn(rows, col)
    ensures forall x :: x in r ==> x in rows
  {
    LayoutFromTable(rows, WeekOrder(rows), col, ascending, value);
    Flatten(Layout(rows, WeekOrder(rows), col, ascending, value))
  }

  /** Whatever the weeks, the laid-out rows are rows of the table. */
  lemma LayoutFromTable(rows: seq<TableRow>, ws: seq<int>, col: nat, ascending: bool, value: string -> real)
    requires DayRowsHaveColumn(rows, col)
    ensures forall x :: x in Flatten(Layout(rows, ws, col, ascending, value)) ==> x in rows
  {
    var bs := Layout(rows, ws, col, ascending, value);
    LayoutShaped(rows, ws, col, ascending, value);
    forall x | x in Flatten(bs)
      ensures x in rows
    {
      FlattenMembers(bs, x);
    }
  }

  // ---------------------------------------------------------------------
  // What the layout guarantees

  predicate AllOfWeek(b: seq<TableRow>, w: int) {
    forall x :: x in b ==> x.week == w
  }

  predicate AverageOnlyLast(b: seq<TableRow>) {
    forall i :: 0 <= i < |b| - 1 ==> !b[i].isAverage
  }

  /** Block `k` holds rows of week `ws[k]` only, with an average row only at its end. */
  predicate Shaped(bs: seq<seq<TableRow>>, ws: seq<int>) {
    |bs| == |ws| && forall k :: 0 <= k < |bs| ==> AllOfWeek(bs[k], ws[k]) && AverageOnlyLast(bs[k])
  }

  predicate WeeksNonIncreasing(r: seq<TableRow>) {
    forall i, j :: 0 <= i < j < |r| ==> r[i].week >= r[j].week
  }

  /** The row after an average row belongs to an earlier week. */
  predicate AveragesCloseWeeks(r: seq<TableRow>) {
    forall i :: 0 <= i < |r| - 1 && r[i].isAverage ==> r[i + 1].week < r[i].week
  }

  /** A block holds rows of its week taken from the table, and no row but
      the last is an average row. */
  lemma BlockShape(rows: seq<TableRow>, w: int, col: nat, ascending: bool, value: string -> real)
    requires DayRowsHaveColumn(rows, col)
    ensures AllOfWeek(Block(rows, w, col, ascending, value), w)
    ensures AverageOnlyLast(Block(rows, w, col, ascending, value))
    ensures forall x :: x in Block(rows, w, col, ascending, value) ==> x in rows
  {
    var days := SortRows(DayRows(rows, w), col, ascending, value);
    forall x | x in days
      ensures x.week == w && x in rows && !x.isAverage
    {
      assert x in multiset(days);
    }
  }

  lemma LayoutShaped(rows: seq<TableRow>, ws: seq<int>, col: nat, ascending: bool, value: string -> real)
    requires DayRowsHaveColumn(rows, col)
    ensures Shaped(Layout(rows, ws, col, ascending, value), ws)
    ensures forall k, x :: 0 <= k < |ws| && x in Layout(rows, ws, col, ascending, value)[k] ==> x in rows
  {
    forall k | 0 <= k < |ws|
      ensures AllOfWeek(Layout(rows, ws, col, ascending, value)[k], ws[k])
      ensures AverageOnlyLast(Layout(rows, ws, col, ascending, value)[k])
      ensures forall x :: x in Layout(rows, ws, col, ascending, value)[k] ==> x in rows
    {
      BlockShape(rows, ws[k], col, ascending, value);
    }
  }

  lemma {:induction false} FlattenMembers(bs: seq<seq<TableRow>>, x: TableRow)
    ensures x in Flatten(bs) <==> exists k :: 0 <= k < |bs| && x in bs[k]
  {
    if |bs| > 0 {
      FlattenMembers(bs[1..], x);
      if x in Flatten(bs[1..]) {
        var k :| 0 <= k < |bs[1..]| && x in bs[1..][k];
        assert x in bs[k + 1];
      }
      if exists k :: 0 <= k < |bs| && x in bs[k] {
        var k :| 0 <= k < |bs| && x in bs[k];
        if k > 0 {
          assert x in bs[1..][k - 1];
        }
      }
    }
  }

  lemma {:induction false} FlattenWeeks(bs: seq<seq<TableRow>>, ws: seq<int>)
    requires Shaped(bs, ws)
    ensures forall x :: x in Flatten(bs) ==> x.week in ws
  {
    forall x | x in Flatten(bs)
      ensures x.week in ws
    {
      FlattenMembers(bs, x);
      var k :| 0 <= k < |bs| && x in bs[k];
      assert AllOfWeek(bs[k], ws[k]);
    }
  }

  lemma ConcatDescending(b: seq<TableRow>, rest: seq<TableRow>, w: int)
    requires AllOfWeek(b, w)
    requires forall x :: x in rest ==> x.week < w
    requires WeeksNonIncreasing(rest)
    ensures WeeksNonIncreasing(b + rest)
  {
    var r := b + rest;
    forall i, j | 0 <= i < j < |r|
      ensures r[i].week >= r[j].week
    {
      if j < |b| {
        assert r[i] in b && r[j] in b;
      } else if i < |b| {
        assert r[i] in b && r[j] == rest[j - |b|];
        assert rest[j - |b|] in rest;
      } else {
        assert r[i] == rest[i - |b|] && r[j] == rest[j - |b|];
      }
    }
  }

  lemma ConcatAverageLast(b: seq<TableRow>, rest: seq<TableRow>, w: int)
    requires AllOfWeek(b, w) && AverageOnlyLast(b)
    requires forall x :: x in rest ==> x.week < w
    requires AveragesCloseWeeks(rest)
    ensures AveragesCloseWeeks(b + rest)
  {
    var r := b + rest;
    forall i | 0 <= i < |r| - 1 && r[i].isAverage
      ensures r[i + 1].week < r[i].week
    {
      if i < |b| {
        assert i == |b| - 1;
        assert r[i] in b && r[i + 1] == rest[0];
        assert rest[0] in rest;
      } else {
        assert r[i] == rest[i - |b|] && r[i + 1] == rest[i + 1 - |b|];
      }
    }
  }

  /** Laying out blocks of strictly decreasing weeks gives non-increasing
      weeks, and every average row closes its week. */
  lemma {:induction false} FlattenLayout(bs: seq<seq<TableRow>>, ws: seq<int>)
    requires Shaped(bs, ws) && Decreasing(ws)
    ensures WeeksNonIncreasing(Flatten(bs))
    ensures AveragesCloseWeeks(Flatten(bs))
  {
    if |bs| > 0 {
      assert Shaped(bs[1..], ws[1..]) by {
        forall k | 0 <= k < |bs[1..]|
          ensures AllOfWeek(bs[1..][k], ws[1..][k]) && AverageOnlyLast(bs[1..][k])
        {
          assert bs[1..][k] == bs[k + 1] && ws[1..][k] == ws[k + 1];
        }
      }
      FlattenLayout(bs[1..], ws[1..]);
      FlattenWeeks(bs[1..], ws[1..]);
      assert forall y :: y in ws[1..] ==> y < ws[0];
      assert AllOfWeek(bs[0], ws[0]) && AverageOnlyLast(bs[0]);
      ConcatDescending(bs[0], Flatten(bs[1..]), ws[0]);
      ConcatAverageLast(bs[0], Flatten(bs[1..]), ws[0]);
    }
  }

  /** The sorted table: weeks in descending order, each week's average row
      last in its week, no row invented, and no day row lost. */
  lemma SortTableLayout(rows: seq<TableRow>, col: nat, ascending: bool, value: string -> real)
    requires DayRowsHaveColumn(rows, col)
    ensures WeeksNonIncreasing(SortTableByColumn(rows, col, ascending, value))
    ensures AveragesCloseWeeks(SortTableByColumn(rows, col, ascending, value))
    ensures forall x :: x in SortTableByColumn(rows, col, ascending, value) ==> x in rows
    ensures forall x :: x in rows && !x.isAverage ==> x in SortTableByColumn(rows, col, ascending, value)
  {
    var ws := WeekOrder(rows);
    var bs := Layout(rows, ws, col, ascending, value);
    LayoutShaped(rows, ws, col, ascending, value);
    FlattenLayout(bs, ws);
    forall x | x in Flatten(bs)
      ensures x in rows
    {
      FlattenMembers(bs, x);
    }
    forall x | x in rows && !x.isAverage
      ensures x in Flatten(bs)
    {
      assert x.week in ws;
      var k :| 0 <= k < |ws| && ws[k] == x.week;
      var days := DayRows(rows, x.week);
      assert x in multiset(SortRows(days, col, ascending, value));
      assert x in bs[k];
      FlattenMembers(bs, x);
    }
  }

  /** Within each week the day rows come out sorted by the column, as a
      rearrangement of that week's day rows, with `-` cells last when
      ascending and first when descending. */
  lemma WeekSorted(rows: seq<TableRow>, w: int, col: nat, ascending: bool, value: string -> real)
    requires DayRowsHaveColumn(rows, col)
    ensures var days := SortRows(DayRows(rows, w), col, ascending, value);
      multiset(days) == multiset(DayRows(rows, w))
      && (forall i, j :: 0 <= i < j < |days| ==> CellsInOrder(days[i].cells[col], days[j].cells[col], ascending, value))
      && (forall i, j :: 0 <= i < j < |days| && ascending && days[i].cells[col] == "-" ==> days[j].cells[col] == "-")
      && (forall i, j :: 0 <= i < j < |days| && !ascending && days[j].cells[col] == "-" ==> days[i].cells[col] == "-")
  {
    var days := SortRows(DayRows(rows, w), col, ascending, value);
    forall i, j | 0 <= i < j < |days|
      ensures ascending && days[i].cells[col] == "-" ==> days[j].cells[col] == "-"
      ensures !ascending && days[j].cells[col] == "-" ==> days[i].cells[col] == "-"
    {
      DashPlacement(days, col, ascending, value, i, j);
    }
  }
}
