/** The tables of the front end: the products table with its total row,
    and the dynamic table, whose state (data, filtered rows, sort column and
    direction, current page) changes on header clicks, the filter box, the
    pagination buttons and its API, and whose visible rows are the filtered
    rows, sorted on a copy, cut to the current page.

    A row is an object from field names to values; a missing field reads as
    `undefined`. Values are whole numbers, strings, `null` and `undefined`.
    Markup, listeners and formatters are left out. */
module Tables {
  import opened Wrappers
  import Text
  import Decimal
  import Records

  datatype Value = Number(n: int) | Str(s: string) | Null | Undefined

  type Row = map<string, Value>

  function Cell(row: Row, field: string): Value {
    if field in row then row[field] else Undefined
  }

  /** A column, and whether it has not opted out of sorting
      (`column.sortable !== false`). */
  datatype Column = Column(field: string, sortable: bool)

  datatype Direction = Asc | Desc

  /** The state of one dynamic table. `sortColumn` is `None` until a header
      or `sort` chooses one; `pageSize` comes from the configuration. */
  datatype Table = Table(
    columns: seq<Column>,
    sortable: bool,
    pagination: bool,
    pageSize: nat,
    data: seq<Row>,
    filtered: seq<Row>,
    sortColumn: Option<string>,
    direction: Direction,
    currentPage: int)

  /** The number a value turns into when compared with `<` against a
      non-string: `null` is 0, `undefined` and unreadable text are NaN. */
  function ToNumber(v: Value): Option<int> {
    match v
    case Number(n) => Some(n)
    case Str(s) => Text.JsNumber(s)
    case Null => Some(0)
    case Undefined => None
  }

  /** `a < b` on two values: strings by Text.Less, anything else as
      numbers, and NaN compares false both ways. */
  predicate JsLess(a: Value, b: Value) {
    if a.Str? && b.Str? then Text.Less(a.s, b.s)
    else
      var x := ToNumber(a);
      var y := ToNumber(b);
      x.Some? && y.Some? && x.value < y.value
  }

  /** The comparator of `renderTable` returns a negative number exactly
      when `a` must come before `b`. */
  predicate Before(a: Row, b: Row, field: string, dir: Direction) {
    var x := Cell(a, field);
    var y := Cell(b, field);
    if dir == Asc then JsLess(x, y) else JsLess(y, x)
  }

  /** A stable sort by the comparator: each row goes after every earlier
      row it does not have to precede. */
  function Insert(sorted: seq<Row>, x: Row, field: string, dir: Direction): (r: seq<Row>)
    ensures multiset(r) == multiset(sorted) + multiset{x}
    ensures |r| == |sorted| + 1
  {
    if sorted == [] then [x]
    else
      var n := |sorted| - 1;
      if Before(x, sorted[n], field, dir) then
        assert sorted == sorted[..n] + [sorted[n]];
        Insert(sorted[..n], x, field, dir) + [sorted[n]]
      else sorted + [x]
  }

  function SortRows(xs: seq<Row>, field: string, dir: Direction): (r: seq<Row>)
    ensures multiset(r) == multiset(xs)
    ensures |r| == |xs|
  {
    if xs == [] then []
    else
      var n := |xs| - 1;
      assert xs == xs[..n] + [xs[n]];
      Insert(SortRows(xs[..n], field, dir), xs[n], field, dir)
  }

  predicate Ordered(s: seq<Row>, field: string, dir: Direction) {
    forall i, j :: 0 <= i < j < |s| ==> !Before(s[j], s[i], field, dir)
  }

  /** Every row holds a number in the column (`text` false) or every row
      holds a string there (`text` true): the comparator is a consistent
      order only on such a column. */
  predicate KindColumn(xs: seq<Row>, field: string, text: bool) {
    forall r :: r in xs ==> if text then Cell(r, field).Str? else Cell(r, field).Number?
  }

  predicate NumericColumn(xs: seq<Row>, field: string) {
    KindColumn(xs, field, false)
  }

  predicate TextColumn(xs: seq<Row>, field: string) {
    KindColumn(xs, field, true)
  }

  lemma {:induction false} InsertOrdered(s: seq<Row>, x: Row, field: string, dir: Direction, text: bool)
    requires Ordered(s, field, dir) && KindColumn(s + [x], field, text)
    ensures Ordered(Insert(s, x, field, dir), field, dir)
  {
    if s != [] {
      var n := |s| - 1;
      var last := s[n];
      if Before(x, last, field, dir) {
        var front := s[..n];
        assert KindColumn(front + [x], field, text) by {
          forall r | r in front + [x] ensures if text then Cell(r, field).Str? else Cell(r, field).Number? {
            assert r in s + [x];
          }
        }
        InsertOrdered(front, x, field, dir, text);
        LastAfterInserted(s, x, field, dir, text);
      } else {
        AppendOrdered(s, x, field, dir, text);
      }
    }
  }

  /** On numbers, and on strings, "not before" is transitive. */
  lemma NotBeforeTransitive(a: Row, b: Row, c: Row, field: string, dir: Direction, text: bool)
    requires KindColumn([a, b, c], field, text)
    requires !Before(a, b, field, dir) && !Before(b, c, field, dir)
    ensures !Before(a, c, field, dir)
  {
    assert a in [a, b, c] && b in [a, b, c] && c in [a, b, c];
    if text {
      var x, y, z := Cell(a, field).s, Cell(b, field).s, Cell(c, field).s;
      Text.LessTotal(x, y);
      Text.LessTotal(y, z);
      if dir == Asc {
        if Text.Less(x, z) {
          if Text.Less(y, x) { Text.LessTransitive(y, x, z); }
        }
      } else {
        if Text.Less(z, x) {
          if Text.Less(x, y) { Text.LessTransitive(z, x, y); }
        }
      }
    }
  }

  /** On numbers, and on strings, a row that must come before another is
      not also after it. */
  lemma BeforeAsymmetric(a: Row, b: Row, field: string, dir: Direction, text: bool)
    requires KindColumn([a, b], field, text)
    requires Before(a, b, field, dir)
    ensures !Before(b, a, field, dir)
  {
    assert a in [a, b] && b in [a, b];
    if text { Text.LessTotal(Cell(a, field).s, Cell(b, field).s); }
  }

  lemma AppendOrdered(s: seq<Row>, x: Row, field: string, dir: Direction, text: bool)
    requires s != [] && Ordered(s, field, dir) && KindColumn(s + [x], field, text)
    requires !Before(x, s[|s| - 1], field, dir)
    ensures Ordered(s + [x], field, dir)
  {
    var n := |s| - 1;
    forall i | 0 <= i < |s|
      ensures !Before(x, s[i], field, dir)
    {
      assert s[i] in s + [x] && s[n] in s + [x] && x in s + [x];
      if i < n { NotBeforeTransitive(x, s[n], s[i], field, dir, text); }
    }
  }

  lemma LastAfterInserted(s: seq<Row>, x: Row, field: string, dir: Direction, text: bool)
    requires s != [] && Ordered(s, field, dir) && KindColumn(s + [x], field, text)
    requires Before(x, s[|s| - 1], field, dir)
    requires Ordered(Insert(s[..|s| - 1], x, field, dir), field, dir)
    ensures Ordered(Insert(s, x, field, dir), field, dir)
  {
    var n := |s| - 1;
    var front := s[..n];
    var ins := Insert(front, x, field, dir);
    forall i | 0 <= i < |ins|
      ensures !Before(s[n], ins[i], field, dir)
    {
      assert ins[i] in multiset(front) + multiset{x};
      if ins[i] != x {
        var k :| 0 <= k < |front| && front[k] == ins[i];
        assert s[k] == ins[i];
      } else {
        assert s[n] in s + [x] && x in s + [x];
        BeforeAsymmetric(x, s[n], field, dir, text);
      }
    }
  }

  /** On a column of numbers or a column of strings, the sort orders the
      rows by that column, ascending or descending. */
  lemma SortRowsOrdered(xs: seq<Row>, field: string, dir: Direction)
    requires NumericColumn(xs, field) || TextColumn(xs, field)
    ensures Ordered(SortRows(xs, field, dir), field, dir)
  {
    SortRowsOrderedOn(xs, field, dir, TextColumn(xs, field));
  }

  lemma {:induction false} SortRowsOrderedOn(xs: seq<Row>, field: string, dir: Direction, text: bool)
    requires KindColumn(xs, field, text)
    ensures Ordered(SortRows(xs, field, dir), field, dir)
  {
    if xs != [] {
      var n := |xs| - 1;
      var front := xs[..n];
      assert forall r :: r in front ==> r in xs;
      SortRowsOrderedOn(front, field, dir, text);
      var s := SortRows(front, field, dir);
      forall r | r in s + [xs[n]] ensures if text then Cell(r, field).Str? else Cell(r, field).Number? {
        if r in s { assert r in multiset(front); }
      }
      InsertOrdered(s, xs[n], field, dir, text);
    }
  }

  /** `createDynamicTable`: `null` without a container or without columns;
      otherwise both lists are copies of the data, no sort, page 1. */
  function CreateDynamicTable(containerPresent: bool, columns: seq<Column>, data: seq<Row>,
                              sortable: bool, pagination: bool, pageSize: nat): (r: Option<Table>)
    // `pageSize` defaults to 10 and no code in the repository passes
    // another value; a size of 0 would make the page count infinite.
    requires pageSize >= 1
    ensures r.Some? <==> containerPresent && columns != []
    ensures r.Some? ==> Valid(r.value) && PageInRange(r.value)
    ensures r.Some? ==> r.value.data == data && r.value.filtered == data && r.value.sortColumn.None?
  {
    if !containerPresent || columns == [] then None
    else Some(Table(columns, sortable, pagination, pageSize, data, data, None, Asc, 1))
  }

  /** What every reachable table satisfies: a page size of at least one, a
      page number of at least one, and filtered rows drawn from the data. */
  predicate Valid(t: Table) {
    t.pageSize >= 1 && t.currentPage >= 1 && multiset(t.filtered) <= multiset(t.data)
  }

  /** A click on the header of column `i`: nothing if sorting is off for
      it; the direction flips on the current column; another column is
      sorted ascending. Nothing is reordered: rows are sorted on display. */
  function ClickHeader(t: Table, i: nat): (r: Table)
    requires i < |t.columns|
    ensures r.data == t.data && r.filtered == t.filtered && r.currentPage == t.currentPage
    ensures !(t.sortable && t.columns[i].sortable) ==> r == t
    ensures t.sortable && t.columns[i].sortable ==> r.sortColumn == Some(t.columns[i].field)
    ensures t.sortable && t.columns[i].sortable && t.sortColumn == Some(t.columns[i].field) ==> r.direction != t.direction
    ensures t.sortable && t.columns[i].sortable && t.sortColumn != Some(t.columns[i].field) ==> r.direction == Asc
  {
    if !(t.sortable && t.columns[i].sortable) then t
    else
      var field := t.columns[i].field;
      if t.sortColumn == Some(field) then t.(direction := if t.direction == Asc then Desc else Asc)
      else t.(sortColumn := Some(field), direction := Asc)
  }

  /** Clicking the current sort column twice gives the table back. */
  lemma ClickHeaderTwice(t: Table, i: nat)
    requires i < |t.columns| && t.sortColumn == Some(t.columns[i].field)
    ensures ClickHeader(ClickHeader(t, i), i) == t
  {
  }

  /** The `sort(column, direction)` API. */
  function Sort(t: Table, column: string, dir: Direction): (r: Table)
    ensures r.data == t.data && r.filtered == t.filtered && r.currentPage == t.currentPage
    ensures r.sortColumn == Some(column) && r.direction == dir
  {
    t.(sortColumn := Some(column), direction := dir)
  }

  /** The filtered rows in display order: sorted on a copy when a (truthy)
      sort column is set. */
  function SortedView(t: Table): (r: seq<Row>)
    ensures multiset(r) == multiset(t.filtered)
    ensures (t.sortColumn.None? || t.sortColumn == Some("")) ==> r == t.filtered
  {
    match t.sortColumn
    case Some(field) => if field != "" then SortRows(t.filtered, field, t.direction) else t.filtered
    case None => t.filtered
  }

  /** `slice(start, start + size)` for a start that is not negative. */
  function Window(xs: seq<Row>, start: nat, size: nat): (r: seq<Row>)
    ensures |r| <= size
    ensures forall k :: 0 <= k < |r| ==> start + k < |xs| && r[k] == xs[start + k]
    ensures |r| == if start >= |xs| then 0 else Min(size, |xs| - start)
  {
    if start >= |xs| then [] else xs[start..Min(start + size, |xs|)]
  }

  function Min(a: int, b: int): int {
    if a <= b then a else b
  }

  /** Where page `p` starts: `(p - 1) * pageSize`. */
  function PageStart(page: int, size: nat): (r: nat)
    requires page >= 1
  {
    MulNonNegative(page - 1, size);
    (page - 1) * size
  }

  lemma MulNonNegative(a: nat, b: nat)
    ensures a * b >= 0
  {
  }

  /** The rows `renderTable` shows; none means the empty message. */
  function Displayed(t: Table): (r: seq<Row>)
    requires Valid(t)
    ensures !t.pagination ==> r == SortedView(t)
    ensures t.pagination ==> r == Window(SortedView(t), PageStart(t.currentPage, t.pageSize), t.pageSize)
    ensures forall x :: x in r ==> x in t.filtered
  {
    var view := SortedView(t);
    assert forall x :: x in view ==> x in multiset(t.filtered);
    if t.pagination then Window(view, PageStart(t.currentPage, t.pageSize), t.pageSize) else view
  }

  /** Displaying never reorders the table's own lists, and without a sort
      column the visible page is the window of the filtered rows. */
  lemma VisiblePage(t: Table)
    requires Valid(t) && t.pagination && (t.sortColumn.None? || t.sortColumn == Some(""))
    ensures var start := PageStart(t.currentPage, t.pageSize);
      Displayed(t) == if start >= |t.filtered| then [] else t.filtered[start..Min(start + t.pageSize, |t.filtered|)]
  {
  }

  /** `Math.ceil(filtered.length / pageSize)`. */
  function TotalPages(t: Table): (r: nat)
    requires t.pageSize >= 1
    ensures (r - 1) * t.pageSize < |t.filtered| <= r * t.pageSize || (r == 0 && t.filtered == [])
  {
    (|t.filtered| + t.pageSize - 1) / t.pageSize
  }

  /** The pagination bar has buttons only when there is more than one
      page. */
  predicate PaginationShown(t: Table)
    requires t.pageSize >= 1
  {
    t.pagination && TotalPages(t) > 1
  }

  /** The current page exists, or is the first one of an empty table. */
  predicate PageInRange(t: Table) {
    t.pageSize >= 1 && 1 <= t.currentPage && (t.currentPage <= TotalPages(t) || t.currentPage == 1)
  }

  /** The previous-page button. */
  function PrevPage(t: Table): (r: Table)
    requires Valid(t)
    ensures Valid(r) && r.data == t.data && r.filtered == t.filtered
    ensures r.currentPage == if t.currentPage > 1 then t.currentPage - 1 else t.currentPage
    ensures PageInRange(t) ==> PageInRange(r)
  {
    if t.currentPage > 1 then t.(currentPage := t.currentPage - 1) else t
  }

  /** The next-page button. */
  function NextPage(t: Table): (r: Table)
    requires Valid(t)
    ensures Valid(r) && r.data == t.data && r.filtered == t.filtered
    ensures r.currentPage == if t.currentPage < TotalPages(t) then t.currentPage + 1 else t.currentPage
    ensures PageInRange(t) ==> PageInRange(r)
  {
    if t.currentPage < TotalPages(t) then t.(currentPage := t.currentPage + 1) else t
  }

  /** `goToPage(page)`: pages outside 1..totalPages are ignored. */
  function GoToPage(t: Table, page: int): (r: Table)
    requires Valid(t)
    ensures Valid(r) && r.data == t.data && r.filtered == t.filtered
    ensures r.currentPage == page <==> 1 <= page <= TotalPages(t) || page == t.currentPage
    ensures !(1 <= page <= TotalPages(t)) ==> r == t
    ensures PageInRange(t) ==> PageInRange(r)
  {
    if 1 <= page <= TotalPages(t) then t.(currentPage := page) else t
  }

  /** Inside the page range, the page is empty only when nothing passes
      the filter. */
  lemma PageInRangeShowsRows(t: Table)
    requires Valid(t) && PageInRange(t)
    ensures Displayed(t) == [] <==> t.filtered == []
  {
    if t.pagination && t.filtered != [] {
      var n := |SortedView(t)|;
      assert n == |t.filtered|;
      StartOfPageInRange(t.currentPage, TotalPages(t), t.pageSize, n);
    }
  }

  /** A page not past the last one starts inside the rows. */
  lemma StartOfPageInRange(p: int, pages: nat, size: nat, n: nat)
    requires 1 <= p && (p <= pages || p == 1) && size >= 1 && n >= 1
    requires pages == (n + size - 1) / size
    ensures PageStart(p, size) < n
  {
    if p > 1 {
      assert (pages - 1) * size < n by {
        DivBound(n + size - 1, size);
      }
      MulMonotone(p - 1, pages - 1, size);
    }
  }

  lemma DivBound(a: nat, size: nat)
    requires size >= 1
    ensures (a / size) * size <= a
  {
  }

  lemma MulMonotone(a: nat, b: nat, c: nat)
    requires a <= b
    ensures a * c <= b * c
  {
  }

  /** Every filtered row is on exactly one page: row `i` of the display
      order is on page `i / pageSize + 1`, at position `i % pageSize`. */
  lemma RowOnItsPage(t: Table, i: nat)
    requires Valid(t) && t.pagination && i < |t.filtered|
    ensures var p := i / t.pageSize + 1;
      1 <= p <= TotalPages(t)
      && var shown := Displayed(t.(currentPage := p));
      i % t.pageSize < |shown| && shown[i % t.pageSize] == SortedView(t)[i]
  {
    RowPageExists(t, i);
    RowInWindow(t, i);
  }

  /** On page `i / pageSize + 1`, position `i % pageSize` shows row `i` of
      the display order. */
  lemma RowInWindow(t: Table, i: nat)
    requires Valid(t) && t.pagination && i < |t.filtered|
    ensures var shown := Displayed(t.(currentPage := i / t.pageSize + 1));
      i % t.pageSize < |shown| && shown[i % t.pageSize] == SortedView(t)[i]
  {
    var size := t.pageSize;
    var p := i / size + 1;
    var k := i % size;
    PageOfRow(i, size, |t.filtered|);
    var start := PageStart(p, size);
    var tp := t.(currentPage := p);
    var view := SortedView(t);
    assert Displayed(tp) == Window(view, start, size) by {
      assert SortedView(tp) == view;
    }
    assert |view| == |t.filtered| by {
      assert |multiset(view)| == |multiset(t.filtered)|;
    }
    assert start + k == i;
    WindowAt(view, start, size, k);
    assert Displayed(tp)[k] == view[i];
  }

  /** The page of a filtered row is one of the table's pages. */
  lemma RowPageExists(t: Table, i: nat)
    requires t.pageSize >= 1 && i < |t.filtered|
    ensures 1 <= i / t.pageSize + 1 <= TotalPages(t)
  {
    PageOfRow(i, t.pageSize, |t.filtered|);
  }

  /** Position `k` of a window is row `start + k`, when that row exists. */
  lemma WindowAt(xs: seq<Row>, start: nat, size: nat, k: nat)
    requires k < size && start + k < |xs|
    ensures k < |Window(xs, start, size)| && Window(xs, start, size)[k] == xs[start + k]
  {
  }

  /** Row `i` of `n` lies on page `i / size + 1`, which exists. */
  lemma PageOfRow(i: nat, size: nat, n: nat)
    requires size >= 1 && i < n
    ensures 0 <= i / size && i % size < size
    ensures i / size + 1 <= (n + size - 1) / size
    ensures PageStart(i / size + 1, size) + i % size == i
  {
    var q := i / size;
    assert q * size + i % size == i;
    assert (q + 1) * size <= n + size - 1;
    assert (n + size - 1) / size >= q + 1 by {
      DivLower(n + size - 1, size, q + 1);
    }
  }

  lemma DivLower(a: nat, size: nat, q: nat)
    requires size >= 1 && q * size <= a
    ensures a / size >= q
  {
    if a / size < q {
      assert (a / size + 1) * size <= q * size by {
        MulMonotone(a / size + 1, q, size);
      }
      assert false;
    }
  }

  /** `data.filter(f)`: the rows that pass, in their order. */
  function Keep(xs: seq<Row>, f: Row -> bool): (r: seq<Row>)
    ensures |r| <= |xs|
    ensures multiset(r) <= multiset(xs)
    ensures forall x :: x in r <==> x in xs && f(x)
  {
    if xs == [] then []
    else
      var n := |xs| - 1;
      assert xs == xs[..n] + [xs[n]];
      var front := Keep(xs[..n], f);
      if f(xs[n]) then front + [xs[n]] else front
  }

  /** Filtering twice by the same test changes nothing more. */
  lemma {:induction false} KeepIdempotent(xs: seq<Row>, f: Row -> bool)
    ensures Keep(Keep(xs, f), f) == Keep(xs, f)
  {
    if xs != [] {
      var n := |xs| - 1;
      KeepIdempotent(xs[..n], f);
      var front := Keep(xs[..n], f);
      if f(xs[n]) {
        var k := front + [xs[n]];
        assert k[..|k| - 1] == front;
      }
    }
  }

  /** `String(value)` for the values a text filter reads. */
  function JsString(v: Value): string {
    match v
    case Number(n) => Decimal.IntToString(n)
    case Str(s) => s
    case Null => "null"
    case Undefined => "undefined"
  }

  /** Some column holds a value (not `null`, not `undefined`) whose
      lower-cased text contains the lower-cased query. */
  predicate MatchesQuery(row: Row, columns: seq<Column>, query: string) {
    exists c :: c in columns && !Cell(row, c.field).Null? && !Cell(row, c.field).Undefined?
      && Text.Contains(Text.Lower(JsString(Cell(row, c.field))), Text.Lower(query))
  }

  /** Typing in the filter box: an empty query brings every row back,
      otherwise the rows some column of which matches stay; either way the
      table goes back to page 1. */
  function FilterText(t: Table, query: string): (r: Table)
    requires Valid(t)
    ensures Valid(r) && PageInRange(r)
    ensures r.data == t.data && r.currentPage == 1
    ensures r.sortColumn == t.sortColumn && r.direction == t.direction
    ensures query == "" ==> r.filtered == t.data
    ensures query != "" ==> forall x :: x in r.filtered <==> x in t.data && MatchesQuery(x, t.columns, query)
  {
    var q := Text.Lower(query);
    if q == "" then t.(filtered := t.data, currentPage := 1)
    else t.(filtered := Keep(t.data, x => MatchesQuery(x, t.columns, query)), currentPage := 1)
  }

  /** The `filter(fn)` API: the data rows `fn` accepts, back to page 1. */
  function Filter(t: Table, f: Row -> bool): (r: Table)
    requires Valid(t)
    ensures Valid(r) && PageInRange(r)
    ensures r.data == t.data && r.currentPage == 1
    ensures forall x :: x in r.filtered <==> x in t.data && f(x)
  {
    t.(filtered := Keep(t.data, f), currentPage := 1)
  }

  /** The same query twice keeps the same rows. */
  lemma FilterTextTwice(t: Table, query: string)
    requires Valid(t)
    ensures FilterText(FilterText(t, query), query) == FilterText(t, query)
  {
  }

  /** The `refresh(newData)` API as written: new data replaces both lists
      (an empty array is truthy), but the page and the sort stay. */
  function Refresh(t: Table, newData: Option<seq<Row>>): (r: Table)
    requires Valid(t)
    ensures Valid(r)
    ensures r.currentPage == t.currentPage && r.sortColumn == t.sortColumn && r.direction == t.direction
    ensures newData.None? ==> r == t
    ensures newData.Some? ==> r.data == newData.value && r.filtered == newData.value
  {
    match newData
    case None => t
    case Some(rows) => t.(data := rows, filtered := rows)
  }

  /** Three pages of rows on page 3, refreshed with five rows: the page is
      kept, nothing is shown although five rows pass, and the pagination
      bar, with one page, has no button to go back. */
  lemma RefreshStrandsPage(rows: seq<Row>, fewer: seq<Row>)
    requires |rows| == 25 && |fewer| == 5
    ensures var t := Table([Column("id", true)], true, true, 10, rows, rows, None, Asc, 3);
      var r := Refresh(t, Some(fewer));
      PageInRange(t) && Displayed(r) == [] && r.filtered != [] && !PaginationShown(r)
  {
  }

  /** `refresh` with the page brought back into range. */
  function RefreshCorrected(t: Table, newData: Option<seq<Row>>): (r: Table)
    requires Valid(t)
    ensures Valid(r) && r.sortColumn == t.sortColumn && r.direction == t.direction
    ensures newData.None? ==> r == t
    ensures newData.Some? ==> r.data == newData.value && r.filtered == newData.value && PageInRange(r)
    ensures newData.Some? && PageInRange(Refresh(t, newData)) ==> r == Refresh(t, newData)
  {
    match newData
    case None => t
    case Some(rows) =>
      var s := t.(data := rows, filtered := rows);
      if PageInRange(s) then s else s.(currentPage := 1)
  }

  /** After the corrected refresh, rows are shown whenever there are
      any. */
  lemma RefreshCorrectedShowsRows(t: Table, rows: seq<Row>)
    requires Valid(t)
    ensures Displayed(RefreshCorrected(t, Some(rows))) == [] <==> rows == []
  {
    PageInRangeShowsRows(RefreshCorrected(t, Some(rows)));
  }

  /** The rows of the products table: a single empty-message row for no
      products; otherwise one row per product, in order, and the total. */
  datatype ProductLine = EmptyMessage | ProductRow(id: int) | TotalRow(weight: Option<int>)

  /** `updateProductsTable`: the total adds the quantities that are
      numbers (a NaN one makes it NaN) and skips text. */
  function ProductsTable(ps: seq<Records.Product>): (r: seq<ProductLine>)
    ensures ps == [] <==> r == [EmptyMessage]
    ensures ps != [] ==> |r| == |ps| + 1 && r[|ps|] == TotalRow(Records.NumericWeight(ps))
    ensures forall i :: 0 <= i < |ps| && i < |r| ==> r[i] == ProductRow(ps[i].id)
  {
    if ps == [] then [EmptyMessage]
    else seq(|ps|, i requires 0 <= i < |ps| => ProductRow(ps[i].id)) + [TotalRow(Records.NumericWeight(ps))]
  }

  /** The products table has a product row exactly in the first
      positions and shows a number as total exactly when no quantity is
      NaN. */
  lemma ProductsTableCounts(ps: seq<Records.Product>)
    requires ps != []
    ensures forall i :: 0 <= i < |ProductsTable(ps)| ==> (ProductsTable(ps)[i].ProductRow? <==> i < |ps|)
    ensures ProductsTable(ps)[|ps|].weight.Some? <==> forall i :: 0 <= i < |ps| ==> !ps[i].quantity.NaN?
  {
  }
}
