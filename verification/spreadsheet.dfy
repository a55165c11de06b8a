/** The consumption-analysis page of the older front end: importing a
    production spreadsheet, checking its columns, reading its rows into
    records, filtering them, and the table of net quantities with the
    variation between consecutive productions.

    A spreadsheet row is the list of (header, cell text) pairs the sheet
    reader hands over, in header order; reading a decimal number
    (`parseFloat`) enters as a parameter. Production dates are civil days
    at local midnight. */
module Spreadsheet {
  import opened Wrappers
  import opened Gregorian
  import Decimal
  import Text
  import Validation
  import Dashboard
  import DateUtils

  type Day = Dashboard.Day

  const CLIENTE := "Cliente"
  const LIGA := "Liga"
  const DATA_PRODUCAO := "Data Produção"
  const QT_LIQUIDA := "Qt. Líquida"
  const QT_BRUTA := "Qt. Bruta"
  const EFICIENCIA := "Eficiência"

  /** The required columns, in the order the page checks them. */
  const REQUIRED_COLUMNS: seq<string> := [CLIENTE, LIGA, DATA_PRODUCAO, QT_LIQUIDA, QT_BRUTA, EFICIENCIA]

  const EMPTY_SHEET := "A planilha está vazia ou em formato inválido."
  const MISSING_PREFIX := "Colunas obrigatórias faltando: "

  /** The fixed alloy list of the alloy filter. */
  const LIGAS: seq<string> := ["6005", "6060", "6061", "6063", "6082", "6101", "6351", "6460", "6463"]

  // ---------------------------------------------------------------------
  // Header normalisation

  /** `key.replace(/\s+/g, ' ').trim()`. */
  function NormalizeKey(k: string): (r: string)
    ensures Text.OnlyPlainSpaces(r) && Text.NoDoubleSpace(r)
    ensures |r| > 0 ==> !Decimal.IsSpace(r[0]) && !Decimal.IsSpace(r[|r| - 1])
  {
    var c := Text.CollapseSpaces(k);
    TrimCollapsed(c);
    Text.Trim(c)
  }

  /** Trimming a collapsed string leaves it collapsed. */
  lemma TrimCollapsed(c: string)
    requires Text.OnlyPlainSpaces(c) && Text.NoDoubleSpace(c)
    ensures Text.OnlyPlainSpaces(Text.Trim(c)) && Text.NoDoubleSpace(Text.Trim(c))
  {
    var r := Text.Trim(c);
    var a := |c| - |Text.TrimStart(c)|;
    assert r == c[a..a + |r|];
    SliceCollapsed(c, a, a + |r|);
  }

  /** A piece of a collapsed string is collapsed. */
  lemma SliceCollapsed(c: string, a: int, b: int)
    requires Text.OnlyPlainSpaces(c) && Text.NoDoubleSpace(c) && 0 <= a <= b <= |c|
    ensures Text.OnlyPlainSpaces(c[a..b]) && Text.NoDoubleSpace(c[a..b])
  {
    var r := c[a..b];
    assert forall i :: 0 <= i < |r| ==> r[i] == c[a + i];
  }

  /** Normalising a normalised header changes nothing. */
  lemma NormalizeKeyIdempotent(k: string)
    ensures NormalizeKey(NormalizeKey(k)) == NormalizeKey(k)
  {
    var r := NormalizeKey(k);
    CollapseOfCollapsed(r);
    TrimOfTrimmed(r);
  }

  lemma {:induction false} CollapseOfCollapsed(s: string)
    requires Text.OnlyPlainSpaces(s) && Text.NoDoubleSpace(s)
    ensures Text.CollapseSpaces(s) == s
  {
    if |s| > 0 {
      var t := s[1..];
      TailOfCollapsed(s);
      CollapseOfCollapsed(t);
      assert s == [s[0]] + t;
    }
  }

  /** The rest of a collapsed text is collapsed, and after its one space
      nothing more is trimmed. */
  lemma TailOfCollapsed(s: string)
    requires |s| > 0 && Text.OnlyPlainSpaces(s) && Text.NoDoubleSpace(s)
    ensures Text.OnlyPlainSpaces(s[1..]) && Text.NoDoubleSpace(s[1..])
    ensures Decimal.IsSpace(s[0]) ==> s[0] == ' ' && Text.TrimStart(s[1..]) == s[1..]
  {
    var t := s[1..];
    assert forall i :: 0 <= i < |t| ==> t[i] == s[i + 1];
    if Decimal.IsSpace(s[0]) && |t| > 0 {
      assert t[0] != ' ';
      assert !Decimal.IsSpace(t[0]);
    }
  }

  lemma TrimOfTrimmed(s: string)
    requires |s| > 0 ==> !Decimal.IsSpace(s[0]) && !Decimal.IsSpace(s[|s| - 1])
    ensures Text.Trim(s) == s
  {
    assert Text.TrimStart(s) == s;
  }

  // ---------------------------------------------------------------------
  // Rows

  /** A row as the sheet reader gives it: headers with their cell texts. */
  type RawRow = seq<(string, string)>

  /** A row after normalisation: a header maps to its trimmed cell text. */
  type Row = map<string, string>

  /** `newRow[normalizedKey] = String(row[key]).trim()` for each header in
      turn. */
  function NormalizeRow(raw: RawRow): (r: Row)
    ensures forall k :: k in r ==>
      exists i :: 0 <= i < |raw| && NormalizeKey(raw[i].0) == k && r[k] == Text.Trim(raw[i].1)
  {
    RowByValues(raw, NormalizeKey);
    RowBy(raw, NormalizeKey)
  }

  /** Every header of the built row holds the trimmed text of a cell whose
      header it is. */
  lemma {:induction false} RowByValues(raw: RawRow, key: string -> string)
    ensures forall k :: k in RowBy(raw, key) ==>
      exists i :: 0 <= i < |raw| && key(raw[i].0) == k && RowBy(raw, key)[k] == Text.Trim(raw[i].1)
  {
    if raw != [] {
      var n := |raw| - 1;
      var front := raw[..n];
      var m := RowBy(front, key);
      RowByValues(front, key);
      forall k | k in RowBy(raw, key)
        ensures exists i :: 0 <= i < |raw| && key(raw[i].0) == k && RowBy(raw, key)[k] == Text.Trim(raw[i].1)
      {
        if k == key(raw[n].0) {
          assert RowBy(raw, key)[k] == Text.Trim(raw[n].1);
        } else {
          var i :| 0 <= i < n && key(front[i].0) == k && m[k] == Text.Trim(front[i].1);
          assert front[i] == raw[i];
        }
      }
    }
  }

  /** The row built cell by cell, each header renamed by `key`. */
  function RowBy(raw: RawRow, key: string -> string): (r: Row)
  {
    if raw == [] then map[]
    else
      var n := |raw| - 1;
      RowBy(raw[..n], key)[key(raw[n].0) := Text.Trim(raw[n].1)]
  }

  /** The headers of the normalised row are exactly the normalised headers. */
  lemma NormalizeRowKeys(raw: RawRow)
    ensures NormalizeRow(raw).Keys == set i | 0 <= i < |raw| :: NormalizeKey(raw[i].0)
  {
    RowByKeys(raw, NormalizeKey);
  }

  lemma {:induction false} RowByKeys(raw: RawRow, key: string -> string)
    ensures RowBy(raw, key).Keys == set i | 0 <= i < |raw| :: key(raw[i].0)
  {
    if raw != [] {
      var n := |raw| - 1;
      var front := raw[..n];
      RowByKeys(front, key);
      var keys := set i | 0 <= i < |raw| :: key(raw[i].0);
      var frontKeys := set i | 0 <= i < n :: key(front[i].0);
      forall k | k in keys ensures k in frontKeys + {key(raw[n].0)} {
        var i :| 0 <= i < |raw| && k == key(raw[i].0);
        if i < n { assert front[i] == raw[i]; }
      }
      forall k | k in frontKeys ensures k in keys {
        var i :| 0 <= i < n && k == key(front[i].0);
        assert front[i] == raw[i];
      }
      assert key(raw[n].0) in keys;
    }
  }

  /** A header holds the trimmed text of the last cell whose header
      normalises to it: a later duplicate overwrites an earlier one. */
  lemma NormalizeRowLastWins(raw: RawRow, i: int)
    requires 0 <= i < |raw|
    requires forall j :: i < j < |raw| ==> NormalizeKey(raw[j].0) != NormalizeKey(raw[i].0)
    ensures NormalizeKey(raw[i].0) in NormalizeRow(raw)
    ensures NormalizeRow(raw)[NormalizeKey(raw[i].0)] == Text.Trim(raw[i].1)
  {
    RowByLastWins(raw, NormalizeKey, i);
  }

  lemma {:induction false} RowByLastWins(raw: RawRow, key: string -> string, i: int)
    requires 0 <= i < |raw|
    requires forall j :: i < j < |raw| ==> key(raw[j].0) != key(raw[i].0)
    ensures key(raw[i].0) in RowBy(raw, key)
    ensures RowBy(raw, key)[key(raw[i].0)] == Text.Trim(raw[i].1)
  {
    var n := |raw| - 1;
    var front := raw[..n];
    var m := RowBy(front, key);
    var k, v := key(raw[i].0), Text.Trim(raw[i].1);
    assert RowBy(raw, key) == m[key(raw[n].0) := Text.Trim(raw[n].1)];
    if i < n {
      LastWinsInFront(raw, front, key, i);
      RowByLastWins(front, key, i);
      UpdateKeeps(m, key(raw[n].0), Text.Trim(raw[n].1), k, v);
    }
  }

  /** Setting one header leaves the text of another as it was. */
  lemma UpdateKeeps(m: Row, k0: string, v0: string, k: string, v: string)
    requires k in m && m[k] == v && k != k0
    ensures k in m[k0 := v0] && m[k0 := v0][k] == v
  {
  }

  /** Without the last cell, cell `i` is still the last of its header. */
  lemma LastWinsInFront(raw: RawRow, front: RawRow, key: string -> string, i: int)
    requires 0 <= i < |raw| - 1 && front == raw[..|raw| - 1]
    requires forall j :: i < j < |raw| ==> key(raw[j].0) != key(raw[i].0)
    ensures front[i] == raw[i]
    ensures forall j :: i < j < |front| ==> key(front[j].0) != key(front[i].0)
  {
    forall j | i < j < |front| ensures key(front[j].0) != key(front[i].0) {
      assert front[j] == raw[j];
    }
  }

  /** The columns of `cols` that `keys` lacks, in the order of `cols`. */
  function Missing(cols: seq<string>, keys: set<string>): (r: seq<string>)
    ensures forall c :: c in r <==> c in cols && c !in keys
    ensures Subsequence(r, cols)
  {
    if cols == [] then []
    else
      var rest := Missing(cols[1..], keys);
      assert forall c :: c in cols <==> c == cols[0] || c in cols[1..];
      if cols[0] in keys then rest else [cols[0]] + rest
  }

  /** `r` is `s` with some entries left out. */
  predicate Subsequence<T(==)>(r: seq<T>, s: seq<T>)
    decreases |s|
  {
    if r == [] then true
    else if s == [] then false
    else if r[0] == s[0] then Subsequence(r[1..], s[1..])
    else Subsequence(r, s[1..])
  }

  /** What `validateExcelData` decides, the rows it leaves behind (the data
      is replaced by its normalised rows before the columns are checked),
      and its error toast. */
  datatype Checked = Checked(ok: bool, rows: seq<Row>, toast: Option<string>)

  function NormalizeRows(raw: seq<RawRow>): (r: seq<Row>)
    ensures |r| == |raw| && forall i :: 0 <= i < |raw| ==> r[i] == NormalizeRow(raw[i])
  {
    seq(|raw|, i requires 0 <= i < |raw| => NormalizeRow(raw[i]))
  }

  /** `validateExcelData`: `None` stands for a value that is not an array.
      An empty or non-array input is refused with its own toast; otherwise
      the rows are normalised and the missing columns are listed. */
  function ValidateExcelData(data: Option<seq<RawRow>>): (r: Checked)
    ensures r.toast.None? <==> r.ok
    ensures (data.None? || data.value == []) ==> !r.ok && r.toast == Some(EMPTY_SHEET)
  {
    if data.None? || data.value == [] then Checked(false, [], Some(EMPTY_SHEET))
    else
      var rows := NormalizeRows(data.value);
      var missing := Missing(REQUIRED_COLUMNS, rows[0].Keys);
      if missing != [] then
        Checked(false, rows, Some(MISSING_PREFIX + Text.Join(missing, ", ")))
      else
        Checked(true, rows, None)
  }

  /** No column is missing exactly when every column is among the keys. */
  lemma MissingNoneIff(cols: seq<string>, keys: set<string>)
    ensures Missing(cols, keys) == [] <==> forall c :: c in cols ==> c in keys
  {
    if Missing(cols, keys) != [] {
      assert Missing(cols, keys)[0] in Missing(cols, keys);
    }
  }

  /** The check passes exactly when the first row, once its headers are
      normalised, has every required column; the spacing of a header does
      not matter, only the words and their order. */
  lemma ValidateIffColumns(data: Option<seq<RawRow>>)
    ensures ValidateExcelData(data).ok <==> (data.Some? && data.value != []
      && forall c :: c in REQUIRED_COLUMNS ==> c in NormalizeRow(data.value[0]))
  {
    if data.Some? && data.value != [] {
      var rows := NormalizeRows(data.value);
      assert rows[0] == NormalizeRow(data.value[0]);
      MissingNoneIff(REQUIRED_COLUMNS, rows[0].Keys);
    }
  }

  // ---------------------------------------------------------------------
  // Reading the rows into records

  /** Why `processExcelData` gives up on a row. `line` is the sheet line:
      the header is line 1, so the row at index `i` is line `i + 2`. */
  datatype ImportError =
    | EmptyField(field: string, line: nat)
    | BadDate(line: nat)
    | BadNetQuantity(line: nat)
    | BadGrossQuantity(line: nat)
    | BadEfficiency(line: nat)

  const LINE := " na linha "

  /** The text of the error the row throws (and the toast shows): what
      went wrong, the line, and for the date a hint at the format. */
  function Message(e: ImportError): string {
    Headline(e) + LINE + Decimal.NatToString(e.line) + Hint(e)
  }

  function Headline(e: ImportError): string {
    match e
    case EmptyField(field, _) => "Campo \"" + field + "\" está vazio"
    case BadDate(_) => "Data de produção inválida"
    case BadNetQuantity(_) => "Quantidade líquida inválida"
    case BadGrossQuantity(_) => "Quantidade bruta inválida"
    case BadEfficiency(_) => "Eficiência inválida"
  }

  function Hint(e: ImportError): string {
    if e.BadDate? then ". Use o formato DD/MM/AAAA" else ""
  }

  /** Every message names the sheet line of the row that failed. */
  lemma MessageNamesLine(e: ImportError)
    ensures Text.Contains(Message(e), LINE + Decimal.NatToString(e.line))
  {
    var mid := LINE + Decimal.NatToString(e.line);
    assert Message(e) == Headline(e) + mid + Hint(e);
    OccursBetween(Headline(e), mid, Hint(e));
  }

  lemma OccursBetween(head: string, mid: string, tail: string)
    ensures Text.Contains(head + mid + tail, mid)
  {
    Text.OccursInMiddle(head, mid, tail);
  }

  /** `!value && value !== 0` on a cell of the normalised row: a missing
      column or an empty text (the cells are strings, never the number 0). */
  predicate FieldEmpty(row: Row, field: string) {
    field !in row || row[field] == ""
  }

  /** The first of `cols` whose cell is empty, in the order of `cols`. */
  function FirstEmpty(cols: seq<string>, row: Row): (r: Option<string>)
    ensures r.None? <==> forall c :: c in cols ==> !FieldEmpty(row, c)
    ensures r.Some? ==> exists k :: (0 <= k < |cols| && cols[k] == r.value && FieldEmpty(row, r.value)
      && forall j :: 0 <= j < k ==> !FieldEmpty(row, cols[j]))
  {
    if cols == [] then None
    else if FieldEmpty(row, cols[0]) then Some(cols[0])
    else
      var rest := FirstEmpty(cols[1..], row);
      assert forall c :: c in cols <==> c == cols[0] || c in cols[1..];
      if rest.Some? then
        var k :| 0 <= k < |cols[1..]| && cols[1..][k] == rest.value && FieldEmpty(row, rest.value)
          && forall j :: 0 <= j < k ==> !FieldEmpty(row, cols[1..][j]);
        assert cols[k + 1] == rest.value;
        assert forall j :: 0 <= j < k + 1 ==> !FieldEmpty(row, cols[j]) by {
          forall j | 0 <= j < k + 1 ensures !FieldEmpty(row, cols[j]) {
            if j > 0 { assert cols[j] == cols[1..][j - 1]; }
          }
        }
        rest
      else rest
  }

  /** The production date: the trimmed text split on '/', a two-character
      year prefixed with "20", each part read by `Number` and the three
      handed to `new Date(year, month - 1, day)`, which rolls out-of-range
      days and months over and gives an invalid date past 100 000 000 days
      either side of 1 January 1970. `None` is the invalid date the row
      rejects. */
  function ParseProductionDate(s: string): (r: Option<Day>)
    ensures |Text.Split(Text.Trim(s), '/')| != 3 ==> r.None?
    ensures r.Some? ==> InTimeRange(r.value)
  {
    var parts := Text.Split(Text.Trim(s), '/');
    if |parts| != 3 then None
    else
      var year := Text.JsNumber(YearText(parts[2]));
      var month := Text.JsNumber(parts[1]);
      var day := Text.JsNumber(parts[0]);
      if year.None? || month.None? || day.None? then None
      else
        var date := DateUtils.NewDate(year.value, month.value, day.value);
        if InTimeRange(date) then Some(date) else None
  }

  /** A two-character year is taken as one of the 2000s. */
  function YearText(ys: string): string {
    if |ys| == 2 then "20" + ys else ys
  }

  /** A date written `DD/MM/AAAA` reads back as itself, for every year from
      100 on that a `Date` can hold; past that range the row's date is
      invalid. */
  lemma ProductionDateRoundTrip(d: Date)
    requires Valid(d) && d.year >= 100
    ensures InTimeRange(d) ==> ParseProductionDate(DateUtils.BrazilianDate(d)) == Some(d)
    ensures !InTimeRange(d) ==> ParseProductionDate(DateUtils.BrazilianDate(d)) == None
  {
    var ds, ms, ys := Decimal.TwoDigits(d.day), Decimal.TwoDigits(d.month), Decimal.NatToString(d.year);
    WrittenParts(d);
    ReadParts(ds + "/" + ms + "/" + ys, ds, ms, ys, d.day, d.month, d.year);
    NewDateOfValid(d);
  }

  /** The three parts of a written date read as its day, month and year. */
  lemma WrittenParts(d: Date)
    requires Valid(d) && d.year >= 100
    ensures var ds, ms, ys := Decimal.TwoDigits(d.day), Decimal.TwoDigits(d.month), Decimal.NatToString(d.year);
      DateUtils.BrazilianDate(d) == ds + "/" + ms + "/" + ys
      && Text.Split(Text.Trim(ds + "/" + ms + "/" + ys), '/') == [ds, ms, ys]
      && Text.JsNumber(ds) == Some(d.day) && Text.JsNumber(ms) == Some(d.month)
      && Text.JsNumber(YearText(ys)) == Some(d.year)
  {
    var ds, ms, ys := Decimal.TwoDigits(d.day), Decimal.TwoDigits(d.month), Decimal.NatToString(d.year);
    WrittenDate(ds, ms, ys);
    LongYear(d.year);
    Text.JsNumberOfDigits(ds);
    Text.JsNumberOfDigits(ms);
    Text.JsNumberOfDigits(ys);
  }

  /** The round trip holds for every year from 100 to 275759. */
  lemma ProductionDateRoundTripInRange(d: Date)
    requires Valid(d) && 100 <= d.year <= 275759
    ensures ParseProductionDate(DateUtils.BrazilianDate(d)) == Some(d)
  {
    YearsInTimeRange(d);
    ProductionDateRoundTrip(d);
  }

  /** A well-formed date past the year 275760 is refused as invalid. */
  lemma ProductionDateBeyondRange(d: Date)
    requires Valid(d) && d.year > 275760
    ensures ParseProductionDate(DateUtils.BrazilianDate(d)) == None
  {
    FarYearsOutOfTimeRange(d);
    ProductionDateRoundTrip(d);
  }

  /** A date written with a two-digit year `DD/MM/AA` is read in the years
      2000 to 2099. */
  lemma ProductionDateTwoDigitYear(d: Date)
    requires Valid(d) && 2000 <= d.year < 2100
    ensures ParseProductionDate(Decimal.TwoDigits(d.day) + "/" + Decimal.TwoDigits(d.month) + "/"
      + Decimal.TwoDigits(d.year - 2000)) == Some(d)
  {
    var ds, ms, yy := Decimal.TwoDigits(d.day), Decimal.TwoDigits(d.month), Decimal.TwoDigits(d.year - 2000);
    TwoDigitParts(d);
    ReadDate(ds + "/" + ms + "/" + yy, ds, ms, yy, d);
  }

  /** Parts that read as the day, month and year of a date a `Date` can
      hold give that date. */
  lemma ReadDate(s: string, ds: string, ms: string, ys: string, d: Date)
    requires Valid(d) && 100 <= d.year <= 275759
    requires Text.Split(Text.Trim(s), '/') == [ds, ms, ys]
    requires Text.JsNumber(ds) == Some(d.day) && Text.JsNumber(ms) == Some(d.month)
    requires Text.JsNumber(YearText(ys)) == Some(d.year)
    ensures ParseProductionDate(s) == Some(d)
  {
    NewDateOfValid(d);
    YearsInTimeRange(d);
    ReadParts(s, ds, ms, ys, d.day, d.month, d.year);
  }

  lemma TwoDigitParts(d: Date)
    requires Valid(d) && 2000 <= d.year < 2100
    ensures var ds, ms, yy := Decimal.TwoDigits(d.day), Decimal.TwoDigits(d.month), Decimal.TwoDigits(d.year - 2000);
      |ds| == 2 && |ms| == 2 && |yy| == 2
      && Decimal.AllDigits(ds) && Decimal.AllDigits(ms) && Decimal.AllDigits(yy)
      && Text.JsNumber(ds) == Some(d.day) && Text.JsNumber(ms) == Some(d.month)
      && Text.JsNumber(YearText(yy)) == Some(d.year)
      && Text.Split(Text.Trim(ds + "/" + ms + "/" + yy), '/') == [ds, ms, yy]
  {
    TwoDigitsRead(d.day);
    TwoDigitsRead(d.month);
    TwoDigitsRead(d.year - 2000);
    TwoDigitYearRead(Decimal.TwoDigits(d.year - 2000), d.year);
    WrittenDate(Decimal.TwoDigits(d.day), Decimal.TwoDigits(d.month), Decimal.TwoDigits(d.year - 2000));
  }

  lemma TwoDigitsRead(n: nat)
    requires n < 100
    ensures |Decimal.TwoDigits(n)| == 2 && Decimal.AllDigits(Decimal.TwoDigits(n))
    ensures Text.JsNumber(Decimal.TwoDigits(n)) == Some(n)
    ensures Decimal.DigitsValue(Decimal.TwoDigits(n)) == n
  {
    Text.JsNumberOfDigits(Decimal.TwoDigits(n));
  }

  lemma TwoDigitYearRead(yy: string, year: int)
    requires |yy| == 2 && Decimal.AllDigits(yy) && year == 2000 + Decimal.DigitsValue(yy)
    ensures Text.JsNumber(YearText(yy)) == Some(year)
  {
    Century(yy);
    Text.JsNumberOfDigits("20" + yy);
  }

  /** Out-of-range days are not rejected: 31 February of a common year is
      read as 3 March. */
  lemma ProductionDateRollsOver(y: int)
    requires y >= 100 && !IsLeapYear(y)
    ensures y <= 275759 ==> ParseProductionDate("31/02/" + Decimal.NatToString(y)) == Some(Date(y, 3, 3))
    ensures y > 275759 ==> ParseProductionDate("31/02/" + Decimal.NatToString(y)) == None
  {
    var ys := Decimal.NatToString(y);
    FebruaryParts(y);
    DateUtils.RollOver(y);
    DateUtils.RolledOverRange(y);
    ReadParts("31/02/" + ys, "31", "02", ys, 31, 2, y);
  }

  /** The parts of "31/02/Y" read as 31, 2 and Y. */
  lemma FebruaryParts(y: int)
    requires y >= 100
    ensures var ys := Decimal.NatToString(y);
      Text.Split(Text.Trim("31/02/" + ys), '/') == ["31", "02", ys]
      && Text.JsNumber("31") == Some(31) && Text.JsNumber("02") == Some(2)
      && Text.JsNumber(YearText(ys)) == Some(y)
  {
    var ys := Decimal.NatToString(y);
    DateUtils.ThirtyFirstOfFebruary(ys);
    WrittenDate("31", "02", ys);
    LongYear(y);
    Text.JsNumberOfDigits("31");
    Text.JsNumberOfDigits("02");
    Text.JsNumberOfDigits(ys);
  }

  /** Once the three parts are read, the date is the one `new Date` builds,
      if a `Date` can hold it. */
  lemma ReadParts(s: string, ds: string, ms: string, ys: string, day: int, month: int, year: int)
    requires Text.Split(Text.Trim(s), '/') == [ds, ms, ys]
    requires Text.JsNumber(ds) == Some(day) && Text.JsNumber(ms) == Some(month)
    requires Text.JsNumber(YearText(ys)) == Some(year)
    ensures InTimeRange(DateUtils.NewDate(year, month, day)) ==> ParseProductionDate(s) == Some(DateUtils.NewDate(year, month, day))
    ensures !InTimeRange(DateUtils.NewDate(year, month, day)) ==> ParseProductionDate(s) == None
  {
  }

  lemma NewDateOfValid(d: Date)
    requires Valid(d) && d.year >= 100
    ensures DateUtils.NewDate(d.year, d.month, d.day) == d
  {
    JsDateInRange(d.year, d.month - 1, d.day);
  }

  /** Three runs of digits joined by '/' are already trimmed and split into
      the three of them. */
  lemma WrittenDate(ds: string, ms: string, ys: string)
    requires 1 <= |ds| && 1 <= |ms| && 1 <= |ys|
    requires Decimal.AllDigits(ds) && Decimal.AllDigits(ms) && Decimal.AllDigits(ys)
    ensures Text.Trim(ds + "/" + ms + "/" + ys) == ds + "/" + ms + "/" + ys
    ensures Text.Split(ds + "/" + ms + "/" + ys, '/') == [ds, ms, ys]
  {
    DateUtils.DigitPartsRead(ds, ms, ys);
    var s := ds + "/" + ms + "/" + ys;
    assert s[0] == ds[0] && s[|s| - 1] == ys[|ys| - 1];
    TrimOfTrimmed(s);
  }

  lemma LongYear(n: nat)
    requires n >= 100
    ensures |Decimal.NatToString(n)| >= 3
  {
    var p := Decimal.NatToString(n / 10);
    assert Decimal.NatToString(n) == p + [Decimal.DigitChar(n % 10)];
  }

  /** "20" before two digits spells 2000 plus their value. */
  lemma Century(yy: string)
    requires |yy| == 2 && Decimal.AllDigits(yy)
    ensures Decimal.AllDigits("20" + yy) && |"20" + yy| == 4
    ensures Decimal.DigitsValue("20" + yy) == 2000 + Decimal.DigitsValue(yy)
  {
    var s := "20" + yy;
    assert Decimal.AllDigits(s) by {
      assert forall i :: 0 <= i < |s| ==> Decimal.IsDigit(s[i]);
    }
    assert s[..3] == "20" + [yy[0]] && s[..3][..2] == "20" && yy[..1] == [yy[0]];
    assert "20"[..1] == "2" && "2"[..0] == "";
    assert Decimal.DigitsValue("20") == 20;
    assert Decimal.DigitsValue(yy) == Decimal.DigitValue(yy[0]) * 10 + Decimal.DigitValue(yy[1]);
  }

  /** The cell text `parseFloat` reads for a quantity: white space removed
      and the first comma made a decimal point. */
  function NumberText(v: string): string {
    Validation.ReplaceFirst(Text.RemoveSpaces(v), ',', '.')
  }

  /** A Brazilian decimal comma is read as a point. */
  lemma NumberTextOfDecimal(units: string, cents: string)
    requires Decimal.AllDigits(units) && Decimal.AllDigits(cents)
    ensures NumberText(units + "," + cents) == units + "." + cents
  {
    SpacesKept(units + "," + cents);
    Validation.NoCommaInDigits(units);
    Validation.ReplaceFirstAfter(units, cents);
  }

  /** Spaces between the thousands are dropped before the comma is read. */
  lemma NumberTextOfSpacedThousands(thousands: string, units: string, cents: string)
    requires Decimal.AllDigits(thousands) && Decimal.AllDigits(units) && Decimal.AllDigits(cents)
    ensures NumberText(thousands + " " + units + "," + cents) == thousands + units + "." + cents
  {
    var rest := units + "," + cents;
    assert thousands + " " + units + "," + cents == thousands + (" " + rest);
    Text.RemoveSpacesConcat(thousands, " " + rest);
    SpacesKept(thousands);
    SpacesKept(rest);
    assert (" " + rest)[1..] == rest;
    assert Text.RemoveSpaces(" " + rest) == rest;
    assert thousands + rest == (thousands + units) + "," + cents;
    Validation.NoCommaInDigits(thousands);
    Validation.NoCommaInDigits(units);
    Validation.ReplaceFirstAfter(thousands + units, cents);
  }

  lemma {:induction false} SpacesKept(s: string)
    requires forall i :: 0 <= i < |s| ==> s[i] == ',' || Decimal.IsDigit(s[i])
    ensures Text.RemoveSpaces(s) == s
  {
    if |s| > 0 {
      assert !Decimal.IsSpace(s[0]);
      SpacesKept(s[1..]);
      assert s == [s[0]] + s[1..];
    }
  }

  /** `s.replace(c, '')` with a one-character pattern: the first `c` goes. */
  function RemoveFirst(s: string, c: char): (r: string)
    ensures c !in s ==> r == s
    ensures c in s ==> r == s[..Validation.FirstIndex(s, c)] + s[Validation.FirstIndex(s, c) + 1..]
  {
    if |s| == 0 then ""
    else if s[0] == c then s[1..]
    else
      var rest := RemoveFirst(s[1..], c);
      RemoveFirstStep(s, c, rest);
      [s[0]] + rest
  }

  lemma RemoveFirstStep(s: string, c: char, rest: string)
    requires |s| > 0 && s[0] != c
    requires c in s[1..] ==> rest == s[1..][..Validation.FirstIndex(s[1..], c)] + s[1..][Validation.FirstIndex(s[1..], c) + 1..]
    ensures c in s ==> [s[0]] + rest == s[..Validation.FirstIndex(s, c)] + s[Validation.FirstIndex(s, c) + 1..]
  {
    if c in s {
      assert c in s[1..];
      var k := Validation.FirstIndex(s[1..], c);
      assert Validation.FirstIndex(s, c) == k + 1;
      assert s[..k + 1] == [s[0]] + s[1..][..k];
      assert s[k + 2..] == s[1..][k + 1..];
    }
  }

  /** The text `parseFloat` reads for the efficiency: as for a quantity,
      then the first '%' removed. */
  function EfficiencyText(v: string): string {
    RemoveFirst(NumberText(v), '%')
  }

  /** A percentage written with a decimal comma loses its sign. */
  lemma EfficiencyTextOfPercent(units: string, cents: string)
    requires Decimal.AllDigits(units) && Decimal.AllDigits(cents)
    ensures EfficiencyText(units + "," + cents + "%") == units + "." + cents
  {
    var t := units + "," + cents + "%";
    Text.RemoveSpacesConcat(units + "," + cents, "%");
    SpacesKept(units + "," + cents);
    assert Text.RemoveSpaces("%") == "%";
    Validation.NoCommaInDigits(units);
    assert units + "," + (cents + "%") == t;
    Validation.ReplaceFirstAfter(units, cents + "%");
    var n := units + "." + cents + "%";
    assert NumberText(t) == n;
    assert forall i :: 0 <= i < |n| - 1 ==> n[i] != '%';
    assert Validation.FirstIndex(n, '%') == |n| - 1;
  }

  /** `parseFloat`: the number a text starts with, or `None` for NaN. */
  type FloatReader = string -> Option<real>

  /** One production: the trimmed client and alloy, the day, the net and
      gross quantities, and the efficiency as a fraction. */
  datatype Record = Record(cliente: string, liga: string, dataProducao: Day, qtLiquida: real, qtBruta: real,
    eficiencia: real)

  /** What a row or the whole sheet comes to: a value, or the first error. */
  datatype Outcome<+T> = Success(value: T) | Failure(error: ImportError)

  /** The text of a cell, `""` for a missing column. */
  function Cell(row: Row, field: string): string {
    if field in row then row[field] else ""
  }

  /** The body of the `map` in `processExcelData`, for the row at `index`:
      the columns in order for an empty cell, then the rest of the row. */
  function ProcessRow(row: Row, index: nat, parseFloat: FloatReader): (r: Outcome<Record>)
    ensures r.Failure? ==> r.error.line == index + 2
  {
    var empty := FirstEmpty(REQUIRED_COLUMNS, row);
    if empty.Some? then Failure(EmptyField(empty.value, index + 2))
    else ReadCells(row, index + 2, parseFloat, ParseProductionDate)
  }

  /** A row with every cell filled: the date (read by `readDate`), the net
      and gross quantities and the efficiency, each rejected with its own
      error. */
  function ReadCells(row: Row, line: nat, parseFloat: FloatReader, readDate: string -> Option<Day>): (r: Outcome<Record>)
    ensures r.Failure? ==> r.error.line == line && !r.error.EmptyField?
  {
    Assemble(Text.Trim(Cell(row, CLIENTE)), Text.Trim(Cell(row, LIGA)), readDate(Cell(row, DATA_PRODUCAO)),
      parseFloat(NumberText(Cell(row, QT_LIQUIDA))), parseFloat(NumberText(Cell(row, QT_BRUTA))),
      parseFloat(EfficiencyText(Cell(row, EFICIENCIA))), line)
  }

  /** The record of the values read from one row, or the error of the
      first value that could not be read. */
  function Assemble(cliente: string, liga: string, date: Option<Day>, net: Option<real>, gross: Option<real>,
                    efficiency: Option<real>, line: nat): (r: Outcome<Record>)
    ensures r.Failure? ==> r.error.line == line && !r.error.EmptyField?
  {
    if date.None? then Failure(BadDate(line))
    else if net.None? then Failure(BadNetQuantity(line))
    else if gross.None? then Failure(BadGrossQuantity(line))
    else if efficiency.None? then Failure(BadEfficiency(line))
    else Success(Record(cliente, liga, date.value, net.value, gross.value, efficiency.value / 100.0))
  }

  /** Every required cell holds text. */
  predicate Complete(row: Row) {
    forall c :: c in REQUIRED_COLUMNS ==> !FieldEmpty(row, c)
  }

  /** A row is read exactly when every required cell holds text and the
      date and the three numbers can be read. */
  lemma ProcessRowSucceedsIff(row: Row, index: nat, parseFloat: FloatReader)
    ensures ProcessRow(row, index, parseFloat).Success? <==>
      (Complete(row)
      && ParseProductionDate(Cell(row, DATA_PRODUCAO)).Some?
      && parseFloat(NumberText(Cell(row, QT_LIQUIDA))).Some?
      && parseFloat(NumberText(Cell(row, QT_BRUTA))).Some?
      && parseFloat(EfficiencyText(Cell(row, EFICIENCIA))).Some?)
  {
    ProcessRowOfComplete(row, index, parseFloat);
  }

  /** A complete row is read by `ReadCells`; an incomplete one fails. */
  lemma ProcessRowOfComplete(row: Row, index: nat, parseFloat: FloatReader)
    ensures Complete(row) ==> ProcessRow(row, index, parseFloat) == ReadCells(row, index + 2, parseFloat, ParseProductionDate)
    ensures !Complete(row) ==> ProcessRow(row, index, parseFloat).Failure?
  {
  }

  /** An empty cell is reported before anything else, and it is the first
      empty one in the column order. */
  lemma ProcessRowReportsFirstEmpty(row: Row, index: nat, parseFloat: FloatReader)
    ensures var r := ProcessRow(row, index, parseFloat);
      (r.Failure? && r.error.EmptyField?) <==> !Complete(row)
    ensures var r := ProcessRow(row, index, parseFloat);
      r.Failure? && r.error.EmptyField? ==> Some(r.error.field) == FirstEmpty(REQUIRED_COLUMNS, row)
  {
  }

  /** A read record keeps the client and alloy trimmed, the day read, the
      two quantities as read, and the efficiency as the percentage read
      over 100. */
  lemma {:induction false} ReadCellsRecord(row: Row, line: nat, parseFloat: FloatReader, readDate: string -> Option<Day>)
    requires ReadCells(row, line, parseFloat, readDate).Success?
    ensures var rec := ReadCells(row, line, parseFloat, readDate).value;
      rec.cliente == Text.Trim(Cell(row, CLIENTE)) && rec.liga == Text.Trim(Cell(row, LIGA))
      && Some(rec.dataProducao) == readDate(Cell(row, DATA_PRODUCAO))
      && Some(rec.qtLiquida) == parseFloat(NumberText(Cell(row, QT_LIQUIDA)))
      && Some(rec.qtBruta) == parseFloat(NumberText(Cell(row, QT_BRUTA)))
      && Some(rec.eficiencia * 100.0) == parseFloat(EfficiencyText(Cell(row, EFICIENCIA)))
  {
    AssembleRecord(Text.Trim(Cell(row, CLIENTE)), Text.Trim(Cell(row, LIGA)), readDate(Cell(row, DATA_PRODUCAO)),
      parseFloat(NumberText(Cell(row, QT_LIQUIDA))), parseFloat(NumberText(Cell(row, QT_BRUTA))),
      parseFloat(EfficiencyText(Cell(row, EFICIENCIA))), line);
  }

  /** A record is assembled exactly when all four values were read, and it
      keeps each of them, the efficiency as the percentage over 100. */
  lemma AssembleRecord(cliente: string, liga: string, date: Option<Day>, net: Option<real>, gross: Option<real>,
                       efficiency: Option<real>, line: nat)
    ensures Assemble(cliente, liga, date, net, gross, efficiency, line).Success?
      <==> date.Some? && net.Some? && gross.Some? && efficiency.Some?
    ensures var r := Assemble(cliente, liga, date, net, gross, efficiency, line);
      r.Success? ==> (r.value.cliente == cliente && r.value.liga == liga && Some(r.value.dataProducao) == date
        && Some(r.value.qtLiquida) == net && Some(r.value.qtBruta) == gross
        && Some(r.value.eficiencia * 100.0) == efficiency)
  {
    if efficiency.Some? {
      PercentBack(efficiency.value);
    }
  }

  lemma PercentBack(v: real)
    ensures v / 100.0 * 100.0 == v
  {
  }

  /** `data.map(...)` where the first row that throws ends the whole map:
      the row at position `i` of `rows` is sheet row `start + i`. */
  function MapRows(rows: seq<Row>, start: nat, f: (Row, nat) -> Outcome<Record>): (r: Outcome<seq<Record>>)
    decreases |rows|
  {
    if rows == [] then Success([])
    else
      match f(rows[0], start)
      case Failure(e) => Failure(e)
      case Success(rec) =>
        match MapRows(rows[1..], start + 1, f)
        case Failure(e) => Failure(e)
        case Success(recs) => Success([rec] + recs)
  }

  /** Every row read. */
  predicate AllRead(rows: seq<Row>, start: nat, f: (Row, nat) -> Outcome<Record>) {
    forall i :: 0 <= i < |rows| ==> f(rows[i], start + i).Success?
  }

  /** The map succeeds exactly when every row does, keeping one record per
      row in order. */
  lemma {:induction false} MapRowsSucceeds(rows: seq<Row>, start: nat, f: (Row, nat) -> Outcome<Record>)
    ensures MapRows(rows, start, f).Success? <==> AllRead(rows, start, f)
    ensures MapRows(rows, start, f).Success? ==> |MapRows(rows, start, f).value| == |rows|
    ensures MapRows(rows, start, f).Success? ==>
      forall i :: 0 <= i < |rows| ==> MapRows(rows, start, f).value[i] == f(rows[i], start + i).value
  {
    if rows != [] {
      var tail := rows[1..];
      MapRowsSucceeds(tail, start + 1, f);
      assert forall i :: 0 < i < |rows| ==> rows[i] == tail[i - 1] && start + i == (start + 1) + (i - 1);
      if AllRead(rows, start, f) {
        assert f(rows[0], start + 0).Success?;
        assert AllRead(tail, start + 1, f) by {
          forall i | 0 <= i < |tail| ensures f(tail[i], start + 1 + i).Success? {
            assert tail[i] == rows[i + 1];
          }
        }
      }
    }
  }

  /** Otherwise the map fails with the error of the first row that fails. */
  lemma {:induction false} MapRowsFailsAtFirst(rows: seq<Row>, start: nat, f: (Row, nat) -> Outcome<Record>)
    requires MapRows(rows, start, f).Failure?
    ensures exists k :: FailsFirstAt(rows, start, f, k, MapRows(rows, start, f).error)
  {
    var tail := rows[1..];
    var e := MapRows(rows, start, f).error;
    if f(rows[0], start).Failure? {
      assert f(rows[0], start + 0) == Failure(e);
      assert FailsFirstAt(rows, start, f, 0, e);
    } else {
      MapRowsFailsAtFirst(tail, start + 1, f);
      var k: nat :| FailsFirstAt(tail, start + 1, f, k, e);
      assert rows[k + 1] == tail[k];
      forall j | 0 <= j < k + 1 ensures f(rows[j], start + j).Success? {
        if j > 0 {
          assert rows[j] == tail[j - 1];
          assert f(tail[j - 1], start + 1 + (j - 1)).Success?;
        }
      }
      assert FailsFirstAt(rows, start, f, k + 1, e);
    }
  }

  /** Row `k` is the first the step `f` fails on, with error `e`. */
  predicate FailsFirstAt(rows: seq<Row>, start: nat, f: (Row, nat) -> Outcome<Record>, k: nat, e: ImportError) {
    k < |rows| && f(rows[k], start + k) == Failure(e)
    && forall j :: 0 <= j < k ==> f(rows[j], start + j).Success?
  }

  /** The step `processExcelData` maps over the rows. */
  function RowReader(parseFloat: FloatReader): (Row, nat) -> Outcome<Record> {
    (row: Row, i: nat) => ProcessRow(row, i, parseFloat)
  }

  /** `processExcelData` over the normalised rows: the first row is sheet
      line 2. */
  function ProcessExcelData(rows: seq<Row>, parseFloat: FloatReader): (r: Outcome<seq<Record>>)
    ensures r.Success? <==> AllRead(rows, 0, RowReader(parseFloat))
    ensures r.Success? ==> |r.value| == |rows|
  {
    MapRowsSucceeds(rows, 0, RowReader(parseFloat));
    MapRows(rows, 0, RowReader(parseFloat))
  }

  /** The sheet is read exactly when every row is, into one record per row
      in sheet order. */
  lemma {:induction false} ProcessExcelDataSucceeds(rows: seq<Row>, parseFloat: FloatReader)
    ensures ProcessExcelData(rows, parseFloat).Success? <==>
      forall i :: 0 <= i < |rows| ==> ProcessRow(rows[i], i, parseFloat).Success?
    ensures ProcessExcelData(rows, parseFloat).Success? ==> |ProcessExcelData(rows, parseFloat).value| == |rows|
    ensures ProcessExcelData(rows, parseFloat).Success? ==>
      forall i :: 0 <= i < |rows| ==> ProcessExcelData(rows, parseFloat).value[i] == ProcessRow(rows[i], i, parseFloat).value
  {
    var f := RowReader(parseFloat);
    MapRowsSucceeds(rows, 0, f);
    assert forall i :: 0 <= i < |rows| ==> f(rows[i], 0 + i) == ProcessRow(rows[i], i, parseFloat);
  }

  /** Row `k` is the first row `processExcelData` cannot read, and `e`
      is its error, naming sheet line `k + 2`. */
  predicate FirstFailingRow(rows: seq<Row>, parseFloat: FloatReader, k: nat, e: ImportError) {
    k < |rows|
    && ProcessRow(rows[k], k, parseFloat) == Failure(e)
    && e.line == k + 2
    && forall j :: 0 <= j < k ==> ProcessRow(rows[j], j, parseFloat).Success?
  }

  /** Otherwise the error is that of the first failing row, and it names
      that row's sheet line. */
  lemma {:induction false} ProcessExcelDataFailsAtFirst(rows: seq<Row>, parseFloat: FloatReader)
    requires ProcessExcelData(rows, parseFloat).Failure?
    ensures exists k :: FirstFailingRow(rows, parseFloat, k, ProcessExcelData(rows, parseFloat).error)
  {
    var f := RowReader(parseFloat);
    var e := ProcessExcelData(rows, parseFloat).error;
    MapRowsFailsAtFirst(rows, 0, f);
    var k: nat :| FailsFirstAt(rows, 0, f, k, e);
    ReaderFailsFirst(rows, parseFloat, e, k);
  }

  /** The first failure of the mapped step is that of `ProcessRow`. */
  lemma ReaderFailsFirst(rows: seq<Row>, parseFloat: FloatReader, e: ImportError, k: nat)
    requires FailsFirstAt(rows, 0, RowReader(parseFloat), k, e)
    ensures FirstFailingRow(rows, parseFloat, k, e)
  {
    ReaderIsProcessRow(parseFloat, rows[k], k);
    forall j | 0 <= j < k ensures ProcessRow(rows[j], j, parseFloat).Success? {
      ReaderIsProcessRow(parseFloat, rows[j], j);
    }
  }

  lemma ReaderIsProcessRow(parseFloat: FloatReader, row: Row, i: nat)
    ensures RowReader(parseFloat)(row, 0 + i) == ProcessRow(row, i, parseFloat)
  {
  }

  // ---------------------------------------------------------------------
  // The file and the import

  const ACCEPTED_EXTENSIONS: seq<string> := ["xls", "xlsx"]

  /** `name.split('.').pop().toLowerCase()`: the text after the last dot,
      lower-cased; a name without a dot is its own extension. */
  function FileExtension(name: string): string {
    var parts := Text.Split(name, '.');
    Text.Lower(parts[|parts| - 1])
  }

  predicate AcceptedFile(name: string) {
    FileExtension(name) in ACCEPTED_EXTENSIONS
  }

  /** The last part of a split is what follows the last separator. */
  lemma {:induction false} SplitLast(a: string, sep: char, b: string)
    requires sep !in b
    ensures |Text.Split(a + [sep] + b, sep)| >= 2
    ensures Text.Split(a + [sep] + b, sep)[|Text.Split(a + [sep] + b, sep)| - 1] == b
  {
    var s := a + [sep] + b;
    if |a| == 0 {
      assert s == [sep] + b && s[1..] == b;
      Text.SplitNoSeparator(b, sep);
    } else {
      assert s[0] == a[0] && s[1..] == a[1..] + [sep] + b;
      SplitLast(a[1..], sep, b);
    }
  }

  /** A name's extension is what follows its last dot, in lower case. */
  lemma ExtensionOfName(base: string, ext: string)
    requires '.' !in ext
    ensures FileExtension(base + "." + ext) == Text.Lower(ext)
  {
    SplitLast(base, '.', ext);
  }

  /** The file is taken exactly when the text after its last dot is `xls` or
      `xlsx` in any case. */
  lemma AcceptedFileIff(base: string, ext: string)
    requires '.' !in ext
    ensures AcceptedFile(base + "." + ext) <==> Text.Lower(ext) == "xls" || Text.Lower(ext) == "xlsx"
  {
    ExtensionOfName(base, ext);
  }

  /** A name without a dot is its own extension, so a file called just
      `XLSX` passes the check. */
  lemma NameWithoutDot(name: string)
    requires '.' !in name
    ensures FileExtension(name) == Text.Lower(name)
    ensures AcceptedFile("XLSX")
  {
    Text.SplitNoSeparator(name, '.');
    Text.SplitNoSeparator("XLSX", '.');
    assert Text.Lower("XLSX") == "xlsx";
  }

  /** A toast: its text and whether it reports success or an error. */
  datatype Toast = Toast(message: string, success: bool)

  const SELECT_FILE := "Selecione um arquivo para importar."
  const WRONG_EXTENSION := "O arquivo deve ser uma planilha Excel (.xls ou .xlsx)"
  const READ_ERROR := "Erro ao ler o arquivo. Tente novamente."
  const NO_SHEETS := "A planilha não contém nenhuma aba."
  const PROCESS_FALLBACK := "Erro ao processar o arquivo. Verifique o formato."
  const IMPORTED := "Dados importados com sucesso!"

  /** What reading the file gives: the reader fails, the sheet library
      throws (with its message), or the workbook's sheets, each as the rows
      `sheet_to_json` makes of it. */
  datatype Workbook = ReadFailed | Unparsable(message: string) | Sheets(sheets: seq<seq<RawRow>>)

  /** The outcome of a click on "import": the records that replace the
      imported data (`None` leaves it as it was) and the toasts shown. */
  datatype Import = Import(data: Option<seq<Record>>, toasts: seq<Toast>)

  /** The click handler of the import button and the reader callbacks: no
      file, a wrong extension, a failed read, a throwing library, no
      sheet, a failed column check, a failing row (whose error is shown
      once where it is thrown and again where it is caught), or the
      records of the first sheet. */
  function ConfirmImport(file: Option<string>, book: Workbook, parseFloat: FloatReader): (r: Import)
    ensures |r.toasts| >= 1
  {
    if file.None? then Import(None, [Toast(SELECT_FILE, false)])
    else if !AcceptedFile(file.value) then Import(None, [Toast(WRONG_EXTENSION, false)])
    else match book
      case ReadFailed => Import(None, [Toast(READ_ERROR, false)])
      case Unparsable(m) => Import(None, [Toast(if m == "" then PROCESS_FALLBACK else m, false)])
      case Sheets(sheets) =>
        if sheets == [] then Import(None, [Toast(NO_SHEETS, false)])
        else ImportSheet(sheets[0], parseFloat)
  }

  /** The `onload` callback once the first sheet is at hand: its column
      check, then its rows. */
  function ImportSheet(sheet: seq<RawRow>, parseFloat: FloatReader): (r: Import)
    ensures |r.toasts| >= 1
    ensures r.data.Some? <==>
      ValidateExcelData(Some(sheet)).ok && ProcessExcelData(NormalizeRows(sheet), parseFloat).Success?
    ensures r.data.Some? ==>
      r.data.value == ProcessExcelData(NormalizeRows(sheet), parseFloat).value && r.toasts == [Toast(IMPORTED, true)]
    ensures r.data.None? ==> forall t :: t in r.toasts ==> !t.success
  {
    var check := ValidateExcelData(Some(sheet));
    if !check.ok then Import(None, [Toast(check.toast.value, false)])
    else ImportRows(check.rows, parseFloat)
  }

  /** The rows read into records, or the error of the failing row shown
      twice. */
  function ImportRows(rows: seq<Row>, parseFloat: FloatReader): (r: Import)
    ensures |r.toasts| >= 1
  {
    match ProcessExcelData(rows, parseFloat)
    case Failure(e) => Import(None, [Toast(Message(e), false), Toast(Message(e), false)])
    case Success(records) => Import(Some(records), [Toast(IMPORTED, true)])
  }

  /** The data is replaced exactly when a spreadsheet file was chosen, its
      first sheet has the required columns and every row of it is read;
      the new data is then the records of that sheet, with one success
      toast. Otherwise every toast is an error. */
  lemma ConfirmImportIff(file: Option<string>, book: Workbook, parseFloat: FloatReader)
    ensures ConfirmImport(file, book, parseFloat).data.Some? <==>
      (file.Some? && AcceptedFile(file.value) && book.Sheets? && book.sheets != []
      && ValidateExcelData(Some(book.sheets[0])).ok
      && ProcessExcelData(NormalizeRows(book.sheets[0]), parseFloat).Success?)
    ensures ConfirmImport(file, book, parseFloat).data.Some? ==>
      ConfirmImport(file, book, parseFloat).data == Some(ProcessExcelData(NormalizeRows(book.sheets[0]), parseFloat).value)
      && ConfirmImport(file, book, parseFloat).toasts == [Toast(IMPORTED, true)]
    ensures ConfirmImport(file, book, parseFloat).data.None? ==>
      forall t :: t in ConfirmImport(file, book, parseFloat).toasts ==> !t.success
  {
  }

  /** A failing row is reported twice, with the message of its error. */
  lemma RowErrorShownTwice(file: string, sheet: seq<RawRow>, parseFloat: FloatReader)
    requires AcceptedFile(file) && ValidateExcelData(Some(sheet)).ok
    requires ProcessExcelData(NormalizeRows(sheet), parseFloat).Failure?
    ensures var e := ProcessExcelData(NormalizeRows(sheet), parseFloat).error;
      ConfirmImport(Some(file), Sheets([sheet]), parseFloat).toasts == [Toast(Message(e), false), Toast(Message(e), false)]
  {
    ConfirmImportOfSheet(file, sheet, parseFloat);
    ImportSheetOfChecked(sheet, parseFloat);
    ImportRowsFailure(NormalizeRows(sheet), parseFloat);
  }

  lemma ConfirmImportOfSheet(file: string, sheet: seq<RawRow>, parseFloat: FloatReader)
    requires AcceptedFile(file)
    ensures ConfirmImport(Some(file), Sheets([sheet]), parseFloat) == ImportSheet(sheet, parseFloat)
  {
    var book := Sheets([sheet]);
    assert book.Sheets? && book.sheets != [] && book.sheets[0] == sheet;
    assert ConfirmImport(Some(file), book, parseFloat) == ImportSheet(book.sheets[0], parseFloat);
  }

  lemma ImportSheetOfChecked(sheet: seq<RawRow>, parseFloat: FloatReader)
    requires ValidateExcelData(Some(sheet)).ok
    ensures ImportSheet(sheet, parseFloat) == ImportRows(NormalizeRows(sheet), parseFloat)
  {
  }

  lemma ImportRowsFailure(rows: seq<Row>, parseFloat: FloatReader)
    requires ProcessExcelData(rows, parseFloat).Failure?
    ensures var e := ProcessExcelData(rows, parseFloat).error;
      ImportRows(rows, parseFloat) == Import(None, [Toast(Message(e), false), Toast(Message(e), false)])
  {
  }
}
