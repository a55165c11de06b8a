/** The print service: the printout of one request, of the request table,
    and of a custom report. What the model keeps of a printout is its title,
    its status badge and its table rows; the page layout, the styles and the
    print dialog are not part of it. */
module PrintService {
  import opened Wrappers
  import Text
  import Decimal
  import Records
  import Documents
  import EmailService
  import FormatUtils

  type Product = Records.Product

  // ---------------------------------------------------------------------
  // Status badge class
  // ---------------------------------------------------------------------

  const STATUS_PREFIX := "status-"

  /** The badge classes the print stylesheet gives a colour. */
  const STYLED_CLASSES: set<string> :=
    {FormatUtils.STATUS_PENDENTE, FormatUtils.STATUS_APROVADO, FormatUtils.STATUS_RECUSADO, FormatUtils.STATUS_REVISAO}

  /** The class `printRequest` writes, as written: the prefix and the
      status lower-cased without white space. */
  function StatusClassAsWritten(status: string): (r: string)
    ensures |r| >= |STATUS_PREFIX| && r[..|STATUS_PREFIX|] == STATUS_PREFIX
    ensures forall i :: 0 <= i < |r| ==> !Decimal.IsSpace(r[i])
  {
    STATUS_PREFIX + EmailService.StatusKey(status)
  }

  /** As written, a request in review gets 'status-emrevisão', which the
      stylesheet does not know, so its badge is left without colour. */
  lemma RevisaoClassUnstyled()
    ensures StatusClassAsWritten(Records.EM_REVISAO) == "status-emrevisão"
    ensures StatusClassAsWritten(Records.EM_REVISAO) !in STYLED_CLASSES
  {
    EmailService.RevisaoKey();
  }

  /** The class as intended: the review status gets the stylesheet's
      'status-revisao'; every other status keeps the written class. */
  function StatusClass(status: string): (r: string)
    ensures EmailService.StatusKey(status) != EmailService.REVISAO_KEY ==> r == StatusClassAsWritten(status)
  {
    if EmailService.StatusKey(status) == EmailService.REVISAO_KEY then FormatUtils.STATUS_REVISAO
    else StatusClassAsWritten(status)
  }

  /** Each of the four statuses gets a styled class, the same one the
      status badges of the request list use. */
  lemma StatusClassStyled(status: string)
    requires status in {Records.PENDENTE, Records.APROVADO, Records.RECUSADO, Records.EM_REVISAO}
    ensures StatusClass(status) in STYLED_CLASSES
    ensures StatusClass(status) == FormatUtils.StatusColor(status)
  {
    if status == Records.PENDENTE {
      PendenteClass();
    } else if status == Records.APROVADO {
      AprovadoClass();
    } else if status == Records.RECUSADO {
      RecusadoClass();
    } else {
      RevisaoClass();
    }
  }

  lemma PendenteClass()
    ensures StatusClass(Records.PENDENTE) == FormatUtils.STATUS_PENDENTE == FormatUtils.StatusColor(Records.PENDENTE)
  {
    EmailService.PendenteKey();
  }

  lemma AprovadoClass()
    ensures StatusClass(Records.APROVADO) == FormatUtils.STATUS_APROVADO == FormatUtils.StatusColor(Records.APROVADO)
  {
    EmailService.AprovadoKey();
  }

  lemma RecusadoClass()
    ensures StatusClass(Records.RECUSADO) == FormatUtils.STATUS_RECUSADO == FormatUtils.StatusColor(Records.RECUSADO)
  {
    EmailService.RecusadoKey();
  }

  lemma RevisaoClass()
    ensures StatusClass(Records.EM_REVISAO) == FormatUtils.STATUS_REVISAO == FormatUtils.StatusColor(Records.EM_REVISAO)
  {
    EmailService.RevisaoKey();
  }

  // ---------------------------------------------------------------------
  // printRequest
  // ---------------------------------------------------------------------

  /** A row of a printed table: cells, the bold total row, or the row
      spanning `colspan` columns that says there is nothing to show. */
  datatype Row = Cells(cells: seq<string>) | TotalRow(total: string) | EmptyRow(message: string, colspan: nat)

  const ITEM_COLUMNS := ["Fornecedor", "Liga", "Descrição", "Tipo", "Quantidade (kg)", "Previsão Entrega"]
  const NO_ITEMS := "Nenhum item encontrado na solicitação"
  const TITLE_PREFIX := "Solicitação de Compra #"

  /** The cells of one item, one per column; a number quantity is
      formatted without unit (the column header carries it). */
  function ItemCells(item: Product, fmt: Documents.NumberFormat): (r: seq<string>)
    ensures |r| == |ITEM_COLUMNS|
    ensures r[0] == item.supplier && r[1] == item.alloy && r[5] == item.deliveryDate
  {
    [item.supplier, item.alloy, item.productDescription, item.purchaseType,
     Documents.QuantityText(item.quantity, fmt, ""), item.deliveryDate]
  }

  /** The table body: one row per item in order, then the total row; or
      the single 'Nenhum item' row across all six columns. */
  function ItemsTable(items: seq<Product>, fmt: Documents.NumberFormat, pf: Documents.FloatReader): (r: seq<Row>)
    ensures |r| == |items| + 1
    ensures forall k :: 0 <= k < |items| ==> r[k] == Cells(ItemCells(items[k], fmt))
    ensures r[|items|] == if |items| > 0 then TotalRow(fmt(Documents.TotalWeight(items, pf)) + " kg")
                          else EmptyRow(NO_ITEMS, |ITEM_COLUMNS|)
  {
    if |items| > 0 then
      seq(|items|, k requires 0 <= k < |items| => Cells(ItemCells(items[k], fmt)))
        + [TotalRow(fmt(Documents.TotalWeight(items, pf)) + " kg")]
    else
      [EmptyRow(NO_ITEMS, |ITEM_COLUMNS|)]
  }

  /** The table has a total row exactly when the request has items, and
      then the total row is the last one. */
  lemma ItemsTableTotalIff(items: seq<Product>, fmt: Documents.NumberFormat, pf: Documents.FloatReader)
    ensures var r := ItemsTable(items, fmt, pf);
      (exists i :: 0 <= i < |r| && r[i].TotalRow?) <==> |items| > 0
  {
    var r := ItemsTable(items, fmt, pf);
    if |items| > 0 {
      assert r[|items|].TotalRow?;
    }
  }

  /** What the model keeps of a printout. */
  datatype Printout = Printout(title: string, date: string, statusLabel: string, statusClass: string, rows: seq<Row>)

  /** `printRequest`: nothing is printed unless id, date, status and items
      are all there; otherwise the printout is titled with the id, shows the
      status with its (corrected) class, and lists the items. */
  function PrintRequest(d: Documents.Details, fmt: Documents.NumberFormat, pf: Documents.FloatReader): (r: Option<Printout>)
    ensures r.None? <==> !Documents.HasDetails(d)
    ensures r.Some? ==> r.value.title == TITLE_PREFIX + Decimal.IntToString(d.id)
    ensures r.Some? ==> r.value.statusLabel == d.status && r.value.statusClass == StatusClass(d.status)
    ensures r.Some? ==> r.value.rows == ItemsTable(d.items.value, fmt, pf)
  {
    if !Documents.HasDetails(d) then None
    else
      Some(Printout(TITLE_PREFIX + Decimal.IntToString(d.id), d.date, d.status,
                    StatusClass(d.status), ItemsTable(d.items.value, fmt, pf)))
  }

  /** `printRequest` as written, with the badge class as written. */
  function PrintRequestAsWritten(d: Documents.Details, fmt: Documents.NumberFormat, pf: Documents.FloatReader): (r: Option<Printout>)
    ensures r.None? <==> !Documents.HasDetails(d)
    ensures r.Some? ==> r.value.title == TITLE_PREFIX + Decimal.IntToString(d.id)
    ensures r.Some? ==> r.value.statusLabel == d.status && r.value.statusClass == StatusClassAsWritten(d.status)
    ensures r.Some? ==> r.value.rows == ItemsTable(d.items.value, fmt, pf)
  {
    if !Documents.HasDetails(d) then None
    else
      Some(Printout(TITLE_PREFIX + Decimal.IntToString(d.id), d.date, d.status,
                    StatusClassAsWritten(d.status), ItemsTable(d.items.value, fmt, pf)))
  }

  /** The written and the corrected printout differ in the badge class
      alone, and only for a request in review. */
  lemma PrintRequestVersionsAgree(d: Documents.Details, fmt: Documents.NumberFormat, pf: Documents.FloatReader)
    ensures PrintRequestAsWritten(d, fmt, pf).Some? <==> PrintRequest(d, fmt, pf).Some?
    ensures PrintRequest(d, fmt, pf).Some? ==>
      PrintRequest(d, fmt, pf).value == PrintRequestAsWritten(d, fmt, pf).value.(statusClass := StatusClass(d.status))
    ensures EmailService.StatusKey(d.status) != EmailService.REVISAO_KEY ==>
      PrintRequestAsWritten(d, fmt, pf) == PrintRequest(d, fmt, pf)
  {
  }

  /** The title names the request: after the prefix, `parseInt` reads back
      its id. */
  lemma PrintTitleNamesRequest(d: Documents.Details, fmt: Documents.NumberFormat, pf: Documents.FloatReader)
    requires Documents.HasDetails(d)
    ensures var t := PrintRequest(d, fmt, pf).value.title;
      && |TITLE_PREFIX| <= |t| && t[..|TITLE_PREFIX|] == TITLE_PREFIX
      && Decimal.ParseInt(t[|TITLE_PREFIX|..]) == Some(d.id)
  {
    var t := PrintRequest(d, fmt, pf).value.title;
    assert t[|TITLE_PREFIX|..] == Decimal.IntToString(d.id);
    Decimal.ParseIntOfIntToString(d.id);
  }

  // ---------------------------------------------------------------------
  // printRequestsTable
  // ---------------------------------------------------------------------

  const TABLE_TITLE := "Solicitações de Compra"

  /** A table as rows of cells, header row included. */
  type Table = seq<seq<string>>

  /** A printed table and its title. */
  datatype TablePrintout = TablePrintout(title: string, rows: Table)

  /** The clone without its actions column: every row loses its last cell;
      a row without cells stays empty. */
  function DropActions(table: Table): (r: Table)
    ensures |r| == |table|
    ensures forall i :: 0 <= i < |table| && table[i] == [] ==> r[i] == []
    ensures forall i :: 0 <= i < |table| && table[i] != [] ==> r[i] + [table[i][|table[i]| - 1]] == table[i]
  {
    seq(|table|, i requires 0 <= i < |table| =>
      if table[i] == [] then [] else table[i][..|table[i]| - 1])
  }

  /** Every cell but the last of a row stays in its column. */
  lemma DropActionsKeepsOthers(table: Table, i: nat, j: nat)
    requires i < |table| && j + 1 < |table[i]|
    ensures DropActions(table)[i][j] == table[i][j]
  {
  }

  /** `printRequestsTable`: nothing without a table; otherwise the clone
      without its last column, under the given title or
      'Solicitações de Compra'. */
  function PrintRequestsTable(table: Option<Table>, title: Option<string>): (r: Option<TablePrintout>)
    ensures r.None? <==> table.None?
    ensures r.Some? ==> r.value.title == title.GetOr(TABLE_TITLE)
    ensures r.Some? ==> r.value.rows == DropActions(table.value)
    ensures r.Some? ==> |r.value.rows| == |table.value|
    ensures r.Some? ==> forall i :: 0 <= i < |table.value| && table.value[i] != [] ==>
      |r.value.rows[i]| + 1 == |table.value[i]|
  {
    match table
    case None => None
    case Some(t) => Some(TablePrintout(title.GetOr(TABLE_TITLE), DropActions(t)))
  }

  // ---------------------------------------------------------------------
  // printReport
  // ---------------------------------------------------------------------

  const NO_DATA := "Nenhum dado encontrado"

  /** What the model keeps of a printed report. `summary` is the summary
      list, present only when it has entries. */
  datatype Report = Report(title: string, headers: seq<string>, body: seq<Row>, summary: Option<seq<(string, string)>>)

  /** `printReport`: nothing without headers and rows; every row printed
      in order, or one 'Nenhum dado' row spanning all header columns; the
      summary (its entries in order) only when it has at least one. */
  function PrintReport(headers: Option<seq<string>>, rows: Option<seq<seq<string>>>,
                       summary: Option<seq<(string, string)>>, title: string): (r: Option<Report>)
    ensures r.None? <==> headers.None? || rows.None?
    ensures r.Some? && rows.value == [] ==> r.value.body == [EmptyRow(NO_DATA, |headers.value|)]
    ensures r.Some? && rows.value != [] ==>
      |r.value.body| == |rows.value| && forall k :: 0 <= k < |rows.value| ==> r.value.body[k] == Cells(rows.value[k])
    ensures r.Some? ==> (r.value.summary.Some? <==> summary.Some? && summary.value != [])
    ensures r.Some? && r.value.summary.Some? ==> r.value.summary == summary
  {
    if headers.None? || rows.None? then None
    else
      var hs := headers.value;
      var rs := rows.value;
      var body := if rs != [] then seq(|rs|, k requires 0 <= k < |rs| => Cells(rs[k])) else [EmptyRow(NO_DATA, |hs|)];
      var shown := if summary.Some? && summary.value != [] then summary else None;
      Some(Report(title, hs, body, shown))
  }
}
