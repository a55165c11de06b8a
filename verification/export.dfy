/** The export module of the purchase-request page: the printed sheet of a
    request and the e-mail that carries its details. Number and date
    formatting come from the page's data module and are parameters. */
module Export {
  import opened Wrappers
  import Text
  import Decimal
  import Records
  import Documents
  import PrintService
  import FormatUtils

  // ---------------------------------------------------------------------
  // Status class
  // ---------------------------------------------------------------------

  const STATUS_PREFIX := "status-"

  /** The class the sheet writes, as written: the prefix and the status
      lower-cased, white space kept. */
  function StatusClassAsWritten(status: string): (r: string)
    ensures |r| == |STATUS_PREFIX| + |status|
    ensures r[..|STATUS_PREFIX|] == STATUS_PREFIX && r[|STATUS_PREFIX|..] == Text.Lower(status)
  {
    STATUS_PREFIX + Text.Lower(status)
  }

  /** The classes of the badge: its `class` attribute split at spaces. */
  function BadgeClasses(statusClass: string): seq<string> {
    Text.Split("status " + statusClass, ' ')
  }

  /** As written, a request in review gets the classes 'status-em' and
      'revisão', neither of which the sheet's stylesheet colours. */
  lemma RevisaoBadgeUnstyled()
    ensures BadgeClasses(StatusClassAsWritten(Records.EM_REVISAO)) == ["status", "status-em", "revisão"]
    ensures forall c :: c in BadgeClasses(StatusClassAsWritten(Records.EM_REVISAO)) ==> c !in PrintService.STYLED_CLASSES
  {
    RevisaoClassText();
    Text.SplitThree("status", "status-em", "revisão", ' ');
    assert "status " + "status-em revisão" == "status" + [' '] + "status-em" + [' '] + "revisão";
  }

  lemma RevisaoClassText()
    ensures StatusClassAsWritten(Records.EM_REVISAO) == "status-em revisão"
  {
    assert Records.EM_REVISAO == "Em" + " " + "Revisão";
    assert Text.Lower("Em" + " " + "Revisão") == "em revisão";
  }

  /** For the three one-word statuses the written class is already the
      styled one, so the corrected class changes only the review badge. */
  lemma OneWordStatusesAgree(status: string)
    requires status in {Records.PENDENTE, Records.APROVADO, Records.RECUSADO}
    ensures StatusClassAsWritten(status) == PrintService.StatusClass(status)
    ensures StatusClassAsWritten(status) in PrintService.STYLED_CLASSES
  {
    if status == Records.PENDENTE {
      PendenteAgrees();
    } else if status == Records.APROVADO {
      AprovadoAgrees();
    } else {
      RecusadoAgrees();
    }
  }

  lemma PendenteAgrees()
    ensures StatusClassAsWritten(Records.PENDENTE) == PrintService.StatusClass(Records.PENDENTE)
    ensures StatusClassAsWritten(Records.PENDENTE) in PrintService.STYLED_CLASSES
  {
    assert StatusClassAsWritten(Records.PENDENTE) == FormatUtils.STATUS_PENDENTE by {
      assert Text.Lower(Records.PENDENTE) == "pendente";
    }
    PrintService.PendenteClass();
  }

  lemma AprovadoAgrees()
    ensures StatusClassAsWritten(Records.APROVADO) == PrintService.StatusClass(Records.APROVADO)
    ensures StatusClassAsWritten(Records.APROVADO) in PrintService.STYLED_CLASSES
  {
    assert StatusClassAsWritten(Records.APROVADO) == FormatUtils.STATUS_APROVADO by {
      assert Text.Lower(Records.APROVADO) == "aprovado";
    }
    PrintService.AprovadoClass();
  }

  lemma RecusadoAgrees()
    ensures StatusClassAsWritten(Records.RECUSADO) == PrintService.StatusClass(Records.RECUSADO)
    ensures StatusClassAsWritten(Records.RECUSADO) in PrintService.STYLED_CLASSES
  {
    assert StatusClassAsWritten(Records.RECUSADO) == FormatUtils.STATUS_RECUSADO by {
      assert Text.Lower(Records.RECUSADO) == "recusado";
    }
    PrintService.RecusadoClass();
  }

  // ---------------------------------------------------------------------
  // printRequest
  // ---------------------------------------------------------------------

  const TITLE_PREFIX := "Solicitação de Compra #"

  /** What the model keeps of the printed sheet. */
  datatype Sheet = Sheet(title: string, date: string, statusLabel: string, statusClass: string, rows: seq<seq<string>>)

  /** The six cells of one product. */
  function ProductCells(p: Records.Product, formatNumber: Records.Quantity -> string,
                        formatDate: string -> string): (r: seq<string>)
    ensures |r| == 6 && r[0] == p.supplier && r[1] == p.alloy && r[2] == p.productDescription
  {
    [p.supplier, p.alloy, p.productDescription, p.purchaseType, formatNumber(p.quantity), formatDate(p.deliveryDate)]
  }

  /** `products.map(…)`: one row per product, in order. */
  function ProductRows(ps: seq<Records.Product>, formatNumber: Records.Quantity -> string,
                       formatDate: string -> string): (r: seq<seq<string>>)
    ensures |r| == |ps|
    ensures forall k :: 0 <= k < |ps| ==> r[k] == ProductCells(ps[k], formatNumber, formatDate)
  {
    if ps == [] then []
    else
      var init := ProductRows(ps[..|ps| - 1], formatNumber, formatDate);
      assert forall k :: 0 <= k < |ps| - 1 ==> ps[..|ps| - 1][k] == ps[k];
      init + [ProductCells(ps[|ps| - 1], formatNumber, formatDate)]
  }

  /** The rows of two runs of products are the rows of the first run
      followed by those of the second. */
  lemma {:induction false} ProductRowsAppend(a: seq<Records.Product>, b: seq<Records.Product>,
                                             formatNumber: Records.Quantity -> string, formatDate: string -> string)
    ensures ProductRows(a + b, formatNumber, formatDate)
      == ProductRows(a, formatNumber, formatDate) + ProductRows(b, formatNumber, formatDate)
  {
    var r := ProductRows(a + b, formatNumber, formatDate);
    var s := ProductRows(a, formatNumber, formatDate) + ProductRows(b, formatNumber, formatDate);
    assert |r| == |s|;
    forall k | 0 <= k < |r|
      ensures r[k] == s[k]
    {
      if k < |a| {
        assert (a + b)[k] == a[k];
      } else {
        assert (a + b)[k] == b[k - |a|];
      }
    }
  }

  /** `printRequest`: the sheet of a request, titled with its id, its
      badge with the corrected class, one row per product. */
  function PrintRequest(req: Records.Request, formatNumber: Records.Quantity -> string,
                        formatDate: string -> string): (r: Sheet)
    ensures r.title == TITLE_PREFIX + Decimal.IntToString(req.id)
    ensures r.statusLabel == req.status && r.statusClass == PrintService.StatusClass(req.status)
    ensures |r.rows| == |req.products|
    ensures forall k :: 0 <= k < |req.products| ==> r.rows[k] == ProductCells(req.products[k], formatNumber, formatDate)
  {
    Sheet(TITLE_PREFIX + Decimal.IntToString(req.id), formatDate(req.date), req.status,
          PrintService.StatusClass(req.status), ProductRows(req.products, formatNumber, formatDate))
  }

  /** The sheet as written, with the badge class as written. */
  function PrintRequestAsWritten(req: Records.Request, formatNumber: Records.Quantity -> string,
                                 formatDate: string -> string): (r: Sheet)
    ensures r.title == TITLE_PREFIX + Decimal.IntToString(req.id)
    ensures r.statusLabel == req.status && r.statusClass == StatusClassAsWritten(req.status)
    ensures |r.rows| == |req.products|
    ensures forall k :: 0 <= k < |req.products| ==> r.rows[k] == ProductCells(req.products[k], formatNumber, formatDate)
  {
    Sheet(TITLE_PREFIX + Decimal.IntToString(req.id), formatDate(req.date), req.status,
          StatusClassAsWritten(req.status), ProductRows(req.products, formatNumber, formatDate))
  }

  /** The written and the corrected sheet differ in the badge class alone,
      and not at all for the three one-word statuses. */
  lemma PrintRequestVersionsAgree(req: Records.Request, formatNumber: Records.Quantity -> string,
                                  formatDate: string -> string)
    ensures PrintRequest(req, formatNumber, formatDate)
      == PrintRequestAsWritten(req, formatNumber, formatDate).(statusClass := PrintService.StatusClass(req.status))
    ensures req.status in {Records.PENDENTE, Records.APROVADO, Records.RECUSADO} ==>
      PrintRequestAsWritten(req, formatNumber, formatDate) == PrintRequest(req, formatNumber, formatDate)
  {
    if req.status in {Records.PENDENTE, Records.APROVADO, Records.RECUSADO} {
      OneWordStatusesAgree(req.status);
    }
  }

  // ---------------------------------------------------------------------
  // emailRequest
  // ---------------------------------------------------------------------

  const DETAILS_HEADING := "Detalhes da Solicitação:\n\n"
  const MORE_DETAILS := "Para mais detalhes, acesse o sistema."
  const MAIL_OPENED := "E-mail aberto no seu cliente de e-mail padrão"

  /** A request e-mail: subject, body pieces, and the success toast. */
  datatype Mail = Mail(subject: string, body: seq<string>, toast: string)

  /** `emailRequest`: the subject names the request; the body lists its
      id, date and status, one line each, then the closing line. */
  function EmailRequest(req: Records.Request, formatDate: string -> string): (r: Mail)
    ensures |r.body| == 5
    ensures r.body[1] == "ID: " + Decimal.IntToString(req.id) + "\n"
    ensures r.body[2] == "Data: " + formatDate(req.date) + "\n"
    ensures r.body[3] == "Status: " + req.status + "\n\n"
    ensures r.body[4] == MORE_DETAILS
  {
    Mail(TITLE_PREFIX + Decimal.IntToString(req.id),
         [DETAILS_HEADING,
          "ID: " + Decimal.IntToString(req.id) + "\n",
          "Data: " + formatDate(req.date) + "\n",
          "Status: " + req.status + "\n\n",
          MORE_DETAILS],
         MAIL_OPENED)
  }

  /** The subject names the request: after the prefix, `parseInt` reads
      back its id. */
  lemma EmailSubjectNamesRequest(req: Records.Request, formatDate: string -> string)
    ensures var s := EmailRequest(req, formatDate).subject;
      && |TITLE_PREFIX| <= |s| && s[..|TITLE_PREFIX|] == TITLE_PREFIX
      && Decimal.ParseInt(s[|TITLE_PREFIX|..]) == Some(req.id)
  {
    var s := EmailRequest(req, formatDate).subject;
    assert s[|TITLE_PREFIX|..] == Decimal.IntToString(req.id);
    Decimal.ParseIntOfIntToString(req.id);
  }

  /** In the text of the body the ID line comes before the date line,
      which comes before the status line. */
  lemma EmailBodyInOrder(req: Records.Request, formatDate: string -> string)
    ensures var b := EmailRequest(req, formatDate).body;
      var text := Documents.Concat(b);
      && Text.OccursAt(text, b[1], Documents.Offset(b, 1))
      && Text.OccursAt(text, b[2], Documents.Offset(b, 2))
      && Text.OccursAt(text, b[3], Documents.Offset(b, 3))
      && Documents.Offset(b, 1) < Documents.Offset(b, 2) < Documents.Offset(b, 3)
  {
    var b := EmailRequest(req, formatDate).body;
    Documents.PiecesAppearInOrder(b, 1, 2, b[1], b[2]);
    Documents.PiecesAppearInOrder(b, 2, 3, b[2], b[3]);
  }

  /** The text of the body ends with the closing line. */
  lemma EmailBodyEndsWithClosing(req: Records.Request, formatDate: string -> string)
    ensures var text := Documents.Concat(EmailRequest(req, formatDate).body);
      && |MORE_DETAILS| <= |text|
      && text[|text| - |MORE_DETAILS|..] == MORE_DETAILS
  {
    var b := EmailRequest(req, formatDate).body;
    assert b == b[..4] + [MORE_DETAILS];
    assert Documents.Concat(b) == Documents.Concat(b[..4]) + MORE_DETAILS;
  }
}
