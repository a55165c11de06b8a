/** The e-mail service of the purchase-request module: the colour of a
    status badge, the review e-mail sent back to the requester, and the
    e-mail carrying a request's details. What the model keeps of a mail is
    its recipient, subject, status badge, the HTML of the review notes and
    the plain-text body as the pieces the source appends one by one. */
module EmailService {
  import opened Wrappers
  import Text
  import Decimal
  import Records
  import Documents

  type Product = Records.Product

  // ---------------------------------------------------------------------
  // Status badge
  // ---------------------------------------------------------------------

  /** Background and text colour of a badge. */
  datatype Colors = Colors(bg: string, text: string)

  const PENDENTE_COLORS := Colors("#ffc107", "#000")
  const APROVADO_COLORS := Colors("#28a745", "#fff")
  const RECUSADO_COLORS := Colors("#dc3545", "#fff")
  const REVISAO_COLORS := Colors("#17a2b8", "#fff")

  const PENDENTE_KEY := "pendente"
  const APROVADO_KEY := "aprovado"
  const RECUSADO_KEY := "recusado"
  const REVISAO_KEY := "emrevisão"

  /** The lookup key of a status: lower-cased, white space removed. */
  function StatusKey(status: string): (r: string)
    ensures forall i :: 0 <= i < |r| ==> !Decimal.IsSpace(r[i])
  {
    Text.RemoveSpaces(Text.Lower(status))
  }

  /** `getStatusStyle`'s colour choice: the colours of the status whose key
      matches, the pending colours for any other key. */
  function StatusColors(status: string): (r: Colors)
    ensures r in {PENDENTE_COLORS, APROVADO_COLORS, RECUSADO_COLORS, REVISAO_COLORS}
  {
    var colors := map[
      PENDENTE_KEY := PENDENTE_COLORS,
      APROVADO_KEY := APROVADO_COLORS,
      RECUSADO_KEY := RECUSADO_COLORS,
      REVISAO_KEY := REVISAO_COLORS];
    var key := StatusKey(status);
    if key in colors then colors[key] else colors[PENDENTE_KEY]
  }

  /** The inline style `getStatusStyle` returns. */
  function StatusStyle(status: string): string {
    var c := StatusColors(status);
    "background-color: " + c.bg + "; color: " + c.text + ";"
  }

  /** Each colour is chosen exactly by its key; every other key, unknown
      statuses included, gets the pending colours. */
  lemma StatusColorsByKey(status: string)
    ensures StatusColors(status) == APROVADO_COLORS <==> StatusKey(status) == APROVADO_KEY
    ensures StatusColors(status) == RECUSADO_COLORS <==> StatusKey(status) == RECUSADO_KEY
    ensures StatusColors(status) == REVISAO_COLORS <==> StatusKey(status) == REVISAO_KEY
    ensures StatusColors(status) == PENDENTE_COLORS
      <==> StatusKey(status) !in {APROVADO_KEY, RECUSADO_KEY, REVISAO_KEY}
  {
  }

  lemma LowerCons(c: char, t: string)
    ensures Text.Lower([c] + t) == [Text.LowerChar(c)] + Text.Lower(t)
  {
  }

  /** Lower-casing neither makes nor unmakes white space, so the two
      steps of the key can be taken in either order. */
  lemma {:induction false} LowerRemoveSpaces(s: string)
    ensures Text.RemoveSpaces(Text.Lower(s)) == Text.Lower(Text.RemoveSpaces(s))
  {
    if |s| > 0 {
      var l := Text.Lower(s);
      assert l == [Text.LowerChar(s[0])] + Text.Lower(s[1..]) by {
        LowerCons(s[0], s[1..]);
        assert s == [s[0]] + s[1..];
      }
      assert l[1..] == Text.Lower(s[1..]);
      assert Decimal.IsSpace(Text.LowerChar(s[0])) == Decimal.IsSpace(s[0]);
      LowerRemoveSpaces(s[1..]);
      if !Decimal.IsSpace(s[0]) {
        LowerCons(s[0], Text.RemoveSpaces(s[1..]));
      }
    }
  }

  /** Case and white space never change a badge: the status written in
      lower case, or with its spaces removed, gets the same colours. */
  lemma StatusColorsIgnoreCaseAndSpaces(status: string)
    ensures StatusColors(Text.Lower(status)) == StatusColors(status)
    ensures StatusColors(Text.RemoveSpaces(status)) == StatusColors(status)
  {
    Text.LowerIdempotent(status);
    LowerRemoveSpaces(status);
    var k := StatusKey(status);
    Text.RemoveSpacesKeeps(k);
    assert StatusKey(Text.RemoveSpaces(status)) == k;
  }

  /** A status whose lower-case spelling has no white space is its own key. */
  lemma KeyOfWord(status: string, key: string)
    requires Text.Lower(status) == key
    requires forall i :: 0 <= i < |key| ==> !Decimal.IsSpace(key[i])
    ensures StatusKey(status) == key
  {
    Text.RemoveSpacesKeeps(key);
  }

  /** The four statuses of the application get their own colours. */
  lemma StatusColorsOfStatuses()
    ensures StatusColors(Records.PENDENTE) == PENDENTE_COLORS
    ensures StatusColors(Records.APROVADO) == APROVADO_COLORS
    ensures StatusColors(Records.RECUSADO) == RECUSADO_COLORS
    ensures StatusColors(Records.EM_REVISAO) == REVISAO_COLORS
  {
    PendenteKey();
    AprovadoKey();
    RecusadoKey();
    RevisaoKey();
  }

  lemma PendenteKey()
    ensures StatusKey(Records.PENDENTE) == PENDENTE_KEY
  {
    KeyOfWord(Records.PENDENTE, PENDENTE_KEY);
  }

  lemma AprovadoKey()
    ensures StatusKey(Records.APROVADO) == APROVADO_KEY
  {
    KeyOfWord(Records.APROVADO, APROVADO_KEY);
  }

  lemma RecusadoKey()
    ensures StatusKey(Records.RECUSADO) == RECUSADO_KEY
  {
    KeyOfWord(Records.RECUSADO, RECUSADO_KEY);
  }

  /** 'Em Revisão' loses its inner space: its key is 'emrevisão'. */
  lemma RevisaoKey()
    ensures StatusKey(Records.EM_REVISAO) == REVISAO_KEY
  {
    LowerRevisao();
    RemoveRevisaoSpace();
  }

  lemma RemoveRevisaoSpace()
    ensures Text.RemoveSpaces("em" + " " + "revisão") == REVISAO_KEY
  {
    RemoveOneSpace("em", "revisão");
    assert "em" + "revisão" == REVISAO_KEY;
  }

  /** Two words around one space lose the space. */
  lemma RemoveOneSpace(a: string, b: string)
    requires forall i :: 0 <= i < |a| ==> !Decimal.IsSpace(a[i])
    requires forall i :: 0 <= i < |b| ==> !Decimal.IsSpace(b[i])
    ensures Text.RemoveSpaces(a + " " + b) == a + b
  {
    var sp := " ";
    assert Text.RemoveSpaces(sp) == "" by {
      assert sp[1..] == "";
    }
    calc {
      Text.RemoveSpaces(a + sp + b);
      { Text.RemoveSpacesConcat(a + sp, b); }
      Text.RemoveSpaces(a + sp) + Text.RemoveSpaces(b);
      { Text.RemoveSpacesConcat(a, sp); }
      Text.RemoveSpaces(a) + "" + Text.RemoveSpaces(b);
      { Text.RemoveSpacesKeeps(a); Text.RemoveSpacesKeeps(b); }
      a + "" + b;
      { assert a + "" == a; }
      a + b;
    }
  }

  lemma LowerRevisao()
    ensures Text.Lower(Records.EM_REVISAO) == "em" + " " + "revisão"
  {
    assert Records.EM_REVISAO == "Em" + " " + "Revisão";
    LowerConcat("Em" + " ", "Revisão");
    LowerConcat("Em", " ");
    assert Text.Lower("Em") == "em";
    assert Text.Lower(" ") == " ";
    assert Text.Lower("Revisão") == "revisão";
  }

  lemma LowerConcat(a: string, b: string)
    ensures Text.Lower(a + b) == Text.Lower(a) + Text.Lower(b)
  {
  }

  // ---------------------------------------------------------------------
  // Notes in HTML
  // ---------------------------------------------------------------------

  const BR := "<br>"

  /** `notes.replace(/\n/g, '<br>')`. */
  function BreakLines(notes: string): (r: string)
    ensures '\n' !in r
  {
    if notes == [] then []
    else (if notes[0] == '\n' then BR else [notes[0]]) + BreakLines(notes[1..])
  }

  /** The HTML notes are the lines of the notes joined by `<br>`. */
  lemma {:induction false} BreakLinesJoinsLines(notes: string)
    ensures BreakLines(notes) == Text.Join(Text.Split(notes, '\n'), BR)
  {
    if notes != [] {
      var rest := Text.Split(notes[1..], '\n');
      BreakLinesJoinsLines(notes[1..]);
      if notes[0] != '\n' && |rest| > 1 {
        assert Text.Join(rest, BR) == rest[0] + BR + Text.Join(rest[1..], BR);
      }
    }
  }

  // ---------------------------------------------------------------------
  // Plain-text item list
  // ---------------------------------------------------------------------

  const ITEMS_HEADING := "ITENS DA SOLICITAÇÃO:\n"
  const NO_ITEMS := "\nNenhum item encontrado na solicitação.\n"

  /** The first line of an item: its number, supplier and alloy. */
  function NumberedLine(n: nat, item: Product): (r: string)
    ensures |r| > 0 && r[0] == '\n'
  {
    "\n" + Decimal.NatToString(n) + ". " + item.supplier + " - " + item.alloy + "\n"
  }

  /** The five pieces one item adds to the plain text. */
  function ItemBlock(n: nat, item: Product, fmt: Documents.NumberFormat): (r: seq<string>)
    ensures |r| == 5
  {
    [NumberedLine(n, item),
     "   Descrição: " + item.productDescription + "\n",
     "   Quantidade: " + Documents.QuantityText(item.quantity, fmt, " kg") + "\n",
     "   Tipo: " + item.purchaseType + "\n",
     "   Previsão de Entrega: " + item.deliveryDate + "\n"]
  }

  /** `items.forEach((item, index) => …)`: every item in order, numbered
      from 1. */
  function ItemBlocks(items: seq<Product>, fmt: Documents.NumberFormat): (r: seq<string>)
    ensures |r| == 5 * |items|
    ensures forall k :: 0 <= k < |items| ==> r[5 * k] == NumberedLine(k + 1, items[k])
  {
    if items == [] then []
    else
      var n := |items|;
      var init := ItemBlocks(items[..n - 1], fmt);
      var r := init + ItemBlock(n, items[n - 1], fmt);
      assert forall k :: 0 <= k < n - 1 ==> r[5 * k] == init[5 * k] && items[..n - 1][k] == items[k];
      r
  }

  /** A piece that starts a `Total:` line. */
  predicate TotalPiece(p: string) {
    |p| >= 2 && p[0] == '\n' && p[1] == 'T'
  }

  /** No piece of the item list starts a `Total:` line. */
  lemma {:induction false} ItemBlocksHaveNoTotal(items: seq<Product>, fmt: Documents.NumberFormat)
    ensures forall i :: 0 <= i < |ItemBlocks(items, fmt)| ==> !TotalPiece(ItemBlocks(items, fmt)[i])
  {
    if items != [] {
      var n := |items|;
      ItemBlocksHaveNoTotal(items[..n - 1], fmt);
      var digits := Decimal.NatToString(n);
      assert NumberedLine(n, items[n - 1])[1] == digits[0];
      assert Decimal.IsDigit(digits[0]);
    }
  }

  // ---------------------------------------------------------------------
  // sendReviewEmail
  // ---------------------------------------------------------------------

  const REVIEWER := "revisor@tecnoperfil.com.br"
  const COMPANY := "TECNOPERFIL ALUMINIO LTDA"
  const EMAIL_FOOTER := "Este e-mail foi enviado automaticamente pelo Sistema de Gestão LME."
  const NOTES_HEADING := "\nOBSERVAÇÕES PARA REVISÃO:\n"
  const REVIEW_PLEA := "Por favor, revise esta solicitação e faça as alterações necessárias.\n\n"

  /** What the services keep of a mail. `notesHtml` is the notes paragraph
      of the HTML version, present in review mails only. */
  datatype Mail = Mail(
    recipient: string,
    subject: string,
    statusLabel: string,
    statusStyle: string,
    notesHtml: Option<string>,
    plainText: seq<string>)

  /** A request as the review mail reads it: the items may be stored under
      `items` or, in older records, under `products`. */
  datatype ReviewRequest = ReviewRequest(
    id: int,
    date: string,
    status: string,
    items: Option<seq<Product>>,
    products: Option<seq<Product>>)

  /** `request.items || request.products || []`. */
  function ReviewItems(req: ReviewRequest): seq<Product> {
    req.items.GetOr(req.products.GetOr([]))
  }

  /** The items list wins whenever it is there, even empty (an empty
      array is truthy); the products are read only without it. */
  lemma ReviewItemsFallback(req: ReviewRequest)
    ensures req.items.Some? ==> ReviewItems(req) == req.items.value
    ensures req.items.None? && req.products.Some? ==> ReviewItems(req) == req.products.value
    ensures req.items.None? && req.products.None? ==> ReviewItems(req) == []
  {
  }

  /** The plain-text version of the review mail. */
  function ReviewPlainText(req: ReviewRequest, notes: string, dateText: string,
                           fmt: Documents.NumberFormat, year: int): (r: seq<string>)
    ensures var n := |ReviewItems(req)|;
      && |r| == (if n > 0 then 8 + 5 * n else 9)
      && r[2] == "Status: Em Revisão\n\n"
      && r[|r| - 4] == NOTES_HEADING + notes + "\n\n"
  {
    var items := ReviewItems(req);
    ["Solicitação de Revisão #" + Decimal.IntToString(req.id) + "\n\n",
     "Data: " + dateText + "\n",
     "Status: Em Revisão\n\n",
     ITEMS_HEADING]
    + (if |items| > 0 then ItemBlocks(items, fmt) else [NO_ITEMS])
    + [NOTES_HEADING + notes + "\n\n",
       REVIEW_PLEA,
       EMAIL_FOOTER + "\n",
       COMPANY + " - " + Decimal.IntToString(year)]
  }

  /** `sendReviewEmail`: a mail to the reviewer, its subject naming the
      request and its date; the badge always reads 'Em Revisão'. `formatDate`
      and the current year are parameters. */
  function ReviewEmail(req: ReviewRequest, notes: string, formatDate: string -> string,
                       fmt: Documents.NumberFormat, year: int): (r: Mail)
    ensures r.recipient == REVIEWER
    ensures r.statusLabel == Records.EM_REVISAO
    ensures r.notesHtml == Some(Text.Join(Text.Split(notes, '\n'), BR))
  {
    BreakLinesJoinsLines(notes);
    var date := formatDate(req.date);
    Mail(REVIEWER,
         "Solicitação de Revisão #" + Decimal.IntToString(req.id) + " - " + date,
         Records.EM_REVISAO,
         StatusStyle(Records.EM_REVISAO),
         Some(BreakLines(notes)),
         ReviewPlainText(req, notes, date, fmt, year))
  }

  /** The review mail does not depend on the request's own status, and its
      badge has the review colours. */
  lemma ReviewIgnoresStatus(req: ReviewRequest, status: string, notes: string,
                            formatDate: string -> string, fmt: Documents.NumberFormat, year: int)
    ensures ReviewEmail(req.(status := status), notes, formatDate, fmt, year)
      == ReviewEmail(req, notes, formatDate, fmt, year)
    ensures StatusColors(ReviewEmail(req, notes, formatDate, fmt, year).statusLabel) == REVISAO_COLORS
  {
    StatusColorsOfStatuses();
  }

  /** The notes reach the plain text unchanged, and every item of the
      request is listed, numbered from 1 in order. */
  lemma ReviewTextListsItems(req: ReviewRequest, notes: string, dateText: string,
                             fmt: Documents.NumberFormat, year: int, k: nat)
    requires k < |ReviewItems(req)|
    ensures var body := ReviewPlainText(req, notes, dateText, fmt, year);
      Text.Contains(Documents.Concat(body), NumberedLine(k + 1, ReviewItems(req)[k]))
  {
    var items := ReviewItems(req);
    var body := ReviewPlainText(req, notes, dateText, fmt, year);
    var blocks := ItemBlocks(items, fmt);
    assert body[4 + 5 * k] == blocks[5 * k];
    Documents.PieceOccurs(body, 4 + 5 * k);
  }

  // ---------------------------------------------------------------------
  // emailRequest
  // ---------------------------------------------------------------------

  const DETAILS_HEADING := "Detalhes da Solicitação:\n\n"
  const MORE_DETAILS := "\nPara mais detalhes, acesse o sistema."
  const SUBJECT_PREFIX := "Solicitação de Compra #"

  type Details = Documents.Details

  /** The `Total:` line after the items. */
  function TotalLine(total: string): string {
    "\nTotal: " + total + " kg\n"
  }

  /** The lines before the items: the request's id, date and status. */
  function RequestHeader(id: int, date: string, status: string): (r: seq<string>)
    ensures |r| == 5
    ensures r[1] == "ID: " + Decimal.IntToString(id) + "\n"
    ensures r[2] == "Data: " + date + "\n"
    ensures r[3] == "Status: " + status + "\n\n"
    ensures forall i :: 0 <= i < 5 ==> !TotalPiece(r[i])
  {
    var r := [DETAILS_HEADING,
              "ID: " + Decimal.IntToString(id) + "\n",
              "Data: " + date + "\n",
              "Status: " + status + "\n\n",
              ITEMS_HEADING];
    assert r[1][0] == 'I' && r[2][0] == 'D' && r[3][0] == 'S';
    r
  }

  /** The items numbered from 1 followed by their total, or the
      'Nenhum item' line when there are none: a `Total:` line appears
      exactly when there are items. */
  function ItemsSection(items: seq<Product>, fmt: Documents.NumberFormat, pf: Documents.FloatReader): (r: seq<string>)
    ensures |r| == 1 + 5 * |items|
    ensures forall k :: 0 <= k < |items| ==> r[5 * k] == NumberedLine(k + 1, items[k])
    ensures r[5 * |items|] == if |items| > 0 then TotalLine(fmt(Documents.TotalWeight(items, pf))) else NO_ITEMS
    ensures forall i :: 0 <= i < 5 * |items| ==> !TotalPiece(r[i])
  {
    var blocks := ItemBlocks(items, fmt);
    ItemBlocksHaveNoTotal(items, fmt);
    if |items| > 0 then blocks + [TotalLine(fmt(Documents.TotalWeight(items, pf)))] else [NO_ITEMS]
  }

  /** The plain-text version of a request mail: header, items, then the
      closing line. */
  function RequestPlainText(id: int, date: string, status: string, items: seq<Product>,
                            fmt: Documents.NumberFormat, pf: Documents.FloatReader): (r: seq<string>)
    ensures |r| == 7 + 5 * |items|
    ensures r[1] == "ID: " + Decimal.IntToString(id) + "\n"
    ensures r[2] == "Data: " + date + "\n"
    ensures r[3] == "Status: " + status + "\n\n"
    ensures forall k :: 0 <= k < |items| ==> r[5 + 5 * k] == NumberedLine(k + 1, items[k])
    ensures r[5 + 5 * |items|] == if |items| > 0 then TotalLine(fmt(Documents.TotalWeight(items, pf))) else NO_ITEMS
    ensures r[|r| - 1] == MORE_DETAILS
  {
    var head := RequestHeader(id, date, status);
    var section := ItemsSection(items, fmt, pf);
    var r := head + section + [MORE_DETAILS];
    forall k | 0 <= k < |items|
      ensures r[5 + 5 * k] == NumberedLine(k + 1, items[k])
    {
      Middle(head, section, [MORE_DETAILS], 5 * k);
    }
    r
  }

  /** Indexing into the middle of three joined sequences. */
  lemma Middle<T>(a: seq<T>, b: seq<T>, c: seq<T>, i: nat)
    requires i < |b|
    ensures (a + b + c)[|a| + i] == b[i]
  {
  }

  /** The plain text has a `Total:` line exactly when the request has items. */
  lemma RequestTextTotalIff(id: int, date: string, status: string, items: seq<Product>,
                            fmt: Documents.NumberFormat, pf: Documents.FloatReader)
    ensures var r := RequestPlainText(id, date, status, items, fmt, pf);
      (exists i :: 0 <= i < |r| && TotalPiece(r[i])) <==> |items| > 0
  {
    var r := RequestPlainText(id, date, status, items, fmt, pf);
    if |items| > 0 {
      TotalLineIsTotal(fmt(Documents.TotalWeight(items, pf)));
      assert TotalPiece(r[5 + 5 * |items|]);
    } else {
      assert items == [];
      NoTotalWithoutItems(id, date, status, fmt, pf);
    }
  }

  lemma TotalLineIsTotal(total: string)
    ensures TotalPiece(TotalLine(total))
  {
    assert TotalLine(total)[..2] == "\nT";
  }

  lemma NoTotalWithoutItems(id: int, date: string, status: string, fmt: Documents.NumberFormat,
                            pf: Documents.FloatReader)
    ensures var r := RequestPlainText(id, date, status, [], fmt, pf);
      forall i :: 0 <= i < |r| ==> !TotalPiece(r[i])
  {
    var head := RequestHeader(id, date, status);
    var r := RequestPlainText(id, date, status, [], fmt, pf);
    assert r == head + [NO_ITEMS] + [MORE_DETAILS] by {
      assert ItemsSection([], fmt, pf) == [NO_ITEMS];
    }
    assert !TotalPiece(NO_ITEMS) && !TotalPiece(MORE_DETAILS);
    forall i | 0 <= i < |r|
      ensures !TotalPiece(r[i])
    {
      if i < 5 {
        assert r[i] == head[i];
      }
    }
  }

  /** Item `k` appears in the text as number `k + 1`. */
  lemma RequestTextListsItem(id: int, date: string, status: string, items: seq<Product>,
                             fmt: Documents.NumberFormat, pf: Documents.FloatReader, k: nat)
    requires k < |items|
    ensures var r := RequestPlainText(id, date, status, items, fmt, pf);
      Text.OccursAt(Documents.Concat(r), NumberedLine(k + 1, items[k]), Documents.Offset(r, 5 + 5 * k))
  {
    var r := RequestPlainText(id, date, status, items, fmt, pf);
    Documents.PieceOccurs(r, 5 + 5 * k);
  }

  /** Item `k` is listed before item `k + 1`. */
  lemma RequestTextListsItemsInOrder(id: int, date: string, status: string, items: seq<Product>,
                                     fmt: Documents.NumberFormat, pf: Documents.FloatReader, k: nat)
    requires k + 1 < |items|
    ensures var r := RequestPlainText(id, date, status, items, fmt, pf);
      Documents.Offset(r, 5 + 5 * k) < Documents.Offset(r, 5 + 5 * (k + 1))
  {
    var r := RequestPlainText(id, date, status, items, fmt, pf);
    assert |r[5 + 5 * k]| > 0 by {
      assert r[5 + 5 * k] == NumberedLine(k + 1, items[k]);
    }
    Documents.PiecesInOrder(r, 5 + 5 * k, 5 + 5 * (k + 1));
  }

  /** `emailRequest`: nothing is sent unless the id, date, status and items
      are all there (an id of 0 and an empty date or status count as
      missing; an empty item list does not). The mail has no recipient and
      its badge follows the status. */
  function EmailRequest(d: Details, fmt: Documents.NumberFormat, pf: Documents.FloatReader): (r: Option<Mail>)
    ensures r.None? <==> d.id == 0 || d.date == "" || d.status == "" || d.items.None?
    ensures r.Some? ==> r.value.recipient == "" && r.value.notesHtml.None?
    ensures r.Some? ==> r.value.statusLabel == d.status && r.value.statusStyle == StatusStyle(d.status)
  {
    if d.id == 0 || d.date == "" || d.status == "" || d.items.None? then None
    else
      Some(Mail("",
                SUBJECT_PREFIX + Decimal.IntToString(d.id),
                d.status,
                StatusStyle(d.status),
                None,
                RequestPlainText(d.id, d.date, d.status, d.items.value, fmt, pf)))
  }

  /** The subject names the request: after the fixed prefix, `parseInt`
      reads back its id. */
  lemma EmailSubjectNamesRequest(d: Details, fmt: Documents.NumberFormat, pf: Documents.FloatReader)
    requires EmailRequest(d, fmt, pf).Some?
    ensures var s := EmailRequest(d, fmt, pf).value.subject;
      && |SUBJECT_PREFIX| <= |s| && s[..|SUBJECT_PREFIX|] == SUBJECT_PREFIX
      && Decimal.ParseInt(s[|SUBJECT_PREFIX|..]) == Some(d.id)
  {
    var s := EmailRequest(d, fmt, pf).value.subject;
    assert s[|SUBJECT_PREFIX|..] == Decimal.IntToString(d.id);
    Decimal.ParseIntOfIntToString(d.id);
  }
}
