/** The three single-file versions of the purchase-request page, which keep
    their state in closure variables instead of a store module:

    - `Current`: `backup/purchase_request.js`;
    - `Older`: `backup/backup/purchase_request.js`;
    - `WithHistory`: `Backup/purchase_request.js`, the one that writes a
      creation entry into every request's history.

    They share the page state and differ in a handful of guards, which the
    functions below take from the variant. Dialogs (`confirm`) are
    parameters; a `TypeError` thrown halfway through a handler is the
    `Thrown` outcome, carrying the state the handler had already changed. */
module LegacyWorkflow {
  import opened Wrappers
  import opened Records
  import Decimal
  import Text
  import Gregorian

  datatype Variant = Current | Older | WithHistory

  datatype Page = Page(
    products: seq<Product>,
    pendingRequests: seq<Request>,
    nextId: int,
    nextPendingId: int,
    currentRequestId: Option<int>,
    selectedProductId: Option<int>)

  /** The state a handler leaves behind: it ran to the end, or it threw
      after the mutations made so far. */
  datatype Outcome = Done(page: Page) | Thrown(page: Page)

  const CRIACAO := "Criação"
  const APROVACAO := "Aprovação"
  const RECUSA := "Recusa"
  const REVISAO_SOLICITADA := "Revisão Solicitada"

  /** The page as the script starts: empty lists, both counters at 1. */
  function Initial(): (p: Page)
    ensures p.products == [] && p.pendingRequests == [] && p.nextId == 1 && p.nextPendingId == 1
  {
    Page([], [], 1, 1, None, None)
  }

  predicate Fresh(p: Page) {
    ProductIdsBelow(p.products, p.nextId) && RequestIdsBelow(p.pendingRequests, p.nextPendingId)
  }

  /** `loadFromLocalStorage()` (`Current` and `Older`): a stored list
      replaces the in-memory one, and when it is not empty its counter
      becomes the largest stored id plus one. */
  function Load(p: Page, savedProducts: Option<seq<Product>>, savedRequests: Option<seq<Request>>): (r: Page)
    ensures r.products == (if savedProducts.Some? then savedProducts.value else p.products)
    ensures r.pendingRequests == (if savedRequests.Some? then savedRequests.value else p.pendingRequests)
    ensures savedProducts.Some? && savedProducts.value != [] ==>
      r.nextId == MaxId(ProductIds(savedProducts.value)) + 1
    ensures !(savedProducts.Some? && savedProducts.value != []) ==> r.nextId == p.nextId
    ensures savedRequests.Some? && savedRequests.value != [] ==>
      r.nextPendingId == MaxId(RequestIds(savedRequests.value)) + 1
    ensures !(savedRequests.Some? && savedRequests.value != []) ==> r.nextPendingId == p.nextPendingId
  {
    var p1 := match savedProducts
      case None => p
      case Some(ps) => p.(products := ps, nextId := if ps != [] then MaxId(ProductIds(ps)) + 1 else p.nextId);
    match savedRequests
    case None => p1
    case Some(rs) => p1.(pendingRequests := rs, nextPendingId := if rs != [] then MaxId(RequestIds(rs)) + 1 else p1.nextPendingId)
  }

  /** Whatever was stored, the page loaded at start-up hands out fresh ids:
      both counters end above every loaded id. */
  lemma LoadIsFresh(savedProducts: Option<seq<Product>>, savedRequests: Option<seq<Request>>)
    ensures Fresh(Load(Initial(), savedProducts, savedRequests))
  {
    var r := Load(Initial(), savedProducts, savedRequests);
    if savedProducts.Some? && savedProducts.value != [] {
      var ps := savedProducts.value;
      forall i | 0 <= i < |ps|
        ensures ps[i].id < r.nextId
      {
        assert ProductIds(ps)[i] == ps[i].id;
      }
    }
    if savedRequests.Some? && savedRequests.value != [] {
      var rs := savedRequests.value;
      forall i | 0 <= i < |rs|
        ensures rs[i].id < r.nextPendingId
      {
        assert RequestIds(rs)[i] == rs[i].id;
      }
    }
  }

  /** The six form fields as read from the page. */
  datatype Form = Form(
    supplier: string,
    alloy: string,
    productDescription: string,
    purchaseType: string,
    quantity: string,
    deliveryDate: string)

  /** `parseInt(quantity)`, with NaN when no digit is found. */
  function IntQuantity(text: string): (q: Quantity)
    ensures q.NaN? <==> Decimal.ParseInt(text).None?
    ensures q.Num? ==> Some(q.value) == Decimal.ParseInt(text)
  {
    match Decimal.ParseInt(text)
    case None => NaN
    case Some(n) => Num(n)
  }

  /** The form submit of `Current` and `Older`: rejected when a field is
      falsy (a quantity of 0 or NaN included); otherwise a product with id
      `nextId++` is appended. */
  function Submit(p: Page, f: Form): (r: (bool, Page))
    ensures var candidate := Product(p.nextId, f.supplier, f.alloy, f.productDescription,
      f.purchaseType, IntQuantity(f.quantity), f.deliveryDate);
      (r.0 <==> Complete(candidate))
      && (r.0 ==> r.1 == p.(products := p.products + [candidate], nextId := p.nextId + 1))
      && (!r.0 ==> r.1 == p)
  {
    var candidate := Product(p.nextId, f.supplier, f.alloy, f.productDescription,
      f.purchaseType, IntQuantity(f.quantity), f.deliveryDate);
    if Complete(candidate) then (true, p.(products := p.products + [candidate], nextId := p.nextId + 1))
    else (false, p)
  }

  /** The form submit of `WithHistory`: no check at all; the quantity goes
      through `parseFloat`, given as a parameter. */
  function SubmitUnchecked(p: Page, f: Form, parseFloat: string -> Quantity): (r: Page)
    ensures r.products == p.products + [Product(p.nextId, f.supplier, f.alloy, f.productDescription,
      f.purchaseType, parseFloat(f.quantity), f.deliveryDate)]
    ensures r.nextId == p.nextId + 1 && r.pendingRequests == p.pendingRequests
  {
    var added := Product(p.nextId, f.supplier, f.alloy, f.productDescription,
      f.purchaseType, parseFloat(f.quantity), f.deliveryDate);
    p.(products := p.products + [added], nextId := p.nextId + 1)
  }

  /** Both submits keep ids fresh. */
  lemma SubmitKeepsFresh(p: Page, f: Form, parseFloat: string -> Quantity)
    requires Fresh(p)
    ensures Fresh(Submit(p, f).1)
    ensures Fresh(SubmitUnchecked(p, f, parseFloat))
  {
  }

  /** A quantity that does not parse, or parses to 0, is refused. */
  lemma SubmitRefusesZeroAndNaN(p: Page, f: Form)
    requires Decimal.ParseInt(f.quantity).None? || Decimal.ParseInt(f.quantity) == Some(0)
    ensures Submit(p, f) == (false, p)
  {
  }

  /** `createPendingRequest()` of `Current` and `Older`: nothing for an empty
      list; otherwise a 'Pendente' request without history, holding the
      products, their count, the plain quantity sum and the 'Vendas' rule,
      and an empty product list afterwards. */
  function CreatePendingRequest(p: Page, now: string): (r: (Option<Request>, Page))
    ensures r.0.None? <==> p.products == []
    ensures r.0.None? ==> r.1 == p
    ensures r.0.Some? ==>
      r.0.value == Request(p.nextPendingId, now, |p.products|, WeightSum(p.products),
        RequestType(p.products), PENDENTE, p.products, None)
      && r.1 == p.(products := [], pendingRequests := p.pendingRequests + [r.0.value],
        nextPendingId := p.nextPendingId + 1)
  {
    if p.products == [] then (None, p)
    else
      var q := Request(p.nextPendingId, now, |p.products|, WeightSum(p.products),
        RequestType(p.products), PENDENTE, p.products, None);
      (Some(q), p.(products := [], pendingRequests := p.pendingRequests + [q], nextPendingId := p.nextPendingId + 1))
  }

  /** `createPendingRequest()` of `WithHistory`: nothing when the pending
      table is missing from the page, and no check that products exist.
      The request carries one creation entry; the fields this variant does
      not set (count, weight, type) are left at 0, `None` and "". */
  function CreateWithHistory(p: Page, now: string, tablePresent: bool): (r: (Option<Request>, Page))
    ensures r.0.None? <==> !tablePresent
    ensures r.0.None? ==> r.1 == p
    ensures r.0.Some? ==>
      r.0.value.id == p.nextPendingId && r.0.value.status == PENDENTE
      && r.0.value.products == p.products
      && r.0.value.history == Some([HistoryEntry(now, CRIACAO, "Solicitação criada")])
      && r.1 == p.(products := [], pendingRequests := p.pendingRequests + [r.0.value],
        nextPendingId := p.nextPendingId + 1)
  {
    if !tablePresent then (None, p)
    else
      var q := Request(p.nextPendingId, now, 0, None, "", PENDENTE, p.products,
        Some([HistoryEntry(now, CRIACAO, "Solicitação criada")]));
      (Some(q), p.(products := [], pendingRequests := p.pendingRequests + [q], nextPendingId := p.nextPendingId + 1))
  }

  /** The finalise button of `WithHistory`: only with products, and only
      after the user confirms. */
  function Finalize(p: Page, now: string, tablePresent: bool, confirmed: bool): (r: (Option<Request>, Page))
    ensures r.0.Some? ==> p.products != [] && confirmed && r == CreateWithHistory(p, now, tablePresent)
    ensures p.products == [] || !confirmed ==> r == (None, p)
  {
    if p.products != [] && confirmed then CreateWithHistory(p, now, tablePresent) else (None, p)
  }

  /** A request finalised through the button is never empty. */
  lemma FinalizedRequestNotEmpty(p: Page, now: string, tablePresent: bool, confirmed: bool)
    requires Finalize(p, now, tablePresent, confirmed).0.Some?
    ensures Finalize(p, now, tablePresent, confirmed).0.value.products != []
  {
  }

  /** `viewRequestDetails(id)`: `Current` remembers the id before looking the
      request up; the other two only when the request exists. */
  function ViewRequestDetails(v: Variant, p: Page, id: int): (r: Page)
    ensures v == Current ==> r == p.(currentRequestId := Some(id))
    ensures v != Current ==> r == (if FindRequest(p.pendingRequests, id).Some? then p.(currentRequestId := Some(id)) else p)
  {
    if v == Current || FindRequest(p.pendingRequests, id).Some? then p.(currentRequestId := Some(id)) else p
  }

  /** The request the action buttons act on: the first with the current id. */
  function Selected(p: Page): (k: Option<nat>)
    ensures k.Some? ==> k.value < |p.pendingRequests| && Some(p.pendingRequests[k.value].id) == p.currentRequestId
    ensures p.currentRequestId.None? ==> k.None?
  {
    match p.currentRequestId
    case None => None
    case Some(id) => FindRequest(p.pendingRequests, id)
  }

  /** `request.status = status; request.history.push(entry)`, where the
      history is first created when `createIfAbsent` (the guard
      `if (!request.history) request.history = []`). Without that guard a
      missing history makes `push` throw, after the status was already set. */
  function SetStatus(p: Page, k: nat, status: string, entry: HistoryEntry, createIfAbsent: bool): (r: Outcome)
    requires k < |p.pendingRequests|
    ensures |r.page.pendingRequests| == |p.pendingRequests|
    ensures r.page == p.(pendingRequests := p.pendingRequests[k := r.page.pendingRequests[k]])
    ensures r.page.pendingRequests[k].status == status
    ensures r.Thrown? <==> p.pendingRequests[k].history.None? && !createIfAbsent
    ensures r.Thrown? ==> r.page.pendingRequests[k].history.None?
    ensures r.Done? ==> r.page.pendingRequests[k].history == Some(Appended(p.pendingRequests[k].history, entry))
  {
    var q := p.pendingRequests[k].(status := status);
    match q.history
    case Some(h) => Done(p.(pendingRequests := p.pendingRequests[k := q.(history := Some(h + [entry]))]))
    case None =>
      if createIfAbsent then Done(p.(pendingRequests := p.pendingRequests[k := q.(history := Some([entry]))]))
      else Thrown(p.(pendingRequests := p.pendingRequests[k := q]))
  }

  /** `approveRequest()`: `Current` and `Older` create a missing history;
      `WithHistory` does not. */
  function Approve(v: Variant, p: Page, now: string): (r: Outcome)
    ensures Selected(p).None? ==> r == Done(p)
    ensures Selected(p).Some? ==>
      r == SetStatus(p, Selected(p).value, APROVADO, HistoryEntry(now, APROVACAO, "Solicitação aprovada"), v != WithHistory)
  {
    match Selected(p)
    case None => Done(p)
    case Some(k) => SetStatus(p, k, APROVADO, HistoryEntry(now, APROVACAO, "Solicitação aprovada"), v != WithHistory)
  }

  /** `rejectRequest()` as written in all three variants: after the user
      confirms, the status is set and the entry pushed onto the history
      without creating it. */
  function Reject(p: Page, now: string, confirmed: bool): (r: Outcome)
    ensures Selected(p).None? || !confirmed ==> r == Done(p)
    ensures Selected(p).Some? && confirmed ==>
      r == SetStatus(p, Selected(p).value, RECUSADO, HistoryEntry(now, RECUSA, "Solicitação recusada"), false)
  {
    match Selected(p)
    case None => Done(p)
    case Some(k) =>
      if confirmed then SetStatus(p, k, RECUSADO, HistoryEntry(now, RECUSA, "Solicitação recusada"), false)
      else Done(p)
  }

  /** `submitReview()` as written: blank notes (after `trim`) change
      nothing; otherwise the status is set and the trimmed notes pushed
      onto the history without creating it. */
  function SubmitReview(p: Page, notes: string, now: string): (r: Outcome)
    ensures Selected(p).None? || Text.Trim(notes) == "" ==> r == Done(p)
    ensures Selected(p).Some? && Text.Trim(notes) != "" ==>
      r == SetStatus(p, Selected(p).value, EM_REVISAO, HistoryEntry(now, REVISAO_SOLICITADA, Text.Trim(notes)), false)
  {
    match Selected(p)
    case None => Done(p)
    case Some(k) =>
      var trimmed := Text.Trim(notes);
      if trimmed == "" then Done(p)
      else SetStatus(p, k, EM_REVISAO, HistoryEntry(now, REVISAO_SOLICITADA, trimmed), false)
  }

  /** Rejection with the guard that approval already has. */
  function RejectCorrected(p: Page, now: string, confirmed: bool): (r: Outcome)
    ensures r.Done?
    ensures Selected(p).None? || !confirmed ==> r == Done(p)
    ensures Selected(p).Some? && confirmed ==>
      r == SetStatus(p, Selected(p).value, RECUSADO, HistoryEntry(now, RECUSA, "Solicitação recusada"), true)
  {
    match Selected(p)
    case None => Done(p)
    case Some(k) =>
      if confirmed then SetStatus(p, k, RECUSADO, HistoryEntry(now, RECUSA, "Solicitação recusada"), true)
      else Done(p)
  }

  /** Review submission with the guard that approval already has. */
  function SubmitReviewCorrected(p: Page, notes: string, now: string): (r: Outcome)
    ensures r.Done?
    ensures Selected(p).None? || Text.Trim(notes) == "" ==> r == Done(p)
    ensures Selected(p).Some? && Text.Trim(notes) != "" ==>
      r == SetStatus(p, Selected(p).value, EM_REVISAO, HistoryEntry(now, REVISAO_SOLICITADA, Text.Trim(notes)), true)
  {
    match Selected(p)
    case None => Done(p)
    case Some(k) =>
      var trimmed := Text.Trim(notes);
      if trimmed == "" then Done(p)
      else SetStatus(p, k, EM_REVISAO, HistoryEntry(now, REVISAO_SOLICITADA, trimmed), true)
  }

  /** The page a request was just created on, with that request selected. */
  function CreatedAndViewed(v: Variant, p: Page, now: string): Page
    requires p.products != []
  {
    var created := CreatePendingRequest(p, now).1;
    ViewRequestDetails(v, created, p.nextPendingId)
  }

  lemma CreatedIsSelected(v: Variant, p: Page, now: string)
    requires p.products != []
    requires Fresh(p)
    ensures Selected(CreatedAndViewed(v, p, now)) == Some(|p.pendingRequests|)
    ensures CreatedAndViewed(v, p, now).pendingRequests[|p.pendingRequests|].history.None?
  {
    var created := CreatePendingRequest(p, now).1;
    var rs := created.pendingRequests;
    assert rs[|p.pendingRequests|].id == p.nextPendingId;
    assert forall i :: 0 <= i < |p.pendingRequests| ==> rs[i].id != p.nextPendingId;
    assert FindRequest(rs, p.nextPendingId) == Some(|p.pendingRequests|);
  }

  /** As written, refusing a request created on the same page throws: the
      request shows 'Recusado' but no refusal is recorded. The same holds
      for a review. */
  lemma RejectOfNewRequestThrows(v: Variant, p: Page, now: string, notes: string)
    requires v != WithHistory && p.products != [] && Fresh(p)
    ensures var viewed := CreatedAndViewed(v, p, now);
      var r := Reject(viewed, now, true);
      r.Thrown? && r.page.pendingRequests[|p.pendingRequests|].status == RECUSADO
      && r.page.pendingRequests[|p.pendingRequests|].history.None?
    ensures Text.Trim(notes) != "" ==> SubmitReview(CreatedAndViewed(v, p, now), notes, now).Thrown?
  {
    CreatedIsSelected(v, p, now);
  }

  /** With the guard, refusal and review of a request created on the page
      record exactly one entry. */
  lemma CorrectedRecordsEntry(v: Variant, p: Page, now: string, notes: string)
    requires v != WithHistory && p.products != [] && Fresh(p)
    ensures var r := RejectCorrected(CreatedAndViewed(v, p, now), now, true);
      r.page.pendingRequests[|p.pendingRequests|].history == Some([HistoryEntry(now, RECUSA, "Solicitação recusada")])
    ensures Text.Trim(notes) != "" ==>
      var r := SubmitReviewCorrected(CreatedAndViewed(v, p, now), notes, now);
      r.page.pendingRequests[|p.pendingRequests|].history
        == Some([HistoryEntry(now, REVISAO_SOLICITADA, Text.Trim(notes))])
  {
    CreatedIsSelected(v, p, now);
  }

  /** Every request on the page has a history. */
  predicate AllHistoried(p: Page) {
    forall i :: 0 <= i < |p.pendingRequests| ==> p.pendingRequests[i].history.Some?
  }

  /** `WithHistory` does not need the guard: it creates every request with a
      history, its actions keep one on every request, and so its unguarded
      pushes never throw. */
  lemma WithHistoryNeverThrows(p: Page, now: string, tablePresent: bool, confirmed: bool, notes: string)
    requires AllHistoried(p)
    ensures AllHistoried(CreateWithHistory(p, now, tablePresent).1)
    ensures Approve(WithHistory, p, now).Done? && AllHistoried(Approve(WithHistory, p, now).page)
    ensures Reject(p, now, confirmed).Done? && AllHistoried(Reject(p, now, confirmed).page)
    ensures SubmitReview(p, notes, now).Done? && AllHistoried(SubmitReview(p, notes, now).page)
  {
    if Selected(p).Some? {
      var k := Selected(p).value;
      SetStatusKeepsHistoried(p, k, APROVADO, HistoryEntry(now, APROVACAO, "Solicitação aprovada"), false);
      SetStatusKeepsHistoried(p, k, RECUSADO, HistoryEntry(now, RECUSA, "Solicitação recusada"), false);
      SetStatusKeepsHistoried(p, k, EM_REVISAO, HistoryEntry(now, REVISAO_SOLICITADA, Text.Trim(notes)), false);
    }
  }

  /** A status change on a page where every request has a history never
      throws and keeps a history on every request. */
  lemma SetStatusKeepsHistoried(p: Page, k: nat, status: string, entry: HistoryEntry, createIfAbsent: bool)
    requires AllHistoried(p) && k < |p.pendingRequests|
    ensures SetStatus(p, k, status, entry, createIfAbsent).Done?
    ensures AllHistoried(SetStatus(p, k, status, entry, createIfAbsent).page)
  {
  }

  /** The product the edit-date modal was opened for, if it is still
      listed. */
  function SelectedIndex(p: Page): (r: Option<nat>)
    ensures r.Some? ==> p.selectedProductId.Some? && r == FindProduct(p.products, p.selectedProductId.value)
    ensures r.None? <==> p.selectedProductId.None? || FindProduct(p.products, p.selectedProductId.value).None?
  {
    if p.selectedProductId.None? then None else FindProduct(p.products, p.selectedProductId.value)
  }

  /** `updateDeliveryDate()`: only the selected product's date changes,
      and `closeEditDateModal()` then forgets the selection. `Current`
      returns early, modal open and selection kept, for an empty date or a
      product that is gone; the other variants write even an empty date
      and close the modal whether or not the product was found. */
  function UpdateDeliveryDate(v: Variant, p: Page, date: string): (r: Page)
    ensures v == Current && (date == "" || SelectedIndex(p).None?) ==> r == p
    ensures v != Current && SelectedIndex(p).None? ==> r == p.(selectedProductId := None)
    ensures (v != Current || date != "") && SelectedIndex(p).Some? ==>
      var k := SelectedIndex(p).value;
      r == p.(products := p.products[k := p.products[k].(deliveryDate := date)], selectedProductId := None)
  {
    if v == Current && date == "" then p
    else
      match SelectedIndex(p)
      case None => if v == Current then p else p.(selectedProductId := None)
      case Some(k) => p.(products := p.products[k := p.products[k].(deliveryDate := date)], selectedProductId := None)
  }

  /** A second save without reopening the modal changes nothing more: the
      selection is gone once a date was written. */
  lemma SecondSaveIsIdle(v: Variant, p: Page, date: string, date2: string)
    requires (v != Current || date != "") && SelectedIndex(p).Some?
    ensures UpdateDeliveryDate(v, p, date).selectedProductId.None?
    ensures v == Current ==> UpdateDeliveryDate(v, UpdateDeliveryDate(v, p, date), date2) == UpdateDeliveryDate(v, p, date)
    ensures UpdateDeliveryDate(v, UpdateDeliveryDate(v, p, date), date2).products == UpdateDeliveryDate(v, p, date).products
  {
  }

  /** The date an ISO `YYYY-MM-DD` delivery date names, as
      `new Date(...split('-').map(Number))` reads it: missing parts and
      parts that are not numbers give an invalid date (`None`). */
  function ParseDeliveryDate(s: string): (r: Option<Gregorian.Date>)
    ensures r.Some? ==> Gregorian.Valid(r.value)
  {
    var parts := Text.Split(s, '-');
    if |parts| < 3 then None
    else
      var y := Text.JsNumber(parts[0]);
      var m := Text.JsNumber(parts[1]);
      var d := Text.JsNumber(parts[2]);
      if y.Some? && m.Some? && d.Some? then Some(Gregorian.JsDate(y.value, m.value - 1, d.value)) else None
  }

  /** `getProductsForDate(date)` of `Current`: the products whose delivery
      date falls on the same year, month and day, in list order. */
  function ProductsForDate(ps: seq<Product>, day: Gregorian.Date): (r: seq<Product>)
    ensures forall x :: x in r <==> x in ps && ParseDeliveryDate(x.deliveryDate) == Some(day)
    ensures |r| <= |ps|
  {
    if ps == [] then []
    else
      var rest := ProductsForDate(ps[1..], day);
      if ParseDeliveryDate(ps[0].deliveryDate) == Some(day) then [ps[0]] + rest else rest
  }

  /** `YYYY-MM-DD` as a date input produces it. */
  function IsoDate(d: Gregorian.Date): (s: string)
    requires Gregorian.Valid(d) && d.year >= 0
  {
    Decimal.NatToString(d.year) + "-" + Decimal.TwoDigits(d.month) + "-" + Decimal.TwoDigits(d.day)
  }

  /** A delivery date written as `YYYY-MM-DD` names exactly that day, for
      every real date from year 100 on. */
  lemma ParseIsoDate(d: Gregorian.Date)
    requires Gregorian.Valid(d) && d.year >= 100
    ensures ParseDeliveryDate(IsoDate(d)) == Some(d)
  {
    var ys := Decimal.NatToString(d.year);
    var ms := Decimal.TwoDigits(d.month);
    var ds := Decimal.TwoDigits(d.day);
    SplitThree(ys, ms, ds);
    Text.JsNumberOfDigits(ys);
    Text.JsNumberOfDigits(ms);
    Text.JsNumberOfDigits(ds);
    Gregorian.JsDateInRange(d.year, d.month - 1, d.day);
  }

  /** Three runs of digits joined by '-' split back into the three runs. */
  lemma SplitThree(a: string, b: string, c: string)
    requires Decimal.AllDigits(a) && Decimal.AllDigits(b) && Decimal.AllDigits(c)
    ensures Text.Split(a + "-" + b + "-" + c, '-') == [a, b, c]
  {
    assert '-' !in a && '-' !in b && '-' !in c by {
      assert forall i :: 0 <= i < |a| ==> Decimal.IsDigit(a[i]);
      assert forall i :: 0 <= i < |b| ==> Decimal.IsDigit(b[i]);
      assert forall i :: 0 <= i < |c| ==> Decimal.IsDigit(c[i]);
    }
    Text.SplitThree(a, b, c, '-');
  }

  /** A product dated `YYYY-MM-DD` is listed for a day exactly when it is
      that day. */
  lemma ProductsForDateIff(ps: seq<Product>, x: Product, e: Gregorian.Date, day: Gregorian.Date)
    requires x in ps && Gregorian.Valid(e) && e.year >= 100
    requires x.deliveryDate == IsoDate(e)
    ensures x in ProductsForDate(ps, day) <==> e == day
  {
    ParseIsoDate(e);
  }
}
