/** The split-up version of the purchase-request page: the constants and
    validators of its data module, the event handlers that add products,
    submit requests, clear the form and remove products, and the totals its
    tables show.

    The handlers mutate one shared state object; here each is a function
    from the old state to the new one. The form's six inputs and the
    disabled flags of the cascading selects are a `Fields` value. The clock
    enters as the already formatted date string, and `parseFloat` as a
    parameter. Toasts, table rendering and saving are left to the browser. */
module PurchaseModules {
  import opened Wrappers
  import opened Records
  import Text
  import Gregorian

  /** `requestStatus`: the four statuses a request can be in. */
  function RequestStatuses(): (r: seq<string>)
    ensures |r| == 4 && r[0] == PENDENTE
    ensures forall i, j :: 0 <= i < j < |r| ==> r[i] != r[j]
    ensures forall s :: s in r <==> s == PENDENTE || s == APROVADO || s == RECUSADO || s == EM_REVISAO
  {
    [PENDENTE, APROVADO, RECUSADO, EM_REVISAO]
  }

  /** A request as the submit handler creates it. */
  datatype Submitted = Submitted(id: int, date: string, products: seq<Product>, status: string)

  datatype State = State(
    products: seq<Product>,
    pendingRequests: seq<Submitted>,
    nextId: int,
    nextPendingId: int,
    currentRequestId: Option<int>)

  /** The six form inputs and whether the alloy and description selects
      are disabled. */
  datatype Fields = Fields(
    supplier: string,
    alloy: string,
    productDescription: string,
    purchaseType: string,
    quantity: string,
    deliveryDate: string,
    alloyDisabled: bool,
    descriptionDisabled: bool)

  /** Every product the page holds: those inside submitted requests, in
      submission order, then those still being collected. */
  function Flatten(rs: seq<Submitted>): seq<Product> {
    if rs == [] then [] else Flatten(rs[..|rs| - 1]) + rs[|rs| - 1].products
  }

  function Everything(s: State): seq<Product> {
    Flatten(s.pendingRequests) + s.products
  }

  predicate IdsDistinct(ps: seq<Product>) {
    forall i, j :: 0 <= i < j < |ps| ==> ps[i].id != ps[j].id
  }

  predicate SubmittedIdsBelow(rs: seq<Submitted>, next: int) {
    forall i :: 0 <= i < |rs| ==> rs[i].id < next
  }

  predicate SubmittedIdsDistinct(rs: seq<Submitted>) {
    forall i, j :: 0 <= i < j < |rs| ==> rs[i].id != rs[j].id
  }

  /** The state keeps its counters ahead: every product, collected or
      submitted, has its own id below `nextId`, and every request its own id
      below `nextPendingId`. */
  predicate Sound(s: State) {
    IdsDistinct(Everything(s)) && ProductIdsBelow(Everything(s), s.nextId)
    && SubmittedIdsDistinct(s.pendingRequests) && SubmittedIdsBelow(s.pendingRequests, s.nextPendingId)
  }

  /** `initialState`: nothing collected or submitted, both counters at 1,
      no request selected. */
  function InitialState(): (s: State)
    ensures Sound(s) && |Everything(s)| == 0
    ensures s.nextId == 1 && s.nextPendingId == 1 && s.currentRequestId.None?
  {
    State([], [], 1, 1, None)
  }

  /** `isValidQuantity`: not NaN and above zero; a string is first coerced
      by `Number`. */
  function IsValidQuantity(q: Quantity): (b: bool)
    ensures b ==> QuantityTruthy(q)
    ensures q.NaN? ==> !b
    ensures q.Num? ==> (b <==> q.value > 0)
    ensures q.Text? ==> (b <==> Text.JsNumber(q.text).Some? && Text.JsNumber(q.text).value > 0)
  {
    match q
    case Num(v) => v > 0
    case NaN => false
    case Text(t) =>
      var n := Text.JsNumber(t);
      assert t == "" ==> Text.Blank(t);
      n.Some? && n.value > 0
  }

  /** The argument of `formatDate`: missing, a string, or a `Date`. */
  datatype DateArg = Missing | Str(s: string) | Obj(d: Gregorian.Date)

  /** `formatDate`: "" for a falsy argument; otherwise the locale format of
      the date, where a string is first parsed. `None` is the `RangeError`
      the formatter throws on an invalid date. */
  function FormatDate(arg: DateArg, parse: string -> Option<Gregorian.Date>, format: Gregorian.Date -> string): (r: Option<string>)
    ensures arg.Missing? || arg == Str("") ==> r == Some("")
    ensures arg.Obj? ==> r == Some(format(arg.d))
    ensures arg.Str? && arg.s != "" ==> (r.None? <==> parse(arg.s).None?)
    ensures arg.Str? && arg.s != "" && parse(arg.s).Some? ==> r == Some(format(parse(arg.s).value))
  {
    match arg
    case Missing => Some("")
    case Str(s) =>
      if s == "" then Some("")
      else
        (match parse(s)
         case None => None
         case Some(d) => Some(format(d)))
    case Obj(d) => Some(format(d))
  }

  predicate AllFilled(f: Fields) {
    f.supplier != "" && f.alloy != "" && f.productDescription != ""
    && f.purchaseType != "" && f.quantity != "" && f.deliveryDate != ""
  }

  /** `clearForm`: the six inputs emptied and the alloy and description
      selects disabled, so the add handler refuses the cleared form. */
  function ClearForm(f: Fields): (r: Fields)
    ensures !AllFilled(r) && r.alloyDisabled && r.descriptionDisabled
    ensures r.supplier == r.alloy == r.productDescription == r.purchaseType == r.quantity == r.deliveryDate == ""
  {
    Fields("", "", "", "", "", "", true, true)
  }

  /** The add-product handler: with a field empty nothing changes; otherwise
      a product with id `nextId++` and the `parseFloat` quantity is appended
      and the form cleared. The quantity text only has to be non-empty, so a
      NaN or zero quantity is accepted. */
  function AddProduct(s: State, f: Fields, parseFloat: string -> Quantity): (r: (State, Fields))
    ensures !AllFilled(f) ==> r == (s, f)
    ensures AllFilled(f) ==>
      r.0.products == s.products + [Product(s.nextId, f.supplier, f.alloy, f.productDescription,
        f.purchaseType, parseFloat(f.quantity), f.deliveryDate)]
      && r.0.nextId == s.nextId + 1 && r.1 == ClearForm(f)
    ensures r.0.pendingRequests == s.pendingRequests && r.0.nextPendingId == s.nextPendingId
  {
    if !AllFilled(f) then (s, f)
    else
      var added := Product(s.nextId, f.supplier, f.alloy, f.productDescription,
        f.purchaseType, parseFloat(f.quantity), f.deliveryDate);
      (s.(products := s.products + [added], nextId := s.nextId + 1), ClearForm(f))
  }

  /** The submit-request handler: with no products nothing changes;
      otherwise a 'Pendente' request with id `nextPendingId++`, today's date
      and a copy of the products is appended, and the product list and the
      form are emptied. */
  function SubmitRequest(s: State, f: Fields, today: string): (r: (State, Fields))
    ensures s.products == [] ==> r == (s, f)
    ensures s.products != [] ==>
      r.0.pendingRequests == s.pendingRequests + [Submitted(s.nextPendingId, today, s.products, PENDENTE)]
      && r.0.products == [] && r.0.nextPendingId == s.nextPendingId + 1 && r.1 == ClearForm(f)
    ensures r.0.nextId == s.nextId
  {
    if s.products == [] then (s, f)
    else
      var request := Submitted(s.nextPendingId, today, s.products, PENDENTE);
      (s.(pendingRequests := s.pendingRequests + [request], products := [],
          nextPendingId := s.nextPendingId + 1), ClearForm(f))
  }

  /** `removeProduct`: every product with the id goes, the others stay in
      order. */
  function RemoveProduct(s: State, id: int): (r: State)
    ensures forall p :: p in r.products <==> p in s.products && p.id != id
    ensures r.pendingRequests == s.pendingRequests && r.nextId == s.nextId && r.nextPendingId == s.nextPendingId
  {
    s.(products := Without(s.products, id))
  }

  /** `viewRequestDetails`: the first request with the id, if any; the state
      is not touched either way. */
  function ViewRequestDetails(s: State, id: int): (r: Option<Submitted>)
    ensures r.None? <==> forall i :: 0 <= i < |s.pendingRequests| ==> s.pendingRequests[i].id != id
    ensures r.Some? ==> r.value in s.pendingRequests && r.value.id == id
  {
    FindSubmitted(s.pendingRequests, id)
  }

  function FindSubmitted(rs: seq<Submitted>, id: int): (r: Option<Submitted>)
    ensures r.None? <==> forall i :: 0 <= i < |rs| ==> rs[i].id != id
    ensures r.Some? ==> r.value in rs && r.value.id == id
  {
    if rs == [] then None
    else if rs[0].id == id then Some(rs[0])
    else FindSubmitted(rs[1..], id)
  }

  /** Removing the product just added gives back the list as it was, as
      long as the counter was ahead of every id. */
  lemma RemoveUndoesAdd(s: State, f: Fields, parseFloat: string -> Quantity)
    requires ProductIdsBelow(s.products, s.nextId) && AllFilled(f)
    ensures RemoveProduct(AddProduct(s, f, parseFloat).0, s.nextId).products == s.products
  {
    var added := AddProduct(s, f, parseFloat).0.products[|s.products|];
    WithoutAppend(s.products, [added], s.nextId);
    WithoutAbsent(s.products, s.nextId);
    assert Without([added], s.nextId) == [];
  }

  /** `filter` keeps a list none of whose ids match as it is. */
  lemma {:induction false} WithoutAbsent(ps: seq<Product>, id: int)
    requires forall i :: 0 <= i < |ps| ==> ps[i].id != id
    ensures Without(ps, id) == ps
  {
    if ps != [] {
      WithoutAbsent(ps[1..], id);
    }
  }

  /** Submitting moves the products into the new request without losing,
      duplicating or reordering any of them. */
  lemma SubmitKeepsEveryProduct(s: State, f: Fields, today: string)
    ensures Everything(SubmitRequest(s, f, today).0) == Everything(s)
  {
    if s.products != [] {
      var rs := SubmitRequest(s, f, today).0.pendingRequests;
      assert rs[..|rs| - 1] == s.pendingRequests;
    }
  }

  lemma DistinctConcat(a: seq<Product>, b: seq<Product>)
    ensures IdsDistinct(a + b) <==>
      IdsDistinct(a) && IdsDistinct(b) && forall x, y :: x in a && y in b ==> x.id != y.id
  {
    var ab := a + b;
    if IdsDistinct(a) && IdsDistinct(b) && forall x, y :: x in a && y in b ==> x.id != y.id {
      forall i, j | 0 <= i < j < |ab| ensures ab[i].id != ab[j].id {
        if j < |a| {
          assert ab[i] == a[i] && ab[j] == a[j];
        } else if i >= |a| {
          assert ab[i] == b[i - |a|] && ab[j] == b[j - |a|];
        } else {
          assert ab[i] in a && ab[j] in b;
        }
      }
    }
    if IdsDistinct(ab) {
      forall i, j | 0 <= i < j < |a| ensures a[i].id != a[j].id {
        assert ab[i] == a[i] && ab[j] == a[j];
      }
      forall i, j | 0 <= i < j < |b| ensures b[i].id != b[j].id {
        assert ab[|a| + i] == b[i] && ab[|a| + j] == b[j];
      }
      forall x, y | x in a && y in b ensures x.id != y.id {
        var i :| 0 <= i < |a| && a[i] == x;
        var j :| 0 <= j < |b| && b[j] == y;
        assert ab[i] == x && ab[|a| + j] == y;
      }
    }
  }

  /** `filter` keeps ids distinct. */
  lemma {:induction false} WithoutDistinct(ps: seq<Product>, id: int)
    requires IdsDistinct(ps)
    ensures IdsDistinct(Without(ps, id))
  {
    if ps != [] {
      assert IdsDistinct(ps[1..]) by {
        forall i, j | 0 <= i < j < |ps| - 1 ensures ps[1..][i].id != ps[1..][j].id {
          assert ps[1..][i] == ps[i + 1] && ps[1..][j] == ps[j + 1];
        }
      }
      WithoutDistinct(ps[1..], id);
      if ps[0].id != id {
        var rest := Without(ps[1..], id);
        forall y | y in rest ensures ps[0].id != y.id {
          var j :| 0 <= j < |ps| - 1 && ps[1..][j] == y;
          assert ps[j + 1] == y;
        }
        DistinctConcat([ps[0]], rest);
      }
    }
  }

  /** One step of the page. */
  datatype Event = Add(fields: Fields) | Submit(today: string) | Remove(id: int) | Clear

  function Step(s: State, e: Event, parseFloat: string -> Quantity): State {
    match e
    case Add(f) => AddProduct(s, f, parseFloat).0
    case Submit(today) => SubmitRequest(s, ClearForm(Fields("", "", "", "", "", "", true, true)), today).0
    case Remove(id) => RemoveProduct(s, id)
    case Clear => s
  }

  function Run(s: State, es: seq<Event>, parseFloat: string -> Quantity): State
    decreases |es|
  {
    if es == [] then s else Run(Step(s, es[0], parseFloat), es[1..], parseFloat)
  }

  lemma AddKeepsSound(s: State, f: Fields, parseFloat: string -> Quantity)
    requires Sound(s)
    ensures Sound(AddProduct(s, f, parseFloat).0)
  {
    if AllFilled(f) {
      var r := AddProduct(s, f, parseFloat).0;
      var added := r.products[|s.products|];
      assert Everything(r) == Everything(s) + [added];
      DistinctConcat(Everything(s), [added]);
    }
  }

  lemma SubmitKeepsSound(s: State, f: Fields, today: string)
    requires Sound(s)
    ensures Sound(SubmitRequest(s, f, today).0)
  {
    SubmitKeepsEveryProduct(s, f, today);
  }

  lemma RemoveKeepsSound(s: State, id: int)
    requires Sound(s)
    ensures Sound(RemoveProduct(s, id))
  {
    var a := Flatten(s.pendingRequests);
    DistinctConcat(a, s.products);
    WithoutDistinct(s.products, id);
    DistinctConcat(a, Without(s.products, id));
    var before := Everything(s);
    var after := Everything(RemoveProduct(s, id));
    forall i | 0 <= i < |after| ensures after[i].id < s.nextId {
      if i < |a| {
        assert after[i] == before[i];
      } else {
        assert after[i] in Without(s.products, id);
        var k :| 0 <= k < |s.products| && s.products[k] == after[i];
        assert before[|a| + k] == after[i];
      }
    }
  }

  /** Whatever the user does, no two products the page holds, collected or
      already submitted, ever share an id, and no two requests do. */
  lemma {:induction false} RunKeepsIdsUnique(s: State, es: seq<Event>, parseFloat: string -> Quantity)
    requires Sound(s)
    ensures Sound(Run(s, es, parseFloat))
    decreases |es|
  {
    if es != [] {
      match es[0] {
        case Add(f) => AddKeepsSound(s, f, parseFloat);
        case Submit(today) => SubmitKeepsSound(s, ClearForm(Fields("", "", "", "", "", "", true, true)), today);
        case Remove(id) => RemoveKeepsSound(s, id);
        case Clear =>
      }
      RunKeepsIdsUnique(Step(s, es[0], parseFloat), es[1..], parseFloat);
    }
  }

  /** What the products table shows under the list: the number of products
      and the running `+=` of their quantities (not a number as soon as one
      quantity is not). */
  function ProductsTotals(ps: seq<Product>): (r: (int, Option<int>))
    ensures r.0 == |ps|
    ensures r.1.Some? <==> forall i :: 0 <= i < |ps| ==> ps[i].quantity.Num?
  {
    (|ps|, WeightSum(ps))
  }

  /** Adding a product adds one to the count and its quantity to the total. */
  lemma AddProductAddsToTotals(ps: seq<Product>, p: Product)
    requires p.quantity.Num? && forall i :: 0 <= i < |ps| ==> ps[i].quantity.Num?
    ensures ProductsTotals(ps + [p]).0 == ProductsTotals(ps).0 + 1
    ensures ProductsTotals(ps + [p]).1 == Some(ProductsTotals(ps).1.value + p.quantity.value)
  {
    assert (ps + [p])[..|ps|] == ps;
  }

  /** One row of the pending-requests table: the item count, the quantity
      sum, the distinct purchase types in first-appearance order joined by
      ", ", and the `status-` class of the lower-cased status. */
  datatype PendingRow = PendingRow(items: int, total: Option<int>, types: string, statusClass: string)

  function PendingRowOf(r: Submitted): (row: PendingRow)
    ensures row.items == |r.products|
    ensures row.total.Some? <==> forall i :: 0 <= i < |r.products| ==> r.products[i].quantity.Num?
    ensures row.types == Text.Join(Distinct(PurchaseTypes(r.products)), ", ")
    ensures row.statusClass == "status-" + Text.Lower(r.status)
  {
    PendingRow(|r.products|, WeightSum(r.products), TypesLabel(r.products), "status-" + Text.Lower(r.status))
  }
}
