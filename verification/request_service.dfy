/** The purchase-request service of the modular page
    (`js/modules/core/request-service.js`): a guard on initialisation in
    front of the data-manager store, request creation from the current
    product list, and the status actions that append to a request's
    history.

    Callbacks, toasts and console output are left out. `now` is the current
    time, already rendered as the text stored in requests and history
    entries. */
module RequestService {
  import opened Wrappers
  import opened Records
  import DataManager

  const CRIACAO := "Criação"
  const APROVACAO := "Aprovação"
  const RECUSA := "Recusa"
  const REVISAO_SOLICITADA := "Revisão Solicitada"

  datatype Service = Service(
    initialized: bool,
    currentRequestId: Option<int>,
    store: DataManager.Store,
    storage: map<string, string>)

  /** `initRequestService()`; loading the store back from storage is left
      out, so the store is the one given. */
  function Init(svc: Service): (r: Service)
    ensures r.initialized && r.store == svc.store && r.currentRequestId == svc.currentRequestId
  {
    svc.(initialized := true)
  }

  /** `addProduct(product)`: nothing before initialisation or when one of
      the six fields is falsy; otherwise the data manager's `addProduct`. */
  function AddProduct(svc: Service, p: Product): (r: (Option<Product>, Service))
    ensures r.0.Some? <==> svc.initialized && Complete(p)
    ensures r.0.None? ==> r.1 == svc
    ensures r.0.Some? ==>
      r.0.value == p.(id := svc.store.nextId)
      && r.1 == svc.(store := svc.store.(products := svc.store.products + [r.0.value],
                                          nextId := svc.store.nextId + 1),
                     storage := r.1.storage)
    ensures forall k :: k in svc.storage ==> k in r.1.storage
  {
    if !svc.initialized || !Complete(p) then (None, svc)
    else
      var (added, store) := DataManager.AddProduct(svc.store, p);
      (Some(added), svc.(store := store))
  }

  /** `removeProduct(id)`: `false` before initialisation; otherwise the
      data manager's `removeProduct`. */
  function RemoveProduct(svc: Service, id: int): (r: (bool, Service))
    ensures !svc.initialized ==> r == (false, svc)
    ensures svc.initialized ==>
      (r.0 <==> exists i :: 0 <= i < |svc.store.products| && svc.store.products[i].id == id)
      && r.1 == svc.(store := svc.store.(products := Without(svc.store.products, id)), storage := r.1.storage)
    ensures forall k :: k in svc.storage ==> k in r.1.storage
  {
    if !svc.initialized then (false, svc)
    else
      var (removed, store) := DataManager.RemoveProduct(svc.store, id);
      (removed, svc.(store := store))
  }

  /** `updateDeliveryDate(id, date)`: an empty date or an unknown id is
      refused; otherwise only that product's delivery date changes. */
  function UpdateDeliveryDate(svc: Service, id: int, date: string): (r: (Option<Product>, Service))
    ensures r.0.None? ==> r.1 == svc
    ensures r.0.Some? <==> svc.initialized && date != "" && FindProduct(svc.store.products, id).Some?
    ensures r.0.Some? ==>
      var k := FindProduct(svc.store.products, id).value;
      r.0.value == svc.store.products[k].(deliveryDate := date)
      && r.1 == svc.(store := svc.store.(products := svc.store.products[k := r.0.value]), storage := r.1.storage)
    ensures forall k :: k in svc.storage ==> k in r.1.storage
  {
    if !svc.initialized || date == "" then (None, svc)
    else
      var (updated, store) := DataManager.UpdateProduct(svc.store, id,
        DataManager.ProductPatch(None, None, None, None, None, Some(date)));
      (updated, svc.(store := store))
  }

  /** Removes every listed id in turn (the `forEach` over the snapshot). */
  function RemoveEach(ps: seq<Product>, ids: seq<int>): seq<Product>
    decreases |ids|
  {
    if ids == [] then ps else RemoveEach(Without(ps, ids[0]), ids[1..])
  }

  /** `createPendingRequest()`: nothing before initialisation or for an
      empty product list. Otherwise a new 'Pendente' request with the next
      request id, a copy of the products, their count and numeric weight,
      and a single 'Criação' history entry is stored; the products are then
      removed one id at a time, and the product and form-state keys leave
      storage. */
  function CreatePendingRequest(svc: Service, now: string): (r: (Option<Request>, Service))
    ensures r.0.None? <==> !svc.initialized || svc.store.products == []
    ensures r.0.None? ==> r.1 == svc
    ensures r.0.Some? ==>
      r.0.value.status == PENDENTE
      && r.0.value.id == svc.store.nextPendingId
      && r.0.value.products == svc.store.products
      && r.0.value.totalProducts == |svc.store.products|
      && r.0.value.totalWeight == NumericWeight(svc.store.products)
      && r.0.value.purchaseType == RequestType(svc.store.products)
      && r.0.value.history == Some([HistoryEntry(now, CRIACAO, "Solicitação criada")])
    ensures r.0.Some? ==>
      r.1 == svc.(store := svc.store.(pendingRequests := svc.store.pendingRequests + [r.0.value],
                                      nextPendingId := svc.store.nextPendingId + 1,
                                      products := RemoveEach(svc.store.products, ProductIds(svc.store.products))),
                  storage := r.1.storage)
    ensures r.0.Some? ==> forall k :: k in DataManager.KeysNamed(["PRODUCTS", "FORM_STATE"]) ==> k !in r.1.storage
    ensures r.0.Some? ==> forall k :: (k in svc.storage && k !in DataManager.KeysNamed(["PRODUCTS", "FORM_STATE"])
      ==> k in r.1.storage)
  {
    var products := svc.store.products;
    if !svc.initialized || products == [] then (None, svc)
    else
      var request := NewRequest(products, now);
      var (added, store) := DataManager.AddPendingRequest(svc.store, request);
      var cleared := DataManager.ClearLocalStorage(store, svc.storage, Some(["PRODUCTS", "FORM_STATE"]));
      (Some(added), svc.(store := cleared.0.(products := RemoveEach(products, ProductIds(products))),
        storage := cleared.1))
  }

  /** The request object `createPendingRequest` builds, before the data
      manager gives it an id. */
  function NewRequest(products: seq<Product>, now: string): (q: Request)
    ensures q.id == 0 && q.status == PENDENTE && q.products == products
    ensures q.totalProducts == |products| && q.totalWeight == NumericWeight(products)
    ensures q.purchaseType == RequestType(products)
    ensures q.history == Some([HistoryEntry(now, CRIACAO, "Solicitação criada")])
  {
    Request(0, now, |products|, NumericWeight(products), RequestType(products), PENDENTE,
      products, Some([HistoryEntry(now, CRIACAO, "Solicitação criada")]))
  }

  /** Removing every id that occurs in a list empties it. */
  lemma {:induction false} RemoveEachCovering(ps: seq<Product>, ids: seq<int>)
    requires forall i :: 0 <= i < |ps| ==> ps[i].id in ids
    ensures RemoveEach(ps, ids) == []
    decreases |ids|
  {
    if ids != [] {
      var rest := Without(ps, ids[0]);
      forall i | 0 <= i < |rest|
        ensures rest[i].id in ids[1..]
      {
        assert rest[i] in rest;
        assert rest[i].id in ids && rest[i].id != ids[0];
        var j :| 0 <= j < |ids| && ids[j] == rest[i].id;
        assert ids[1..][j - 1] == ids[j];
      }
      RemoveEachCovering(rest, ids[1..]);
    }
  }

  /** After a request is created the product list is empty. */
  lemma CreateEmptiesProducts(svc: Service, now: string)
    requires CreatePendingRequest(svc, now).0.Some?
    ensures CreatePendingRequest(svc, now).1.store.products == []
  {
    var ps := svc.store.products;
    assert forall i :: 0 <= i < |ps| ==> ps[i].id == ProductIds(ps)[i];
    RemoveEachCovering(ps, ProductIds(ps));
  }

  /** `getRequestDetails(id)`: the current request id is set only when the
      request exists. */
  function GetRequestDetails(svc: Service, id: int): (r: (Option<Request>, Service))
    ensures r.0 == (if svc.initialized then DataManager.GetPendingRequestById(svc.store, id) else None)
    ensures r.0.Some? ==> r.1 == svc.(currentRequestId := Some(id))
    ensures r.0.None? ==> r.1 == svc
  {
    if !svc.initialized then (None, svc)
    else
      match DataManager.GetPendingRequestById(svc.store, id)
      case None => (None, svc)
      case Some(q) => (Some(q), svc.(currentRequestId := Some(id)))
  }

  /** The shared shape of the three status actions: look the request up,
      set the status and append one entry to its history, whatever the
      status was. */
  function Transition(svc: Service, id: int, status: string, entry: HistoryEntry): (r: (Option<Request>, Service))
    ensures r.0.None? <==> !svc.initialized || FindRequest(svc.store.pendingRequests, id).None?
    ensures r.0.None? ==> r.1 == svc
    ensures r.0.Some? ==>
      var k := FindRequest(svc.store.pendingRequests, id).value;
      var found := svc.store.pendingRequests[k];
      r.0.value == found.(status := status, history := Some(Appended(found.history, entry)))
      && r.1.store == svc.store.(pendingRequests := svc.store.pendingRequests[k := r.0.value])
  {
    if !svc.initialized then (None, svc)
    else
      match DataManager.GetPendingRequestById(svc.store, id)
      case None => (None, svc)
      case Some(q) =>
        var (updated, store) := DataManager.UpdatePendingRequest(svc.store, id,
          DataManager.RequestPatch(None, None, None, None, Some(status), None, Some(Appended(q.history, entry))));
        (updated, svc.(store := store))
  }

  function ApproveRequest(svc: Service, id: int, now: string): (r: (Option<Request>, Service))
    ensures r == Transition(svc, id, APROVADO, HistoryEntry(now, APROVACAO, "Solicitação aprovada"))
  {
    Transition(svc, id, APROVADO, HistoryEntry(now, APROVACAO, "Solicitação aprovada"))
  }

  function RejectRequest(svc: Service, id: int, now: string): (r: (Option<Request>, Service))
    ensures r == Transition(svc, id, RECUSADO, HistoryEntry(now, RECUSA, "Solicitação recusada"))
  {
    Transition(svc, id, RECUSADO, HistoryEntry(now, RECUSA, "Solicitação recusada"))
  }

  /** `sendToReview(id, notes)`: empty notes are refused before the request
      is even looked up; the history entry carries the notes verbatim. */
  function SendToReview(svc: Service, id: int, notes: string, now: string): (r: (Option<Request>, Service))
    ensures notes == "" ==> r == (None, svc)
    ensures notes != "" ==> r == Transition(svc, id, EM_REVISAO, HistoryEntry(now, REVISAO_SOLICITADA, notes))
  {
    if !svc.initialized || notes == "" then (None, svc)
    else Transition(svc, id, EM_REVISAO, HistoryEntry(now, REVISAO_SOLICITADA, notes))
  }

  function GetAllRequests(svc: Service): (r: seq<Request>)
    ensures r == (if svc.initialized then svc.store.pendingRequests else [])
  {
    if svc.initialized then svc.store.pendingRequests else []
  }

  function GetAllProducts(svc: Service): (r: seq<Product>)
    ensures r == (if svc.initialized then svc.store.products else [])
  {
    if svc.initialized then svc.store.products else []
  }

  /** Until initialisation every operation answers null, false or an empty
      list and changes nothing. */
  lemma UninitializedIsInert(svc: Service, id: int, p: Product, date: string, notes: string, now: string)
    requires !svc.initialized
    ensures AddProduct(svc, p) == (None, svc) && RemoveProduct(svc, id) == (false, svc)
    ensures UpdateDeliveryDate(svc, id, date) == (None, svc)
    ensures CreatePendingRequest(svc, now) == (None, svc)
    ensures GetRequestDetails(svc, id) == (None, svc)
    ensures ApproveRequest(svc, id, now) == (None, svc) && RejectRequest(svc, id, now) == (None, svc)
    ensures SendToReview(svc, id, notes, now) == (None, svc)
    ensures GetAllRequests(svc) == [] && GetAllProducts(svc) == []
  {
  }

  /** A quantity of 0 (or NaN, or an empty string) is refused. */
  lemma ZeroQuantityRefused(svc: Service, p: Product)
    requires p.quantity == Num(0) || p.quantity == NaN || p.quantity == Text("")
    ensures AddProduct(svc, p) == (None, svc)
  {
  }

  /** Every status action extends the history by exactly one entry and
      keeps every earlier one, in order. */
  lemma TransitionAppendsOne(svc: Service, id: int, status: string, entry: HistoryEntry)
    requires Transition(svc, id, status, entry).0.Some?
    ensures var before := DataManager.GetPendingRequestById(svc.store, id).value.history.GetOr([]);
      var after := Transition(svc, id, status, entry).0.value.history.value;
      |after| == |before| + 1 && after[..|before|] == before && after[|before|] == entry
  {
  }

  /** Approving twice is allowed: no status is checked, and the second
      approval adds a second entry. */
  lemma ApproveTwice(svc: Service, id: int, now: string)
    requires ApproveRequest(svc, id, now).0.Some?
    ensures var once := ApproveRequest(svc, id, now);
      var twice := ApproveRequest(once.1, id, now);
      twice.0.Some? && twice.0.value.status == APROVADO
      && |twice.0.value.history.value| == |once.0.value.history.value| + 1
  {
    var once := ApproveRequest(svc, id, now);
    var k := FindRequest(svc.store.pendingRequests, id).value;
    var rs := once.1.store.pendingRequests;
    assert rs[k].id == id;
    assert forall i :: 0 <= i < k ==> rs[i].id != id;
    assert FindRequest(rs, id) == Some(k);
  }

  /** A request id is kept fresh by creation: the new id is above every
      stored request id. */
  lemma CreateKeepsIdsFresh(svc: Service, now: string)
    requires DataManager.Fresh(svc.store)
    requires CreatePendingRequest(svc, now).0.Some?
    ensures RequestIdsBelow(CreatePendingRequest(svc, now).1.store.pendingRequests,
      CreatePendingRequest(svc, now).1.store.nextPendingId)
    ensures forall i :: 0 <= i < |svc.store.pendingRequests| ==>
      svc.store.pendingRequests[i].id != CreatePendingRequest(svc, now).0.value.id
  {
  }

  /** Every product in the list has a truthy quantity, as `addProduct`
      insists. */
  predicate QuantitiesTruthy(svc: Service) {
    forall i :: 0 <= i < |svc.store.products| ==> QuantityTruthy(svc.store.products[i].quantity)
  }

  /** Adding, removing and re-dating products keep every quantity truthy,
      so a request created afterwards has a numeric total weight. */
  lemma QuantitiesStayTruthy(svc: Service, p: Product, id: int, date: string, now: string)
    requires QuantitiesTruthy(svc)
    ensures QuantitiesTruthy(AddProduct(svc, p).1)
    ensures QuantitiesTruthy(RemoveProduct(svc, id).1)
    ensures QuantitiesTruthy(UpdateDeliveryDate(svc, id, date).1)
    ensures CreatePendingRequest(svc, now).0.Some? ==> CreatePendingRequest(svc, now).0.value.totalWeight.Some?
  {
    AddKeepsTruthy(svc, p);
    RemoveKeepsTruthy(svc, id);
    UpdateKeepsTruthy(svc, id, date);
    if CreatePendingRequest(svc, now).0.Some? {
      TruthyWeightIsNumber(svc.store.products);
    }
  }

  lemma AddKeepsTruthy(svc: Service, p: Product)
    requires QuantitiesTruthy(svc)
    ensures QuantitiesTruthy(AddProduct(svc, p).1)
  {
    var r := AddProduct(svc, p);
    if r.0.Some? {
      assert r.1.store.products == svc.store.products + [r.0.value];
    }
  }

  lemma RemoveKeepsTruthy(svc: Service, id: int)
    requires QuantitiesTruthy(svc)
    ensures QuantitiesTruthy(RemoveProduct(svc, id).1)
  {
    var kept := RemoveProduct(svc, id).1.store.products;
    assert forall i :: 0 <= i < |kept| ==> kept[i] in svc.store.products;
  }

  lemma UpdateKeepsTruthy(svc: Service, id: int, date: string)
    requires QuantitiesTruthy(svc)
    ensures QuantitiesTruthy(UpdateDeliveryDate(svc, id, date).1)
  {
  }
}
