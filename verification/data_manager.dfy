/** The in-memory store behind the modular purchase-request page
    (`js/modules/core/data-manager.js`): products and pending requests with
    their id counters, the saved form state, and the change listeners.

    Writing to and reading from local storage is not modelled, except for
    which storage keys `clearLocalStorage` removes; storage is a map from
    key to stored text. Listeners are identified by a number. */
module DataManager {
  import opened Wrappers
  import opened Records
  import Lists

  /** The logical storage names and the keys they are stored under. */
  const STORAGE_KEYS: map<string, string> := map[
    "PRODUCTS" := "lme_purchase_products",
    "PENDING_REQUESTS" := "lme_pending_requests",
    "NEXT_ID" := "lme_next_id",
    "NEXT_PENDING_ID" := "lme_next_pending_id",
    "FORM_STATE" := "lme_form_state"]

  datatype Store = Store(
    products: seq<Product>,
    pendingRequests: seq<Request>,
    nextId: int,
    nextPendingId: int,
    formState: map<string, string>)

  type Listeners = map<string, seq<nat>>

  /** The fields an update object may carry; an absent field keeps the
      stored value (`{...stored, ...update, id}`). */
  datatype ProductPatch = ProductPatch(
    supplier: Option<string>,
    alloy: Option<string>,
    productDescription: Option<string>,
    purchaseType: Option<string>,
    quantity: Option<Quantity>,
    deliveryDate: Option<string>)

  datatype RequestPatch = RequestPatch(
    date: Option<string>,
    totalProducts: Option<int>,
    totalWeight: Option<Option<int>>,
    purchaseType: Option<string>,
    status: Option<string>,
    products: Option<seq<Product>>,
    history: Option<seq<HistoryEntry>>)

  /** The module's state when the page loads, before anything is read back. */
  function Initial(): (s: Store)
    ensures s.products == [] && s.pendingRequests == [] && s.formState == map[]
    ensures s.nextId == 1 && s.nextPendingId == 1
  {
    Store([], [], 1, 1, map[])
  }

  function InitialListeners(): (ls: Listeners)
    ensures ls.Keys == {"products", "pendingRequests", "formState"}
    ensures forall t :: t in ls ==> ls[t] == []
  {
    map["products" := [], "pendingRequests" := [], "formState" := []]
  }

  /** The store has fresh ids ahead: every stored id is below its counter. */
  predicate Fresh(s: Store) {
    ProductIdsBelow(s.products, s.nextId) && RequestIdsBelow(s.pendingRequests, s.nextPendingId)
  }

  function MergeProduct(p: Product, u: ProductPatch): (r: Product)
    ensures r.id == p.id
    ensures r.supplier == u.supplier.GetOr(p.supplier) && r.alloy == u.alloy.GetOr(p.alloy)
    ensures r.productDescription == u.productDescription.GetOr(p.productDescription)
    ensures r.purchaseType == u.purchaseType.GetOr(p.purchaseType)
    ensures r.quantity == u.quantity.GetOr(p.quantity) && r.deliveryDate == u.deliveryDate.GetOr(p.deliveryDate)
  {
    Product(p.id, u.supplier.GetOr(p.supplier), u.alloy.GetOr(p.alloy),
      u.productDescription.GetOr(p.productDescription), u.purchaseType.GetOr(p.purchaseType),
      u.quantity.GetOr(p.quantity), u.deliveryDate.GetOr(p.deliveryDate))
  }

  function MergeRequest(q: Request, u: RequestPatch): (r: Request)
    ensures r.id == q.id
    ensures r.date == u.date.GetOr(q.date) && r.status == u.status.GetOr(q.status)
    ensures r.totalProducts == u.totalProducts.GetOr(q.totalProducts)
    ensures r.totalWeight == u.totalWeight.GetOr(q.totalWeight)
    ensures r.purchaseType == u.purchaseType.GetOr(q.purchaseType)
    ensures r.products == u.products.GetOr(q.products)
    ensures r.history == (if u.history.Some? then u.history else q.history)
  {
    Request(q.id, u.date.GetOr(q.date), u.totalProducts.GetOr(q.totalProducts),
      u.totalWeight.GetOr(q.totalWeight), u.purchaseType.GetOr(q.purchaseType),
      u.status.GetOr(q.status), u.products.GetOr(q.products),
      if u.history.Some? then u.history else q.history)
  }

  /** `addProduct(product)`: the counter's value replaces whatever id the
      input had, the counter moves on by one, the product goes last. */
  function AddProduct(s: Store, p: Product): (r: (Product, Store))
    ensures r.0 == p.(id := s.nextId)
    ensures r.1 == s.(products := s.products + [r.0], nextId := s.nextId + 1)
  {
    var added := p.(id := s.nextId);
    (added, s.(products := s.products + [added], nextId := s.nextId + 1))
  }

  /** `removeProduct(id)`: every product with the id goes, the rest keep
      their order; the answer is whether anything was removed. */
  function RemoveProduct(s: Store, id: int): (r: (bool, Store))
    ensures r.0 <==> exists i :: 0 <= i < |s.products| && s.products[i].id == id
    ensures r.1 == s.(products := Without(s.products, id))
    ensures forall i :: 0 <= i < |r.1.products| ==> r.1.products[i].id != id
  {
    var kept := Without(s.products, id);
    (|kept| < |s.products|, s.(products := kept))
  }

  /** `updateProduct(id, update)`: `None` and no change for an absent id;
      otherwise the first product with the id takes the update's fields
      and keeps its id, and every other position is untouched. */
  function UpdateProduct(s: Store, id: int, u: ProductPatch): (r: (Option<Product>, Store))
    ensures FindProduct(s.products, id).None? ==> r == (None, s)
    ensures FindProduct(s.products, id).Some? ==>
      var k := FindProduct(s.products, id).value;
      r.0 == Some(MergeProduct(s.products[k], u))
      && r.1 == s.(products := s.products[k := MergeProduct(s.products[k], u)])
  {
    match FindProduct(s.products, id)
    case None => (None, s)
    case Some(k) =>
      var merged := MergeProduct(s.products[k], u);
      (Some(merged), s.(products := s.products[k := merged]))
  }

  /** `addPendingRequest(request)`: a truthy id is kept and the counter is
      left alone; a missing id (0 here, like `undefined`) takes the
      counter, which moves on. */
  function AddPendingRequest(s: Store, q: Request): (r: (Request, Store))
    ensures q.id != 0 ==> r.0 == q && r.1 == s.(pendingRequests := s.pendingRequests + [q])
    ensures q.id == 0 ==>
      r.0 == q.(id := s.nextPendingId)
      && r.1 == s.(pendingRequests := s.pendingRequests + [r.0], nextPendingId := s.nextPendingId + 1)
  {
    if q.id != 0 then (q, s.(pendingRequests := s.pendingRequests + [q]))
    else
      var added := q.(id := s.nextPendingId);
      (added, s.(pendingRequests := s.pendingRequests + [added], nextPendingId := s.nextPendingId + 1))
  }

  function UpdatePendingRequest(s: Store, id: int, u: RequestPatch): (r: (Option<Request>, Store))
    ensures FindRequest(s.pendingRequests, id).None? ==> r == (None, s)
    ensures FindRequest(s.pendingRequests, id).Some? ==>
      var k := FindRequest(s.pendingRequests, id).value;
      r.0 == Some(MergeRequest(s.pendingRequests[k], u))
      && r.1 == s.(pendingRequests := s.pendingRequests[k := MergeRequest(s.pendingRequests[k], u)])
  {
    match FindRequest(s.pendingRequests, id)
    case None => (None, s)
    case Some(k) =>
      var merged := MergeRequest(s.pendingRequests[k], u);
      (Some(merged), s.(pendingRequests := s.pendingRequests[k := merged]))
  }

  /** `getPendingRequestById(id)`: the first request with the id. */
  function GetPendingRequestById(s: Store, id: int): (r: Option<Request>)
    ensures r.None? <==> forall i :: 0 <= i < |s.pendingRequests| ==> s.pendingRequests[i].id != id
    ensures r.Some? ==> r.value.id == id
    ensures r.Some? ==> exists k :: (0 <= k < |s.pendingRequests| && s.pendingRequests[k] == r.value
      && forall i :: 0 <= i < k ==> s.pendingRequests[i].id != id)
  {
    match FindRequest(s.pendingRequests, id)
    case None => None
    case Some(k) => Some(s.pendingRequests[k])
  }

  function SaveFormState(s: Store, form: map<string, string>): (r: Store)
    ensures r.formState == form && r.products == s.products && r.pendingRequests == s.pendingRequests
    ensures r.nextId == s.nextId && r.nextPendingId == s.nextPendingId
  {
    s.(formState := form)
  }

  /** The storage keys named by a list of logical names; unknown names are
      ignored. */
  function KeysNamed(names: seq<string>): (ks: set<string>)
    ensures forall k :: k in ks <==> exists n :: n in names && n in STORAGE_KEYS && STORAGE_KEYS[n] == k
  {
    set n | n in names && n in STORAGE_KEYS :: STORAGE_KEYS[n]
  }

  /** The names the request service clears are the product and form-state
      keys. */
  lemma ProductsAndFormKeys()
    ensures KeysNamed(["PRODUCTS", "FORM_STATE"]) == {STORAGE_KEYS["PRODUCTS"], STORAGE_KEYS["FORM_STATE"]}
  {
    var ks := KeysNamed(["PRODUCTS", "FORM_STATE"]);
    assert STORAGE_KEYS["PRODUCTS"] in ks;
    assert STORAGE_KEYS["FORM_STATE"] in ks;
  }

  /** `clearLocalStorage(keys)`. With a list of names only those storage
      keys are removed and the in-memory state is untouched. Without one
      every key is removed and the products and form state are reset, while
      the pending requests and both counters stay. */
  function ClearLocalStorage(s: Store, storage: map<string, string>, names: Option<seq<string>>): (r: (Store, map<string, string>))
    ensures names.Some? ==> r.0 == s
    ensures names.Some? ==> forall k :: k in r.1 <==> k in storage && k !in KeysNamed(names.value)
    ensures names.None? ==> r.0.products == [] && r.0.formState == map[]
    ensures names.None? ==> forall k :: k in r.1 <==> k in storage && k !in STORAGE_KEYS.Values
    ensures r.0.pendingRequests == s.pendingRequests
    ensures r.0.nextId == s.nextId && r.0.nextPendingId == s.nextPendingId
    ensures forall k :: k in r.1 ==> k in storage && r.1[k] == storage[k]
  {
    match names
    case Some(ns) => (s, storage - KeysNamed(ns))
    case None => (s.(products := [], formState := map[]), storage - STORAGE_KEYS.Values)
  }

  function AddChangeListener(ls: Listeners, dataType: string, callback: nat): (r: Listeners)
    ensures r.Keys == ls.Keys + {dataType}
    ensures r[dataType] == (if dataType in ls then ls[dataType] else []) + [callback]
    ensures forall t :: t in ls && t != dataType ==> r[t] == ls[t]
  {
    ls[dataType := (if dataType in ls then ls[dataType] else []) + [callback]]
  }

  /** `removeChangeListener`: only the first registration of the callback
      goes; an unknown data type changes nothing. */
  function RemoveChangeListener(ls: Listeners, dataType: string, callback: nat): (r: Listeners)
    ensures dataType !in ls ==> r == ls
    ensures dataType in ls ==> r == ls[dataType := Lists.RemoveFirst(ls[dataType], callback)]
  {
    if dataType !in ls then ls
    else ls[dataType := Lists.RemoveFirst(ls[dataType], callback)]
  }

  /** Adding a product keeps ids fresh: the new id is larger than every
      stored one, so it differs from all of them. */
  lemma AddProductFresh(s: Store, p: Product)
    requires Fresh(s)
    ensures Fresh(AddProduct(s, p).1)
    ensures forall i :: 0 <= i < |s.products| ==> s.products[i].id != AddProduct(s, p).0.id
  {
  }

  /** Adding a request without an id keeps request ids fresh; one that
      brings its own id does so when that id is below the counter. */
  lemma AddPendingRequestFresh(s: Store, q: Request)
    requires Fresh(s)
    requires q.id < s.nextPendingId
    ensures Fresh(AddPendingRequest(s, q).1)
  {
  }

  /** Removing a product and then looking it up finds nothing; a product
      just added is removed again with its id, restoring the list. */
  lemma RemoveAddedProduct(s: Store, p: Product)
    requires Fresh(s)
    ensures RemoveProduct(AddProduct(s, p).1, s.nextId).1.products == s.products
    ensures RemoveProduct(AddProduct(s, p).1, s.nextId).0
  {
    var added := AddProduct(s, p).0;
    WithoutAppend(s.products, [added], s.nextId);
    WithoutNone(s.products, s.nextId);
    assert Without([added], s.nextId) == [];
    assert AddProduct(s, p).1.products[|s.products|].id == s.nextId;
  }

  lemma {:induction false} WithoutNone(ps: seq<Product>, id: int)
    requires forall i :: 0 <= i < |ps| ==> ps[i].id != id
    ensures Without(ps, id) == ps
  {
    if ps != [] {
      WithoutNone(ps[1..], id);
      assert [ps[0]] + ps[1..] == ps;
    }
  }

  /** After an update the updated product is found at the same place with
      the same id, the counters do not move, and the list keeps its
      length. */
  lemma UpdateProductKeepsIds(s: Store, id: int, u: ProductPatch)
    ensures |UpdateProduct(s, id, u).1.products| == |s.products|
    ensures ProductIds(UpdateProduct(s, id, u).1.products) == ProductIds(s.products)
    ensures UpdateProduct(s, id, u).1.nextId == s.nextId
  {
  }

  /** An update whose patch is empty changes nothing but reports the found
      product. */
  lemma UpdateWithEmptyPatch(s: Store, id: int)
    ensures UpdateProduct(s, id, ProductPatch(None, None, None, None, None, None)).1 == s
  {
    var f := FindProduct(s.products, id);
    if f.Some? {
      var k := f.value;
      assert MergeProduct(s.products[k], ProductPatch(None, None, None, None, None, None)) == s.products[k];
      assert s.products[k := s.products[k]] == s.products;
    }
  }

  /** A listener added and then removed leaves the registrations as they
      were, when it was not registered before for that type. */
  lemma RemoveAddedListener(ls: Listeners, dataType: string, callback: nat)
    requires dataType in ls && callback !in ls[dataType]
    ensures RemoveChangeListener(AddChangeListener(ls, dataType, callback), dataType, callback) == ls
  {
    Lists.RemoveAppended(ls[dataType], callback);
    assert ls[dataType := ls[dataType]] == ls;
  }
}
