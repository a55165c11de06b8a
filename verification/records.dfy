/** The records of the purchase-request workflow, shared by every variant
    of it: a product line (one load of aluminium to buy), a request that
    snapshots a list of products, and its history entries.

    JavaScript objects are loosely typed; the one field whose type changes
    behaviour is the quantity, which is a number (possibly NaN) or a string
    depending on where it came from. Quantities are whole kilograms. */
module Records {
  import opened Wrappers
  import Text

  const PENDENTE := "Pendente"
  const APROVADO := "Aprovado"
  const RECUSADO := "Recusado"
  const EM_REVISAO := "Em Revisão"

  const VENDAS := "Vendas"
  const TRANSFORMACAO := "Transformação"

  datatype Quantity = Num(value: int) | NaN | Text(text: string)

  /** JavaScript truthiness of a quantity: 0, NaN and "" are falsy. */
  predicate QuantityTruthy(q: Quantity) {
    match q
    case Num(v) => v != 0
    case NaN => false
    case Text(t) => t != ""
  }

  datatype Product = Product(
    id: int,
    supplier: string,
    alloy: string,
    productDescription: string,
    purchaseType: string,
    quantity: Quantity,
    deliveryDate: string)

  datatype HistoryEntry = HistoryEntry(date: string, action: string, notes: string)

  /** A purchase request. `totalWeight` is `None` when the sum came out as
      NaN; `history` is absent on requests created by the variants that
      never write one. */
  datatype Request = Request(
    id: int,
    date: string,
    totalProducts: int,
    totalWeight: Option<int>,
    purchaseType: string,
    status: string,
    products: seq<Product>,
    history: Option<seq<HistoryEntry>>)

  /** A product all six of whose form fields are truthy. */
  predicate Complete(p: Product) {
    p.supplier != "" && p.alloy != "" && p.productDescription != ""
    && p.purchaseType != "" && QuantityTruthy(p.quantity) && p.deliveryDate != ""
  }

  /** The purchase type of a request: 'Vendas' as soon as one product is. */
  function RequestType(ps: seq<Product>): (t: string)
    ensures t == VENDAS <==> exists i :: 0 <= i < |ps| && ps[i].purchaseType == VENDAS
    ensures t != VENDAS ==> t == TRANSFORMACAO
  {
    if exists i :: 0 <= i < |ps| && ps[i].purchaseType == VENDAS then VENDAS else TRANSFORMACAO
  }

  /** The weight of the quantities that are numbers, `typeof q === 'number'`:
      strings are skipped, and a NaN quantity turns the sum into NaN
      (`None`). */
  function NumericWeight(ps: seq<Product>): (r: Option<int>)
    ensures r.None? <==> exists i :: 0 <= i < |ps| && ps[i].quantity.NaN?
  {
    if ps == [] then Some(0)
    else
      var prefix := NumericWeight(ps[..|ps| - 1]);
      var last := ps[|ps| - 1].quantity;
      assert forall i :: 0 <= i < |ps| - 1 ==> ps[..|ps| - 1][i] == ps[i];
      if prefix.None? || last.NaN? then None
      else if last.Num? then Some(prefix.value + last.value)
      else prefix
  }

  /** A plain `reduce((sum, p) => sum + p.quantity, 0)`: a number only when
      every quantity is one (a string would turn the sum into text). */
  function WeightSum(ps: seq<Product>): (r: Option<int>)
    ensures r.Some? <==> forall i :: 0 <= i < |ps| ==> ps[i].quantity.Num?
  {
    if ps == [] then Some(0)
    else
      var prefix := WeightSum(ps[..|ps| - 1]);
      var last := ps[|ps| - 1].quantity;
      assert forall i :: 0 <= i < |ps| - 1 ==> ps[..|ps| - 1][i] == ps[i];
      if prefix.Some? && last.Num? then Some(prefix.value + last.value) else None
  }

  /** When every quantity is a number, both sums agree. */
  lemma {:induction false} WeightSumNumeric(ps: seq<Product>)
    requires forall i :: 0 <= i < |ps| ==> ps[i].quantity.Num?
    ensures WeightSum(ps) == NumericWeight(ps)
  {
    if ps != [] {
      WeightSumNumeric(ps[..|ps| - 1]);
    }
  }

  /** The weight of products whose quantities are all truthy is a number. */
  lemma TruthyWeightIsNumber(ps: seq<Product>)
    requires forall i :: 0 <= i < |ps| ==> QuantityTruthy(ps[i].quantity)
    ensures NumericWeight(ps).Some?
  {
  }

  /** Products kept by `filter(p => p.id !== id)`. */
  function Without(ps: seq<Product>, id: int): (r: seq<Product>)
    ensures forall p :: p in r <==> p in ps && p.id != id
    ensures |r| <= |ps|
    ensures |r| == |ps| <==> forall i :: 0 <= i < |ps| ==> ps[i].id != id
  {
    if ps == [] then []
    else if ps[0].id == id then Without(ps[1..], id)
    else [ps[0]] + Without(ps[1..], id)
  }

  /** `filter` keeps the relative order: removing from a concatenation
      removes from each part. */
  lemma {:induction false} WithoutAppend(a: seq<Product>, b: seq<Product>, id: int)
    ensures Without(a + b, id) == Without(a, id) + Without(b, id)
  {
    if a == [] {
      assert a + b == b;
    } else {
      var x, t := a[0], a[1..];
      assert a == [x] + t;
      assert a + b == [x] + (t + b);
      WithoutAppend(t, b, id);
      WithoutCons(x, t + b, id);
      WithoutCons(x, t, id);
      if x.id != id {
        ConcatAssoc([x], Without(t, id), Without(b, id));
      }
    }
  }

  lemma ConcatAssoc<T>(a: seq<T>, b: seq<T>, c: seq<T>)
    ensures a + (b + c) == (a + b) + c
  {
  }

  lemma WithoutCons(x: Product, rest: seq<Product>, id: int)
    ensures Without([x] + rest, id) == if x.id == id then Without(rest, id) else [x] + Without(rest, id)
  {
    assert ([x] + rest)[0] == x;
    assert ([x] + rest)[1..] == rest;
  }

  /** Index of the first occurrence of `id` (`findIndex` on the id column). */
  function IndexOf(ids: seq<int>, id: int): (r: Option<nat>)
    ensures r.None? <==> id !in ids
    ensures r.Some? ==> r.value < |ids| && ids[r.value] == id && id !in ids[..r.value]
  {
    if ids == [] then None
    else if ids[0] == id then Some(0)
    else
      var rest := IndexOf(ids[1..], id);
      assert ids == [ids[0]] + ids[1..];
      if rest.Some? then
        assert ids[..rest.value + 1] == [ids[0]] + ids[1..][..rest.value];
        Some(rest.value + 1)
      else None
  }

  /** Index of the first product with the id (`findIndex`). */
  function FindProduct(ps: seq<Product>, id: int): (r: Option<nat>)
    ensures r.None? <==> forall i :: 0 <= i < |ps| ==> ps[i].id != id
    ensures r.Some? ==>
      r.value < |ps| && ps[r.value].id == id && forall i :: 0 <= i < r.value ==> ps[i].id != id
  {
    var ids := ProductIds(ps);
    var r := IndexOf(ids, id);
    assert r.Some? ==> forall i :: 0 <= i < r.value ==> ids[..r.value][i] == ps[i].id;
    r
  }

  /** Index of the first request with the id (`findIndex` / `find`). */
  function FindRequest(rs: seq<Request>, id: int): (r: Option<nat>)
    ensures r.None? <==> forall i :: 0 <= i < |rs| ==> rs[i].id != id
    ensures r.Some? ==>
      r.value < |rs| && rs[r.value].id == id && forall i :: 0 <= i < r.value ==> rs[i].id != id
  {
    var ids := RequestIds(rs);
    var r := IndexOf(ids, id);
    assert r.Some? ==> forall i :: 0 <= i < r.value ==> ids[..r.value][i] == rs[i].id;
    r
  }

  /** The distinct elements of a sequence in order of first appearance
      (`[...new Set(xs)]`). */
  function Distinct(xs: seq<string>): (r: seq<string>)
    ensures forall x :: x in r <==> x in xs
    ensures forall i, j :: 0 <= i < j < |r| ==> r[i] != r[j]
  {
    DistinctAfter(xs, [])
  }

  function DistinctAfter(xs: seq<string>, seen: seq<string>): (r: seq<string>)
    requires forall i, j :: 0 <= i < j < |seen| ==> seen[i] != seen[j]
    ensures forall x :: x in r <==> x in xs || x in seen
    ensures forall i, j :: 0 <= i < j < |r| ==> r[i] != r[j]
    ensures |seen| <= |r| && r[..|seen|] == seen
    decreases |xs|
  {
    if xs == [] then seen
    else if xs[0] in seen then DistinctAfter(xs[1..], seen)
    else DistinctAfter(xs[1..], seen + [xs[0]])
  }

  /** `Distinct` keeps the order of first appearance: one more element is
      appended when it is new and ignored when it was seen before. */
  lemma DistinctSnoc(xs: seq<string>, x: string)
    ensures Distinct(xs + [x]) == if x in xs then Distinct(xs) else Distinct(xs) + [x]
  {
    DistinctAfterSnoc(xs, [], x);
  }

  lemma {:induction false} DistinctAfterSnoc(xs: seq<string>, seen: seq<string>, x: string)
    requires forall i, j :: 0 <= i < j < |seen| ==> seen[i] != seen[j]
    ensures DistinctAfter(xs + [x], seen) ==
      if x in DistinctAfter(xs, seen) then DistinctAfter(xs, seen) else DistinctAfter(xs, seen) + [x]
    decreases |xs|
  {
    if xs == [] {
      assert [x][1..] == [];
    } else {
      assert (xs + [x])[0] == xs[0];
      assert (xs + [x])[1..] == xs[1..] + [x];
      if xs[0] in seen {
        DistinctAfterSnoc(xs[1..], seen, x);
      } else {
        DistinctAfterSnoc(xs[1..], seen + [xs[0]], x);
      }
    }
  }

  function PurchaseTypes(ps: seq<Product>): seq<string> {
    seq(|ps|, i requires 0 <= i < |ps| => ps[i].purchaseType)
  }

  /** The purchase types column of the pending-requests table. */
  function TypesLabel(ps: seq<Product>): string {
    Text.Join(Distinct(PurchaseTypes(ps)), ", ")
  }

  /** The largest id of a non-empty list. */
  function MaxId(ids: seq<int>): (m: int)
    requires ids != []
    ensures forall i :: 0 <= i < |ids| ==> ids[i] <= m
    ensures m in ids
  {
    if |ids| == 1 then ids[0]
    else
      var rest := MaxId(ids[1..]);
      if ids[0] >= rest then ids[0] else rest
  }

  function ProductIds(ps: seq<Product>): (ids: seq<int>)
    ensures |ids| == |ps| && forall i :: 0 <= i < |ps| ==> ids[i] == ps[i].id
  {
    seq(|ps|, i requires 0 <= i < |ps| => ps[i].id)
  }

  function RequestIds(rs: seq<Request>): (ids: seq<int>)
    ensures |ids| == |rs| && forall i :: 0 <= i < |rs| ==> ids[i] == rs[i].id
  {
    seq(|rs|, i requires 0 <= i < |rs| => rs[i].id)
  }

  /** Every product id is below the counter: the next id handed out is fresh. */
  predicate ProductIdsBelow(ps: seq<Product>, next: int) {
    forall i :: 0 <= i < |ps| ==> ps[i].id < next
  }

  predicate RequestIdsBelow(rs: seq<Request>, next: int) {
    forall i :: 0 <= i < |rs| ==> rs[i].id < next
  }

  /** The history after one more entry: an absent history counts as empty
      (`[...(request.history || []), entry]`). */
  function Appended(h: Option<seq<HistoryEntry>>, e: HistoryEntry): (r: seq<HistoryEntry>)
    ensures |r| == |h.GetOr([])| + 1 && r[..|r| - 1] == h.GetOr([]) && r[|r| - 1] == e
  {
    h.GetOr([]) + [e]
  }
}
