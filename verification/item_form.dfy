/** The multi-item purchase form: item blocks added by a button, each with
    its own supplier, alloy and description selects, a running weight and
    load count, and a submit that collects the items from the form data.

    Each added block gets the number `++itemCount`, which names its inputs
    (`items[N][field]`) and ids (`product-description-N`); numbers are never
    reused while the page lives. Two handlers go wrong with those numbers,
    and both are modelled as written next to the corrected behaviour:

    - the submit reads `items[0]` to `items[n-1]` by position, while the
      blocks are named from 1 (`CollectAsWritten`, corrected by `Collect`);
    - the change listeners of a block refresh `product-description-` of the
      current `itemCount`, which is the newest block, not their own
      (`ChangeItemAsWritten`, corrected by `ChangeItem`).

    The quantity input goes through `parseFloat`, a parameter returning
    whole kilograms. */
module ItemForm {
  import opened Wrappers
  import Decimal
  import ProductCatalog
  import Records

  type Select = ProductCatalog.Select

  datatype Item = Item(
    number: int,
    supplier: string,
    alloy: string,
    description: Select,
    purchaseType: string,
    quantity: string,
    deliveryDate: string)

  /** The text of the three header inputs: client name, total weight and
      number of loads. */
  datatype Header = Header(clientName: string, totalWeight: string, totalLoads: string)

  /** The page: the counter, the blocks in document order, the form's own
      description select (`product-description`), if the page has one, and
      the header inputs. */
  datatype Page = Page(itemCount: int, items: seq<Item>, main: Option<Select>, header: Header)

  /** What the submit sends for one block. */
  datatype ItemData = ItemData(
    supplier: string,
    alloy: string,
    productDescription: string,
    purchaseType: string,
    quantity: Records.Quantity,
    deliveryDate: string)

  /** Block numbers increase along the document and stay within
      1..itemCount. */
  predicate Valid(p: Page) {
    p.itemCount >= 0
    && (forall i :: 0 <= i < |p.items| ==> 1 <= p.items[i].number <= p.itemCount)
    && forall i, j :: 0 <= i < j < |p.items| ==> p.items[i].number < p.items[j].number
  }

  /** A fresh page; `header` is what the page's markup puts in the header
      inputs, which `form.reset()` restores. */
  function Initial(main: Option<Select>, header: Header): (p: Page)
    ensures Valid(p) && p.items == [] && p.header == header
  {
    Page(0, [], main, header)
  }

  /** The id of the select `updateProductList` fills: the numbered one when
      `itemCount` is truthy, the form's own otherwise (`null` and 0 are
      falsy). */
  function SelectId(itemCount: Option<int>): (r: string)
    ensures r == "product-description" <==> itemCount.None? || itemCount.value == 0
    ensures itemCount.Some? && itemCount.value != 0 ==>
      r == "product-description-" + Decimal.IntToString(itemCount.value)
  {
    if itemCount.None? || itemCount.value == 0 then "product-description"
    else
      var r := "product-description-" + Decimal.IntToString(itemCount.value);
      assert r[..19] == "product-description";
      r
  }

  /** Different block numbers give different ids, so each block's select is
      found by its own number. */
  lemma SelectIdsDistinct(a: int, b: int)
    requires a != 0 && b != 0 && a != b
    ensures SelectId(Some(a)) != SelectId(Some(b))
  {
    var prefix := "product-description-";
    var sa := Decimal.IntToString(a);
    var sb := Decimal.IntToString(b);
    if SelectId(Some(a)) == SelectId(Some(b)) {
      assert (prefix + sa)[|prefix|..] == sa;
      assert (prefix + sb)[|prefix|..] == sb;
      Decimal.ParseIntOfIntToString(a);
      Decimal.ParseIntOfIntToString(b);
    }
  }

  /** The add button: the block gets the number `itemCount + 1`, empty
      inputs and a description select holding the placeholder alone. */
  function AddItem(p: Page): (r: Page)
    ensures Valid(p) ==> Valid(r)
    ensures r.itemCount == p.itemCount + 1 && |r.items| == |p.items| + 1
    ensures r.items[..|p.items|] == p.items && r.items[|p.items|].number == r.itemCount
    ensures r.main == p.main
  {
    var block := Item(p.itemCount + 1, "", "", ProductCatalog.Select(ProductCatalog.SELECT_PRODUCT, [], false, ""), "", "", "");
    p.(itemCount := p.itemCount + 1, items := p.items + [block])
  }

  /** The remove button of the block at position `k`: the block goes, the
      counter stays. */
  function RemoveItem(p: Page, k: nat): (r: Page)
    requires k < |p.items|
    ensures Valid(p) ==> Valid(r)
    ensures r.itemCount == p.itemCount && r.items == p.items[..k] + p.items[k + 1..]
  {
    var r := p.(items := p.items[..k] + p.items[k + 1..]);
    assert forall i :: 0 <= i < |r.items| ==> r.items[i] == if i < k then p.items[i] else p.items[i + 1];
    r
  }

  /** Position of the first block with the number: what
      `getElementById('product-description-' + n)` and `formData.get` find. */
  function Numbered(items: seq<Item>, n: int): (r: Option<nat>)
    ensures r.None? <==> forall i :: 0 <= i < |items| ==> items[i].number != n
    ensures r.Some? ==> (r.value < |items| && items[r.value].number == n
      && forall i :: 0 <= i < r.value ==> items[i].number != n)
  {
    if items == [] then None
    else if items[0].number == n then Some(0)
    else
      var rest := Numbered(items[1..], n);
      if rest.Some? then Some(rest.value + 1) else None
  }

  /** In a valid page every block is found by its own number. */
  lemma NumberedFindsItself(p: Page, k: nat)
    requires Valid(p) && k < |p.items|
    ensures Numbered(p.items, p.items[k].number) == Some(k)
  {
  }

  /** The block's supplier and alloy selects as the user sets them. */
  function SetChoice(it: Item, supplier: string, alloy: string): Item {
    it.(supplier := supplier, alloy := alloy)
  }

  function WithItem(items: seq<Item>, k: nat, it: Item): (r: seq<Item>)
    requires k < |items|
    ensures |r| == |items| && r[k] == it && forall i :: 0 <= i < |items| && i != k ==> r[i] == items[i]
  {
    items[k := it]
  }

  /** A change on the block at position `k`, as written: the choice is
      recorded, and when both supplier and alloy are set the list is loaded
      into the select of block number `itemCount`, the newest one, or into
      nothing once that block has been removed. */
  function ChangeItemAsWritten(c: ProductCatalog.Catalog, p: Page, k: nat, supplier: string, alloy: string): (r: Page)
    requires k < |p.items|
    ensures |r.items| == |p.items| && r.itemCount == p.itemCount && r.main == p.main
    ensures r.items[k].supplier == supplier && r.items[k].alloy == alloy
    ensures supplier == "" || alloy == "" ==> r.items == WithItem(p.items, k, SetChoice(p.items[k], supplier, alloy))
  {
    var chosen := WithItem(p.items, k, SetChoice(p.items[k], supplier, alloy));
    if supplier != "" && alloy != "" then
      match Numbered(chosen, p.itemCount)
      case None => p.(items := chosen)
      case Some(t) =>
        var target := chosen[t];
        p.(items := WithItem(chosen, t, target.(description := ProductCatalog.ProductList(c, supplier, alloy, target.description))))
    else p.(items := chosen)
  }

  /** The same change, corrected: the block's own select is refreshed. */
  function ChangeItem(c: ProductCatalog.Catalog, p: Page, k: nat, supplier: string, alloy: string): (r: Page)
    requires k < |p.items|
    ensures |r.items| == |p.items| && r.itemCount == p.itemCount && r.main == p.main
    ensures forall i :: 0 <= i < |p.items| && i != k ==> r.items[i] == p.items[i]
    ensures r.items[k].number == p.items[k].number
    ensures r.items[k].supplier == supplier && r.items[k].alloy == alloy
    ensures supplier != "" && alloy != "" ==>
      r.items[k].description.options == ProductCatalog.Descriptions(c, supplier, alloy).GetOr([])
    ensures supplier == "" || alloy == "" ==> r.items[k].description == p.items[k].description
  {
    var it := SetChoice(p.items[k], supplier, alloy);
    if supplier != "" && alloy != "" then
      p.(items := WithItem(p.items, k, it.(description := ProductCatalog.ProductList(c, supplier, alloy, it.description))))
    else p.(items := WithItem(p.items, k, it))
  }

  /** The corrected change touches no block but its own, and refreshes it
      through the id its number gives. */
  lemma ChangeItemTargetsOwnBlock(c: ProductCatalog.Catalog, p: Page, k: nat, supplier: string, alloy: string)
    requires Valid(p) && k < |p.items|
    ensures Valid(ChangeItem(c, p, k, supplier, alloy))
    ensures Numbered(ChangeItem(c, p, k, supplier, alloy).items, p.items[k].number) == Some(k)
  {
    var r := ChangeItem(c, p, k, supplier, alloy);
    NumberedFindsItself(r, k);
  }

  /** Two blocks added, then a supplier and alloy chosen in the first: as
      written, the list lands in the second block's select and the first
      keeps only its placeholder. */
  lemma ChangeOnFirstOfTwoFillsTheSecond(main: Option<Select>, header: Header)
    ensures var p := AddItem(AddItem(Initial(main, header)));
      var r := ChangeItemAsWritten(ProductCatalog.ItemCatalog(), p, 0, "CBA", "6060");
      r.items[0].description.options == [] && |r.items[1].description.options| == 3
  {
    var c := ProductCatalog.ItemCatalog();
    var p := AddItem(AddItem(Initial(main, header)));
    assert p.items[0].number == 1 && p.items[1].number == 2 && p.itemCount == 2;
    var chosen := WithItem(p.items, 0, SetChoice(p.items[0], "CBA", "6060"));
    assert Numbered(chosen, 2) == Some(1);
    assert ProductCatalog.SupplierIndex(c, "CBA") == Some(0);
    assert ProductCatalog.AlloyIndex(c[0].alloys, "6060") == Some(0);
  }

  /** The same steps, corrected, fill the first block's select. */
  lemma ChangeOnFirstOfTwoFillsTheFirst(main: Option<Select>, header: Header)
    ensures var p := AddItem(AddItem(Initial(main, header)));
      var r := ChangeItem(ProductCatalog.ItemCatalog(), p, 0, "CBA", "6060");
      |r.items[0].description.options| == 3 && r.items[1].description.options == []
  {
    var c := ProductCatalog.ItemCatalog();
    assert ProductCatalog.SupplierIndex(c, "CBA") == Some(0);
    assert ProductCatalog.AlloyIndex(c[0].alloys, "6060") == Some(0);
  }

  /** A change of the form's own supplier or alloy: the form's select is
      refilled only when both are chosen and the select exists. */
  function ChangeMain(c: ProductCatalog.Catalog, p: Page, supplier: string, alloy: string): (r: Page)
    ensures r.items == p.items && r.itemCount == p.itemCount
    ensures r.main.Some? <==> p.main.Some?
    ensures supplier == "" || alloy == "" || p.main.None? ==> r == p
    ensures supplier != "" && alloy != "" && p.main.Some? ==>
      r.main.value.options == ProductCatalog.Descriptions(c, supplier, alloy).GetOr([])
  {
    if supplier != "" && alloy != "" && p.main.Some? then
      p.(main := Some(ProductCatalog.ProductList(c, supplier, alloy, p.main.value)))
    else p
  }

  function DataOf(it: Item, parseFloat: string -> Records.Quantity): ItemData {
    ItemData(it.supplier, it.alloy, it.description.value, it.purchaseType, parseFloat(it.quantity), it.deliveryDate)
  }

  /** The submit as written: entry `i` is read from the fields named
      `items[i]`, i.e. from block number `i`; `None` is the record of `null`
      fields a missing name gives. */
  function CollectAsWritten(p: Page, parseFloat: string -> Records.Quantity): (r: seq<Option<ItemData>>)
    ensures |r| == |p.items|
    ensures forall i :: 0 <= i < |r| ==> (r[i].None? <==> Numbered(p.items, i).None?)
  {
    seq(|p.items|, i requires 0 <= i < |p.items| =>
      match Numbered(p.items, i)
      case None => None
      case Some(t) => Some(DataOf(p.items[t], parseFloat)))
  }

  /** The submit corrected: each block is read through its own number. */
  function Collect(p: Page, parseFloat: string -> Records.Quantity): (r: seq<ItemData>)
    requires Valid(p)
    ensures |r| == |p.items|
    ensures forall i :: 0 <= i < |r| ==> r[i] == DataOf(p.items[Numbered(p.items, p.items[i].number).value], parseFloat)
  {
    forall i | 0 <= i < |p.items| ensures Numbered(p.items, p.items[i].number) == Some(i) {
      NumberedFindsItself(p, i);
    }
    seq(|p.items|, i requires 0 <= i < |p.items| => DataOf(p.items[i], parseFloat))
  }

  /** As written, the first entry submitted is always empty, since no block
      is numbered 0; and when no block was removed, entry `i` is read from
      block `i - 1`, so the last block is never read at all. */
  lemma CollectAsWrittenLosesItems(p: Page, parseFloat: string -> Records.Quantity)
    requires Valid(p) && |p.items| >= 1
    ensures CollectAsWritten(p, parseFloat)[0].None?
    ensures p.itemCount == |p.items| ==>
      forall i :: 1 <= i < |p.items| ==> Numbered(p.items, i) == Some(i - 1)
    ensures p.itemCount == |p.items| ==>
      forall i :: 0 <= i < |p.items| ==> Numbered(p.items, i) != Some(|p.items| - 1)
  {
    var n := |p.items|;
    if p.itemCount == n {
      NumbersAreOneToN(p);
      forall i | 1 <= i < n ensures Numbered(p.items, i) == Some(i - 1) {
        NumberedFindsItself(p, i - 1);
      }
    }
  }

  /** Without removals the blocks are numbered 1 to n in order. */
  lemma NumbersAreOneToN(p: Page)
    requires Valid(p) && p.itemCount == |p.items|
    ensures forall i :: 0 <= i < |p.items| ==> p.items[i].number == i + 1
  {
    var n := |p.items|;
    forall i | 0 <= i < n ensures p.items[i].number == i + 1 {
      NumberAtLeast(p, i);
      NumberAtMost(p, i);
    }
  }

  lemma {:induction false} NumberAtLeast(p: Page, i: nat)
    requires Valid(p) && i < |p.items|
    ensures p.items[i].number >= i + 1
  {
    if i > 0 {
      NumberAtLeast(p, i - 1);
    }
  }

  lemma {:induction false} NumberAtMost(p: Page, i: nat)
    requires Valid(p) && i < |p.items|
    ensures p.items[i].number <= p.itemCount - (|p.items| - 1 - i)
    decreases |p.items| - i
  {
    if i < |p.items| - 1 {
      NumberAtMost(p, i + 1);
    }
  }

  /** Two blocks added, nothing removed: the submit sends an empty record
      first and the first block's data second, and the second block is
      lost. */
  lemma TwoItemsSubmittedAsWritten(main: Option<Select>, header: Header, parseFloat: string -> Records.Quantity)
    ensures var p := AddItem(AddItem(Initial(main, header)));
      CollectAsWritten(p, parseFloat) == [None, Some(DataOf(p.items[0], parseFloat))]
  {
    var p := AddItem(AddItem(Initial(main, header)));
    assert Numbered(p.items, 0) == None;
    assert Numbered(p.items, 1) == Some(0);
  }

  /** What the submit sends: the header fields and one record per block. */
  datatype Request = Request(
    clientName: string,
    totalWeight: Records.Quantity,
    totalLoads: Option<int>,
    items: seq<Option<ItemData>>)

  /** The request the submit builds, as written: the header fields through
      `parseFloat` and `parseInt`, and the blocks read by position. */
  function RequestAsWritten(p: Page, parseFloat: string -> Records.Quantity): (r: Request)
    ensures r.clientName == p.header.clientName && r.totalWeight == parseFloat(p.header.totalWeight)
    ensures r.totalLoads.Some? ==> exists k :: 0 <= k < |p.header.totalLoads| && Decimal.IsDigit(p.header.totalLoads[k])
    ensures |r.items| == |p.items|
  {
    Request(p.header.clientName, parseFloat(p.header.totalWeight), Decimal.ParseInt(p.header.totalLoads),
      CollectAsWritten(p, parseFloat))
  }

  /** `form.reset()` on the form's description select: the options stay and
      the first one, the placeholder of value `''`, is selected again. */
  function ResetSelect(s: Select): (r: Select)
    ensures r.options == s.options && r.placeholder == s.placeholder && r.disabled == s.disabled
    ensures r.value == ""
  {
    s.(value := "")
  }

  /** The submit: on success the blocks are cleared, numbering starts again
      from 1, `form.reset()` puts the header inputs back to the markup's
      `defaults` and selects the placeholder of the description select; on
      failure the page stays as it was. */
  function Submit(p: Page, succeeded: bool, defaults: Header): (r: Page)
    ensures succeeded ==> r.items == [] && r.itemCount == 0 && r.header == defaults
    ensures succeeded && p.main.Some? ==> r.main == Some(ResetSelect(p.main.value))
    ensures !succeeded ==> r == p
    ensures r.main.Some? <==> p.main.Some?
    ensures Valid(r) == (Valid(p) || succeeded)
  {
    if succeeded then Page(0, [], if p.main.Some? then Some(ResetSelect(p.main.value)) else None, defaults)
    else p
  }

  /** A successful submit leaves the page as a fresh one, apart from the
      description list, which keeps the options it was last filled with. */
  lemma SubmitRestoresFreshPage(p: Page, defaults: Header)
    ensures var r := Submit(p, true, defaults);
      r == Initial(r.main, defaults) && (p.main.None? ==> r == Initial(None, defaults))
  {
  }

  /** Whole loads for a weight: `Math.ceil(totalWeight / 25000)`. */
  function Loads(totalWeight: int): (r: int)
    ensures 25000 * (r - 1) < totalWeight <= 25000 * r
  {
    var k: int := -totalWeight / 25000;
    -k
  }

  /** The quantity sum of the blocks whose quantity input is not empty. */
  function TotalWeight(items: seq<Item>, parseFloat: string -> int): int
  {
    if items == [] then 0
    else
      var last := items[|items| - 1];
      TotalWeight(items[..|items| - 1], parseFloat) + (if last.quantity != "" then parseFloat(last.quantity) else 0)
  }

  /** `updateTotals`: the weight of the filled-in quantities and the loads
      it needs. */
  function UpdateTotals(items: seq<Item>, parseFloat: string -> int): (r: (int, int))
    ensures r.0 == TotalWeight(items, parseFloat)
    ensures 25000 * (r.1 - 1) < r.0 <= 25000 * r.1
  {
    var w := TotalWeight(items, parseFloat);
    (w, Loads(w))
  }

  /** Empty quantity inputs are skipped: only filled ones move the total,
      and an added block, whose quantity starts empty, leaves it alone. */
  lemma {:induction false} TotalSkipsEmpty(items: seq<Item>, parseFloat: string -> int)
    requires forall i :: 0 <= i < |items| ==> items[i].quantity == ""
    ensures TotalWeight(items, parseFloat) == 0
  {
    if items != [] {
      TotalSkipsEmpty(items[..|items| - 1], parseFloat);
    }
  }

  /** `updateTotals` writing into the header: `toFixed(2)` of the total
      and the loads in decimal. */
  function ShowTotals(p: Page, parseFloat: string -> int): (r: Page)
    ensures r.items == p.items && r.itemCount == p.itemCount && r.main == p.main
    ensures r.header.clientName == p.header.clientName
    ensures var t := UpdateTotals(p.items, parseFloat);
      && r.header.totalWeight == Decimal.IntToString(t.0) + ".00"
      && r.header.totalLoads == Decimal.IntToString(t.1)
  {
    var t := UpdateTotals(p.items, parseFloat);
    p.(header := p.header.(totalWeight := Decimal.IntToString(t.0) + ".00", totalLoads := Decimal.IntToString(t.1)))
  }

  /** The loads the submit sends are the loads last shown: `parseInt`
      reads back what `updateTotals` wrote, and that is the smallest
      number of 25 000 kg loads holding the total weight of the blocks. */
  lemma SubmittedLoadsAreShown(p: Page, weigh: string -> int, parseFloat: string -> Records.Quantity)
    ensures var t := UpdateTotals(p.items, weigh);
      RequestAsWritten(ShowTotals(p, weigh), parseFloat).totalLoads == Some(t.1)
      && 25000 * (t.1 - 1) < TotalWeight(p.items, weigh) <= 25000 * t.1
  {
    Decimal.ParseIntOfIntToString(UpdateTotals(p.items, weigh).1);
  }

  lemma AddItemKeepsTotals(p: Page, parseFloat: string -> int)
    ensures UpdateTotals(AddItem(p).items, parseFloat) == UpdateTotals(p.items, parseFloat)
  {
    assert AddItem(p).items[..|p.items|] == p.items;
  }
}
