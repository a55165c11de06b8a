/** The supplier → alloy → description catalogues behind the cascading
    selects of the purchase form, and the selects themselves.

    A catalogue is a JavaScript object literal of object literals; it is
    kept here as a sequence of entries in the order in which `Object.keys`
    and `forEach` list them. That is not always the order the literal is
    written in: keys that spell an array index ("6060") come first, in
    ascending numeric order, and only the others keep their written order
    (`OwnKeyOrder`). A `<select>` is reduced to its
    placeholder text, the values of the options after the placeholder,
    whether it is disabled, and its current value (the placeholder's value
    is ""). */
module ProductCatalog {
  import opened Wrappers
  import Decimal

  datatype AlloyEntry = AlloyEntry(alloy: string, descriptions: seq<string>)
  datatype SupplierEntry = SupplierEntry(supplier: string, alloys: seq<AlloyEntry>)
  type Catalog = seq<SupplierEntry>

  datatype Select = Select(placeholder: string, options: seq<string>, disabled: bool, value: string)

  const SELECT_ALLOY := "Selecione a liga"
  const SELECT_DESCRIPTION := "Selecione a descrição"
  const SELECT_PRODUCT := "Selecione um produto"

  /** Object keys are unique: no supplier twice, no alloy twice under one
      supplier. */
  predicate WellFormed(c: Catalog) {
    (forall i, j :: 0 <= i < j < |c| ==> c[i].supplier != c[j].supplier)
    && forall i :: 0 <= i < |c| ==> DistinctAlloys(c[i].alloys)
  }

  predicate DistinctAlloys(alloys: seq<AlloyEntry>) {
    forall j, k :: 0 <= j < k < |alloys| ==> alloys[j].alloy != alloys[k].alloy
  }

  /** `Object.keys` of one supplier's entry. */
  function AlloyNames(alloys: seq<AlloyEntry>): (r: seq<string>)
    ensures |r| == |alloys| && forall i :: 0 <= i < |r| ==> r[i] == alloys[i].alloy
  {
    seq(|alloys|, i requires 0 <= i < |alloys| => alloys[i].alloy)
  }

  /** Position of the supplier's key, if it is one. */
  function SupplierIndex(c: Catalog, s: string): (r: Option<nat>)
    ensures r.None? <==> forall i :: 0 <= i < |c| ==> c[i].supplier != s
    ensures r.Some? ==> r.value < |c| && c[r.value].supplier == s
  {
    if c == [] then None
    else if c[0].supplier == s then Some(0)
    else
      var rest := SupplierIndex(c[1..], s);
      if rest.Some? then Some(rest.value + 1) else None
  }

  /** Position of the alloy's key under one supplier, if it is one. */
  function AlloyIndex(alloys: seq<AlloyEntry>, a: string): (r: Option<nat>)
    ensures r.None? <==> forall i :: 0 <= i < |alloys| ==> alloys[i].alloy != a
    ensures r.Some? ==> r.value < |alloys| && alloys[r.value].alloy == a
  {
    if alloys == [] then None
    else if alloys[0].alloy == a then Some(0)
    else
      var rest := AlloyIndex(alloys[1..], a);
      if rest.Some? then Some(rest.value + 1) else None
  }

  /** `productData[supplier]`: an object, hence truthy, whenever present. */
  function Alloys(c: Catalog, s: string): Option<seq<AlloyEntry>> {
    match SupplierIndex(c, s)
    case None => None
    case Some(i) => Some(c[i].alloys)
  }

  /** `productData[supplier][alloy]`: an array, hence truthy, whenever
      present. */
  function Descriptions(c: Catalog, s: string, a: string): Option<seq<string>> {
    match Alloys(c, s)
    case None => None
    case Some(alloys) =>
      match AlloyIndex(alloys, a)
      case None => None
      case Some(j) => Some(alloys[j].descriptions)
  }

  /** In a well-formed catalogue the nested lookup finds exactly the
      descriptions stored under the pair. */
  lemma DescriptionsIff(c: Catalog, s: string, a: string, ds: seq<string>)
    requires WellFormed(c)
    ensures Descriptions(c, s, a) == Some(ds) <==>
      exists i, j :: 0 <= i < |c| && 0 <= j < |c[i].alloys| && c[i].supplier == s
        && c[i].alloys[j].alloy == a && c[i].alloys[j].descriptions == ds
  {
    if exists i, j :: 0 <= i < |c| && 0 <= j < |c[i].alloys| && c[i].supplier == s
        && c[i].alloys[j].alloy == a && c[i].alloys[j].descriptions == ds {
      var i, j :| 0 <= i < |c| && 0 <= j < |c[i].alloys| && c[i].supplier == s
        && c[i].alloys[j].alloy == a && c[i].alloys[j].descriptions == ds;
      var i' := SupplierIndex(c, s).value;
      assert i' == i;
      var j' := AlloyIndex(c[i].alloys, a).value;
      assert j' == j;
    }
  }

  /** An alloy is listed for a supplier exactly when the pair has an entry. */
  lemma ListedIffKnown(c: Catalog, s: string, a: string)
    requires Alloys(c, s).Some?
    ensures a in AlloyNames(Alloys(c, s).value) <==> Descriptions(c, s, a).Some?
  {
    var names := AlloyNames(Alloys(c, s).value);
    if a in names {
      var k :| 0 <= k < |names| && names[k] == a;
      assert Alloys(c, s).value[k].alloy == a;
    }
  }

  /** `updateAlloyOptions`, identical in the module front end and the form
      module: the description select is always emptied and disabled; with no
      supplier the alloy select is disabled and empty; otherwise it is enabled
      and lists the supplier's alloys in catalogue order (none for an unknown
      supplier). Result: the alloy select, then the description select. */
  function UpdateAlloyOptions(c: Catalog, supplier: string): (r: (Select, Select))
    ensures r.1 == Select(SELECT_DESCRIPTION, [], true, "")
    ensures r.0.placeholder == SELECT_ALLOY && r.0.value == ""
    ensures r.0.disabled <==> supplier == ""
    ensures forall a :: a in r.0.options <==> supplier != "" && Descriptions(c, supplier, a).Some?
    ensures Alloys(c, supplier).Some? && supplier != "" ==> r.0.options == AlloyNames(Alloys(c, supplier).value)
  {
    var desc := Select(SELECT_DESCRIPTION, [], true, "");
    if supplier == "" then (Select(SELECT_ALLOY, [], true, ""), desc)
    else
      var alloys := Alloys(c, supplier);
      if alloys.None? then (Select(SELECT_ALLOY, [], false, ""), desc)
      else
        forall a ensures a in AlloyNames(alloys.value) <==> Descriptions(c, supplier, a).Some? {
          ListedIffKnown(c, supplier, a);
        }
        (Select(SELECT_ALLOY, AlloyNames(alloys.value), false, ""), desc)
  }

  /** `updateProductDescriptions` of the module front end: disabled and empty
      when the supplier or alloy is missing or the pair is unknown; otherwise
      enabled, listing the pair's descriptions, with the first one selected
      (a lone description is selected as it is added, several by selecting
      option 1). */
  function ModuleDescriptions(c: Catalog, supplier: string, alloy: string): (r: Select)
    ensures r.placeholder == SELECT_DESCRIPTION
    ensures r.disabled <==> supplier == "" || alloy == "" || Descriptions(c, supplier, alloy).None?
    ensures r.disabled ==> r.options == [] && r.value == ""
    ensures !r.disabled ==> r.options == Descriptions(c, supplier, alloy).value
    ensures r.value == (if r.options == [] then "" else r.options[0])
  {
    if supplier == "" || alloy == "" then Select(SELECT_DESCRIPTION, [], true, "")
    else
      match Descriptions(c, supplier, alloy)
      case None => Select(SELECT_DESCRIPTION, [], true, "")
      case Some(ds) =>
        if |ds| == 1 then Select(SELECT_DESCRIPTION, [ds[0]], false, ds[0])
        else Select(SELECT_DESCRIPTION, ds, false, if |ds| > 0 then ds[0] else "")
  }

  /** `updateProductDescriptions` of the form module: disabled exactly when
      the supplier or alloy is empty, but enabled (and empty) for an unknown
      pair; a lone description is selected, several leave the placeholder. */
  function FormDescriptions(c: Catalog, supplier: string, alloy: string): (r: Select)
    ensures r.placeholder == SELECT_DESCRIPTION
    ensures r.disabled <==> supplier == "" || alloy == ""
    ensures r.options == (if r.disabled then [] else Descriptions(c, supplier, alloy).GetOr([]))
    ensures r.value != "" <==> |r.options| == 1 && r.options[0] != ""
    ensures r.value != "" ==> r.value == r.options[0]
  {
    if supplier == "" || alloy == "" then Select(SELECT_DESCRIPTION, [], true, "")
    else
      match Descriptions(c, supplier, alloy)
      case None => Select(SELECT_DESCRIPTION, [], false, "")
      case Some(ds) => Select(SELECT_DESCRIPTION, ds, false, if |ds| == 1 then ds[0] else "")
  }

  /** `updateProductDescriptions` of the page with the creation history:
      every description of a known pair is listed and none selected; any
      other input disables the select. */
  function LegacyDescriptions(c: Catalog, supplier: string, alloy: string): (r: Select)
    ensures r.placeholder == SELECT_DESCRIPTION && r.value == ""
    ensures r.disabled <==> supplier == "" || alloy == "" || Descriptions(c, supplier, alloy).None?
    ensures r.options == (if r.disabled then [] else Descriptions(c, supplier, alloy).value)
  {
    if supplier != "" && alloy != "" && Descriptions(c, supplier, alloy).Some? then
      Select(SELECT_DESCRIPTION, Descriptions(c, supplier, alloy).value, false, "")
    else Select(SELECT_DESCRIPTION, [], true, "")
  }

  /** The three versions offer the same options whenever the pair is known,
      and differ only in which one they preselect; on an unknown pair only
      the form module leaves the select enabled. */
  lemma DescriptionVariantsAgree(c: Catalog, supplier: string, alloy: string)
    ensures ModuleDescriptions(c, supplier, alloy).options == LegacyDescriptions(c, supplier, alloy).options
    ensures FormDescriptions(c, supplier, alloy).options == LegacyDescriptions(c, supplier, alloy).options
    ensures ModuleDescriptions(c, supplier, alloy).disabled == LegacyDescriptions(c, supplier, alloy).disabled
    ensures FormDescriptions(c, supplier, alloy).disabled ==> LegacyDescriptions(c, supplier, alloy).disabled
  {
  }

  /** Following the cascade: every alloy the alloy select offers for a
      supplier enables the description select, which then offers that
      alloy's descriptions. (An alloy key "" would read as the placeholder.) */
  lemma CascadeOffersOnlyKnownPairs(c: Catalog, supplier: string, alloy: string)
    requires alloy != "" && alloy in UpdateAlloyOptions(c, supplier).0.options
    ensures !ModuleDescriptions(c, supplier, alloy).disabled
    ensures !LegacyDescriptions(c, supplier, alloy).disabled
    ensures ModuleDescriptions(c, supplier, alloy).options == Descriptions(c, supplier, alloy).value
  {
    var offered := UpdateAlloyOptions(c, supplier).0.options;
    assert alloy in offered;
  }

  /** `updateProductList(supplier, alloy, itemCount)` of the multi-item
      form: the placeholder followed by the pair's products in order, or the
      placeholder alone for an unknown pair (`productData[s]?.[a] || []`).
      The select is neither enabled nor disabled here. */
  function ProductList(c: Catalog, supplier: string, alloy: string, current: Select): (r: Select)
    ensures r.placeholder == SELECT_PRODUCT && r.value == "" && r.disabled == current.disabled
    ensures r.options == Descriptions(c, supplier, alloy).GetOr([])
    ensures r.options == [] <==> Descriptions(c, supplier, alloy).None? || Descriptions(c, supplier, alloy).value == []
  {
    Select(SELECT_PRODUCT, Descriptions(c, supplier, alloy).GetOr([]), current.disabled, "")
  }

  /** A key JavaScript treats as an array index: digits without a leading
      zero, spelling a number below 2^32 - 1. */
  predicate IndexKey(k: string) {
    |k| > 0 && Decimal.AllDigits(k) && (k[0] == '0' ==> |k| == 1)
    && Decimal.DigitsValue(k) < 0xFFFF_FFFF
  }

  /** The keys that are not array indices, in their order in `ks`. */
  function NamedKeys(ks: seq<string>): (r: seq<string>)
    ensures forall k :: k in r <==> k in ks && !IndexKey(k)
  {
    if ks == [] then []
    else if IndexKey(ks[0]) then NamedKeys(ks[1..])
    else [ks[0]] + NamedKeys(ks[1..])
  }

  /** `listed` is the order in which `Object.keys` (the ordinary
      [[OwnPropertyKeys]] of the ECMAScript language specification) lists
      the keys of an object created with its keys in the order `declared`:
      as many keys and the same ones (object keys are distinct, so this is a
      reordering), the array indices first and in ascending numeric order,
      then the other keys in creation order. */
  ghost predicate OwnKeyOrder(declared: seq<string>, listed: seq<string>) {
    |listed| == |declared|
    && (forall k :: k in listed <==> k in declared)
    && (forall i, j :: 0 <= i < j < |listed| && IndexKey(listed[j]) ==>
          IndexKey(listed[i]) && Decimal.DigitsValue(listed[i]) < Decimal.DigitsValue(listed[j]))
    && NamedKeys(listed) == NamedKeys(declared)
  }

  /** The catalogue of the form module, the same as the one of the page with
      the creation history: both suppliers carry the nine alloys of the 6xxx
      series, with one profile each. The alloy keys are array indices, so
      they are listed in ascending order, not in the order they are written;
      each keeps the profile written under it. */
  function FormsCatalog(): (c: Catalog)
    ensures WellFormed(c)
    ensures |c| == 2 && c[0].supplier == "CBA" && c[1].supplier == "ALCOA"
    ensures AlloyNames(c[0].alloys) == AlloyNames(c[1].alloys) == SERIES_6XXX
    ensures ListsSeries(c[0].alloys, CBA_PROFILES) && ListsSeries(c[1].alloys, ALCOA_PROFILES)
    ensures forall i, j :: 0 <= i < |c| && 0 <= j < |c[i].alloys| ==> |c[i].alloys[j].descriptions| == 1
  {
    var cba, alcoa := SeriesEntries(CBA_PROFILES), SeriesEntries(ALCOA_PROFILES);
    [SupplierEntry("CBA", cba), SupplierEntry("ALCOA", alcoa)]
  }

  /** One supplier's alloys list the nine alloys in `Object.keys` order,
      no two alike, each with the one profile written under that alloy in
      `profiles`. */
  predicate ListsSeries(alloys: seq<AlloyEntry>, profiles: seq<string>) {
    |profiles| == |SERIES_WRITTEN| && AlloyNames(alloys) == SERIES_6XXX && DistinctAlloys(alloys)
    && forall j :: 0 <= j < |alloys| ==>
      var w := WRITTEN_POSITION[j];
      w < |SERIES_WRITTEN| && SERIES_WRITTEN[w] == alloys[j].alloy && alloys[j].descriptions == [profiles[w]]
  }

  /** One supplier's entry, built from the profiles in written order. */
  function SeriesEntries(profiles: seq<string>): (r: seq<AlloyEntry>)
    requires |profiles| == |SERIES_WRITTEN|
    ensures ListsSeries(r, profiles)
    ensures AlloyNames(r) == SERIES_6XXX && DistinctAlloys(r)
    ensures forall j :: 0 <= j < |r| ==> |r[j].descriptions| == 1
  {
    SeriesDistinct();
    SeriesPositions();
    OneProfileEach(SERIES_6XXX, Reordered(profiles))
  }

  /** The alloy keys as the literal writes them. */
  const SERIES_WRITTEN: seq<string> := ["6060", "6063", "6460", "6005", "6463", "6082", "6061", "6351", "6101"]

  /** The alloy keys as `Object.keys` lists them. */
  const SERIES_6XXX: seq<string> := ["6005", "6060", "6061", "6063", "6082", "6101", "6351", "6460", "6463"]

  /** For each listed key, its position in the literal. */
  const WRITTEN_POSITION: seq<nat> := [3, 0, 6, 1, 5, 8, 7, 2, 4]

  /** The profiles, in the order the literal writes them. */
  const CBA_PROFILES: seq<string> := [
    "FT 6060 02 HO 177,8x6300 (02)", "FT 6063 02 HO 177,8x6300 (02)", "FT 6460B 02 HO 177,8x6300 (02)",
    "FT 6005A 02 HO 177,8x6300 (02)", "FT 6463 02 HO 177,8x6300 (02)", "FT 6082 04 HO 177,8x6300",
    "FT 6061 09 HO 177,8x6300", "FT 6351 02 HO 177,8x6300 (02)", "FT 6101 03 HO 177,8x6300 (02)"]

  const ALCOA_PROFILES: seq<string> := [
    "FT 6060 HO 177,8x5900", "FT 6063 HO 177,8x5900", "FT 6460B HO 177,8x5900",
    "FT 6005A HO 177,8x5900", "FT 6463 HO 177,8x5900", "FT 6082 HO 177,8x5900",
    "FT 6061 09 HO 177,8x5900", "FT 6351 HO 177,8x5900", "FT 6101 HO 177,8x5900"]

  /** Nine profiles written in literal order, taken in listed order. */
  function Reordered(profiles: seq<string>): (r: seq<string>)
    requires |profiles| == |SERIES_WRITTEN|
    ensures |r| == |SERIES_6XXX|
    ensures forall j :: 0 <= j < |r| ==> r[j] == profiles[WRITTEN_POSITION[j]]
  {
    seq(|WRITTEN_POSITION|, j requires 0 <= j < |WRITTEN_POSITION| => profiles[WRITTEN_POSITION[j]])
  }

  /** One entry per alloy name, each with its one profile. */
  function OneProfileEach(names: seq<string>, profiles: seq<string>): (r: seq<AlloyEntry>)
    requires |names| == |profiles|
    ensures AlloyNames(r) == names
    ensures forall j :: 0 <= j < |r| ==> r[j].descriptions == [profiles[j]]
  {
    seq(|names|, j requires 0 <= j < |names| => AlloyEntry(names[j], [profiles[j]]))
  }

  /** The nine alloy names are nine different keys. */
  lemma SeriesDistinct()
    ensures forall j, k :: 0 <= j < k < |SERIES_6XXX| ==> SERIES_6XXX[j] != SERIES_6XXX[k]
  {
    var s := SERIES_6XXX;
    SeriesValues();
    assert forall j :: 0 <= j < |s| ==> IndexKey(s[j]);
  }

  /** Four digits spell the number they read as. */
  lemma FourDigits(k: string)
    requires |k| == 4 && Decimal.AllDigits(k)
    ensures Decimal.DigitsValue(k) == 1000 * Decimal.DigitValue(k[0]) + 100 * Decimal.DigitValue(k[1])
      + 10 * Decimal.DigitValue(k[2]) + Decimal.DigitValue(k[3])
  {
    var a, b, c := k[..1], k[..2], k[..3];
    assert a[..0] == [] && b[..1] == a && c[..2] == b && k[..3] == c;
    assert Decimal.DigitsValue(a) == Decimal.DigitValue(k[0]);
    assert Decimal.DigitsValue(b) == Decimal.DigitsValue(a) * 10 + Decimal.DigitValue(k[1]);
    assert Decimal.DigitsValue(c) == Decimal.DigitsValue(b) * 10 + Decimal.DigitValue(k[2]);
  }

  /** The value of each listed key; they ascend. */
  lemma SeriesValues()
    ensures forall j :: 0 <= j < |SERIES_6XXX| ==> IndexKey(SERIES_6XXX[j])
    ensures forall j :: 0 <= j < |SERIES_6XXX| ==> Decimal.DigitsValue(SERIES_6XXX[j]) == SERIES_VALUES[j]
  {
    var s := SERIES_6XXX;
    forall j | 0 <= j < |s| ensures Decimal.AllDigits(s[j]) && Decimal.DigitsValue(s[j]) == SERIES_VALUES[j] {
      assert |s[j]| == 4 && Decimal.AllDigits(s[j]);
      FourDigits(s[j]);
    }
  }

  const SERIES_VALUES: seq<nat> := [6005, 6060, 6061, 6063, 6082, 6101, 6351, 6460, 6463]

  /** Every key with index-key form has no named key to keep in order. */
  lemma {:induction false} NoNamedKeys(ks: seq<string>)
    requires forall j :: 0 <= j < |ks| ==> IndexKey(ks[j])
    ensures NamedKeys(ks) == []
  {
    if ks != [] {
      NoNamedKeys(ks[1..]);
    }
  }

  /** The listed order is the `Object.keys` order of the written one, and
      the positions pair each listed key with the same key as written. */
  lemma SeriesListedInKeyOrder()
    ensures |WRITTEN_POSITION| == |SERIES_6XXX|
    ensures forall j :: 0 <= j < |SERIES_6XXX| ==>
      WRITTEN_POSITION[j] < |SERIES_WRITTEN| && SERIES_WRITTEN[WRITTEN_POSITION[j]] == SERIES_6XXX[j]
    ensures OwnKeyOrder(SERIES_WRITTEN, SERIES_6XXX)
  {
    var l, w := SERIES_6XXX, SERIES_WRITTEN;
    SeriesPositions();
    SeriesSameKeys();
    SeriesAscending();
    assert NamedKeys(l) == NamedKeys(w) by {
      assert forall j :: 0 <= j < |w| ==> IndexKey(w[j]) by {
        SeriesValues();
        assert forall j :: 0 <= j < |w| ==> w[j] in l;
      }
      NoNamedKeys(l);
      NoNamedKeys(w);
    }
  }

  lemma SeriesPositions()
    ensures |WRITTEN_POSITION| == |SERIES_6XXX|
    ensures forall j :: 0 <= j < |SERIES_6XXX| ==>
      WRITTEN_POSITION[j] < |SERIES_WRITTEN| && SERIES_WRITTEN[WRITTEN_POSITION[j]] == SERIES_6XXX[j]
  {
    var l, w := SERIES_6XXX, SERIES_WRITTEN;
    assert l == [w[3], w[0], w[6], w[1], w[5], w[8], w[7], w[2], w[4]];
  }

  lemma SeriesSameKeys()
    ensures forall k :: k in SERIES_6XXX <==> k in SERIES_WRITTEN
  {
    var l, w := SERIES_6XXX, SERIES_WRITTEN;
    assert l == [w[3], w[0], w[6], w[1], w[5], w[8], w[7], w[2], w[4]];
    assert w == [l[1], l[3], l[7], l[0], l[8], l[4], l[2], l[6], l[5]];
  }

  lemma SeriesAscending()
    ensures forall i, j :: 0 <= i < j < |SERIES_6XXX| && IndexKey(SERIES_6XXX[j]) ==>
      IndexKey(SERIES_6XXX[i]) && Decimal.DigitsValue(SERIES_6XXX[i]) < Decimal.DigitsValue(SERIES_6XXX[j])
  {
    SeriesValues();
    ValuesAscend();
  }

  /** The values of the listed keys ascend. */
  lemma ValuesAscend()
    ensures forall i, j :: 0 <= i < j < |SERIES_VALUES| ==> SERIES_VALUES[i] < SERIES_VALUES[j]
  {
  }

  /** Both suppliers of the forms catalogue offer the nine alloys in the
      order `Object.keys` lists them. */
  lemma FormsAlloyOptions(supplier: string)
    requires supplier == "CBA" || supplier == "ALCOA"
    ensures UpdateAlloyOptions(FormsCatalog(), supplier).0.options == SERIES_6XXX
    ensures OwnKeyOrder(SERIES_WRITTEN, UpdateAlloyOptions(FormsCatalog(), supplier).0.options)
  {
    var c := FormsCatalog();
    var i := if supplier == "CBA" then 0 else 1;
    assert SupplierIndex(c, supplier) == Some(i);
    assert UpdateAlloyOptions(c, supplier).0.options == AlloyNames(c[i].alloys) == SERIES_6XXX;
    SeriesListedInKeyOrder();
  }

  /** The catalogue of the module front end: three suppliers, one
      description per alloy. */
  function ModuleCatalog(): (c: Catalog)
    ensures WellFormed(c)
    ensures |c| == 3
    ensures forall i, j :: 0 <= i < |c| && 0 <= j < |c[i].alloys| ==> |c[i].alloys[j].descriptions| == 1
  {
    [ SupplierEntry("Fornecedor A", [
        AlloyEntry("Liga 1", ["Descrição Liga 1"]),
        AlloyEntry("Liga 2", ["Descrição Liga 2"]),
        AlloyEntry("Liga 3", ["Descrição Liga 3"])]),
      SupplierEntry("Fornecedor B", [
        AlloyEntry("Liga X", ["Descrição Liga X"]),
        AlloyEntry("Liga Y", ["Descrição Liga Y"])]),
      SupplierEntry("Fornecedor C", [
        AlloyEntry("Liga Alpha", ["Descrição Alpha"]),
        AlloyEntry("Liga Beta", ["Descrição Beta"])]) ]
  }

  /** The catalogue of the multi-item form: CBA has three profiles per
      alloy, ALCOA one. */
  function ItemCatalog(): (c: Catalog)
    ensures WellFormed(c)
    ensures |c| == 2 && AlloyNames(c[0].alloys) == AlloyNames(c[1].alloys) == ["6060", "6063"]
    ensures forall j :: 0 <= j < 2 ==> |c[0].alloys[j].descriptions| == 3 && |c[1].alloys[j].descriptions| == 1
  {
    [ SupplierEntry("CBA", [
        AlloyEntry("6060", ["FT 6060 HO 152,4x5900", "FT 6060 HO 177,8x5900", "FT 6060 HO 203,2x5900"]),
        AlloyEntry("6063", ["FT 6063 HO 152,4x5900", "FT 6063 HO 177,8x5900", "FT 6063 HO 203,2x5900"])]),
      SupplierEntry("ALCOA", [
        AlloyEntry("6060", ["FT 6060 HO 177,8x5900"]),
        AlloyEntry("6063", ["FT 6063 HO 177,8x5900"])]) ]
  }
}
