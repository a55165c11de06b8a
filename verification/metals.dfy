/** The table of quoted metals (and the PTAX dollar) of the price pages:
    seven entries in declaration order, each with a lookup key, a label, a
    unit and the number of decimal places it is shown with. `Object.values`
    lists the entries in declaration order, so the table is a sequence. */
module Metals {
  import opened Wrappers

  datatype Metal = Metal(key: string, displayName: string, unit: string, precision: nat)

  const USD_PER_TON := "USD/ton"
  const BRL_PER_USD := "BRL/USD"
  const PTAX_KEY := "dolar_ptax"

  const METALS: seq<Metal> := [
    Metal("aluminio", "Alumínio", USD_PER_TON, 2),
    Metal("cobre", "Cobre", USD_PER_TON, 2),
    Metal("zinco", "Zinco", USD_PER_TON, 2),
    Metal("chumbo", "Chumbo", USD_PER_TON, 2),
    Metal("niquel", "Níquel", USD_PER_TON, 2),
    Metal("estanho", "Estanho", USD_PER_TON, 2),
    Metal(PTAX_KEY, "Dólar PTAX", BRL_PER_USD, 4)]

  predicate KeysDistinct(ms: seq<Metal>) {
    forall i, j :: 0 <= i < j < |ms| ==> ms[i].key != ms[j].key
  }

  /** `getAllMetals`: the seven entries in declaration order; only the PTAX
      dollar is quoted in reais per dollar, with four places, and every
      metal in dollars per ton, with two. */
  function GetAllMetals(): (r: seq<Metal>)
    ensures |r| == 7 && KeysDistinct(r)
    ensures forall i :: 0 <= i < |r| ==>
      (r[i].unit == BRL_PER_USD <==> r[i].key == PTAX_KEY)
      && (r[i].unit == USD_PER_TON <==> r[i].key != PTAX_KEY)
      && r[i].precision == (if r[i].key == PTAX_KEY then 4 else 2)
  {
    KeysOfTable();
    METALS
  }

  lemma KeysOfTable()
    ensures KeysDistinct(METALS)
    ensures forall i :: 0 <= i < 6 ==> METALS[i].key != PTAX_KEY && |METALS[i].key| != |PTAX_KEY|
  {
    var m := METALS;
    assert |m[0].key| == 8 && |m[1].key| == 5 && |m[2].key| == 5 && |m[3].key| == 6;
    assert |m[4].key| == 6 && |m[5].key| == 7 && |m[6].key| == 10;
    assert m[1].key[0] == 'c' && m[2].key[0] == 'z';
    assert m[3].key[0] == 'c' && m[4].key[0] == 'n';
  }

  /** `find(metal => metal.key === key)`: the first entry with the key. */
  function Find(ms: seq<Metal>, key: string): (r: Option<Metal>)
    ensures r.None? <==> forall i :: 0 <= i < |ms| ==> ms[i].key != key
    ensures r.Some? ==> exists i :: (0 <= i < |ms| && ms[i] == r.value && r.value.key == key
      && forall j :: 0 <= j < i ==> ms[j].key != key)
  {
    if ms == [] then None
    else if ms[0].key == key then Some(ms[0])
    else
      var rest := Find(ms[1..], key);
      FindShifts(ms, key, rest);
      rest
  }

  lemma FindShifts(ms: seq<Metal>, key: string, rest: Option<Metal>)
    requires |ms| > 0 && ms[0].key != key
    requires rest.Some? ==> exists i :: (0 <= i < |ms[1..]| && ms[1..][i] == rest.value && rest.value.key == key
      && forall j :: 0 <= j < i ==> ms[1..][j].key != key)
    ensures rest.Some? ==> exists i :: (0 <= i < |ms| && ms[i] == rest.value && rest.value.key == key
      && forall j :: 0 <= j < i ==> ms[j].key != key)
  {
    if rest.Some? {
      var t := ms[1..];
      var i :| 0 <= i < |t| && t[i] == rest.value && rest.value.key == key
        && forall j :: 0 <= j < i ==> t[j].key != key;
      assert ms[i + 1] == t[i];
      forall j | 0 <= j < i + 1
        ensures ms[j].key != key
      {
        if j > 0 { assert ms[j] == t[j - 1]; }
      }
    }
  }

  /** `getMetalByKey`: the entry with the key, or `null`. */
  function GetMetalByKey(key: string): (r: Option<Metal>)
    ensures r.Some? ==> r.value in GetAllMetals() && r.value.key == key
    ensures r.None? <==> forall m :: m in GetAllMetals() ==> m.key != key
  {
    Find(METALS, key)
  }

  /** With distinct keys, looking a listed entry up by its own key finds
      that entry. */
  lemma FindOwnKey(ms: seq<Metal>, i: nat)
    requires KeysDistinct(ms) && i < |ms|
    ensures Find(ms, ms[i].key) == Some(ms[i])
  {
    var r := Find(ms, ms[i].key);
    var k :| 0 <= k < |ms| && ms[k] == r.value && r.value.key == ms[i].key
      && forall j :: 0 <= j < k ==> ms[j].key != ms[i].key;
    if k != i {
      assert false;
    }
  }

  /** Every listed metal is what `getMetalByKey` gives for its key. */
  lemma GetMetalByOwnKey(m: Metal)
    requires m in GetAllMetals()
    ensures GetMetalByKey(m.key) == Some(m)
  {
    KeysOfTable();
    var i :| 0 <= i < |METALS| && METALS[i] == m;
    FindOwnKey(METALS, i);
  }
}
