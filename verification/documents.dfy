/** What the printed and e-mailed request documents share: a document is
    built by appending pieces of text one after the other (the source's
    `+=`), item quantities are shown as numbers or as the text the user
    typed, and the request's total weight is read from both. */
module Documents {
  import opened Wrappers
  import Text
  import Decimal
  import Records
  import Validation

  // ---------------------------------------------------------------------
  // Documents as appended pieces
  // ---------------------------------------------------------------------

  /** The text a sequence of `+=` steps leaves behind. */
  function Concat(pieces: seq<string>): string {
    if |pieces| == 0 then "" else Concat(pieces[..|pieces| - 1]) + pieces[|pieces| - 1]
  }

  /** Appending two runs of pieces appends their texts. */
  lemma {:induction false} ConcatAppend(a: seq<string>, b: seq<string>)
    ensures Concat(a + b) == Concat(a) + Concat(b)
  {
    if b != [] {
      var c := a + b;
      var init := b[..|b| - 1];
      var last := b[|b| - 1];
      assert c[..|c| - 1] == a + init;
      assert c[|c| - 1] == last;
      assert Concat(c) == Concat(a + init) + last;
      ConcatAppend(a, init);
      assert Concat(b) == Concat(init) + last;
    } else {
      assert a + b == a;
    }
  }

  /** Where piece `i` starts in the finished text. */
  function Offset(pieces: seq<string>, i: nat): nat
    requires i <= |pieces|
  {
    |Concat(pieces[..i])|
  }

  /** Every piece appears in the finished text, at its offset. */
  lemma {:induction false} PieceOccurs(pieces: seq<string>, i: nat)
    requires i < |pieces|
    ensures Text.OccursAt(Concat(pieces), pieces[i], Offset(pieces, i))
  {
    var before, after := pieces[..i], pieces[i + 1..];
    assert Concat(pieces) == Concat(before) + pieces[i] + Concat(after) by {
      assert pieces == before + [pieces[i]] + after;
      ConcatAround(before, pieces[i], after);
    }
    Text.OccursInMiddle(Concat(before), pieces[i], Concat(after));
  }

  /** The text of a run with `x` in the middle is the text before it, `x`,
      and the text after it. */
  lemma {:induction false} ConcatAround(before: seq<string>, x: string, after: seq<string>)
    ensures Concat(before + [x] + after) == Concat(before) + x + Concat(after)
  {
    ConcatAppend(before + [x], after);
    ConcatLast(before + [x], before, x);
  }

  /** The text of a run ending in `last` is that of the rest, then `last`. */
  lemma {:induction false} ConcatLast(s: seq<string>, init: seq<string>, last: string)
    requires s == init + [last]
    ensures Concat(s) == Concat(init) + last
  {
    assert s[..|s| - 1] == init;
  }

  /** A later piece starts after an earlier one ends: the text keeps the
      pieces in the order they were appended. */
  lemma {:induction false} PiecesInOrder(pieces: seq<string>, i: nat, j: nat)
    requires i < j <= |pieces|
    ensures Offset(pieces, i) + |pieces[i]| <= Offset(pieces, j)
  {
    assert pieces[..j] == pieces[..i + 1] + pieces[i + 1..j];
    ConcatAppend(pieces[..i + 1], pieces[i + 1..j]);
    assert pieces[..i + 1][..i] == pieces[..i];
  }

  /** Two pieces known by content appear in the text in the order they
      were appended. */
  lemma PiecesAppearInOrder(pieces: seq<string>, i: nat, j: nat, a: string, b: string)
    requires i < j < |pieces| && pieces[i] == a && pieces[j] == b && a != []
    ensures Text.OccursAt(Concat(pieces), a, Offset(pieces, i))
    ensures Text.OccursAt(Concat(pieces), b, Offset(pieces, j))
    ensures Offset(pieces, i) < Offset(pieces, j)
  {
    PieceOccurs(pieces, i);
    PieceOccurs(pieces, j);
    PiecesInOrder(pieces, i, j);
  }

  // ---------------------------------------------------------------------
  // The request fields both services read
  // ---------------------------------------------------------------------

  /** `const { id, date, status, items } = requestDetails`. */
  datatype Details = Details(id: int, date: string, status: string, items: Option<seq<Records.Product>>)

  /** The guard of both services: every field truthy. An id of 0 and an
      empty date or status are falsy; an empty item list is not. */
  predicate HasDetails(d: Details) {
    d.id != 0 && d.date != "" && d.status != "" && d.items.Some?
  }

  // ---------------------------------------------------------------------
  // Quantities and the total weight
  // ---------------------------------------------------------------------

  /** `Intl.NumberFormat` as the source uses it; `None` is NaN. */
  type NumberFormat = Option<real> -> string

  /** `parseFloat`; `None` is NaN. */
  type FloatReader = string -> Option<real>

  /** How an item's quantity is shown: a number is formatted and followed
      by `unit`, a text is shown as typed. NaN is a number to `typeof`. */
  function QuantityText(q: Records.Quantity, fmt: NumberFormat, unit: string): (r: string)
    ensures q.Text? ==> r == q.text
    ensures q.Num? ==> r == fmt(Some(q.value as real)) + unit
  {
    match q
    case Num(v) => fmt(Some(v as real)) + unit
    case NaN => fmt(None) + unit
    case Text(t) => t
  }

  /** A character of `/[0-9.,]/`. */
  predicate RunChar(c: char) {
    Decimal.IsDigit(c) || c == '.' || c == ','
  }

  /** How many characters of `[0-9.,]` start `t`. */
  function RunLength(t: string): (n: nat)
    ensures n <= |t|
    ensures forall i :: 0 <= i < n ==> RunChar(t[i])
    ensures n < |t| ==> !RunChar(t[n])
  {
    if |t| > 0 && RunChar(t[0]) then 1 + RunLength(t[1..]) else 0
  }

  /** `t.match(/([0-9.,]+)/)[1]`: the leftmost run of digits, dots and
      commas, as long as it goes. */
  function FirstRun(t: string): (r: Option<string>)
    ensures r.None? <==> forall i :: 0 <= i < |t| ==> !RunChar(t[i])
    ensures r.Some? ==> r.value != [] && forall i :: 0 <= i < |r.value| ==> RunChar(r.value[i])
  {
    if |t| == 0 then None
    else if RunChar(t[0]) then Some(t[..RunLength(t)])
    else FirstRun(t[1..])
  }

  /** The run found is the one after the leading text without any digit,
      dot or comma, up to the first character that is none of them. */
  lemma {:induction false} FirstRunOf(p: string, run: string, s: string)
    requires forall i :: 0 <= i < |p| ==> !RunChar(p[i])
    requires run != [] && forall i :: 0 <= i < |run| ==> RunChar(run[i])
    requires s == [] || !RunChar(s[0])
    ensures FirstRun(p + run + s) == Some(run)
  {
    var t := p + run + s;
    if p == [] {
      assert t == run + s;
      RunLengthOf(run, s);
    } else {
      assert t[1..] == p[1..] + run + s;
      FirstRunOf(p[1..], run, s);
    }
  }

  lemma {:induction false} RunLengthOf(run: string, s: string)
    requires forall i :: 0 <= i < |run| ==> RunChar(run[i])
    requires s == [] || !RunChar(s[0])
    ensures RunLength(run + s) == |run|
  {
    if run != [] {
      assert (run + s)[1..] == run[1..] + s;
      RunLengthOf(run[1..], s);
    }
  }

  /** What a quantity adds to the total: a number itself, a text the number
      its first run reads as once thousands dots are dropped and the comma
      made a point, and nothing for a text without digits. `None` is NaN. */
  function QuantityWeight(q: Records.Quantity, pf: FloatReader): (r: Option<real>)
    ensures q.Num? ==> r == Some(q.value as real)
    ensures q.NaN? ==> r.None?
  {
    match q
    case Num(v) => Some(v as real)
    case NaN => None
    case Text(t) =>
      match FirstRun(t)
      case None => Some(0.0)
      case Some(run) => pf(Validation.Normalize(run))
  }

  /** The quantity turns the whole sum into NaN. */
  predicate Poisons(q: Records.Quantity, pf: FloatReader) {
    QuantityWeight(q, pf).None?
  }

  /** The `totalWeight` loop of the print and e-mail services. */
  function TotalWeight(items: seq<Records.Product>, pf: FloatReader): (r: Option<real>)
    ensures r.None? <==> exists i :: 0 <= i < |items| && Poisons(items[i].quantity, pf)
  {
    if items == [] then Some(0.0)
    else
      var prefix := TotalWeight(items[..|items| - 1], pf);
      var last := QuantityWeight(items[|items| - 1].quantity, pf);
      assert forall i :: 0 <= i < |items| - 1 ==> items[..|items| - 1][i] == items[i];
      if prefix.None? || last.None? then None else Some(prefix.value + last.value)
  }

  /** When every quantity is a number, the total is the plain sum the
      request store keeps. */
  lemma {:induction false} TotalOfNumbers(items: seq<Records.Product>, pf: FloatReader)
    requires forall i :: 0 <= i < |items| ==> items[i].quantity.Num?
    ensures Records.NumericWeight(items).Some?
    ensures TotalWeight(items, pf) == Some(Records.NumericWeight(items).value as real)
  {
    if items != [] {
      TotalOfNumbers(items[..|items| - 1], pf);
    }
  }

  /** A typed quantity such as "1.250,5 kg" adds what `parseFloat` reads
      from "1250.5". */
  lemma TypedQuantityWeight(thousands: string, units: string, cents: string, pf: FloatReader)
    requires thousands != [] && Decimal.AllDigits(thousands)
    requires Decimal.AllDigits(units) && Decimal.AllDigits(cents)
    ensures QuantityWeight(Records.Text(thousands + "." + units + "," + cents + " kg"), pf)
      == pf(thousands + units + "." + cents)
  {
    var run := thousands + "." + units + "," + cents;
    assert forall i :: 0 <= i < |run| ==> RunChar(run[i]);
    assert thousands + "." + units + "," + cents + " kg" == [] + run + " kg";
    FirstRunOf([], run, " kg");
    Validation.NormalizeBrazilian(thousands, units, cents);
  }
}
