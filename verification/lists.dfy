/** Array idioms of the browser code: `indexOf` followed by `splice(i, 1)`,
    which removes the first occurrence of a value and nothing else. */
module Lists {
  import opened Wrappers

  /** `xs.indexOf(x)`, with -1 as `None`. */
  function IndexOf<T(==)>(xs: seq<T>, x: T): (r: Option<nat>)
    ensures r.None? <==> x !in xs
    ensures r.Some? ==> r.value < |xs| && xs[r.value] == x && x !in xs[..r.value]
  {
    if xs == [] then None
    else if xs[0] == x then Some(0)
    else
      var rest := IndexOf(xs[1..], x);
      if rest.Some? then
        assert xs[..rest.value + 1] == [xs[0]] + xs[1..][..rest.value];
        Some(rest.value + 1)
      else None
  }

  /** `if ((i = xs.indexOf(x)) !== -1) xs.splice(i, 1)`. */
  function RemoveFirst<T(==)>(xs: seq<T>, x: T): (r: seq<T>)
    ensures x !in xs ==> r == xs
    ensures x in xs ==>
      var k := IndexOf(xs, x).value;
      r == xs[..k] + xs[k + 1..]
  {
    match IndexOf(xs, x)
    case None => xs
    case Some(k) => xs[..k] + xs[k + 1..]
  }

  /** Removing takes away exactly one occurrence, so a value registered
      twice stays registered once. */
  lemma RemoveFirstCount<T>(xs: seq<T>, x: T)
    ensures x in xs ==> multiset(RemoveFirst(xs, x)) == multiset(xs) - multiset{x}
    ensures x in xs ==> multiset(RemoveFirst(xs, x))[x] == multiset(xs)[x] - 1
  {
    if x in xs {
      var k := IndexOf(xs, x).value;
      assert xs == xs[..k] + [x] + xs[k + 1..];
      calc {
        multiset(xs);
        multiset(xs[..k]) + multiset{x} + multiset(xs[k + 1..]);
      }
    }
  }

  /** Appending a value and removing it again restores the list when the
      value was not there before. */
  lemma RemoveAppended<T>(xs: seq<T>, x: T)
    requires x !in xs
    ensures RemoveFirst(xs + [x], x) == xs
  {
    var k := IndexOf(xs + [x], x).value;
    assert (xs + [x])[|xs|] == x;
    assert k == |xs|;
    assert (xs + [x])[..k] == xs;
  }
}
