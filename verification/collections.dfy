/** PHP arrays keyed by a string, used as ordered sets: `$a[$k] = $v`
    keeps the position of the first insertion of `k`, so the keys of such an
    array are a duplicate-free sequence in first-insertion order. */
module Collections {

  /** No element occurs twice. */
  predicate NoDup<T(==)>(xs: seq<T>) {
    forall i, j :: 0 <= i < j < |xs| ==> xs[i] != xs[j]
  }

  /** `$a[$k] = ...`: a new key goes to the end, a known key stays where it
      is. */
  function AddKey<T(==,!new)>(xs: seq<T>, x: T): (r: seq<T>)
    ensures x in r
    ensures forall y :: y in r <==> y in xs || y == x
    ensures NoDup(xs) ==> NoDup(r)
    ensures |xs| <= |r| && r[..|xs|] == xs
  {
    if x in xs then xs else xs + [x]
  }

  /** `$a[$k] = ...` for each element in turn. */
  function AddAll<T(==,!new)>(xs: seq<T>, ys: seq<T>): (r: seq<T>)
    ensures forall y :: y in r <==> y in xs || y in ys
    ensures NoDup(xs) ==> NoDup(r)
    ensures |xs| <= |r| && r[..|xs|] == xs
    decreases |ys|
  {
    if ys == [] then xs else AddAll(AddKey(xs, ys[0]), ys[1..])
  }

  /** The elements satisfying `f`, in order (`array_filter` over a list). */
  function Filter<T(==,!new)>(f: T -> bool, xs: seq<T>): (r: seq<T>)
    ensures |r| <= |xs|
    ensures forall y :: y in r <==> y in xs && f(y)
    decreases |xs|
  {
    if xs == [] then []
    else (if f(xs[0]) then [xs[0]] else []) + Filter(f, xs[1..])
  }

  /** Filtering a concatenation filters each part. */
  lemma {:induction false} FilterAppend<T(!new)>(f: T -> bool, xs: seq<T>, ys: seq<T>)
    ensures Filter(f, xs + ys) == Filter(f, xs) + Filter(f, ys)
    decreases |xs|
  {
    if xs == [] {
      assert xs + ys == ys;
    } else {
      assert (xs + ys)[1..] == xs[1..] + ys;
      FilterAppend(f, xs[1..], ys);
    }
  }

  /** What `f` keeps and what it drops make up the whole list. */
  lemma {:induction false} FilterSplits<T(!new)>(f: T -> bool, g: T -> bool, xs: seq<T>)
    requires forall x :: g(x) == !f(x)
    ensures multiset(Filter(f, xs)) + multiset(Filter(g, xs)) == multiset(xs)
    decreases |xs|
  {
    if xs != [] {
      var x, t := xs[0], xs[1..];
      FilterSplits(f, g, t);
      assert xs == [x] + t;
      var kept, dropped := if f(x) then [x] else [], if g(x) then [x] else [];
      assert Filter(f, xs) == kept + Filter(f, t);
      assert Filter(g, xs) == dropped + Filter(g, t);
      assert multiset(kept) + multiset(dropped) == multiset([x]);
      assert multiset(xs) == multiset([x]) + multiset(t);
      assert multiset(Filter(f, xs)) == multiset(kept) + multiset(Filter(f, t));
      assert multiset(Filter(g, xs)) == multiset(dropped) + multiset(Filter(g, t));
      assert multiset(Filter(f, xs)) + multiset(Filter(g, xs))
        == (multiset(kept) + multiset(dropped)) + (multiset(Filter(f, t)) + multiset(Filter(g, t)));
    }
  }
}
