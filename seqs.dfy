/** Generic sequence operations: the `map`, `filter` and counting the source does with arrays. */
module Seqs {

  /** `xs.filter(keep)`. */
  function Filter<T>(xs: seq<T>, keep: T -> bool): (r: seq<T>)
    ensures |r| <= |xs|
  {
    if xs == [] then []
    else Filter(xs[..|xs| - 1], keep) + (if keep(xs[|xs| - 1]) then [xs[|xs| - 1]] else [])
  }

  lemma FilterStep<T>(xs: seq<T>, i: nat, keep: T -> bool)
    requires i < |xs|
    ensures Filter(xs[..i + 1], keep) == Filter(xs[..i], keep) + (if keep(xs[i]) then [xs[i]] else [])
  {
    assert xs[..i + 1][..i] == xs[..i];
  }

  /** `xs.map(f)`. */
  function Map<T, U>(xs: seq<T>, f: T -> U): (r: seq<U>)
    ensures |r| == |xs|
  {
    if xs == [] then [] else Map(xs[..|xs| - 1], f) + [f(xs[|xs| - 1])]
  }

  lemma MapStep<T, U>(xs: seq<T>, i: nat, f: T -> U)
    requires i < |xs|
    ensures Map(xs[..i + 1], f) == Map(xs[..i], f) + [f(xs[i])]
  {
    assert xs[..i + 1][..i] == xs[..i];
  }

  lemma {:induction false} MapIndex<T, U>(xs: seq<T>, f: T -> U, k: nat)
    requires k < |xs|
    ensures Map(xs, f)[k] == f(xs[k])
    decreases |xs|
  {
    if k < |xs| - 1 {
      MapIndex(xs[..|xs| - 1], f, k);
    }
  }

  /** Moving one position of the boundary between a processed prefix and the rest. */
  lemma ShiftUpdated<T>(done: seq<T>, rest: seq<T>, x: T)
    requires rest != []
    ensures (done + rest)[|done| := x] == (done + [x]) + rest[1..]
  {
  }

  lemma ShiftUnchanged<T>(done: seq<T>, rest: seq<T>)
    requires rest != []
    ensures done + rest == (done + [rest[0]]) + rest[1..]
  {
    assert rest == [rest[0]] + rest[1..];
  }

  /** `filter` keeps exactly the elements that pass the test. */
  lemma {:induction false} FilterMembers<T>(xs: seq<T>, keep: T -> bool, x: T)
    ensures x in Filter(xs, keep) <==> x in xs && keep(x)
    decreases |xs|
  {
    if xs != [] {
      var n := |xs| - 1;
      FilterMembers(xs[..n], keep, x);
      assert xs == xs[..n] + [xs[n]];
    }
  }

  lemma {:induction false} FilterAllKept<T>(xs: seq<T>, keep: T -> bool)
    requires forall j :: 0 <= j < |xs| ==> keep(xs[j])
    ensures Filter(xs, keep) == xs
    decreases |xs|
  {
    if xs != [] {
      var n := |xs| - 1;
      FilterAllKept(xs[..n], keep);
      assert xs == xs[..n] + [xs[n]];
    }
  }

  /** How many elements from index `k` on pass the test. */
  function CountFrom<T>(xs: seq<T>, test: T -> bool, k: nat): nat
    decreases |xs| - k
  {
    if k >= |xs| then 0 else (if test(xs[k]) then 1 else 0) + CountFrom(xs, test, k + 1)
  }

  /** Replacing one element changes the count by what the old and the new element contribute. */
  lemma {:induction false} CountUpdate<T>(xs: seq<T>, i: nat, x: T, test: T -> bool, k: nat)
    requires k <= i < |xs|
    ensures CountFrom(xs[i := x], test, k) + (if test(xs[i]) then 1 else 0) ==
      CountFrom(xs, test, k) + (if test(x) then 1 else 0)
    decreases i - k
  {
    if k < i {
      CountUpdate(xs, i, x, test, k + 1);
    } else {
      CountSame(xs, xs[i := x], test, k + 1);
    }
  }

  lemma {:induction false} CountSame<T>(xs: seq<T>, ys: seq<T>, test: T -> bool, k: nat)
    requires |xs| == |ys| && forall m :: k <= m < |xs| ==> xs[m] == ys[m]
    ensures CountFrom(xs, test, k) == CountFrom(ys, test, k)
    decreases |xs| - k
  {
    if k < |xs| {
      CountSame(xs, ys, test, k + 1);
    }
  }
}
