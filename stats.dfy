/** Folds over lists of temperatures, shared by the weekly handlers and the
    display component. Every fold consumes the list from the front, as
    `Array.prototype.reduce`, `Math.min(...xs)` and a `forEach` do; the
    definitions recurse on the last element so that a loop that has handled a
    prefix `xs[..i]` can be described by the same function. */
module Stats {

  /** `xs.reduce((a, b) => a + b, 0)`. */
  function Sum(xs: seq<real>): real
  {
    if xs == [] then 0.0 else Sum(xs[..|xs| - 1]) + xs[|xs| - 1]
  }

  /** `Math.min(...xs)` on a non-empty list: an element of the list that no
      other element is below. */
  function Min(xs: seq<real>): (m: real)
    requires xs != []
    ensures m in xs
    ensures forall x :: x in xs ==> m <= x
  {
    if |xs| == 1 then xs[0]
    else
      var init := xs[..|xs| - 1];
      assert xs == init + [xs[|xs| - 1]];
      var m' := Min(init);
      if xs[|xs| - 1] < m' then xs[|xs| - 1] else m'
  }

  /** `Math.max(...xs)` on a non-empty list: an element of the list that no
      other element is above. */
  function Max(xs: seq<real>): (m: real)
    requires xs != []
    ensures m in xs
    ensures forall x :: x in xs ==> x <= m
  {
    if |xs| == 1 then xs[0]
    else
      var init := xs[..|xs| - 1];
      assert xs == init + [xs[|xs| - 1]];
      var m' := Max(init);
      if xs[|xs| - 1] > m' then xs[|xs| - 1] else m'
  }

  /** The arithmetic mean, `sum / length`, of a non-empty list. */
  function Mean(xs: seq<real>): real
    requires xs != []
  {
    Sum(xs) / (|xs| as real)
  }

  /** Summing is additive over concatenation. */
  lemma {:induction false} SumAppend(a: seq<real>, b: seq<real>)
    ensures Sum(a + b) == Sum(a) + Sum(b)
  {
    if b != [] {
      var b' := b[..|b| - 1];
      assert (a + b)[..|a + b| - 1] == a + b';
      SumAppend(a, b');
    } else {
      assert a + b == a;
    }
  }

  /** The sum does not depend on the order of the list. */
  lemma {:induction false} SumPermutation(a: seq<real>, b: seq<real>)
    requires multiset(a) == multiset(b)
    ensures Sum(a) == Sum(b)
    decreases |a|
  {
    if a == [] {
      assert |b| == |multiset(b)| == 0;
    } else {
      var x := a[|a| - 1];
      assert x in multiset(b) by { assert x in multiset(a); }
      var j :| 0 <= j < |b| && b[j] == x;
      MultisetRemoveAt(a, |a| - 1);
      MultisetRemoveAt(b, j);
      assert a[..|a| - 1] + a[|a|..] == a[..|a| - 1];
      SumPermutation(a[..|a| - 1], b[..j] + b[j + 1..]);
      SumRemoveAt(b, j);
    }
  }

  /** Taking one element out of a list takes it out of the multiset. */
  lemma MultisetRemoveAt<T>(b: seq<T>, j: int)
    requires 0 <= j < |b|
    ensures multiset(b[..j] + b[j + 1..]) == multiset(b) - multiset{b[j]}
  {
    assert b == b[..j] + [b[j]] + b[j + 1..];
  }

  /** Taking one element out of a list takes it out of the sum. */
  lemma SumRemoveAt(b: seq<real>, j: int)
    requires 0 <= j < |b|
    ensures Sum(b) == Sum(b[..j] + b[j + 1..]) + b[j]
  {
    var x := b[j];
    assert b == b[..j] + [x] + b[j + 1..];
    SumAppend(b[..j] + [x], b[j + 1..]);
    SumAppend(b[..j], [x]);
    SumAppend(b[..j], b[j + 1..]);
    assert Sum([x]) == x by { assert [x][..0] == []; }
  }

  /** A lower bound on every element bounds the sum by length times it. */
  lemma {:induction false} SumAtLeast(xs: seq<real>, lo: real)
    requires forall x :: x in xs ==> lo <= x
    ensures Sum(xs) >= (|xs| as real) * lo
  {
    if xs != [] {
      var init := xs[..|xs| - 1];
      assert forall x :: x in init ==> x in xs;
      SumAtLeast(init, lo);
      assert xs[|xs| - 1] in xs;
      assert (|xs| as real) * lo == (|init| as real) * lo + lo;
    }
  }

  /** An upper bound on every element bounds the sum by length times it. */
  lemma {:induction false} SumAtMost(xs: seq<real>, hi: real)
    requires forall x :: x in xs ==> x <= hi
    ensures Sum(xs) <= (|xs| as real) * hi
  {
    if xs != [] {
      var init := xs[..|xs| - 1];
      assert forall x :: x in init ==> x in xs;
      SumAtMost(init, hi);
      assert xs[|xs| - 1] in xs;
      assert (|xs| as real) * hi == (|init| as real) * hi + hi;
    }
  }

  /** The mean lies between any lower and any upper bound of the elements. */
  lemma MeanWithin(xs: seq<real>, lo: real, hi: real)
    requires xs != []
    requires forall x :: x in xs ==> lo <= x <= hi
    ensures lo <= Mean(xs) <= hi
  {
    var n := |xs| as real;
    SumAtLeast(xs, lo);
    SumAtMost(xs, hi);
    assert Sum(xs) / n - lo == (Sum(xs) - n * lo) / n;
    assert hi - Sum(xs) / n == (n * hi - Sum(xs)) / n;
  }

  /** The mean of a non-empty list lies between its minimum and maximum. */
  lemma MeanBetweenMinMax(xs: seq<real>)
    requires xs != []
    ensures Min(xs) <= Mean(xs) <= Max(xs)
  {
    MeanWithin(xs, Min(xs), Max(xs));
  }
}
