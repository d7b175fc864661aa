/** Finite sums over sequences, and the few facts about multisets and products the proofs share. */
module Sums {

  function Sum<T>(f: T -> int, xs: seq<T>): int {
    if xs == [] then 0 else f(xs[0]) + Sum(f, xs[1..])
  }

  function Without<T>(xs: seq<T>, i: nat): (r: seq<T>)
    requires i < |xs|
    ensures |r| == |xs| - 1
  {
    xs[..i] + xs[i + 1..]
  }

  lemma {:induction false} SumSplit<T>(f: T -> int, xs: seq<T>, i: nat)
    requires i < |xs|
    ensures Sum(f, xs) == f(xs[i]) + Sum(f, Without(xs, i))
  {
    if i == 0 {
      assert Without(xs, 0) == xs[1..];
    } else {
      SumSplit(f, xs[1..], i - 1);
      assert Without(xs, i)[0] == xs[0] && Without(xs, i)[1..] == Without(xs[1..], i - 1);
    }
  }

  lemma MultisetSplit<T>(xs: seq<T>, i: nat)
    requires i < |xs|
    ensures multiset(xs) == multiset(Without(xs, i)) + multiset{xs[i]}
  {
    assert xs == xs[..i] + [xs[i]] + xs[i + 1..];
  }

  /** Rearranging the terms leaves a sum alone. */
  lemma {:induction false} SumOrderFree<T>(f: T -> int, xs: seq<T>, ys: seq<T>)
    requires multiset(xs) == multiset(ys)
    ensures Sum(f, xs) == Sum(f, ys)
  {
    if xs == [] {
      assert |multiset(ys)| == 0;
    } else {
      assert xs[0] in multiset(ys);
      var i :| 0 <= i < |ys| && ys[i] == xs[0];
      MultisetSplit(xs, 0);
      MultisetSplit(ys, i);
      assert multiset(Without(xs, 0)) == multiset(xs) - multiset{xs[0]};
      assert multiset(Without(ys, i)) == multiset(ys) - multiset{ys[i]};
      SumOrderFree(f, Without(xs, 0), Without(ys, i));
      SumSplit(f, xs, 0);
      SumSplit(f, ys, i);
    }
  }

  lemma RepeatedMember<T>(xs: seq<T>, i: nat, j: nat)
    requires i < j < |xs| && xs[i] == xs[j]
    ensures multiset(xs)[xs[i]] >= 2
  {
    MultisetSplit(xs, j);
    assert Without(xs, j)[i] == xs[i];
    assert xs[i] in multiset(Without(xs, j));
  }

  lemma SubsetSize<T>(a: set<T>, b: set<T>)
    requires a <= b
    ensures |a| <= |b|
  {
    assert b == a + (b - a);
  }

  lemma MulLe(a: int, b: int, c: int)
    requires a <= b && c >= 0
    ensures a * c <= b * c
  {
  }

  lemma MulDistributes(a: int, b: int, c: int)
    ensures (a + b) * c == a * c + b * c
  {
  }

  /** A common positive factor cancels from a strict comparison. */
  lemma CancelLt(a: int, b: int, c: int)
    requires c > 0 && a * c < b * c
    ensures a < b
  {
    if a >= b { MulLe(b, a, c); }
  }
}
