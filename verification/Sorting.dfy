/**
 The stable sort the components rely on (`Array.prototype.sort` is stable), given as insertion sort
 over an arbitrary comparison. A string collation such as `localeCompare` enters as a total order.
 */
module Sorting {

  ghost predicate TotalPreorder<T(!new)>(le: (T, T) -> bool) {
    && (forall a, b :: le(a, b) || le(b, a))
    && (forall a, b, c :: le(a, b) && le(b, c) ==> le(a, c))
  }

  ghost predicate TotalOrder<T(!new)>(le: (T, T) -> bool) {
    && TotalPreorder(le)
    && (forall a, b :: le(a, b) && le(b, a) ==> a == b)
  }

  /** `le` never ties two different members of `xs`. */
  ghost predicate TiesOnlyEqual<T(!new)>(le: (T, T) -> bool, xs: seq<T>) {
    forall a, b :: a in xs && b in xs && le(a, b) && le(b, a) ==> a == b
  }

  predicate Sorted<T>(le: (T, T) -> bool, xs: seq<T>) {
    forall i, j :: 0 <= i < j < |xs| ==> le(xs[i], xs[j])
  }

  function Insert<T>(le: (T, T) -> bool, x: T, xs: seq<T>): (r: seq<T>)
    ensures |r| == |xs| + 1
  {
    if xs == [] || le(x, xs[0]) then [x] + xs else [xs[0]] + Insert(le, x, xs[1..])
  }

  function Sort<T>(le: (T, T) -> bool, xs: seq<T>): (r: seq<T>)
    ensures |r| == |xs|
  {
    if xs == [] then [] else Insert(le, xs[0], Sort(le, xs[1..]))
  }

  lemma {:induction false} InsertSpec<T(!new)>(le: (T, T) -> bool, x: T, xs: seq<T>)
    requires TotalPreorder(le) && Sorted(le, xs)
    ensures Sorted(le, Insert(le, x, xs))
    ensures multiset(Insert(le, x, xs)) == multiset(xs) + multiset{x}
  {
    if xs != [] && le(x, xs[0]) {
      SortedCons(le, x, xs);
    } else if xs != [] {
      var rest := Insert(le, x, xs[1..]);
      InsertSpec(le, x, xs[1..]);
      assert xs == [xs[0]] + xs[1..];
      forall j | 0 <= j < |rest| ensures le(xs[0], rest[j]) {
        assert rest[j] in multiset(rest);
        assert rest[j] == x || rest[j] in xs[1..];
      }
      SortedCons(le, xs[0], rest);
    }
  }

  lemma SortedCons<T(!new)>(le: (T, T) -> bool, x: T, xs: seq<T>)
    requires TotalPreorder(le) && Sorted(le, xs)
    requires (xs != [] ==> le(x, xs[0])) || forall j :: 0 <= j < |xs| ==> le(x, xs[j])
    ensures Sorted(le, [x] + xs)
  {
    var r := [x] + xs;
    forall i, j | 0 <= i < j < |r| ensures le(r[i], r[j]) {
      if i == 0 && j > 1 { assert le(xs[0], xs[j - 1]); }
    }
  }

  /** Sorting orders its input and only permutes it. */
  lemma {:induction false} SortSpec<T(!new)>(le: (T, T) -> bool, xs: seq<T>)
    requires TotalPreorder(le)
    ensures Sorted(le, Sort(le, xs))
    ensures multiset(Sort(le, xs)) == multiset(xs)
  {
    if xs != [] {
      SortSpec(le, xs[1..]);
      InsertSpec(le, xs[0], Sort(le, xs[1..]));
      assert xs == [xs[0]] + xs[1..];
    }
  }

  lemma SortMembers<T(!new)>(le: (T, T) -> bool, xs: seq<T>)
    requires TotalPreorder(le)
    ensures forall x :: x in Sort(le, xs) <==> x in xs
  {
    SortSpec(le, xs);
    forall x ensures x in Sort(le, xs) <==> x in xs {
      assert x in multiset(Sort(le, xs)) <==> x in multiset(xs);
    }
  }

  /** A sorted sequence is left as it is, ties included. */
  lemma {:induction false} SortFixpoint<T(!new)>(le: (T, T) -> bool, xs: seq<T>)
    requires Sorted(le, xs)
    ensures Sort(le, xs) == xs
  {
    if xs != [] {
      SortFixpoint(le, xs[1..]);
      assert xs == [xs[0]] + xs[1..];
      if |xs| > 1 { assert le(xs[0], xs[1]); }
    }
  }

  /** Two sorted arrangements of the same members agree when ties are equalities. */
  lemma {:induction false} SortedUnique<T(!new)>(le: (T, T) -> bool, xs: seq<T>, ys: seq<T>)
    requires TotalPreorder(le) && TiesOnlyEqual(le, xs)
    requires Sorted(le, xs) && Sorted(le, ys) && multiset(xs) == multiset(ys)
    ensures xs == ys
  {
    if xs == [] {
      assert |multiset(ys)| == 0;
    } else {
      assert |ys| == |multiset(ys)| == |multiset(xs)| == |xs|;
      HeadsAgree(le, xs, ys);
      assert xs == [xs[0]] + xs[1..] && ys == [ys[0]] + ys[1..];
      assert multiset(xs[1..]) == multiset(xs) - multiset{xs[0]};
      assert multiset(ys[1..]) == multiset(ys) - multiset{ys[0]};
      SortedUnique(le, xs[1..], ys[1..]);
    }
  }

  lemma HeadsAgree<T(!new)>(le: (T, T) -> bool, xs: seq<T>, ys: seq<T>)
    requires TotalPreorder(le) && TiesOnlyEqual(le, xs) && xs != [] && ys != []
    requires Sorted(le, xs) && Sorted(le, ys) && multiset(xs) == multiset(ys)
    ensures xs[0] == ys[0]
  {
    assert ys[0] in multiset(xs) && xs[0] in multiset(ys);
    var i :| 0 <= i < |xs| && xs[i] == ys[0];
    var j :| 0 <= j < |ys| && ys[j] == xs[0];
    assert le(xs[0], ys[0]) && le(ys[0], xs[0]);
  }

  /** The sorted result depends only on which members there are, not on their order. */
  lemma SortOrderFree<T(!new)>(le: (T, T) -> bool, xs: seq<T>, ys: seq<T>)
    requires TotalPreorder(le) && TiesOnlyEqual(le, xs) && multiset(xs) == multiset(ys)
    ensures Sort(le, xs) == Sort(le, ys)
  {
    SortSpec(le, xs);
    SortSpec(le, ys);
    SortMembers(le, xs);
    SortedUnique(le, Sort(le, xs), Sort(le, ys));
  }
}
