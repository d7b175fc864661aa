/** Applying a fallible step along a sequence. */
module Traversal {
  import opened Outcomes

  /** Apply a fallible step to every element in order, stopping at the first failure. */
  function Traverse<A, B>(f: A -> Result<B>, xs: seq<A>): (r: Result<seq<B>>)
    ensures r.Success? ==> |r.value| == |xs|
  {
    if xs == [] then Success([])
    else
      var first := f(xs[0]);
      if first.Failure? then Failure(first.code)
      else
        var rest := Traverse(f, xs[1..]);
        if rest.Failure? then rest else Success([first.value] + rest.value)
  }

  method Collect<A, B>(f: A -> Result<B>, xs: seq<A>) returns (r: Result<seq<B>>)
    ensures r == Traverse(f, xs)
  {
    var collected := [];
    assert xs[0..] == xs;
    PrependedNothing(Traverse(f, xs));
    for n := 0 to |xs|
      invariant Prepended(collected, Traverse(f, xs[n..])) == Traverse(f, xs)
    {
      var next := f(xs[n]);
      TraverseStep(f, xs[n..], collected);
      assert xs[n..][1..] == xs[n + 1..];
      if next.Failure? { return Failure(next.code); }
      collected := collected + [next.value];
    }
    assert xs[|xs|..] == [] && collected + [] == collected;
    r := Success(collected);
  }

  ghost function Prepended<B>(before: seq<B>, rest: Result<seq<B>>): Result<seq<B>> {
    if rest.Failure? then rest else Success(before + rest.value)
  }

  lemma PrependedNothing<B>(rest: Result<seq<B>>)
    ensures Prepended([], rest) == rest
  {
    if rest.Success? { assert [] + rest.value == rest.value; }
  }

  lemma TraverseStep<A, B>(f: A -> Result<B>, xs: seq<A>, before: seq<B>)
    requires xs != []
    ensures f(xs[0]).Failure? ==> Prepended(before, Traverse(f, xs)) == Failure(f(xs[0]).code)
    ensures f(xs[0]).Success? ==>
      Prepended(before, Traverse(f, xs)) == Prepended(before + [f(xs[0]).value], Traverse(f, xs[1..]))
  {
    var rest := Traverse(f, xs[1..]);
    if f(xs[0]).Success? && rest.Success? {
      var v := f(xs[0]).value;
      assert before + ([v] + rest.value) == (before + [v]) + rest.value;
    }
  }

  lemma {:induction false} TraverseSpec<A, B>(f: A -> Result<B>, xs: seq<A>)
    ensures Traverse(f, xs).Success? <==> forall i :: 0 <= i < |xs| ==> f(xs[i]).Success?
    ensures Traverse(f, xs).Success? ==> forall i :: 0 <= i < |xs| ==> f(xs[i]) == Success(Traverse(f, xs).value[i])
  {
    if xs != [] {
      var rest := xs[1..];
      TraverseSpec(f, rest);
      assert forall i :: 0 < i < |xs| ==> xs[i] == rest[i - 1];
      assert forall i :: 0 <= i < |rest| ==> rest[i] == xs[i + 1];
    }
  }

  lemma {:induction false} TraverseAgrees<A, B>(f: A -> Result<B>, g: A -> Result<B>, xs: seq<A>)
    requires forall i :: 0 <= i < |xs| ==> f(xs[i]) == g(xs[i])
    ensures Traverse(f, xs) == Traverse(g, xs)
  {
    if xs != [] {
      assert forall i :: 0 <= i < |xs[1..]| ==> xs[1..][i] == xs[i + 1];
      TraverseAgrees(f, g, xs[1..]);
    }
  }

  /** A failed traversal reports the failure of the first element that fails. */
  lemma {:induction false} TraverseFailure<A, B>(f: A -> Result<B>, xs: seq<A>) returns (i: nat)
    requires Traverse(f, xs).Failure?
    ensures i < |xs| && f(xs[i]) == Failure(Traverse(f, xs).code) && forall j :: 0 <= j < i ==> f(xs[j]).Success?
  {
    if f(xs[0]).Failure? { i := 0; } else {
      var k := TraverseFailure(f, xs[1..]);
      i := k + 1;
      assert forall j :: 0 < j < i ==> xs[j] == xs[1..][j - 1];
    }
  }
}
