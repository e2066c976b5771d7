/** The System.Linq operators the pipeline uses, over finite sequences. */
module Linq {

  predicate NoDuplicates<T(==)>(xs: seq<T>)
  {
    forall i, j | 0 <= i < j < |xs| :: xs[i] != xs[j]
  }

  /** The elements of a sequence, as a set. */
  ghost function Elements<T>(xs: seq<T>): set<T>
  {
    set x | x in xs
  }

  /** Appending one element adds it to the set of elements. */
  lemma ElementsSnoc<T>(xs: seq<T>, x: T)
    ensures Elements(xs + [x]) == Elements(xs) + {x}
  {
  }

  /** Appending sequences without duplicates and without common elements gives none. */
  lemma NoDuplicatesAppend<T>(xs: seq<T>, ys: seq<T>)
    requires NoDuplicates(xs) && NoDuplicates(ys)
    requires forall x | x in xs :: x !in ys
    ensures NoDuplicates(xs + ys)
  {
    var zs := xs + ys;
    forall i, j | 0 <= i < j < |zs| ensures zs[i] != zs[j] {
      if j >= |xs| {
        assert zs[j] == ys[j - |xs|];
        if i < |xs| {
          assert zs[i] in xs;
        } else {
          assert zs[i] == ys[i - |xs|];
        }
      }
    }
  }

  /**
    Enumerable.Except(xs, second): the set of `second` is built when the enumeration starts, and each
    element of `xs` is yielded the first time it is added to that set, so the result is `xs` in order
    of first occurrence without duplicates and without the elements of `second`.
   */
  function Except<T(==,!new)>(xs: seq<T>, second: set<T>): (r: seq<T>)
    ensures NoDuplicates(r)
    ensures forall x :: x in r <==> x in xs && x !in second
    ensures |r| <= |xs|
  {
    if xs == [] then []
    else if xs[0] in second then Except(xs[1..], second)
    else [xs[0]] + Except(xs[1..], second + {xs[0]})
  }

  /** Enumerable.Distinct(xs): Except with an empty second set. */
  function Distinct<T(==,!new)>(xs: seq<T>): (r: seq<T>)
    ensures NoDuplicates(r)
    ensures forall x :: x in r <==> x in xs
  {
    Except(xs, {})
  }

  /** Except leaves a duplicate-free sequence without elements of `second` as it is. */
  lemma {:induction false} ExceptOfDistinct<T(!new)>(xs: seq<T>, second: set<T>)
    requires NoDuplicates(xs)
    requires forall x | x in xs :: x !in second
    ensures Except(xs, second) == xs
  {
    if xs != [] {
      ExceptOfDistinct(xs[1..], second + {xs[0]});
    }
  }

  /** Distinct is idempotent: the second `.Distinct()` of the scraper changes nothing. */
  lemma DistinctIdempotent<T(!new)>(xs: seq<T>)
    ensures Distinct(Distinct(xs)) == Distinct(xs)
  {
    ExceptOfDistinct(Distinct(xs), {});
  }

  /** Enumerable.Where(xs, p) */
  function Where<T(!new)>(xs: seq<T>, p: T -> bool): (r: seq<T>)
    ensures forall x :: x in r <==> x in xs && p(x)
    ensures |r| <= |xs|
  {
    if xs == [] then [] else (if p(xs[0]) then [xs[0]] else []) + Where(xs[1..], p)
  }

  /** The index FirstOrDefault(p) stops at: the first element satisfying `p`, or |xs| when there is none. */
  function FirstIndex<T>(xs: seq<T>, p: T -> bool): (r: nat)
    ensures r <= |xs|
    ensures r < |xs| ==> p(xs[r])
    ensures forall j | 0 <= j < r :: !p(xs[j])
  {
    if xs == [] then 0 else if p(xs[0]) then 0 else 1 + FirstIndex(xs[1..], p)
  }

  /** Enumerable.SelectMany(xs, f): the sequences `f` gives for the elements of `xs`, concatenated in order. */
  function SelectMany<A, B>(xs: seq<A>, f: A -> seq<B>): (r: seq<B>)
    ensures xs == [] ==> r == []
  {
    if xs == [] then [] else SelectMany(xs[..|xs| - 1], f) + f(xs[|xs| - 1])
  }

  /** Extending `xs` by one element appends what `f` gives for it. */
  lemma SelectManySnoc<A, B>(xs: seq<A>, x: A, f: A -> seq<B>)
    ensures SelectMany(xs + [x], f) == SelectMany(xs, f) + f(x)
  {
    assert (xs + [x])[..|xs + [x]| - 1] == xs;
  }

  /** An element of SelectMany comes from one of the elements of `xs`, and each of those contributes all it gives. */
  lemma {:induction false} SelectManyMembers<A, B>(xs: seq<A>, f: A -> seq<B>)
    ensures forall y :: y in SelectMany(xs, f) <==> exists k | 0 <= k < |xs| :: y in f(xs[k])
  {
    if xs != [] {
      var init := xs[..|xs| - 1];
      SelectManyMembers(init, f);
      assert forall k | 0 <= k < |init| :: init[k] == xs[k];
    }
  }
}
