/**
 * Sets seen through an iterator. A Rust `HashSet`/`HashMap` yields its
 * elements in an order the program does not control; the model lists a set in
 * a fixed but unspecified order and states only what every order shares.
 */
module Collections {

  predicate Distinct<T(==)>(xs: seq<T>)
  {
    forall i, j :: 0 <= i < j < |xs| ==> xs[i] != xs[j]
  }

  /** The elements of a sequence, as a set. */
  function Elems<T(!new)>(xs: seq<T>): (s: set<T>)
    ensures forall x :: x in s <==> x in xs
  {
    set x | x in xs
  }

  lemma ElemsPrepend<T(!new)>(x: T, xs: seq<T>)
    ensures Elems([x] + xs) == {x} + Elems(xs)
  {
  }

  /** Each element of `s` exactly once, in an order that is fixed but not specified. */
  ghost function Enumerate<T(!new)>(s: set<T>): (xs: seq<T>)
    ensures |xs| == |s|
    ensures forall x :: x in xs <==> x in s
    ensures Distinct(xs)
  {
    if s == {} then []
    else
      var x :| x in s;
      var rest := Enumerate(s - {x});
      assert forall i :: 0 <= i < |rest| ==> rest[i] != x;
      [x] + rest
  }
}
