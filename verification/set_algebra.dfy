/**
 The binary operators of the asynchronous dataset. Each one wraps the argument as a dataset and
 consults the receiver only through its membership oracle `has`; the receiver's own entries are
 traversed only by `union`.
 */
module SetAlgebra {
  import opened Seqs
  import opened Filtering

  /** `union(other)`: the receiver's entries, then the entries of `other` the receiver does not have. */
  function Union<T(!new)>(s: seq<T>, has: T -> bool, other: seq<T>): (r: seq<T>)
    ensures |s| <= |r| <= |s| + |other|
    ensures r[..|s|] == s
    ensures SubsequenceOf(r[|s|..], other)
    ensures forall i :: |s| <= i < |r| ==> !has(r[i])
    ensures forall x :: multiset(r)[x] == multiset(s)[x] + if has(x) then 0 else multiset(other)[x]
  {
    var tail := Except(other, has);
    SubsequenceMultiset(tail, other);
    assert (s + tail)[|s|..] == tail;
    s + tail
  }

  /** `intersection(other)`: the entries of `other` the receiver has, in `other`'s order. */
  function Intersection<T(!new)>(has: T -> bool, other: seq<T>): (r: seq<T>)
    ensures SubsequenceOf(r, other)
    ensures forall x :: multiset(r)[x] == if has(x) then multiset(other)[x] else 0
  {
    Filter(other, has)
  }

  /** `difference(other)`: the entries of `other` the receiver does not have, in `other`'s order. */
  function Difference<T(!new)>(has: T -> bool, other: seq<T>): (r: seq<T>)
    ensures SubsequenceOf(r, other)
    ensures forall x :: multiset(r)[x] == if has(x) then 0 else multiset(other)[x]
  {
    Except(other, has)
  }

  /** `contains(other)`: every entry of `other` is a member of the receiver. */
  predicate Contains<T(!new)>(has: T -> bool, other: seq<T>)
    ensures Contains(has, other) <==> forall i :: 0 <= i < |other| ==> has(other[i])
  {
    Every(other, has)
  }

  /** `equals(other)`, as written: the same one-directional test as `contains`. */
  predicate Equals<T(!new)>(has: T -> bool, other: seq<T>)
    ensures Equals(has, other) <==> forall i :: 0 <= i < |other| ==> has(other[i])
  {
    Every(other, has)
  }

  /** `equals` answers exactly as `contains` does, on every input. */
  lemma EqualsIsContains<T(!new)>(has: T -> bool, other: seq<T>)
    ensures Equals(has, other) == Contains(has, other)
  {
  }

  /**
   `equals` is not symmetric: a receiver holding {1, 2} "equals" the sequence [1], while a
   receiver holding {1} does not "equal" the sequence [1, 2].
   */
  lemma EqualsIsOneDirectional()
    ensures Equals(x => x == 1 || x == 2, [1])
    ensures !Equals(x => x == 1, [1, 2])
  {
  }

  /**
   Set equality as the name promises: containment in both directions, asking the argument's own
   membership oracle `otherHas` for the reverse direction.
   */
  predicate SetEquals<T(!new)>(s: seq<T>, has: T -> bool, other: seq<T>, otherHas: T -> bool)
    ensures SetEquals(s, has, other, otherHas) <==>
              (forall i :: 0 <= i < |other| ==> has(other[i])) && (forall j :: 0 <= j < |s| ==> otherHas(s[j]))
  {
    Contains(has, other) && Contains(otherHas, s)
  }

  /** A membership oracle that answers exactly for the entries of `s`. */
  ghost predicate IsMembershipOf<T(!new)>(has: T -> bool, s: seq<T>) {
    forall x :: has(x) <==> x in s
  }

  /** With oracles that are exact for both sides, `SetEquals` is equality of the sets of entries. */
  lemma SetEqualsIsSetEquality<T(!new)>(s: seq<T>, has: T -> bool, other: seq<T>, otherHas: T -> bool)
    requires IsMembershipOf(has, s) && IsMembershipOf(otherHas, other)
    ensures SetEquals(s, has, other, otherHas) <==> (forall x :: x in s <==> x in other)
    ensures SetEquals(s, has, other, otherHas) == SetEquals(other, otherHas, s, has)
  {
  }

  /**
   `intersection(other)` and `difference(other)` split `other`: each copy of each of its entries
   lands in exactly one of them.
   */
  lemma IntersectionDifferencePartition<T(!new)>(has: T -> bool, other: seq<T>)
    ensures multiset(Intersection(has, other)) + multiset(Difference(has, other)) == multiset(other)
    ensures |Intersection(has, other)| + |Difference(has, other)| == |other|
  {
  }

  /**
   When `has` is exact for the receiver's entries, the operators compute the set union,
   intersection and difference, and `union` adds no second copy of an entry the receiver holds.
   */
  lemma SetSemantics<T(!new)>(s: seq<T>, has: T -> bool, other: seq<T>)
    requires IsMembershipOf(has, s)
    ensures forall x :: x in Union(s, has, other) <==> x in s || x in other
    ensures forall x :: x in s ==> multiset(Union(s, has, other))[x] == multiset(s)[x]
    ensures forall x :: x in Intersection(has, other) <==> x in s && x in other
    ensures forall x :: x in Difference(has, other) <==> x in other && x !in s
    ensures Contains(has, other) <==> forall x :: x in other ==> x in s
  {
  }

  /** Membership in the dataset {1, 2, 3}. */
  predicate InOneToThree(x: int) {
    1 <= x <= 3
  }

  /**
   The numeric example: with A = [1, 2, 3] and B = [2, 3, 4], A.union(B) is [1, 2, 3, 4],
   A.intersection(B) is [2, 3] and A.difference(B) is [4].
   */
  lemma NumericExample()
    ensures Union([1, 2, 3], InOneToThree, [2, 3, 4]) == [1, 2, 3, 4]
    ensures Intersection(InOneToThree, [2, 3, 4]) == [2, 3]
    ensures Difference(InOneToThree, [2, 3, 4]) == [4]
  {
    var b := [2, 3, 4];
    assert b[1..] == [3, 4];
    assert [3, 4][1..] == [4];
    assert [4][1..] == [];
  }
}
