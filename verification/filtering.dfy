/**
 The filtering operators of the asynchronous dataset: the negatable filter primitive shared by
 `filter` and `except`, `match` on top of `filter`, and the short-circuiting `every` and `some`
 built on `except`/`filter` plus `hasAny`. The asynchronous generator of the source is modelled
 as the finite sequence it yields once drained.
 */
module Filtering {
  import opened Seqs

  /** The test the negatable filter applies to one entry: the predicate, inverted when `negate` is set. */
  predicate Keep<T(!new)>(p: T -> bool, negate: bool, x: T) {
    if negate then !p(x) else p(x)
  }

  /** `r` holds every copy of each entry of `s` that passes the test, and no copy of any other entry. */
  ghost predicate KeepsExactly<T(!new)>(r: seq<T>, s: seq<T>, p: T -> bool, negate: bool) {
    forall x :: multiset(r)[x] == if Keep(p, negate, x) then multiset(s)[x] else 0
  }

  /** The entries of `s` passing the (possibly negated) predicate, in their original order. */
  function FilterNegatable<T(!new)>(s: seq<T>, p: T -> bool, negate: bool): (r: seq<T>)
    ensures SubsequenceOf(r, s)
    ensures KeepsExactly(r, s, p, negate)
    ensures forall x :: x in r <==> x in s && Keep(p, negate, x)
    ensures forall i :: 0 <= i < |r| ==> Keep(p, negate, r[i])
    decreases |s|
  {
    if |s| == 0 then []
    else
      var rest := FilterNegatable(s[1..], p, negate);
      MultisetOfCons(s);
      assert s == [s[0]] + s[1..];
      if Keep(p, negate, s[0]) then
        assert ([s[0]] + rest)[1..] == rest;
        [s[0]] + rest
      else rest
  }

  /**
   Being an order-preserving subsequence that keeps exactly the passing entries pins the result
   down completely: this is an independent definition of the negatable filter.
   */
  lemma {:induction false} FilterNegatableCharacterised<T(!new)>(s: seq<T>, p: T -> bool, negate: bool, r: seq<T>)
    ensures r == FilterNegatable(s, p, negate) <==> SubsequenceOf(r, s) && KeepsExactly(r, s, p, negate)
  {
    if SubsequenceOf(r, s) && KeepsExactly(r, s, p, negate) {
      KeptSubsequenceIsFilter(s, p, negate, r);
    }
  }

  lemma {:induction false} KeptSubsequenceIsFilter<T(!new)>(s: seq<T>, p: T -> bool, negate: bool, r: seq<T>)
    requires SubsequenceOf(r, s)
    requires KeepsExactly(r, s, p, negate)
    ensures r == FilterNegatable(s, p, negate)
    decreases |s|
  {
    if |s| == 0 {
    } else {
      var h, t := s[0], s[1..];
      MultisetOfCons(s);
      if Keep(p, negate, h) {
        HeadIsKept(s, r, p, negate);
        MultisetOfCons(r);
        forall x
          ensures multiset(r[1..])[x] == if Keep(p, negate, x) then multiset(t)[x] else 0
        {
        }
        KeptSubsequenceIsFilter(t, p, negate, r[1..]);
        assert r == [h] + r[1..];
      } else {
        HeadIsDropped(s, r, p, negate);
        forall x
          ensures multiset(r)[x] == if Keep(p, negate, x) then multiset(t)[x] else 0
        {
          if Keep(p, negate, x) {
            assert x != h;
          }
        }
        KeptSubsequenceIsFilter(t, p, negate, r);
      }
    }
  }

  /** When the first entry passes, a kept subsequence has to start with it. */
  lemma HeadIsKept<T(!new)>(s: seq<T>, r: seq<T>, p: T -> bool, negate: bool)
    requires |s| > 0 && Keep(p, negate, s[0])
    requires SubsequenceOf(r, s)
    requires KeepsExactly(r, s, p, negate)
    ensures |r| > 0 && r[0] == s[0] && SubsequenceOf(r[1..], s[1..])
  {
    MultisetOfCons(s);
    assert multiset(r)[s[0]] == multiset(s)[s[0]];
    if !(|r| > 0 && r[0] == s[0] && SubsequenceOf(r[1..], s[1..])) {
      SubsequenceMultiset(r, s[1..]);
    }
  }

  /** When the first entry fails, a kept subsequence lies entirely in the rest. */
  lemma HeadIsDropped<T(!new)>(s: seq<T>, r: seq<T>, p: T -> bool, negate: bool)
    requires |s| > 0 && !Keep(p, negate, s[0])
    requires SubsequenceOf(r, s)
    requires KeepsExactly(r, s, p, negate)
    ensures SubsequenceOf(r, s[1..])
  {
  }

  /** `filter(p)`: the entries satisfying `p`, in the receiver's order. */
  function Filter<T(!new)>(s: seq<T>, p: T -> bool): (r: seq<T>)
    ensures SubsequenceOf(r, s)
    ensures forall x :: multiset(r)[x] == if p(x) then multiset(s)[x] else 0
    ensures forall x :: x in r <==> x in s && p(x)
  {
    FilterNegatable(s, p, false)
  }

  /** `except(p)`: the entries failing `p`, in the receiver's order. */
  function Except<T(!new)>(s: seq<T>, p: T -> bool): (r: seq<T>)
    ensures SubsequenceOf(r, s)
    ensures forall x :: multiset(r)[x] == if p(x) then 0 else multiset(s)[x]
    ensures forall x :: x in r <==> x in s && !p(x)
  {
    FilterNegatable(s, p, true)
  }

  /** `match(find)`: the entries the context's match oracle accepts for the pattern `find`. */
  function Match<T(!new), F>(s: seq<T>, isMatch: (T, F) -> bool, find: F): (r: seq<T>)
    ensures SubsequenceOf(r, s)
    ensures forall x :: multiset(r)[x] == if isMatch(x, find) then multiset(s)[x] else 0
    ensures forall x :: x in r <==> x in s && isMatch(x, find)
  {
    Filter(s, x => isMatch(x, find))
  }

  /**
   `filter(p)` and `except(p)` split the receiver: each copy of each entry lands in exactly one
   of them, so their lengths add up to the receiver's.
   */
  lemma FilterExceptPartition<T(!new)>(s: seq<T>, p: T -> bool)
    ensures multiset(Filter(s, p)) + multiset(Except(s, p)) == multiset(s)
    ensures |Filter(s, p)| + |Except(s, p)| == |s|
    ensures forall x :: x in s ==> (x in Filter(s, p) <==> x !in Except(s, p))
  {
  }

  /** `hasAny` of the unseen core: whether the sequence yields at least one entry. */
  predicate HasAny<T(!new)>(s: seq<T>) {
    |s| > 0
  }

  /** `every(p)`: no entry is left after `except(p)`. */
  predicate Every<T(!new)>(s: seq<T>, p: T -> bool)
    ensures Every(s, p) <==> forall i :: 0 <= i < |s| ==> p(s[i])
  {
    var e := Except(s, p);
    assert HasAny(e) ==> e[0] in s;
    !HasAny(e)
  }

  /** `some(p)`: `filter(p)` yields at least one entry. */
  predicate SomeSatisfies<T(!new)>(s: seq<T>, p: T -> bool)
    ensures SomeSatisfies(s, p) <==> exists i :: 0 <= i < |s| && p(s[i])
  {
    var f := Filter(s, p);
    assert HasAny(f) ==> f[0] in s;
    HasAny(f)
  }

  /** `every` is the dual of `some`, and holds on an empty dataset. */
  lemma EveryIsNotSomeNot<T(!new)>(s: seq<T>, p: T -> bool)
    ensures Every(s, p) == !SomeSatisfies(s, x => !p(x))
    ensures |s| == 0 ==> Every(s, p) && !SomeSatisfies(s, p)
  {
  }
}
