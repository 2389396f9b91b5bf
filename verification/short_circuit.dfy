/**
 How many entries the short-circuiting terminal operators consume. `every(p)` asks `hasAny` of
 `except(p)`, which, assuming `hasAny` takes one entry and the dataset wrapper does not read
 ahead, pulls the receiver only until the first entry failing `p` comes out; `some`
 does the same with `filter(p)`, and `contains` is `every` over the argument. `pulled` counts the
 entries taken from the sequence being searched.
 */
module ShortCircuit {
  import opened Filtering
  import opened SetAlgebra

  /** `every(p)`: stops right after the first failing entry, or drains the sequence if none fails. */
  method EveryPulling<T(!new)>(s: seq<T>, p: T -> bool) returns (b: bool, pulled: nat)
    ensures b == Every(s, p)
    ensures pulled <= |s|
    ensures b ==> pulled == |s|
    ensures !b ==> 0 < pulled && !p(s[pulled - 1])
    ensures forall i :: 0 <= i < pulled - 1 ==> p(s[i])
  {
    pulled := 0;
    while pulled < |s|
      invariant pulled <= |s|
      invariant forall i :: 0 <= i < pulled ==> p(s[i])
    {
      var x := s[pulled];
      pulled := pulled + 1;
      if !p(x) {
        return false, pulled;
      }
    }
    return true, pulled;
  }

  /** `some(p)`: stops right after the first passing entry, or drains the sequence if none passes. */
  method SomePulling<T(!new)>(s: seq<T>, p: T -> bool) returns (b: bool, pulled: nat)
    ensures b == SomeSatisfies(s, p)
    ensures pulled <= |s|
    ensures !b ==> pulled == |s|
    ensures b ==> 0 < pulled && p(s[pulled - 1])
    ensures forall i :: 0 <= i < pulled - 1 ==> !p(s[i])
  {
    pulled := 0;
    while pulled < |s|
      invariant pulled <= |s|
      invariant forall i :: 0 <= i < pulled ==> !p(s[i])
    {
      var x := s[pulled];
      pulled := pulled + 1;
      if p(x) {
        return true, pulled;
      }
    }
    return false, pulled;
  }

  /**
   `contains(other)`: pulls `other` up to and including its first non-member, so a non-member in
   front means exactly one entry is pulled.
   */
  method ContainsPulling<T(!new)>(has: T -> bool, other: seq<T>) returns (b: bool, pulled: nat)
    ensures b == Contains(has, other)
    ensures b ==> pulled == |other|
    ensures !b ==> 0 < pulled <= |other| && !has(other[pulled - 1])
    ensures forall i :: 0 <= i < pulled - 1 ==> has(other[i])
    ensures |other| > 0 && !has(other[0]) ==> !b && pulled == 1
  {
    b, pulled := EveryPulling(other, has);
  }
}
