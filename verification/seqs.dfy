/** Specification notions over sequences shared by the dataset operators. */
module Seqs {

  /** `r` can be obtained from `s` by deleting entries, keeping the rest in their relative order. */
  ghost predicate SubsequenceOf<T>(r: seq<T>, s: seq<T>)
    decreases |s|
  {
    if |r| == 0 then true
    else if |s| == 0 then false
    else (r[0] == s[0] && SubsequenceOf(r[1..], s[1..])) || SubsequenceOf(r, s[1..])
  }

  /** A subsequence never holds more copies of an entry than the sequence it came from. */
  lemma {:induction false} SubsequenceMultiset<T>(r: seq<T>, s: seq<T>)
    requires SubsequenceOf(r, s)
    ensures multiset(r) <= multiset(s)
    ensures |r| <= |s|
    decreases |s|
  {
    if |r| == 0 {
    } else {
      assert s == [s[0]] + s[1..];
      if r[0] == s[0] && SubsequenceOf(r[1..], s[1..]) {
        assert r == [r[0]] + r[1..];
        SubsequenceMultiset(r[1..], s[1..]);
      } else {
        SubsequenceMultiset(r, s[1..]);
      }
    }
  }

  /** Splitting off the first entry of a non-empty sequence splits its multiset the same way. */
  lemma MultisetOfCons<T>(s: seq<T>)
    requires |s| > 0
    ensures multiset(s) == multiset{s[0]} + multiset(s[1..])
  {
    assert s == [s[0]] + s[1..];
  }
}
