/**
 The operators that transform or fold the receiver's entries: `map`, `forEach` and `reduce`.
 The dataset argument the source passes to every callback is fixed for the whole call, so the
 callbacks here take the entry (and the accumulator or state) only.
 */
module Traversal {
  import opened Wrappers

  /** `map(f)`: the image of every entry, in the receiver's order. */
  function Map<T, U>(s: seq<T>, f: T -> U): (r: seq<U>)
    ensures |r| == |s|
    ensures forall i :: 0 <= i < |s| ==> r[i] == f(s[i])
    decreases |s|
  {
    if |s| == 0 then [] else [f(s[0])] + Map(s[1..], f)
  }

  /** Mapping a concatenation maps each part in place, so `map` never reorders entries. */
  lemma MapConcat<T, U>(a: seq<T>, b: seq<T>, f: T -> U)
    ensures Map(a + b, f) == Map(a, f) + Map(b, f)
  {
  }

  /** Two `map`s in a row are one `map` by the composed transform. */
  lemma MapCompose<T, U, V>(s: seq<T>, f: T -> U, g: U -> V)
    ensures Map(Map(s, f), g) == Map(s, x => g(f(x)))
  {
  }

  /** The reference left fold: `fn` applied to the accumulator and each entry, first to last. */
  function FoldLeft<A, T>(fn: (A, T) -> A, acc: A, s: seq<T>): A
    decreases |s|
  {
    if |s| == 0 then acc else fn(FoldLeft(fn, acc, s[..|s| - 1]), s[|s| - 1])
  }

  lemma {:induction false} FoldLeftCons<A, T>(fn: (A, T) -> A, acc: A, x: T, s: seq<T>)
    ensures FoldLeft(fn, acc, [x] + s) == FoldLeft(fn, fn(acc, x), s)
    decreases |s|
  {
    if |s| > 0 {
      var xs := [x] + s;
      assert xs[..|xs| - 1] == [x] + s[..|s| - 1];
      FoldLeftCons(fn, acc, x, s[..|s| - 1]);
    }
  }

  /**
   `forEach(action)`: the action runs once per entry, in order, each run seeing the state left by
   the previous one; the final state is the outcome. The state threading holds for synchronous
   actions only: the source does not await an action that returns a promise.
   */
  function ForEach<S, T>(s: seq<T>, state: S, action: (S, T) -> S): (r: S)
    ensures r == FoldLeft(action, state, s)
    decreases |s|
  {
    if |s| == 0 then state
    else
      FoldLeftCons(action, state, s[0], s[1..]);
      assert s == [s[0]] + s[1..];
      ForEach(s[1..], action(state, s[0]), action)
  }

  /**
   Traversal order: running the action over `a + b` is running it over `a`, then over `b` from
   the state `a` left behind.
   */
  lemma {:induction false} ForEachConcat<S, T>(a: seq<T>, b: seq<T>, state: S, action: (S, T) -> S)
    ensures ForEach(a + b, state, action) == ForEach(b, ForEach(a, state, action), action)
    decreases |a|
  {
    if |a| == 0 {
      assert a + b == b;
    } else {
      assert (a + b)[1..] == a[1..] + b;
      ForEachConcat(a[1..], b, action(state, a[0]), action);
    }
  }

  /** An action that appends the entry it is given to a log. */
  function Record<T>(log: seq<T>, x: T): seq<T> {
    log + [x]
  }

  /** An action that records its argument records every entry exactly once, in traversal order. */
  lemma {:induction false} ForEachVisitsEachEntryOnce<T>(s: seq<T>, log: seq<T>)
    ensures ForEach(s, log, Record) == log + s
    decreases |s|
  {
    if |s| > 0 {
      ForEachVisitsEachEntryOnce(s[1..], log + [s[0]]);
      assert log + [s[0]] + s[1..] == log + s;
    }
  }

  /**
   The `!accumulator` test of `reduce`: JavaScript's `undefined` (a left-out initial value) and
   every value `falsy` names (0, "", null, false, NaN for the source's accumulators).
   */
  predicate Unseeded<A>(acc: Option<A>, falsy: A -> bool) {
    acc.None? || falsy(acc.value)
  }

  /**
   `reduce(fn, initial)` as written: whenever the accumulator is unseeded, the next entry
   (cast to the accumulator type by `cast`) replaces it without calling `fn`.
   */
  function Reduce<T, A>(s: seq<T>, fn: (A, T) -> A, acc: Option<A>, falsy: A -> bool, cast: T -> A): (r: Option<A>)
    ensures |s| == 0 ==> r == acc
    ensures |s| > 0 ==> r.Some?
    decreases |s|
  {
    if |s| == 0 then acc
    else if Unseeded(acc, falsy) then Reduce(s[1..], fn, Some(cast(s[0])), falsy, cast)
    else Reduce(s[1..], fn, Some(fn(acc.value, s[0])), falsy, cast)
  }

  /** `reduce` over `a + b` carries on over `b` from the accumulator `a` produced. */
  lemma {:induction false} ReduceConcat<T, A>(a: seq<T>, b: seq<T>, fn: (A, T) -> A, acc: Option<A>, falsy: A -> bool, cast: T -> A)
    ensures Reduce(a + b, fn, acc, falsy, cast) == Reduce(b, fn, Reduce(a, fn, acc, falsy, cast), falsy, cast)
    decreases |a|
  {
    if |a| == 0 {
      assert a + b == b;
    } else {
      assert (a + b)[1..] == a[1..] + b;
      var next := if Unseeded(acc, falsy) then Some(cast(a[0])) else Some(fn(acc.value, a[0]));
      ReduceConcat(a[1..], b, fn, next, falsy, cast);
    }
  }

  /**
   The re-seeding quirk: once the accumulator after a prefix `a` is unseeded, the next entry `x`
   restarts the fold and nothing in `a` affects the result.
   */
  lemma ReduceRestartsAfterFalsy<T, A>(a: seq<T>, x: T, b: seq<T>, fn: (A, T) -> A, acc: Option<A>, falsy: A -> bool, cast: T -> A)
    requires Unseeded(Reduce(a, fn, acc, falsy, cast), falsy)
    ensures Reduce(a + [x] + b, fn, acc, falsy, cast) == Reduce(b, fn, Some(cast(x)), falsy, cast)
  {
    ReduceConcat(a, [x] + b, fn, acc, falsy, cast);
    assert a + [x] + b == a + ([x] + b);
    assert ([x] + b)[1..] == b;
  }

  /** No accumulator met while folding `s` from `acc` (before the last step) is falsy. */
  ghost predicate NeverFalsy<A, T>(fn: (A, T) -> A, acc: A, s: seq<T>, falsy: A -> bool) {
    forall k :: 0 <= k < |s| ==> !falsy(FoldLeft(fn, acc, s[..k]))
  }

  /** With an initial value and no falsy accumulator on the way, `reduce` is the left fold. */
  lemma {:induction false} ReduceIsFoldWhenNeverFalsy<T, A>(s: seq<T>, fn: (A, T) -> A, init: A, falsy: A -> bool, cast: T -> A)
    requires NeverFalsy(fn, init, s, falsy)
    ensures Reduce(s, fn, Some(init), falsy, cast) == Some(FoldLeft(fn, init, s))
    decreases |s|
  {
    if |s| > 0 {
      assert s[..0] == [];
      var t := s[1..];
      var next := fn(init, s[0]);
      forall k | 0 <= k < |t|
        ensures !falsy(FoldLeft(fn, next, t[..k]))
      {
        assert s[..k + 1] == [s[0]] + t[..k];
        FoldLeftCons(fn, init, s[0], t[..k]);
      }
      ReduceIsFoldWhenNeverFalsy(t, fn, next, falsy, cast);
      assert s == [s[0]] + t;
      FoldLeftCons(fn, init, s[0], t);
    }
  }

  /**
   Without an initial value, the first entry seeds the fold and is not passed to `fn`; if no
   accumulator on the way is falsy, the result is the left fold of the rest from that seed.
   */
  lemma ReduceWithoutInitialIsFold<T, A>(s: seq<T>, fn: (A, T) -> A, falsy: A -> bool, cast: T -> A)
    requires |s| > 0
    requires NeverFalsy(fn, cast(s[0]), s[1..], falsy)
    ensures Reduce(s, fn, None, falsy, cast) == Some(FoldLeft(fn, cast(s[0]), s[1..]))
  {
    ReduceIsFoldWhenNeverFalsy(s[1..], fn, cast(s[0]), falsy, cast);
  }

  /**
   Multiplying [0, 5] with no initial value: the left fold gives 0, but `reduce` as written
   re-seeds at 5 because the accumulator 0 is falsy.
   */
  lemma ReduceReseedsOnFalsyAccumulator()
    ensures FoldLeft((a: int, x: int) => a * x, 0, [5]) == 0
    ensures Reduce([0, 5], (a: int, x: int) => a * x, None, (a: int) => a == 0, (x: int) => x) == Some(5)
  {
    assert [0, 5][1..] == [5];
    assert [5][1..] == [];
    assert [5][..0] == [];
  }

  /**
   Summing [0, 1, 2] with no initial value still gives 3 as written: re-seeding at 1 after the
   falsy 0 loses nothing under addition, so this input cannot tell the two behaviours apart.
   */
  lemma ReduceSumHidesReseed()
    ensures Reduce([0, 1, 2], (a: int, x: int) => a + x, None, (a: int) => a == 0, (x: int) => x) == Some(3)
  {
    assert [0, 1, 2][1..] == [1, 2];
    assert [1, 2][1..] == [2];
    assert [2][1..] == [];
  }

  /**
   `reduce` with the seed tracked by presence rather than truthiness: a falsy accumulator is an
   ordinary value, and the result is always the left fold.
   */
  method ReduceSeeded<T, A>(s: seq<T>, fn: (A, T) -> A, init: Option<A>, cast: T -> A) returns (r: Option<A>)
    ensures init.Some? ==> r == Some(FoldLeft(fn, init.value, s))
    ensures init.None? && |s| > 0 ==> r == Some(FoldLeft(fn, cast(s[0]), s[1..]))
    ensures init.None? && |s| == 0 ==> r == None
  {
    r := init;
    var i := 0;
    while i < |s|
      invariant 0 <= i <= |s|
      invariant r.Some? <==> init.Some? || i > 0
      invariant init.Some? ==> r == Some(FoldLeft(fn, init.value, s[..i]))
      invariant init.None? && i > 0 ==> r == Some(FoldLeft(fn, cast(s[0]), s[1..i]))
    {
      assert s[..i + 1][..i] == s[..i];
      if i > 0 {
        assert s[1..i + 1][..i - 1] == s[1..i];
      }
      if r.None? {
        r := Some(cast(s[i]));
      } else {
        r := Some(fn(r.value, s[i]));
      }
      i := i + 1;
    }
    assert s[..i] == s;
  }
}
