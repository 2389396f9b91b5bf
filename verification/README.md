# Asynchronous dataset combinators, modelled in Dafny

This project models `AsyncDatasetImplementation`, the combinator layer of an RDF-style dataset
library (src/implementation/async/async-dataset-implementation.ts). A dataset is a sequence of opaque
entries, read one at a time. The class adds the following on top of a core class that is not part of
this model:

- lazy operators that derive a new dataset: `filter`, `except`, `match`, `map`, `union`,
  `intersection` and `difference`;
- terminal operators that consume a dataset: `contains`, `equals`, `every`, `some`, `forEach` and
  `reduce`.

The asynchronous generators are modelled as the finite sequence they yield once drained. Every
operator becomes a pure function over `seq<T>`. The core's membership oracle `has` and the context's
`isMatch` are function parameters. So are the caller's predicate, transform, action and combine
function. `hasAny` is "the sequence is non-empty". Entries are never compared by the model itself;
only the specifications (ghost) speak of entry equality and multiplicity.

Modules:

- `Seqs`: order-preserving subsequences and their multisets.
- `Wrappers`: `Option`, where `None` stands for JavaScript's `undefined`.
- `Filtering`: the negatable filter primitive, `filter`, `except`, `match`, `every` and `some`.
- `SetAlgebra`: `union`, `intersection`, `difference`, `contains` and `equals`.
- `Traversal`: `map`, `forEach` and `reduce`.
- `ShortCircuit`: how many entries `every`, `some` and `contains` pull before they answer.

Where the model departs from the code:

- `map`, `union` and `filterNegatable` build their generator with `async function *` and call it as
  `generator()`. So `this` inside the generator is not bound to the receiver. The model takes the
  receiver's entries as an explicit argument, which is what the code evidently means.
- The first loop of `union` is a synchronous `for ... of this`. The model reads it as a traversal of
  the receiver's entries.
- `difference(other)` yields the entries of `other` that the receiver does not have. That is
  other minus this, not this minus other. The model follows the code.

## Model

| member | source | states |
|---|---|---|
| Filtering.FilterNegatable | src/implementation/async/async-dataset-implementation.ts:123-136 | The result is an order-preserving subsequence of the receiver. It holds every copy of each entry passing `negate ? !p : p`, and no copy of any other entry. |
| Filtering.FilterNegatableCharacterised | src/implementation/async/async-dataset-implementation.ts:123-136 | Being an order-preserving subsequence that keeps exactly the passing entries is equivalent to being the filter's result. Both directions are proved, so the pair of properties is a complete independent definition. |
| Filtering.Filter | src/implementation/async/async-dataset-implementation.ts:115-117 | `filter(p)` yields exactly the receiver's entries satisfying `p`, each with its multiplicity, in the receiver's order. |
| Filtering.Except | src/implementation/async/async-dataset-implementation.ts:119-121 | `except(p)` yields exactly the receiver's entries failing `p`, each with its multiplicity, in the receiver's order. |
| Filtering.Match | src/implementation/async/async-dataset-implementation.ts:111-113 | `match(find)` yields exactly the entries for which `isMatch(entry, find)` holds, in order. |
| Filtering.FilterExceptPartition | src/implementation/async/async-dataset-implementation.ts:115-121 | Every copy of every entry lands in exactly one of `filter(p)` and `except(p)`. The two multisets sum to the receiver's multiset, and the two lengths sum to its length. |
| Filtering.Every | src/implementation/async/async-dataset-implementation.ts:44-46 | `every(p)` (no entry left after `except(p)`) holds iff every entry satisfies `p`. |
| Filtering.SomeSatisfies | src/implementation/async/async-dataset-implementation.ts:107-109 | `some(p)` (`filter(p)` has an entry) holds iff some entry satisfies `p`. |
| Filtering.EveryIsNotSomeNot | src/implementation/async/async-dataset-implementation.ts:44-46 | `every(p) == !some(not p)`. On an empty dataset `every` holds and `some` does not. |
| SetAlgebra.Union | src/implementation/async/async-dataset-implementation.ts:92-105 | The receiver comes first, unchanged, as a prefix. After it come the entries of `other` that fail `has`, in `other`'s order. Each entry occurs as often as in the receiver plus, when it fails `has`, as often as in `other`. So duplicates inside `other` are kept. |
| SetAlgebra.Intersection | src/implementation/async/async-dataset-implementation.ts:62-67 | The result is an order-preserving subsequence of `other` holding exactly its entries with `has`, each with its multiplicity in `other`. |
| SetAlgebra.Difference | src/implementation/async/async-dataset-implementation.ts:33-37 | The result is an order-preserving subsequence of `other` holding exactly its entries without `has`, each with its multiplicity in `other`. |
| SetAlgebra.IntersectionDifferencePartition | src/implementation/async/async-dataset-implementation.ts:33-67 | `intersection(other)` and `difference(other)` partition `other`: their multisets and their lengths add up to those of `other`. |
| SetAlgebra.SetSemantics | src/implementation/async/async-dataset-implementation.ts:27-105 | Suppose `has` is exact for the receiver's entries. Then `union` is set union and adds no second copy of a receiver entry. `intersection` is set intersection. `difference` is other minus receiver. `contains` is inclusion of `other` in the receiver. |
| SetAlgebra.NumericExample | src/implementation/async/async-dataset-implementation.ts:33-105 | For A = [1,2,3] and B = [2,3,4]: union is [1,2,3,4], intersection is [2,3] in B's order, and difference is [4]. |
| SetAlgebra.Contains | src/implementation/async/async-dataset-implementation.ts:27-31 | `contains(other)` holds iff every entry of `other` satisfies the receiver's `has`. |
| SetAlgebra.Equals | src/implementation/async/async-dataset-implementation.ts:39-42 | `equals(other)` as written holds iff every entry of `other` satisfies `has`. The reverse direction is not checked. |
| SetAlgebra.EqualsIsContains | src/implementation/async/async-dataset-implementation.ts:39-42 | `equals` and `contains` agree on every input. |
| SetAlgebra.EqualsIsOneDirectional | src/implementation/async/async-dataset-implementation.ts:39-42 | `equals` is not symmetric. A receiver {1,2} "equals" [1], but a receiver {1} does not "equal" [1,2]. |
| SetAlgebra.SetEquals | src/implementation/async/async-dataset-implementation.ts:39-42 | Corrected `equals`: containment in both directions, using each side's own membership oracle. |
| SetAlgebra.SetEqualsIsSetEquality | src/implementation/async/async-dataset-implementation.ts:39-42 | When both oracles are exact, the corrected `equals` is exactly equality of the sets of entries, and it is symmetric. |
| Traversal.Map | src/implementation/async/async-dataset-implementation.ts:69-77 | `map(f)` has the receiver's length, and its entry i is `f` of the receiver's entry i. |
| Traversal.MapConcat | src/implementation/async/async-dataset-implementation.ts:69-77 | Mapping a concatenation maps each part in place, so `map` keeps the traversal order. |
| Traversal.MapCompose | src/implementation/async/async-dataset-implementation.ts:69-77 | Two consecutive `map`s equal one `map` by the composed transform. |
| Traversal.ForEach | src/implementation/async/async-dataset-implementation.ts:48-53 | The state left by `forEach` is the left fold of the action over the entries, first to last. |
| Traversal.ForEachConcat | src/implementation/async/async-dataset-implementation.ts:48-53 | Running over `a + b` runs over all of `a` first, then over `b` from the state `a` left behind. |
| Traversal.ForEachVisitsEachEntryOnce | src/implementation/async/async-dataset-implementation.ts:48-53 | An action that logs its argument logs exactly the receiver's entries, each once, in order. |
| Traversal.Reduce | src/implementation/async/async-dataset-implementation.ts:79-90 | On an empty dataset `reduce` returns the initial value, or none. Otherwise it returns a value. |
| Traversal.ReduceConcat | src/implementation/async/async-dataset-implementation.ts:79-90 | `reduce` over `a + b` continues over `b` from the accumulator that `a` produced. |
| Traversal.ReduceRestartsAfterFalsy | src/implementation/async/async-dataset-implementation.ts:83-86 | Whenever the accumulator is absent or falsy, the next entry replaces it without calling `fn`. Everything before that entry is forgotten. |
| Traversal.ReduceIsFoldWhenNeverFalsy | src/implementation/async/async-dataset-implementation.ts:79-90 | With an initial value and no falsy accumulator along the way, `reduce` is the left fold from that initial value. |
| Traversal.ReduceWithoutInitialIsFold | src/implementation/async/async-dataset-implementation.ts:79-90 | With no initial value, a non-empty dataset and no falsy accumulator along the way, `reduce` is the left fold of the rest, seeded by the first entry, which is not passed to `fn`. |
| Traversal.ReduceReseedsOnFalsyAccumulator | src/implementation/async/async-dataset-implementation.ts:83-86 | Multiplying [0,5] with no initial value gives 5 as written. The left fold gives 0. |
| Traversal.ReduceSumHidesReseed | src/implementation/async/async-dataset-implementation.ts:79-90 | Summing [0,1,2] with no initial value gives 3 even as written, so this input cannot expose the re-seeding. |
| Traversal.ReduceSeeded | src/implementation/async/async-dataset-implementation.ts:79-90 | Corrected `reduce` tracks whether a seed is present instead of testing truthiness. Its result is always the left fold, from the initial value or else from the first entry. An empty dataset with no initial value gives none. |
| ShortCircuit.EveryPulling | src/implementation/async/async-dataset-implementation.ts:44-46 | Under the `hasAny` and wrapper assumptions named under "Left out": `every(p)` pulls entries up to and including the first one that fails `p`, or all of them if none fails. Its answer is `Every`. |
| ShortCircuit.SomePulling | src/implementation/async/async-dataset-implementation.ts:107-109 | Under the `hasAny` and wrapper assumptions named under "Left out": `some(p)` pulls entries up to and including the first one that passes `p`, or all of them if none passes. Its answer is `SomeSatisfies`. |
| ShortCircuit.ContainsPulling | src/implementation/async/async-dataset-implementation.ts:27-31 | Under the `hasAny` and wrapper assumptions named under "Left out": `contains(other)` pulls `other` up to and including its first non-member. If the first entry is a non-member, exactly one entry is pulled. |

## Left out

- `addAll` (lines 21-25) and `import` (lines 55-60): they delegate to the core's `add` and to the context's `drain`. The store behind those is not part of this model. Also, `addAll`'s `forEach` calls `add` without awaiting it, so the inserts are not serialised by this code.
- The asynchronous machinery (`for await`, async generators, promises, suspension, cancelling a producer): every dataset is the finite sequence it yields. `ShortCircuit` keeps only the count of entries pulled.
- The checks that tell a plain function from an object with `test`/`map`/`run`, and the `bind` calls: every callback is one function parameter. The dataset argument passed to every callback is the same throughout a call, so it is dropped.
- Failures raised by callbacks or by the source: each callback is total, so there is no error path.
- `has`, `hasAny`, `isMatch` and `toArray` live in the core and context classes, which are not part of this model. `has` is taken as a synchronous boolean oracle, `isMatch` as a given predicate, and `hasAny(s)` as `|s| > 0`. Lines 29, 35, 41, 65 and 99 use `this.has(value)` (or `that.has(value)`, with `that = this` at lines 40 and 63) without `await`, while line 45 awaits `hasAny()`. If the core's `has` returns a promise, every `has`-based operator (`contains`, `equals`, `difference`, `intersection`, `union`) sees a truthy value. SetAlgebra.SetSemantics and the other `has`-based contracts are about a `has` that returns a boolean, not a promise.
- The unbound `this` in the generators of `map`, `union` and `filterNegatable`: the model passes the receiver explicitly instead of modelling the runtime failure.
- Filtering.FilterNegatable: the predicate is taken as returning a boolean, not a promise. Line 130 passes `fn(value, this)` to `negateIfNeeded` without `await`; a promise is truthy, so with a promise-returning predicate `filter` would keep every entry and `except` none, which would change `every`, `some`, `contains`, `intersection` and `difference` accordingly.
- Traversal.Reduce: JavaScript truthiness is a `falsy` parameter, and the unchecked cast of an entry to the accumulator type is a `cast` parameter. The combine function is taken as returning an accumulator, not a promise: line 87 stores `fn(accumulator, value, this)` without `await`, so a promise-returning `fn` would thread promises through the fold. When `fn` returns `undefined` (line 87), the model writes that as a value `u` with `falsy(u)`, not as `None`. So `r.Some?` on a non-empty dataset means "the last step ran"; it does not mean "the result is not `undefined`".
- Traversal.ForEach: the model threads a state from one action run to the next, which is right only for synchronous actions. Line 51 calls `fn(value, this)` without `await`, so the runs of an action that returns a promise overlap and may finish in any order.
- ShortCircuit.EveryPulling: line 45 does no pulling itself; it awaits `hasAny()` on `except(p)`. The pull count assumes that the core's `hasAny` takes one entry and then closes the sequence, and that the dataset wrapper does not read ahead. The loop states the resulting short-circuit rule; the core and the factory are not part of this model.
- ShortCircuit.SomePulling: line 108 returns `hasAny()` of `filter(p)`, without `await`. The pull count rests on the same two assumptions about `hasAny` and the wrapper as `every`.
- ShortCircuit.ContainsPulling: lines 28-30 call `every` on the wrapped `other`. The pull count rests on the same two assumptions about `hasAny` and the wrapper as `every`.
- src/dataset/types/dataset.ts and src/index.ts: interface signatures and factory wiring, with no behaviour of their own.

## Findings

| source | as written | input that shows it | evidently intended | confidence | as-written member | corrected member |
|---|---|---|---|---|---|---|
| src/implementation/async/async-dataset-implementation.ts:83-86 | `reduce` re-seeds with the next entry whenever the accumulator is falsy, not only when no initial value was given | multiply [0, 5] with no initial value: gives 5 | a left fold seeded once (by the initial value, or else by the first entry), giving 0 | high; not executed | Traversal.Reduce, Traversal.ReduceReseedsOnFalsyAccumulator | Traversal.ReduceSeeded |
| src/implementation/async/async-dataset-implementation.ts:39-42 | `equals(other)` checks only that every entry of `other` is in the receiver | receiver {1, 2}, other [1]: gives true | containment in both directions | medium (the name promises equality); not executed | SetAlgebra.Equals, SetAlgebra.EqualsIsOneDirectional | SetAlgebra.SetEquals |
