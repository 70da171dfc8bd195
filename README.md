# typescript-kotlin-extensions, modelled in Dafny

This project models the core of a TypeScript library that adds Kotlin-style
collection and number operations to JavaScript. Four source files are modelled:

- `src/arrays/arrays.ts`: the operations attached to `Array.prototype`.
  - Bounds-checked access, linear searches and uniqueness (`single`).
  - Counting and predicate slices (`take`, `drop`, `…While`, `slice`, `sliceIndices`, `copyOfRange`).
  - Filters that push into a caller's destination array.
  - In-place `reverseRange`.
- `src/utils/grouping.ts`: `Grouping`, whose single primitive `aggregateTo` folds the source into a key-to-accumulator `Map` in place. `fold`, `foldTo`, `foldInitial`, `foldToInitial`, `eachCount`, `eachCountTo`, `reduce` and `reduceTo` are all thin wrappers around it.
- `src/utils/comparable.ts`: the comparator kit (`compareValues`, `compareBy`, `NaturalOrder`, …).
- `src/numbers/numbers.ts`: `compareTo`, `coerceAtLeast`, `coerceAtMost` and `coerceIn` on numbers, modelled on integers.

Modules and files:

| file | module | contents |
|---|---|---|
| `js_values.dfy` | `JsValues` | The JavaScript values the results are made of: `undefined` / `null` / a value (`Nullish`), a thrown `Error` (`Result`, `Outcome`), the `or null` and `or undefined` fallbacks, and the decimal text of `${n}`. |
| `numbers.dfy` | `Numbers` | The integer helpers. |
| `comparables.dfy` | `Comparables` | The comparator kit. A comparator is a function `(T, T) -> int`. |
| `sequences.dfy` | `Sequences` | The reference definitions the array operations are proved against: first and last index where a predicate holds, filter, gather by indices. |
| `arrays.dfy` | `Arrays` | The array operations. |
| `groupings.dfy` | `Groupings` | The grouping aggregator. |

How the source's features are modelled:

- **Receivers.** An array that is only read is a `seq<T>`. `reverseRange` works on an `array<T>` in place. A caller's destination is a class whose field the operation updates: `ArrayDestination` with a `seq` field, or `MapDestination` with a `map` field and the sequence of its keys in insertion order, which is the order a `Map` iterates in.
- **Loops.** Operations written as loops are methods with loop invariants. Each is proved against a reference function.
- **Truthiness and `null`.** Which element values are falsy, and which are `null`, is not fixed by an element type. It is given as a parameter (`falsy`, `isNull`).
- **Results.** A result that may be absent is a `Nullish<T>`. An operation that throws returns `Err(message)` carrying the exact message text.

## Model

| member | source | states |
|---|---|---|
| `JsValues.OrNull` | src/arrays/arrays.ts:56-59 | `v` or else `null`: a truthy value is kept; anything else becomes `null`, never `undefined`. |
| `JsValues.OrUndefined` | src/arrays/arrays.ts:14-16 | `v` or else `undefined`: a truthy value is kept; anything else becomes `undefined`. |
| `Numbers.CompareTo` | src/numbers/numbers.ts:2-4 | 0 iff equal, 1 iff greater, -1 iff smaller. |
| `Numbers.CompareToAntisymmetric` | src/numbers/numbers.ts:2-4 | Swapping the operands negates the result, which is always in {-1, 0, 1}. |
| `Numbers.CoerceAtLeast` | src/numbers/numbers.ts:6-8 | The result is at least both arguments and is one of them: the maximum. |
| `Numbers.CoerceAtMost` | src/numbers/numbers.ts:9-11 | The result is at most both arguments and is one of them: the minimum. |
| `Numbers.CoerceIn` | src/numbers/numbers.ts:12-14 | Below the minimum gives the minimum; inside the range gives the value; at least the minimum and above the maximum gives the maximum, so an empty range yields the minimum or the maximum. On a non-empty range the result lies in it and equals `coerceAtMost(coerceAtLeast(x, min), max)`. |
| `Numbers.CoerceIdempotent` | src/numbers/numbers.ts:6-14 | Applying `coerceAtLeast` or `coerceAtMost` a second time changes nothing, and so does applying `coerceIn` a second time on a non-empty range. On an empty range `coerceIn` is not idempotent, since the lower bound is tested first. |
| `Comparables.NaturalOrder` | src/utils/comparable.ts:7-9 | The comparator is the elements' own `compareTo`. |
| `Comparables.ReverseOrder` | src/utils/comparable.ts:11-13 | `ReverseOrder()(a, b)` equals `NaturalOrder()(b, a)`. |
| `Comparables.GetReversedComparator` | src/utils/comparable.ts:15-19 | The reversed comparator at `(a, b)` is the original at `(b, a)`. |
| `Comparables.CompareValues` | src/utils/comparable.ts:41-50 | Identical values give 0, including two `null`s. `null` against a value gives -1; a value against `null` gives 1. Two distinct values defer to `compareTo`. |
| `Comparables.CompareBy` | src/utils/comparable.ts:21-25 | The comparator applies `compareValues` to the selected values. |
| `Comparables.CompareByDescending` | src/utils/comparable.ts:27-31 | At `(a, b)` it equals `compareBy` at `(b, a)`. |
| `Comparables.CompareValuesBy` | src/utils/comparable.ts:33-39 | It equals one application of `compareBy(selector)`. |
| `Comparables.NullSortsFirst` | src/utils/comparable.ts:45-47 | `null` never compares greater than anything, and nothing compares less than `null`. |
| `Comparables.CompareValuesAntisymmetric` | src/utils/comparable.ts:41-50 | If `compareTo` is antisymmetric in sign, so is `compareValues`. |
| `Comparables.DerivedComparatorsAntisymmetric` | src/utils/comparable.ts:7-31 | Natural, reverse, reversed, by-key and by-key-descending comparators keep the sign antisymmetry of the `compareTo` they are built on. |
| `Comparables.ReversedTwice` | src/utils/comparable.ts:11-19 | Reversing a comparator twice restores it. `ReverseOrder` is the reversed `NaturalOrder`. |
| `Sequences.FilterAppend` | src/arrays/arrays.ts:222-225 | Filtering distributes over concatenation, so selected elements keep their source order. |
| `Sequences.FilterPartition` | src/arrays/arrays.ts:218-225 | The elements kept by `filterTo(p)` and by `filterNotTo(p)` partition the source, as a multiset and in number. |
| `Sequences.FilterUniqueMatch` | src/arrays/arrays.ts:137-155 | When exactly one element matches, the filtered sequence is exactly that element. |
| `Sequences.GatherSkipsOutOfBound` | src/arrays/arrays.ts:230-239 | An out-of-bound index contributes nothing to `sliceIndices`. |
| `Sequences.GatherInBound` | src/arrays/arrays.ts:230-239 | With all indices in bound, `sliceIndices` yields `s[indices[k]]` at each position `k`. |
| `Arrays.IsInBound` | src/arrays/arrays.ts:320-322 | True iff `0 <= index < length`. |
| `Arrays.IsIndicesEmpty` | src/arrays/arrays.ts:332-334 | True iff `endInclusive <= start`. |
| `Arrays.CheckRangeIndexes` | src/arrays/arrays.ts:336-349 | Passes iff `0 <= fromIndex <= toIndex <= size`. The bounds error (with its message) is raised before the order error. |
| `Arrays.ElementAtOrElse` | src/arrays/arrays.ts:8-10 | `s[index]` in bound; otherwise `defaultValue(index)`. |
| `Arrays.ElementAtOrNull` | src/arrays/arrays.ts:11-13 | `s[index]` in bound; otherwise `null`. |
| `Arrays.GetOrElse` | src/arrays/arrays.ts:63-65 | `s[index]` in bound; otherwise `defaultValue(index)`. |
| `Arrays.GetOrNull` | src/arrays/arrays.ts:66-68 | `s[index]` in bound; otherwise `null`. |
| `Arrays.FirstOrNull` | src/arrays/arrays.ts:56-62 | With a predicate: the element at the first matching index, or `null`. Without one: the first element unless the array is empty or that element is falsy, else `null`. |
| `Arrays.LastOrNull` | src/arrays/arrays.ts:111-121 | With a predicate: the element at the last matching index, or `null`. Without one: the last element unless the array is empty or it is falsy. |
| `Arrays.Find` | src/arrays/arrays.ts:14-16 | The first match, or `undefined` when there is none or it is falsy. |
| `Arrays.FindLast` | src/arrays/arrays.ts:17-19 | The last match, or `undefined` when there is none or it is falsy. |
| `Arrays.First` | src/arrays/arrays.ts:20-24 | Without a predicate: the first element, or `undefined` on an empty array (it never fails). With one: as `find`. |
| `Arrays.Last` | src/arrays/arrays.ts:25-29 | Without a predicate: the last element, or `undefined` on an empty array. With one: as `findLast`. |
| `Arrays.FirstNotNullOfOrNull` | src/arrays/arrays.ts:34-42 | The transform of the first element whose transform is not `null`; `null` if there is none. |
| `Arrays.FirstNotNullOf` | src/arrays/arrays.ts:30-33 | As above, with `undefined` in place of a missing or falsy result. |
| `Arrays.FirstTruthyOfOrNull` | src/arrays/arrays.ts:47-55 | The transform of the first element whose transform is truthy; `null` if there is none. |
| `Arrays.FirstTruthyOf` | src/arrays/arrays.ts:43-46 | As above, with `undefined` in place of `null`. |
| `Arrays.IndexOf` | src/arrays/arrays.ts:69-82 | The first index holding the element, with no earlier occurrence; -1 iff the element does not occur. |
| `Arrays.LastIndexOf` | src/arrays/arrays.ts:97-110 | The last index holding the element, with no later occurrence; -1 iff the element does not occur. |
| `Arrays.IndexOfFirst` | src/arrays/arrays.ts:83-89 | The least index whose element satisfies the predicate, or -1. |
| `Arrays.IndexOfLast` | src/arrays/arrays.ts:90-96 | The greatest index whose element satisfies the predicate, or -1. |
| `Arrays.Single` | src/arrays/arrays.ts:128-156 | Without a predicate: `s[0]` iff the length is 1, else "Array is empty." or "Array has more than one element.". With one: the unique match, else "Array contains no element matching the predicate." (none) or "Array contains more than one matching element." (two or more). |
| `Arrays.SingleOrNull` | src/arrays/arrays.ts:157-175 | The same cases as `single`, with `null` in every failing case. |
| `Arrays.SingleMatchIsUnique` | src/arrays/arrays.ts:137-155 | When exactly one element matches, the element `single` returns equals every matching element. |
| `Arrays.Take` | src/arrays/arrays.ts:240-255 | A negative count fails with the count message. `take(k)` is `s[..k]` for `k <= length`, and the whole array beyond it. |
| `Arrays.TakeLast` | src/arrays/arrays.ts:256-269 | A negative count fails. `takeLast(k)` is the last `k` elements for `k <= length`, and the whole array beyond it. |
| `Arrays.Drop` | src/arrays/arrays.ts:176-180 | A negative count fails. `drop(k)` is `s[k..]`, so `take(k) + drop(k) == s`. Beyond the length it is empty. |
| `Arrays.DropLast` | src/arrays/arrays.ts:181-185 | A negative count fails. `dropLast(k)` is `s[..length-k]`, completed by the last `k` elements. Beyond the length it is empty. |
| `Arrays.TakeWhile` | src/arrays/arrays.ts:278-285 | The longest prefix whose elements all satisfy the predicate. |
| `Arrays.DropWhile` | src/arrays/arrays.ts:195-207 | Everything from the first failing element on; `takeWhile` followed by `dropWhile` is the whole array. |
| `Arrays.DropLastWhile` | src/arrays/arrays.ts:186-194 | Everything up to and including the last failing element. It is empty when every element matches. |
| `Arrays.TakeLastWhile` | src/arrays/arrays.ts:270-277 | Everything after the last failing element; when some element fails, `dropLastWhile` followed by it is the whole array. When every element matches it is empty, as written. |
| `Arrays.FilterTo` | src/arrays/arrays.ts:222-225 | Returns the destination it was given. Its old contents stay as a prefix, followed by the matching elements in order. |
| `Arrays.FilterNotTo` | src/arrays/arrays.ts:218-221 | As `filterTo`, with the elements that do not match. |
| `Arrays.FilterNotNullTo` | src/arrays/arrays.ts:214-217 | As `filterTo`, with the elements that are not `null`. |
| `Arrays.FilterNot` | src/arrays/arrays.ts:208-210 | The elements that do not match, in order; no result element matches. |
| `Arrays.FilterNotNull` | src/arrays/arrays.ts:211-213 | The elements that are not `null`, in order. |
| `Arrays.CopyOfRange` | src/arrays/arrays.ts:310-314 | Position `j` holds `at(start + j)`. The length is `end - start` (0 when `end <= start`). On a valid range it is exactly `s[start..end]`. |
| `Arrays.Slice` | src/arrays/arrays.ts:226-229 | Empty when `endInclusive <= start`, so `slice(i, i)` is empty. Otherwise both ends are included. |
| `Arrays.SliceIndices` | src/arrays/arrays.ts:230-239 | The elements at the in-bound indices, in the given order; the others are skipped. |
| `Arrays.Reversed` | src/arrays/arrays.ts:298-300 | Same length; position `i` holds `s[length-1-i]`. |
| `Arrays.ReversedTwice` | src/arrays/arrays.ts:298-300 | Reversing twice gives back the original. |
| `Arrays.MirroredIsReversed` | src/arrays/arrays.ts:290-296 | Mirroring every position of a range through its midpoint is the range reversed, with the rest untouched. |
| `Arrays.ReverseRange` | src/arrays/arrays.ts:286-297 | An invalid range fails as `checkRangeIndexes` does and leaves the array untouched. A valid one leaves exactly the prefix, the reversed range and the suffix. |
| `Arrays.TakeAsWritten` | src/arrays/arrays.ts:240-255 | `take` exactly as written: negative counts fail, count 1 always yields one element, other counts yield `min(n, length)` elements. |
| `Arrays.TakeLastAsWritten` | src/arrays/arrays.ts:256-269 | `takeLast` exactly as written: negative counts fail, any other count yields exactly `n` elements. |
| `Arrays.TakeAsWrittenAgrees` | src/arrays/arrays.ts:240-255 | Apart from `take(1)` on an empty array, the code as written returns the first `min(n, length)` elements. |
| `Arrays.TakeOneOfEmpty` | src/arrays/arrays.ts:245-246 | `[].take(1)` is `[undefined]`. |
| `Arrays.TakeLastAsWrittenAgrees` | src/arrays/arrays.ts:256-268 | For counts up to the length, the code as written returns the last `n` elements, which is all `drop` and `takeLastWhile` ever ask of it. |
| `Arrays.TakeLastWrapsRound` | src/arrays/arrays.ts:261-268 | `[1, 2, 3].takeLast(4)` is `[3, 1, 2, 3]`. |
| `Groupings.Group` | src/utils/grouping.ts:26-28 | The group of `k` holds exactly the source elements whose key is `k`. |
| `Groupings.Step` | src/utils/grouping.ts:27-37 | One loop turn adds the element's key and leaves every other entry alone. |
| `Groupings.Aggregated` | src/utils/grouping.ts:26-39 | After `aggregateTo`, the key set is the old keys plus the keys of the source elements. |
| `Groupings.AggregatedPerKey` | src/utils/grouping.ts:26-39 | Each key's final entry is its prior entry folded, in source order, over the elements of its group. |
| `Groupings.AggregatedLeavesOtherKeys` | src/utils/grouping.ts:26-39 | A key that no source element has keeps its entry, or its absence. |
| `Groupings.FirstFlag` | src/utils/grouping.ts:28-35 | `first` is set for an element exactly when the destination had no entry for its key and no earlier element has that key. |
| `Groupings.KeyFoldContinues` | src/utils/grouping.ts:66-75 | Once a key has a value, an aggregator that then applies `f` computes the left fold of `f`. |
| `Groupings.KeyFoldStarts` | src/utils/grouping.ts:26-39 | A key without a value is seeded by the operation applied to its group's first element with `first` set. |
| `Groupings.FoldPerKey` | src/utils/grouping.ts:62-118 | The `fold` aggregator leaves, per key, the left fold of `operation` over the group. The seed is the value already present, or else `initialValueSelector(k, first element)`. |
| `Groupings.FoldInitialPerKey` | src/utils/grouping.ts:134-164 | The `foldInitial` aggregator leaves, per key, the left fold over the group. The seed is the value already present, or else `initialValue`. |
| `Groupings.FoldLeftIncrement` | src/utils/grouping.ts:174-176 | Folding the counting step adds the number of elements. |
| `Groupings.EachCountPerKey` | src/utils/grouping.ts:166-176 | Per key, `eachCountTo` leaves the prior count (0 if absent) plus the group's size. |
| `Groupings.ReducePerKey` | src/utils/grouping.ts:202-232 | The `reduce` aggregator starts from the group's first element and folds the rest. When a value is already present, it folds the whole group from that value. |
| `Groupings.MapDestination.Set` | src/utils/grouping.ts:29-37 | `set` stores the value; a new key goes to the end of the iteration order and an existing key keeps its place. |
| `Groupings.AggregateStep` | src/utils/grouping.ts:26-38 | One loop turn stores the operation's result for the element's key, with `first` set iff the map has no entry for it, and appends the key to the order iff it is new. |
| `Groupings.InsertionOrderKeys` | src/utils/grouping.ts:26-38 | After aggregation the order lists the keys it listed before, and the source's keys that were not present, and nothing else. |
| `Groupings.InsertionOrderGrows` | src/utils/grouping.ts:26-38 | The order after a prefix of the source is a prefix of the final order: keys already present come first and no key moves once added. |
| `Groupings.InsertionOrderDistinct` | src/utils/grouping.ts:26-38 | Starting from an order whose keys are present and distinct, every key is listed once. |
| `Groupings.InsertionOrderKeepsValid` | src/utils/grouping.ts:26-38 | If the order lists each key of the map exactly once, it still does after aggregation. |
| `Groupings.InsertionOrderFollowsSource` | src/utils/grouping.ts:26-38 | New keys follow the keys already present, in the order in which their first elements occur in the source. |
| `Groupings.FoldOp` | src/utils/grouping.ts:66-74 | The `fold` lambda: on a group's first element it applies `operation` to `initialValueSelector(key, element)`; afterwards to the accumulated value. |
| `Groupings.FoldInitialOp` | src/utils/grouping.ts:138 | The `foldInitial` lambda: on a group's first element it applies `operation` to `initialValue`; afterwards to the accumulated value. |
| `Groupings.Increment` | src/utils/grouping.ts:175 | The counting step adds one for each element, whatever the element. |
| `Groupings.ReduceOp` | src/utils/grouping.ts:203 | The `reduce` lambda: a group's first element becomes the accumulator; afterwards `operation` folds the element into it. |
| `Groupings.AggregateTo` | src/utils/grouping.ts:17-40 | Returns the same destination. Its new contents are the old contents with the source aggregated into them. New keys are appended to its iteration order in first-occurrence order, and an order listing each key once stays so. |
| `Groupings.Aggregate` | src/utils/grouping.ts:6-15 | Starts from an empty map. The keys are the source's keys; each maps to the operation folded over its group. The map iterates over each of its keys once, in the order their first elements occur. |
| `Groupings.Fold` | src/utils/grouping.ts:62-76 | The keys are the source's keys. Each maps to the fold of its group seeded by the selector on its first element. Its keys iterate in first-occurrence order. |
| `Groupings.FoldTo` | src/utils/grouping.ts:102-118 | Returns the destination, with keys added. Each key's fold is seeded by the value already present, or else by the selector. New keys go after the existing ones, in first-occurrence order. |
| `Groupings.FoldInitial` | src/utils/grouping.ts:134-139 | Each key of the source maps to the left fold of its group from `initialValue`. Its keys iterate in first-occurrence order. |
| `Groupings.FoldToInitial` | src/utils/grouping.ts:158-164 | Returns the destination, with keys added. A value already present replaces `initialValue` as the seed. New keys go after the existing ones, in first-occurrence order. |
| `Groupings.EachCountTo` | src/utils/grouping.ts:174-176 | Each key's count is increased by its group's size; a missing count starts at 0. New keys go after the existing ones, in first-occurrence order. |
| `Groupings.EachCount` | src/utils/grouping.ts:179-181 | Each key of the source maps to its group's size, which is positive. Its keys iterate in first-occurrence order. |
| `Groupings.Reduce` | src/utils/grouping.ts:202-204 | Each key maps to its group's first element folded with the rest. A one-element group maps to that element. Its keys iterate in first-occurrence order. |
| `Groupings.ReduceTo` | src/utils/grouping.ts:226-232 | Returns the destination. A key already present folds its whole group, the first element included, from the stored value. New keys go after the existing ones, in first-occurrence order. |

## Left out

- `random`, `randomOrNull` and `shuffle` (src/arrays/arrays.ts:122-127, 301-308) draw from an external random-number library that is not part of this model.
- `contains` and `elementAt` (src/arrays/arrays.ts:6-7) are plain aliases of host built-ins. `at` appears as `Arrays.At`.
- `forEachBackwards` (src/arrays/arrays.ts:324-330) is a helper that nothing calls.
- The operations exercised only in `src/arrays/arrays.test.ts` (sorting, `associate*`, `copyOf`, `copyInto`, `contentEquals`, `fill`, …) have no implementation in the modelled files.
- `src/utils/generators.ts` is not part of this model. The grouping source is a finite sequence rather than an iterator.
- Numbers are unbounded integers. Floating point, `NaN` and fractional indices are not modelled.
- JavaScript truthiness and `null`-ness of elements are parameters (`falsy`, `isNull`) and are not derived from a type.
- `Arrays.FilterNot`: the result is a value. That it is a fresh array distinct from the receiver is not stated. The same holds for `reversed` and `filterNotNull`.
- `Arrays.FilterTo`: a destination that is the receiver itself (aliasing) is not modelled, since the receiver is a value.
- `Arrays.IndexOf`: the source's separate scan for a `null` element is folded into the equality scan, because it returns the same index.
- `Arrays.FirstOrNull`: a matching element that is itself `null` cannot be told apart from "no match" in the source. The model returns it as a value.
- `Comparables.CompareValues`: the identity test `a === b` is modelled as equality of values. Two distinct but equal objects would consult `compareTo` in the source. `undefined` operands are not modelled.
- `Groupings.Reduce`: the accumulator type is the element type. The source allows a supertype of it.
- `Groupings.FoldOp`, `Groupings.FoldInitialOp`, `Groupings.ReduceOp`: the `accumulator as R` (or `acc as S`) cast on a non-first element is modelled as reading the stored value. For a missing value there, which `aggregateTo` never passes, `FoldOp` uses `initialValueSelector(key, element)`, `FoldInitialOp` uses `initialValue` and `ReduceOp` uses the element itself.
- Predicates, transforms, selectors, comparators and grouping operations are total, pure Dafny functions. An exception thrown by a callback, which the source lets propagate unchanged, and side effects of callbacks are not modelled.

## Findings

| source | as written | input that shows it | evidently intended | confidence | as-written member | corrected member |
|---|---|---|---|---|---|---|
| src/arrays/arrays.ts:245-246 | `if (n >= this.length) [...this]` has no `return`, so `take(1)` goes on to return `[this.at(0)]` | `[].take(1)` returns `[undefined]` | return a copy of the whole array when `n >= length`, so `[].take(1)` is `[]` | not executed | `Arrays.TakeOneOfEmpty` | `Arrays.Take` |
| src/arrays/arrays.ts:261-266 | `if (n >= this.length) [...this]` has no `return`, so the loop starts at the negative index `length - n`, where `at` wraps around | `[1, 2, 3].takeLast(4)` returns `[3, 1, 2, 3]` | return a copy of the whole array when `n >= length`, so `[1, 2, 3].takeLast(4)` is `[1, 2, 3]` | not executed | `Arrays.TakeLastWrapsRound` | `Arrays.TakeLast` |
