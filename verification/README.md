# Sake decomposition search, modelled in Dafny

Sake's `Decomposer` (Sake/DecomposeMixer.cs) splits a positive target
amount into a small combination of standard denominations. The table of
denominations is sorted from largest to smallest. `Decompose(target,
tolerance, maxCount)` works as follows:

- It checks its arguments.
- It drops the denominations above the target.
- It runs a pruned recursive search. Each branch picks table indices in
  non-decreasing order and packs them, one byte per pick, into a 64-bit
  accumulator.
- It returns triples `(sum, count, decomposition)`, capped at 5000 per
  search and 10000 overall.

`ToRealValuesArray` turns a packed decomposition back into the
denominations it stands for.

The model has these modules:

- `LinqEx`: `Take` and the project's `TakeUntil` extension, on finite
  sequences.
- `ReverseComparer`: the comparer that makes the descending table look
  ascending to `Array.BinarySearch`.
- `Packing`: the byte accumulator (`PushIndex`, `Encode`, `Indices`,
  `ByteAt`) and its round trip.
- `Decomposer`: the argument checks, the table truncation, the binary
  `Search`, the pruning run, the recursive enumerator (`Combinations`,
  `Children`, `Starts`), `InternalCombinations`, `Decompose` and the
  imperative `ToRealValuesArray`.
- `SearchProperties`: what every returned entry satisfies, and how the
  result of `Decompose` is laid out.
- `Scenarios`: a worked example of `Decompose` for target 7, proved lemma by lemma.

The model follows the code, including where it departs from what the search
is meant to find. Take target 7, the table 100, 50, 20, 10, 5, 2, 1,
tolerance 0 and at most 3 picks. The exact decomposition 5 + 2 would be
expected among the results, but the code never reports it. After picking 5 and 2 the remaining amount is 0, and
`remaining < tolerance` (0 < 0) is false, so the branch does not stop. It
searches instead for a denomination of at most 0, finds none, and ends
empty. The only result is 5 + 1 + 1, reported once per kept denomination
(`Scenarios.TargetSeven`). More generally, on a strictly descending table with a tolerance of 0 or
less every result uses exactly `maxCount` denominations
(`SearchProperties.NonPositiveToleranceFillsBudget`).

The outer `SelectMany` of `Decompose` ignores its element and index. So the
result is the inner search result repeated once per kept denomination, then
cut at 10000 entries. The model keeps this behaviour
(`SearchProperties.DecomposeRepeatsInner`).

## Model

| member | source | states |
|---|---|---|
| Decomposer.Decompose | Sake/DecomposeMixer.cs:10-28 | Each error is returned exactly when the source throws it, checked in this order: maxCount outside 2..8, then a non-positive target, then more than 255 denominations left after truncation. A success holds at most 10000 entries. |
| Decomposer.SkipWhileGreater | Sake/DecomposeMixer.cs:21 | `SkipWhile(x => x > target)` keeps a suffix of the table. Everything dropped is above the target, and the first kept entry is not. |
| Decomposer.TruncatedTable | Sake/DecomposeMixer.cs:21 | On a descending table, every kept denomination is at most the target, and the kept table is still descending. |
| ReverseComparer.CompareTo | Sake/DecomposeMixer.cs:94 | `long.CompareTo` returns -1, 0 or 1. It is negative exactly when the first value is smaller and zero exactly when the values are equal. |
| ReverseComparer.Compare | Sake/DecomposeMixer.cs:91-95 | The comparison is reversed: negative exactly when x > y, zero exactly when x == y, positive exactly when x < y. |
| Decomposer.Midpoint | Sake/DecomposeMixer.cs:59 | The probe of a non-empty range lies inside the range. |
| Decomposer.BinarySearchFinds | Sake/DecomposeMixer.cs:59 | `Array.BinarySearch` over the range, with the reverse comparer, on a strictly descending table. A hit is an in-range index holding the value. A miss `~ins` has every entry before `ins` above the value and the entry at `ins`, if any, below it. |
| Decomposer.BinarySearch | Sake/DecomposeMixer.cs:59 | `Array.BinarySearch` with the reverse comparer, on any table: a hit is an index in the range holding the value, and a miss `~ins` has `ins` between `lo` and `hi + 1`. `BinarySearchFinds` adds the ordering facts on a descending table. |
| Decomposer.Search | Sake/DecomposeMixer.cs:57-61 | The result is the first index at or after `offset` whose denomination is at most `value`, or the table length. Every entry from `offset` up to that index is above `value`. |
| Decomposer.BinarySearchIsSearch | Sake/DecomposeMixer.cs:57-61 | On a strictly descending table, the binary search with a miss mapped to `~found` returns exactly that first index at or after `offset`. |
| Decomposer.PruneEnd | Sake/DecomposeMixer.cs:47-48 | The `TakeWhile` over `Enumerable.Range` ends between its start `j` and the table length; `PruneEndIsLongestRun` states which indices it keeps. |
| Decomposer.PruneEndIsLongestRun | Sake/DecomposeMixer.cs:47-48 | The `TakeWhile` keeps exactly the longest run of indices from `j` whose denomination, taken `k` more times, covers `remaining - tolerance`. The first index after the run, if any, fails that test. |
| Decomposer.ChildCutAtExactHit | Sake/DecomposeMixer.cs:51 | `TakeUntil(x => x.Sum == target)` (the `HitsTarget` predicate) keeps a child's results up to and including the first whose sum is exactly the target: none before it hits, the last kept hits whenever something was cut, and nothing is cut when none hits. |
| Decomposer.InternalCombinations | Sake/DecomposeMixer.cs:54 | The result is the prefix of the concatenated branches from every starting index of length min(5000, their number): every branch result up to the cap is kept. |
| LinqEx.Take | Sake/DecomposeMixer.cs:27 | `Take(n)` is the prefix of length min(n, length). |
| LinqEx.TakeUntil | Sake/DecomposeMixer.cs:77-85 | The output is a prefix of the input. |
| LinqEx.TakeUntilStops | Sake/DecomposeMixer.cs:77-85 | Only the last element kept may satisfy the predicate. If anything was cut, the last element kept satisfies it. With no element satisfying it, everything is kept. A non-empty input keeps its first element. |
| Packing.PushIndex | Sake/DecomposeMixer.cs:38 | The new low byte is the index's low byte. Without loss of the top byte, the shift-and-or is `acc * 256 + idx % 256`. |
| Packing.PushIndexEncodes | Sake/DecomposeMixer.cs:38 | After at most seven picks, pushing one more index equals encoding the picks extended by that index. No byte is lost. |
| Packing.Decodes | Sake/DecomposeMixer.cs:38 | `n` byte-sized picks pack into fewer than 256^n values and are read back unchanged. |
| Packing.IndicesEncode | Sake/DecomposeMixer.cs:38 | Reading the `n` low bytes back, highest first, gives the picks in pick order. This is the encode/decode round trip. |
| Packing.IndicesAt | Sake/DecomposeMixer.cs:68 | Position `n - 1 - b` of the decoded picks is byte `b` of the accumulator, as `(acc >> (b * 8)) & 0xff` reads it. |
| SearchProperties.CombinationsWellFormed | Sake/DecomposeMixer.cs:32-52 | Contract of the enumerator `Combinations`: every entry a branch emits is well formed: 1..maxLength picks, packed in that many bytes, indices in range and non-decreasing, `sum` equals the sum of the picked denominations, `sum <= target`, and `count == maxLength` or `target - sum < tolerance`. |
| SearchProperties.ChildrenWellFormed | Sake/DecomposeMixer.cs:47-51 | Contract of `Children`, the per-child `SelectMany` with its `TakeUntil` cut: each surviving child's results, cut by `TakeUntil`, are well formed, and so is their concatenation. |
| SearchProperties.StartsWellFormed | Sake/DecomposeMixer.cs:54 | Contract of `Starts`, the `SelectMany` over every starting index: the branches started at every table index yield only well-formed entries. |
| SearchProperties.DecomposeWellFormed | Sake/DecomposeMixer.cs:10-54 | Every entry returned by `Decompose` is well formed with respect to the truncated table. |
| Decomposer.Repeat | Sake/DecomposeMixer.cs:27 | The outer `SelectMany` that ignores its element and index yields `n` times the inner result's length, and only entries of the inner result. |
| SearchProperties.DecomposeRepeatsInner | Sake/DecomposeMixer.cs:27 | The result has length min(kept * inner, 10000), and entry `t` is inner entry `t mod inner`. An empty table or an empty inner result gives no entries. |
| SearchProperties.NonPositiveToleranceFillsBudget | Sake/DecomposeMixer.cs:42-43 | On a strictly descending table with a tolerance of 0 or less, every returned entry uses exactly `maxCount` denominations. |
| SearchProperties.DecodedEntry | Sake/DecomposeMixer.cs:63-72 | A well-formed entry's bytes are valid table indices. Its decoded values never increase and sum to the entry's `sum`. |
| Decomposer.ValuesAt | Sake/DecomposeMixer.cs:69 | Position `t` of the looked-up values is the denomination at pick `t`. |
| Decomposer.ReadBackDecodes | Sake/DecomposeMixer.cs:63-72 | Values read byte by byte, latest pick last, equal the decoded picks looked up in the table. |
| Decomposer.ToRealValuesArray | Sake/DecomposeMixer.cs:63-72 | Slot `count - 1 - i` holds the denomination at byte `i % 8`, because C# masks the 64-bit shift count. For up to 8 picks the array is exactly the decoded values in pick order. |
| Scenarios.TruncateSeven | Sake/DecomposeMixer.cs:21 | Truncating 100, 50, 20, 10, 5, 2, 1 at target 7 keeps 5, 2, 1. |
| Scenarios.DecodeFiveOneOne | Sake/DecomposeMixer.cs:63-72 | The entry (7, 3, 514) decodes to 5, 1, 1: 514 is 0x00_02_02, which packs the picks 0, 2, 2. |
| Scenarios.InnerSeven | Sake/DecomposeMixer.cs:30-55 | For target 7, tolerance 0 and length 3 over 5, 2, 1, the inner search yields only 5 + 1 + 1. |
| Scenarios.TargetSeven | Sake/DecomposeMixer.cs:10-28 | `Decompose(7, 0, 3)` over the standard table returns 5 + 1 + 1 three times, and never the exact hit 5 + 2. |
| Scenarios.UnsortedTableSearchDiffers | Sake/DecomposeMixer.cs:57-61 | On the unsorted table 1, 3, 2 the binary search for 3 from index 0 hits index 1, while the first entry at most 3 is index 0: the scan and the binary search differ off descending tables. |
| Decomposer.ReadBackUnwrapped | Sake/DecomposeMixer.cs:63-72 | With at most 8 picks the masked byte index never wraps, so the values read back are exactly the decoded picks looked up in the table. |

## Left out

- Decomposer.Decompose: `long` arithmetic is not modelled. Sums, `remaining` and `k * denomination` are unbounded integers, so 64-bit overflow on extreme tables or targets is not captured.
- Decomposer.BinarySearchIsSearch: requires a strictly descending table. With equal denominations, .NET's `Array.BinarySearch` may return any matching index, and that choice is not modelled.
- SearchProperties.DecomposeWellFormed: assumes, as an assumption of this model, that the table is strictly descending; the source declares `StdDenoms` without stating an order. `Decompose` itself does not check the order.
- Decomposer.Decompose: on a table that is not strictly descending the model's result can differ from the source's. `Combinations` uses the linear `Search` (the first entry at most the remaining amount), while the source's binary search may probe and land elsewhere; `Scenarios.UnsortedTableSearchDiffers` exhibits such a table.
- `Search` is defined by a linear scan. The binary search of the source is modelled separately (`BinarySearch`), and the two are proved equal on descending tables.
- Lazy enumeration (`IEnumerable`, `yield`) is modelled by finite sequences. The elements and their order are the same.
- The static field `StdDenoms` is passed as a parameter.
- Exceptions become `Err` values of a `Result`. Their messages and parameter names are not modelled.
- Decomposer.ToRealValuesArray: `count` is a `nat`, so the error path for a negative count (`new long[count]` throws `OverflowException`) is not modelled. The source checks neither `count` nor the bytes it reads; the model requires every byte it reads to be a valid index, where the source would throw `IndexOutOfRangeException`.
