/** The decomposition search of Sake/DecomposeMixer.cs (class Decomposer):
    a positive target amount is split into at most `maxCount` standard
    denominations taken from a table sorted in descending order, by a pruned
    recursive search that records each combination's table indices in one
    64-bit accumulator.

    The table, a mutable static field in the source, is a parameter here.
    Sums and products are unbounded integers; the source computes them in
    64 bits. */
module Decomposer {
  import opened LinqEx
  import opened ReverseComparer
  import opened Packing

  /** One decomposition: its total, how many denominations it uses, and the
      packed table indices of those denominations. */
  datatype Entry = Entry(sum: int, count: int, decomposition: ulong)

  /** The argument checks of `Decompose`, in the order it makes them. */
  datatype Error =
    | MaxCountOutOfRange    // maxCount <= 1 or maxCount > 8
    | NonPositiveTarget     // target <= 0
    | TooManyDenominations  // more than 255 denominations are <= target

  datatype Result<T> = Ok(value: T) | Err(error: Error)

  /** Cap on the whole result of `Decompose`. */
  const MaxResults: nat := 10000
  /** Cap on the result of one `InternalCombinations` run. */
  const MaxSearchResults: nat := 5000

  /** The denomination table is sorted strictly from largest to smallest. */
  predicate Descending(s: seq<int>)
  {
    forall i, j :: 0 <= i < j < |s| ==> s[i] > s[j]
  }

  // ---------------------------------------------------------------------
  // Table preparation
  // ---------------------------------------------------------------------

  /** `StdDenoms.SkipWhile(x => x > target)`: drops the leading run of
      denominations above the target and keeps the rest in order. */
  function SkipWhileGreater(s: seq<int>, target: int): (r: seq<int>)
    ensures |r| <= |s| && r == s[|s| - |r|..]
    ensures forall t :: 0 <= t < |s| - |r| ==> s[t] > target
    ensures r != [] ==> r[0] <= target
  {
    if s != [] && s[0] > target then SkipWhileGreater(s[1..], target) else s
  }

  /** On a descending table the kept denominations are all at most the
      target, and still descending. */
  lemma {:induction false} TruncatedTable(s: seq<int>, target: int)
    requires Descending(s)
    ensures Descending(SkipWhileGreater(s, target))
    ensures forall t :: 0 <= t < |SkipWhileGreater(s, target)| ==> SkipWhileGreater(s, target)[t] <= target
  {
    var r := SkipWhileGreater(s, target);
    var k := |s| - |r|;
    SuffixDescending(s, k);
    forall t | 0 < t < |r|
      ensures r[t] <= target
    {
      assert r[0] == s[k] && r[t] == s[k + t];
      assert s[k] > s[k + t];
    }
  }

  lemma {:induction false} SuffixDescending(s: seq<int>, from: nat)
    requires Descending(s) && from <= |s|
    ensures Descending(s[from..])
  {
    forall i, j | 0 <= i < j < |s| - from
      ensures s[from..][i] > s[from..][j]
    {
      assert s[from..][i] == s[from + i] && s[from..][j] == s[from + j];
    }
  }

  // ---------------------------------------------------------------------
  // Search over the descending table
  // ---------------------------------------------------------------------

  /** `lo + ((hi - lo) >> 1)`: the probe of a non-empty range. */
  function Midpoint(lo: int, hi: int): (mid: int)
    requires lo <= hi
    ensures lo <= mid <= hi
  {
    lo + (hi - lo) / 2
  }

  /** `Array.BinarySearch(denoms, lo, hi - lo + 1, value, ReverseComparer.Default)`
      over the inclusive range `lo..hi`: the index of an entry equal to
      `value`, or the bitwise complement `~ins = -ins - 1` of the insertion
      point `ins`. */
  function BinarySearch(denoms: seq<int>, lo: int, hi: int, value: int): (r: int)
    requires 0 <= lo <= hi + 1 <= |denoms|
    ensures r >= 0 ==> lo <= r <= hi && denoms[r] == value
    ensures r < 0 ==> lo <= -r - 1 <= hi + 1
    decreases hi - lo
  {
    if lo > hi then -lo - 1
    else
      var mid := Midpoint(lo, hi);
      var order := Compare(denoms[mid], value);
      if order == 0 then mid
      else if order < 0 then BinarySearch(denoms, mid + 1, hi, value)
      else BinarySearch(denoms, lo, mid - 1, value)
  }

  /** What a binary search over `lo..hi` of a descending table promises:
      a hit `r >= 0` is an index of `value` in range; a miss `~ins` has every
      entry of `lo..ins - 1` above `value`, and the entry at `ins`, if it is
      in range, below it. */
  predicate Located(denoms: seq<int>, lo: int, hi: int, value: int, r: int)
    requires 0 <= lo <= hi + 1 <= |denoms|
  {
    (r >= 0 ==> lo <= r <= hi && denoms[r] == value) &&
    (r < 0 ==> lo <= -r - 1 <= hi + 1) &&
    (r < 0 ==> forall t :: lo <= t < -r - 1 ==> denoms[t] > value) &&
    (r < 0 && -r - 1 <= hi ==> denoms[-r - 1] < value)
  }

  lemma {:induction false} BinarySearchFinds(denoms: seq<int>, lo: int, hi: int, value: int)
    requires 0 <= lo <= hi + 1 <= |denoms|
    requires Descending(denoms)
    ensures Located(denoms, lo, hi, value, BinarySearch(denoms, lo, hi, value))
    decreases hi - lo, 1
  {
    if lo <= hi {
      var mid := Midpoint(lo, hi);
      if denoms[mid] > value {
        LocatedRight(denoms, lo, hi, value);
      } else if denoms[mid] < value {
        LocatedLeft(denoms, lo, hi, value);
      } else {
        BinarySearchStep(denoms, lo, hi, value);
      }
    }
  }

  /** A probe above `value` sends the search right without losing anything. */
  lemma {:induction false} LocatedRight(denoms: seq<int>, lo: int, hi: int, value: int)
    requires 0 <= lo <= hi < |denoms| && Descending(denoms)
    requires denoms[Midpoint(lo, hi)] > value
    ensures Located(denoms, lo, hi, value, BinarySearch(denoms, lo, hi, value))
    decreases hi - lo, 0
  {
    var mid := Midpoint(lo, hi);
    BinarySearchFinds(denoms, mid + 1, hi, value);
    AboveThrough(denoms, lo, mid, value);
    BinarySearchStep(denoms, lo, hi, value);
  }

  /** A probe below `value` sends the search left without losing anything. */
  lemma {:induction false} LocatedLeft(denoms: seq<int>, lo: int, hi: int, value: int)
    requires 0 <= lo <= hi < |denoms| && Descending(denoms)
    requires denoms[Midpoint(lo, hi)] < value
    ensures Located(denoms, lo, hi, value, BinarySearch(denoms, lo, hi, value))
    decreases hi - lo, 0
  {
    var mid := Midpoint(lo, hi);
    BinarySearchFinds(denoms, lo, mid - 1, value);
    BinarySearchStep(denoms, lo, hi, value);
  }

  /** One probe of the binary search, with the comparer read as `>`/`<`. */
  lemma BinarySearchStep(denoms: seq<int>, lo: int, hi: int, value: int)
    requires 0 <= lo <= hi < |denoms|
    ensures var mid := Midpoint(lo, hi);
      BinarySearch(denoms, lo, hi, value) ==
        if denoms[mid] == value then mid
        else if denoms[mid] > value then BinarySearch(denoms, mid + 1, hi, value)
        else BinarySearch(denoms, lo, mid - 1, value)
  {
  }

  /** Everything from `lo` through `mid` is at least `denoms[mid]`. */
  lemma AboveThrough(denoms: seq<int>, lo: int, mid: int, value: int)
    requires 0 <= lo <= mid < |denoms| && Descending(denoms) && denoms[mid] > value
    ensures forall t :: lo <= t <= mid ==> denoms[t] > value
  {
    forall t | lo <= t <= mid
      ensures denoms[t] > value
    {
      if t < mid {
        assert denoms[t] > denoms[mid];
      }
    }
  }

  /** `Search(value, denoms, offset)`: the first index at or after `offset`
      whose denomination does not exceed `value`, or the table length.
      Defined here by a scan; `BinarySearchIsSearch` shows that the source's
      binary search computes the same index on a strictly descending table. */
  function Search(value: int, denoms: seq<int>, offset: nat): (j: nat)
    requires offset <= |denoms|
    ensures offset <= j <= |denoms|
    ensures forall t :: offset <= t < j ==> denoms[t] > value
    ensures j < |denoms| ==> denoms[j] <= value
    decreases |denoms| - offset
  {
    if offset == |denoms| || denoms[offset] <= value then offset
    else Search(value, denoms, offset + 1)
  }

  /** The source's `Search`: a binary search from `offset` to the end of the
      table, with a miss turned into its insertion point `~found`. On a
      strictly descending table it lands on the first entry not above
      `value`. */
  lemma BinarySearchIsSearch(value: int, denoms: seq<int>, offset: nat)
    requires offset <= |denoms|
    requires Descending(denoms)
    ensures var found := BinarySearch(denoms, offset, |denoms| - 1, value);
      (if found < 0 then -found - 1 else found) == Search(value, denoms, offset)
  {
    BinarySearchFinds(denoms, offset, |denoms| - 1, value);
  }

  /** The `TakeWhile` of the search step: the end of the run of indices
      `from, from + 1, ...` whose denomination, taken `k` more times, still
      covers `remaining - tolerance`. */
  function PruneEnd(denoms: seq<int>, from: nat, k: int, remaining: int, tolerance: int): (end: nat)
    requires from <= |denoms|
    ensures from <= end <= |denoms|
    decreases |denoms| - from
  {
    if from < |denoms| && k * denoms[from] >= remaining - tolerance
    then PruneEnd(denoms, from + 1, k, remaining, tolerance)
    else from
  }

  /** The indices explored are exactly the longest run from `from` on whose
      denomination, taken `k` more times, covers `remaining - tolerance`. */
  lemma {:induction false} PruneEndIsLongestRun(denoms: seq<int>, from: nat, k: int, remaining: int, tolerance: int)
    requires from <= |denoms|
    ensures var end := PruneEnd(denoms, from, k, remaining, tolerance);
      (forall t :: from <= t < end ==> k * denoms[t] >= remaining - tolerance) &&
      (end < |denoms| ==> k * denoms[end] < remaining - tolerance)
    decreases |denoms| - from
  {
    if from < |denoms| && k * denoms[from] >= remaining - tolerance {
      PruneEndIsLongestRun(denoms, from + 1, k, remaining, tolerance);
    }
  }

  // ---------------------------------------------------------------------
  // The recursive enumerator
  // ---------------------------------------------------------------------

  /** What the local function `Combinations` captures from
      `InternalCombinations`. */
  datatype Params = Params(target: int, tolerance: int, maxLength: int, denoms: seq<int>)

  /** `Combinations(idx, acc, sum, k)`: pick denomination `idx`, then either
      emit the branch (budget `k` exhausted, or the sum is within tolerance)
      or explore the pruned run of further picks. */
  function Combinations(p: Params, idx: nat, acc: ulong, sum: int, k: nat): seq<Entry>
    requires idx < |p.denoms|
    decreases k, 1
  {
    var acc' := PushIndex(acc, idx);
    var sum' := sum + p.denoms[idx];
    var remaining := p.target - sum';
    if k == 0 || remaining < p.tolerance then
      [Entry(sum', p.maxLength - k, acc')]
    else
      var j := Search(remaining, p.denoms, idx);
      Children(p, j, PruneEnd(p.denoms, j, k, remaining, p.tolerance), acc', sum', k)
  }

  /** The `TakeUntil` condition: a result that reaches the target exactly. */
  function HitsTarget(target: int): Entry -> bool
  {
    (e: Entry) => e.sum == target
  }

  /** The cut applied to each child's results keeps them up to and including
      the first one whose sum is exactly the target: no earlier one hits
      it, the last one kept does whenever anything was cut, and nothing is
      cut when no result hits it. */
  lemma ChildCutAtExactHit(target: int, xs: seq<Entry>)
    ensures var r := TakeUntil(xs, HitsTarget(target));
      (forall t :: 0 <= t < |r| - 1 ==> r[t].sum != target) &&
      (|r| < |xs| ==> r != [] && r[|r| - 1].sum == target) &&
      ((forall t :: 0 <= t < |xs| ==> xs[t].sum != target) ==> r == xs)
  {
    TakeUntilStops(xs, HitsTarget(target));
  }

  /** The `SelectMany` over the surviving indices `from..end`: each child's
      results, cut after its first exact hit of the target. */
  function Children(p: Params, from: nat, end: nat, acc: ulong, sum: int, k: nat): seq<Entry>
    requires from <= end <= |p.denoms|
    requires k > 0
    decreases k, 0, end - from
  {
    if from == end then []
    else
      TakeUntil(Combinations(p, from, acc, sum, k - 1), HitsTarget(p.target))
      + Children(p, from + 1, end, acc, sum, k)
  }

  /** The branches started at every index `i..` of the table, in order. */
  function Starts(p: Params, i: nat): seq<Entry>
    requires i <= |p.denoms|
    requires p.maxLength >= 1
    decreases |p.denoms| - i
  {
    if i == |p.denoms| then []
    else Combinations(p, i, 0, 0, p.maxLength - 1) + Starts(p, i + 1)
  }

  /** `InternalCombinations`: every branch from every starting index,
      capped at 5000 results. */
  function InternalCombinations(target: int, tolerance: int, maxLength: int, denoms: seq<int>): (r: seq<Entry>)
    requires maxLength >= 1
    ensures var all := Starts(Params(target, tolerance, maxLength, denoms), 0);
      |r| == if |all| <= MaxSearchResults then |all| else MaxSearchResults
    ensures r == Starts(Params(target, tolerance, maxLength, denoms), 0)[..|r|]
  {
    Take(Starts(Params(target, tolerance, maxLength, denoms), 0), MaxSearchResults)
  }

  /** `s` repeated `n` times: the outer `SelectMany` ignores its element
      and index, so it yields the same inner list once per table entry. */
  function Repeat<T>(s: seq<T>, n: nat): (r: seq<T>)
    ensures |r| == n * |s|
    ensures forall x :: x in r ==> x in s
  {
    if n == 0 then [] else s + Repeat(s, n - 1)
  }

  /** `Decompose(target, tolerance, maxCount)` with the table passed in. */
  function Decompose(target: int, tolerance: int, maxCount: int, stdDenoms: seq<int>): (r: Result<seq<Entry>>)
    ensures r == Err(MaxCountOutOfRange) <==> maxCount <= 1 || maxCount > 8
    ensures r == Err(NonPositiveTarget) <==> 2 <= maxCount <= 8 && target <= 0
    ensures r == Err(TooManyDenominations)
        <==> 2 <= maxCount <= 8 && target > 0 && |SkipWhileGreater(stdDenoms, target)| > 255
    ensures r.Ok? ==> |r.value| <= MaxResults
  {
    if maxCount <= 1 || maxCount > 8 then Err(MaxCountOutOfRange)
    else if target <= 0 then Err(NonPositiveTarget)
    else
      var denoms := SkipWhileGreater(stdDenoms, target);
      if |denoms| > 255 then Err(TooManyDenominations)
      else Ok(Take(Repeat(InternalCombinations(target, tolerance, maxCount, denoms), |denoms|), MaxResults))
  }

  // ---------------------------------------------------------------------
  // Decoding
  // ---------------------------------------------------------------------

  predicate InTable(ids: seq<nat>, n: nat)
  {
    forall t :: 0 <= t < |ids| ==> ids[t] < n
  }

  /** The denominations at table indices `ids`. */
  function Values(denoms: seq<int>, ids: seq<nat>): (v: seq<int>)
    requires InTable(ids, |denoms|)
    ensures |v| == |ids|
  {
    if ids == [] then [] else Values(denoms, ids[..|ids| - 1]) + [denoms[ids[|ids| - 1]]]
  }

  lemma {:induction false} ValuesAt(denoms: seq<int>, ids: seq<nat>, t: nat)
    requires InTable(ids, |denoms|) && t < |ids|
    ensures Values(denoms, ids)[t] == denoms[ids[t]]
    decreases |ids|
  {
    if t < |ids| - 1 {
      ValuesAt(denoms, ids[..|ids| - 1], t);
    }
  }

  function Total(s: seq<int>): int
  {
    if s == [] then 0 else Total(s[..|s| - 1]) + s[|s| - 1]
  }

  /** The values a packed decomposition of `count` picks stands for, in
      pick order. */
  function DecodeValues(acc: nat, count: nat, denoms: seq<int>): seq<int>
    requires InTable(Indices(acc, count), |denoms|)
  {
    Values(denoms, Indices(acc, count))
  }

  /** Values read byte by byte, the latest pick last, are the decoded picks. */
  lemma ReadBackDecodes(decomposition: nat, count: nat, denoms: seq<int>, values: seq<int>)
    requires count <= 8
    requires forall b :: 0 <= b < count ==> ByteAt(decomposition, b) < |denoms|
    requires |values| == count
    requires forall t :: 0 <= t < count ==> values[t] == denoms[ByteAt(decomposition, count - 1 - t)]
    ensures InTable(Indices(decomposition, count), |denoms|)
    ensures values == DecodeValues(decomposition, count, denoms)
  {
    var ids := Indices(decomposition, count);
    forall t | 0 <= t < count
      ensures ids[t] == ByteAt(decomposition, count - 1 - t)
    {
      IndicesAt(decomposition, count, count - 1 - t);
    }
    forall t | 0 <= t < count
      ensures values[t] == Values(denoms, ids)[t]
    {
      ValuesAt(denoms, ids, t);
    }
  }

  /** `ToRealValuesArray`: fills slot `count - i - 1` with the denomination
      at byte `i` of the accumulator. C# masks the shift count of a 64-bit
      operand to its low six bits, so the shift by `i * 8` reads byte
      `i % 8`. */
  method ToRealValuesArray(decomposition: ulong, count: nat, denoms: seq<int>) returns (values: seq<int>)
    requires forall b :: 0 <= b < count && b < 8 ==> ByteAt(decomposition, b) < |denoms|
    ensures |values| == count
    ensures forall t :: 0 <= t < count ==> values[t] == denoms[ByteAt(decomposition, (count - 1 - t) % 8)]
    ensures count <= 8 ==>
      InTable(Indices(decomposition, count), |denoms|) && values == DecodeValues(decomposition, count, denoms)
  {
    var list := new int[count];
    for i := 0 to count
      invariant forall t :: count - i <= t < count ==> list[t] == denoms[ByteAt(decomposition, (count - 1 - t) % 8)]
    {
      var index := ShiftRightBytes(decomposition, i % 8) % 256;
      assert index == ByteAt(decomposition, i % 8) && i % 8 < count;
      list[count - i - 1] := denoms[index];
    }
    values := list[..];
    if count <= 8 {
      ReadBackUnwrapped(decomposition, count, denoms, values);
    }
  }

  /** With at most 8 picks the byte index `(count - 1 - t) % 8` never wraps. */
  lemma ReadBackUnwrapped(decomposition: nat, count: nat, denoms: seq<int>, values: seq<int>)
    requires count <= 8 && |values| == count
    requires forall b :: 0 <= b < count ==> ByteAt(decomposition, b) < |denoms|
    requires forall t :: 0 <= t < count ==> values[t] == denoms[ByteAt(decomposition, (count - 1 - t) % 8)]
    ensures InTable(Indices(decomposition, count), |denoms|)
    ensures values == DecodeValues(decomposition, count, denoms)
  {
    forall t | 0 <= t < count
      ensures values[t] == denoms[ByteAt(decomposition, count - 1 - t)]
    {
      assert (count - 1 - t) % 8 == count - 1 - t;
    }
    ReadBackDecodes(decomposition, count, denoms, values);
  }
}
