/** What every decomposition returned by the search satisfies, and how the
    result of `Decompose` is laid out. */
module SearchProperties {
  import opened LinqEx
  import opened Packing
  import opened Decomposer

  /** Each pick is at or after the previous one in the table. */
  predicate NonDecreasing(ids: seq<nat>)
  {
    forall t :: 0 < t < |ids| ==> ids[t - 1] <= ids[t]
  }

  /** Each value is at most the previous one. */
  predicate NonIncreasing(v: seq<int>)
  {
    forall t :: 0 < t < |v| ==> v[t - 1] >= v[t]
  }

  /** The search parameters `Decompose` hands to `InternalCombinations`:
      a descending table whose indices fit one byte, at most 8 picks. */
  predicate ValidParams(p: Params)
  {
    Descending(p.denoms) && |p.denoms| <= 256 && 1 <= p.maxLength <= 8
  }

  function SumOf(denoms: seq<int>, ids: seq<nat>): int
    requires InTable(ids, |denoms|)
  {
    Total(Values(denoms, ids))
  }

  /** A decomposition as the search emits it: `count` picks in range, packed
      into exactly `count` bytes, taken in non-decreasing table order, whose
      denominations sum to `sum`, which does not exceed the target; and the
      branch stopped because the budget ran out or the sum came within
      tolerance. */
  predicate WellFormed(p: Params, e: Entry)
  {
    1 <= e.count <= p.maxLength &&
    e.decomposition < Pow256(e.count) &&
    var ids := Indices(e.decomposition, e.count);
    InTable(ids, |p.denoms|) &&
    NonDecreasing(ids) &&
    e.sum == SumOf(p.denoms, ids) &&
    e.sum <= p.target &&
    (e.count == p.maxLength || p.target - e.sum < p.tolerance)
  }

  /** `WellFormed`, given the decoded picks `ids`. */
  lemma WellFormedIntro(p: Params, e: Entry, ids: seq<nat>)
    requires 1 <= e.count <= p.maxLength && e.decomposition < Pow256(e.count)
    requires Indices(e.decomposition, e.count) == ids
    requires InTable(ids, |p.denoms|) && NonDecreasing(ids)
    requires e.sum == SumOf(p.denoms, ids) && e.sum <= p.target
    requires e.count == p.maxLength || p.target - e.sum < p.tolerance
    ensures WellFormed(p, e)
  {
  }

  /** Every entry of `es` is well formed. */
  predicate AllWellFormed(p: Params, es: seq<Entry>)
    decreases |es|
  {
    es == [] || (WellFormed(p, es[0]) && AllWellFormed(p, es[1..]))
  }

  lemma {:induction false} AllWellFormedConcat(p: Params, a: seq<Entry>, b: seq<Entry>)
    requires AllWellFormed(p, a) && AllWellFormed(p, b)
    ensures AllWellFormed(p, a + b)
    decreases |a|
  {
    if a == [] {
      assert a + b == b;
    } else {
      AllWellFormedConcat(p, a[1..], b);
      assert (a + b)[1..] == a[1..] + b;
    }
  }

  lemma {:induction false} AllWellFormedPrefix(p: Params, a: seq<Entry>, n: nat)
    requires AllWellFormed(p, a) && n <= |a|
    ensures AllWellFormed(p, a[..n])
    decreases n
  {
    if n > 0 {
      AllWellFormedPrefix(p, a[1..], n - 1);
      assert a[..n][1..] == a[1..][..n - 1];
    }
  }

  lemma {:induction false} AllWellFormedMembers(p: Params, es: seq<Entry>)
    requires AllWellFormed(p, es)
    ensures forall e :: e in es ==> WellFormed(p, e)
    decreases |es|
  {
    if es != [] {
      AllWellFormedMembers(p, es[1..]);
      assert es == [es[0]] + es[1..];
    }
  }

  /** Cutting a list after its first exact hit and appending a well-formed
      rest keeps it well formed. */
  lemma CutThenRestWellFormed(p: Params, xs: seq<Entry>, rest: seq<Entry>)
    requires AllWellFormed(p, xs) && AllWellFormed(p, rest)
    ensures AllWellFormed(p, TakeUntil(xs, HitsTarget(p.target)) + rest)
  {
    AllWellFormedPrefix(p, xs, |TakeUntil(xs, HitsTarget(p.target))|);
    AllWellFormedConcat(p, TakeUntil(xs, HitsTarget(p.target)), rest);
  }

  /** The first surviving child's cut results, then the other children's. */
  lemma ChildrenStepWellFormed(p: Params, from: nat, end: nat, acc: ulong, sum: int, k: nat)
    requires from < end <= |p.denoms| && k > 0
    requires AllWellFormed(p, Combinations(p, from, acc, sum, k - 1))
    requires AllWellFormed(p, Children(p, from + 1, end, acc, sum, k))
    ensures AllWellFormed(p, Children(p, from, end, acc, sum, k))
  {
    CutThenRestWellFormed(p, Combinations(p, from, acc, sum, k - 1), Children(p, from + 1, end, acc, sum, k));
  }

  /** Picking `idx` after `ids` appends its byte to the accumulator and its
      denomination to the sum. */
  lemma Extend(p: Params, ids: seq<nat>, idx: nat, acc: ulong, sum: int)
    requires ValidParams(p) && idx < |p.denoms|
    requires InTable(ids, |p.denoms|) && |ids| <= 7
    requires acc == Encode(ids) && sum == SumOf(p.denoms, ids)
    ensures InTable(ids + [idx], |p.denoms|)
    ensures |ids + [idx]| == |ids| + 1 && (ids + [idx])[|ids|] == idx
    ensures PushIndex(acc, idx) == Encode(ids + [idx])
    ensures sum + p.denoms[idx] == SumOf(p.denoms, ids + [idx])
  {
    assert Bytes(ids);
    PushIndexEncodes(ids, idx);
    assert (ids + [idx])[..|ids|] == ids;
  }

  lemma AppendNonDecreasing(ids: seq<nat>, idx: nat)
    requires NonDecreasing(ids) && (ids != [] ==> ids[|ids| - 1] <= idx)
    ensures NonDecreasing(ids + [idx])
  {
  }

  /** A branch that stops emits exactly its own entry. */
  lemma StopWellFormed(p: Params, idx: nat, acc: ulong, sum: int, k: nat)
    requires idx < |p.denoms|
    requires k == 0 || p.target - (sum + p.denoms[idx]) < p.tolerance
    requires AllWellFormed(p, [Entry(sum + p.denoms[idx], p.maxLength - k, PushIndex(acc, idx))])
    ensures AllWellFormed(p, Combinations(p, idx, acc, sum, k))
  {
  }

  /** A branch that does not stop yields its pruned run of children. */
  lemma ContinueIsChildren(p: Params, idx: nat, acc: ulong, sum: int, k: nat, j: nat, end: nat)
    requires idx < |p.denoms|
    requires k != 0 && p.target - (sum + p.denoms[idx]) >= p.tolerance
    requires j == Search(p.target - (sum + p.denoms[idx]), p.denoms, idx)
    requires end == PruneEnd(p.denoms, j, k, p.target - (sum + p.denoms[idx]), p.tolerance)
    ensures Combinations(p, idx, acc, sum, k) == Children(p, j, end, PushIndex(acc, idx), sum + p.denoms[idx], k)
  {
  }

  /** Every denomination from the first one that fits on is at most `remaining`. */
  lemma FitsFromFirst(denoms: seq<int>, j: nat, end: nat, remaining: int)
    requires Descending(denoms) && j <= end <= |denoms|
    requires j < |denoms| ==> denoms[j] <= remaining
    ensures forall t :: j <= t < end ==> denoms[t] <= remaining
  {
    forall t | j <= t < end
      ensures denoms[t] <= remaining
    {
      if j < t {
        assert denoms[j] > denoms[t];
      }
    }
  }

  /** The one result a stopping branch emits is well formed. */
  lemma EmittedWellFormed(p: Params, ids: seq<nat>, acc: ulong, sum: int, k: nat)
    requires |p.denoms| <= 256
    requires ids != [] && InTable(ids, |p.denoms|) && NonDecreasing(ids)
    requires |ids| + k == p.maxLength
    requires acc == Encode(ids) && sum == SumOf(p.denoms, ids)
    requires sum <= p.target
    requires k == 0 || p.target - sum < p.tolerance
    ensures AllWellFormed(p, [Entry(sum, p.maxLength - k, acc)])
  {
    assert Bytes(ids);
    Decodes(ids);
    var e := Entry(sum, |ids|, acc);
    WellFormedIntro(p, e, ids);
    assert p.maxLength - k == |ids|;
  }

  /** Every result of `Combinations(idx, acc, sum, k)` is well formed, for a
      branch whose picks so far are `ids`, packed in `acc` and summing to
      `sum`. */
  lemma {:induction false} CombinationsWellFormed(p: Params, ids: seq<nat>, idx: nat, acc: ulong, sum: int, k: nat)
    requires ValidParams(p)
    requires idx < |p.denoms|
    requires InTable(ids, |p.denoms|) && NonDecreasing(ids + [idx])
    requires |ids| + 1 + k == p.maxLength
    requires acc == Encode(ids) && sum == SumOf(p.denoms, ids)
    requires sum + p.denoms[idx] <= p.target
    ensures AllWellFormed(p, Combinations(p, idx, acc, sum, k))
    decreases k, 1
  {
    var ids' := ids + [idx];
    Extend(p, ids, idx, acc, sum);
    var acc', sum' := PushIndex(acc, idx), sum + p.denoms[idx];
    if k == 0 || p.target - sum' < p.tolerance {
      EmittedWellFormed(p, ids', acc', sum', k);
      StopWellFormed(p, idx, acc, sum, k);
    } else {
      GoOnWellFormed(p, ids', idx, acc, sum, k);
    }
  }

  /** A branch that goes on emits only its children's results, and every
      child extends the picks made so far. */
  lemma {:induction false} GoOnWellFormed(p: Params, picked: seq<nat>, idx: nat, acc: ulong, sum: int, k: nat)
    requires ValidParams(p) && idx < |p.denoms|
    requires picked != [] && picked[|picked| - 1] == idx
    requires InTable(picked, |p.denoms|) && NonDecreasing(picked)
    requires |picked| + k == p.maxLength
    requires PushIndex(acc, idx) == Encode(picked) && sum + p.denoms[idx] == SumOf(p.denoms, picked)
    requires k != 0 && p.target - (sum + p.denoms[idx]) >= p.tolerance
    ensures AllWellFormed(p, Combinations(p, idx, acc, sum, k))
    decreases k, 0, |p.denoms| + 1
  {
    var acc', sum' := PushIndex(acc, idx), sum + p.denoms[idx];
    var remaining := p.target - sum';
    var j := Search(remaining, p.denoms, idx);
    var end := PruneEnd(p.denoms, j, k, remaining, p.tolerance);
    FitsFromFirst(p.denoms, j, end, remaining);
    ContinueIsChildren(p, idx, acc, sum, k, j, end);
    ChildrenWellFormed(p, picked, j, end, acc', sum', k);
  }

  lemma {:induction false} ChildrenWellFormed(p: Params, ids: seq<nat>, from: nat, end: nat, acc: ulong, sum: int, k: nat)
    requires ValidParams(p)
    requires 0 < k && from <= end <= |p.denoms|
    requires ids != [] && InTable(ids, |p.denoms|) && NonDecreasing(ids) && ids[|ids| - 1] <= from
    requires |ids| + k == p.maxLength
    requires acc == Encode(ids) && sum == SumOf(p.denoms, ids)
    requires forall t :: from <= t < end ==> p.denoms[t] <= p.target - sum
    ensures AllWellFormed(p, Children(p, from, end, acc, sum, k))
    decreases k, 0, end - from
  {
    if from < end {
      FirstChildWellFormed(p, ids, from, end, acc, sum, k);
      ChildrenWellFormed(p, ids, from + 1, end, acc, sum, k);
      ChildrenStepWellFormed(p, from, end, acc, sum, k);
    }
  }

  lemma {:induction false} FirstChildWellFormed(p: Params, ids: seq<nat>, from: nat, end: nat, acc: ulong, sum: int, k: nat)
    requires ValidParams(p)
    requires 0 < k && from < end <= |p.denoms|
    requires ids != [] && InTable(ids, |p.denoms|) && NonDecreasing(ids) && ids[|ids| - 1] <= from
    requires |ids| + k == p.maxLength
    requires acc == Encode(ids) && sum == SumOf(p.denoms, ids)
    requires p.denoms[from] <= p.target - sum
    ensures AllWellFormed(p, Combinations(p, from, acc, sum, k - 1))
    decreases k, 0, end - from, 0
  {
    AppendNonDecreasing(ids, from);
    CombinationsWellFormed(p, ids, from, acc, sum, k - 1);
  }

  /** Each first pick is at most the target, so every branch started from
      `i..` is well formed. */
  lemma {:induction false} StartsWellFormed(p: Params, i: nat)
    requires ValidParams(p) && i <= |p.denoms|
    requires forall t :: 0 <= t < |p.denoms| ==> p.denoms[t] <= p.target
    ensures AllWellFormed(p, Starts(p, i))
    decreases |p.denoms| - i
  {
    if i < |p.denoms| {
      assert SumOf(p.denoms, []) == 0;
      assert Encode([]) == 0;
      CombinationsWellFormed(p, [], i, 0, 0, p.maxLength - 1);
      StartsWellFormed(p, i + 1);
      AllWellFormedConcat(p, Combinations(p, i, 0, 0, p.maxLength - 1), Starts(p, i + 1));
    }
  }

  /** Every result of `Decompose` is well formed with respect to the
      truncated table: between 1 and `maxCount` picks, packed in that many
      bytes, picks in non-decreasing index order, the packed sum is `sum`,
      `sum <= target`, and `count == maxCount || target - sum < tolerance`. */
  lemma DecomposeWellFormed(target: int, tolerance: int, maxCount: int, stdDenoms: seq<int>)
    requires Descending(stdDenoms)
    ensures Decompose(target, tolerance, maxCount, stdDenoms).Ok? ==>
      var p := Params(target, tolerance, maxCount, SkipWhileGreater(stdDenoms, target));
      forall e :: e in Decompose(target, tolerance, maxCount, stdDenoms).value ==> WellFormed(p, e)
  {
    var r := Decompose(target, tolerance, maxCount, stdDenoms);
    if r.Ok? {
      var denoms := SkipWhileGreater(stdDenoms, target);
      var p := Params(target, tolerance, maxCount, denoms);
      TruncatedTable(stdDenoms, target);
      StartsWellFormed(p, 0);
      var inner := InternalCombinations(target, tolerance, maxCount, denoms);
      AllWellFormedPrefix(p, Starts(p, 0), |inner|);
      AllWellFormedMembers(p, inner);
    }
  }

  lemma ModMinus(t: nat, m: nat)
    requires 0 < m <= t
    ensures (t - m) % m == t % m
  {
    var q, r := (t - m) / m, (t - m) % m;
    assert t == (q + 1) * m + r;
    DivModUnique(t, m, q + 1, r);
  }

  lemma DivModUnique(x: int, d: int, q: int, r: int)
    requires d > 0 && 0 <= r < d && x == q * d + r
    ensures x % d == r
  {
    var q', r' := x / d, x % d;
    assert x == q' * d + r';
    if q' > q {
      MulAtLeast(q' - q, d);
    } else if q' < q {
      MulAtLeast(q - q', d);
    }
  }

  lemma MulAtLeast(a: int, d: int)
    requires a >= 1 && d > 0
    ensures a * d >= d
  {
  }

  lemma {:induction false} RepeatIndex<T>(s: seq<T>, n: nat, t: nat)
    requires s != [] && t < |Repeat(s, n)|
    ensures Repeat(s, n)[t] == s[t % |s|]
    decreases n
  {
    if t >= |s| {
      RepeatIndex(s, n - 1, t - |s|);
      ModMinus(t, |s|);
    } else {
      assert t % |s| == t;
    }
  }

  /** `n` copies of `s`, back to back. */
  lemma RepeatAt<T>(s: seq<T>, n: nat)
    ensures s != [] ==> forall t :: 0 <= t < |Repeat(s, n)| ==> Repeat(s, n)[t] == s[t % |s|]
  {
    forall t | 0 <= t < |Repeat(s, n)| && s != []
      ensures Repeat(s, n)[t] == s[t % |s|]
    {
      RepeatIndex(s, n, t);
    }
  }

  /** The result of `Decompose` is the inner search result once per
      denomination of the truncated table, cut at 10000 entries; an empty
      truncated table gives no result. */
  lemma DecomposeRepeatsInner(target: int, tolerance: int, maxCount: int, stdDenoms: seq<int>)
    requires Decompose(target, tolerance, maxCount, stdDenoms).Ok?
    ensures
      var denoms := SkipWhileGreater(stdDenoms, target);
      var inner := InternalCombinations(target, tolerance, maxCount, denoms);
      var r := Decompose(target, tolerance, maxCount, stdDenoms).value;
      |r| == (if |denoms| * |inner| <= MaxResults then |denoms| * |inner| else MaxResults) &&
      (inner != [] ==> forall t :: 0 <= t < |r| ==> r[t] == inner[t % |inner|]) &&
      (denoms == [] || inner == [] ==> r == [])
  {
    var denoms := SkipWhileGreater(stdDenoms, target);
    var inner := InternalCombinations(target, tolerance, maxCount, denoms);
    RepeatAt(inner, |denoms|);
  }

  /** The decoded values of a well-formed result are what `ToRealValuesArray`
      accepts and returns for it: they never increase and they sum to `sum`. */
  lemma DecodedEntry(p: Params, e: Entry)
    requires ValidParams(p) && WellFormed(p, e)
    ensures forall b :: 0 <= b < e.count && b < 8 ==> ByteAt(e.decomposition, b) < |p.denoms|
    ensures Total(DecodeValues(e.decomposition, e.count, p.denoms)) == e.sum
    ensures NonIncreasing(DecodeValues(e.decomposition, e.count, p.denoms))
  {
    var ids := Indices(e.decomposition, e.count);
    forall b | 0 <= b < e.count
      ensures ByteAt(e.decomposition, b) < |p.denoms|
    {
      IndicesAt(e.decomposition, e.count, b);
    }
    var v := Values(p.denoms, ids);
    forall t | 0 < t < |v|
      ensures v[t - 1] >= v[t]
    {
      ValuesAt(p.denoms, ids, t - 1);
      ValuesAt(p.denoms, ids, t);
    }
  }

  /** With a tolerance of zero or less a branch can only stop by exhausting
      its budget: since no sum exceeds the target, `target - sum < tolerance`
      never holds, so every result uses exactly `maxCount` denominations. */
  lemma NonPositiveToleranceFillsBudget(target: int, tolerance: int, maxCount: int, stdDenoms: seq<int>)
    requires Descending(stdDenoms) && tolerance <= 0
    requires Decompose(target, tolerance, maxCount, stdDenoms).Ok?
    ensures forall e :: e in Decompose(target, tolerance, maxCount, stdDenoms).value ==> e.count == maxCount
  {
    DecomposeWellFormed(target, tolerance, maxCount, stdDenoms);
  }
}
