/** A worked input: target 7 with the table 100, 50, 20, 10, 5, 2, 1,
    tolerance 0 and at most three denominations. The table truncated to
    the target is 5, 2, 1. */
module Scenarios {
  import opened Packing
  import opened Decomposer

  const Table: seq<int> := [100, 50, 20, 10, 5, 2, 1]
  const Kept: seq<int> := [5, 2, 1]
  const P: Params := Params(7, 0, 3, Kept)
  /** 5 + 1 + 1: picks 0, 2, 2 packed as 0x00_02_02. */
  const FiveOneOne: Entry := Entry(7, 3, 514)

  lemma TablesDescending()
    ensures Descending(Table) && Descending(Kept)
  {
  }

  lemma SkipAbove(s: seq<int>, target: int)
    requires s != [] && s[0] > target
    ensures SkipWhileGreater(s, target) == SkipWhileGreater(s[1..], target)
  {
  }

  lemma TruncateSeven()
    ensures SkipWhileGreater(Table, 7) == Kept
  {
    var s := Table;
    SkipAbove(s, 7);
    assert s[1..] == [50, 20, 10, 5, 2, 1];
    SkipAbove(s[1..], 7);
    assert s[1..][1..] == [20, 10, 5, 2, 1];
    SkipAbove(s[1..][1..], 7);
    assert s[1..][1..][1..] == [10, 5, 2, 1];
    SkipAbove(s[1..][1..][1..], 7);
    assert s[1..][1..][1..][1..] == Kept;
  }

  lemma SearchSteps()
    ensures Search(1, Kept, 2) == 2 && Search(0, Kept, 1) == 3 && Search(2, Kept, 0) == 1
    ensures Search(5, Kept, 1) == 1 && Search(6, Kept, 2) == 2
  {
  }

  /** On the unsorted table 1, 3, 2 the source's binary search for 3 from
      index 0 probes index 1 and hits, while the model's `Search` stops at
      index 0, whose entry is already at most 3: the two agree only on
      strictly descending tables. */
  lemma UnsortedTableSearchDiffers()
    ensures BinarySearch([1, 3, 2], 0, 2, 3) == 1
    ensures Search(3, [1, 3, 2], 0) == 0
  {
  }

  lemma PruneSteps()
    ensures PruneEnd(Kept, 2, 1, 1, 0) == 3 && PruneEnd(Kept, 1, 2, 2, 0) == 3
    ensures PruneEnd(Kept, 1, 2, 5, 0) == 1 && PruneEnd(Kept, 2, 2, 6, 0) == 2
  {
  }

  /** From 5 then 1, one more 1 fills the budget; from 5 then 2 nothing
      at most 0 remains to pick. */
  lemma SecondPicks()
    ensures Combinations(P, 2, 0, 5, 1) == [FiveOneOne]
    ensures Combinations(P, 1, 0, 5, 1) == []
  {
    SearchSteps();
    PruneSteps();
    assert Combinations(P, 2, 2, 6, 0) == [FiveOneOne];
    assert Children(P, 2, 3, 2, 6, 1) == [FiveOneOne];
  }

  lemma FirstPicks()
    ensures Combinations(P, 0, 0, 0, 2) == [FiveOneOne]
    ensures Combinations(P, 1, 0, 0, 2) == []
    ensures Combinations(P, 2, 0, 0, 2) == []
  {
    SearchSteps();
    PruneSteps();
    SecondPicks();
    assert Children(P, 2, 3, 0, 5, 2) == [FiveOneOne];
    assert Children(P, 1, 3, 0, 5, 2) == [FiveOneOne];
  }

  lemma UnpackFiveOneOne()
    ensures Indices(514, 3) == [0, 2, 2]
  {
    assert Indices(0, 1) == [0];
    assert Indices(2, 2) == Indices(0, 1) + [2];
    assert Indices(514, 3) == Indices(2, 2) + [2];
  }

  lemma LookUpFiveOneOne()
    ensures Values(Kept, [0, 2, 2]) == [5, 1, 1]
  {
    assert [0, 2, 2][..2] == [0, 2] && [0, 2][..1] == [0] && [0][..0] == [];
    assert Values(Kept, [0]) == [5];
    assert Values(Kept, [0, 2]) == [5, 1];
  }

  /** The reported entry decodes to 5, 1, 1 in pick order. */
  lemma DecodeFiveOneOne()
    ensures DecodeValues(FiveOneOne.decomposition, FiveOneOne.count, Kept) == [5, 1, 1]
  {
    UnpackFiveOneOne();
    LookUpFiveOneOne();
  }

  lemma InnerSeven()
    ensures InternalCombinations(7, 0, 3, Kept) == [FiveOneOne]
  {
    TablesDescending();
    FirstPicks();
    assert Starts(P, 0) == [FiveOneOne];
  }

  /** Only 5 + 1 + 1 is reported, once per kept denomination. The exact hit
      5 + 2 is not: with tolerance 0 the test `remaining < tolerance` fails
      at remaining 0, and no denomination is at most 0, so that branch ends
      without a result. */
  lemma TargetSeven()
    ensures Decompose(7, 0, 3, Table) == Ok([FiveOneOne, FiveOneOne, FiveOneOne])
  {
    TablesDescending();
    TruncateSeven();
    InnerSeven();
    assert Repeat([FiveOneOne], 3) == [FiveOneOne, FiveOneOne, FiveOneOne];
  }
}
