/** The comparer that makes a descending table look ascending to a binary
    search (Sake/DecomposeMixer.cs, class ReverseComparer). */
module ReverseComparer {

  /** `a.CompareTo(b)` on a 64-bit integer: -1, 0 or 1. */
  function CompareTo(a: int, b: int): (r: int)
    ensures r == -1 || r == 0 || r == 1
    ensures r < 0 <==> a < b
    ensures r == 0 <==> a == b
  {
    if a < b then -1 else if a > b then 1 else 0
  }

  /** `Compare(x, y)` compares `y` with `x`, so a larger value orders first. */
  function Compare(x: int, y: int): (r: int)
    ensures r < 0 <==> x > y
    ensures r == 0 <==> x == y
    ensures r > 0 <==> x < y
  {
    CompareTo(y, x)
  }
}
