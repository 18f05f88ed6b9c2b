/** The two sequence operators the decomposition search relies on: LINQ's
    `Take` (a length cap) and the project's own `TakeUntil` extension
    (Sake/DecomposeMixer.cs, class LinqEx). Lazy enumeration is modelled by
    finite sequences: the elements produced, and their order, are the same. */
module LinqEx {

  /** `xs.Take(n)`: the first `n` elements, or all of them when there are fewer. */
  function Take<T>(xs: seq<T>, n: nat): (r: seq<T>)
    ensures |r| == if |xs| <= n then |xs| else n
    ensures r == xs[..|r|]
  {
    if |xs| <= n then xs else xs[..n]
  }

  /** `xs.TakeUntil(p)`: yields elements in order and stops right after the
      first one that satisfies `p` (that element is included). */
  function TakeUntil<T>(xs: seq<T>, p: T -> bool): (r: seq<T>)
    ensures |r| <= |xs| && r == xs[..|r|]
  {
    if xs == [] then []
    else if p(xs[0]) then [xs[0]]
    else [xs[0]] + TakeUntil(xs[1..], p)
  }

  /** `TakeUntil` stops exactly at the first element satisfying `p`: none
      before the last one kept does, the last one does whenever something was
      cut, nothing is cut when no element does, and a non-empty input keeps
      at least its first element. */
  lemma {:induction false} TakeUntilStops<T>(xs: seq<T>, p: T -> bool)
    ensures var r := TakeUntil(xs, p);
      (forall t :: 0 <= t < |r| - 1 ==> !p(r[t])) &&
      (|r| < |xs| ==> r != [] && p(r[|r| - 1])) &&
      ((forall t :: 0 <= t < |xs| ==> !p(xs[t])) ==> r == xs) &&
      (xs != [] ==> r != [])
    decreases |xs|
  {
    if xs != [] && !p(xs[0]) {
      TakeUntilStops(xs[1..], p);
      var r := TakeUntil(xs, p);
      var r' := TakeUntil(xs[1..], p);
      assert r == [xs[0]] + r';
      forall t | 0 <= t < |r| - 1
        ensures !p(r[t])
      {
        if t > 0 {
          assert r[t] == r'[t - 1];
        }
      }
      if forall t :: 0 <= t < |xs| ==> !p(xs[t]) {
        assert forall t :: 0 <= t < |xs[1..]| ==> !p(xs[1..][t]) by {
          forall t | 0 <= t < |xs[1..]|
            ensures !p(xs[1..][t])
          {
            assert xs[1..][t] == xs[t + 1];
          }
        }
        assert r' == xs[1..];
        assert r == xs;
      }
    }
  }
}
