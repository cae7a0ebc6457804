/** Half-open intervals of whole numbers, as sets. */
module Intervals {
  function Interval(a: int, b: int): (s: set<int>)
    ensures forall x :: x in s <==> a <= x < b
    ensures |s| == if a < b then b - a else 0
    decreases b - a
  {
    if a < b then Interval(a, b - 1) + {b - 1} else {}
  }
}
