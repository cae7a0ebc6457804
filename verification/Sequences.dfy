/** Sequences seen from their end, the way the loops build them. */
module Sequences {
  function Init<T>(s: seq<T>): seq<T>
    requires |s| > 0
  {
    s[..|s| - 1]
  }

  function Last<T>(s: seq<T>): T
    requires |s| > 0
  {
    s[|s| - 1]
  }

  lemma Snoc<T>(s: seq<T>, x: T)
    ensures |s + [x]| > 0 && Init(s + [x]) == s && Last(s + [x]) == x
  {
  }

  // The parts, one after the other.
  function Flatten<T>(parts: seq<seq<T>>): seq<T> {
    if |parts| == 0 then [] else Flatten(Init(parts)) + Last(parts)
  }
}
