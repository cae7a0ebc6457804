/**
 Cutting a sequence into parts wherever two neighbours do not belong together: the scans that
 group packets into runs and bursts all do this.
 */
module Cuts {
  import opened Sequences

  // Inside a part all neighbours belong together.
  ghost predicate Joined<T>(part: seq<T>, joins: (T, T) -> bool) {
    |part| > 0 && forall k | 0 < k < |part| :: joins(part[k - 1], part[k])
  }

  // The second part could continue the first.
  predicate Meets<T>(a: seq<T>, b: seq<T>, joins: (T, T) -> bool) {
    |a| > 0 && |b| > 0 && joins(Last(a), b[0])
  }

  // The parts make up the sequence, and are cut exactly where neighbours do not belong together.
  ghost predicate Partitions<T>(parts: seq<seq<T>>, s: seq<T>, joins: (T, T) -> bool) {
    && Flatten(parts) == s
    && (forall k | 0 <= k < |parts| :: Joined(parts[k], joins))
    && (forall k | 0 < k < |parts| :: !Meets(parts[k - 1], parts[k], joins))
  }

  lemma FlattenSnoc<T>(parts: seq<seq<T>>, r: seq<T>)
    ensures Flatten(parts + [r]) == Flatten(parts) + r
  {
    Snoc(parts, r);
  }

  lemma NoParts<T>(joins: (T, T) -> bool)
    ensures Partitions([], [], joins)
  {
  }

  // A further element in the last part.
  lemma Continue<T>(parts: seq<seq<T>>, s: seq<T>, x: T, joins: (T, T) -> bool)
    requires Partitions(parts, s, joins) && |parts| > 0 && Meets(Last(parts), [x], joins)
    ensures Partitions(Init(parts) + [Last(parts) + [x]], s + [x], joins)
  {
    var r := Last(parts);
    var next := Init(parts) + [r + [x]];
    FlattenSnoc(Init(parts), r + [x]);
    assert Flatten(Init(parts)) + (r + [x]) == s + [x];
    assert Joined(parts[|parts| - 1], joins);
    forall k | 0 <= k < |next|
      ensures Joined(next[k], joins)
    {
      assert k < |next| - 1 ==> next[k] == parts[k] && Joined(parts[k], joins);
    }
    forall k | 0 < k < |next|
      ensures !Meets(next[k - 1], next[k], joins)
    {
      assert !Meets(parts[k - 1], parts[k], joins) && Joined(parts[k], joins);
      assert next[k - 1] == parts[k - 1] && next[k][0] == parts[k][0];
    }
  }

  // A further element in a part of its own.
  lemma Begin<T>(parts: seq<seq<T>>, s: seq<T>, x: T, joins: (T, T) -> bool)
    requires Partitions(parts, s, joins) && (|parts| > 0 ==> !Meets(Last(parts), [x], joins))
    ensures Partitions(parts + [[x]], s + [x], joins)
  {
    FlattenSnoc(parts, [x]);
    var next := parts + [[x]];
    forall k | 0 <= k < |next|
      ensures Joined(next[k], joins) && (k > 0 ==> !Meets(next[k - 1], next[k], joins))
    {
      if k < |parts| {
        assert Joined(parts[k], joins) && (k > 0 ==> !Meets(parts[k - 1], parts[k], joins));
      }
    }
  }

  /** There is only one such partition, so the parts follow from the sequence alone. */
  lemma {:induction false} PartsAreUnique<T>(a: seq<seq<T>>, b: seq<seq<T>>, s: seq<T>, joins: (T, T) -> bool)
    requires Partitions(a, s, joins) && Partitions(b, s, joins)
    ensures a == b
    decreases |a|
  {
    if |a| == 0 || |b| == 0 {
      EmptyFlatten(a, s, joins);
      EmptyFlatten(b, s, joins);
    } else {
      hide Partitions;
      LastPartFits(a, b, s, joins);
      LastPartFits(b, a, s, joins);
      DropLast(a, s, joins);
      DropLast(b, s, joins);
      PartsAreUnique(Init(a), Init(b), s[..|s| - |Last(a)|], joins);
      assert a == Init(a) + [Last(a)] && b == Init(b) + [Last(b)];
    }
  }

  lemma EmptyFlatten<T>(a: seq<seq<T>>, s: seq<T>, joins: (T, T) -> bool)
    requires Partitions(a, s, joins)
    ensures s == [] <==> a == []
  {
    assert |a| > 0 ==> Joined(a[|a| - 1], joins);
  }

  lemma DropLast<T>(a: seq<seq<T>>, s: seq<T>, joins: (T, T) -> bool)
    requires Partitions(a, s, joins) && |a| > 0
    ensures 0 < |Last(a)| <= |s| && Last(a) == s[|s| - |Last(a)|..]
    ensures Partitions(Init(a), s[..|s| - |Last(a)|], joins)
  {
    var r := Last(a);
    assert Joined(a[|a| - 1], joins);
    assert s == Flatten(Init(a)) + r;
  }

  // The neighbours in front of position `k` belong together.
  predicate JoinsAt<T>(s: seq<T>, k: int, joins: (T, T) -> bool) {
    0 < k < |s| && joins(s[k - 1], s[k])
  }

  // Inside the last part all neighbours belong together; in front of it they do not.
  lemma LastPart<T>(a: seq<seq<T>>, s: seq<T>, joins: (T, T) -> bool)
    requires Partitions(a, s, joins) && |a| > 0
    ensures 0 < |Last(a)| <= |s|
    ensures forall k | |s| - |Last(a)| < k < |s| :: JoinsAt(s, k, joins)
    ensures !JoinsAt(s, |s| - |Last(a)|, joins)
  {
    DropLast(a, s, joins);
    var r, n := Last(a), |s| - |Last(a)|;
    assert Joined(a[|a| - 1], joins);
    forall k | n < k < |s|
      ensures JoinsAt(s, k, joins)
    {
      assert s[k] == r[k - n] && s[k - 1] == r[k - 1 - n];
    }
    if n > 0 {
      EmptyFlatten(Init(a), s[..n], joins);
      DropLast(Init(a), s[..n], joins);
      assert !Meets(a[|a| - 2], a[|a| - 1], joins);
      assert Last(a[|a| - 2]) == s[..n][n - 1] && r[0] == s[n];
    }
  }

  // A cut of `a` inside the last part of `b` would part neighbours that belong together.
  lemma LastPartFits<T>(a: seq<seq<T>>, b: seq<seq<T>>, s: seq<T>, joins: (T, T) -> bool)
    requires Partitions(a, s, joins) && Partitions(b, s, joins) && |a| > 0 && |b| > 0
    ensures |Last(b)| <= |Last(a)|
  {
    hide Partitions, JoinsAt;
    LastPart(a, s, joins);
    LastPart(b, s, joins);
  }
}
