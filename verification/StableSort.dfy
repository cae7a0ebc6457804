/** `sorted(..., key=...)`: the stable sort the analyses start from, as insertion sort. */
module StableSort {
  import opened Sequences

  // `x` goes behind every element whose key is not larger.
  function Insert<T>(s: seq<T>, x: T, key: T -> int): seq<T> {
    if |s| == 0 || key(Last(s)) <= key(x) then s + [x] else Insert(Init(s), x, key) + [Last(s)]
  }

  function Sort<T>(s: seq<T>, key: T -> int): seq<T> {
    if |s| == 0 then [] else Insert(Sort(Init(s), key), Last(s), key)
  }

  function Filter<T>(s: seq<T>, keep: T -> bool): seq<T> {
    if |s| == 0 then []
    else if keep(Last(s)) then Filter(Init(s), keep) + [Last(s)]
    else Filter(Init(s), keep)
  }

  ghost predicate Sorted<T>(s: seq<T>, key: T -> int) {
    forall i, j | 0 <= i < j < |s| :: key(s[i]) <= key(s[j])
  }

  lemma SortedSnoc<T>(s: seq<T>, x: T, key: T -> int)
    requires Sorted(s, key) && (|s| == 0 || key(Last(s)) <= key(x))
    ensures Sorted(s + [x], key)
  {
  }

  lemma {:induction false} InsertAdds<T>(s: seq<T>, x: T, key: T -> int)
    ensures multiset(Insert(s, x, key)) == multiset(s) + multiset{x}
  {
    if |s| > 0 && key(Last(s)) > key(x) {
      InsertAdds(Init(s), x, key);
      assert s == Init(s) + [Last(s)];
    }
  }

  lemma {:induction false} InsertKeepsSorted<T>(s: seq<T>, x: T, key: T -> int)
    requires Sorted(s, key)
    ensures Sorted(Insert(s, x, key), key)
    ensures |s| > 0 ==> key(Last(Insert(s, x, key))) == if key(Last(s)) <= key(x) then key(x) else key(Last(s))
  {
    if |s| == 0 || key(Last(s)) <= key(x) {
      SortedSnoc(s, x, key);
    } else {
      InsertKeepsSorted(Init(s), x, key);
      SortedSnoc(Insert(Init(s), x, key), Last(s), key);
    }
  }

  lemma {:induction false} SortPermutes<T>(s: seq<T>, key: T -> int)
    ensures multiset(Sort(s, key)) == multiset(s) && |Sort(s, key)| == |s|
  {
    if |s| > 0 {
      SortPermutes(Init(s), key);
      InsertAdds(Sort(Init(s), key), Last(s), key);
      assert s == Init(s) + [Last(s)];
    }
    assert |multiset(Sort(s, key))| == |multiset(s)|;
  }

  lemma {:induction false} SortIsSorted<T>(s: seq<T>, key: T -> int)
    ensures Sorted(Sort(s, key), key)
  {
    if |s| > 0 {
      SortIsSorted(Init(s), key);
      InsertKeepsSorted(Sort(Init(s), key), Last(s), key);
    }
  }

  lemma SortSorts<T>(s: seq<T>, key: T -> int)
    ensures Sorted(Sort(s, key), key)
    ensures multiset(Sort(s, key)) == multiset(s) && |Sort(s, key)| == |s|
  {
    hide Sort, Sorted;
    SortIsSorted(s, key);
    SortPermutes(s, key);
  }

  lemma SameElements<T>(s: seq<T>, t: seq<T>)
    requires multiset(s) == multiset(t)
    ensures forall x :: x in s <==> x in t
  {
    forall x
      ensures x in s <==> x in t
    {
      assert x in s <==> x in multiset(s);
    }
  }

  lemma {:induction false} SortedIsFixed<T>(s: seq<T>, key: T -> int)
    requires Sorted(s, key)
    ensures Sort(s, key) == s
  {
    if |s| > 0 {
      SortedIsFixed(Init(s), key);
      assert s == Init(s) + [Last(s)];
    }
  }

  lemma {:induction false} FilterMembers<T>(s: seq<T>, keep: T -> bool)
    ensures forall x :: x in Filter(s, keep) <==> x in s && keep(x)
  {
    if |s| > 0 {
      FilterMembers(Init(s), keep);
      assert s == Init(s) + [Last(s)];
    }
  }

  lemma {:induction false} FilterCounts<T>(s: seq<T>, keep: T -> bool, x: T)
    ensures multiset(Filter(s, keep))[x] == if keep(x) then multiset(s)[x] else 0
  {
    if |s| > 0 {
      FilterCounts(Init(s), keep, x);
      assert s == Init(s) + [Last(s)];
    }
  }

  lemma NoneIsLarger<T>(s: seq<T>, x: T, key: T -> int)
    requires Sorted(s, key) && (|s| > 0 ==> key(Last(s)) <= key(x))
    ensures forall y | y in s :: key(y) <= key(x)
  {
    forall k | 0 <= k < |s|
      ensures key(s[k]) <= key(x)
    {
      assert k < |s| - 1 ==> key(s[k]) <= key(s[|s| - 1]);
    }
  }

  lemma SortedInit<T>(s: seq<T>, key: T -> int)
    requires Sorted(s, key) && |s| > 0
    ensures Sorted(Init(s), key)
  {
  }

  lemma {:induction false} FilterInsert<T>(s: seq<T>, x: T, key: T -> int, keep: T -> bool)
    requires Sorted(s, key)
    ensures Filter(Insert(s, x, key), keep) == if keep(x) then Insert(Filter(s, keep), x, key) else Filter(s, keep)
  {
    hide Sorted;
    if |s| == 0 || key(Last(s)) <= key(x) {
      Snoc(s, x);
      FilterMembers(s, keep);
      NoneIsLarger(s, x, key);
      assert |Filter(s, keep)| > 0 ==> Last(Filter(s, keep)) in Filter(s, keep);
    } else {
      SortedInit(s, key);
      FilterInsert(Init(s), x, key, keep);
      Snoc(Insert(Init(s), x, key), Last(s));
      Snoc(Filter(Init(s), keep), Last(s));
    }
  }

  /** Filtering before or after a stable sort gives the same list. */
  lemma {:induction false} FilterCommutesWithSort<T>(s: seq<T>, key: T -> int, keep: T -> bool)
    ensures Filter(Sort(s, key), keep) == Sort(Filter(s, keep), key)
  {
    if |s| > 0 {
      FilterCommutesWithSort(Init(s), key, keep);
      SortSorts(Init(s), key);
      FilterInsert(Sort(Init(s), key), Last(s), key, keep);
      if keep(Last(s)) {
        Snoc(Filter(Init(s), keep), Last(s));
      }
    }
  }

  function HasKey<T>(key: T -> int, k: int): T -> bool {
    x => key(x) == k
  }

  /** Elements with equal keys keep their order. */
  lemma SortIsStable<T>(s: seq<T>, key: T -> int, k: int)
    ensures Filter(Sort(s, key), HasKey(key, k)) == Filter(s, HasKey(key, k))
  {
    var keep := HasKey(key, k);
    var same := Filter(s, keep);
    FilterCommutesWithSort(s, key, keep);
    forall i | 0 <= i < |same|
      ensures key(same[i]) == k
    {
      FilterKeeps(s, keep, i);
    }
    SortedIsFixed(same, key);
  }

  lemma {:induction false} FilterKeeps<T>(s: seq<T>, keep: T -> bool, i: nat)
    requires i < |Filter(s, keep)|
    ensures keep(Filter(s, keep)[i])
  {
    if i < |Filter(Init(s), keep)| {
      FilterKeeps(Init(s), keep, i);
    }
  }
}
