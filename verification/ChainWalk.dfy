/**
 Walking the reference chain of one flow, as `extract` does: on arbitrary bytes, and on what
 the indexer wrote. `PythonWalk` has the walk of `original_frames`.
 */
module ChainWalk {
  import opened Wrappers
  import opened Bytes
  import opened Sequences
  import opened Ledger
  import opened References

  datatype WalkError =
    | BadRow            // the flow row holds a negative number
    | OffsetOverflow
    | OutsideRefs
    | BeforeRefs        // a negative position before the start of the file
    | CrossedOwner(owner: u32)
    | Cycle
    | WrongCount(found: nat)

  predicate InRefs(refs: bytes, current: nat) {
    REF_SIZE * current + REF_SIZE <= |refs|
  }

  function RowAt(refs: bytes, current: nat): Ref
    requires InRefs(refs, current)
  {
    DecodeRef(refs[REF_SIZE * current..REF_SIZE * current + REF_SIZE])
  }

  function Reversed<T>(s: seq<T>): (r: seq<T>)
    ensures |r| == |s|
    ensures forall k | 0 <= k < |s| :: r[k] == s[|s| - 1 - k]
  {
    if |s| == 0 then [] else Reversed(s[1..]) + [s[0]]
  }

  function Cons(r: Ref, rest: Result<seq<Ref>, WalkError>): Result<seq<Ref>, WalkError> {
    match rest
    case Ok(rs) => Ok([r] + rs)
    case Err(e) => Err(e)
  }

  // The rows from `current` backward, newest first, when `seen` rows were passed already.
  function WalkFrom(refs: bytes, flow: nat, packets: nat, current: u64, seen: nat): Result<seq<Ref>, WalkError>
    requires seen <= packets
    decreases packets - seen
  {
    if current == NO_REF then Ok([])
    else if !InRefs(refs, current) then Err(OutsideRefs)
    else if RowAt(refs, current).owner != flow then Err(CrossedOwner(RowAt(refs, current).owner))
    else if seen == packets then Err(Cycle)
    else Cons(RowAt(refs, current), WalkFrom(refs, flow, packets, RowAt(refs, current).previous, seen + 1))
  }

  // The rows of a flow in source order, if the chain is intact.
  function Walk(refs: bytes, flow: nat, lastRef: u64, packets: nat): Result<seq<Ref>, WalkError> {
    match WalkFrom(refs, flow, packets, lastRef, 0)
    case Err(e) => Err(e)
    case Ok(rs) => if |rs| == packets then Ok(Reversed(rs)) else Err(WrongCount(|rs|))
  }

  function Append(done: seq<Ref>, rest: Result<seq<Ref>, WalkError>): Result<seq<Ref>, WalkError> {
    match rest
    case Ok(rs) => Ok(done + rs)
    case Err(e) => Err(e)
  }

  lemma AppendCons(done: seq<Ref>, r: Ref, rest: Result<seq<Ref>, WalkError>)
    ensures Append(done, Cons(r, rest)) == Append(done + [r], rest)
  {
    if rest.Ok? {
      assert done + ([r] + rest.value) == done + [r] + rest.value;
    }
  }

  lemma AppendNothing(rest: Result<seq<Ref>, WalkError>)
    ensures Append([], rest) == rest
  {
    if rest.Ok? {
      assert [] + rest.value == rest.value;
    }
  }

  // The walk of `extract`: offsets are multiplied in 64 bits, the count is checked after
  // stepping back.
  method WalkInRust(refs: bytes, flow: nat, lastRef: u64, packets: nat)
      returns (r: Result<seq<Ref>, WalkError>, ghost steps: nat)
    requires |refs| < 0x1_0000_0000_0000_0000
    ensures steps <= packets + 1
    ensures r.Ok? ==> r == Walk(refs, flow, lastRef, packets)
    ensures r.Err? ==> Walk(refs, flow, lastRef, packets)
                       == Err(if r.error.OffsetOverflow? then OutsideRefs else r.error)
  {
    hide RowAt;
    var chain: seq<Ref> := [];
    var current: u64 := lastRef;
    steps := 0;
    AppendNothing(WalkFrom(refs, flow, packets, lastRef, 0));
    while current != NO_REF
      invariant |chain| == steps <= packets
      invariant WalkFrom(refs, flow, packets, lastRef, 0)
             == Append(chain, WalkFrom(refs, flow, packets, current, |chain|))
      decreases packets - |chain|
    {
      steps := steps + 1;
      if REF_SIZE * current >= 0x1_0000_0000_0000_0000 {
        return Err(OffsetOverflow), steps;
      }
      if !InRefs(refs, current) {
        return Err(OutsideRefs), steps;
      }
      var row := RowAt(refs, current);
      if row.owner != flow {
        return Err(CrossedOwner(row.owner)), steps;
      }
      ghost var before := chain;
      chain := chain + [row];
      current := row.previous;
      if |chain| > packets {
        return Err(Cycle), steps;
      }
      AppendCons(before, row, WalkFrom(refs, flow, packets, current, |chain|));
    }
    assert chain + [] == chain;
    if |chain| != packets {
      return Err(WrongCount(|chain|)), steps;
    }
    return Ok(Reversed(chain)), steps;
  }

  function Frames(rs: seq<Ref>): (s: seq<u32>)
    ensures |s| == |rs| && forall k | 0 <= k < |rs| :: s[k] == rs[k].frame
  {
    if |rs| == 0 then [] else [rs[0].frame] + Frames(rs[1..])
  }

  // ------------------------------------------------------------ arbitrary bytes

  // The positions of an intact chain, newest first.
  ghost predicate IsChain(refs: bytes, flow: nat, current: u64, path: seq<u64>)
    decreases |path|
  {
    if |path| == 0 then current == NO_REF else
      && path[0] == current && current != NO_REF
      && InRefs(refs, current) && RowAt(refs, current).owner == flow
      && IsChain(refs, flow, RowAt(refs, current).previous, path[1..])
  }

  lemma {:induction false} OneChain(refs: bytes, flow: nat, current: u64, p: seq<u64>, q: seq<u64>)
    requires IsChain(refs, flow, current, p) && IsChain(refs, flow, current, q)
    ensures p == q
    decreases |p|
  {
    if |p| > 0 {
      OneChain(refs, flow, RowAt(refs, current).previous, p[1..], q[1..]);
      assert p == [p[0]] + p[1..] && q == [q[0]] + q[1..];
    }
  }

  lemma {:induction false} ChainSuffix(refs: bytes, flow: nat, current: u64, path: seq<u64>, k: nat)
    requires IsChain(refs, flow, current, path) && k < |path|
    ensures IsChain(refs, flow, path[k], path[k..])
    decreases |path|
  {
    if k == 0 {
      assert path[0..] == path;
    } else {
      ChainSuffix(refs, flow, RowAt(refs, current).previous, path[1..], k - 1);
      assert path[1..][k - 1..] == path[k..];
    }
  }

  /** A chain never visits a reference twice: it would never end. */
  lemma ChainIsDistinct(refs: bytes, flow: nat, current: u64, path: seq<u64>, j: nat, k: nat)
    requires IsChain(refs, flow, current, path) && j < k < |path|
    ensures path[j] != path[k]
  {
    if path[j] == path[k] {
      ChainSuffix(refs, flow, current, path, j);
      ChainSuffix(refs, flow, current, path, k);
      OneChain(refs, flow, path[j], path[j..], path[k..]);
    }
  }

  lemma {:induction false} ChainInRefs(refs: bytes, flow: nat, current: u64, path: seq<u64>)
    requires IsChain(refs, flow, current, path)
    ensures forall p | p in path :: InRefs(refs, p) && RowAt(refs, p).owner == flow
    decreases |path|
  {
    if |path| > 0 {
      ChainInRefs(refs, flow, RowAt(refs, current).previous, path[1..]);
      assert path == [path[0]] + path[1..];
    }
  }

  lemma {:induction false} WalkFindsChain(refs: bytes, flow: nat, packets: nat, current: u64, seen: nat, path: seq<u64>)
    requires IsChain(refs, flow, current, path) && seen + |path| <= packets
    ensures WalkFrom(refs, flow, packets, current, seen).Ok?
    ensures |WalkFrom(refs, flow, packets, current, seen).value| == |path|
    decreases |path|
  {
    if |path| > 0 {
      WalkFindsChain(refs, flow, packets, RowAt(refs, current).previous, seen + 1, path[1..]);
    }
  }

  lemma {:induction false} WalkFollowsChain(refs: bytes, flow: nat, packets: nat, current: u64, seen: nat)
      returns (path: seq<u64>)
    requires seen <= packets && WalkFrom(refs, flow, packets, current, seen).Ok?
    ensures IsChain(refs, flow, current, path) && seen + |path| <= packets
    ensures |path| == |WalkFrom(refs, flow, packets, current, seen).value|
    ensures forall k | 0 <= k < |path| ::
              InRefs(refs, path[k]) && WalkFrom(refs, flow, packets, current, seen).value[k] == RowAt(refs, path[k])
    decreases packets - seen
  {
    if current == NO_REF {
      path := [];
    } else {
      var rest := WalkFollowsChain(refs, flow, packets, RowAt(refs, current).previous, seen + 1);
      path := [current] + rest;
      assert path[1..] == rest;
    }
  }

  /**
   On any bytes and any flow row, the walk succeeds exactly when there is an intact chain of
   `packets` rows.
   */
  lemma WalkIsExact(refs: bytes, flow: nat, lastRef: u64, packets: nat)
    ensures Walk(refs, flow, lastRef, packets).Ok? <==>
            exists path :: IsChain(refs, flow, lastRef, path) && |path| == packets
  {
    hide IsChain;
    if Walk(refs, flow, lastRef, packets).Ok? {
      var found := WalkFollowsChain(refs, flow, packets, lastRef, 0);
      assert IsChain(refs, flow, lastRef, found) && |found| == packets;
    }
    if path :| IsChain(refs, flow, lastRef, path) && |path| == packets {
      WalkFindsChain(refs, flow, packets, lastRef, 0, path);
    }
  }

  /** It then returns the rows of that chain, oldest first: distinct, in bounds, owned by the flow. */
  lemma WalkReturnsChain(refs: bytes, flow: nat, lastRef: u64, packets: nat, path: seq<u64>, k: nat)
    requires IsChain(refs, flow, lastRef, path) && |path| == packets && k < packets
    ensures Walk(refs, flow, lastRef, packets).Ok? && |Walk(refs, flow, lastRef, packets).value| == packets
    ensures InRefs(refs, path[packets - 1 - k]) && RowAt(refs, path[packets - 1 - k]).owner == flow
    ensures Walk(refs, flow, lastRef, packets).value[k] == RowAt(refs, path[packets - 1 - k])
    ensures forall j | 0 <= j < packets && j != packets - 1 - k :: path[j] != path[packets - 1 - k]
  {
    hide IsChain, RowAt;
    WalkFindsChain(refs, flow, packets, lastRef, 0, path);
    var found := WalkFollowsChain(refs, flow, packets, lastRef, 0);
    OneChain(refs, flow, lastRef, path, found);
    ChainInRefs(refs, flow, lastRef, path);
    assert path[packets - 1 - k] in path;
    forall j | 0 <= j < packets && j != packets - 1 - k
      ensures path[j] != path[packets - 1 - k]
    {
      if j < packets - 1 - k {
        ChainIsDistinct(refs, flow, lastRef, path, j, packets - 1 - k);
      } else {
        ChainIsDistinct(refs, flow, lastRef, path, packets - 1 - k, j);
      }
    }
  }

  // ------------------------------------------------------------ what the indexer wrote

  // The rows of flow `i` among the first `k` log entries, newest first.
  ghost function Backward(log: Log, i: nat, k: nat): seq<Ref>
    requires Fits(log) && k <= |log|
  {
    if k == 0 then []
    else if log[k - 1].owner == i then [RefOf(log, k - 1)] + Backward(log, i, k - 1)
    else Backward(log, i, k - 1)
  }

  lemma PrefixStep(log: Log, k: nat, i: nat)
    requires 0 < k <= |log|
    ensures Init(log[..k]) == log[..k - 1] && Last(log[..k]) == log[k - 1]
    ensures LastPosition(log[..k], i) == if log[k - 1].owner == i then Some(k - 1) else LastPosition(log[..k - 1], i)
    ensures Members(log[..k], i)
         == if log[k - 1].owner == i then Members(log[..k - 1], i) + [log[k - 1].item] else Members(log[..k - 1], i)
  {
    assert Init(log[..k]) == log[..k - 1];
  }

  lemma EmptyPrefix(log: Log, i: nat)
    ensures Members(log[..0], i) == [] && LastPosition(log[..0], i) == None
  {
  }

  lemma {:induction false} WalkOfPrefix(log: Log, i: nat, k: nat, packets: nat, seen: nat)
    requires Fits(log) && k <= |log| && seen + |Members(log[..k], i)| <= packets
    ensures |Backward(log, i, k)| == |Members(log[..k], i)|
    ensures WalkFrom(EncodeLog(log), i, packets, AsRef(LastPosition(log[..k], i)), seen) == Ok(Backward(log, i, k))
    decreases k
  {
    hide EncodeLog, DecodeRef, Members, LastPosition, StoredSize;
    if k == 0 {
      EmptyPrefix(log, i);
    } else {
      PrefixStep(log, k, i);
      if log[k - 1].owner == i {
        EncodedLogDecodes(log, k - 1);
        assert RefOf(log, k - 1).previous == AsRef(LastPosition(log[..k - 1], i));
        WalkOfPrefix(log, i, k - 1, packets, seen + 1);
      } else {
        WalkOfPrefix(log, i, k - 1, packets, seen);
      }
    }
  }

  ghost predicate RefersTo(r: Ref, x: Item, i: nat) {
    r.offset == x.offset && r.size == StoredSize(x) && r.frame == x.frame && r.owner == i
  }

  lemma {:induction false} BackwardIsMembers(log: Log, i: nat, k: nat)
    requires Fits(log) && k <= |log|
    ensures |Backward(log, i, k)| == |Members(log[..k], i)|
    ensures forall n | 0 <= n < |Members(log[..k], i)| ::
              RefersTo(Reversed(Backward(log, i, k))[n], Members(log[..k], i)[n], i)
  {
    if k > 0 {
      PrefixStep(log, k, i);
      BackwardIsMembers(log, i, k - 1);
      if log[k - 1].owner == i {
        assert Backward(log, i, k)[1..] == Backward(log, i, k - 1);
        assert FitsRow(log[k - 1]);
      }
    }
  }

  /**
   After a scan no guard of the walk fires: the chain of every flow yields one reference per
   record of the flow, in source order.
   */
  lemma WalkAfterScan(log: Log, i: nat)
    requires Fits(log) && KeyOf(log, i).Some?
    ensures var w := Walk(EncodeLog(log), i, Row(log, i).lastRef, Row(log, i).packets);
            && w.Ok? && |w.value| == |Members(log, i)|
            && forall n | 0 <= n < |w.value| :: RefersTo(w.value[n], Members(log, i)[n], i)
  {
    assert log[..|log|] == log;
    WalkOfPrefix(log, i, |log|, |Members(log, i)|, 0);
    BackwardIsMembers(log, i, |log|);
  }
}
