/**
 The walk of `original_frames`, from a flow row as SQLite holds it: two signed 64-bit numbers.
 Python neither refuses a negative reference nor keeps it out of `unpack_from`, which counts a
 negative offset from the end of the file.
 */
module PythonWalk {
  import opened Wrappers
  import opened Bytes
  import opened Ledger
  import opened References
  import opened ChainWalk

  // The row at a reference, which may be negative.
  function ReadRow(refs: bytes, current: int): Result<Ref, WalkError> {
    if current * REF_SIZE + REF_SIZE > |refs| then Err(OutsideRefs)
    else if current >= 0 then Ok(RowAt(refs, current))
    else if |refs| + current * REF_SIZE < 0 then Err(BeforeRefs)
    else Ok(FromEnd(refs, 0 - current))
  }

  // The row that starts `k` rows before the end of the file.
  function FromEnd(refs: bytes, k: nat): Ref
    requires 0 < k && k * REF_SIZE <= |refs|
  {
    DecodeRef(refs[|refs| - k * REF_SIZE..|refs| - k * REF_SIZE + REF_SIZE])
  }

  // The rows from `current` backward, newest first, when `seen` rows were passed already.
  function PythonFrom(refs: bytes, flow: nat, packets: int, current: int, seen: nat): Result<seq<Ref>, WalkError>
    decreases if packets > seen then packets - seen else 0
  {
    if current == NO_REF then Ok([]) else
    match ReadRow(refs, current)
    case Err(e) => Err(e)
    case Ok(row) =>
      if row.owner != flow then Err(CrossedOwner(row.owner))
      else if seen + 1 > packets then Err(Cycle)
      else Cons(row, PythonFrom(refs, flow, packets, row.previous, seen + 1))
  }

  function PythonAnswer(refs: bytes, flow: nat, lastRef: i64, packets: i64): Result<seq<u32>, WalkError> {
    match PythonFrom(refs, flow, packets, lastRef, 0)
    case Err(e) => Err(e)
    case Ok(rs) => if |rs| == packets then Ok(Frames(Reversed(rs))) else Err(WrongCount(|rs|))
  }

  // The guard and `unpack_from`.
  method Unpack(refs: bytes, current: int) returns (row: Result<Ref, WalkError>)
    ensures row == ReadRow(refs, current)
  {
    var offset := current * REF_SIZE;
    if offset + REF_SIZE > |refs| {
      return Err(OutsideRefs);
    }
    if offset < 0 {
      offset := offset + |refs|;
      if offset < 0 {
        return Err(BeforeRefs);
      }
    }
    return Ok(DecodeRef(refs[offset..offset + REF_SIZE]));
  }

  method WalkInPython(refs: bytes, flow: nat, lastRef: i64, packets: i64)
      returns (r: Result<seq<u32>, WalkError>, ghost steps: nat)
    ensures steps <= if packets >= 0 then packets + 1 else 1
    ensures r == PythonAnswer(refs, flow, lastRef, packets)
  {
    hide ReadRow, PythonFrom, Frames, Reversed, Append, Cons;
    var frames: seq<u32> := [];
    var current: int := lastRef;
    steps := 0;
    ghost var chain: seq<Ref> := [];
    AppendNothing(PythonFrom(refs, flow, packets, lastRef, 0));
    while current != NO_REF
      invariant frames == Frames(chain) && steps == |chain| && (steps > 0 ==> steps <= packets)
      invariant PythonFrom(refs, flow, packets, lastRef, 0)
             == Append(chain, PythonFrom(refs, flow, packets, current, |chain|))
      decreases packets - |chain|
    {
      steps := steps + 1;
      PythonStep(refs, flow, packets, current, chain);
      var read := Unpack(refs, current);
      if read.Err? {
        return Err(read.error), steps;
      }
      var row := read.value;
      if row.owner != flow {
        return Err(CrossedOwner(row.owner)), steps;
      }
      frames := frames + [row.frame];
      if |frames| > packets {
        return Err(Cycle), steps;
      }
      chain := chain + [row];
      assert frames == Frames(chain);
      current := row.previous;
    }
    PythonStep(refs, flow, packets, current, chain);
    frames := Reversed(frames);
    if |frames| != packets {
      return Err(WrongCount(|frames|)), steps;
    }
    assert frames == Frames(Reversed(chain));
    return Ok(frames), steps;
  }

  // One turn of the loop, as a step of the specification.
  lemma PythonStep(refs: bytes, flow: nat, packets: int, current: int, chain: seq<Ref>)
    ensures var row := ReadRow(refs, current);
            Append(chain, PythonFrom(refs, flow, packets, current, |chain|)) ==
              if current == NO_REF then Ok(chain)
              else if row.Err? then Err(row.error)
              else if row.value.owner != flow then Err(CrossedOwner(row.value.owner))
              else if |chain| + 1 > packets then Err(Cycle)
              else Append(chain + [row.value], PythonFrom(refs, flow, packets, row.value.previous, |chain| + 1))
  {
    hide ReadRow;
    var row := ReadRow(refs, current);
    assert chain + [] == chain;
    if row.Ok? {
      AppendCons(chain, row.value, PythonFrom(refs, flow, packets, row.value.previous, |chain| + 1));
    }
  }

  lemma ReadsRow(refs: bytes, current: int)
    ensures current * REF_SIZE + REF_SIZE > |refs| ==> ReadRow(refs, current) == Err(OutsideRefs)
    ensures current * REF_SIZE + REF_SIZE <= |refs| && current >= 0 ==> ReadRow(refs, current) == Ok(RowAt(refs, current))
    ensures current < 0 && |refs| + current * REF_SIZE < 0 ==> ReadRow(refs, current) == Err(BeforeRefs)
    ensures current < 0 && |refs| + current * REF_SIZE >= 0 ==> ReadRow(refs, current) == Ok(FromEnd(refs, 0 - current))
  {
  }

  // ------------------------------------------------------------ against the Rust walk

  // Rust reads the row into unsigned numbers first.
  function RustAnswer(refs: bytes, flow: nat, lastRef: i64, packets: i64): Result<seq<Ref>, WalkError> {
    if lastRef < 0 || packets < 0 then Err(BadRow) else Walk(refs, flow, lastRef, packets)
  }

  method WalkRowInRust(refs: bytes, flow: nat, lastRef: i64, packets: i64)
      returns (r: Result<seq<Ref>, WalkError>, ghost steps: nat)
    requires |refs| < 0x1_0000_0000_0000_0000
    ensures steps <= if packets >= 0 then packets + 1 else 0
    ensures r.Ok? ==> r == RustAnswer(refs, flow, lastRef, packets)
    ensures r.Err? ==> RustAnswer(refs, flow, lastRef, packets)
                       == Err(if r.error.OffsetOverflow? then OutsideRefs else r.error)
  {
    if lastRef < 0 || packets < 0 {
      return Err(BadRow), 0;
    }
    r, steps := WalkInRust(refs, flow, lastRef, packets);
  }

  // Both walks refuse, or both return the same frames in the same order.
  ghost predicate SameAnswer(refs: bytes, flow: nat, lastRef: i64, packets: i64) {
    var rust, python := RustAnswer(refs, flow, lastRef, packets), PythonAnswer(refs, flow, lastRef, packets);
    (rust.Err? && python.Err?) || (rust.Ok? && python == Ok(Frames(rust.value)))
  }

  lemma {:induction false} SameFrom(refs: bytes, flow: nat, packets: nat, current: u64, seen: nat)
    requires seen <= packets
    ensures PythonFrom(refs, flow, packets, current, seen) == WalkFrom(refs, flow, packets, current, seen)
    decreases packets - seen
  {
    hide RowAt;
    if current != NO_REF && InRefs(refs, current) && seen < packets {
      SameFrom(refs, flow, packets, RowAt(refs, current).previous, seen + 1);
    }
  }

  /** From a row without negative numbers the answers agree, refusals included. */
  lemma SameFromUnsignedRow(refs: bytes, flow: nat, lastRef: i64, packets: i64)
    requires lastRef >= 0 && packets >= 0
    ensures var w := Walk(refs, flow, lastRef, packets);
            PythonAnswer(refs, flow, lastRef, packets) == if w.Ok? then Ok(Frames(w.value)) else Err(w.error)
  {
    SameFrom(refs, flow, packets, lastRef, 0);
  }

  // A chain of `packets` rows of the flow, the newest of which lies `k` rows before the end.
  ghost predicate ChainFromEnd(refs: bytes, flow: nat, k: nat, packets: int)
    requires k > 0
  {
    && k * REF_SIZE <= |refs| && FromEnd(refs, k).owner == flow
    && exists path :: IsChain(refs, flow, FromEnd(refs, k).previous, path) && |path| + 1 == packets
  }

  /** Python follows a negative reference to its end exactly when it finds a chain there. */
  lemma NegativeRowIsFollowed(refs: bytes, flow: nat, lastRef: i64, packets: i64)
    requires lastRef < 0
    ensures PythonAnswer(refs, flow, lastRef, packets).Ok? <==> ChainFromEnd(refs, flow, 0 - lastRef, packets)
  {
    hide FromEnd, IsChain;
    var k := 0 - lastRef;
    ReadsRow(refs, lastRef);
    if k * REF_SIZE <= |refs| && FromEnd(refs, k).owner == flow && packets >= 1 {
      var previous := FromEnd(refs, k).previous;
      SameFrom(refs, flow, packets, previous, 1);
      if PythonAnswer(refs, flow, lastRef, packets).Ok? {
        var path := WalkFollowsChain(refs, flow, packets, previous, 1);
      }
      if path :| IsChain(refs, flow, previous, path) && |path| + 1 == packets {
        WalkFindsChain(refs, flow, packets, previous, 1, path);
      }
    }
  }

  /**
   On any bytes and any flow row the two walks agree if and only if the last reference is not
   negative, or no chain starts where it points to, counted from the end of the file.
   */
  lemma WalksAgree(refs: bytes, flow: nat, lastRef: i64, packets: i64)
    ensures SameAnswer(refs, flow, lastRef, packets)
            <==> lastRef >= 0 || !ChainFromEnd(refs, flow, 0 - lastRef, packets)
  {
    hide ChainFromEnd, PythonFrom, WalkFrom;
    if lastRef < 0 {
      NegativeRowIsFollowed(refs, flow, lastRef, packets);
    } else if packets >= 0 {
      SameFromUnsignedRow(refs, flow, lastRef, packets);
    } else {
      NegativeCountIsRefused(refs, flow, lastRef, packets);
    }
  }

  lemma NegativeCountIsRefused(refs: bytes, flow: nat, lastRef: i64, packets: i64)
    requires packets < 0
    ensures PythonAnswer(refs, flow, lastRef, packets).Err?
  {
  }

  // A file is shorter than 2^63 bytes.
  const LONGEST := 0x8000_0000_0000_0000

  /**
   The sign of the last reference is the guard: each negative one is followed in some file, down
   to the point where no file is long enough.
   */
  lemma OnlyUnsignedRowsAgree(lastRef: i64)
    ensures (forall refs: bytes, flow: u32, packets: i64 | |refs| < LONGEST :: SameAnswer(refs, flow, lastRef, packets))
            <==> lastRef >= 0 || (0 - lastRef) * REF_SIZE >= LONGEST
  {
    hide SameAnswer, LastRowOfFile, EncodeRef;
    if lastRef >= 0 || (0 - lastRef) * REF_SIZE >= LONGEST {
      forall refs: bytes, flow: u32, packets: i64 | |refs| < LONGEST
        ensures SameAnswer(refs, flow, lastRef, packets)
      {
        WalksAgree(refs, flow, lastRef, packets);
      }
    } else {
      var r := Ref(24, 70, 9, NO_REF, 0);
      var refs := LastRowOfFile(r, 0 - lastRef);
      NegativeRowReadsFromEnd(refs, r, 0 - lastRef, lastRef);
      Disagree(refs, 0, lastRef, 1, [9]);
      assert |refs| < LONGEST && !SameAnswer(refs, 0, lastRef, 1);
    }
  }

  lemma Disagree(refs: bytes, flow: nat, lastRef: i64, packets: i64, frames: seq<u32>)
    requires lastRef < 0 && PythonAnswer(refs, flow, lastRef, packets) == Ok(frames)
    ensures !SameAnswer(refs, flow, lastRef, packets)
  {
  }

  // One row, then `k - 1` rows of zeros.
  function LastRowOfFile(r: Ref, k: nat): (refs: bytes)
    requires k > 0
    ensures |refs| == k * REF_SIZE && refs[..REF_SIZE] == EncodeRef(r)
  {
    EncodeRef(r) + seq((k - 1) * REF_SIZE, (_: nat) => 0)
  }

  /**
   In a file of `k` rows the reference -k is outside, yet when the first row ends a chain Python
   answers with its frame. Rust refuses the row.
   */
  lemma NegativeRowReadsFromEnd(refs: bytes, r: Ref, k: nat, lastRef: i64)
    requires k > 0 && |refs| == k * REF_SIZE && refs[..REF_SIZE] == EncodeRef(r) && r.previous == NO_REF
    requires lastRef == 0 - k
    ensures PythonAnswer(refs, r.owner, lastRef, 1) == Ok([r.frame])
    ensures RustAnswer(refs, r.owner, lastRef, 1) == Err(BadRow)
  {
    hide FromEnd, EncodeRef;
    FirstRowFromEnd(refs, r, k);
    ReadsRow(refs, lastRef);
    assert PythonFrom(refs, r.owner, 1, r.previous, 1) == Ok([]);
    assert [r] + [] == [r];
    assert Reversed([r]) == [r] && Frames([r]) == [r.frame];
  }

  lemma FirstRowFromEnd(refs: bytes, r: Ref, k: nat)
    requires k > 0 && |refs| == k * REF_SIZE && refs[..REF_SIZE] == EncodeRef(r)
    ensures FromEnd(refs, k) == r
  {
    hide DecodeRef, EncodeRef;
    RefReadsBack(r);
    assert refs[0..REF_SIZE] == refs[..REF_SIZE];
  }
}
