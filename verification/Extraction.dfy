/** Materialising one flow (`extract`): walk its chain, copy its records. */
module Extraction {
  import opened Wrappers
  import opened Bytes
  import opened Sequences
  import opened Ledger
  import opened Capture
  import opened References
  import opened ChainWalk

  datatype ExtractError = BadChain(error: WalkError) | RecordOutsideCapture

  // The bytes that the references name, one after the other.
  function Copied(c: bytes, rs: seq<Ref>): Option<bytes> {
    if |rs| == 0 then Some([])
    else if Last(rs).offset + Last(rs).size > |c| then None
    else match Copied(c, Init(rs))
      case None => None
      case Some(before) => Some(before + c[Last(rs).offset..Last(rs).offset + Last(rs).size])
  }

  function Extracted(c: bytes, refs: bytes, flow: nat, lastRef: u64, packets: nat): Result<bytes, ExtractError>
    requires |c| >= HEADER
  {
    match Walk(refs, flow, lastRef, packets)
    case Err(e) => Err(BadChain(e))
    case Ok(chain) =>
      match Copied(c, chain)
      case None => Err(RecordOutsideCapture)
      case Some(body) => Ok(c[..HEADER] + body)
  }

  lemma {:induction false} CopyStops(c: bytes, rs: seq<Ref>, k: nat)
    requires k < |rs| && rs[k].offset + rs[k].size > |c|
    ensures Copied(c, rs) == None
  {
    if k < |rs| - 1 {
      CopyStops(c, Init(rs), k);
    }
  }

  method Extract(c: bytes, refs: bytes, flow: nat, lastRef: u64, packets: nat) returns (r: Result<bytes, ExtractError>)
    requires HEADER <= |c| && |refs| < 0x1_0000_0000_0000_0000
    ensures Extracted(c, refs, flow, lastRef, packets)
            == if r == Err(BadChain(OffsetOverflow)) then Err(BadChain(OutsideRefs)) else r
  {
    var walked, steps := WalkInRust(refs, flow, lastRef, packets);
    if walked.Err? {
      return Err(BadChain(walked.error));
    }
    var chain := walked.value;
    var out := c[..HEADER];
    for n := 0 to |chain|
      invariant Copied(c, chain[..n]).Some? && out == c[..HEADER] + Copied(c, chain[..n]).value
    {
      var a := chain[n].offset;
      var b := a + chain[n].size;
      if b > |c| {
        CopyStops(c, chain, n);
        return Err(RecordOutsideCapture);
      }
      assert Init(chain[..n + 1]) == chain[..n];
      out := out + c[a..b];
    }
    assert chain[..|chain|] == chain;
    return Ok(out);
  }

  // ------------------------------------------------------------ what ought to be written

  // One source record, header and packet.
  function Raw(c: bytes, x: Item): bytes
    requires RecordEnd(x) <= |c|
  {
    c[x.offset..RecordEnd(x)]
  }

  ghost predicate AllInside(c: bytes, items: seq<Item>) {
    forall x | x in items :: RecordEnd(x) <= |c|
  }

  // The records themselves, byte for byte, in order.
  ghost function RawAll(c: bytes, items: seq<Item>): bytes
    requires AllInside(c, items)
  {
    if |items| == 0 then [] else RawAll(c, Init(items)) + Raw(c, Last(items))
  }

  // A record whose size does not survive `(16 + incl) as u32`.
  predicate Oversized(x: Item) { RECORD_HEADER + x.incl >= 0x1_0000_0000 }

  // ------------------------------------------------------------ the log of a scan

  lemma {:induction false} ReplayIsNoLonger(items: seq<Item>)
    ensures |Replay(items)| <= |items|
  {
    if |items| > 0 {
      ReplayIsNoLonger(Init(items));
    }
  }

  lemma {:induction false} ItemsAreNoMore(c: bytes, nanos: bool, records: seq<Record>)
    requires Inside(c, records)
    ensures |ItemsOf(c, nanos, records)| <= |records|
  {
    hide ItemOf;
    if |records| > 0 {
      ItemsAreNoMore(c, nanos, Init(records));
    }
  }

  lemma {:induction false} EntriesAreMembers(log: Log, k: nat)
    requires k < |log|
    ensures log[k].item in Members(log, log[k].owner)
  {
    if k < |log| - 1 {
      EntriesAreMembers(Init(log), k);
    }
  }

  /**
   No number is truncated: fewer than 2^32 flows and references, so flow ids fit 32 bits and
   no reference equals the end marker.
   */
  lemma ScanFits(c: bytes)
    requires |c| < 0x1_0000_0000_0000_0000 && Scanned(c).Ok?
    ensures var log := Scanned(c).value;
            Grown(log) && Fits(log) && FlowCount(log) <= |log| < 0x1_0000_0000
  {
    hide RecordsFrom, ReadFormat, ItemsOf, Replay, Members;
    var f := ReadFormat(c).value;
    var records := RecordsFrom(c, f.little, HEADER, 0).value;
    RecordsAreLaidOut(c, f.little, HEADER, 0);
    var items := ItemsOf(c, f.nanos, records);
    var log := Replay(items);
    assert Scanned(c).value == log;
    ReplayGrows(items);
    ReplayIsNoLonger(items);
    ItemsAreNoMore(c, f.nanos, records);
    CountIsBounded(log);
    forall k | 0 <= k < |log|
      ensures FitsRow(log[k])
    {
      EntriesAreMembers(log, k);
      MemberIsInside(c, log[k].owner, log[k].item);
      OwnersBelowCount(log, k);
    }
  }

  // ------------------------------------------------------------ exactness

  // The stored size is the size of the record, or less when it is too large.
  lemma CopiedPiece(r: Ref, x: Item, i: nat)
    requires RefersTo(r, x, i)
    ensures r.offset == x.offset && r.offset + r.size <= RecordEnd(x)
    ensures r.offset + r.size == RecordEnd(x) <==> !Oversized(x)
  {
  }

  lemma {:induction false} CopiedBody(c: bytes, rs: seq<Ref>, items: seq<Item>, i: nat)
    requires |rs| == |items| && AllInside(c, items)
    requires forall n | 0 <= n < |rs| :: RefersTo(rs[n], items[n], i)
    ensures Copied(c, rs).Some?
    ensures |Copied(c, rs).value| <= |RawAll(c, items)|
    ensures Copied(c, rs).value == RawAll(c, items) <==> forall x | x in items :: !Oversized(x)
    ensures |Copied(c, rs).value| == |RawAll(c, items)| <==> forall x | x in items :: !Oversized(x)
  {
    hide RefersTo, Oversized, StoredSize;
    if |rs| > 0 {
      var x := Last(items);
      CopiedBody(c, Init(rs), Init(items), i);
      assert items == Init(items) + [x];
      CopiedPiece(Last(rs), x, i);
      assert x in items;
      var before, all := Copied(c, Init(rs)).value, RawAll(c, Init(items));
      if (forall y | y in Init(items) :: !Oversized(y)) && !Oversized(x) {
        assert Copied(c, rs).value == RawAll(c, items);
      } else {
        assert |Copied(c, rs).value| < |RawAll(c, items)|;
      }
    }
  }

  /**
   For every flow, extraction after a scan succeeds, and its output is the file header
   followed by precisely the records of the flow, byte for byte and in source order, if and
   only if none of these records is too large for its 32-bit size field.
   */
  lemma ExtractionIsExact(c: bytes, i: nat)
    requires |c| < 0x1_0000_0000_0000_0000 && Scanned(c).Ok? && i < FlowCount(Scanned(c).value)
    ensures Fits(Scanned(c).value) && KeyOf(Scanned(c).value, i).Some? && |c| >= HEADER
    ensures AllInside(c, Members(Scanned(c).value, i))
    ensures var log := Scanned(c).value;
            var out := Extracted(c, EncodeLog(log), i, Row(log, i).lastRef, Row(log, i).packets);
            && out.Ok?
            && (out.value == c[..HEADER] + RawAll(c, Members(log, i))
                <==> forall x | x in Members(log, i) :: !Oversized(x))
            && (|out.value| >= HEADER + |RawAll(c, Members(log, i))|
                <==> forall x | x in Members(log, i) :: !Oversized(x))
  {
    hide RecordsFrom, ReadFormat, ItemsOf, Replay, Scanned, Walk, RefersTo, Oversized, Members;
    var log := Scanned(c).value;
    ScanFits(c);
    FlowsHaveOneKey(log, i);
    forall x | x in Members(log, i)
      ensures RecordEnd(x) <= |c|
    {
      MemberIsInside(c, i, x);
    }
    WalkAfterScan(log, i);
    var w := Walk(EncodeLog(log), i, Row(log, i).lastRef, Row(log, i).packets).value;
    CopiedBody(c, w, Members(log, i), i);
    SameTail(c[..HEADER], Copied(c, w).value, RawAll(c, Members(log, i)));
  }

  lemma SameTail(head: bytes, a: bytes, b: bytes)
    ensures head + a == head + b <==> a == b
  {
    if head + a == head + b {
      assert a == (head + a)[|head|..] == (head + b)[|head|..] == b;
    }
  }

  // ------------------------------------------------------------ partition

  // All records of the first `n` flows together.
  ghost function Pooled(log: Log, n: nat): multiset<Item> {
    if n == 0 then multiset{} else Pooled(log, n - 1) + multiset(Members(log, n - 1))
  }

  lemma {:induction false} PooledSnoc(log: Log, e: Entry, n: nat)
    ensures Pooled(log + [e], n) == Pooled(log, n) + if e.owner < n then multiset{e.item} else multiset{}
  {
    if n > 0 {
      PooledSnoc(log, e, n - 1);
      MembersSnoc(log, e, n - 1);
    }
  }

  lemma {:induction false} PooledBeyond(log: Log, n: nat)
    requires n >= FlowCount(log)
    ensures Pooled(log, n) == Pooled(log, FlowCount(log))
  {
    hide Members, FlowCount;
    if n > FlowCount(log) {
      PooledBeyond(log, n - 1);
      NoMembersBeyondCount(log, n - 1);
    }
  }

  /** Over all flows, the extracted records are the indexed records, each exactly once. */
  lemma {:induction false} FlowsPartitionLog(log: Log)
    ensures Pooled(log, FlowCount(log)) == multiset(LogItems(log))
  {
    if |log| > 0 {
      var before, e := Init(log), Last(log);
      assert log == before + [e];
      FlowsPartitionLog(before);
      PooledSnoc(before, e, FlowCount(log));
      PooledBeyond(before, FlowCount(log));
      assert multiset(LogItems(before) + [e.item]) == multiset(LogItems(before)) + multiset{e.item};
    }
  }
}
