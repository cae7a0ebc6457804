/**
 Indexing an extracted flow gives that flow back. The proof has two halves: the extracted
 file parses to copies of the flow's records, and a log made of copies of one flow's
 records is that flow, alone.
 */
module Reindex {
  import opened Wrappers
  import opened Bytes
  import opened Packet
  import opened References
  import opened Sequences
  import opened Ledger
  import opened LedgerFacts
  import opened Capture
  import opened Extraction
  import opened ChainWalk
  import opened PythonWalk

  // ------------------------------------------------------------ copies of one flow's records

  // The same record at another place of another file.
  ghost predicate Twin(x: Item, y: Item) {
    x.incl == y.incl && x.ts == y.ts && x.packet == y.packet
  }

  ghost predicate Twins(xs: seq<Item>, ys: seq<Item>) {
    |xs| == |ys| && forall k | 0 <= k < |xs| :: Twin(xs[k], ys[k])
  }

  function Alone(items: seq<Item>): Log {
    if |items| == 0 then [] else Alone(Init(items)) + [Entry(Last(items), 0)]
  }

  lemma {:induction false} AloneHasMembers(items: seq<Item>)
    ensures Members(Alone(items), 0) == items && |Alone(items)| == |items|
    ensures FlowCount(Alone(items)) == if |items| == 0 then 0 else 1
  {
    if |items| > 0 {
      AloneHasMembers(Init(items));
      Snoc(Alone(Init(items)), Entry(Last(items), 0));
      assert items == Init(items) + [Last(items)];
    }
  }

  lemma {:induction false} AloneKnowsKey(items: seq<Item>, k: nat, key: FlowKey)
    requires k < |items| && items[k].packet.key == Some(key)
    ensures LatestWithKey(Alone(items), key) == Some(0)
  {
    Snoc(Alone(Init(items)), Entry(Last(items), 0));
    if Last(items).packet.key != Some(key) {
      AloneKnowsKey(Init(items), k, key);
    }
  }

  lemma {:induction false} AloneKnowsFragment(items: seq<Item>, k: nat, fk: FragmentKey)
    requires k < |items| && items[k].packet.fragment == Some(fk)
    ensures LatestWithFragment(Alone(items), fk) == Some(0)
  {
    Snoc(Alone(Init(items)), Entry(Last(items), 0));
    if Last(items).packet.fragment != Some(fk) {
      AloneKnowsFragment(Init(items), k, fk);
    }
  }

  lemma TwinsShareFlags(xs: seq<Item>, ys: seq<Item>)
    requires Twins(xs, ys)
    ensures forall flag | flag > 0 :: Saw(xs, flag) == Saw(ys, flag)
    ensures forall left :: SawFin(xs, left) == SawFin(ys, left)
    ensures Closed(xs) == Closed(ys) && FinMask(xs) == FinMask(ys)
  {
    HalfTwins(xs, ys);
    HalfTwins(ys, xs);
  }

  lemma HalfTwins(xs: seq<Item>, ys: seq<Item>)
    requires Twins(xs, ys)
    ensures forall flag | flag > 0 :: Saw(xs, flag) ==> Saw(ys, flag)
    ensures forall left :: SawFin(xs, left) ==> SawFin(ys, left)
  {
    forall x | x in xs
      ensures exists y :: y in ys && Twin(x, y)
    {
      var k :| 0 <= k < |xs| && xs[k] == x;
      assert Twin(xs[k], ys[k]) && ys[k] in ys;
    }
  }

  lemma {:induction false} TwinsShareSum(xs: seq<Item>, ys: seq<Item>, f: Item -> nat)
    requires Twins(xs, ys) && forall x, y | Twin(x, y) :: f(x) == f(y)
    ensures Sum(xs, f) == Sum(ys, f)
  {
    if |xs| > 0 {
      assert Twins(Init(xs), Init(ys));
      TwinsShareSum(Init(xs), Init(ys), f);
      assert Twin(Last(xs), Last(ys));
    }
  }

  // The first record of a flow, and where a further record of the flow is placed among the
  // copies of the earlier ones.
  lemma CopyIsPlacedInFlow(log: Log, x: Item, i: nat, copies: seq<Item>, y: Item)
    requires Grown(log) && Place(log, x) == Some(i)
    requires Twins(Members(log, i), copies) && Twin(x, y)
    ensures Place(Alone(copies), y) == Some(0)
  {
    hide Closed;
    var own := Members(log, i);
    AloneHasMembers(copies);
    PlaceIsBounded(log, x);
    if x.packet.nonInitial {
      var z := FragmentOwnerCarriesKey(log, x.packet.fragment.value);
      var k :| 0 <= k < |own| && own[k] == z;
      assert Twin(own[k], copies[k]);
      AloneKnowsFragment(copies, k, x.packet.fragment.value);
    } else if i == FlowCount(log) {
      NoMembersBeyondCount(log, i);
      assert copies == [];
    } else {
      var key := x.packet.key.value;
      KeyOwnerHasKey(log, key);
      FlowsHaveOneKey(log, i);
      assert Twin(own[0], copies[0]);
      AloneKnowsKey(copies, 0, key);
      TwinsShareFlags(own, copies);
    }
  }

  lemma {:induction false} ReplayOfCopies(log: Log, i: nat, copies: seq<Item>)
    requires Grown(log) && Twins(Members(log, i), copies)
    ensures Replay(copies) == Alone(copies)
  {
    if |log| > 0 {
      var before, e := Init(log), Last(log);
      if e.owner == i {
        var y := Last(copies);
        forall k | 0 <= k < |Init(copies)|
          ensures Twin(Members(before, i)[k], Init(copies)[k])
        {
          assert Twin(Members(log, i)[k], copies[k]);
        }
        ReplayOfCopies(before, i, Init(copies));
        assert Twin(Members(log, i)[|copies| - 1], copies[|copies| - 1]);
        CopyIsPlacedInFlow(before, e.item, i, Init(copies), y);
      } else {
        ReplayOfCopies(before, i, copies);
      }
    }
  }

  // What a row says of the connection, without its position in index and file.
  function Facts(f: Flow): Flow {
    f.(id := 0, generation := 0, firstFrame := 0, lastFrame := 0, firstRef := NO_REF, lastRef := NO_REF)
  }

  /** A capture that holds copies of the records of one flow indexes to that flow alone. */
  lemma CopiesIndexToTheFlow(log: Log, i: nat, copies: seq<Item>)
    requires Grown(log) && |log| < NO_REF && i < FlowCount(log)
    requires Twins(Members(log, i), copies)
    ensures var own := Replay(copies);
            && |own| < NO_REF && FlowCount(own) == 1 && Members(own, 0) == copies
            && KeyOf(log, i).Some? && KeyOf(own, 0).Some?
            && Row(own, 0).generation == 0 && Row(own, 0).id == 0
            && Facts(Row(own, 0)) == Facts(Row(log, i))
  {
    FlowsHaveOneKey(log, i);
    ReplayOfCopies(log, i, copies);
    AloneHasMembers(copies);
    MembersFitLog(log, i);
    var own, items := Replay(copies), Members(log, i);
    assert Twin(items[0], copies[0]) && Twin(Last(items), Last(copies));
    RowsOfTwins(log, i, own, 0);
  }

  lemma {:induction false} MembersFitLog(log: Log, i: nat)
    ensures |Members(log, i)| <= |log|
  {
    if |log| > 0 {
      MembersFitLog(Init(log), i);
    }
  }

  lemma RowsOfTwins(log: Log, i: nat, own: Log, j: nat)
    requires |log| < NO_REF && |own| < NO_REF
    requires KeyOf(log, i).Some? && Twins(Members(log, i), Members(own, j))
    ensures KeyOf(own, j).Some? && Facts(Row(own, j)) == Facts(Row(log, i))
  {
    var xs, ys := Members(log, i), Members(own, j);
    assert Twin(xs[0], ys[0]) && Twin(xs[|xs| - 1], ys[|ys| - 1]);
    TwinsShareFlags(xs, ys);
    TwinsShareSum(xs, ys, Captured);
    TwinsShareSum(xs, ys, Payload);
    TwinsShareSum(xs, ys, LeftPayload);
    TwinsShareSum(xs, ys, RightPayload);
    TwinsShareSum(xs, ys, ZeroWindow);
    hide Saw, SawFin, Closed, FinMask, Sum, KeyCount, Members, FirstPosition, LastPosition;
  }

  // ------------------------------------------------------------ the extracted file

  // The bytes at `x` in the file are a record with its size and time.
  ghost predicate Stored(c: bytes, f: Format, x: Item) {
    && RecordEnd(x) <= |c|
    && var r := RecordAt(c, f.little, x.offset);
       r.incl == x.incl && Timestamp(r, f.nanos) == x.ts
  }

  // And they parse to its packet.
  ghost predicate Parses(c: bytes, x: Item) {
    RecordEnd(x) <= |c| && Parse(c[x.offset + RECORD_HEADER..RecordEnd(x)], 1) == Some(x.packet)
  }

  lemma {:induction false} RecordsAreRead(c: bytes, little: bool, pos: nat, frame: nat)
    requires RecordsFrom(c, little, pos, frame).Ok?
    ensures forall r | r in RecordsFrom(c, little, pos, frame).value ::
              r.End() <= |c| && r == RecordAt(c, little, r.offset)
    decreases |c| - pos
  {
    hide Word;
    if pos + RECORD_HEADER <= |c| {
      var r := RecordAt(c, little, pos);
      RecordsAreRead(c, little, r.End(), frame + 1);
      assert RecordsFrom(c, little, pos, frame).value == [r] + RecordsFrom(c, little, r.End(), frame + 1).value;
    }
  }

  lemma {:induction false} ItemsAreStored(c: bytes, f: Format, records: seq<Record>)
    requires Inside(c, records)
    requires forall r | r in records :: r.End() <= |c| && r == RecordAt(c, f.little, r.offset)
    ensures forall x | x in ItemsOf(c, f.nanos, records) :: Stored(c, f, x) && Parses(c, x)
  {
    hide Parse, Timestamp, RecordAt;
    if |records| > 0 {
      assert records == Init(records) + [Last(records)];
      ItemsAreStored(c, f, Init(records));
      assert Last(records) in records;
    }
  }

  lemma MembersAreStored(c: bytes, i: nat)
    requires Scanned(c).Ok?
    ensures ReadFormat(c).Ok?
    ensures forall x | x in Members(Scanned(c).value, i) :: Stored(c, ReadFormat(c).value, x) && Parses(c, x)
  {
    hide RecordsFrom, ItemsOf, Replay, Members, Stored, Parses, ReadFormat, RecordAt;
    var f := ReadFormat(c).value;
    var records := RecordsFrom(c, f.little, HEADER, 0).value;
    RecordsAreLaidOut(c, f.little, HEADER, 0);
    RecordsAreRead(c, f.little, HEADER, 0);
    ItemsAreStored(c, f, records);
    var items := ItemsOf(c, f.nanos, records);
    ItemsAreRecords(c, f.nanos, records);
    ReplayKeepsOrder(items);
    MembersKeepOrder(Replay(items), i);
  }

  // A record copied to `pos` reads like its source.
  lemma CopyReadsAlike(c: bytes, f: Format, x: Item, d: bytes, pos: nat)
    requires Stored(c, f, x) && pos + RECORD_HEADER + x.incl <= |d|
    requires d[pos..pos + RECORD_HEADER + x.incl] == Raw(c, x)
    ensures var r := RecordAt(d, f.little, pos);
            && r == RecordAt(c, f.little, x.offset).(offset := pos)
            && r.End() == pos + |Raw(c, x)| <= |d|
            && PacketOf(d, r) == PacketOf(c, RecordAt(c, f.little, x.offset))
  {
    hide Parse, Timestamp, Word;
    var size := RECORD_HEADER + x.incl;
    CopiedPart(c, x.offset, d, pos, size, 0, 4);
    CopiedPart(c, x.offset, d, pos, size, 4, 8);
    CopiedPart(c, x.offset, d, pos, size, 8, 12);
    CopiedPart(c, x.offset, d, pos, size, RECORD_HEADER, size);
    CopiedWord(c, x.offset, d, pos, f.little);
    CopiedWord(c, x.offset + 4, d, pos + 4, f.little);
    CopiedWord(c, x.offset + 8, d, pos + 8, f.little);
  }

  lemma CopiedPart(c: bytes, at: nat, d: bytes, pos: nat, size: nat, a: nat, b: nat)
    requires at + size <= |c| && pos + size <= |d| && d[pos..pos + size] == c[at..at + size] && a <= b <= size
    ensures d[pos + a..pos + b] == c[at + a..at + b]
  {
    SliceOfSlice(d, pos, size, a, b);
    SliceOfSlice(c, at, size, a, b);
  }

  lemma CopiedWord(c: bytes, at: nat, d: bytes, pos: nat, little: bool)
    requires at + 4 <= |c| && pos + 4 <= |d| && d[pos..pos + 4] == c[at..at + 4]
    ensures Word(d, pos, little) == Word(c, at, little)
  {
  }

  ghost predicate IsCopy(d: bytes, r: Record, c: bytes, f: Format, x: Item) {
    && r.End() <= |d| && RecordEnd(x) <= |c|
    && r.incl == x.incl && Timestamp(r, f.nanos) == x.ts
    && PacketOf(d, r) == c[x.offset + RECORD_HEADER..RecordEnd(x)]
  }

  // `d` holds, from `pos` on, the records of `items` and nothing else.
  ghost predicate HoldsRecords(d: bytes, pos: nat, c: bytes, items: seq<Item>)
    requires AllInside(c, items)
    decreases |items|
  {
    if |items| == 0 then pos == |d| else
      && pos + |Raw(c, items[0])| <= |d|
      && d[pos..pos + |Raw(c, items[0])|] == Raw(c, items[0])
      && AllInside(c, items[1..])
      && HoldsRecords(d, pos + |Raw(c, items[0])|, c, items[1..])
  }

  lemma {:induction false} RawAllFront(c: bytes, items: seq<Item>)
    requires AllInside(c, items) && |items| > 0
    ensures AllInside(c, items[1..]) && RawAll(c, items) == Raw(c, items[0]) + RawAll(c, items[1..])
  {
    var x, rest := items[0], items[1..];
    if |rest| == 0 {
      assert items == [x];
    } else {
      RawAllFront(c, Init(items));
      assert Init(items)[1..] == Init(rest) && Last(items) == Last(rest);
    }
  }

  lemma {:induction false} ConcatenationHoldsRecords(d: bytes, head: bytes, c: bytes, items: seq<Item>)
    requires AllInside(c, items) && d == head + RawAll(c, items)
    ensures HoldsRecords(d, |head|, c, items)
    decreases |items|
  {
    if |items| > 0 {
      RawAllFront(c, items);
      var first := Raw(c, items[0]);
      assert d == (head + first) + RawAll(c, items[1..]);
      ConcatenationHoldsRecords(d, head + first, c, items[1..]);
    }
  }

  lemma {:induction false} CopiesAreRecords(d: bytes, pos: nat, frame: nat, c: bytes, f: Format, items: seq<Item>)
    requires AllInside(c, items) && HoldsRecords(d, pos, c, items)
    requires forall x | x in items :: Stored(c, f, x)
    requires frame + |items| < 0x1_0000_0000
    ensures var rs := RecordsFrom(d, f.little, pos, frame);
            && rs.Ok? && |rs.value| == |items|
            && forall k | 0 <= k < |items| :: IsCopy(d, rs.value[k], c, f, items[k])
    decreases |items|
  {
    hide Parse, Timestamp, Word;
    if |items| > 0 {
      var x, rest := items[0], items[1..];
      assert x in items;
      CopyReadsAlike(c, f, x, d, pos);
      var r := RecordAt(d, f.little, pos);
      assert forall y | y in rest :: y in items;
      CopiesAreRecords(d, r.End(), frame + 1, c, f, rest);
      var rs := RecordsFrom(d, f.little, r.End(), frame + 1).value;
      assert RecordsFrom(d, f.little, pos, frame).value == [r] + rs;
      CopyKeepsTime(d, r, c, f, x);
    }
  }

  lemma CopyKeepsTime(d: bytes, r: Record, c: bytes, f: Format, x: Item)
    requires Stored(c, f, x) && r.End() <= |d|
    requires r == RecordAt(c, f.little, x.offset).(offset := r.offset)
    requires PacketOf(d, r) == PacketOf(c, RecordAt(c, f.little, x.offset))
    ensures IsCopy(d, r, c, f, x)
  {
    hide Parse, Word;
  }

  lemma {:induction false} CopiesAreItems(d: bytes, c: bytes, f: Format, records: seq<Record>, items: seq<Item>)
    requires Inside(d, records) && |records| == |items|
    requires forall k | 0 <= k < |items| :: Parses(c, items[k]) && IsCopy(d, records[k], c, f, items[k])
    ensures var copies := ItemsOf(d, f.nanos, records);
            Twins(items, copies) && forall k | 0 <= k < |copies| :: copies[k].frame == k + 1
  {
    hide Parse, Timestamp, RecordAt;
    if |items| > 0 {
      assert Parses(c, Last(items)) && IsCopy(d, Last(records), c, f, Last(items));
      CopiesAreItems(d, c, f, Init(records), Init(items));
      var before := ItemsOf(d, f.nanos, Init(records));
      var copies := ItemsOf(d, f.nanos, records);
      assert ItemOf(d, f.nanos, Last(records), |records|).Some?;
      forall k | 0 <= k < |items|
        ensures Twin(items[k], copies[k]) && copies[k].frame == k + 1
      {
        if k < |items| - 1 {
          assert Twin(Init(items)[k], before[k]);
        }
      }
    }
  }

  // Scanning `d` finds one flow, generation 0, that owns every record; its records are those of
  // flow `i`, numbered from 1, and its row says of the connection what the row of `i` says.
  ghost predicate IndexesToFlow(d: bytes, log: Log, i: nat)
    requires |log| < NO_REF && KeyOf(log, i).Some?
  {
    && Scanned(d).Ok?
    && var own := Scanned(d).value;
       && |own| < NO_REF && FlowCount(own) == 1
       && Twins(Members(log, i), Members(own, 0)) && |own| == |Members(own, 0)|
       && (forall k | 0 <= k < |own| :: Members(own, 0)[k].frame == k + 1)
       && KeyOf(own, 0).Some?
       && Row(own, 0).generation == 0 && Row(own, 0).id == 0
       && Facts(Row(own, 0)) == Facts(Row(log, i))
  }

  /** Re-indexing is a projection: header and records of flow `i` index to that flow. */
  lemma ReindexIsProjection(c: bytes, i: nat)
    requires |c| < 0x1_0000_0000_0000_0000 && Scanned(c).Ok? && i < FlowCount(Scanned(c).value)
    ensures |c| >= HEADER && |Scanned(c).value| < NO_REF && AllInside(c, Members(Scanned(c).value, i))
    ensures KeyOf(Scanned(c).value, i).Some?
    ensures IndexesToFlow(c[..HEADER] + RawAll(c, Members(Scanned(c).value, i)), Scanned(c).value, i)
  {
    hide RecordsFrom, ItemsOf, Members, RawAll, HoldsRecords, Stored, Parses, IsCopy, Twins, Row, Facts;
    var log := Scanned(c).value;
    ScanFits(c);
    forall x | x in Members(log, i)
      ensures RecordEnd(x) <= |c|
    {
      MemberIsInside(c, i, x);
    }
    MembersAreStored(c, i);
    var f := ReadFormat(c).value;
    var items := Members(log, i);
    MembersFitLog(log, i);
    var d := c[..HEADER] + RawAll(c, items);
    SameFormat(c, d);
    ConcatenationHoldsRecords(d, c[..HEADER], c, items);
    CopiesAreRecords(d, HEADER, 0, c, f, items);
    RecordsAreLaidOut(d, f.little, HEADER, 0);
    var records := RecordsFrom(d, f.little, HEADER, 0).value;
    CopiesAreItems(d, c, f, records, items);
    CopiesIndexToTheFlow(log, i, ItemsOf(d, f.nanos, records));
    CopiesOwnEverything(log, i, ItemsOf(d, f.nanos, records));
  }

  function TotalSize(items: seq<Item>): nat {
    if |items| == 0 then 0 else TotalSize(Init(items)) + RECORD_HEADER + Last(items).incl
  }

  lemma {:induction false} RawAllSize(c: bytes, items: seq<Item>)
    requires AllInside(c, items)
    ensures |RawAll(c, items)| == TotalSize(items)
  {
    if |items| > 0 {
      assert forall x | x in Init(items) :: x in items;
      RawAllSize(c, Init(items));
    }
  }

  lemma {:induction false} TwinsShareSize(xs: seq<Item>, ys: seq<Item>)
    requires Twins(xs, ys)
    ensures TotalSize(xs) == TotalSize(ys)
  {
    if |xs| > 0 {
      TwinsShareSize(Init(xs), Init(ys));
      assert Twin(Last(xs), Last(ys));
    }
  }

  // The items lie one behind the other between the file header and `size`.
  ghost predicate Laid(items: seq<Item>, size: nat) {
    && (forall x | x in items :: HEADER <= x.offset && RecordEnd(x) <= size)
    && forall j, k | 0 <= j < k < |items| :: RecordEnd(items[j]) <= items[k].offset
  }

  lemma {:induction false} RecordsNeedRoom(items: seq<Item>, size: nat)
    requires Laid(items, size) && |items| > 0
    ensures HEADER + TotalSize(items) <= RecordEnd(Last(items)) <= size
  {
    assert Last(items) in items;
    if |items| > 1 {
      assert forall x | x in Init(items) :: x in items;
      RecordsNeedRoom(Init(items), size);
      assert Last(Init(items)) == items[|items| - 2];
    }
  }

  lemma EveryFlowHasRecords(log: Log, i: nat)
    requires KeyOf(log, i).Some?
    ensures |Members(log, i)| > 0
  {
  }

  /**
   Extraction and scanning together: what `extract` writes for a flow indexes to that flow if
   and only if none of its records is too large for the 32-bit size field.
   */
  lemma ExtractIndexesToFlow(c: bytes, i: nat)
    requires |c| < 0x1_0000_0000_0000_0000 && Scanned(c).Ok? && i < FlowCount(Scanned(c).value)
    ensures Fits(Scanned(c).value) && KeyOf(Scanned(c).value, i).Some? && |c| >= HEADER
    ensures var log := Scanned(c).value;
            var out := Extracted(c, EncodeLog(log), i, Row(log, i).lastRef, Row(log, i).packets);
            && out.Ok?
            && (IndexesToFlow(out.value, log, i) <==> forall x | x in Members(log, i) :: !Oversized(x))
  {
    hide Scanned, Members, RawAll, Extracted, Oversized, Row, EncodeLog, Fits, KeyOf, FlowCount, Facts, Twin;
    var log := Scanned(c).value;
    ExtractionIsExact(c, i);
    ReindexIsProjection(c, i);
    var out := Extracted(c, EncodeLog(log), i, Row(log, i).lastRef, Row(log, i).packets).value;
    if IndexesToFlow(out, log, i) {
      // the file is long enough for all records of the flow
      var items, local := Members(log, i), Members(Scanned(out).value, 0);
      forall x | x in local
        ensures HEADER <= x.offset && RecordEnd(x) <= |out|
      {
        MemberIsInside(out, 0, x);
      }
      forall j, k | 0 <= j < k < |local|
        ensures RecordEnd(local[j]) <= local[k].offset
      {
        FlowRecordsAreOrdered(out, 0, j, k);
      }
      EveryFlowHasRecords(log, i);
      RawAllSize(c, items);
      TwinsShareSize(items, local);
      RecordsNeedRoom(local, |out|);
    }
  }

  /**
   The whole path of the application: extract a flow, read the file, map its local frame
   numbers back through the Python walk. Every local frame is in range, carries the packet of
   the source frame it is mapped to, and the mapping is strictly increasing.
   */
  lemma LocalFramesMapBack(c: bytes, i: nat, n: nat)
    requires |c| < 0x1_0000_0000_0000_0000 && Scanned(c).Ok? && i < FlowCount(Scanned(c).value)
    requires forall x | x in Members(Scanned(c).value, i) :: !Oversized(x)
    ensures Fits(Scanned(c).value) && KeyOf(Scanned(c).value, i).Some? && |c| >= HEADER
    ensures Row(Scanned(c).value, i).lastRef < 0x1_0000_0000 && Row(Scanned(c).value, i).packets < 0x1_0000_0000
    ensures var log := Scanned(c).value;
            var out := Extracted(c, EncodeLog(log), i, Row(log, i).lastRef, Row(log, i).packets);
            var frames := PythonAnswer(EncodeLog(log), i, Row(log, i).lastRef, Row(log, i).packets);
            && out.Ok? && frames.Ok? && Scanned(out.value).Ok?
            && var local := Members(Scanned(out.value).value, 0);
               && |local| == |frames.value| == Row(log, i).packets
               && (n < |local| ==>
                     && local[n].frame == n + 1
                     && frames.value[n] == Members(log, i)[n].frame
                     && Twin(Members(log, i)[n], local[n])
                     && (n > 0 ==> frames.value[n - 1] < frames.value[n]))
  {
    hide RecordsFrom, ItemsOf, Members, RawAll, Walk, Extracted, ReadFormat, Scanned, Facts, Twin, Row, Oversized;
    hide EncodeLog, KeyOf, FlowCount, Grown, Fits, PythonAnswer;
    var log := Scanned(c).value;
    ScanFits(c);
    FlowsHaveOneKey(log, i);
    RowNumbersFit(log, i);
    ExtractIndexesToFlow(c, i);
    WalkAfterScan(log, i);
    SameFromUnsignedRow(EncodeLog(log), i, Row(log, i).lastRef, Row(log, i).packets);
    if 0 < n < |Members(log, i)| {
      FlowRecordsAreOrdered(c, i, n - 1, n);
    }
  }

  lemma RowNumbersFit(log: Log, i: nat)
    requires |log| < 0x1_0000_0000 && KeyOf(log, i).Some?
    ensures Row(log, i).packets == |Members(log, i)| <= |log| && Row(log, i).lastRef < |log|
  {
    MembersFitLog(log, i);
    OwnersHavePositions(log, i);
  }

  lemma CopiesOwnEverything(log: Log, i: nat, copies: seq<Item>)
    requires Grown(log) && Twins(Members(log, i), copies)
    ensures |Replay(copies)| == |copies|
  {
    ReplayOfCopies(log, i, copies);
    AloneHasMembers(copies);
  }

  lemma SameFormat(c: bytes, d: bytes)
    requires ReadFormat(c).Ok? && |d| >= HEADER && d[..HEADER] == c[..HEADER]
    ensures ReadFormat(d) == ReadFormat(c)
  {
    assert d[..4] == d[..HEADER][..4] && c[..4] == c[..HEADER][..4];
    assert d[20..24] == d[..HEADER][20..24] && c[20..24] == c[..HEADER][20..24];
    CopiedWord(c, 20, d, 20, true);
    CopiedWord(c, 20, d, 20, false);
  }
}
