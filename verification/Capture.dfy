/** The classic PCAP container as `scan` reads it. */
module Capture {
  import opened Wrappers
  import opened Bytes
  import opened Packet
  import opened Sequences
  import opened Ledger

  const HEADER := 24
  const RECORD_HEADER := 16

  datatype Format = Format(little: bool, nanos: bool)

  // The 16-byte header of a record at `offset`; `incl` bytes of packet follow it.
  datatype Record = Record(offset: nat, sec: u32, frac: u32, incl: u32)
  {
    function Size(): nat { RECORD_HEADER + incl }

    function End(): nat { offset + Size() }
  }

  datatype Error =
    | ShortHeader
    | UnknownMagic
    | UnsupportedLink(linktype: u32)
    | TruncatedRecord(frame: nat)
    | TooManyFrames

  function Word(c: bytes, at: nat, little: bool): u32
    requires at + 4 <= |c|
  {
    var s := c[at..at + 4];
    FromLEBound(s);
    FromBEBound(s);
    WordCapacity();
    if little then FromLE(s) else FromBE(s)
  }

  function FormatOf(magic: bytes): Option<Format> {
    if magic == [0xd4, 0xc3, 0xb2, 0xa1] then Some(Format(true, false))
    else if magic == [0xa1, 0xb2, 0xc3, 0xd4] then Some(Format(false, false))
    else if magic == [0x4d, 0x3c, 0xb2, 0xa1] then Some(Format(true, true))
    else if magic == [0xa1, 0xb2, 0x3c, 0x4d] then Some(Format(false, true))
    else None
  }

  function ReadFormat(c: bytes): (r: Result<Format, Error>)
    ensures r.Ok? ==> |c| >= HEADER
  {
    if |c| < HEADER then Err(ShortHeader) else
    match FormatOf(c[..4])
    case None => Err(UnknownMagic)
    case Some(f) => if Word(c, 20, f.little) != 1 then Err(UnsupportedLink(Word(c, 20, f.little))) else Ok(f)
  }

  function RecordAt(c: bytes, little: bool, pos: nat): Record
    requires pos + RECORD_HEADER <= |c|
  {
    Record(pos, Word(c, pos, little), Word(c, pos + 4, little), Word(c, pos + 8, little))
  }

  // The records from `pos` on, when `frame` records precede it. Up to 15 trailing bytes are ignored.
  function RecordsFrom(c: bytes, little: bool, pos: nat, frame: nat): Result<seq<Record>, Error>
    decreases |c| - pos
  {
    if pos + RECORD_HEADER > |c| then Ok([]) else
    var r := RecordAt(c, little, pos);
    if r.incl > |c| - (pos + RECORD_HEADER) then Err(TruncatedRecord(frame + 1))
    else if frame + 1 >= 0x1_0000_0000 then Err(TooManyFrames)
    else Prepend([r], RecordsFrom(c, little, r.End(), frame + 1))
  }

  function Prepend(done: seq<Record>, rest: Result<seq<Record>, Error>): Result<seq<Record>, Error> {
    match rest
    case Ok(rs) => Ok(done + rs)
    case Err(e) => Err(e)
  }

  function Timestamp(r: Record, nanos: bool): int {
    r.sec * 1_000_000_000 + r.frac * (if nanos then 1 else 1000)
  }

  function PacketOf(c: bytes, r: Record): bytes
    requires r.End() <= |c|
  {
    c[r.offset + RECORD_HEADER..r.End()]
  }

  ghost predicate Inside(c: bytes, records: seq<Record>) {
    forall k | 0 <= k < |records| :: records[k].End() <= |c|
  }

  function ItemOf(c: bytes, nanos: bool, r: Record, frame: nat): Option<Item>
    requires r.End() <= |c|
  {
    match Parse(PacketOf(c, r), 1)
    case None => None
    case Some(p) => Some(Item(frame, r.offset, r.incl, Timestamp(r, nanos), p))
  }

  // The TCP records among the first records of the file.
  ghost function ItemsOf(c: bytes, nanos: bool, records: seq<Record>): seq<Item>
    requires Inside(c, records)
  {
    if |records| == 0 then [] else
    var before := ItemsOf(c, nanos, Init(records));
    match ItemOf(c, nanos, Last(records), |records|)
    case None => before
    case Some(x) => before + [x]
  }

  // What a complete scan of the file finds.
  ghost function Scanned(c: bytes): (r: Result<Log, Error>)
    ensures r.Ok? ==> |c| >= HEADER
  {
    match ReadFormat(c)
    case Err(e) => Err(e)
    case Ok(f) =>
      match RecordsFrom(c, f.little, HEADER, 0)
      case Err(e) => Err(e)
      case Ok(records) =>
        RecordsAreLaidOut(c, f.little, HEADER, 0);
        Ok(Replay(ItemsOf(c, f.nanos, records)))
  }

  // ------------------------------------------------------------ layout

  // Records follow each other without a gap from `pos` on.
  ghost predicate Contiguous(records: seq<Record>, pos: nat) {
    && (|records| > 0 ==> records[0].offset == pos)
    && forall k | 0 < k < |records| :: records[k].offset == records[k - 1].End()
  }

  /** Records are read back to back, lie inside the file, and are fewer than 2^32. */
  lemma {:induction false} RecordsAreLaidOut(c: bytes, little: bool, pos: nat, frame: nat)
    requires frame < 0x1_0000_0000
    ensures var r := RecordsFrom(c, little, pos, frame);
            r.Ok? ==> Contiguous(r.value, pos) && Inside(c, r.value) && frame + |r.value| < 0x1_0000_0000
    decreases |c| - pos
  {
    if pos + RECORD_HEADER <= |c| && RecordsFrom(c, little, pos, frame).Ok? {
      var r := RecordAt(c, little, pos);
      RecordsAreLaidOut(c, little, r.End(), frame + 1);
      var rest := RecordsFrom(c, little, r.End(), frame + 1).value;
      assert RecordsFrom(c, little, pos, frame).value == [r] + rest;
    }
  }

  lemma {:induction false} OffsetsIncrease(records: seq<Record>, pos: nat, j: nat, k: nat)
    requires Contiguous(records, pos) && j < k < |records|
    ensures records[j].End() <= records[k].offset
  {
    if j < k - 1 {
      OffsetsIncrease(records, pos, j, k - 1);
    }
  }

  // An item is the record with its frame number.
  ghost predicate Comes(x: Item, records: seq<Record>, nanos: bool) {
    && 1 <= x.frame <= |records|
    && var r := records[x.frame - 1];
       x.offset == r.offset && x.incl == r.incl && x.ts == Timestamp(r, nanos)
  }

  ghost predicate Before(items: seq<Item>, frame: nat) {
    forall x | x in items :: x.frame < frame
  }

  // Frame numbers strictly increase.
  ghost predicate Increasing(items: seq<Item>) {
    |items| > 0 ==> Increasing(Init(items)) && Before(Init(items), Last(items).frame)
  }

  lemma {:induction false} IncreasingAt(items: seq<Item>, j: nat, k: nat)
    requires Increasing(items) && j < k < |items|
    ensures items[j].frame < items[k].frame
  {
    if k < |items| - 1 {
      IncreasingAt(Init(items), j, k);
    } else {
      assert Init(items)[j] in Init(items);
    }
  }

  lemma IncreasingSnoc(items: seq<Item>, x: Item)
    requires Increasing(items) && Before(items, x.frame)
    ensures Increasing(items + [x])
  {
    Snoc(items, x);
  }

  lemma {:induction false} ItemsAreRecords(c: bytes, nanos: bool, records: seq<Record>)
    requires Inside(c, records)
    ensures var items := ItemsOf(c, nanos, records);
            Increasing(items) && forall x | x in items :: Comes(x, records, nanos)
  {
    hide Parse, Timestamp;
    if |records| > 0 {
      ItemsAreRecords(c, nanos, Init(records));
      var before := ItemsOf(c, nanos, Init(records));
      assert forall x | x in before :: Comes(x, Init(records), nanos);
      match ItemOf(c, nanos, Last(records), |records|)
      case None =>
      case Some(x) => IncreasingSnoc(before, x);
    }
  }

  // The items of a log, in order.
  function LogItems(log: Log): seq<Item> {
    if |log| == 0 then [] else LogItems(Init(log)) + [Last(log).item]
  }

  ghost predicate Within(items: seq<Item>, all: seq<Item>) {
    forall x | x in items :: x in all
  }

  lemma {:induction false} ReplayKeepsOrder(items: seq<Item>)
    requires Increasing(items)
    ensures Increasing(LogItems(Replay(items))) && Within(LogItems(Replay(items)), items)
  {
    if |items| > 0 {
      var before, x := Replay(Init(items)), Last(items);
      ReplayKeepsOrder(Init(items));
      assert items == Init(items) + [x];
      match Place(before, x)
      case None =>
      case Some(i) =>
        Snoc(before, Entry(x, i));
        IncreasingSnoc(LogItems(before), x);
    }
  }

  lemma {:induction false} MembersKeepOrder(log: Log, i: nat)
    requires Increasing(LogItems(log))
    ensures Increasing(Members(log, i)) && Within(Members(log, i), LogItems(log))
  {
    if |log| > 0 {
      var before, x := Init(log), Last(log).item;
      Snoc(LogItems(before), x);
      MembersKeepOrder(before, i);
      if Last(log).owner == i {
        IncreasingSnoc(Members(before, i), x);
      }
    }
  }

  // Where the record of an item lies in the file.
  function RecordEnd(x: Item): nat { x.offset + RECORD_HEADER + x.incl }

  lemma MemberComes(c: bytes, f: Format, records: seq<Record>, i: nat, x: Item)
    requires Inside(c, records) && x in Members(Replay(ItemsOf(c, f.nanos, records)), i)
    ensures Comes(x, records, f.nanos)
  {
    hide Comes;
    var items := ItemsOf(c, f.nanos, records);
    ItemsAreRecords(c, f.nanos, records);
    ReplayKeepsOrder(items);
    MembersKeepOrder(Replay(items), i);
  }

  lemma MembersIncrease(c: bytes, f: Format, records: seq<Record>, i: nat)
    requires Inside(c, records)
    ensures Increasing(Members(Replay(ItemsOf(c, f.nanos, records)), i))
  {
    var items := ItemsOf(c, f.nanos, records);
    ItemsAreRecords(c, f.nanos, records);
    ReplayKeepsOrder(items);
    MembersKeepOrder(Replay(items), i);
  }

  lemma {:induction false} RecordsStartAfter(records: seq<Record>, pos: nat, k: nat)
    requires Contiguous(records, pos) && k < |records|
    ensures pos <= records[k].offset
  {
    if k > 0 {
      RecordsStartAfter(records, pos, k - 1);
      assert records[k].offset == records[k - 1].End();
    }
  }

  /** Every indexed record lies inside the file, behind the file header. */
  lemma MemberIsInside(c: bytes, i: nat, x: Item)
    requires Scanned(c).Ok? && x in Members(Scanned(c).value, i)
    ensures HEADER <= x.offset && RecordEnd(x) <= |c| && 1 <= x.frame < 0x1_0000_0000
  {
    hide Members, Replay, ItemsOf, RecordsFrom, ReadFormat;
    var f := ReadFormat(c).value;
    var records := RecordsFrom(c, f.little, HEADER, 0).value;
    RecordsAreLaidOut(c, f.little, HEADER, 0);
    MemberComes(c, f, records, i, x);
    RecordsStartAfter(records, HEADER, x.frame - 1);
  }

  /**
   Frames of one flow strictly increase, so local frame n of an extracted flow is the n-th
   of its source frames; the record slices follow each other without overlap.
   */
  lemma FlowRecordsAreOrdered(c: bytes, i: nat, j: nat, k: nat)
    requires Scanned(c).Ok? && j < k < |Members(Scanned(c).value, i)|
    ensures var items := Members(Scanned(c).value, i);
            items[j].frame < items[k].frame && RecordEnd(items[j]) <= items[k].offset
  {
    hide Members, Replay, ItemsOf, RecordsFrom, ReadFormat;
    var f := ReadFormat(c).value;
    var records := RecordsFrom(c, f.little, HEADER, 0).value;
    RecordsAreLaidOut(c, f.little, HEADER, 0);
    var items := Members(Replay(ItemsOf(c, f.nanos, records)), i);
    MembersIncrease(c, f, records, i);
    IncreasingAt(items, j, k);
    MemberComes(c, f, records, i, items[j]);
    MemberComes(c, f, records, i, items[k]);
    OffsetsIncrease(records, HEADER, items[j].frame - 1, items[k].frame - 1);
  }
}
