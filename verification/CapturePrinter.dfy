/**
 Classic PCAP files as they are laid out, byte by byte, and the proof that the record loop reads
 them back: four magic numbers, both byte orders, both clocks.
 */
module CapturePrinter {
  import opened Wrappers
  import opened Bytes
  import opened Packet
  import opened Sequences
  import opened Ledger
  import opened Capture

  datatype Frame = Frame(sec: u32, frac: u32, original: u32, data: bytes)

  // A 32-bit word in either byte order.
  function Quad(n: u32, little: bool): (s: bytes)
    ensures |s| == 4
  {
    var b3, b2, b1, b0 := n / 0x100_0000, n / 0x1_0000 % 256, n / 0x100 % 256, n % 256;
    if little then [b0, b1, b2, b3] else [b3, b2, b1, b0]
  }

  function Magic(f: Format): (s: bytes)
    ensures |s| == 4
  {
    match f
    case Format(true, false) => [0xd4, 0xc3, 0xb2, 0xa1]
    case Format(false, false) => [0xa1, 0xb2, 0xc3, 0xd4]
    case Format(true, true) => [0x4d, 0x3c, 0xb2, 0xa1]
    case Format(false, true) => [0xa1, 0xb2, 0x3c, 0x4d]
  }

  // Versions, time zone and snap length are not read.
  function PrintHeader(f: Format, unread: bytes): (s: bytes)
    requires |unread| == 16
    ensures |s| == 24
  {
    Magic(f) + unread + Quad(1, f.little)
  }

  predicate Valid(frames: seq<Frame>) {
    forall x | x in frames :: |x.data| < 0x1_0000_0000
  }

  function PrintFrame(x: Frame, little: bool): (s: bytes)
    requires |x.data| < 0x1_0000_0000
    ensures |s| == 16 + |x.data|
  {
    Quad(x.sec, little) + Quad(x.frac, little) + Quad(|x.data|, little) + Quad(x.original, little) + x.data
  }

  function PrintFrames(frames: seq<Frame>, little: bool): bytes
    requires Valid(frames)
  {
    if |frames| == 0 then [] else PrintFrame(frames[0], little) + PrintFrames(frames[1..], little)
  }

  // The records of the printed frames, from `pos` on.
  function RecordsOf(frames: seq<Frame>, pos: nat): (rs: seq<Record>)
    requires Valid(frames)
    ensures |rs| == |frames|
  {
    if |frames| == 0 then []
    else [Record(pos, frames[0].sec, frames[0].frac, |frames[0].data|)] + RecordsOf(frames[1..], pos + 16 + |frames[0].data|)
  }

  // ------------------------------------------------------------ words

  lemma LowFirst(b: byte, s: bytes)
    ensures FromLE([b] + s) == b as int + 256 * FromLE(s)
  {
    assert ([b] + s)[1..] == s;
  }

  lemma LowLast(s: bytes, b: byte)
    ensures FromBE(s + [b]) == b as int + 256 * FromBE(s)
  {
    assert (s + [b])[..|s|] == s;
  }

  lemma Little(b0: byte, b1: byte, b2: byte, b3: byte)
    ensures FromLE([b0, b1, b2, b3]) == b0 as int + 256 * (b1 as int + 256 * (b2 as int + 256 * b3 as int))
  {
    hide FromLE;
    NoBytes();
    LowFirst(b3, []);
    LowFirst(b2, [b3]);
    LowFirst(b1, [b2, b3]);
    LowFirst(b0, [b1, b2, b3]);
    assert [b3] + [] == [b3] && [b2] + [b3] == [b2, b3] && [b1] + [b2, b3] == [b1, b2, b3];
    assert [b0] + [b1, b2, b3] == [b0, b1, b2, b3];
  }

  lemma Big(b3: byte, b2: byte, b1: byte, b0: byte)
    ensures FromBE([b3, b2, b1, b0]) == b0 as int + 256 * (b1 as int + 256 * (b2 as int + 256 * b3 as int))
  {
    hide FromBE;
    NoBytes();
    LowLast([], b3);
    LowLast([b3], b2);
    LowLast([b3, b2], b1);
    LowLast([b3, b2, b1], b0);
    assert [] + [b3] == [b3] && [b3] + [b2] == [b3, b2] && [b3, b2] + [b1] == [b3, b2, b1];
    assert [b3, b2, b1] + [b0] == [b3, b2, b1, b0];
  }

  lemma NoBytes()
    ensures FromLE([]) == 0 && FromBE([]) == 0
  {
  }

  lemma Digits(b3: byte, b2: byte, b1: byte, b0: byte, n: u32)
    ensures n as int == b0 as int + 256 * (b1 as int + 256 * (b2 as int + 256 * b3 as int))
            <==> b3 == n / 0x100_0000 && b2 == n / 0x1_0000 % 256 && b1 == n / 0x100 % 256 && b0 == n % 256
  {
    assert n / 0x1_0000 == n / 0x100 / 0x100 && n / 0x100_0000 == n / 0x100 / 0x100 / 0x100;
  }

  // A word is read as `n` exactly when its bytes are those of `n`.
  lemma WordMeans(c: bytes, at: nat, little: bool, n: u32)
    requires at + 4 <= |c|
    ensures Word(c, at, little) == n <==> c[at..at + 4] == Quad(n, little)
  {
    hide FromLE, FromBE;
    var s := c[at..at + 4];
    Little(s[0], s[1], s[2], s[3]);
    Big(s[0], s[1], s[2], s[3]);
    assert s == [s[0], s[1], s[2], s[3]];
    if little {
      Digits(s[3], s[2], s[1], s[0], n);
    } else {
      Digits(s[0], s[1], s[2], s[3], n);
    }
  }

  // ------------------------------------------------------------ header

  /** A format is read exactly from its magic number and the Ethernet link type. */
  lemma FormatMeans(c: bytes, f: Format)
    ensures ReadFormat(c) == Ok(f) <==> |c| >= 24 && c[..4] == Magic(f) && c[20..24] == Quad(1, f.little)
  {
    hide Word, Quad;
    if |c| >= 24 {
      WordMeans(c, 20, true, 1);
      WordMeans(c, 20, false, 1);
    }
  }

  /** Times are nanoseconds: of seconds and microseconds, or of seconds and nanoseconds. */
  lemma TimesMean(r: Record)
    ensures Timestamp(r, false) == (r.sec * 1_000_000 + r.frac) * 1_000
    ensures Timestamp(r, true) == r.sec * 1_000_000_000 + r.frac
  {
  }

  // ------------------------------------------------------------ records

  lemma FrameIsRead(c: bytes, pos: nat, x: Frame, little: bool)
    requires |x.data| < 0x1_0000_0000 && pos + 16 + |x.data| <= |c| && c[pos..pos + 16 + |x.data|] == PrintFrame(x, little)
    ensures RecordAt(c, little, pos) == Record(pos, x.sec, x.frac, |x.data|)
    ensures PacketOf(c, RecordAt(c, little, pos)) == x.data
  {
    hide Word, Quad;
    var s, size := PrintFrame(x, little), 16 + |x.data|;
    SliceOfSlice(c, pos, size, 0, 4);
    SliceOfSlice(c, pos, size, 4, 8);
    SliceOfSlice(c, pos, size, 8, 12);
    SliceOfSlice(c, pos, size, 16, size);
    assert s[0..4] == Quad(x.sec, little) && s[4..8] == Quad(x.frac, little) && s[8..12] == Quad(|x.data|, little);
    assert s[16..size] == x.data;
    WordMeans(c, pos, little, x.sec);
    WordMeans(c, pos + 4, little, x.frac);
    WordMeans(c, pos + 8, little, |x.data|);
  }

  lemma {:induction false} FramesAreRead(c: bytes, pos: nat, frames: seq<Frame>, little: bool, tail: bytes, frame: nat)
    requires Valid(frames) && pos <= |c| && c[pos..] == PrintFrames(frames, little) + tail
    requires frame + |frames| < 0x1_0000_0000
    ensures |tail| <= |c| && RecordsFrom(c, little, pos, frame)
            == Prepend(RecordsOf(frames, pos), RecordsFrom(c, little, |c| - |tail|, frame + |frames|))
    ensures forall k | 0 <= k < |frames| ::
              RecordsOf(frames, pos)[k].End() <= |c| && PacketOf(c, RecordsOf(frames, pos)[k]) == frames[k].data
    decreases |frames|
  {
    hide PrintFrame, PrintFrames, RecordAt, PacketOf, RecordsFrom;
    if |frames| == 0 {
      FirstIsPrinted(c, pos, frames, little, tail);
      var rest := RecordsFrom(c, little, pos, frame);
      assert rest.Ok? ==> [] + rest.value == rest.value;
    } else {
      var x, rest := frames[0], frames[1..];
      var next := pos + 16 + |x.data|;
      FirstIsPrinted(c, pos, frames, little, tail);
      FrameIsRead(c, pos, x, little);
      FirstRecord(c, little, pos, frame);
      FramesAreRead(c, next, rest, little, tail, frame + 1);
      PrependAgain(RecordAt(c, little, pos), RecordsOf(rest, next), RecordsFrom(c, little, |c| - |tail|, frame + |frames|));
    }
  }

  lemma FirstRecord(c: bytes, little: bool, pos: nat, frame: nat)
    requires pos + 16 <= |c| && RecordAt(c, little, pos).End() <= |c| && RecordAt(c, little, pos).offset == pos
    requires frame + 1 < 0x1_0000_0000
    ensures RecordsFrom(c, little, pos, frame)
         == Prepend([RecordAt(c, little, pos)], RecordsFrom(c, little, RecordAt(c, little, pos).End(), frame + 1))
  {
    hide Word;
  }

  // What remains to be read is the first frame and the others, or the tail.
  lemma FirstIsPrinted(c: bytes, pos: nat, frames: seq<Frame>, little: bool, tail: bytes)
    requires Valid(frames) && pos <= |c| && c[pos..] == PrintFrames(frames, little) + tail
    ensures |frames| == 0 ==> pos == |c| - |tail|
    ensures |frames| > 0 ==>
              && Valid(frames[1..]) && |frames[0].data| < 0x1_0000_0000
              && var next := pos + 16 + |frames[0].data|;
                 next <= |c| && c[pos..next] == PrintFrame(frames[0], little)
                 && c[next..] == PrintFrames(frames[1..], little) + tail
  {
    hide PrintFrame;
    if |frames| > 0 {
      var x, rest := frames[0], frames[1..];
      assert x in frames && forall y | y in rest :: y in frames;
      var first, others := PrintFrame(x, little), PrintFrames(rest, little) + tail;
      assert c[pos..] == first + others;
      TakesApart(c, pos, first, others);
    }
  }

  lemma TakesApart(c: bytes, pos: nat, first: bytes, others: bytes)
    requires pos <= |c| && c[pos..] == first + others
    ensures pos + |first| <= |c| && c[pos..pos + |first|] == first && c[pos + |first|..] == others
  {
    assert c[pos..pos + |first|] == c[pos..][..|first|] && c[pos + |first|..] == c[pos..][|first|..];
  }

  lemma PrependAgain(r: Record, rs: seq<Record>, rest: Result<seq<Record>, Error>)
    ensures Prepend([r], Prepend(rs, rest)) == Prepend([r] + rs, rest)
  {
    if rest.Ok? {
      assert [r] + (rs + rest.value) == [r] + rs + rest.value;
    }
  }

  // The header, the frames, and then whatever follows them.
  lemma CaptureIsRead(f: Format, unread: bytes, frames: seq<Frame>, tail: bytes) returns (c: bytes)
    requires |unread| == 16 && Valid(frames) && |frames| < 0xFFFF_FFFF
    ensures c == PrintHeader(f, unread) + PrintFrames(frames, f.little) + tail && ReadFormat(c) == Ok(f)
    ensures |tail| <= |c| && RecordsFrom(c, f.little, 24, 0)
            == Prepend(RecordsOf(frames, 24), RecordsFrom(c, f.little, |c| - |tail|, |frames|))
    ensures forall k | 0 <= k < |frames| ::
              RecordsOf(frames, 24)[k].End() <= |c| && PacketOf(c, RecordsOf(frames, 24)[k]) == frames[k].data
  {
    hide RecordsFrom, ReadFormat, PrintFrames, PrintHeader, RecordsOf, PacketOf;
    var header, rest := PrintHeader(f, unread), PrintFrames(frames, f.little);
    c := header + rest + tail;
    assert c == header + (rest + tail);
    HeaderIsRead(c, f, unread, rest + tail);
    FramesAreRead(c, 24, frames, f.little, tail, 0);
  }

  /**
   Any printed capture reads back: its format, its records in order with their times and packets,
   and up to 15 bytes behind the last one are ignored.
   */
  lemma CaptureReadsBack(f: Format, unread: bytes, frames: seq<Frame>, tail: bytes)
    requires |unread| == 16 && Valid(frames) && |frames| < 0xFFFF_FFFF && |tail| < 16
    ensures var c, rs := PrintHeader(f, unread) + PrintFrames(frames, f.little) + tail, RecordsOf(frames, 24);
            && ReadFormat(c) == Ok(f) && RecordsFrom(c, f.little, 24, 0) == Ok(rs)
            && forall k | 0 <= k < |frames| :: rs[k].End() <= |c| && PacketOf(c, rs[k]) == frames[k].data
  {
    hide RecordsFrom, ReadFormat, PrintFrames, PrintHeader, RecordsOf, PacketOf;
    var c := CaptureIsRead(f, unread, frames, tail);
    NoMoreRecords(c, f.little, |c| - |tail|, |frames|);
    assert RecordsOf(frames, 24) + [] == RecordsOf(frames, 24);
  }

  lemma NoMoreRecords(c: bytes, little: bool, pos: nat, frame: nat)
    requires pos <= |c| < pos + 16
    ensures RecordsFrom(c, little, pos, frame) == Ok([])
  {
  }

  lemma HeaderIsRead(c: bytes, f: Format, unread: bytes, rest: bytes)
    requires |unread| == 16 && |c| >= 24 && c == PrintHeader(f, unread) + rest
    ensures ReadFormat(c) == Ok(f) && c[24..] == rest
  {
    hide ReadFormat, Quad, Magic;
    assert c[..4] == Magic(f) && c[20..24] == Quad(1, f.little);
    FormatMeans(c, f);
  }

  /** A last record that claims more bytes than are left makes the whole file unreadable. */
  lemma CutCaptureIsRefused(f: Format, unread: bytes, frames: seq<Frame>, tail: bytes, claimed: u32)
    requires |unread| == 16 && Valid(frames) && |frames| < 0xFFFF_FFFF
    requires |tail| >= 16 && tail[8..12] == Quad(claimed, f.little) && claimed > |tail| - 16
    ensures var c := PrintHeader(f, unread) + PrintFrames(frames, f.little) + tail;
            ReadFormat(c) == Ok(f) && RecordsFrom(c, f.little, 24, 0) == Err(TruncatedRecord(|frames| + 1))
  {
    hide RecordsFrom, ReadFormat, PrintFrames, PrintHeader, RecordsOf, PacketOf, Quad;
    var c := CaptureIsRead(f, unread, frames, tail);
    ClaimIsRead(c, f.little, PrintHeader(f, unread) + PrintFrames(frames, f.little), tail, claimed, |frames|);
  }

  lemma ClaimIsRead(c: bytes, little: bool, front: bytes, tail: bytes, claimed: u32, frame: nat)
    requires c == front + tail && |tail| >= 16 && tail[8..12] == Quad(claimed, little) && claimed > |tail| - 16
    ensures RecordsFrom(c, little, |front|, frame) == Err(TruncatedRecord(frame + 1))
  {
    hide Quad, Word, RecordsFrom;
    var pos := |front|;
    assert c[pos..] == tail && c[pos..][8..12] == c[pos + 8..pos + 12];
    WordMeans(c, pos + 8, little, claimed);
    TooMuchClaimed(c, little, pos, frame);
  }

  lemma TooMuchClaimed(c: bytes, little: bool, pos: nat, frame: nat)
    requires pos + 16 <= |c| && Word(c, pos + 8, little) > |c| - (pos + 16)
    ensures RecordsFrom(c, little, pos, frame) == Err(TruncatedRecord(frame + 1))
  {
    hide Word;
  }

  // ------------------------------------------------------------ TCP records

  // Item `x` is what record `k` says when its packet parses.
  ghost predicate IsItem(c: bytes, nanos: bool, records: seq<Record>, k: int, x: Item)
    requires Inside(c, records)
  {
    && 0 <= k < |records| && Parse(PacketOf(c, records[k]), 1) == Some(x.packet)
    && x.frame == k + 1 && x.offset == records[k].offset && x.incl == records[k].incl
    && x.ts == if nanos then records[k].sec * 1_000_000_000 + records[k].frac
               else (records[k].sec * 1_000_000 + records[k].frac) * 1_000
  }

  /** The items are exactly the records whose packets parse, with their frame numbers. */
  lemma {:induction false} ItemsMean(c: bytes, nanos: bool, records: seq<Record>, x: Item)
    requires Inside(c, records)
    ensures x in ItemsOf(c, nanos, records) <==> exists k :: IsItem(c, nanos, records, k, x)
  {
    hide Parse, PacketOf, IsItem, ItemOf;
    if |records| > 0 {
      ItemsMean(c, nanos, Init(records), x);
      ItemMeans(c, nanos, records, x);
      forall k | 0 <= k < |records| - 1
        ensures IsItem(c, nanos, records, k, x) <==> IsItem(c, nanos, Init(records), k, x)
      {
        SameItem(c, nanos, records, k, x);
      }
      ItemIsRecord(c, nanos, records, x);
      ItemIsRecord(c, nanos, Init(records), x);
    } else {
      ItemIsRecord(c, nanos, records, x);
    }
  }

  lemma ItemIsRecord(c: bytes, nanos: bool, records: seq<Record>, x: Item)
    requires Inside(c, records)
    ensures forall k | IsItem(c, nanos, records, k, x) :: 0 <= k < |records|
  {
    hide Parse, PacketOf;
  }

  lemma SameItem(c: bytes, nanos: bool, records: seq<Record>, k: int, x: Item)
    requires Inside(c, records) && 0 <= k < |records| - 1
    ensures IsItem(c, nanos, records, k, x) <==> IsItem(c, nanos, Init(records), k, x)
  {
    hide Parse, PacketOf;
  }

  lemma ItemMeans(c: bytes, nanos: bool, records: seq<Record>, x: Item)
    requires Inside(c, records) && |records| > 0
    ensures ItemOf(c, nanos, Last(records), |records|) == Some(x) <==> IsItem(c, nanos, records, |records| - 1, x)
  {
    hide Parse, PacketOf;
  }
}
