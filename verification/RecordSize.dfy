/**
 A capture whose only record is as large as one likes: the input on which `(16 + incl) as u32`
 loses the record.
 */
module RecordSize {
  import opened Wrappers
  import opened Bytes
  import opened Packet
  import Printer = PacketPrinter
  import opened Sequences
  import opened Ledger
  import opened Capture
  import opened CapturePrinter
  import opened References
  import opened Extraction

  // Little-endian, microseconds.
  function OneRecord(frame: bytes): (c: bytes)
    requires |frame| < 0x1_0000_0000
    ensures |c| == HEADER + RECORD_HEADER + |frame|
  {
    PrintHeader(Format(true, false), seq(16, (_: nat) => 0)) + PrintFrame(Frame(0, 0, |frame|, frame), true)
  }

  lemma OneRecordIsRead(frame: bytes, c: bytes, r: Record)
    requires |frame| < 0x1_0000_0000 && c == OneRecord(frame) && r == Record(HEADER, 0, 0, |frame|)
    ensures ReadFormat(c) == Ok(Format(true, false)) && RecordsFrom(c, true, HEADER, 0) == Ok([r])
    ensures |c| == r.End() && PacketOf(c, r) == frame
  {
    hide PrintHeader, PrintFrame, ReadFormat, RecordsFrom, PacketOf;
    var f, unread, x := Format(true, false), seq(16, (_: nat) => 0), Frame(0, 0, |frame|, frame);
    assert [x][1..] == [] && PrintFrames([], true) == [];
    assert PrintFrames([x], true) == PrintFrame(x, true);
    assert c == PrintHeader(f, unread) + PrintFrames([x], true) + [];
    CaptureReadsBack(f, unread, [x], []);
    assert RecordsOf([], r.End()) == [];
    assert RecordsOf([x], HEADER) == [r];
  }

  lemma OneItemIsOneFlow(x: Item)
    requires !x.packet.nonInitial
    ensures Replay([x]) == [Entry(x, 0)] && Members([Entry(x, 0)], 0) == [x] && FlowCount([Entry(x, 0)]) == 1
  {
    Snoc([], x);
    Snoc([], Entry(x, 0));
    assert [] + [x] == [x] && [] + [Entry(x, 0)] == [Entry(x, 0)];
    assert Replay([]) == [] && Place([], x) == Some(0);
  }

  lemma OneRecordIsOneItem(frame: bytes, c: bytes, packet: TcpPacket, r: Record)
    requires Parse(frame, 1) == Some(packet)
    requires r.End() <= |c| && PacketOf(c, r) == frame
    ensures Inside(c, [r])
    ensures ItemsOf(c, false, [r]) == [Item(1, r.offset, r.incl, Timestamp(r, false), packet)]
  {
    hide Parse, PacketOf, Timestamp;
    Snoc([], r);
    assert [] + [r] == [r];
    assert ItemsOf(c, false, []) == [];
  }

  lemma OneRecordIsOneFlow(frame: bytes, packet: TcpPacket, c: bytes)
    requires |frame| < 0x1_0000_0000 && Parse(frame, 1) == Some(packet) && !packet.nonInitial && c == OneRecord(frame)
    ensures Scanned(c) == Ok([Entry(Item(1, HEADER, |frame|, 0, packet), 0)])
  {
    hide Parse, RecordsFrom, ReadFormat, OneRecord, ItemsOf, Replay, PacketOf;
    var r := Record(HEADER, 0, 0, |frame|);
    OneRecordIsRead(frame, c, r);
    OneRecordIsOneItem(frame, c, packet, r);
    OneItemIsOneFlow(Item(1, HEADER, |frame|, 0, packet));
  }

  // A 54-byte frame with a TCP segment, padded to any size.
  lemma PaddedFrame(size: nat) returns (frame: bytes, packet: TcpPacket)
    requires size >= 54
    ensures |frame| == size && Parse(frame, 1) == Some(packet) && !packet.nonInitial
  {
    hide Parse;
    var zeros: bytes := [0, 0, 0, 0, 0, 0, 0, 0, 0, 0, 0, 0];
    var n := Printer.Network4(4, 0, 0, 0, 64, 0, zeros[..4], zeros[..4], []);
    var t := Printer.Segment(1, 2, zeros[..8], 0, 2, 0, zeros[..4], []);
    var padding: bytes := seq(size - 54, (_: nat) => 0);
    frame := zeros + Printer.PrintTags([], 0x0800) + n.Print(40) + t.Print() + padding;
    Printer.PrintedFrameCarries(zeros, [], 0x0800, n.Print(40), t.Print(), padding);
    Printer.Ipv4FrameReadsBack(frame, [], n, t, 0);
    packet := Parse(frame, 1).value;
  }

  /**
   Extraction of the single flow of such a capture is exact up to a record of 2^32 - 17 bytes
   of packet, and not beyond.
   */
  lemma LargeRecordIsCut(size: nat) returns (c: bytes)
    requires 54 <= size < 0x1_0000_0000
    ensures |c| == HEADER + RECORD_HEADER + size && Scanned(c).Ok? && FlowCount(Scanned(c).value) == 1
    ensures var log := Scanned(c).value;
            && Fits(log) && KeyOf(log, 0).Some? && AllInside(c, Members(log, 0))
            && (Extracted(c, EncodeLog(log), 0, Row(log, 0).lastRef, Row(log, 0).packets)
                == Ok(c[..HEADER] + RawAll(c, Members(log, 0)))
                <==> size < 0x1_0000_0000 - RECORD_HEADER)
  {
    hide Parse, Extracted, RawAll, EncodeLog, Scanned, OneRecord, Members, FlowCount, Fits, Row, KeyOf, AllInside, Replay;
    var frame, packet := PaddedFrame(size);
    c := OneRecord(frame);
    var x := Item(1, HEADER, size, 0, packet);
    OneRecordIsOneFlow(frame, packet, c);
    OneItemIsOneFlow(x);
    OneFlowIsCut(c, Scanned(c).value, x);
  }

  lemma OneFlowIsCut(c: bytes, log: Log, x: Item)
    requires |c| < 0x1_0000_0000_0000_0000 && Scanned(c) == Ok(log) && FlowCount(log) == 1 && Members(log, 0) == [x]
    ensures |c| >= HEADER && Fits(log) && KeyOf(log, 0).Some? && AllInside(c, Members(log, 0))
    ensures Extracted(c, EncodeLog(log), 0, Row(log, 0).lastRef, Row(log, 0).packets)
            == Ok(c[..HEADER] + RawAll(c, Members(log, 0)))
            <==> x.incl < 0x1_0000_0000 - RECORD_HEADER
  {
    hide Extracted, RawAll, EncodeLog, Scanned, Members, Fits, Row, KeyOf;
    ExtractionIsExact(c, 0);
    assert x in [x];
    assert Oversized(x) <==> !(x.incl < 0x1_0000_0000 - RECORD_HEADER);
  }
}
