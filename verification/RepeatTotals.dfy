/**
 The byte totals of one direction (`_segments` and the loop of `retransmission_analysis`),
 against the sequence numbers that were seen on the wire.
 */
module RepeatTotals {
  import opened Wrappers
  import opened Sequences
  import opened Trace
  import opened SeqSpace
  import opened Outstanding
  import opened Retransmit

  method SentInOrder(packets: seq<Packet>, fromClient: bool) returns (payload: seq<Packet>)
    ensures payload == SentOf(packets, fromClient)
  {
    payload := [];
    for n := 0 to |packets|
      invariant payload == SentOf(packets[..n], fromClient)
    {
      assert Init(packets[..n + 1]) == packets[..n];
      if Carries(packets[n], fromClient) {
        payload := payload + [packets[n]];
      }
    }
    assert packets[..|packets|] == packets;
  }

  method BuildSegments(payload: seq<Packet>, fromClient: bool) returns (segments: seq<Segment>)
    ensures segments == SegmentsFrom(payload, InitialSequence(payload, fromClient))
  {
    var base := FindInitialSequence(payload, fromClient);
    segments := [];
    for n := 0 to |payload|
      invariant segments == SegmentsFrom(payload[..n], base)
    {
      assert Init(payload[..n + 1]) == payload[..n];
      segments := segments + [SegmentOf(payload[n], base)];
    }
    assert payload[..|payload|] == payload;
  }

  datatype Totals = Totals(records: nat, firsts: nat, repeats: nat, uniqueBytes: nat, repeatedBytes: nat)

  /**
   Every record is a first transmission or a repeat. As long as no two segments meet across 2^32,
   the unique bytes never exceed the sequence numbers seen on the wire, and are all of them
   exactly when no segment is partly repeated.
   */
  method DirectionTotals(packets: seq<Packet>, fromClient: bool) returns (t: Totals)
    requires LengthsFit(packets)
    ensures t.firsts + t.repeats == t.records == |SentOf(packets, fromClient)|
    ensures t.firsts == |Firsts(SegmentsOf(packets, fromClient))| && t.repeats == |Repeats(SegmentsOf(packets, fromClient))|
    ensures t.uniqueBytes == Lengths(Firsts(SegmentsOf(packets, fromClient)))
    ensures t.repeatedBytes == RepeatedBytes(Repeats(SegmentsOf(packets, fromClient)))
    ensures t.uniqueBytes + t.repeatedBytes <= Bytes(SentOf(packets, fromClient))
    ensures NoSeam(SegmentsOf(packets, fromClient)) ==>
              && t.uniqueBytes <= |Wire(packets, fromClient)|
              && (t.uniqueBytes == |Wire(packets, fromClient)| <==> AllOrNothing(SegmentsOf(packets, fromClient)))
  {
    hide Covered, NoSeam, Firsts, Repeats, AllOrNothing, SegmentsFrom, Wire;
    var payload := SentInOrder(packets, fromClient);
    var segments := BuildSegments(payload, fromClient);
    var firsts, repeats := FirstTransmissions(segments);
    t := Totals(|segments|, |firsts|, |repeats|, Lengths(firsts), RepeatedBytes(repeats));
    SentHaveDirection(packets, fromClient);
    SegmentsMatchRecords(payload, InitialSequence(payload, fromClient), fromClient);
    EachIsOneOrTheOther(segments);
    BytesAreConserved(segments);
    UniqueBytesAreExactIff(segments);
    SegmentsCoverWire(packets, fromClient);
  }

  lemma {:induction false} SegmentsMatchRecords(payload: seq<Packet>, base: Option<nat>, fromClient: bool)
    requires forall p | p in payload :: Carries(p, fromClient)
    ensures var segments := SegmentsFrom(payload, base);
            && |segments| == |payload| && Lengths(segments) == Bytes(payload)
            && forall s | s in segments :: s.length > 0
  {
    if |payload| > 0 {
      SegmentsMatchRecords(Init(payload), base, fromClient);
      Snoc(SegmentsFrom(Init(payload), base), SegmentOf(Last(payload), base));
      assert Carries(Last(payload), fromClient);
    }
  }

  lemma {:induction false} EachIsOneOrTheOther(segments: seq<Segment>)
    ensures |Firsts(segments)| + |Repeats(segments)| == |segments|
  {
    if |segments| > 0 {
      EachIsOneOrTheOther(Init(segments));
    }
  }

  // ------------------------------------------------------------ folding at 2^32

  // The positions past 2^32, taken back onto the circle.
  function Lowered(s: set<nat>): (r: set<nat>)
    ensures forall y: nat :: y in r <==> y + SEQ_SPACE in s
  {
    set x | x in s && x >= SEQ_SPACE :: x - SEQ_SPACE
  }

  function Folded(s: set<nat>): set<nat> {
    Below(s, SEQ_SPACE) + Lowered(s)
  }

  // The sequence numbers covered once below 2^32 and once more past it.
  function CountedTwice(s: set<nat>): set<nat> {
    Below(s, SEQ_SPACE) * Lowered(s)
  }

  lemma FoldedUnion(s: set<nat>, t: set<nat>)
    ensures Folded(s + t) == Folded(s) + Folded(t)
  {
  }

  lemma FoldedSpan(start: nat, length: nat)
    requires start < SEQ_SPACE && length <= SEQ_SPACE
    ensures Folded(Span(start, start + length)) == Cover(Pieces(start, length))
  {
    hide Cover, Pieces, Lowered, Below, Span, Folded;
    var s, end := Span(start, start + length), start + length;
    PiecesCover(start, length);
    LoweredSpan(start, end);
    BelowSpan(start, end);
    if end <= SEQ_SPACE {
      FoldedParts(s, Span(start, end), {});
    } else {
      FoldedParts(s, Span(start, SEQ_SPACE), Span(0, end - SEQ_SPACE));
    }
  }

  lemma FoldedParts(s: set<nat>, low: set<nat>, high: set<nat>)
    requires Below(s, SEQ_SPACE) == low && Lowered(s) == high
    ensures Folded(s) == low + high && (high == {} ==> Folded(s) == low)
  {
    hide Below, Lowered;
  }

  lemma LoweredSpan(start: nat, end: nat)
    requires start < SEQ_SPACE
    ensures end > SEQ_SPACE ==> Lowered(Span(start, end)) == Span(0, end - SEQ_SPACE)
    ensures end <= SEQ_SPACE ==> Lowered(Span(start, end)) == {}
  {
    hide Lowered, Span;
  }

  lemma BelowSpan(start: nat, end: nat)
    ensures end > SEQ_SPACE ==> Below(Span(start, end), SEQ_SPACE) == Span(start, SEQ_SPACE)
    ensures end <= SEQ_SPACE ==> Below(Span(start, end), SEQ_SPACE) == Span(start, end)
  {
    hide Span;
  }

  lemma {:induction false} LoweredSize(s: set<nat>)
    ensures |Lowered(s)| == |AtOrAbove(s, SEQ_SPACE)|
  {
    hide Lowered, AtOrAbove;
    if x :| x in s && x >= SEQ_SPACE {
      LoweredSize(s - {x});
      WithoutOne(s, x);
    } else {
      NothingAbove(s);
    }
  }

  lemma WithoutOne(s: set<nat>, x: nat)
    requires x in s && x >= SEQ_SPACE
    ensures |Lowered(s)| == |Lowered(s - {x})| + 1
    ensures |AtOrAbove(s, SEQ_SPACE)| == |AtOrAbove(s - {x}, SEQ_SPACE)| + 1
  {
    hide Lowered;
    assert AtOrAbove(s, SEQ_SPACE) == AtOrAbove(s - {x}, SEQ_SPACE) + {x};
    assert Lowered(s) == Lowered(s - {x}) + {x - SEQ_SPACE};
  }

  lemma NothingAbove(s: set<nat>)
    requires forall x | x in s :: x < SEQ_SPACE
    ensures Lowered(s) == AtOrAbove(s, SEQ_SPACE) == {}
  {
  }

  lemma FoldedSize(s: set<nat>)
    ensures |Folded(s)| + |CountedTwice(s)| == |s|
  {
    LoweredSize(s);
    UnionSize(Below(s, SEQ_SPACE), Lowered(s));
    assert s == Below(s, SEQ_SPACE) + AtOrAbove(s, SEQ_SPACE);
    assert Below(s, SEQ_SPACE) * AtOrAbove(s, SEQ_SPACE) == {};
  }

  // Folding what the segments cover gives what the split ranges cover.
  lemma {:induction false} SegmentsFoldToRanges(sent: seq<Packet>, fromClient: bool, base: Option<nat>)
    requires LengthsFit(sent) && forall p | p in sent :: Carries(p, fromClient)
    ensures Folded(Covered(SegmentsFrom(sent, base))) == Cover(RangesOf(sent, fromClient, base))
  {
    hide Cover, Folded, Pieces, Covered, Relative, Span, Ranges;
    if |sent| == 0 {
      NothingFolds(base);
    } else {
      var before, p := SegmentsFrom(Init(sent), base), Last(sent);
      SegmentsFoldToRanges(Init(sent), fromClient, base);
      Snoc(before, SegmentOf(p, base));
      CoveredSnoc(before + [SegmentOf(p, base)]);
      var start := Relative(p.seq_, base);
      FoldedUnion(Covered(before), Span(start, start + p.length));
      FoldedSpan(start, p.length);
      CoverConcat(RangesOf(Init(sent), fromClient, base), Pieces(start, p.length));
    }
  }

  lemma NothingFolds(base: Option<nat>)
    ensures Folded(Covered(SegmentsFrom([], base))) == Cover([]) == {}
  {
  }

  lemma {:induction false} SentOnWire(packets: seq<Packet>, fromClient: bool)
    requires LengthsFit(packets)
    ensures Wire(SentOf(packets, fromClient), fromClient) == Wire(packets, fromClient)
    ensures LengthsFit(SentOf(packets, fromClient))
  {
    hide Circle;
    if |packets| > 0 {
      SentOnWire(Init(packets), fromClient);
      Snoc(SentOf(Init(packets), fromClient), Last(packets));
    }
  }

  // No two segments meet across 2^32.
  ghost predicate NoSeam(segments: seq<Segment>) {
    forall s, q | s in segments && q in segments :: !MeetAtSeam(s, q)
  }

  // A sequence number is counted twice by a segment below 2^32 and one that reaches past it.
  lemma TwiceMeansSeam(segments: seq<Segment>)
    requires forall s | s in segments :: s.start < SEQ_SPACE && s.length <= SEQ_SPACE
    ensures CountedTwice(Covered(segments)) == {} <==> NoSeam(segments)
  {
    hide Lowered, Covered;
    var covered := Covered(segments);
    CoveredMembers(segments);
    forall s, q | s in segments && q in segments
      ensures MeetAtSeam(s, q) ==> CountedTwice(covered) != {}
    {
      if Overlap(s.(start := s.start + SEQ_SPACE), q) > 0 {
        MeetingIsCountedTwice(segments, s, q);
      } else if MeetAtSeam(s, q) {
        MeetingIsCountedTwice(segments, q, s);
      }
    }
    if x :| x in CountedTwice(covered) {
      var s :| s in segments && x in s.Bytes();
      var q :| q in segments && x + SEQ_SPACE in q.Bytes();
      assert MeetAtSeam(s, q);
    }
  }

  lemma MeetingIsCountedTwice(segments: seq<Segment>, s: Segment, q: Segment)
    requires s in segments && q in segments && q.End() <= 2 * SEQ_SPACE
    requires Overlap(s.(start := s.start + SEQ_SPACE), q) > 0
    ensures CountedTwice(Covered(segments)) != {}
  {
    hide Lowered, Covered;
    CoveredMembers(segments);
    var x := if s.start + SEQ_SPACE >= q.start then s.start else q.start - SEQ_SPACE;
    assert x in s.Bytes() && x + SEQ_SPACE in q.Bytes();
    assert x in CountedTwice(Covered(segments));
  }

  lemma {:induction false} SegmentsStartLow(sent: seq<Packet>, base: Option<nat>)
    requires LengthsFit(sent)
    ensures forall s | s in SegmentsFrom(sent, base) :: s.start < SEQ_SPACE && s.length <= SEQ_SPACE
  {
    if |sent| > 0 {
      assert sent == Init(sent) + [Last(sent)];
      SegmentsStartLow(Init(sent), base);
    }
  }

  /**
   The bytes the segments cover are the sequence numbers on the wire, plus those that were
   covered on both sides of 2^32: repeat accounting and `unique_payload` agree if and only if no
   two segments meet across 2^32.
   */
  lemma SegmentsCoverWire(packets: seq<Packet>, fromClient: bool)
    requires LengthsFit(packets)
    ensures var segments := SegmentsOf(packets, fromClient);
            var covered := Covered(segments);
            && |covered| == |Wire(packets, fromClient)| + |CountedTwice(covered)|
            && (|covered| == |Wire(packets, fromClient)| <==> NoSeam(segments))
  {
    hide Covered, CountedTwice, Folded, Wire, RangesOf, SegmentsFrom, NoSeam;
    var sent := SentOf(packets, fromClient);
    var base := InitialSequence(sent, fromClient);
    SentHaveDirection(packets, fromClient);
    SentOnWire(packets, fromClient);
    SegmentsFoldToRanges(sent, fromClient, base);
    UniquePayloadIsWireCount(sent, fromClient, base);
    FoldedSize(Covered(SegmentsFrom(sent, base)));
    SegmentsStartLow(sent, base);
    TwiceMeansSeam(SegmentsFrom(sent, base));
  }

  // A record, then one that starts below it and reaches over it.
  function Upper(n: nat): Packet {
    Packet(1, 0, true, n, n, None, false, true, None, false)
  }

  function Whole(n: nat): Packet {
    Packet(2, 1, true, 2 * n, 0, None, false, true, None, false)
  }

  /**
   Two records, the first of which carries the higher sequence numbers, and is sent again with
   the lower ones: both count as first transmissions, and half as many bytes again are reported
   as the wire carried.
   */
  lemma ReorderedStartCountsTwice(n: nat)
    requires 0 < n < SEQ_SPACE / 2
    ensures var packets := [Upper(n), Whole(n)];
            && Lengths(Firsts(SegmentsOf(packets, true))) == 3 * n
            && |Wire(packets, true)| == 2 * n
  {
    hide Firsts, SegmentsOf, Wire, Covered, CountedTwice;
    var packets, a, b := [Upper(n), Whole(n)], Segment(1, 0, n), Segment(2, SEQ_SPACE - n, 2 * n);
    ReorderedSegments(n, packets, a, b);
    BothAreFirst(a, b);
    assert Init([a, b]) == [a] && Init([a]) == [];
    assert Lengths([a]) == n;
    SegmentsCoverWire(packets, true);
    CoveredOfTwo(n, a, b);
  }

  /** The second record sends every byte of the first again, and is not seen as a repeat. */
  lemma ReorderedStartHidesRepeat(n: nat)
    requires 0 < n < SEQ_SPACE / 2
    ensures var segments := SegmentsOf([Upper(n), Whole(n)], true);
            && |segments| == 2 && Duplicate(segments[1], segments[..1]) == 0
            && OnCircle(segments[0]) <= OnCircle(segments[1])
  {
    hide SegmentsOf, OnCircle, Overlap;
    var a, b := Segment(1, 0, n), Segment(2, SEQ_SPACE - n, 2 * n);
    ReorderedSegments(n, [Upper(n), Whole(n)], a, b);
    assert [a, b][..1] == [a] && Init([a]) == [];
    assert SumOverlap(b, [a]) == Overlap(b, a);
    NoOverlap(b, a);
    forall x | x in OnCircle(a)
      ensures x in OnCircle(b)
    {
      OnCircleBound(a);
      CircleMember(a, x);
      CircleMember(b, x);
    }
  }

  lemma NoOverlap(a: Segment, b: Segment)
    requires b.End() <= a.start
    ensures Overlap(a, b) == 0
  {
  }

  lemma ReorderedSegments(n: nat, packets: seq<Packet>, a: Segment, b: Segment)
    requires 0 < n < SEQ_SPACE / 2 && packets == [Upper(n), Whole(n)]
    requires a == Segment(1, 0, n) && b == Segment(2, SEQ_SPACE - n, 2 * n)
    ensures SegmentsOf(packets, true) == [a, b]
  {
    var first, second := Upper(n), Whole(n);
    assert Init(packets) == [first] && Init([first]) == [];
    assert SentOf([], true) == [];
    assert SentOf([first], true) == [] + [first];
    assert SentOf(packets, true) == [first] + [second] == packets;
    assert packets[1..] == [second] && [second][1..] == [];
    assert FirstSyn([], true) == None;
    assert FirstSyn([second], true) == None;
    assert FirstSyn(packets, true) == None;
    assert InitialSequence(packets, true) == Some(n);
    assert SegmentsFrom([first], Some(n)) == [a];
    assert SegmentsFrom(packets, Some(n)) == [a] + [b];
  }

  lemma CoveredOfTwo(n: nat, a: Segment, b: Segment)
    requires 0 < n < SEQ_SPACE / 2 && a == Segment(1, 0, n) && b == Segment(2, SEQ_SPACE - n, 2 * n)
    ensures |Covered([a, b])| == 3 * n && |CountedTwice(Covered([a, b]))| == n
  {
    hide Covered, Lowered, Span;
    CoveredIsBoth(a, b);
    UnionSize(a.Bytes(), b.Bytes());
    assert a.Bytes() * b.Bytes() == {};
    assert CountedTwice(a.Bytes() + b.Bytes()) == Span(0, n);
  }

  lemma CoveredIsBoth(a: Segment, b: Segment)
    ensures Covered([a, b]) == a.Bytes() + b.Bytes()
  {
    hide Covered, Span;
    assert Init([a, b]) == [a] && Init([a]) == [];
    NothingCovered();
    CoveredSnoc([a]);
    CoveredSnoc([a, b]);
  }

  lemma BothAreFirst(a: Segment, b: Segment)
    requires a.End() <= b.start
    ensures Firsts([a, b]) == [a, b]
  {
    hide Overlap;
    Snoc([], a);
    Snoc([a], b);
    assert Duplicate(a, []) == 0 && Firsts([a]) == [a];
    assert SumOverlap(b, [a]) == Overlap(b, a);
    NoOverlap(b, a);
    assert Duplicate(b, [a]) == 0;
    assert [a] + [b] == [a, b];
  }

  // ------------------------------------------------------------ overlaps, seen in packets

  // A client record that starts at a sequence number.
  function Record(frame: nat, at: nat, size: nat): Packet {
    Packet(frame, frame, true, size, at, None, false, true, None, false)
  }

  ghost predicate Plain(packets: seq<Packet>) {
    forall p | p in packets :: Carries(p, true) && !p.syn && p.seq_ < SEQ_SPACE
  }

  lemma {:induction false} PlainIsSent(packets: seq<Packet>)
    requires Plain(packets)
    ensures SentOf(packets, true) == packets
  {
    if |packets| > 0 {
      assert packets == Init(packets) + [Last(packets)];
      PlainIsSent(Init(packets));
    }
  }

  lemma {:induction false} PlainHasNoSyn(packets: seq<Packet>)
    requires Plain(packets)
    ensures FirstSyn(packets, true) == None
    decreases |packets|
  {
    if |packets| > 0 {
      assert packets == [packets[0]] + packets[1..];
      PlainHasNoSyn(packets[1..]);
    }
  }

  lemma {:induction false} PlainSegmentsFrom(packets: seq<Packet>, k: nat)
    requires Plain(packets) && k < |packets|
    ensures |SegmentsFrom(packets, Some(0))| == |packets|
    ensures SegmentsFrom(packets, Some(0))[k] == Segment(packets[k].frame, packets[k].seq_, packets[k].length)
  {
    assert packets == Init(packets) + [Last(packets)];
    if |packets| > 1 {
      PlainSegmentsFrom(Init(packets), if k < |packets| - 1 then k else 0);
    }
  }

  // From sequence number 0 on, segments are the records themselves.
  lemma PlainSegments(packets: seq<Packet>)
    requires |packets| > 0 && Plain(packets) && packets[0].seq_ == 0
    ensures |SegmentsOf(packets, true)| == |packets|
    ensures forall k | 0 <= k < |packets| ::
              SegmentsOf(packets, true)[k] == Segment(packets[k].frame, packets[k].seq_, packets[k].length)
  {
    hide SegmentsFrom, SentOf;
    PlainIsSent(packets);
    PlainHasNoSyn(packets);
    assert packets[0] in packets;
    forall k | 0 <= k < |packets|
      ensures |SegmentsFrom(packets, Some(0))| == |packets|
      ensures SegmentsFrom(packets, Some(0))[k] == Segment(packets[k].frame, packets[k].seq_, packets[k].length)
    {
      PlainSegmentsFrom(packets, k);
    }
  }

  lemma WireIsCovered(packets: seq<Packet>)
    requires LengthsFit(packets) && forall s | s in SegmentsOf(packets, true) :: s.End() <= SEQ_SPACE
    ensures |Wire(packets, true)| == |Covered(SegmentsOf(packets, true))|
  {
    hide Wire, Covered, SegmentsOf, MeetAtSeam;
    SegmentsCoverWire(packets, true);
    forall s, q | s in SegmentsOf(packets, true) && q in SegmentsOf(packets, true)
      ensures !MeetAtSeam(s, q)
    {
      NoWrapNoSeam(s, q);
    }
  }

  /** Two records that overlap by half: the new half of the second is not among the unique bytes. */
  lemma PartlyRepeatedIsDropped(n: nat)
    requires 0 < n <= SEQ_SPACE / 4
    ensures var packets := [Record(1, 0, 2 * n), Record(2, n, 2 * n)];
            && Lengths(Firsts(SegmentsOf(packets, true))) == 2 * n
            && |Wire(packets, true)| == 3 * n
  {
    hide SegmentsOf, Wire, Covered, Firsts;
    var packets := [Record(1, 0, 2 * n), Record(2, n, 2 * n)];
    var a, b := Segment(1, 0, 2 * n), Segment(2, n, 2 * n);
    PlainSegments(packets);
    assert SegmentsOf(packets, true) == [a, b];
    WireIsCovered(packets);
    CoveredIsBoth(a, b);
    assert a.Bytes() + b.Bytes() == Span(0, 3 * n);
    OnlyFirst(a, b);
  }

  lemma OnlyFirst(a: Segment, b: Segment)
    requires a.length > 0 && Overlap(b, a) > 0 && b.length > 0
    ensures Lengths(Firsts([a, b])) == a.length
  {
    hide Overlap;
    assert Init([a, b]) == [a] && Init([a]) == [];
    assert Duplicate(a, []) == 0 && Firsts([a]) == [] + [a];
    assert SumOverlap(b, [a]) == Overlap(b, a);
    assert Lengths([]) == 0 && Lengths([a]) == a.length;
  }

  /** The same with the first record sent twice: the new half is not even among the new bytes. */
  lemma CopiesHideNewBytes(n: nat)
    requires 0 < n <= SEQ_SPACE / 4
    ensures var packets := [Record(1, 0, 2 * n), Record(2, 0, 2 * n), Record(3, n, 2 * n)];
            var segments := SegmentsOf(packets, true);
            && Lengths(Firsts(segments)) + NewBytes(Repeats(segments)) == 2 * n
            && |Wire(packets, true)| == 3 * n
  {
    hide SegmentsOf, Wire, Covered, Firsts, Repeats;
    var packets := [Record(1, 0, 2 * n), Record(2, 0, 2 * n), Record(3, n, 2 * n)];
    PlainSegments(packets);
    assert SegmentsOf(packets, true) == [Segment(1, 0, 2 * n), Segment(2, 0, 2 * n), Segment(3, n, 2 * n)];
    WireIsCovered(packets);
    DoubleCountedOverlapHidesNewBytes(n);
  }
}
