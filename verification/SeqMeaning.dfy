/**
 What the accounting reports, in the packets' own fields: where positions count from, which
 sequence numbers count as sent, and what each point of the outstanding series says.
 */
module SeqMeaning {
  import opened Wrappers
  import opened Sequences
  import opened StableSort
  import opened Trace
  import opened SeqSpace
  import opened Outstanding
  import opened Retransmit

  // Packet `k` is the first SYN of the direction.
  ghost predicate FirstSynAt(packets: seq<Packet>, fromClient: bool, k: int) {
    && 0 <= k < |packets| && packets[k].fromClient == fromClient && packets[k].syn
    && forall j | 0 <= j < k :: !(packets[j].fromClient == fromClient && packets[j].syn)
  }

  // Packet `k` is its first payload record.
  ghost predicate FirstPayloadAt(packets: seq<Packet>, fromClient: bool, k: int) {
    && 0 <= k < |packets| && packets[k].fromClient == fromClient && packets[k].length > 0
    && forall j | 0 <= j < k :: !(packets[j].fromClient == fromClient && packets[j].length > 0)
  }

  // Positions count from the first SYN, or without a SYN from the first payload record.
  ghost predicate IsBase(packets: seq<Packet>, fromClient: bool, base: nat) {
    || (exists k :: FirstSynAt(packets, fromClient, k) && base == packets[k].seq_ % 0x1_0000_0000)
    || ((forall p | p in packets :: !(p.fromClient == fromClient && p.syn))
        && exists k :: FirstPayloadAt(packets, fromClient, k) && base == packets[k].seq_ % 0x1_0000_0000)
  }

  lemma {:induction false} FirstSynFinds(packets: seq<Packet>, fromClient: bool)
    ensures var r := FirstSyn(packets, fromClient);
            if r.Some? then exists k :: FirstSynAt(packets, fromClient, k) && r.value == packets[k].seq_ % 0x1_0000_0000
            else forall p | p in packets :: !(p.fromClient == fromClient && p.syn)
    decreases |packets|
  {
    if |packets| > 0 {
      FirstSynFinds(packets[1..], fromClient);
      if FirstSynAt(packets, fromClient, 0) {
      } else if FirstSyn(packets, fromClient).Some? {
        var k :| FirstSynAt(packets[1..], fromClient, k)
                 && FirstSyn(packets, fromClient).value == packets[1..][k].seq_ % 0x1_0000_0000;
        assert packets[1..][k] == packets[k + 1];
        assert forall j | 0 < j < k + 1 :: packets[j] == packets[1..][j - 1];
        assert FirstSynAt(packets, fromClient, k + 1);
      } else {
        assert packets == [packets[0]] + packets[1..];
      }
    }
  }

  lemma {:induction false} FirstPayloadFinds(packets: seq<Packet>, fromClient: bool)
    ensures var r := FirstPayload(packets, fromClient);
            if r.Some? then exists k :: FirstPayloadAt(packets, fromClient, k) && r.value == packets[k].seq_ % 0x1_0000_0000
            else forall p | p in packets :: !(p.fromClient == fromClient && p.length > 0)
    decreases |packets|
  {
    if |packets| > 0 {
      FirstPayloadFinds(packets[1..], fromClient);
      if FirstPayloadAt(packets, fromClient, 0) {
      } else if FirstPayload(packets, fromClient).Some? {
        var k :| FirstPayloadAt(packets[1..], fromClient, k)
                 && FirstPayload(packets, fromClient).value == packets[1..][k].seq_ % 0x1_0000_0000;
        assert packets[1..][k] == packets[k + 1];
        assert forall j | 0 < j < k + 1 :: packets[j] == packets[1..][j - 1];
        assert FirstPayloadAt(packets, fromClient, k + 1);
      } else {
        assert packets == [packets[0]] + packets[1..];
      }
    }
  }

  /** The base is the number of the first SYN, else of the first payload record, and nothing else. */
  lemma BaseMeans(packets: seq<Packet>, fromClient: bool)
    ensures forall base: nat :: InitialSequence(packets, fromClient) == Some(base) <==> IsBase(packets, fromClient, base)
  {
    hide FirstSyn, FirstPayload;
    FirstSynFinds(packets, fromClient);
    FirstPayloadFinds(packets, fromClient);
    forall j, k | FirstSynAt(packets, fromClient, j) && FirstSynAt(packets, fromClient, k)
      ensures j == k
    {
    }
    forall j, k | FirstPayloadAt(packets, fromClient, j) && FirstPayloadAt(packets, fromClient, k)
      ensures j == k
    {
    }
  }

  // ------------------------------------------------------------ what was sent

  /** A sequence number is on the wire when it lies less than a record's length behind its number. */
  lemma {:induction false} WireMeans(packets: seq<Packet>, fromClient: bool, x: nat)
    ensures x in Wire(packets, fromClient)
            <==> x < 0x1_0000_0000 && exists p :: p in packets && p.fromClient == fromClient
                                                  && (x - p.seq_) % 0x1_0000_0000 < p.length
  {
    hide Circle;
    if |packets| > 0 {
      var p := Last(packets);
      WireMeans(Init(packets), fromClient, x);
      assert packets == Init(packets) + [p];
      InCircle(p.seq_, p.length, x);
    }
  }

  lemma InCircle(at: int, length: nat, x: nat)
    ensures x in Circle(at, length) <==> x < 0x1_0000_0000 && (x - at) % 0x1_0000_0000 < length
  {
  }

  // By `ts` a record of the direction was sent that covers position `y`, counted from the base.
  ghost predicate SentAt(packets: seq<Packet>, fromClient: bool, base: nat, ts: int, y: nat) {
    exists p :: p in packets && p.fromClient == fromClient && p.ts <= ts
                && (p.seq_ - base) % 0x1_0000_0000 <= y < (p.seq_ - base) % 0x1_0000_0000 + p.length
  }

  lemma {:induction false} SentCover(packets: seq<Packet>, fromClient: bool, base: nat, ts: int, y: nat)
    ensures y in Cover(RangesBy(SentOf(packets, fromClient), Some(base), ts)) <==> SentAt(packets, fromClient, base, ts, y)
  {
    hide Cover, SentAt, SentOf, RangesBy;
    SentAtSnoc(packets, fromClient, base, ts, y);
    CoverSnoc(packets, fromClient, base, ts, y);
    if |packets| > 0 {
      SentCover(Init(packets), fromClient, base, ts, y);
    }
  }

  // The last packet covers the position.
  predicate Hits(p: Packet, fromClient: bool, base: nat, ts: int, y: nat) {
    && p.fromClient == fromClient && p.ts <= ts
    && (p.seq_ - base) % 0x1_0000_0000 <= y < (p.seq_ - base) % 0x1_0000_0000 + p.length
  }

  lemma SentAtSnoc(packets: seq<Packet>, fromClient: bool, base: nat, ts: int, y: nat)
    ensures SentAt(packets, fromClient, base, ts, y)
            <==> |packets| > 0 && (SentAt(Init(packets), fromClient, base, ts, y)
                                   || Hits(Last(packets), fromClient, base, ts, y))
  {
    if |packets| > 0 {
      assert packets == Init(packets) + [Last(packets)];
    }
  }

  lemma CoverSnoc(packets: seq<Packet>, fromClient: bool, base: nat, ts: int, y: nat)
    ensures y in Cover(RangesBy(SentOf(packets, fromClient), Some(base), ts))
            <==> |packets| > 0 && (y in Cover(RangesBy(SentOf(Init(packets), fromClient), Some(base), ts))
                                   || Hits(Last(packets), fromClient, base, ts, y))
  {
    hide Cover;
    if |packets| == 0 {
      CoverMembers([]);
    } else {
      var sent, p := SentOf(Init(packets), fromClient), Last(packets);
      if Carries(p, fromClient) {
        Snoc(sent, p);
        var before, r := RangesBy(sent, Some(base), ts), RecordRange(p, Some(base));
        CoverConcat(before, [r]);
        CoverOne(r);
      }
    }
  }

  function SentBy(fromClient: bool, ts: int): Packet -> bool {
    (p: Packet) => p.fromClient == fromClient && p.length > 0 && p.ts <= ts
  }

  lemma {:induction false} SentCounted(packets: seq<Packet>, fromClient: bool, base: nat, ts: int)
    ensures |RangesBy(SentOf(packets, fromClient), Some(base), ts)| == |Filter(packets, SentBy(fromClient, ts))|
  {
    if |packets| > 0 {
      SentCounted(Init(packets), fromClient, base, ts);
      Snoc(SentOf(Init(packets), fromClient), Last(packets));
    }
  }

  // Point `t` is what the acknowledgement `a` of the peer says of the direction: it stands at
  // the acknowledged position, and counts the records sent by then and the positions at or above
  // the acknowledged one that they cover.
  ghost predicate Says(packets: seq<Packet>, fromClient: bool, base: nat, a: Packet, t: Point) {
    && a.fromClient != fromClient && a.ack.Some? && a.ack.value != 0
    && t.fromClient == fromClient && t.ts == a.ts
    && t.cumulativeAck == (a.ack.value - base) % 0x1_0000_0000
    && t.counted == |Filter(packets, SentBy(fromClient, a.ts))|
    && exists open: set<nat> :: |open| == t.outstanding
         && forall y :: y in open <==> y >= t.cumulativeAck && SentAt(packets, fromClient, base, a.ts, y)
  }

  /**
   The outstanding series, without any function of the sweep: its points are what the peer's
   acknowledgements say, each says one, and there is none exactly when no payload was sent or
   nothing acknowledged.
   */
  lemma PointsMean(packets: seq<Packet>, fromClient: bool, base: nat)
    requires IsBase(packets, fromClient, base)
    ensures forall t | t in PointsOf(packets, fromClient) ::
              exists a :: a in packets && Says(packets, fromClient, base, a, t)
    ensures (exists p :: p in packets && p.fromClient == fromClient && p.length > 0) ==>
              forall a | a in packets && a.fromClient != fromClient && a.ack.Some? && a.ack.value != 0 ::
                exists t :: t in PointsOf(packets, fromClient) && Says(packets, fromClient, base, a, t)
    ensures Sorted(PointsOf(packets, fromClient), PointTime)
  {
    hide Sort, PointOf, InitialSequence, IsBase, Says, SentOf;
    BaseMeans(packets, fromClient);
    var acks, sent := AcksOf(packets, fromClient), SentOf(packets, fromClient);
    SortSorts(acks, Time);
    SameElements(Sort(acks, Time), acks);
    AcksMembers(packets, fromClient);
    PointsMembers(Sort(acks, Time), sent, Some(base), fromClient);
    SentHaveDirection(packets, fromClient);
    PayloadFound(packets, fromClient);
    PointsInOrder(Sort(acks, Time), sent, Some(base), fromClient);
    forall a | a in packets && Acknowledges(a, fromClient)
      ensures Says(packets, fromClient, base, a, PointOf(sent, Some(base), a, fromClient))
    {
      PointSays(packets, fromClient, base, a);
    }
    assert forall p :: Carries(p, fromClient) <==> p.fromClient == fromClient && p.length > 0;
  }

  lemma PointSays(packets: seq<Packet>, fromClient: bool, base: nat, a: Packet)
    requires Acknowledges(a, fromClient)
    ensures Says(packets, fromClient, base, a, PointOf(SentOf(packets, fromClient), Some(base), a, fromClient))
  {
    hide SentOf, RangesBy, Cover, SentAt, Filter;
    var sent := SentOf(packets, fromClient);
    SentCounted(packets, fromClient, base, a.ts);
    var acked := Relative(a.ack.value, Some(base));
    var open := AtOrAbove(Cover(RangesBy(sent, Some(base), a.ts)), acked);
    forall y
      ensures y in open <==> y >= acked && SentAt(packets, fromClient, base, a.ts, y)
    {
      SentCover(packets, fromClient, base, a.ts, y);
    }
  }

  lemma {:induction false} PointsInOrder(acks: seq<Packet>, sent: seq<Packet>, base: Option<nat>, fromClient: bool)
    requires Sorted(acks, Time) && forall a | a in acks :: a.ack.Some?
    ensures Sorted(Points(acks, sent, base, fromClient), PointTime)
    ensures forall k | 0 <= k < |acks| :: Points(acks, sent, base, fromClient)[k].ts == acks[k].ts
  {
    hide PointOf, Sorted, Points;
    if |acks| > 0 {
      var before, a := Init(acks), Last(acks);
      assert acks == before + [a] && forall b | b in before :: b in acks;
      InOrderSoFar(acks);
      PointsInOrder(before, sent, base, fromClient);
      LastPoint(acks, sent, base, fromClient);
      var points := Points(before, sent, base, fromClient);
      assert |points| > 0 ==> PointTime(Last(points)) == before[|before| - 1].ts;
      SortedSnoc(points, PointOf(sent, base, a, fromClient), PointTime);
    } else {
      NoPoints(sent, base, fromClient);
    }
  }

  lemma LastPoint(acks: seq<Packet>, sent: seq<Packet>, base: Option<nat>, fromClient: bool)
    requires |acks| > 0 && forall a | a in acks :: a.ack.Some?
    ensures forall a | a in Init(acks) :: a in acks
    ensures Points(acks, sent, base, fromClient)
         == Points(Init(acks), sent, base, fromClient) + [PointOf(sent, base, Last(acks), fromClient)]
    ensures PointOf(sent, base, Last(acks), fromClient).ts == Last(acks).ts
  {
    hide RangesBy, Cover, Relative;
  }

  lemma NoPoints(sent: seq<Packet>, base: Option<nat>, fromClient: bool)
    ensures Points([], sent, base, fromClient) == [] && Sorted<Point>([], PointTime)
  {
  }

  lemma InOrderSoFar(acks: seq<Packet>)
    requires |acks| > 0 && Sorted(acks, Time)
    ensures Sorted(Init(acks), Time) && (|acks| > 1 ==> acks[|acks| - 2].ts <= Last(acks).ts)
  {
    assert |acks| > 1 ==> Time(acks[|acks| - 2]) <= Time(acks[|acks| - 1]);
  }

  // ------------------------------------------------------------ segments

  /** Repeat accounting: one segment per payload record of the direction, counted from its own base. */
  lemma SegmentsMean(packets: seq<Packet>, fromClient: bool, base: nat)
    requires IsBase(Filter(packets, (p: Packet) => p.fromClient == fromClient && p.length > 0), fromClient, base)
    ensures var payload, segments := Filter(packets, (p: Packet) => p.fromClient == fromClient && p.length > 0),
                                     SegmentsOf(packets, fromClient);
            && |segments| == |payload|
            && forall k | 0 <= k < |payload| ::
                 segments[k] == Segment(payload[k].frame, (payload[k].seq_ - base) % 0x1_0000_0000, payload[k].length)
  {
    hide IsBase, SegmentsFrom, InitialSequence;
    var payload := Filter(packets, (p: Packet) => p.fromClient == fromClient && p.length > 0);
    SameFilter(packets, (p: Packet) => p.fromClient == fromClient && p.length > 0, (p: Packet) => Carries(p, fromClient));
    BaseMeans(payload, fromClient);
    SegmentsFromMean(payload, base);
  }

  lemma {:induction false} SameFilter<T>(s: seq<T>, f: T -> bool, g: T -> bool)
    requires forall x :: f(x) <==> g(x)
    ensures Filter(s, f) == Filter(s, g)
  {
    if |s| > 0 {
      SameFilter(Init(s), f, g);
    }
  }

  lemma {:induction false} SegmentsFromMean(payload: seq<Packet>, base: nat)
    ensures var segments := SegmentsFrom(payload, Some(base));
            && |segments| == |payload|
            && forall k | 0 <= k < |payload| ::
                 segments[k] == Segment(payload[k].frame, (payload[k].seq_ - base) % 0x1_0000_0000, payload[k].length)
  {
    if |payload| > 0 {
      SegmentsFromMean(Init(payload), base);
    }
  }
}
