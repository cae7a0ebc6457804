/**
 Payload on its way across a quiet interval (`_outstanding_within`, `_gap_reason`). The replay
 must not skip an interval while payload is unacknowledged; the code looks at the samples that
 the outstanding series has inside the interval.
 */
module InFlight {
  import opened Wrappers
  import opened Sequences
  import opened StableSort
  import opened Trace
  import opened SeqSpace
  import opened Outstanding
  import opened Idle

  // By `ts` the direction sent payload that no acknowledgement of the peer up to then covers.
  ghost predicate Unacknowledged(packets: seq<Packet>, fromClient: bool, ts: int) {
    var base := InitialSequence(Sort(packets, Time), fromClient);
    exists p :: p in packets && Carries(p, fromClient) && p.ts <= ts && PastAcks(packets, p, base, ts)
  }

  ghost predicate PastAcks(packets: seq<Packet>, p: Packet, base: Option<nat>, ts: int) {
    forall a | a in packets && Acknowledges(a, p.fromClient) && a.ts <= ts ::
      Relative(a.ack.value, base) < RecordRange(p, base).end
  }

  // The sample that an acknowledgement adds to the series.
  ghost function Sample(packets: seq<Packet>, fromClient: bool, a: Packet): Point
    requires a.ack.Some?
  {
    var ordered := Sort(packets, Time);
    PointOf(SentOf(ordered, fromClient), InitialSequence(ordered, fromClient), a, fromClient)
  }

  // The code finds outstanding payload of the direction in the closed interval.
  ghost predicate Noticed(packets: seq<Packet>, fromClient: bool, before: Packet, after: Packet) {
    exists t :: t in PointsOf(Sort(packets, Time), fromClient) && Inside(t.ts, before, after) && t.outstanding > 0
  }

  lemma {:induction false} SentMembers(packets: seq<Packet>, fromClient: bool)
    ensures forall p :: p in SentOf(packets, fromClient) <==> p in packets && Carries(p, fromClient)
  {
    if |packets| > 0 {
      SentMembers(Init(packets), fromClient);
      assert packets == Init(packets) + [Last(packets)];
    }
  }

  lemma {:induction false} RangesByMembers(sent: seq<Packet>, base: Option<nat>, ts: int, p: Packet)
    requires p in sent && p.ts <= ts
    ensures RecordRange(p, base) in RangesBy(sent, base, ts)
  {
    assert sent == Init(sent) + [Last(sent)];
    if p != Last(sent) {
      RangesByMembers(Init(sent), base, ts, p);
    }
  }

  // The series holds one sample for each acknowledgement, once payload was sent.
  lemma SamplesAreAcks(packets: seq<Packet>, fromClient: bool)
    ensures var ordered := Sort(packets, Time);
            SentOf(ordered, fromClient) != [] ==>
              && (forall a | a in packets && Acknowledges(a, fromClient) ::
                    Sample(packets, fromClient, a) in PointsOf(ordered, fromClient))
              && (forall t | t in PointsOf(ordered, fromClient) ::
                    exists a :: a in packets && Acknowledges(a, fromClient) && t == Sample(packets, fromClient, a))
    ensures SentOf(Sort(packets, Time), fromClient) == [] ==> PointsOf(Sort(packets, Time), fromClient) == []
  {
    hide Sort, PointOf, InitialSequence;
    var ordered := Sort(packets, Time);
    SortSorts(packets, Time);
    SameElements(ordered, packets);
    var acks, sent := AcksOf(ordered, fromClient), SentOf(ordered, fromClient);
    var base := InitialSequence(ordered, fromClient);
    SortSorts(acks, Time);
    SameElements(Sort(acks, Time), acks);
    AcksMembers(ordered, fromClient);
    PointsMembers(Sort(acks, Time), sent, base, fromClient);
  }

  // Between neighbours in time order there is no packet.
  lemma NothingBetween(packets: seq<Packet>, before: Packet, after: Packet, p: Packet)
    requires Neighbours(Sort(packets, Time), before, after) && p in packets && Inside(p.ts, before, after)
    ensures p.ts == before.ts || p.ts == after.ts
  {
    hide Sort;
    var ordered := Sort(packets, Time);
    SortSorts(packets, Time);
    SameElements(ordered, packets);
    var k :| 0 < k < |ordered| && ordered[k - 1] == before && ordered[k] == after;
    var m :| 0 <= m < |ordered| && ordered[m] == p;
    assert m < k - 1 ==> Time(ordered[m]) <= Time(ordered[k - 1]);
    assert m > k ==> Time(ordered[k]) <= Time(ordered[m]);
  }

  // An acknowledgement that does not cover some payload sent by then leaves it outstanding.
  lemma UncoveredIsOutstanding(packets: seq<Packet>, fromClient: bool, p: Packet, a: Packet)
    requires p in packets && Carries(p, fromClient) && a.ack.Some? && p.ts <= a.ts
    requires var base := InitialSequence(Sort(packets, Time), fromClient);
             Relative(a.ack.value, base) < RecordRange(p, base).end
    ensures Sample(packets, fromClient, a).outstanding > 0
  {
    hide Sort, InitialSequence, Relative, RangesBy, SentOf;
    var ordered := Sort(packets, Time);
    SortSorts(packets, Time);
    SameElements(ordered, packets);
    SentMembers(ordered, fromClient);
    var sent, base := SentOf(ordered, fromClient), InitialSequence(ordered, fromClient);
    RangesByMembers(sent, base, a.ts, p);
    CoverMembers(RangesBy(sent, base, a.ts));
    var r := RecordRange(p, base);
    assert r.end - 1 in AtOrAbove(Cover(RangesBy(sent, base, a.ts)), Relative(a.ack.value, base));
  }

  lemma {:induction false} RangeOfRecord(sent: seq<Packet>, base: Option<nat>, ts: int, r: Range) returns (q: Packet)
    requires r in RangesBy(sent, base, ts)
    ensures q in sent && q.ts <= ts && r == RecordRange(q, base)
  {
    if Last(sent).ts <= ts && r == RecordRange(Last(sent), base) {
      q := Last(sent);
    } else {
      q := RangeOfRecord(Init(sent), base, ts, r);
    }
  }

  // Some payload sent by the time of the acknowledgement reaches past its number.
  ghost predicate LeavesOpen(packets: seq<Packet>, fromClient: bool, a: Packet) {
    var base := InitialSequence(Sort(packets, Time), fromClient);
    a.ack.Some? && exists q :: q in packets && Carries(q, fromClient) && q.ts <= a.ts
                               && Relative(a.ack.value, base) < RecordRange(q, base).end
  }

  /** A sample is positive exactly when its acknowledgement leaves payload open. */
  lemma SampleIsOpen(packets: seq<Packet>, fromClient: bool, a: Packet)
    requires a.ack.Some?
    ensures Sample(packets, fromClient, a).outstanding > 0 <==> LeavesOpen(packets, fromClient, a)
  {
    hide Sort, InitialSequence, Relative, RangesBy, SentOf, Cover;
    var ordered := Sort(packets, Time);
    var sent, base := SentOf(ordered, fromClient), InitialSequence(ordered, fromClient);
    var acked := Relative(a.ack.value, base);
    if LeavesOpen(packets, fromClient, a) {
      var q :| q in packets && Carries(q, fromClient) && q.ts <= a.ts && acked < RecordRange(q, base).end;
      UncoveredIsOutstanding(packets, fromClient, q, a);
    }
    if Sample(packets, fromClient, a).outstanding > 0 {
      var x :| x in AtOrAbove(Cover(RangesBy(sent, base, a.ts)), acked);
      CoverMembers(RangesBy(sent, base, a.ts));
      var r :| r in RangesBy(sent, base, a.ts) && r.start <= x < r.end;
      var q := RangeOfRecord(sent, base, a.ts, r);
      SentMembers(ordered, fromClient);
      SortSorts(packets, Time);
      SameElements(ordered, packets);
    }
  }

  /** Between neighbours the code sees exactly the acknowledgements at the two ends. */
  lemma NoticedAtEnds(packets: seq<Packet>, fromClient: bool, before: Packet, after: Packet)
    requires Neighbours(Sort(packets, Time), before, after)
    ensures Noticed(packets, fromClient, before, after) <==>
              exists a :: a in packets && Acknowledges(a, fromClient) && (a.ts == before.ts || a.ts == after.ts)
                          && LeavesOpen(packets, fromClient, a)
  {
    hide Sort, PointsOf, SentOf, LeavesOpen;
    var ordered := Sort(packets, Time);
    SamplesAreAcks(packets, fromClient);
    OpenIsSent(packets, fromClient);
    forall a | a in packets && Acknowledges(a, fromClient)
      ensures Inside(a.ts, before, after) <==> a.ts == before.ts || a.ts == after.ts
      ensures Sample(packets, fromClient, a).outstanding > 0 <==> LeavesOpen(packets, fromClient, a)
      ensures Sample(packets, fromClient, a).ts == a.ts
    {
      SampleIsOpen(packets, fromClient, a);
      if Inside(a.ts, before, after) {
        NothingBetween(packets, before, after, a);
      }
    }
  }

  lemma OpenIsSent(packets: seq<Packet>, fromClient: bool)
    ensures forall a | LeavesOpen(packets, fromClient, a) :: SentOf(Sort(packets, Time), fromClient) != []
  {
    hide Sort, InitialSequence, Relative;
    var ordered := Sort(packets, Time);
    SentMembers(ordered, fromClient);
    SortSorts(packets, Time);
    SameElements(ordered, packets);
  }

  // The peer acknowledges at `ts`.
  ghost predicate AcknowledgedAt(packets: seq<Packet>, fromClient: bool, ts: int) {
    exists a :: a in packets && Acknowledges(a, fromClient) && a.ts == ts
  }

  // The peer acknowledges at `ts` and leaves payload open.
  ghost predicate OpenAt(packets: seq<Packet>, fromClient: bool, ts: int) {
    exists a :: a in packets && Acknowledges(a, fromClient) && a.ts == ts && LeavesOpen(packets, fromClient, a)
  }

  // While payload is unacknowledged, every acknowledgement leaves some open.
  lemma UnacknowledgedIsOpen(packets: seq<Packet>, fromClient: bool, ts: int)
    requires Unacknowledged(packets, fromClient, ts)
    ensures OpenAt(packets, fromClient, ts) <==> AcknowledgedAt(packets, fromClient, ts)
  {
    hide Sort, InitialSequence, Relative;
    var base := InitialSequence(Sort(packets, Time), fromClient);
    var p :| p in packets && Carries(p, fromClient) && p.ts <= ts && PastAcks(packets, p, base, ts);
    forall a | a in packets && Acknowledges(a, fromClient) && a.ts == ts
      ensures LeavesOpen(packets, fromClient, a)
    {
    }
  }

  /**
   When payload is unacknowledged as a quiet interval begins, the code notices it if and only if
   the peer acknowledges in the very instant the interval begins, or ends it with an
   acknowledgement that leaves payload open.
   */
  lemma FlightIsNoticedAtEnds(packets: seq<Packet>, fromClient: bool, before: Packet, after: Packet)
    requires Neighbours(Sort(packets, Time), before, after)
    requires Unacknowledged(packets, fromClient, before.ts)
    ensures Noticed(packets, fromClient, before, after)
            <==> AcknowledgedAt(packets, fromClient, before.ts) || OpenAt(packets, fromClient, after.ts)
  {
    hide Sort, Unacknowledged, LeavesOpen, Noticed;
    NoticedAtEnds(packets, fromClient, before, after);
    UnacknowledgedIsOpen(packets, fromClient, before.ts);
  }

  /**
   The promise that fails. An interval that begins with unacknowledged payload is compressed all
   the same if and only if its ends are neighbours far enough apart, no packet in it is transport
   activity, the peer neither acknowledges as it begins nor leaves payload open as it ends, and
   no acknowledgement at its ends leaves payload of the other direction open.
   */
  lemma FlightIsCompressed(packets: seq<Packet>, fromClient: bool, pace: Pace, before: Packet, after: Packet)
    requires Unacknowledged(packets, fromClient, before.ts)
    ensures Compresses(packets, Smart, pace, before, after) <==>
              && Neighbours(Sort(packets, Time), before, after) && LongEnough(after.ts - before.ts, pace)
              && PacketsQuiet(packets, before, after)
              && !AcknowledgedAt(packets, fromClient, before.ts) && !OpenAt(packets, fromClient, after.ts)
              && !OpenAt(packets, !fromClient, before.ts) && !OpenAt(packets, !fromClient, after.ts)
  {
    hide Sort, PointsOf, Unacknowledged, LeavesOpen, Neighbours, LongEnough, PacketsQuiet, Compresses;
    SmartCompressesIdle(packets, pace, before, after);
    if Neighbours(Sort(packets, Time), before, after) {
      FlightIsNoticedAtEnds(packets, fromClient, before, after);
      NoticedAtEnds(packets, !fromClient, before, after);
      QuietUnlessNoticed(packets, before, after);
    }
  }

  lemma QuietUnlessNoticed(packets: seq<Packet>, before: Packet, after: Packet)
    ensures NoActivity(packets, before, after) <==>
              PacketsQuiet(packets, before, after) && forall fromClient :: !Noticed(packets, fromClient, before, after)
  {
    hide Sort, PointsOf, PacketsQuiet, Inside;
    if !NoActivity(packets, before, after) && PacketsQuiet(packets, before, after) {
      var fromClient: bool, t :| t in PointsOf(Sort(packets, Time), fromClient) && Inside(t.ts, before, after)
                                 && t.outstanding > 0;
      assert Noticed(packets, fromClient, before, after);
    }
  }

  // A request and, `wait` later, the acknowledgement of all of it.
  function Request(ts: int, at: nat, size: nat): Packet {
    Packet(1, ts, true, size, at, None, false, false, Some(1), false)
  }

  function Answer(ts: int, at: nat, size: nat): Packet {
    Packet(2, ts, false, 0, 1, Some(at + size), false, true, Some(1), false)
  }

  /**
   Smart mode compresses the wait for an acknowledgement, however long: the request is
   unacknowledged from the beginning of the interval to its end.
   */
  lemma WaitForAnswerIsCompressed(ts: int, wait: int, at: nat, size: nat, pace: Pace)
    requires 0 < size && at + size < SEQ_SPACE && wait > 0 && LongEnough(wait, pace)
    ensures var before, after := Request(ts, at, size), Answer(ts + wait, at, size);
            && Unacknowledged([before, after], true, before.ts)
            && Compresses([before, after], Smart, pace, before, after)
  {
    hide Compresses, LongEnough;
    var before, after := Request(ts, at, size), Answer(ts + wait, at, size);
    var packets := [before, after];
    OnlyTheAnswer(before, after, packets, at, size);
    SmartCompressesIdle(packets, pace, before, after);
  }

  lemma OnlyTheAnswer(before: Packet, after: Packet, packets: seq<Packet>, at: nat, size: nat)
    requires packets == [before, after] && 0 < size && at + size < SEQ_SPACE && before.ts < after.ts
    requires before == Request(before.ts, at, size) && after == Answer(after.ts, at, size)
    ensures Neighbours(Sort(packets, Time), before, after)
    ensures Unacknowledged(packets, true, before.ts)
    ensures NoActivity(packets, before, after)
  {
    hide Sort, PointsOf, SentOf, InitialSequence;
    SortedIsFixed(packets, Time);
    assert packets[1 - 1] == before && packets[1] == after;
    assert before in packets && PastAcks(packets, before, InitialSequence(packets, true), before.ts);
    forall fromClient: bool, t | t in PointsOf(packets, fromClient)
      ensures t.outstanding == 0
    {
      SentMembers(packets, fromClient);
      SamplesAreAcks(packets, fromClient);
      AnswerLeavesNothing(before, after, packets, at, size);
    }
  }

  lemma AnswerLeavesNothing(before: Packet, after: Packet, packets: seq<Packet>, at: nat, size: nat)
    requires packets == [before, after] && 0 < size && at + size < SEQ_SPACE && before.ts < after.ts
    requires before == Request(before.ts, at, size) && after == Answer(after.ts, at, size)
    ensures Sample(packets, true, after).outstanding == 0
  {
    hide Sort, SentOf, InitialSequence, Cover, RangesBy;
    SortedIsFixed(packets, Time);
    OnlyTheRequestIsSent(before, after, packets, at, size);
    CoveredRecord(before, InitialSequence(packets, true), after.ts);
    assert RecordRange(before, InitialSequence(packets, true)) == Range(0, size);
  }

  lemma CoveredRecord(p: Packet, base: Option<nat>, ts: int)
    requires p.ts <= ts
    ensures AtOrAbove(Cover(RangesBy([p], base, ts)), RecordRange(p, base).end) == {}
  {
    hide Relative;
    var r := RecordRange(p, base);
    Snoc([], p);
    assert [] + [p] == [p] && [] + [r] == [r];
    assert RangesBy([], base, ts) == [];
    assert RangesBy([p], base, ts) == [r];
    CoverOne(r);
  }

  lemma OnlyTheRequestIsSent(before: Packet, after: Packet, packets: seq<Packet>, at: nat, size: nat)
    requires packets == [before, after] && 0 < size && at + size < SEQ_SPACE
    requires before == Request(before.ts, at, size) && after == Answer(after.ts, at, size)
    ensures SentOf(packets, true) == [before] && InitialSequence(packets, true) == Some(at)
  {
    assert Init(packets) == [before] && Init([before]) == [];
    assert SentOf([], true) == [];
    assert SentOf([before], true) == [] + [before];
    assert packets[1..] == [after] && [after][1..] == [];
    assert FirstSyn([], true) == None && FirstSyn([after], true) == None;
  }
}
