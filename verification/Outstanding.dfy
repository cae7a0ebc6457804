/**
 Outstanding data over time (`outstanding_bytes`): a two-cursor sweep over payload records
 and acknowledgements, proved to report, at each acknowledgement, the number of positions
 at or above it that were sent by then.
 */
module Outstanding {
  import opened Wrappers
  import opened Sequences
  import opened StableSort
  import opened Trace
  import opened SeqSpace

  datatype Point = Point(ts: int, fromClient: bool, outstanding: nat, cumulativeAck: nat, counted: nat)

  function PointTime(p: Point): int { p.ts }

  function SentOf(packets: seq<Packet>, fromClient: bool): seq<Packet> {
    Filter(packets, (p: Packet) => Carries(p, fromClient))
  }

  // Acknowledgement number 0 is skipped.
  predicate Acknowledges(p: Packet, fromClient: bool) {
    p.fromClient != fromClient && p.ack.Some? && p.ack.value != 0
  }

  function AcksOf(packets: seq<Packet>, fromClient: bool): (r: seq<Packet>)
    ensures forall p | p in r :: Acknowledges(p, fromClient)
  {
    var keep := (p: Packet) => Acknowledges(p, fromClient);
    FilterMembers(packets, keep);
    Filter(packets, keep)
  }

  function RecordRange(p: Packet, base: Option<nat>): Range {
    Range(Relative(p.seq_, base), Relative(p.seq_, base) + p.length)
  }

  // The ranges of the records sent no later than `ts`.
  function RangesBy(sent: seq<Packet>, base: Option<nat>, ts: int): seq<Range> {
    if |sent| == 0 then []
    else if Last(sent).ts <= ts then RangesBy(Init(sent), base, ts) + [RecordRange(Last(sent), base)]
    else RangesBy(Init(sent), base, ts)
  }

  function AtOrAbove(s: set<nat>, acked: nat): set<nat> {
    set x | x in s && x >= acked
  }

  function Below(s: set<nat>, acked: nat): set<nat> {
    set x | x in s && x < acked
  }

  // The specification of one reported value.
  function PointOf(sent: seq<Packet>, base: Option<nat>, a: Packet, fromClient: bool): Point
    requires a.ack.Some?
  {
    var early := RangesBy(sent, base, a.ts);
    var acked := Relative(a.ack.value, base);
    Point(a.ts, fromClient, |AtOrAbove(Cover(early), acked)|, acked, |early|)
  }

  function Points(acks: seq<Packet>, sent: seq<Packet>, base: Option<nat>, fromClient: bool): (r: seq<Point>)
    requires forall a | a in acks :: a.ack.Some?
    ensures |r| == |acks|
  {
    if |acks| == 0 then [] else
    assert forall a | a in Init(acks) :: a in acks;
    Points(Init(acks), sent, base, fromClient) + [PointOf(sent, base, Last(acks), fromClient)]
  }

  function PointsOf(packets: seq<Packet>, fromClient: bool): seq<Point> {
    var sent := SentOf(packets, fromClient);
    if sent == [] then [] else
    SortSorts(AcksOf(packets, fromClient), Time);
    SameElements(Sort(AcksOf(packets, fromClient), Time), AcksOf(packets, fromClient));
    Points(Sort(AcksOf(packets, fromClient), Time), sent, InitialSequence(packets, fromClient), fromClient)
  }

  /** Nothing is lost: what is outstanding and what was acknowledged add up to what was sent. */
  lemma OutstandingPlusAcknowledged(sent: seq<Packet>, base: Option<nat>, a: Packet, fromClient: bool)
    requires a.ack.Some?
    ensures var early := Cover(RangesBy(sent, base, a.ts));
            PointOf(sent, base, a, fromClient).outstanding + |Below(early, Relative(a.ack.value, base))| == |early|
  {
    var early := Cover(RangesBy(sent, base, a.ts));
    var acked := Relative(a.ack.value, base);
    assert early == AtOrAbove(early, acked) + Below(early, acked);
  }

  // ------------------------------------------------------------ the sweep

  lemma {:induction false} RangesByInsert(s: seq<Packet>, x: Packet, base: Option<nat>, ts: int)
    ensures multiset(RangesBy(Insert(s, x, Time), base, ts))
         == multiset(RangesBy(s, base, ts)) + if x.ts <= ts then multiset{RecordRange(x, base)} else multiset{}
  {
    hide RecordRange;
    if |s| == 0 || Time(Last(s)) <= Time(x) {
      Snoc(s, x);
    } else {
      Snoc(Insert(Init(s), x, Time), Last(s));
      RangesByInsert(Init(s), x, base, ts);
    }
  }

  lemma {:induction false} RangesBySort(s: seq<Packet>, base: Option<nat>, ts: int)
    ensures multiset(RangesBy(Sort(s, Time), base, ts)) == multiset(RangesBy(s, base, ts))
  {
    hide RecordRange;
    if |s| > 0 {
      RangesBySort(Init(s), base, ts);
      RangesByInsert(Sort(Init(s), Time), Last(s), base, ts);
    }
  }

  lemma {:induction false} RangesByPrefix(s: seq<Packet>, base: Option<nat>, ts: int, n: nat)
    requires n <= |s| && forall k | n <= k < |s| :: s[k].ts > ts
    ensures RangesBy(s, base, ts) == RangesBy(s[..n], base, ts)
  {
    if n == |s| {
      assert s[..n] == s;
    } else {
      RangesByPrefix(Init(s), base, ts, n);
      assert Init(s)[..n] == s[..n];
    }
  }

  // The records before the cursor are the records sent by `ts`.
  lemma CursorCounts(sent: seq<Packet>, base: Option<nat>, ts: int, n: nat, soFar: seq<Range>)
    requires |Sort(sent, Time)| == |sent| && n <= |sent|
    requires soFar == RangesBy(Sort(sent, Time)[..n], base, ts) && forall k | n <= k < |sent| :: Sort(sent, Time)[k].ts > ts
    ensures Cover(soFar) == Cover(RangesBy(sent, base, ts)) && |soFar| == |RangesBy(sent, base, ts)|
  {
    hide RangesBy, Cover, Sort;
    RangesByPrefix(Sort(sent, Time), base, ts, n);
    RangesBySort(sent, base, ts);
    SameElements(soFar, RangesBy(sent, base, ts));
    CoverOfSameRanges(soFar, RangesBy(sent, base, ts));
    assert |multiset(soFar)| == |multiset(RangesBy(sent, base, ts))|;
  }

  // Earlier records stay in the list when time advances.
  lemma {:induction false} AllSentBy(s: seq<Packet>, base: Option<nat>, ts: int, later: int)
    requires ts <= later && forall p | p in s :: p.ts <= ts
    ensures RangesBy(s, base, later) == RangesBy(s, base, ts)
  {
    if |s| > 0 {
      assert forall p | p in Init(s) :: p in s;
      AllSentBy(Init(s), base, ts, later);
      assert Last(s) in s;
    }
  }

  // What of each range lies at or above the acknowledgement.
  function Clip(rs: seq<Range>, acked: nat): seq<Range> {
    if |rs| == 0 then []
    else if Last(rs).end > acked then
      Clip(Init(rs), acked) + [Range(if Last(rs).start >= acked then Last(rs).start else acked, Last(rs).end)]
    else Clip(Init(rs), acked)
  }

  lemma {:induction false} ClipCovers(rs: seq<Range>, acked: nat)
    requires Proper(rs)
    ensures Proper(Clip(rs, acked)) && Cover(Clip(rs, acked)) == AtOrAbove(Cover(rs), acked)
  {
    hide Span;
    if |rs| > 0 {
      assert rs == Init(rs) + [Last(rs)];
      var last := Last(rs);
      ClipCovers(Init(rs), acked);
      ClipSpan(last, acked);
      if last.end > acked {
        var r := Range(if last.start >= acked then last.start else acked, last.end);
        Snoc(Clip(Init(rs), acked), r);
      }
      assert AtOrAbove(Cover(rs), acked)
          == AtOrAbove(Cover(Init(rs)), acked) + AtOrAbove(Span(last.start, last.end), acked);
    }
  }

  lemma ClipSpan(r: Range, acked: nat)
    ensures AtOrAbove(Span(r.start, r.end), acked)
         == if r.end > acked then Span(if r.start >= acked then r.start else acked, r.end) else {}
  {
  }

  lemma {:induction false} RangesByProper(s: seq<Packet>, base: Option<nat>, ts: int)
    ensures Proper(RangesBy(s, base, ts))
  {
    if |s| > 0 {
      RangesByProper(Init(s), base, ts);
    }
  }

  lemma PointsSnoc(acks: seq<Packet>, n: nat, sent: seq<Packet>, base: Option<nat>, fromClient: bool)
    requires n < |acks| && forall a | a in acks :: a.ack.Some?
    ensures forall a | a in acks[..n] :: a in acks
    ensures forall a | a in acks[..n + 1] :: a in acks
    ensures acks[n].ack.Some?
    ensures Points(acks[..n + 1], sent, base, fromClient)
         == Points(acks[..n], sent, base, fromClient) + [PointOf(sent, base, acks[n], fromClient)]
  {
    assert Init(acks[..n + 1]) == acks[..n];
  }

  method Sweep(packets: seq<Packet>, fromClient: bool) returns (series: seq<Point>)
    ensures series == PointsOf(packets, fromClient)
  {
    hide Carries, Relative, Cover, RecordRange, InitialSequence, Points, PointOf, RangesBy, Clip, Sort, SentOf, AcksOf;
    var sent := SentOf(packets, fromClient);
    if sent == [] {
      return [];
    }
    var base := FindInitialSequence(packets, fromClient);
    var acks := AcksOf(packets, fromClient);
    SortSorts(sent, Time);
    SortSorts(acks, Time);
    SameElements(Sort(acks, Time), acks);
    var ordered := Sort(sent, Time);
    acks := Sort(acks, Time);
    assert forall a | a in acks :: a.ack.Some?;
    series := [];
    var soFar: seq<Range> := [];
    var cursor := 0;
    NoPoints(sent, base, fromClient, if |acks| > 0 then acks[0].ts else 0);
    for n := 0 to |acks|
      invariant cursor <= |ordered|
      invariant forall k | 0 <= k < cursor && n < |acks| :: ordered[k].ts <= acks[n].ts
      invariant n < |acks| ==> soFar == RangesBy(ordered[..cursor], base, acks[n].ts)
      invariant forall a | a in acks[..n] :: a in acks
      invariant series == Points(acks[..n], sent, base, fromClient)
    {
      var a := acks[n];
      while cursor < |ordered| && ordered[cursor].ts <= a.ts
        invariant cursor <= |ordered|
        invariant forall k | 0 <= k < cursor :: ordered[k].ts <= a.ts
        invariant soFar == RangesBy(ordered[..cursor], base, a.ts)
      {
        NextRecord(ordered, cursor, base, a.ts);
        var p := ordered[cursor];
        soFar := soFar + [RecordRange(p, base)];
        cursor := cursor + 1;
      }
      RestIsLater(ordered, cursor, a.ts);
      CursorCounts(sent, base, a.ts, cursor, soFar);
      assert a in acks;
      var acked := Relative(a.ack.value, base);
      var open := Clip(soFar, acked);
      RangesByProper(ordered[..cursor], base, a.ts);
      ClipCovers(soFar, acked);
      var unique := UniquePayload(open);
      PointMeans(sent, base, a, fromClient);
      series := series + [Point(a.ts, fromClient, unique, acked, cursor)];
      CursorLength(ordered, cursor, base, a.ts);
      PointsSnoc(acks, n, sent, base, fromClient);
      if n + 1 < |acks| {
        StillSent(ordered, cursor, base, acks, n);
      }
    }
    assert acks[..|acks|] == acks;
  }

  lemma NoPoints(sent: seq<Packet>, base: Option<nat>, fromClient: bool, ts: int)
    ensures Points([], sent, base, fromClient) == [] && RangesBy([], base, ts) == []
  {
  }

  lemma PointMeans(sent: seq<Packet>, base: Option<nat>, a: Packet, fromClient: bool)
    requires a.ack.Some?
    ensures var early := RangesBy(sent, base, a.ts);
            var acked := Relative(a.ack.value, base);
            PointOf(sent, base, a, fromClient) == Point(a.ts, fromClient, |AtOrAbove(Cover(early), acked)|, acked, |early|)
  {
  }

  lemma NextRecord(ordered: seq<Packet>, cursor: nat, base: Option<nat>, ts: int)
    requires cursor < |ordered| && ordered[cursor].ts <= ts
    ensures RangesBy(ordered[..cursor + 1], base, ts)
         == RangesBy(ordered[..cursor], base, ts) + [RecordRange(ordered[cursor], base)]
  {
    assert Init(ordered[..cursor + 1]) == ordered[..cursor];
  }

  lemma RestIsLater(ordered: seq<Packet>, cursor: nat, ts: int)
    requires Sorted(ordered, Time) && cursor <= |ordered|
    requires cursor < |ordered| ==> ordered[cursor].ts > ts
    ensures forall k | cursor <= k < |ordered| :: ordered[k].ts > ts
  {
    forall k | cursor <= k < |ordered|
      ensures ordered[k].ts > ts
    {
      assert cursor < k ==> Time(ordered[cursor]) <= Time(ordered[k]);
    }
  }

  lemma {:induction false} CursorLength(ordered: seq<Packet>, cursor: nat, base: Option<nat>, ts: int)
    requires cursor <= |ordered| && forall k | 0 <= k < cursor :: ordered[k].ts <= ts
    ensures |RangesBy(ordered[..cursor], base, ts)| == cursor
  {
    if cursor > 0 {
      CursorLength(ordered, cursor - 1, base, ts);
      assert Init(ordered[..cursor]) == ordered[..cursor - 1];
    }
  }

  lemma StillSent(ordered: seq<Packet>, cursor: nat, base: Option<nat>, acks: seq<Packet>, n: nat)
    requires cursor <= |ordered| && Sorted(acks, Time) && n + 1 < |acks|
    requires forall k | 0 <= k < cursor :: ordered[k].ts <= acks[n].ts
    ensures acks[n].ts <= acks[n + 1].ts
    ensures forall k | 0 <= k < cursor :: ordered[k].ts <= acks[n + 1].ts
    ensures RangesBy(ordered[..cursor], base, acks[n + 1].ts) == RangesBy(ordered[..cursor], base, acks[n].ts)
  {
    assert Time(acks[n]) <= Time(acks[n + 1]);
    AllSentBy(ordered[..cursor], base, acks[n].ts, acks[n + 1].ts);
  }

  method OutstandingBytes(packets: seq<Packet>) returns (series: seq<Point>)
    ensures series == Sort(PointsOf(packets, true) + PointsOf(packets, false), PointTime)
  {
    var client := Sweep(packets, true);
    var server := Sweep(packets, false);
    series := Sort(client + server, PointTime);
  }

  // ------------------------------------------------------------ another initial sequence number

  // Shifting turns no acknowledgement number into or out of 0.
  predicate KeepsZeroAcks(packets: seq<Packet>, fromClient: bool, c: nat) {
    forall p | p in packets && p.fromClient != fromClient && p.ack.Some? ::
      (p.ack.value == 0 <==> Wrap(p.ack.value + c) == 0)
  }

  predicate AcksFit(packets: seq<Packet>) {
    forall p | p in packets && p.ack.Some? :: p.ack.value < SEQ_SPACE
  }

  lemma RelativeTurns(value: nat, base: nat, c: nat)
    ensures Relative(Wrap(value + c), Some(Wrap(base + c))) == Relative(value, Some(base))
  {
    var q := (value + c) / SEQ_SPACE;
    var r := (base + c) / SEQ_SPACE;
    assert Wrap(value + c) == value + c - q * SEQ_SPACE && Wrap(base + c) == base + c - r * SEQ_SPACE;
    WrapShift(value - base, r - q);
  }

  lemma {:induction false} SentShifts(packets: seq<Packet>, fromClient: bool, c: nat)
    ensures SentOf(ShiftAll(packets, fromClient, c), fromClient) == ShiftAll(SentOf(packets, fromClient), fromClient, c)
  {
    hide Wrap;
    if |packets| > 0 {
      SentShifts(Init(packets), fromClient, c);
      Snoc(ShiftAll(Init(packets), fromClient, c), Shift(Last(packets), fromClient, c));
      if Carries(Last(packets), fromClient) {
        Snoc(SentOf(Init(packets), fromClient), Last(packets));
      }
    }
  }

  lemma {:induction false} AcksShift(packets: seq<Packet>, fromClient: bool, c: nat)
    requires KeepsZeroAcks(packets, fromClient, c)
    ensures AcksOf(ShiftAll(packets, fromClient, c), fromClient) == ShiftAll(AcksOf(packets, fromClient), fromClient, c)
  {
    hide Wrap;
    if |packets| > 0 {
      assert packets == Init(packets) + [Last(packets)];
      AcksShift(Init(packets), fromClient, c);
      Snoc(ShiftAll(Init(packets), fromClient, c), Shift(Last(packets), fromClient, c));
      if Acknowledges(Last(packets), fromClient) {
        Snoc(AcksOf(Init(packets), fromClient), Last(packets));
      }
    }
  }

  lemma {:induction false} InsertShifts(s: seq<Packet>, x: Packet, fromClient: bool, c: nat)
    ensures Insert(ShiftAll(s, fromClient, c), Shift(x, fromClient, c), Time) == ShiftAll(Insert(s, x, Time), fromClient, c)
  {
    hide Wrap;
    if |s| > 0 {
      Snoc(ShiftAll(Init(s), fromClient, c), Shift(Last(s), fromClient, c));
      if Time(Last(s)) <= Time(x) {
        Snoc(s, x);
      } else {
        InsertShifts(Init(s), x, fromClient, c);
        Snoc(Insert(Init(s), x, Time), Last(s));
      }
    } else {
      assert s + [x] == [x] && Init([x]) == [];
    }
  }

  lemma {:induction false} SortShifts(s: seq<Packet>, fromClient: bool, c: nat)
    ensures Sort(ShiftAll(s, fromClient, c), Time) == ShiftAll(Sort(s, Time), fromClient, c)
  {
    hide Wrap, Shift;
    if |s| > 0 {
      SortShifts(Init(s), fromClient, c);
      Snoc(ShiftAll(Init(s), fromClient, c), Shift(Last(s), fromClient, c));
      InsertShifts(Sort(Init(s), Time), Last(s), fromClient, c);
    }
  }

  lemma {:induction false} RangesKeep(sent: seq<Packet>, base: nat, ts: int, fromClient: bool, c: nat)
    requires forall p | p in sent :: p.fromClient == fromClient
    ensures RangesBy(ShiftAll(sent, fromClient, c), Some(Wrap(base + c)), ts) == RangesBy(sent, Some(base), ts)
  {
    hide Wrap, Relative;
    if |sent| > 0 {
      assert sent == Init(sent) + [Last(sent)];
      RangesKeep(Init(sent), base, ts, fromClient, c);
      Snoc(ShiftAll(Init(sent), fromClient, c), Shift(Last(sent), fromClient, c));
      RelativeTurns(Last(sent).seq_, base, c);
    }
  }

  lemma {:induction false} ShiftedMembers(s: seq<Packet>, fromClient: bool, c: nat)
    ensures forall p :: p in s ==> Shift(p, fromClient, c) in ShiftAll(s, fromClient, c)
    ensures forall q | q in ShiftAll(s, fromClient, c) :: exists p :: p in s && q == Shift(p, fromClient, c)
  {
    hide Shift;
    if |s| > 0 {
      assert s == Init(s) + [Last(s)];
      ShiftedMembers(Init(s), fromClient, c);
      forall q | q in ShiftAll(s, fromClient, c)
        ensures exists p :: p in s && q == Shift(p, fromClient, c)
      {
        if q in ShiftAll(Init(s), fromClient, c) {
          var p :| p in Init(s) && q == Shift(p, fromClient, c);
          assert p in s && q == Shift(p, fromClient, c);
        } else {
          assert Last(s) in s && q == Shift(Last(s), fromClient, c);
        }
      }
    }
  }

  lemma PointKeeps(a: Packet, sent: seq<Packet>, base: nat, fromClient: bool, c: nat)
    requires Acknowledges(a, fromClient) && forall p | p in sent :: p.fromClient == fromClient
    ensures Shift(a, fromClient, c).ack.Some?
    ensures PointOf(ShiftAll(sent, fromClient, c), Some(Wrap(base + c)), Shift(a, fromClient, c), fromClient)
         == PointOf(sent, Some(base), a, fromClient)
  {
    hide Wrap, Relative, RangesBy, Cover, ShiftAll;
    RangesKeep(sent, base, a.ts, fromClient, c);
    RelativeTurns(a.ack.value, base, c);
  }

  lemma {:induction false} PointsKeep(acks: seq<Packet>, sent: seq<Packet>, base: nat, fromClient: bool, c: nat)
    requires forall a | a in acks :: a.ack.Some? && Acknowledges(a, fromClient)
    requires forall p | p in sent :: p.fromClient == fromClient
    ensures forall a | a in ShiftAll(acks, fromClient, c) :: a.ack.Some?
    ensures Points(ShiftAll(acks, fromClient, c), ShiftAll(sent, fromClient, c), Some(Wrap(base + c)), fromClient)
         == Points(acks, sent, Some(base), fromClient)
  {
    hide Wrap, PointOf, Shift;
    ShiftedMembers(acks, fromClient, c);
    forall a | a in acks
      ensures Shift(a, fromClient, c).ack.Some?
    {
      PointKeeps(a, sent, base, fromClient, c);
    }
    if |acks| > 0 {
      var a := Last(acks);
      assert acks == Init(acks) + [a];
      PointsKeep(Init(acks), sent, base, fromClient, c);
      Snoc(ShiftAll(Init(acks), fromClient, c), Shift(a, fromClient, c));
      PointKeeps(a, sent, base, fromClient, c);
    }
  }

  lemma {:induction false} FirstSynShifts(packets: seq<Packet>, fromClient: bool, c: nat)
    ensures var r := FirstSyn(packets, fromClient);
            FirstSyn(ShiftAll(packets, fromClient, c), fromClient) == if r.Some? then Some(Wrap(r.value + c)) else None
    decreases |packets|
  {
    hide Wrap;
    if |packets| > 0 {
      ShiftFront(packets, fromClient, c);
      FirstSynShifts(packets[1..], fromClient, c);
      WrapOfSum(packets[0].seq_, c);
    }
  }

  lemma {:induction false} FirstPayloadShifts(packets: seq<Packet>, fromClient: bool, c: nat)
    ensures var r := FirstPayload(packets, fromClient);
            FirstPayload(ShiftAll(packets, fromClient, c), fromClient) == if r.Some? then Some(Wrap(r.value + c)) else None
    decreases |packets|
  {
    hide Wrap;
    if |packets| > 0 {
      ShiftFront(packets, fromClient, c);
      FirstPayloadShifts(packets[1..], fromClient, c);
      WrapOfSum(packets[0].seq_, c);
    }
  }

  lemma {:induction false} ShiftFront(s: seq<Packet>, fromClient: bool, c: nat)
    requires |s| > 0
    ensures ShiftAll(s, fromClient, c)[0] == Shift(s[0], fromClient, c)
    ensures ShiftAll(s, fromClient, c)[1..] == ShiftAll(s[1..], fromClient, c)
  {
    hide Shift;
    if |s| > 1 {
      ShiftFront(Init(s), fromClient, c);
      assert Init(s)[1..] == Init(s[1..]) && Last(s) == Last(s[1..]);
    }
  }

  lemma WrapOfSum(n: nat, c: nat)
    ensures Wrap(Wrap(n + c)) == Wrap(n % SEQ_SPACE + c) == Wrap(n + c) == Wrap(n + c) % SEQ_SPACE
  {
    var q := n / SEQ_SPACE;
    WrapShift(n % SEQ_SPACE + c, q);
  }

  lemma {:induction false} SentHaveDirection(packets: seq<Packet>, fromClient: bool)
    ensures forall p | p in SentOf(packets, fromClient) :: Carries(p, fromClient)
    ensures SentOf(packets, fromClient) != [] <==> FirstPayload(packets, fromClient).Some?
  {
    PayloadFound(packets, fromClient);
    if |packets| > 0 {
      SentHaveDirection(Init(packets), fromClient);
      PayloadFound(Init(packets), fromClient);
      assert packets == Init(packets) + [Last(packets)];
    }
  }

  lemma {:induction false} PayloadFound(packets: seq<Packet>, fromClient: bool)
    ensures FirstPayload(packets, fromClient).Some? <==> exists p :: p in packets && Carries(p, fromClient)
    decreases |packets|
  {
    if |packets| > 0 {
      PayloadFound(packets[1..], fromClient);
      assert packets == [packets[0]] + packets[1..];
      if Carries(packets[0], fromClient) {
        assert packets[0] in packets;
      }
    }
  }

  lemma BaseShifts(packets: seq<Packet>, fromClient: bool, c: nat)
    ensures var r := InitialSequence(packets, fromClient);
            && InitialSequence(ShiftAll(packets, fromClient, c), fromClient)
               == (if r.Some? then Some(Wrap(r.value + c)) else None)
            && (SentOf(packets, fromClient) != [] ==> r.Some?)
  {
    hide Wrap, FirstSyn, FirstPayload, ShiftAll, SentOf;
    FirstSynShifts(packets, fromClient, c);
    FirstPayloadShifts(packets, fromClient, c);
    SentHaveDirection(packets, fromClient);
  }

  lemma ShiftKeepsPoints(packets: seq<Packet>, fromClient: bool, c: nat)
    requires KeepsZeroAcks(packets, fromClient, c)
    ensures PointsOf(ShiftAll(packets, fromClient, c), fromClient) == PointsOf(packets, fromClient)
  {
    hide Wrap, Shift, KeepsZeroAcks, Points, Sort, InitialSequence, ShiftAll, SentOf;
    var sent, acks := SentOf(packets, fromClient), AcksOf(packets, fromClient);
    SentShifts(packets, fromClient, c);
    SentHaveDirection(packets, fromClient);
    if sent != [] {
      AcksShift(packets, fromClient, c);
      SortShifts(acks, fromClient, c);
      BaseShifts(packets, fromClient, c);
      var base := InitialSequence(packets, fromClient).value;
      SortSorts(acks, Time);
      SameElements(Sort(acks, Time), acks);
      PointsKeep(Sort(acks, Time), sent, base, fromClient, c);
    }
  }

  lemma {:induction false} PointsMembers(acks: seq<Packet>, sent: seq<Packet>, base: Option<nat>, fromClient: bool)
    requires forall a | a in acks :: a.ack.Some?
    ensures forall a | a in acks :: PointOf(sent, base, a, fromClient) in Points(acks, sent, base, fromClient)
    ensures forall t | t in Points(acks, sent, base, fromClient) ::
              exists a :: a in acks && t == PointOf(sent, base, a, fromClient)
  {
    hide PointOf;
    if |acks| > 0 {
      assert acks == Init(acks) + [Last(acks)];
      PointsMembers(Init(acks), sent, base, fromClient);
      forall t | t in Points(acks, sent, base, fromClient)
        ensures exists a :: a in acks && t == PointOf(sent, base, a, fromClient)
      {
        if t in Points(Init(acks), sent, base, fromClient) {
          var a :| a in Init(acks) && t == PointOf(sent, base, a, fromClient);
          assert a in acks && t == PointOf(sent, base, a, fromClient);
        } else {
          assert Last(acks) in acks && t == PointOf(sent, base, Last(acks), fromClient);
        }
      }
    }
  }

  lemma {:induction false} AcksMembers(packets: seq<Packet>, fromClient: bool)
    ensures forall p :: p in AcksOf(packets, fromClient) <==> p in packets && Acknowledges(p, fromClient)
  {
    if |packets| > 0 {
      AcksMembers(Init(packets), fromClient);
      assert packets == Init(packets) + [Last(packets)];
    }
  }

  // The acknowledgement numbers that are reported, relative to the base.
  ghost predicate Reports(packets: seq<Packet>, fromClient: bool, acked: nat) {
    exists t :: t in PointsOf(packets, fromClient) && t.cumulativeAck == acked
  }

  lemma WhatIsReported(packets: seq<Packet>, fromClient: bool, acked: nat)
    requires SentOf(packets, fromClient) != []
    ensures Reports(packets, fromClient, acked) <==>
              exists a :: a in packets && Acknowledges(a, fromClient)
                          && Relative(a.ack.value, InitialSequence(packets, fromClient)) == acked
  {
    hide RangesBy, Cover, Relative, InitialSequence, Sort;
    var acks, sent, base := AcksOf(packets, fromClient), SentOf(packets, fromClient), InitialSequence(packets, fromClient);
    SortSorts(acks, Time);
    SameElements(Sort(acks, Time), acks);
    PointsMembers(Sort(acks, Time), sent, base, fromClient);
    AcksMembers(packets, fromClient);
    if a :| a in packets && Acknowledges(a, fromClient) && Relative(a.ack.value, base) == acked {
      var t := PointOf(sent, base, a, fromClient);
      assert t in PointsOf(packets, fromClient) && t.cumulativeAck == acked;
    }
  }

  lemma SameRelative(a: nat, b: nat, base: nat)
    requires a < SEQ_SPACE && b < SEQ_SPACE && Relative(a, Some(base)) == Relative(b, Some(base))
    ensures a == b
  {
    WrapInjective(a, b, 0 - base);
  }

  // Base and non-emptiness carry over to the shifted packets.
  lemma ShiftedBase(packets: seq<Packet>, fromClient: bool, c: nat)
    requires SentOf(packets, fromClient) != []
    ensures InitialSequence(packets, fromClient).Some?
    ensures InitialSequence(ShiftAll(packets, fromClient, c), fromClient)
         == Some(Wrap(InitialSequence(packets, fromClient).value + c))
    ensures SentOf(ShiftAll(packets, fromClient, c), fromClient) != []
  {
    hide Wrap, FirstSyn, FirstPayload, SentOf;
    SentShifts(packets, fromClient, c);
    SentHaveDirection(packets, fromClient);
    FirstSynShifts(packets, fromClient, c);
    FirstPayloadShifts(packets, fromClient, c);
  }

  // Number 0 is skipped before the shift, and reported after it.
  lemma ZeroAppears(packets: seq<Packet>, fromClient: bool, c: nat, p: Packet)
    requires AcksFit(packets) && SentOf(packets, fromClient) != []
    requires p in packets && p.fromClient != fromClient && p.ack == Some(0) && Wrap(c) != 0
    ensures PointsOf(ShiftAll(packets, fromClient, c), fromClient) != PointsOf(packets, fromClient)
  {
    hide PointsOf, Wrap, Relative, InitialSequence, SentOf, ShiftAll;
    var shifted := ShiftAll(packets, fromClient, c);
    ShiftedBase(packets, fromClient, c);
    ShiftedMembers(packets, fromClient, c);
    var base := InitialSequence(packets, fromClient).value;
    var acked := Relative(0, Some(base));
    RelativeTurns(0, base, c);
    WhatIsReported(packets, fromClient, acked);
    WhatIsReported(shifted, fromClient, acked);
    var q := Shift(p, fromClient, c);
    assert q in shifted && Acknowledges(q, fromClient) && Relative(q.ack.value, Some(Wrap(base + c))) == acked;
    assert Reports(shifted, fromClient, acked);
    if Reports(packets, fromClient, acked) {
      var a :| a in packets && Acknowledges(a, fromClient) && Relative(a.ack.value, Some(base)) == acked;
      SameRelative(a.ack.value, 0, base);
    }
  }

  // A number reported after the shift stems from an acknowledgement that is not 0 there.
  lemma ReportedAfterShift(packets: seq<Packet>, fromClient: bool, c: nat, acked: nat) returns (a: Packet)
    requires AcksFit(packets) && SentOf(packets, fromClient) != []
    requires Reports(ShiftAll(packets, fromClient, c), fromClient, acked)
    ensures a in packets && a.fromClient != fromClient && a.ack.Some? && Wrap(a.ack.value + c) != 0
    ensures Relative(a.ack.value, InitialSequence(packets, fromClient)) == acked
  {
    hide PointsOf, Wrap, Relative, InitialSequence, SentOf, ShiftAll, Reports;
    var shifted := ShiftAll(packets, fromClient, c);
    ShiftedBase(packets, fromClient, c);
    ShiftedMembers(packets, fromClient, c);
    var base := InitialSequence(packets, fromClient).value;
    WhatIsReported(shifted, fromClient, acked);
    var b :| b in shifted && Acknowledges(b, fromClient) && Relative(b.ack.value, Some(Wrap(base + c))) == acked;
    a :| a in packets && b == Shift(a, fromClient, c);
    RelativeTurns(a.ack.value, base, c);
  }

  // A number is reported before the shift, and becomes 0.
  lemma ZeroHides(packets: seq<Packet>, fromClient: bool, c: nat, p: Packet)
    requires AcksFit(packets) && SentOf(packets, fromClient) != []
    requires p in packets && Acknowledges(p, fromClient) && Wrap(p.ack.value + c) == 0
    ensures PointsOf(ShiftAll(packets, fromClient, c), fromClient) != PointsOf(packets, fromClient)
  {
    hide PointsOf, Wrap, Relative, InitialSequence, SentOf, ShiftAll;
    var shifted := ShiftAll(packets, fromClient, c);
    ShiftedBase(packets, fromClient, c);
    var base := InitialSequence(packets, fromClient).value;
    var acked := Relative(p.ack.value, Some(base));
    WhatIsReported(packets, fromClient, acked);
    assert Reports(packets, fromClient, acked);
    if Reports(shifted, fromClient, acked) {
      var a := ReportedAfterShift(packets, fromClient, c, acked);
      SameRelative(a.ack.value, p.ack.value, base);
    }
  }

  lemma SentShiftsEmpty(packets: seq<Packet>, fromClient: bool, c: nat)
    requires SentOf(packets, fromClient) == []
    ensures PointsOf(ShiftAll(packets, fromClient, c), fromClient) == PointsOf(packets, fromClient)
  {
    SentShifts(packets, fromClient, c);
  }

  /**
   The outstanding series of a direction does not depend on its initial sequence number if and
   only if the shift turns no acknowledgement number of the peer into or out of 0, the number
   the sweep skips (or the direction sent nothing, so that there is no series).
   */
  lemma OutstandingIgnoresInitialSequence(packets: seq<Packet>, fromClient: bool, c: nat)
    requires AcksFit(packets)
    ensures PointsOf(ShiftAll(packets, fromClient, c), fromClient) == PointsOf(packets, fromClient)
            <==> SentOf(packets, fromClient) == [] || KeepsZeroAcks(packets, fromClient, c)
  {
    hide PointsOf, Wrap, SentOf, ShiftAll;
    if SentOf(packets, fromClient) == [] {
      SentShiftsEmpty(packets, fromClient, c);
    } else if KeepsZeroAcks(packets, fromClient, c) {
      ShiftKeepsPoints(packets, fromClient, c);
    } else {
      var p :| p in packets && p.fromClient != fromClient && p.ack.Some?
               && !(p.ack.value == 0 <==> Wrap(p.ack.value + c) == 0);
      if p.ack.value == 0 {
        ZeroAppears(packets, fromClient, c, p);
      } else {
        ZeroHides(packets, fromClient, c, p);
      }
    }
  }

  /** One record and an acknowledgement with number 0: shifted by one, it enters the series. */
  lemma ZeroAckDependsOnInitialSequence()
    ensures var packets := [Packet(1, 0, true, 10, 0, None, false, true, None, false),
                            Packet(2, 1, false, 0, 0, Some(0), false, true, None, false)];
            PointsOf(ShiftAll(packets, true, 1), true) != PointsOf(packets, true)
  {
    hide PointsOf, ShiftAll, SentOf;
    var sent, ack := Packet(1, 0, true, 10, 0, None, false, true, None, false),
                     Packet(2, 1, false, 0, 0, Some(0), false, true, None, false);
    var packets := [sent, ack];
    SentHaveDirection(packets, true);
    PayloadFound(packets, true);
    assert sent in packets && ack in packets;
    assert Carries(sent, true);
    ZeroAppears(packets, true, 1, ack);
  }
}
