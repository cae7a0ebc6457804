/** Idle compression of the replay (`_gap_reason`, `analyze_gaps`, `timeline`). */
module Idle {
  import opened Wrappers
  import opened Sequences
  import opened StableSort
  import opened Trace
  import opened Outstanding

  datatype Mode = Faithful | Smart | Fast

  datatype Reason = FaithfulMode | ZeroWindow | Retransmission | HandshakeRetry | UnresolvedOutstanding | Quiet

  // The quiet interval between two neighbouring packets; `compressed` means it carries a label.
  datatype Gap = Gap(before: Packet, after: Packet, compressible: bool, reason: Reason, compressed: bool)
  {
    function Duration(): int { after.ts - before.ts }
  }

  predicate Inside(ts: int, before: Packet, after: Packet) {
    before.ts <= ts <= after.ts
  }

  predicate Retries(packets: seq<Packet>, before: Packet, after: Packet) {
    && (exists p | p in packets :: Inside(p.ts, before, after) && p.syn && !p.ackFlag)
    && !(exists p | p in packets :: Inside(p.ts, before, after) && p.syn && p.ackFlag)
  }

  // `_gap_reason`: the interval holds the packet before the gap, so it is never empty.
  function GapReason(packets: seq<Packet>, before: Packet, after: Packet, series: seq<Point>): Reason {
    if exists p | p in packets :: Inside(p.ts, before, after) && p.window == Some(0) then ZeroWindow
    else if exists p | p in packets :: Inside(p.ts, before, after) && p.retrans then Retransmission
    else if Retries(packets, before, after) then HandshakeRetry
    else if exists t | t in series :: Inside(t.ts, before, after) && t.outstanding > 0 then UnresolvedOutstanding
    else Quiet
  }

  // The playback speed, and how many seconds of playback make a gap worth compressing.
  datatype Pace = Pace(speed: real, trigger: real)

  const TRIGGER := 2.0

  // A gap is worth compressing when replaying it takes at least the trigger; speeds below
  // 0.001 count as 0.001.
  predicate LongEnough(duration: int, pace: Pace) {
    duration as real >= 1_000_000.0 * pace.trigger * (if pace.speed >= 0.001 then pace.speed else 0.001)
  }

  function Judge(packets: seq<Packet>, before: Packet, after: Packet, mode: Mode, pace: Pace, series: seq<Point>)
      : (g: Gap)
    ensures g.before == before && g.after == after
  {
    if mode == Faithful then Gap(before, after, false, FaithfulMode, false) else
    var reason := GapReason(packets, before, after, series);
    Gap(before, after, reason == Quiet, reason, (reason == Quiet || mode == Fast) && LongEnough(after.ts - before.ts, pace))
  }

  // The gaps among the first `n` packets in time order.
  function GapsUpTo(ordered: seq<Packet>, n: nat, mode: Mode, pace: Pace, series: seq<Point>): seq<Gap>
    requires n <= |ordered|
  {
    if n < 2 then [] else
    var rest := GapsUpTo(ordered, n - 1, mode, pace, series);
    if ordered[n - 1].ts - ordered[n - 2].ts <= 0 then rest
    else rest + [Judge(ordered, ordered[n - 2], ordered[n - 1], mode, pace, series)]
  }

  function SeriesFor(ordered: seq<Packet>, mode: Mode): seq<Point> {
    if mode == Faithful then [] else Sort(PointsOf(ordered, true) + PointsOf(ordered, false), PointTime)
  }

  function GapsOf(packets: seq<Packet>, mode: Mode, pace: Pace): seq<Gap> {
    var ordered := Sort(packets, Time);
    GapsUpTo(ordered, |ordered|, mode, pace, SeriesFor(ordered, mode))
  }

  function CompressedTime(gaps: seq<Gap>): int {
    if |gaps| == 0 then 0 else CompressedTime(Init(gaps)) + if Last(gaps).compressed then Last(gaps).Duration() else 0
  }

  method AnalyzeGaps(packets: seq<Packet>, mode: Mode, pace: Pace) returns (gaps: seq<Gap>, compressed: int)
    ensures gaps == GapsOf(packets, mode, pace) && compressed == CompressedTime(gaps)
  {
    hide Sort, GapReason, PointsOf;
    var ordered := Sort(packets, Time);
    gaps, compressed := [], 0;
    if |ordered| < 2 {
      return;
    }
    var series: seq<Point> := [];
    if mode != Faithful {
      series := OutstandingBytes(ordered);
    }
    for n := 2 to |ordered| + 1
      invariant gaps == GapsUpTo(ordered, n - 1, mode, pace, series) && compressed == CompressedTime(gaps)
    {
      var before, after := ordered[n - 2], ordered[n - 1];
      var captured := after.ts - before.ts;
      if captured <= 0 {
        continue;
      }
      var gap: Gap;
      if mode == Faithful {
        gap := Gap(before, after, false, FaithfulMode, false);
      } else {
        var reason := GapReason(ordered, before, after, series);
        var compressible := reason == Quiet;
        var tooShort := !LongEnough(captured, pace);
        var labelled := false;
        if compressible && !tooShort {
          compressed := compressed + captured;
          labelled := true;
        } else if !compressible && mode == Fast && !tooShort {
          compressed := compressed + captured;
          labelled := true;
        }
        gap := Gap(before, after, compressible, reason, labelled);
      }
      Snoc(gaps, gap);
      gaps := gaps + [gap];
    }
  }

  // ------------------------------------------------------------ soundness and nesting

  lemma {:induction false} GapsAreJudged(ordered: seq<Packet>, n: nat, mode: Mode, pace: Pace, series: seq<Point>)
    requires n <= |ordered|
    ensures forall g :: g in GapsUpTo(ordered, n, mode, pace, series) <==>
              exists k :: 0 < k < n && ordered[k].ts > ordered[k - 1].ts
                          && g == Judge(ordered, ordered[k - 1], ordered[k], mode, pace, series)
  {
    hide Judge;
    if n >= 2 {
      GapsAreJudged(ordered, n - 1, mode, pace, series);
      forall g
        ensures g in GapsUpTo(ordered, n, mode, pace, series) <==>
                  exists k :: 0 < k < n && ordered[k].ts > ordered[k - 1].ts
                              && g == Judge(ordered, ordered[k - 1], ordered[k], mode, pace, series)
      {
        if ordered[n - 1].ts > ordered[n - 2].ts
           && g == Judge(ordered, ordered[n - 2], ordered[n - 1], mode, pace, series) {
          assert 0 < n - 1 < n && ordered[n - 1].ts > ordered[n - 1 - 1].ts
              && g == Judge(ordered, ordered[n - 1 - 1], ordered[n - 1], mode, pace, series);
        }
      }
    }
  }

  // No packet in the closed interval is transport activity.
  ghost predicate PacketsQuiet(packets: seq<Packet>, before: Packet, after: Packet) {
    && (forall p | p in packets && Inside(p.ts, before, after) :: p.window != Some(0) && !p.retrans)
    && !Retries(packets, before, after)
  }

  // And no sample shows outstanding payload.
  ghost predicate NoActivity(packets: seq<Packet>, before: Packet, after: Packet) {
    && PacketsQuiet(packets, before, after)
    && (forall fromClient: bool, t | t in PointsOf(Sort(packets, Time), fromClient) && Inside(t.ts, before, after) ::
          t.outstanding == 0)
  }

  // The intervals that a mode and a speed compress.
  ghost predicate Compresses(packets: seq<Packet>, mode: Mode, pace: Pace, before: Packet, after: Packet) {
    exists g :: g in GapsOf(packets, mode, pace) && g.before == before && g.after == after && g.compressed
  }

  // Some neighbours in time order are `before` and `after`, with time between them.
  ghost predicate Neighbours(ordered: seq<Packet>, before: Packet, after: Packet) {
    && after.ts > before.ts
    && exists k :: 0 < k < |ordered| && ordered[k - 1] == before && ordered[k] == after
  }

  /** An interval is compressed exactly when its ends are neighbours and the judgement says so. */
  lemma CompressedWhenJudged(packets: seq<Packet>, mode: Mode, pace: Pace, before: Packet, after: Packet)
    ensures var ordered := Sort(packets, Time);
            Compresses(packets, mode, pace, before, after)
            <==> Neighbours(ordered, before, after)
                 && Judge(ordered, before, after, mode, pace, SeriesFor(ordered, mode)).compressed
  {
    hide Sort, GapReason, SeriesFor, GapsUpTo, LongEnough;
    var ordered := Sort(packets, Time);
    GapsAreJudged(ordered, |ordered|, mode, pace, SeriesFor(ordered, mode));
  }

  /** Faithful mode compresses nothing. */
  lemma FaithfulCompressesNothing(packets: seq<Packet>, pace: Pace, before: Packet, after: Packet)
    ensures !Compresses(packets, Faithful, pace, before, after)
  {
    hide Sort, GapsOf, SeriesFor;
    CompressedWhenJudged(packets, Faithful, pace, before, after);
  }

  /**
   What smart mode compresses, fast mode compresses too; and what a higher speed or a later
   trigger compresses, a lower speed and an earlier trigger do.
   */
  lemma CompressionIsNested(packets: seq<Packet>, mode: Mode, mode': Mode, pace: Pace, pace': Pace,
                            before: Packet, after: Packet)
    requires mode == mode' || (mode == Smart && mode' == Fast)
    requires pace'.speed <= pace.speed && pace'.trigger <= pace.trigger
    requires Compresses(packets, mode, pace, before, after)
    ensures Compresses(packets, mode', pace', before, after)
  {
    hide Sort, GapReason, SeriesFor, GapsOf, LongEnough, Compresses;
    var ordered := Sort(packets, Time);
    SameSeries(ordered);
    CompressedWhenJudged(packets, mode, pace, before, after);
    CompressedWhenJudged(packets, mode', pace', before, after);
    if mode == Faithful {
      FaithfulCompressesNothing(packets, pace, before, after);
    } else {
      SlowerIsLonger(after.ts - before.ts, pace, pace');
    }
  }

  /** Smart mode compresses exactly the long intervals without transport activity. */
  lemma SmartCompressesIdle(packets: seq<Packet>, pace: Pace, before: Packet, after: Packet)
    ensures Compresses(packets, Smart, pace, before, after)
            <==> Neighbours(Sort(packets, Time), before, after)
                 && LongEnough(after.ts - before.ts, pace) && NoActivity(packets, before, after)
  {
    hide Sort, PointsOf, LongEnough, Compresses, Neighbours, NoActivity, GapReason, Init, Last;
    CompressedWhenJudged(packets, Smart, pace, before, after);
    QuietMeansIdle(packets, before, after);
  }

  lemma QuietMeansIdle(packets: seq<Packet>, before: Packet, after: Packet)
    ensures var ordered := Sort(packets, Time);
            GapReason(ordered, before, after, SeriesFor(ordered, Smart)) == Quiet <==> NoActivity(packets, before, after)
  {
    hide Sort, PointsOf, Inside;
    var ordered := Sort(packets, Time);
    SortSorts(packets, Time);
    SameElements(ordered, packets);
    var points := PointsOf(ordered, true) + PointsOf(ordered, false);
    SortSorts(points, PointTime);
    SameElements(Sort(points, PointTime), points);
  }

  /** What is compressed never exceeds the time the trace spans. */
  lemma {:induction false} CompressedTimeIsBounded(ordered: seq<Packet>, n: nat, mode: Mode, pace: Pace, series: seq<Point>)
    requires 0 < n <= |ordered| && forall j, k | 0 <= j <= k < |ordered| :: ordered[j].ts <= ordered[k].ts
    ensures 0 <= CompressedTime(GapsUpTo(ordered, n, mode, pace, series)) <= ordered[n - 1].ts - ordered[0].ts
  {
    hide GapReason, LongEnough;
    if n >= 2 {
      CompressedTimeIsBounded(ordered, n - 1, mode, pace, series);
      Snoc(GapsUpTo(ordered, n - 1, mode, pace, series),
           Judge(ordered, ordered[n - 2], ordered[n - 1], mode, pace, series));
    }
  }

  lemma SameSeries(ordered: seq<Packet>)
    ensures SeriesFor(ordered, Smart) == SeriesFor(ordered, Fast)
  {
  }

  lemma SlowerIsLonger(duration: int, pace: Pace, pace': Pace)
    requires pace'.speed <= pace.speed && pace'.trigger <= pace.trigger && duration > 0
    requires LongEnough(duration, pace)
    ensures LongEnough(duration, pace')
  {
    var s := if pace.speed >= 0.001 then pace.speed else 0.001;
    var s' := if pace'.speed >= 0.001 then pace'.speed else 0.001;
    if pace'.trigger >= 0.0 {
      assert pace'.trigger * s' <= pace'.trigger * s <= pace.trigger * s;
    } else {
      assert pace'.trigger * s' <= 0.0;
    }
  }

  // ------------------------------------------------------------ timeline

  datatype Item = Shown(packet: Packet) | Skipped(gap: Gap)

  // The compressed gap behind packet `k`, if there is one.
  function GapBehind(ordered: seq<Packet>, k: nat, mode: Mode, pace: Pace, series: seq<Point>): seq<Item>
    requires k < |ordered|
  {
    if k + 1 < |ordered| && ordered[k + 1].ts > ordered[k].ts
       && Judge(ordered, ordered[k], ordered[k + 1], mode, pace, series).compressed
    then [Skipped(Judge(ordered, ordered[k], ordered[k + 1], mode, pace, series))] else []
  }

  // Each packet in time order, a compressed gap directly between its two packets.
  function Interleaved(ordered: seq<Packet>, n: nat, mode: Mode, pace: Pace, series: seq<Point>): seq<Item>
    requires n <= |ordered|
  {
    if n == 0 then [] else
    Interleaved(ordered, n - 1, mode, pace, series)
    + ([Shown(ordered[n - 1])] + GapBehind(ordered, n - 1, mode, pace, series))
  }

  function PacketsOf(items: seq<Item>): seq<Packet> {
    if |items| == 0 then []
    else match Last(items)
      case Shown(p) => PacketsOf(Init(items)) + [p]
      case Skipped(_) => PacketsOf(Init(items))
  }

  ghost predicate DistinctFrames(packets: seq<Packet>) {
    forall j, k | 0 <= j < k < |packets| :: packets[j].frame != packets[k].frame
  }

  // Looked up by the frame in front of the gap; a later gap overwrites an earlier one.
  method ByStart(gaps: seq<Gap>) returns (byStart: map<nat, Gap>)
    ensures forall f :: f in byStart <==> exists g :: g in gaps && g.before.frame == f
    ensures forall f | f in byStart :: byStart[f] in gaps && byStart[f].before.frame == f
  {
    byStart := map[];
    for n := 0 to |gaps|
      invariant forall f :: f in byStart <==> exists g :: g in gaps[..n] && g.before.frame == f
      invariant forall f | f in byStart :: byStart[f] in gaps[..n] && byStart[f].before.frame == f
    {
      assert gaps[..n + 1] == gaps[..n] + [gaps[n]];
      byStart := byStart[gaps[n].before.frame := gaps[n]];
    }
    assert gaps[..|gaps|] == gaps;
  }

  /**
   Whatever the frames, every packet is shown once, in stable time order. When frame numbers
   are distinct, each compressed gap stands directly between its two packets.
   */
  method Timeline(packets: seq<Packet>, mode: Mode, speed: real) returns (items: seq<Item>)
    ensures PacketsOf(items) == Sort(packets, Time)
    ensures DistinctFrames(packets) ==> items == TimelineOf(packets, mode, Pace(speed, TRIGGER))
  {
    hide Sort, Judge, SeriesFor, GapsUpTo, Interleaved, GapBehind, PacketsOf, DistinctFrames;
    var pace := Pace(speed, TRIGGER);
    var gaps, compressed := AnalyzeGaps(packets, mode, pace);
    var byStart := ByStart(gaps);
    var ordered := Sort(packets, Time);
    ghost var series := SeriesFor(ordered, mode);
    items := [];
    ShowNothing(ordered, mode, pace, series);
    for n := 0 to |ordered|
      invariant PacketsOf(items) == ordered[..n]
      invariant DistinctFrames(packets) ==> items == Interleaved(ordered, n, mode, pace, series)
    {
      var p := ordered[n];
      ShowPacket(items, ordered, n, byStart);
      if DistinctFrames(packets) {
        Lookup(packets, ordered, n, mode, pace, series, byStart);
        ShowNext(ordered, n, mode, pace, series);
      }
      ghost var was := items;
      items := items + [Shown(p)];
      if p.frame in byStart && byStart[p.frame].compressed {
        items := items + [Skipped(byStart[p.frame])];
      }
      assert items == was + ([Shown(p)] + Found(byStart, p.frame));
    }
    assert ordered[..|ordered|] == ordered;
  }

  function TimelineOf(packets: seq<Packet>, mode: Mode, pace: Pace): seq<Item> {
    var ordered := Sort(packets, Time);
    Interleaved(ordered, |ordered|, mode, pace, SeriesFor(ordered, mode))
  }

  function Found(byStart: map<nat, Gap>, frame: nat): seq<Item> {
    if frame in byStart && byStart[frame].compressed then [Skipped(byStart[frame])] else []
  }

  lemma ShowNothing(ordered: seq<Packet>, mode: Mode, pace: Pace, series: seq<Point>)
    ensures PacketsOf([]) == [] && Interleaved(ordered, 0, mode, pace, series) == []
  {
  }

  lemma ShowPacket(items: seq<Item>, ordered: seq<Packet>, n: nat, byStart: map<nat, Gap>)
    requires n < |ordered| && PacketsOf(items) == ordered[..n]
    ensures PacketsOf(items + ([Shown(ordered[n])] + Found(byStart, ordered[n].frame))) == ordered[..n + 1]
  {
    var p := ordered[n];
    Snoc(items, Shown(p));
    assert ordered[..n] + [p] == ordered[..n + 1];
    if p.frame in byStart && byStart[p.frame].compressed {
      Snoc(items + [Shown(p)], Skipped(byStart[p.frame]));
      assert items + [Shown(p)] + [Skipped(byStart[p.frame])] == items + ([Shown(p)] + Found(byStart, p.frame));
    } else {
      assert items + [Shown(p)] == items + ([Shown(p)] + Found(byStart, p.frame));
    }
  }

  lemma ShowNext(ordered: seq<Packet>, n: nat, mode: Mode, pace: Pace, series: seq<Point>)
    requires n < |ordered|
    ensures Interleaved(ordered, n + 1, mode, pace, series)
            == Interleaved(ordered, n, mode, pace, series)
               + ([Shown(ordered[n])] + GapBehind(ordered, n, mode, pace, series))
  {
    hide Judge;
  }

  lemma DistinctAfterSort(packets: seq<Packet>)
    requires DistinctFrames(packets)
    ensures DistinctFrames(Sort(packets, Time))
  {
    hide Sort;
    SortSorts(packets, Time);
    DistinctMeansCount(packets);
    CountMeansDistinct(Sort(packets, Time));
  }

  // Distinct frames, said of the multiset.
  ghost predicate DistinctIn(m: multiset<Packet>) {
    forall p, q | p in m && q in m && p.frame == q.frame :: p == q && m[p] == 1
  }

  lemma {:induction false} DistinctMeansCount(s: seq<Packet>)
    requires DistinctFrames(s)
    ensures DistinctIn(multiset(s))
  {
    if |s| > 0 {
      DistinctMeansCount(Init(s));
      assert s == Init(s) + [Last(s)];
      forall p | p in multiset(Init(s))
        ensures p.frame != Last(s).frame
      {
        assert p in Init(s);
        var k :| 0 <= k < |s| - 1 && s[k] == p;
      }
    }
  }

  lemma CountMeansDistinct(s: seq<Packet>)
    requires DistinctIn(multiset(s))
    ensures DistinctFrames(s)
  {
    forall j, k | 0 <= j < k < |s| && s[j].frame == s[k].frame
      ensures false
    {
      Twice(s, j, k);
    }
  }

  lemma Twice(s: seq<Packet>, j: nat, k: nat)
    requires j < k < |s|
    ensures s[j] in multiset(s) && s[k] in multiset(s)
    ensures s[j] == s[k] ==> multiset(s)[s[k]] >= 2
  {
    assert s == s[..k] + s[k..];
    assert s[j] in s[..k] && s[k] in s[k..];
  }

  lemma Lookup(packets: seq<Packet>, ordered: seq<Packet>, n: nat, mode: Mode, pace: Pace, series: seq<Point>,
               byStart: map<nat, Gap>)
    requires DistinctFrames(packets) && ordered == Sort(packets, Time) && n < |ordered|
    requires forall f :: f in byStart <==>
               exists g :: g in GapsUpTo(ordered, |ordered|, mode, pace, series) && g.before.frame == f
    requires forall f | f in byStart ::
               byStart[f] in GapsUpTo(ordered, |ordered|, mode, pace, series) && byStart[f].before.frame == f
    ensures GapBehind(ordered, n, mode, pace, series) == Found(byStart, ordered[n].frame)
  {
    hide Sort, GapsUpTo, Judge, DistinctFrames;
    DistinctAfterSort(packets);
    var f := ordered[n].frame;
    if f in byStart {
      ListedGap(ordered, n, mode, pace, series, byStart[f]);
    } else if n + 1 < |ordered| && ordered[n + 1].ts > ordered[n].ts {
      GapIsListed(ordered, n, mode, pace, series);
    }
  }

  lemma ListedGap(ordered: seq<Packet>, n: nat, mode: Mode, pace: Pace, series: seq<Point>, g: Gap)
    requires DistinctFrames(ordered) && n < |ordered|
    requires g in GapsUpTo(ordered, |ordered|, mode, pace, series) && g.before.frame == ordered[n].frame
    ensures n + 1 < |ordered| && ordered[n + 1].ts > ordered[n].ts
    ensures g == Judge(ordered, ordered[n], ordered[n + 1], mode, pace, series)
  {
    hide GapsUpTo, GapReason, LongEnough;
    GapsAreJudged(ordered, |ordered|, mode, pace, series);
    var k :| 0 < k < |ordered| && ordered[k].ts > ordered[k - 1].ts
             && g == Judge(ordered, ordered[k - 1], ordered[k], mode, pace, series);
    assert ordered[k - 1].frame == ordered[n].frame;
    assert k - 1 == n;
  }

  lemma GapIsListed(ordered: seq<Packet>, n: nat, mode: Mode, pace: Pace, series: seq<Point>)
    requires n + 1 < |ordered| && ordered[n + 1].ts > ordered[n].ts
    ensures Judge(ordered, ordered[n], ordered[n + 1], mode, pace, series)
            in GapsUpTo(ordered, |ordered|, mode, pace, series)
  {
    hide GapsUpTo, Judge;
    GapsAreJudged(ordered, |ordered|, mode, pace, series);
    assert ordered[n + 1].ts > ordered[n + 1 - 1].ts;
  }

  // A gap among the items is compressed, behind its first packet and in front of its second.
  ghost predicate PlacedAt(items: seq<Item>, i: nat, ordered: seq<Packet>, n: nat)
    requires i < |items|
  {
    items[i].Skipped? ==>
      && i > 0 && items[i - 1] == Shown(items[i].gap.before) && items[i].gap.compressed
      && (if i + 1 < |items| then items[i + 1] == Shown(items[i].gap.after)
          else n < |ordered| && ordered[n] == items[i].gap.after)
  }

  /** On the timeline each compressed gap stands directly between its two packets. */
  lemma GapsStandBetween(packets: seq<Packet>, mode: Mode, pace: Pace, i: nat)
    requires i < |TimelineOf(packets, mode, pace)| && TimelineOf(packets, mode, pace)[i].Skipped?
    ensures var items := TimelineOf(packets, mode, pace);
            && 0 < i < |items| - 1
            && items[i - 1] == Shown(items[i].gap.before) && items[i + 1] == Shown(items[i].gap.after)
            && items[i].gap.compressed
  {
    hide Sort, SeriesFor, Interleaved;
    var ordered := Sort(packets, Time);
    InterleavedIsPlaced(ordered, |ordered|, mode, pace, SeriesFor(ordered, mode));
    assert PlacedAt(TimelineOf(packets, mode, pace), i, ordered, |ordered|);
  }

  lemma {:induction false} InterleavedIsPlaced(ordered: seq<Packet>, n: nat, mode: Mode, pace: Pace, series: seq<Point>)
    requires n <= |ordered|
    ensures forall i :: 0 <= i < |Interleaved(ordered, n, mode, pace, series)|
                        ==> PlacedAt(Interleaved(ordered, n, mode, pace, series), i, ordered, n)
  {
    hide Judge;
    if n > 0 {
      var front := Interleaved(ordered, n - 1, mode, pace, series);
      InterleavedIsPlaced(ordered, n - 1, mode, pace, series);
      forall i | 0 <= i < |Interleaved(ordered, n, mode, pace, series)|
        ensures PlacedAt(Interleaved(ordered, n, mode, pace, series), i, ordered, n)
      {
        assert i < |front| ==> PlacedAt(front, i, ordered, n - 1);
      }
    }
  }

  predicate IsCompressed(g: Gap) { g.compressed }

  function SkippedOf(items: seq<Item>): seq<Gap> {
    if |items| == 0 then []
    else match Last(items)
      case Shown(_) => SkippedOf(Init(items))
      case Skipped(g) => SkippedOf(Init(items)) + [g]
  }

  /** The gaps on the timeline are exactly the compressed ones, each once and in order. */
  lemma SkippedAreCompressed(packets: seq<Packet>, mode: Mode, pace: Pace)
    ensures SkippedOf(TimelineOf(packets, mode, pace)) == Filter(GapsOf(packets, mode, pace), IsCompressed)
  {
    hide Sort, SeriesFor, Interleaved, GapsUpTo, Filter;
    var ordered := Sort(packets, Time);
    SkippedUpTo(ordered, |ordered|, mode, pace, SeriesFor(ordered, mode));
  }

  lemma {:induction false} SkippedUpTo(ordered: seq<Packet>, n: nat, mode: Mode, pace: Pace, series: seq<Point>)
    requires n <= |ordered|
    ensures SkippedOf(Interleaved(ordered, n, mode, pace, series)) == CompressedUpTo(ordered, n, mode, pace, series)
  {
    hide SkippedOf, Interleaved, CompressedUpTo, GapBehind;
    if n == 0 {
      NothingSkipped(ordered, mode, pace, series);
    } else {
      SkippedUpTo(ordered, n - 1, mode, pace, series);
      NextSkipped(ordered, n, mode, pace, series);
      NextCompressed(ordered, n, mode, pace, series);
    }
  }

  // The compressed gaps in front of the packet behind the first `n`.
  function CompressedUpTo(ordered: seq<Packet>, n: nat, mode: Mode, pace: Pace, series: seq<Point>): seq<Gap>
    requires n <= |ordered|
  {
    Filter(GapsUpTo(ordered, if n < |ordered| then n + 1 else n, mode, pace, series), IsCompressed)
  }

  lemma NothingSkipped(ordered: seq<Packet>, mode: Mode, pace: Pace, series: seq<Point>)
    ensures SkippedOf(Interleaved(ordered, 0, mode, pace, series)) == CompressedUpTo(ordered, 0, mode, pace, series) == []
  {
  }

  lemma NextSkipped(ordered: seq<Packet>, n: nat, mode: Mode, pace: Pace, series: seq<Point>)
    requires 0 < n <= |ordered|
    ensures SkippedOf(Interleaved(ordered, n, mode, pace, series))
            == SkippedOf(Interleaved(ordered, n - 1, mode, pace, series))
               + SkippedOf(GapBehind(ordered, n - 1, mode, pace, series))
  {
    hide Judge;
    var front, p := Interleaved(ordered, n - 1, mode, pace, series), Shown(ordered[n - 1]);
    var behind := GapBehind(ordered, n - 1, mode, pace, series);
    Snoc(front, p);
    if |behind| > 0 {
      Snoc(front + [p], behind[0]);
      assert front + ([p] + behind) == front + [p] + [behind[0]];
    } else {
      assert front + ([p] + behind) == front + [p];
    }
  }

  lemma NextCompressed(ordered: seq<Packet>, n: nat, mode: Mode, pace: Pace, series: seq<Point>)
    requires 0 < n <= |ordered|
    ensures CompressedUpTo(ordered, n, mode, pace, series)
            == CompressedUpTo(ordered, n - 1, mode, pace, series)
               + SkippedOf(GapBehind(ordered, n - 1, mode, pace, series))
  {
    hide Judge;
    if n < |ordered| && ordered[n].ts > ordered[n - 1].ts {
      Snoc(GapsUpTo(ordered, n, mode, pace, series), Judge(ordered, ordered[n - 1], ordered[n], mode, pace, series));
    }
  }
}
