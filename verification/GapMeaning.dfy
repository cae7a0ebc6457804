/** What the gap analysis reports, in the packets' own fields. */
module GapMeaning {
  import opened Wrappers
  import opened Sequences
  import opened Intervals
  import opened StableSort
  import opened Trace
  import opened Outstanding
  import opened Idle

  // A packet stamped in the closed interval advertises a zero window.
  ghost predicate SeesZeroWindow(packets: seq<Packet>, a: int, b: int) {
    exists p :: p in packets && a <= p.ts <= b && p.window == Some(0)
  }

  ghost predicate SeesRetransmission(packets: seq<Packet>, a: int, b: int) {
    exists p :: p in packets && a <= p.ts <= b && p.retrans
  }

  // A connection is requested and nobody grants one.
  ghost predicate SeesHandshakeRetry(packets: seq<Packet>, a: int, b: int) {
    && (exists p :: p in packets && a <= p.ts <= b && p.syn && !p.ackFlag)
    && forall p | p in packets && a <= p.ts <= b && p.syn :: !p.ackFlag
  }

  ghost predicate SeesOutstanding(packets: seq<Packet>, a: int, b: int) {
    exists fromClient: bool, t :: t in PointsOf(Sort(packets, Time), fromClient) && a <= t.ts <= b && t.outstanding > 0
  }

  // Seconds of playback of a duration in microseconds.
  ghost function Playback(duration: int, speed: real): real {
    duration as real / 1_000_000.0 / (if speed >= 0.001 then speed else 0.001)
  }

  // The verdict on a gap between two packets.
  ghost predicate IsVerdict(packets: seq<Packet>, mode: Mode, pace: Pace, g: Gap) {
    var a, b := g.before.ts, g.after.ts;
    if mode == Faithful then !g.compressible && !g.compressed && g.reason == FaithfulMode
    else
      && g.reason == (if SeesZeroWindow(packets, a, b) then ZeroWindow
                      else if SeesRetransmission(packets, a, b) then Retransmission
                      else if SeesHandshakeRetry(packets, a, b) then HandshakeRetry
                      else if SeesOutstanding(packets, a, b) then UnresolvedOutstanding
                      else Quiet)
      && (g.compressible <==> g.reason == Quiet)
      && (g.compressed <==> (g.compressible || mode == Fast) && Playback(b - a, pace.speed) >= pace.trigger)
  }

  lemma PlaybackMeans(duration: int, pace: Pace)
    ensures LongEnough(duration, pace) <==> Playback(duration, pace.speed) >= pace.trigger
  {
    var s := if pace.speed >= 0.001 then pace.speed else 0.001;
    var d := duration as real / 1_000_000.0;
    assert Playback(duration, pace.speed) == d / s;
    assert d / s * s == d;
    if d / s >= pace.trigger {
      assert d / s * s >= pace.trigger * s;
    } else {
      assert d / s * s < pace.trigger * s;
    }
  }

  lemma ReasonMeans(packets: seq<Packet>, mode: Mode, before: Packet, after: Packet)
    requires mode != Faithful
    ensures var ordered, a, b := Sort(packets, Time), before.ts, after.ts;
            GapReason(ordered, before, after, SeriesFor(ordered, mode))
            == (if SeesZeroWindow(packets, a, b) then ZeroWindow
                else if SeesRetransmission(packets, a, b) then Retransmission
                else if SeesHandshakeRetry(packets, a, b) then HandshakeRetry
                else if SeesOutstanding(packets, a, b) then UnresolvedOutstanding
                else Quiet)
  {
    hide Sort, PointsOf;
    var ordered := Sort(packets, Time);
    SortSorts(packets, Time);
    SameElements(ordered, packets);
    var points := PointsOf(ordered, true) + PointsOf(ordered, false);
    SortSorts(points, PointTime);
    SameElements(Sort(points, PointTime), points);
  }

  /**
   The gaps are exactly the neighbours in time order with time between them, each with its
   verdict: transport activity in its closed interval in this order, playback time, mode.
   */
  lemma GapsMean(packets: seq<Packet>, mode: Mode, pace: Pace, g: Gap)
    ensures g in GapsOf(packets, mode, pace)
            <==> Neighbours(Sort(packets, Time), g.before, g.after) && IsVerdict(packets, mode, pace, g)
  {
    hide Sort, GapReason, SeriesFor, GapsUpTo, LongEnough, Playback;
    hide SeesZeroWindow, SeesRetransmission, SeesHandshakeRetry, SeesOutstanding;
    var ordered := Sort(packets, Time);
    GapsAreJudged(ordered, |ordered|, mode, pace, SeriesFor(ordered, mode));
    PlaybackMeans(g.after.ts - g.before.ts, pace);
    if mode != Faithful {
      ReasonMeans(packets, mode, g.before, g.after);
    }
  }

  // ------------------------------------------------------------ the compressed total

  ghost function CompressedMoments(gaps: seq<Gap>): set<int> {
    if |gaps| == 0 then {} else
    CompressedMoments(Init(gaps)) + if Last(gaps).compressed then Interval(Last(gaps).before.ts, Last(gaps).after.ts) else {}
  }

  lemma {:induction false} MomentsMean(gaps: seq<Gap>, x: int)
    ensures x in CompressedMoments(gaps) <==> exists g :: g in gaps && g.compressed && g.before.ts <= x < g.after.ts
  {
    hide Interval;
    if |gaps| > 0 {
      MomentsMean(Init(gaps), x);
      assert gaps == Init(gaps) + [Last(gaps)];
    }
  }

  lemma {:induction false} GapsCount(ordered: seq<Packet>, n: nat, mode: Mode, pace: Pace, series: seq<Point>)
    requires n <= |ordered| && Sorted(ordered, Time)
    ensures var gaps := GapsUpTo(ordered, n, mode, pace, series);
            && CompressedTime(gaps) == |CompressedMoments(gaps)|
            && forall x | x in CompressedMoments(gaps) :: n > 0 && x < ordered[n - 1].ts
  {
    hide Judge, Interval, Sorted;
    if n >= 2 {
      GapsCount(ordered, n - 1, mode, pace, series);
      TimeGrows(ordered, n - 2);
      if ordered[n - 1].ts > ordered[n - 2].ts {
        var before, g := GapsUpTo(ordered, n - 1, mode, pace, series),
                         Judge(ordered, ordered[n - 2], ordered[n - 1], mode, pace, series);
        Snoc(before, g);
        AddGap(CompressedMoments(before), g);
      }
    }
  }

  lemma TimeGrows(ordered: seq<Packet>, k: nat)
    requires Sorted(ordered, Time) && k + 1 < |ordered|
    ensures ordered[k].ts <= ordered[k + 1].ts
  {
    assert Time(ordered[k]) <= Time(ordered[k + 1]);
  }

  lemma AddGap(before: set<int>, g: Gap)
    requires g.before.ts <= g.after.ts && forall x | x in before :: x < g.before.ts
    ensures var own := Interval(g.before.ts, g.after.ts);
            |before + own| == |before| + g.Duration() && forall x | x in before + own :: x < g.after.ts || x in before
  {
    hide Interval;
    var own := Interval(g.before.ts, g.after.ts);
    assert before * own == {};
    assert |before + own| == |before| + |own|;
  }

  /** The compressed total counts every microsecond of a compressed gap once, and no other. */
  lemma CompressedTimeCounts(packets: seq<Packet>, mode: Mode, pace: Pace)
    ensures var gaps := GapsOf(packets, mode, pace);
            && CompressedTime(gaps) == |CompressedMoments(gaps)|
            && forall x :: x in CompressedMoments(gaps) <==>
                 exists g :: g in gaps && g.compressed && g.before.ts <= x < g.after.ts
  {
    hide Sort, GapsUpTo, CompressedMoments, CompressedTime, SeriesFor;
    var ordered, gaps := Sort(packets, Time), GapsOf(packets, mode, pace);
    SortSorts(packets, Time);
    GapsCount(ordered, |ordered|, mode, pace, SeriesFor(ordered, mode));
    forall x
      ensures x in CompressedMoments(gaps) <==> exists g :: g in gaps && g.compressed && g.before.ts <= x < g.after.ts
    {
      MomentsMean(gaps, x);
    }
  }
}
