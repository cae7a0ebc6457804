/**
 The stalled time of both endpoints together (`total_stalled_ms`, which `stalled_fraction`
 divides by the length of the capture), as sets of microseconds.
 */
module StalledTotal {
  import opened Wrappers
  import opened Sequences
  import opened Intervals
  import opened StableSort
  import opened Trace
  import opened Windows

  // The microseconds of the reported stalls.
  function StalledMoments(episodes: seq<Episode>, end: int): set<int>
    requires forall e | e in episodes :: e.Valid()
  {
    if |episodes| == 0 then {} else
    var e := episodes[0];
    (if Duration(e, end) >= MIN_STALL then Interval(e.Start(), e.Start() + Duration(e, end)) else {})
    + StalledMoments(episodes[1..], end)
  }

  // The stalls of one endpoint do not overlap, so adding durations counts every microsecond once.
  lemma {:induction false} StalledTimeCounts(timed: seq<Packet>, group: seq<Packet>, fromClient: bool, n: nat)
    requires Sorted(timed, Time) && n <= |timed| && group != [] && forall p | p in timed :: p in group
    ensures var es, end := EpisodesFrom(timed, group, fromClient, n), CaptureEnd(group);
            && StalledTime(es, end) == |StalledMoments(es, end)|
            && forall x | x in StalledMoments(es, end) :: n < |timed| && timed[n].ts <= x < end
    decreases |timed| - n
  {
    hide CaptureEnd, RecoveryFrom, ProbesEnd;
    if n < |timed| {
      var end := CaptureEnd(group);
      var reopening := RecoveryFrom(group, fromClient, timed[n].ts);
      var next := ProbesEnd(timed, n + 1, reopening);
      EpisodesStep(timed, group, fromClient, n);
      StalledTimeCounts(timed, group, fromClient, next);
      NextStartsLater(timed, group, fromClient, n);
      AddStall(Episode(timed[n..next], reopening), EpisodesFrom(timed, group, fromClient, next), end);
    }
  }

  lemma AddStall(e: Episode, rest: seq<Episode>, end: int)
    requires e.Valid() && (forall r | r in rest :: r.Valid()) && Duration(e, end) >= 0
    requires StalledTime(rest, end) == |StalledMoments(rest, end)|
    requires forall x | x in StalledMoments(rest, end) :: x >= e.Start() + Duration(e, end)
    ensures StalledTime([e] + rest, end) == |StalledMoments([e] + rest, end)|
    ensures forall x | x in StalledMoments([e] + rest, end) ::
              e.Start() <= x < e.Start() + Duration(e, end) || x in StalledMoments(rest, end)
  {
    hide Interval, Duration;
    assert ([e] + rest)[1..] == rest;
    var own := Interval(e.Start(), e.Start() + Duration(e, end));
    assert own * StalledMoments(rest, end) == {};
    assert |own + StalledMoments(rest, end)| == |own| + |StalledMoments(rest, end)|;
  }

  // `min` of the packet times.
  function CaptureStart(group: seq<Packet>): int
    requires |group| > 0
  {
    if |group| == 1 then group[0].ts
    else if Last(group).ts <= CaptureStart(Init(group)) then Last(group).ts
    else CaptureStart(Init(group))
  }

  lemma {:induction false} CaptureStartIsFirst(group: seq<Packet>, p: Packet)
    requires p in group
    ensures CaptureStart(group) <= p.ts
  {
    if |group| > 1 && p != Last(group) {
      assert group == Init(group) + [Last(group)];
      CaptureStartIsFirst(Init(group), p);
    } else if |group| == 1 {
      assert group == [group[0]];
    }
  }

  lemma {:induction false} CaptureStartIsReached(group: seq<Packet>)
    requires |group| > 0
    ensures exists p :: p in group && p.ts == CaptureStart(group)
  {
    if |group| > 1 && Last(group).ts > CaptureStart(Init(group)) {
      CaptureStartIsReached(Init(group));
      assert forall p | p in Init(group) :: p in group;
    } else {
      assert Last(group) in group;
    }
  }

  // When an endpoint is stalled.
  ghost function StalledBy(group: seq<Packet>, fromClient: bool): set<int>
    requires |group| > 0
  {
    StalledMoments(EpisodesOf(group, fromClient), CaptureEnd(group))
  }

  lemma StalledByCounts(group: seq<Packet>, fromClient: bool)
    requires |group| > 0
    ensures StalledTime(EpisodesOf(group, fromClient), CaptureEnd(group)) == |StalledBy(group, fromClient)|
    ensures StalledBy(group, fromClient) <= Interval(CaptureStart(group), CaptureEnd(group))
  {
    hide EpisodesFrom, StalledTime, StalledMoments, CaptureEnd, CaptureStart, Interval;
    var stalls := StallsOf(group, fromClient);
    var timed := Sort(stalls, Time);
    SortSorts(stalls, Time);
    SameElements(timed, stalls);
    StallsAreInGroup(group, fromClient);
    StalledTimeCounts(timed, group, fromClient, 0);
    if |timed| > 0 {
      assert timed[0] in timed;
      CaptureStartIsFirst(group, timed[0]);
    }
  }

  function Total(group: seq<Packet>): int
    requires |group| > 0
  {
    StalledTime(EpisodesOf(group, true), CaptureEnd(group)) + StalledTime(EpisodesOf(group, false), CaptureEnd(group))
  }

  function Span(group: seq<Packet>): int
    requires |group| > 0
  {
    CaptureEnd(group) - CaptureStart(group)
  }

  // The bound, in terms of the episodes.
  lemma TotalOfEpisodes(group: seq<Packet>)
    requires |group| > 0
    ensures 0 <= Total(group) <= 2 * Span(group)
    ensures var client, server := StalledBy(group, true), StalledBy(group, false);
            var neither := Interval(CaptureStart(group), CaptureEnd(group)) - (client + server);
            Total(group) <= Span(group) <==> |client * server| <= |neither|
  {
    hide StalledBy, CaptureEnd, CaptureStart, Interval, StalledTime, EpisodesOf;
    var all := Interval(CaptureStart(group), CaptureEnd(group));
    var client, server := StalledBy(group, true), StalledBy(group, false);
    StalledByCounts(group, true);
    StalledByCounts(group, false);
    StartIsBeforeEnd(group);
    SetSizes(all, client, server);
  }

  lemma StartIsBeforeEnd(group: seq<Packet>)
    requires |group| > 0
    ensures CaptureStart(group) <= CaptureEnd(group)
  {
    hide CaptureEnd, CaptureStart;
    CaptureStartIsFirst(group, group[0]);
    CaptureEndIsLast(group, group[0]);
  }

  lemma SetSizes(all: set<int>, a: set<int>, b: set<int>)
    requires a <= all && b <= all
    ensures |a| + |b| == |all| - |all - (a + b)| + |a * b|
    ensures |a| <= |all| && |b| <= |all|
  {
    assert |a + b| + |a * b| == |a| + |b|;
    assert all == (a + b) + (all - (a + b));
    assert all == a + (all - a) && all == b + (all - b);
  }

  // ------------------------------------------------------------ what the packets say

  // The window, closed at a time, stays closed to its reopening, or to the end.
  ghost predicate ClosedUntil(group: seq<Packet>, fromClient: bool, since: int, until: int)
    requires |group| > 0
  {
    exists r :: IsEarliest(group, fromClient, since, r) && until == if r.Some? then r.value else CaptureEnd(group)
  }

  // At moment `x` the window stands closed since advertisement `z`, which opens a stall of ten
  // milliseconds or more.
  ghost predicate ClosedBy(group: seq<Packet>, fromClient: bool, z: Packet, x: int)
    requires |group| > 0
  {
    exists until :: ClosedUntil(group, fromClient, z.ts, until) && z.ts <= x < until && until - z.ts >= 10_000
  }

  // The moments at which the packets say the window stands closed.
  ghost function Closed(group: seq<Packet>, fromClient: bool): set<int>
    requires |group| > 0
  {
    set x | x in Interval(CaptureStart(group), CaptureEnd(group))
            && exists z :: z in group && ZeroFrom(z, fromClient) && ClosedBy(group, fromClient, z, x)
  }

  lemma OneEarliest(group: seq<Packet>, fromClient: bool, after: int, r: Option<int>, q: Option<int>)
    requires IsEarliest(group, fromClient, after, r) && IsEarliest(group, fromClient, after, q)
    ensures r == q
  {
  }

  // In a time-ordered group a window stays closed as long as the search says.
  lemma ClosedUntilRecovery(group: seq<Packet>, fromClient: bool, since: int, until: int)
    requires |group| > 0 && Sorted(group, Time)
    ensures var r := RecoveryFrom(group, fromClient, since);
            ClosedUntil(group, fromClient, since, until) <==> until == if r.Some? then r.value else CaptureEnd(group)
  {
    hide RecoveryFrom, IsEarliest, CaptureEnd, Sorted;
    RecoveryMeans(group, fromClient, since);
    forall r | IsEarliest(group, fromClient, since, r)
      ensures r == RecoveryFrom(group, fromClient, since)
    {
      OneEarliest(group, fromClient, since, r, RecoveryFrom(group, fromClient, since));
    }
  }

  // A window that is still closed stays closed to the same moment.
  lemma ClosedAlike(group: seq<Packet>, fromClient: bool, a: int, b: int)
    requires |group| > 0 && Sorted(group, Time) && a <= b
    requires var r := RecoveryFrom(group, fromClient, a); r.Some? ==> b < r.value
    ensures RecoveryFrom(group, fromClient, b) == RecoveryFrom(group, fromClient, a)
  {
    hide RecoveryFrom, Sorted;
    RecoveryMeans(group, fromClient, a);
    RecoveryMeans(group, fromClient, b);
    assert forall p | p in group && Positive(p, fromClient, b) :: Positive(p, fromClient, a);
    var r := RecoveryFrom(group, fromClient, a);
    if r.Some? {
      var p :| p in group && Positive(p, fromClient, a) && p.ts == r.value;
      assert Positive(p, fromClient, b);
    }
  }

  // What one episode stalls is what any of its advertisements closes.
  lemma EpisodeIsClosed(timed: seq<Packet>, group: seq<Packet>, fromClient: bool, n: nat, x: int)
    requires Sorted(group, Time) && Sorted(timed, Time) && n < |timed| && |group| > 0
    ensures var reopening := RecoveryFrom(group, fromClient, timed[n].ts);
            var next := ProbesEnd(timed, n + 1, reopening);
            var e := Episode(timed[n..next], reopening);
            (Duration(e, CaptureEnd(group)) >= MIN_STALL && e.Start() <= x < e.Start() + Duration(e, CaptureEnd(group)))
            <==> exists k :: n <= k < next && ClosedBy(group, fromClient, timed[k], x)
  {
    hide RecoveryFrom, CaptureEnd, ProbesEnd, ClosedUntil;
    var reopening := RecoveryFrom(group, fromClient, timed[n].ts);
    var next := ProbesEnd(timed, n + 1, reopening);
    var until := if reopening.Some? then reopening.value else CaptureEnd(group);
    ProbesAreBefore(timed, n + 1, reopening);
    RecoveryReopens(group, fromClient, timed[n].ts);
    forall k, u | n <= k < next
      ensures ClosedUntil(group, fromClient, timed[k].ts, u) <==> u == until
      ensures timed[n].ts <= timed[k].ts
    {
      assert k > n ==> Time(timed[n]) <= Time(timed[k]);
      ClosedAlike(group, fromClient, timed[n].ts, timed[k].ts);
      ClosedUntilRecovery(group, fromClient, timed[k].ts, u);
    }
    assert timed[n..next][0] == timed[n];
    assert ClosedUntil(group, fromClient, timed[n].ts, until);
  }

  // Along the episodes: a moment is stalled exactly when some advertisement closes it.
  lemma {:induction false} StalledIsClosed(timed: seq<Packet>, group: seq<Packet>, fromClient: bool, n: nat, x: int)
    requires Sorted(group, Time) && Sorted(timed, Time) && n <= |timed| && |group| > 0
    ensures x in StalledMoments(EpisodesFrom(timed, group, fromClient, n), CaptureEnd(group))
            <==> exists k :: n <= k < |timed| && ClosedBy(group, fromClient, timed[k], x)
    decreases |timed| - n
  {
    hide RecoveryFrom, CaptureEnd, ProbesEnd, ClosedBy, Duration, EpisodesFrom;
    if n < |timed| {
      var reopening := RecoveryFrom(group, fromClient, timed[n].ts);
      var next := ProbesEnd(timed, n + 1, reopening);
      var e, rest := Episode(timed[n..next], reopening), EpisodesFrom(timed, group, fromClient, next);
      EpisodesStep(timed, group, fromClient, n);
      assert ([e] + rest)[1..] == rest;
      StalledIsClosed(timed, group, fromClient, next, x);
      EpisodeIsClosed(timed, group, fromClient, n, x);
    }
  }

  /**
   In a time-ordered group an endpoint is stalled, by the episodes, exactly when the packets say
   that its window stands closed; so its stalled time counts these microseconds.
   */
  lemma StalledTimeIsClosedTime(group: seq<Packet>, fromClient: bool)
    requires |group| > 0 && Sorted(group, Time)
    ensures StalledBy(group, fromClient) == Closed(group, fromClient)
    ensures StalledTime(EpisodesOf(group, fromClient), CaptureEnd(group)) == |Closed(group, fromClient)|
  {
    hide EpisodesFrom, StalledTime, StalledMoments, CaptureEnd, CaptureStart, Interval, ClosedBy, Sort, StallsOf;
    StalledByCounts(group, fromClient);
    var stalls := StallsOf(group, fromClient);
    var timed := Sort(stalls, Time);
    SortSorts(stalls, Time);
    SameElements(timed, stalls);
    StallsAreInGroup(group, fromClient);
    forall x
      ensures x in StalledBy(group, fromClient) <==> x in Closed(group, fromClient)
    {
      StalledIsClosed(timed, group, fromClient, 0, x);
      if z :| z in group && ZeroFrom(z, fromClient) && ClosedBy(group, fromClient, z, x) {
        assert z in timed;
        ClosedIsInside(group, fromClient, z, x);
      }
    }
  }

  lemma ClosedIsInside(group: seq<Packet>, fromClient: bool, z: Packet, x: int)
    requires z in group && ClosedBy(group, fromClient, z, x)
    ensures CaptureStart(group) <= x < CaptureEnd(group)
  {
    hide CaptureEnd, CaptureStart;
    CaptureStartIsFirst(group, z);
    var until :| ClosedUntil(group, fromClient, z.ts, until) && z.ts <= x < until;
    var r :| IsEarliest(group, fromClient, z.ts, r) && until == if r.Some? then r.value else CaptureEnd(group);
    if r.Some? {
      var p :| p in group && Positive(p, fromClient, z.ts) && p.ts == r.value;
      CaptureEndIsLast(group, p);
    }
  }

  /**
   The total never exceeds twice the length of the capture. In a time-ordered group it stays
   within the length, so that the stalled fraction is at most one, if and only if both windows
   stand closed at once for no longer than both are open.
   */
  lemma TotalIsBounded(group: seq<Packet>)
    requires |group| > 0
    ensures 0 <= Total(group) <= 2 * Span(group)
    ensures Sorted(group, Time) ==>
              var client, server := Closed(group, true), Closed(group, false);
              var neither := Interval(CaptureStart(group), CaptureEnd(group)) - (client + server);
              Total(group) <= Span(group) <==> |client * server| <= |neither|
  {
    hide StalledBy, Closed, CaptureEnd, CaptureStart, Interval, StalledTime, EpisodesOf;
    TotalOfEpisodes(group);
    if Sorted(group, Time) {
      StalledTimeIsClosedTime(group, true);
      StalledTimeIsClosedTime(group, false);
    }
  }

  // ------------------------------------------------------------ a total of twice the capture

  // A zero advertisement of each endpoint, then a packet without one.
  function Zero(fromClient: bool): Packet {
    Packet(1, 0, fromClient, 0, 0, None, false, true, Some(0), false)
  }

  function Silent(ts: int): Packet {
    Packet(2, ts, true, 0, 0, None, false, true, None, false)
  }

  /** Both endpoints stalled from the first packet to the last: the total is twice the capture. */
  lemma BothStalledThroughout(wait: int)
    requires wait >= MIN_STALL
    ensures var group := [Zero(true), Zero(false), Silent(wait)];
            Total(group) == 2 * wait && Span(group) == wait
  {
    hide EpisodesOf, StalledTime, CaptureEnd, CaptureStart;
    var group := [Zero(true), Zero(false), Silent(wait)];
    StallThroughout(group, wait, true);
    StallThroughout(group, wait, false);
    EndsOfGroup(group, wait);
  }

  lemma EndsOfGroup(group: seq<Packet>, wait: int)
    requires wait >= MIN_STALL && group == [Zero(true), Zero(false), Silent(wait)]
    ensures CaptureEnd(group) == wait && CaptureStart(group) == 0
  {
    var zeros := [Zero(true), Zero(false)];
    assert Init(group) == zeros && Init(zeros) == [Zero(true)];
    assert CaptureEnd([Zero(true)]) == CaptureStart([Zero(true)]) == 0;
    assert CaptureEnd(zeros) == CaptureStart(zeros) == 0;
  }

  lemma OneStall(group: seq<Packet>, wait: int, fromClient: bool)
    requires group == [Zero(true), Zero(false), Silent(wait)]
    ensures StallsOf(group, fromClient) == [Zero(fromClient)]
  {
    var zeros := [Zero(true), Zero(false)];
    assert Init(group) == zeros && Init(zeros) == [Zero(true)] && Init([Zero(true)]) == [];
    assert StallsOf([], fromClient) == [];
    assert StallsOf([Zero(true)], fromClient) == if fromClient then [] + [Zero(true)] else [];
    assert StallsOf(zeros, fromClient) == [] + [Zero(fromClient)];
  }

  lemma StallThroughout(group: seq<Packet>, wait: int, fromClient: bool)
    requires wait >= MIN_STALL && group == [Zero(true), Zero(false), Silent(wait)]
    ensures StalledTime(EpisodesOf(group, fromClient), wait) == wait
  {
    hide RecoveryFrom, StallsOf, Sort, EpisodesFrom;
    var zero := Zero(fromClient);
    OneStall(group, wait, fromClient);
    SortedIsFixed([zero], Time);
    RecoveryReopens(group, fromClient, 0);
    assert forall p | p in group :: !Reopens(p, fromClient, 0);
    EpisodesStep([zero], group, fromClient, 0);
    var e := Episode([zero], None);
    assert [zero][0..1] == [zero];
    assert EpisodesOf(group, fromClient) == [e] + [];
    assert ([e] + [])[1..] == [];
  }
}
