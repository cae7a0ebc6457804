/** Zero-window episodes of a stream (`_episodes`, `_recovery_after`, the totals of `receiver_window_analysis`). */
module Windows {
  import opened Wrappers
  import opened Sequences
  import opened StableSort
  import opened Trace

  // An endpoint explicitly advertises a zero window, outside the handshake.
  predicate Stalls(p: Packet, fromClient: bool) {
    p.fromClient == fromClient && !p.syn && p.window == Some(0)
  }

  predicate Reopens(p: Packet, fromClient: bool, after: int) {
    p.fromClient == fromClient && p.ts > after && p.window.Some? && p.window.value > 0
  }

  function RecoveryFrom(group: seq<Packet>, fromClient: bool, after: int): Option<int> {
    if |group| == 0 then None
    else if Reopens(group[0], fromClient, after) then Some(group[0].ts)
    else RecoveryFrom(group[1..], fromClient, after)
  }

  method RecoveryAfter(group: seq<Packet>, fromClient: bool, after: int) returns (r: Option<int>)
    ensures r == RecoveryFrom(group, fromClient, after)
  {
    for n := 0 to |group|
      invariant RecoveryFrom(group, fromClient, after) == RecoveryFrom(group[n..], fromClient, after)
    {
      var p := group[n];
      if p.fromClient == fromClient && p.ts > after && p.window.Some? && p.window.value > 0 {
        return Some(p.ts);
      }
      assert group[n..][1..] == group[n + 1..];
    }
    return None;
  }

  // One stall: its advertisements in time order, and when the window reopened.
  datatype Episode = Episode(members: seq<Packet>, recoveredAt: Option<int>)
  {
    predicate Valid() { |members| > 0 }

    function Start(): int
      requires Valid()
    {
      members[0].ts
    }
  }

  // Where the probes end that start at `n`: at the first one not before the reopening.
  function ProbesEnd(timed: seq<Packet>, n: nat, reopening: Option<int>): (e: nat)
    requires n <= |timed|
    ensures n <= e <= |timed|
    decreases |timed| - n
  {
    if n < |timed| && (reopening.None? || timed[n].ts < reopening.value) then ProbesEnd(timed, n + 1, reopening) else n
  }

  function EpisodesFrom(timed: seq<Packet>, group: seq<Packet>, fromClient: bool, n: nat): (r: seq<Episode>)
    requires n <= |timed|
    ensures forall e | e in r :: e.Valid()
    ensures r == [] <==> n == |timed|
    decreases |timed| - n
  {
    if n == |timed| then [] else
    var reopening := RecoveryFrom(group, fromClient, timed[n].ts);
    var end := ProbesEnd(timed, n + 1, reopening);
    [Episode(timed[n..end], reopening)] + EpisodesFrom(timed, group, fromClient, end)
  }

  function StallsOf(group: seq<Packet>, fromClient: bool): seq<Packet> {
    Filter(group, (p: Packet) => Stalls(p, fromClient))
  }

  function EpisodesOf(group: seq<Packet>, fromClient: bool): seq<Episode> {
    EpisodesFrom(Sort(StallsOf(group, fromClient), Time), group, fromClient, 0)
  }

  // What is reported of an episode.
  datatype Report = Report(
    probeTimes: seq<int>, start: int, lastProbe: int, probes: nat, frames: seq<nat>, recoveredAt: Option<int>)

  const SAMPLE := 20

  function TimesOf(members: seq<Packet>): (times: seq<int>)
    ensures |times| == |members| && forall k | 0 <= k < |members| :: times[k] == members[k].ts
  {
    if |members| == 0 then [] else TimesOf(Init(members)) + [Last(members).ts]
  }

  // The frames of the first twenty.
  function FramesOf(members: seq<Packet>): (frames: seq<nat>)
    ensures |frames| == if |members| < SAMPLE then |members| else SAMPLE
    ensures forall k | 0 <= k < |frames| :: frames[k] == members[k].frame
  {
    if |members| == 0 then []
    else if |members| > SAMPLE then FramesOf(Init(members))
    else FramesOf(Init(members)) + [Last(members).frame]
  }

  // The times of all its advertisements, and the frames of the first twenty.
  function ReportOf(e: Episode): (r: Report)
    requires e.Valid()
    ensures r.probes == |r.probeTimes| == |e.members| && r.recoveredAt == e.recoveredAt
    ensures r.start == r.probeTimes[0] && r.lastProbe == r.probeTimes[|r.probeTimes| - 1]
    ensures forall k | 0 <= k < |e.members| :: r.probeTimes[k] == e.members[k].ts
    ensures |r.frames| == (if |e.members| < 20 then |e.members| else 20)
    ensures forall k | 0 <= k < |r.frames| :: r.frames[k] == e.members[k].frame
  {
    Report(TimesOf(e.members), e.Start(), Last(e.members).ts, |e.members|, FramesOf(e.members), e.recoveredAt)
  }

  function Reports(episodes: seq<Episode>): (reports: seq<Report>)
    requires forall e | e in episodes :: e.Valid()
    ensures |reports| == |episodes|
    ensures forall k | 0 <= k < |episodes| :: episodes[k] in episodes && reports[k] == ReportOf(episodes[k])
  {
    if |episodes| == 0 then [] else [ReportOf(episodes[0])] + Reports(episodes[1..])
  }

  method Episodes(advertisements: seq<Packet>, group: seq<Packet>, fromClient: bool) returns (reports: seq<Report>)
    ensures reports == Reports(EpisodesFrom(Sort(advertisements, Time), group, fromClient, 0))
  {
    hide Sort, RecoveryFrom, EpisodesFrom, ProbesEnd, ReportOf, Reports, TimesOf, FramesOf;
    var timed := Sort(advertisements, Time);
    reports := [];
    var index := 0;
    while index < |timed|
      invariant index <= |timed|
      invariant reports + Reports(EpisodesFrom(timed, group, fromClient, index))
             == Reports(EpisodesFrom(timed, group, fromClient, 0))
    {
      var start := index;
      var reopening := RecoveryAfter(group, fromClient, timed[start].ts);
      var report: Report;
      report, index := CollectProbes(timed, start, reopening);
      EpisodesStep(timed, group, fromClient, start);
      ghost var rest := EpisodesFrom(timed, group, fromClient, index);
      ReportsStep(Episode(timed[start..index], reopening), rest);
      assert reports + ([report] + Reports(rest)) == (reports + [report]) + Reports(rest);
      reports := reports + [report];
    }
    assert reports + [] == reports;
  }

  // The probes of one episode: every further advertisement before the reopening.
  method CollectProbes(timed: seq<Packet>, start: nat, reopening: Option<int>) returns (report: Report, index: nat)
    requires start < |timed|
    ensures index == ProbesEnd(timed, start + 1, reopening)
    ensures report == ReportOf(Episode(timed[start..index], reopening))
  {
    hide ProbesEnd, TimesOf, FramesOf;
    var first := timed[start];
    var frames, times, probes, lastProbe := [first.frame], [first.ts], 1, first.ts;
    index := start + 1;
    while index < |timed| && (reopening.None? || timed[index].ts < reopening.value)
      invariant start < index <= |timed| && probes == index - start && lastProbe == timed[index - 1].ts
      invariant ProbesEnd(timed, start + 1, reopening) == ProbesEnd(timed, index, reopening)
      invariant times == TimesOf(timed[start..index]) && frames == FramesOf(timed[start..index])
    {
      ProbesStep(timed, index, reopening);
      var probe := timed[index];
      assert timed[start..index + 1] == timed[start..index] + [probe];
      probes := probes + 1;
      lastProbe := probe.ts;
      if |frames| < SAMPLE {
        frames := frames + [probe.frame];
      }
      times := times + [probe.ts];
      index := index + 1;
    }
    ProbesStep(timed, index, reopening);
    assert Last(timed[start..index]) == timed[index - 1] && timed[start..index][0] == first;
    report := Report(times, first.ts, lastProbe, probes, frames, reopening);
  }

  lemma ReportsStep(e: Episode, rest: seq<Episode>)
    requires e.Valid() && forall r | r in rest :: r.Valid()
    ensures Reports([e] + rest) == [ReportOf(e)] + Reports(rest)
  {
    assert ([e] + rest)[1..] == rest;
  }

  lemma ProbesStep(timed: seq<Packet>, n: nat, reopening: Option<int>)
    requires n <= |timed|
    ensures ProbesEnd(timed, n, reopening) ==
              if n < |timed| && (reopening.None? || timed[n].ts < reopening.value)
              then ProbesEnd(timed, n + 1, reopening) else n
  {
  }

  lemma EpisodesStep(timed: seq<Packet>, group: seq<Packet>, fromClient: bool, n: nat)
    requires n < |timed|
    ensures var reopening := RecoveryFrom(group, fromClient, timed[n].ts);
            var end := ProbesEnd(timed, n + 1, reopening);
            EpisodesFrom(timed, group, fromClient, n)
            == [Episode(timed[n..end], reopening)] + EpisodesFrom(timed, group, fromClient, end)
  {
    hide RecoveryFrom, ProbesEnd;
  }

  // ------------------------------------------------------------ recovery

  /** The recovery is a later reopening, and there is one unless the window never reopens later. */
  lemma {:induction false} RecoveryReopens(group: seq<Packet>, fromClient: bool, after: int)
    ensures var r := RecoveryFrom(group, fromClient, after);
            && (r.Some? ==> r.value > after && exists p :: p in group && Reopens(p, fromClient, after) && p.ts == r.value)
            && (r.None? ==> forall p | p in group :: !Reopens(p, fromClient, after))
    decreases |group|
  {
    if |group| > 0 {
      RecoveryReopens(group[1..], fromClient, after);
      assert group == [group[0]] + group[1..];
      if Reopens(group[0], fromClient, after) {
        assert group[0] in group;
      }
    }
  }

  /** In a time-ordered group it is the earliest strictly later positive advertisement. */
  lemma {:induction false} RecoveryIsEarliest(group: seq<Packet>, fromClient: bool, after: int, p: Packet)
    requires Sorted(group, Time) && p in group && Reopens(p, fromClient, after)
    ensures RecoveryFrom(group, fromClient, after).Some? && RecoveryFrom(group, fromClient, after).value <= p.ts
    decreases |group|
  {
    var k :| 0 <= k < |group| && group[k] == p;
    if Reopens(group[0], fromClient, after) {
      assert k > 0 ==> Time(group[0]) <= Time(group[k]);
    } else {
      assert group[1..][k - 1] == p;
      RecoveryIsEarliest(group[1..], fromClient, after, p);
    }
  }

  // A positive advertisement of the endpoint, later than a time.
  ghost predicate Positive(p: Packet, fromClient: bool, after: int) {
    p.fromClient == fromClient && p.ts > after && p.window.Some? && p.window.value > 0
  }

  // The earliest of them, if there is one.
  ghost predicate IsEarliest(group: seq<Packet>, fromClient: bool, after: int, r: Option<int>) {
    && (r.Some? ==> exists p :: p in group && Positive(p, fromClient, after) && p.ts == r.value)
    && forall p | p in group && Positive(p, fromClient, after) :: r.Some? && r.value <= p.ts
  }

  /** In a time-ordered group the recovery is exactly the earliest positive advertisement after a time. */
  lemma RecoveryMeans(group: seq<Packet>, fromClient: bool, after: int)
    requires Sorted(group, Time)
    ensures IsEarliest(group, fromClient, after, RecoveryFrom(group, fromClient, after))
  {
    hide RecoveryFrom;
    RecoveryReopens(group, fromClient, after);
    forall p | p in group && Positive(p, fromClient, after)
      ensures RecoveryFrom(group, fromClient, after).Some? && RecoveryFrom(group, fromClient, after).value <= p.ts
    {
      RecoveryIsEarliest(group, fromClient, after, p);
    }
    assert forall p | p in group && Reopens(p, fromClient, after) :: Positive(p, fromClient, after);
  }

  // ------------------------------------------------------------ episodes

  // A zero advertisement of the endpoint outside the handshake.
  ghost predicate ZeroFrom(p: Packet, fromClient: bool) {
    p.fromClient == fromClient && p.window == Some(0) && !p.syn
  }

  /** An episode consists of zero advertisements of the endpoint, and recovers at its next positive one. */
  lemma EpisodeMeans(group: seq<Packet>, fromClient: bool, e: Episode)
    requires Sorted(group, Time) && e in EpisodesOf(group, fromClient)
    ensures e.Valid() && IsEarliest(group, fromClient, e.members[0].ts, e.recoveredAt)
    ensures forall p | p in e.members :: p in group && ZeroFrom(p, fromClient)
  {
    hide Sort, StallsOf, EpisodesFrom, IsEarliest;
    var stalls := StallsOf(group, fromClient);
    SortSorts(stalls, Time);
    SameElements(Sort(stalls, Time), stalls);
    StallsAreInGroup(group, fromClient);
    EpisodesStem(Sort(stalls, Time), group, fromClient, 0, e);
    RecoveryMeans(group, fromClient, e.members[0].ts);
  }

  lemma {:induction false} EpisodesStem(timed: seq<Packet>, group: seq<Packet>, fromClient: bool, n: nat, e: Episode)
    requires n <= |timed| && e in EpisodesFrom(timed, group, fromClient, n)
    ensures e.recoveredAt == RecoveryFrom(group, fromClient, e.members[0].ts)
    ensures forall p | p in e.members :: p in timed
    decreases |timed| - n
  {
    hide RecoveryFrom, ProbesEnd;
    var reopening := RecoveryFrom(group, fromClient, timed[n].ts);
    var end := ProbesEnd(timed, n + 1, reopening);
    EpisodesStep(timed, group, fromClient, n);
    if e != Episode(timed[n..end], reopening) {
      EpisodesStem(timed, group, fromClient, end, e);
    }
  }

  function AllMembers(episodes: seq<Episode>): seq<Packet> {
    if |episodes| == 0 then [] else episodes[0].members + AllMembers(episodes[1..])
  }

  /** Every zero advertisement belongs to exactly one episode. */
  lemma {:induction false} EpisodesPartition(timed: seq<Packet>, group: seq<Packet>, fromClient: bool, n: nat)
    requires n <= |timed|
    ensures AllMembers(EpisodesFrom(timed, group, fromClient, n)) == timed[n..]
    decreases |timed| - n
  {
    if n < |timed| {
      var reopening := RecoveryFrom(group, fromClient, timed[n].ts);
      var end := ProbesEnd(timed, n + 1, reopening);
      EpisodesPartition(timed, group, fromClient, end);
      var rest := EpisodesFrom(timed, group, fromClient, end);
      assert ([Episode(timed[n..end], reopening)] + rest)[1..] == rest;
      assert timed[n..end] + timed[end..] == timed[n..];
    }
  }

  lemma {:induction false} ProbesAreBefore(timed: seq<Packet>, n: nat, reopening: Option<int>)
    requires n <= |timed|
    ensures var e := ProbesEnd(timed, n, reopening);
            && (reopening.Some? ==> forall k | n <= k < e :: timed[k].ts < reopening.value)
            && (e < |timed| ==> reopening.Some? && timed[e].ts >= reopening.value)
    decreases |timed| - n
  {
    if n < |timed| && (reopening.None? || timed[n].ts < reopening.value) {
      ProbesAreBefore(timed, n + 1, reopening);
    }
  }

  // An episode lies in the half-open interval from its start to its recovery.
  ghost predicate Spans(e: Episode) {
    e.Valid() && (forall p | p in e.members :: p.ts >= e.Start()) &&
    (e.recoveredAt.Some? ==> forall p | p in e.members :: p.ts < e.recoveredAt.value)
  }

  /**
   The intervals of one direction are disjoint and in order: each episode but the last has
   recovered, and the next one starts no earlier than that. This needs no order of the group.
   */
  lemma {:induction false} EpisodesAreDisjoint(timed: seq<Packet>, group: seq<Packet>, fromClient: bool, n: nat, k: nat)
    requires Sorted(timed, Time) && n <= |timed| && k < |EpisodesFrom(timed, group, fromClient, n)|
    ensures var es := EpisodesFrom(timed, group, fromClient, n);
            && Spans(es[k])
            && (k + 1 < |es| ==> es[k].recoveredAt.Some? && es[k].recoveredAt.value <= es[k + 1].Start())
    decreases |timed| - n
  {
    var reopening := RecoveryFrom(group, fromClient, timed[n].ts);
    var end := ProbesEnd(timed, n + 1, reopening);
    var rest := EpisodesFrom(timed, group, fromClient, end);
    var es := EpisodesFrom(timed, group, fromClient, n);
    assert es == [Episode(timed[n..end], reopening)] + rest;
    if k > 0 {
      EpisodesAreDisjoint(timed, group, fromClient, end, k - 1);
      assert es[k] == rest[k - 1];
    } else {
      ProbesAreBefore(timed, n + 1, reopening);
      RecoveryReopens(group, fromClient, timed[n].ts);
      MembersInSpan(timed, n, end, reopening);
      if 1 < |es| {
        assert es[1] == rest[0];
        assert rest[0].members[0] == timed[end];
      }
    }
  }

  lemma MembersInSpan(timed: seq<Packet>, n: nat, end: nat, reopening: Option<int>)
    requires Sorted(timed, Time) && n < end <= |timed|
    requires reopening.Some? ==> timed[n].ts < reopening.value
    requires reopening.Some? ==> forall k | n + 1 <= k < end :: timed[k].ts < reopening.value
    ensures Spans(Episode(timed[n..end], reopening))
  {
    var e := Episode(timed[n..end], reopening);
    forall p | p in e.members
      ensures p.ts >= e.Start() && (reopening.Some? ==> p.ts < reopening.value)
    {
      var j :| 0 <= j < |e.members| && e.members[j] == p;
      assert timed[n + j] == p;
      assert j > 0 ==> Time(timed[n]) <= Time(timed[n + j]);
    }
  }

  // ------------------------------------------------------------ durations

  // `max` of the packet times.
  function CaptureEnd(group: seq<Packet>): int
    requires |group| > 0
  {
    if |group| == 1 then group[0].ts
    else if Last(group).ts >= CaptureEnd(Init(group)) then Last(group).ts
    else CaptureEnd(Init(group))
  }

  lemma {:induction false} CaptureEndIsLast(group: seq<Packet>, p: Packet)
    requires p in group
    ensures p.ts <= CaptureEnd(group)
  {
    if |group| > 1 && p != Last(group) {
      assert group == Init(group) + [Last(group)];
      CaptureEndIsLast(Init(group), p);
    } else if |group| == 1 {
      assert group == [group[0]];
    }
  }

  lemma {:induction false} CaptureEndIsReached(group: seq<Packet>)
    requires |group| > 0
    ensures exists p :: p in group && p.ts == CaptureEnd(group)
  {
    if |group| > 1 && Last(group).ts < CaptureEnd(Init(group)) {
      CaptureEndIsReached(Init(group));
      assert forall p | p in Init(group) :: p in group;
    } else {
      assert Last(group) in group;
    }
  }

  // An unrecovered stall lasts to the end of the capture.
  function Duration(e: Episode, end: int): int
    requires e.Valid()
  {
    (if e.recoveredAt.Some? then e.recoveredAt.value else end) - e.Start()
  }

  const MIN_STALL := 10_000

  // Shorter stalls are not reported and do not count.
  function StalledTime(episodes: seq<Episode>, end: int): int
    requires forall e | e in episodes :: e.Valid()
  {
    if |episodes| == 0 then 0 else
    (if Duration(episodes[0], end) >= MIN_STALL then Duration(episodes[0], end) else 0) + StalledTime(episodes[1..], end)
  }

  lemma {:induction false} StallsAreInGroup(group: seq<Packet>, fromClient: bool)
    ensures forall p :: p in StallsOf(group, fromClient) <==> p in group && Stalls(p, fromClient)
  {
    if |group| > 0 {
      StallsAreInGroup(Init(group), fromClient);
      assert group == Init(group) + [Last(group)];
    }
  }

  // An episode ends inside the capture, and before the next one starts.
  lemma NextStartsLater(timed: seq<Packet>, group: seq<Packet>, fromClient: bool, n: nat)
    requires Sorted(timed, Time) && n < |timed| && group != [] && forall p | p in timed :: p in group
    ensures var reopening := RecoveryFrom(group, fromClient, timed[n].ts);
            var next := ProbesEnd(timed, n + 1, reopening);
            && timed[n].ts <= (if reopening.Some? then reopening.value else CaptureEnd(group)) <= CaptureEnd(group)
            && (next < |timed| ==> reopening.Some? && timed[n].ts <= reopening.value <= timed[next].ts)
  {
    hide CaptureEnd, RecoveryFrom;
    var reopening := RecoveryFrom(group, fromClient, timed[n].ts);
    assert timed[n] in timed;
    CaptureEndIsLast(group, timed[n]);
    RecoveryReopens(group, fromClient, timed[n].ts);
    if reopening.Some? {
      var p :| p in group && Reopens(p, fromClient, timed[n].ts) && p.ts == reopening.value;
      CaptureEndIsLast(group, p);
    }
    ProbesAreBefore(timed, n + 1, reopening);
  }

  /**
   The stalled time of one direction never exceeds the time from the first stall to the end
   of the capture.
   */
  lemma {:induction false} StalledTimeIsBounded(timed: seq<Packet>, group: seq<Packet>, fromClient: bool, n: nat)
    requires Sorted(timed, Time) && n < |timed| && group != [] && forall p | p in timed :: p in group
    ensures 0 <= StalledTime(EpisodesFrom(timed, group, fromClient, n), CaptureEnd(group)) <= CaptureEnd(group) - timed[n].ts
    decreases |timed| - n
  {
    hide CaptureEnd, RecoveryFrom, ProbesEnd, EpisodesFrom;
    var reopening := RecoveryFrom(group, fromClient, timed[n].ts);
    var next := ProbesEnd(timed, n + 1, reopening);
    EpisodesStep(timed, group, fromClient, n);
    NextStartsLater(timed, group, fromClient, n);
    AddDuration(Episode(timed[n..next], reopening), EpisodesFrom(timed, group, fromClient, next), CaptureEnd(group));
    if next < |timed| {
      StalledTimeIsBounded(timed, group, fromClient, next);
    }
  }

  lemma AddDuration(e: Episode, rest: seq<Episode>, end: int)
    requires e.Valid() && forall r | r in rest :: r.Valid()
    ensures StalledTime([e] + rest, end)
         == (if Duration(e, end) >= MIN_STALL then Duration(e, end) else 0) + StalledTime(rest, end)
    ensures rest == [] ==> StalledTime(rest, end) == 0
  {
    assert ([e] + rest)[1..] == rest;
  }

  lemma StalledTimeOfDirection(group: seq<Packet>, fromClient: bool)
    requires StallsOf(group, fromClient) != []
    ensures group != []
    ensures var timed := Sort(StallsOf(group, fromClient), Time);
            && timed != []
            && (forall p | p in group && Stalls(p, fromClient) :: timed[0].ts <= p.ts)
            && 0 <= StalledTime(EpisodesOf(group, fromClient), CaptureEnd(group)) <= CaptureEnd(group) - timed[0].ts
  {
    hide EpisodesFrom, StalledTime, CaptureEnd;
    var stalls := StallsOf(group, fromClient);
    SortSorts(stalls, Time);
    SameElements(Sort(stalls, Time), stalls);
    StallsAreInGroup(group, fromClient);
    var timed := Sort(stalls, Time);
    forall p | p in group && Stalls(p, fromClient)
      ensures timed[0].ts <= p.ts
    {
      var k :| 0 <= k < |timed| && timed[k] == p;
      assert k > 0 ==> Time(timed[0]) <= Time(timed[k]);
    }
    StalledTimeIsBounded(timed, group, fromClient, 0);
  }

  // ------------------------------------------------------------ the analysis

  method StalledIn(group: seq<Packet>, fromClient: bool, end: int) returns (total: int)
    ensures total == StalledTime(EpisodesOf(group, fromClient), end)
  {
    hide Sort, StallsOf, EpisodesFrom, StalledTime, Reports;
    var stalls: seq<Packet> := [];
    StallsUpTo(group, 0, fromClient);
    for n := 0 to |group|
      invariant stalls == StallsOf(group[..n], fromClient)
    {
      StallsUpTo(group, n, fromClient);
      if group[n].window == Some(0) && !group[n].syn && group[n].fromClient == fromClient {
        stalls := stalls + [group[n]];
      }
    }
    assert group[..|group|] == group;
    var reports := Episodes(stalls, group, fromClient);
    total := AddDurations(reports, EpisodesOf(group, fromClient), end);
  }

  method AddDurations(reports: seq<Report>, ghost episodes: seq<Episode>, end: int) returns (total: int)
    requires (forall e | e in episodes :: e.Valid()) && reports == Reports(episodes)
    ensures total == StalledTime(episodes, end)
  {
    hide Reports, TimesOf, FramesOf;
    total := 0;
    for n := 0 to |reports|
      invariant total + StalledTime(episodes[n..], end) == StalledTime(episodes, end)
    {
      assert episodes[n..][1..] == episodes[n + 1..];
      assert episodes[n] in episodes && reports[n] == ReportOf(episodes[n]);
      var duration := (if reports[n].recoveredAt.Some? then reports[n].recoveredAt.value else end) - reports[n].start;
      if duration >= MIN_STALL {
        total := total + duration;
      }
    }
  }

  lemma StallsUpTo(group: seq<Packet>, n: nat, fromClient: bool)
    requires n <= |group|
    ensures StallsOf(group[..0], fromClient) == []
    ensures n < |group| ==>
              StallsOf(group[..n + 1], fromClient) ==
                if Stalls(group[n], fromClient) then StallsOf(group[..n], fromClient) + [group[n]]
                else StallsOf(group[..n], fromClient)
  {
    if n < |group| {
      assert Init(group[..n + 1]) == group[..n];
    }
  }

  method FindCaptureEnd(group: seq<Packet>) returns (end: int)
    requires group != []
    ensures end == CaptureEnd(group)
  {
    end := group[0].ts;
    for n := 1 to |group|
      invariant end == CaptureEnd(group[..n])
    {
      assert Init(group[..n + 1]) == group[..n];
      if group[n].ts >= end {
        end := group[n].ts;
      }
    }
    assert group[..|group|] == group;
  }

  // Total stalled time over both endpoints; `StalledTotal` bounds it.
  method ReceiverWindow(group: seq<Packet>) returns (total: int)
    ensures group == [] ==> total == 0
    ensures group != [] ==> total == StalledTime(EpisodesOf(group, true), CaptureEnd(group))
                                   + StalledTime(EpisodesOf(group, false), CaptureEnd(group))
  {
    if group == [] {
      return 0;
    }
    var end := FindCaptureEnd(group);
    var client := StalledIn(group, true, end);
    var server := StalledIn(group, false, end);
    total := client + server;
  }
}
