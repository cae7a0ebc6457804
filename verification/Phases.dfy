/** Activity runs and phases of a stream (`_activity`, `stream_phases`). */
module Phases {
  import opened Wrappers
  import opened Sequences
  import opened Cuts
  import opened StableSort
  import opened Trace

  // Quiet time that separates phases: two seconds.
  const IDLE_GAP := 2_000_000

  type Run = r: seq<Packet> | |r| > 0
    witness [Packet(0, 0, true, 0, 0, None, false, false, None, false)]

  // The packet belongs to the run that ends with `last`.
  predicate Continues(last: Packet, p: Packet) {
    p.ts - last.ts <= IDLE_GAP
  }

  // The packets in time order, cut exactly at the gaps above the threshold.
  ghost predicate AreRuns(runs: seq<Run>, packets: seq<Packet>) {
    Partitions(runs, Sort(packets, Time), Continues)
  }

  /** Activity runs: no inner gap exceeds the threshold, every gap between runs does. */
  method Activity(packets: seq<Packet>) returns (runs: seq<Run>)
    ensures AreRuns(runs, packets)
    ensures runs == [] <==> packets == []
  {
    hide Sort, Partitions;
    var ordered := Sort(packets, Time);
    SortSorts(packets, Time);
    NoParts<Packet>(Continues);
    if |ordered| == 0 {
      return [];
    }
    var finished: seq<Run> := [];
    var current: Run := [ordered[0]];
    Begin([], [], ordered[0], Continues);
    assert [] + [current] == finished + [current] && [] + [ordered[0]] == ordered[..1];
    for n := 1 to |ordered|
      invariant Partitions(finished + [current], ordered[..n], Continues)
    {
      var p := ordered[n];
      assert ordered[..n] + [p] == ordered[..n + 1];
      Snoc(finished, current);
      if p.ts - Last(current).ts > IDLE_GAP {
        Begin(finished + [current], ordered[..n], p, Continues);
        finished := finished + [current];
        current := [p];
      } else {
        Continue(finished + [current], ordered[..n], p, Continues);
        current := current + [p];
      }
    }
    assert ordered[..|ordered|] == ordered;
    runs := finished + [current];
  }

  /** The runs hold all packets in time order; inner gaps are at most two seconds, outer ones longer. */
  lemma RunsMean(runs: seq<Run>, packets: seq<Packet>)
    requires AreRuns(runs, packets)
    ensures Flatten(runs) == Sort(packets, Time)
    ensures forall k, j | 0 <= k < |runs| && 0 < j < |runs[k]| :: runs[k][j].ts - runs[k][j - 1].ts <= 2_000_000
    ensures forall k | 0 < k < |runs| :: runs[k][0].ts - runs[k - 1][|runs[k - 1]| - 1].ts > 2_000_000
  {
    hide Sort, Flatten;
    forall k, j | 0 <= k < |runs| && 0 < j < |runs[k]|
      ensures runs[k][j].ts - runs[k][j - 1].ts <= 2_000_000
    {
      assert Joined(runs[k], Continues);
    }
    forall k | 0 < k < |runs|
      ensures runs[k][0].ts - runs[k - 1][|runs[k - 1]| - 1].ts > 2_000_000
    {
      assert !Meets(runs[k - 1], runs[k], Continues);
    }
  }

  /** The runs follow from the packets alone. */
  lemma RunsAreUnique(a: seq<Run>, b: seq<Run>, packets: seq<Packet>)
    requires AreRuns(a, packets) && AreRuns(b, packets)
    ensures a == b
  {
    hide Partitions;
    PartsAreUnique(a, b, Sort(packets, Time), Continues);
  }

  // ------------------------------------------------------------ phases

  datatype Phase = Phase(index: nat, start: int, end: int, frames: seq<nat>, pause: bool)

  function FramesOf(r: seq<Packet>): (s: seq<nat>)
    ensures |s| == |r| && forall k | 0 <= k < |r| :: s[k] == r[k].frame
  {
    if |r| == 0 then [] else FramesOf(Init(r)) + [Last(r).frame]
  }

  function AllFrames(phases: seq<Phase>): seq<nat> {
    if |phases| == 0 then [] else AllFrames(Init(phases)) + Last(phases).frames
  }

  function TotalDuration(phases: seq<Phase>): int {
    if |phases| == 0 then 0 else TotalDuration(Init(phases)) + (Last(phases).end - Last(phases).start)
  }

  // Runs and pauses alternate, share their endpoints, and are numbered by position.
  ghost predicate Tiles(phases: seq<Phase>) {
    && (forall k | 0 <= k < |phases| :: phases[k].index == k && phases[k].pause == (k % 2 == 1))
    && (forall k | 0 < k < |phases| :: phases[k].start == phases[k - 1].end)
    && (forall k | 0 <= k < |phases| && phases[k].pause ::
          phases[k].frames == [] && phases[k].end - phases[k].start > IDLE_GAP)
  }

  lemma TilesRun(phases: seq<Phase>, p: Phase)
    requires Tiles(phases) && |phases| % 2 == 0 && p.index == |phases| && !p.pause
    requires |phases| > 0 ==> p.start == Last(phases).end
    ensures Tiles(phases + [p])
  {
  }

  lemma TilesPause(phases: seq<Phase>, p: Phase)
    requires Tiles(phases) && |phases| % 2 == 1 && p.index == |phases| && p.pause
    requires p.start == Last(phases).end && p.frames == [] && p.end - p.start > IDLE_GAP
    ensures Tiles(phases + [p])
  {
  }

  lemma {:induction false} FramesConcat(a: seq<Packet>, b: seq<Packet>)
    ensures FramesOf(a + b) == FramesOf(a) + FramesOf(b)
  {
    if |b| == 0 {
      assert a + b == a;
    } else {
      assert Init(a + b) == a + Init(b);
      FramesConcat(a, Init(b));
    }
  }

  lemma PhasesSnoc(phases: seq<Phase>, p: Phase)
    ensures AllFrames(phases + [p]) == AllFrames(phases) + p.frames
    ensures TotalDuration(phases + [p]) == TotalDuration(phases) + (p.end - p.start)
  {
    Snoc(phases, p);
  }

  // The phase of run `k`, and the pause between it and the next run.
  function RunPhase(runs: seq<Run>, k: nat): Phase
    requires k < |runs|
  {
    Phase(2 * k, runs[k][0].ts, Last(runs[k]).ts, FramesOf(runs[k]), false)
  }

  function PausePhase(runs: seq<Run>, k: nat): Phase
    requires k + 1 < |runs|
  {
    Phase(2 * k + 1, Last(runs[k]).ts, runs[k + 1][0].ts, [], true)
  }

  // The phases of the first `n` runs, each with the pause behind it.
  function PhasesUpTo(runs: seq<Run>, n: nat): (phases: seq<Phase>)
    requires n <= |runs|
    ensures |phases| == if n == 0 then 0 else if n < |runs| then 2 * n else 2 * n - 1
  {
    if n == 0 then [] else
    PhasesUpTo(runs, n - 1) + [RunPhase(runs, n - 1)] + (if n < |runs| then [PausePhase(runs, n - 1)] else [])
  }

  /** Phase 2k is run k, and phase 2k + 1 is the gap behind it. */
  lemma {:induction false} PhasesFollowRuns(runs: seq<Run>, n: nat, k: nat)
    requires k < n <= |runs|
    ensures PhasesUpTo(runs, n)[2 * k]
            == Phase(2 * k, runs[k][0].ts, runs[k][|runs[k]| - 1].ts, FramesOf(runs[k]), false)
    ensures k + 1 < |runs| ==>
              PhasesUpTo(runs, n)[2 * k + 1]
              == Phase(2 * k + 1, runs[k][|runs[k]| - 1].ts, runs[k + 1][0].ts, [], true)
  {
    if k < n - 1 {
      PhasesFollowRuns(runs, n - 1, k);
    }
  }

  /** Every packet of a run lies within the bounds of its phase. */
  lemma PacketsLieInPhase(runs: seq<Run>, packets: seq<Packet>, k: nat, p: Packet)
    requires AreRuns(runs, packets) && k < |runs| && p in runs[k]
    ensures RunPhase(runs, k).start <= p.ts <= RunPhase(runs, k).end
  {
    hide Sort;
    SortSorts(packets, Time);
    PartIsSorted(runs, Sort(packets, Time), k);
    var j :| 0 <= j < |runs[k]| && runs[k][j] == p;
    assert j > 0 ==> Time(runs[k][0]) <= Time(p);
    assert j < |runs[k]| - 1 ==> Time(p) <= Time(runs[k][|runs[k]| - 1]);
  }

  lemma {:induction false} PartIsSorted(runs: seq<Run>, ordered: seq<Packet>, k: nat)
    requires Flatten(runs) == ordered && Sorted(ordered, Time) && k < |runs|
    ensures Sorted(runs[k], Time)
  {
    var front := Flatten(Init(runs));
    assert ordered == front + Last(runs);
    if k < |runs| - 1 {
      assert front == ordered[..|front|];
      PartIsSorted(Init(runs), front, k);
    } else {
      assert Last(runs) == ordered[|front|..];
    }
  }

  /**
   The phases are the runs with the gaps between them. They tile the stream: they alternate and
   touch, their frames are all frames in time order, and their durations add up to its span.
   */
  method StreamPhases(packets: seq<Packet>) returns (phases: seq<Phase>, ghost runs: seq<Run>)
    ensures AreRuns(runs, packets) && phases == PhasesUpTo(runs, |runs|)
    ensures Tiles(phases)
    ensures AllFrames(phases) == FramesOf(Sort(packets, Time))
    ensures packets == [] <==> phases == []
    ensures packets != [] ==>
              var ordered := Sort(packets, Time);
              |ordered| > 0 && TotalDuration(phases) == Last(ordered).ts - ordered[0].ts
  {
    hide Sort, Flatten, AllFrames, TotalDuration, FramesOf, Tiles;
    phases := [];
    SortSorts(packets, Time);
    NoPhases();
    var found := Activity(packets);
    runs := found;
    if found == [] {
      return;
    }
    FirstAndLast(found, Sort(packets, Time));
    for n := 0 to |found|
      invariant Tiles(phases) && phases == PhasesUpTo(found, n)
      invariant AllFrames(phases) == FramesOf(Flatten(found[..n]))
      invariant |phases| > 0 && n < |found| ==> Last(phases).end == found[n][0].ts
      invariant |phases| > 0 && n == |found| ==> Last(phases).end == Last(found[n - 1]).ts
      invariant |phases| > 0 ==> TotalDuration(phases) == Last(phases).end - found[0][0].ts
    {
      var run := found[n];
      assert found[..n] + [run] == found[..n + 1];
      FlattenSnoc(found[..n], run);
      FramesConcat(Flatten(found[..n]), run);
      var phase := Phase(|phases|, run[0].ts, Last(run).ts, FramesOf(run), false);
      PhasesSnoc(phases, phase);
      TilesRun(phases, phase);
      phases := phases + [phase];
      assert phases + [] == phases;
      if n + 1 < |found| {
        assert !Meets(found[n], found[n + 1], Continues);
        var pause := Phase(|phases|, Last(run).ts, found[n + 1][0].ts, [], true);
        PhasesSnoc(phases, pause);
        TilesPause(phases, pause);
        assert AllFrames(phases) + [] == AllFrames(phases);
        phases := phases + [pause];
      }
    }
    assert found[..|found|] == found;
  }

  lemma NoPhases()
    ensures Tiles([]) && AllFrames([]) == [] && TotalDuration([]) == 0 && FramesOf([]) == [] && Flatten<Packet>([]) == []
  {
  }

  lemma {:induction false} FirstAndLast(runs: seq<Run>, ordered: seq<Packet>)
    requires Flatten(runs) == ordered && |runs| > 0
    ensures |ordered| > 0 && runs[0][0] == ordered[0] && Last(Last(runs)) == Last(ordered)
  {
    if |runs| > 1 {
      FirstAndLast(Init(runs), Flatten(Init(runs)));
    } else {
      assert Init(runs) == [] && [] + Last(runs) == ordered;
    }
  }
}
