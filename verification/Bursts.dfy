/**
 Burst grouping (`largest_burst`): consecutive payload records of one direction no further
 apart than a threshold. Gaps are whole microseconds.
 */
module Bursts {
  import opened Wrappers
  import opened Sequences
  import opened Cuts
  import opened StableSort
  import opened Trace

  datatype Burst = Burst(fromClient: bool, start: int, end: int, bytes: nat, records: nat)

  // The records of one burst.
  type Group = g: seq<Packet> | |g| > 0
    witness [Packet(0, 0, true, 1, 0, None, false, false, None, false)]

  predicate HasPayload(p: Packet) { p.length > 0 }

  // The record continues the burst that ends with `last`.
  predicate Continues(last: Packet, p: Packet, gap: int) {
    last.fromClient == p.fromClient && p.ts - last.ts <= gap
  }

  // The specification: the records in time order, cut wherever a record does not continue.
  function Groups(records: seq<Packet>, gap: int): (groups: seq<Group>)
    ensures |groups| == 0 <==> |records| == 0
  {
    if |records| == 0 then [] else
    var before := Groups(Init(records), gap);
    var p := Last(records);
    if |before| > 0 && Continues(Last(Last(before)), p, gap) then Init(before) + [Last(before) + [p]]
    else before + [[p]]
  }

  function Summary(g: Group): Burst {
    Burst(g[0].fromClient, g[0].ts, Last(g).ts, Bytes(g), |g|)
  }

  function Summaries(groups: seq<Group>): (r: seq<Burst>)
    ensures |r| == |groups|
  {
    if |groups| == 0 then [] else Summaries(Init(groups)) + [Summary(Last(groups))]
  }

  // The records a grouping starts from.
  function Ordered(packets: seq<Packet>): seq<Packet> {
    Filter(Sort(packets, Time), HasPayload)
  }

  lemma {:induction false} GroupsKeepDirection(records: seq<Packet>, gap: int)
    ensures forall g | g in Groups(records, gap) :: forall p | p in g :: p.fromClient == g[0].fromClient
  {
    if |records| > 0 {
      var before := Groups(Init(records), gap);
      var p := Last(records);
      GroupsKeepDirection(Init(records), gap);
      if |before| > 0 && Continues(Last(Last(before)), p, gap) {
        assert Last(before) in before;
        assert Last(Last(before)) in Last(before);
        forall g | g in Groups(records, gap)
          ensures forall q | q in g :: q.fromClient == g[0].fromClient
        {
          if g in Init(before) {
            assert g in before;
          } else {
            assert g == Last(before) + [p];
          }
        }
      }
    }
  }

  // ------------------------------------------------------------ the loops

  method BurstsAt(packets: seq<Packet>, gap: int) returns (found: seq<Burst>)
    ensures found == Summaries(Groups(Ordered(packets), gap))
  {
    hide Groups, Sort, Summaries, Folded, Filter;
    var sorted := Sort(packets, Time);
    found := [];
    var current: Option<Burst> := None;
    NothingFolded(sorted, gap);
    for n := 0 to |sorted|
      invariant Folded(found, current, Groups(Filter(sorted[..n], HasPayload), gap))
    {
      var p := sorted[n];
      ghost var records := Filter(sorted[..n], HasPayload);
      FilterStep(sorted, n);
      if p.length <= 0 {
        continue;
      }
      NextRecord(records, p, gap, found, current);
      if current.Some? && current.value.fromClient == p.fromClient && p.ts - current.value.end <= gap {
        var c := current.value;
        current := Some(c.(end := p.ts, bytes := c.bytes + p.length, records := c.records + 1));
      } else {
        if current.Some? {
          found := found + [current.value];
        } else {
          assert found + [] == found;
        }
        current := Some(Burst(p.fromClient, p.ts, p.ts, p.length, 1));
      }
    }
    assert sorted[..|sorted|] == sorted;
    AllFolded(found, current, Groups(Filter(sorted, HasPayload), gap));
    if current.Some? {
      found := found + [current.value];
    }
  }

  lemma NothingFolded(sorted: seq<Packet>, gap: int)
    ensures Folded([], None, Groups(Filter(sorted[..0], HasPayload), gap))
  {
  }

  lemma FilterStep(sorted: seq<Packet>, n: nat)
    requires n < |sorted|
    ensures Filter(sorted[..n + 1], HasPayload) ==
              if sorted[n].length > 0 then Filter(sorted[..n], HasPayload) + [sorted[n]] else Filter(sorted[..n], HasPayload)
  {
    assert Init(sorted[..n + 1]) == sorted[..n];
  }

  lemma AllFolded(found: seq<Burst>, current: Option<Burst>, groups: seq<Group>)
    requires Folded(found, current, groups)
    ensures Summaries(groups) == if current.Some? then found + [current.value] else found
  {
  }

  // `found` are the finished groups, `current` is the last one.
  ghost predicate Folded(found: seq<Burst>, current: Option<Burst>, groups: seq<Group>) {
    match current
    case None => |groups| == 0 && found == []
    case Some(c) => |groups| > 0 && found + [c] == Summaries(groups)
  }

  lemma NextRecord(records: seq<Packet>, p: Packet, gap: int, found: seq<Burst>, current: Option<Burst>)
    requires Folded(found, current, Groups(records, gap))
    ensures
      if current.Some? && current.value.fromClient == p.fromClient && p.ts - current.value.end <= gap then
        var c := current.value;
        Folded(found, Some(c.(end := p.ts, bytes := c.bytes + p.length, records := c.records + 1)), Groups(records + [p], gap))
      else
        Folded(found + (if current.Some? then [current.value] else []), Some(Burst(p.fromClient, p.ts, p.ts, p.length, 1)),
               Groups(records + [p], gap))
  {
    hide Groups, Summary, Summaries;
    var before := Groups(records, gap);
    Snoc(records, p);
    GroupsSnoc(records + [p], gap);
    SingleSummary(p);
    NoSummaries();
    if |before| > 0 {
      var g := Last(before);
      LastOfGroup(records, gap);
      LastSummary(found, current.value, before);
      SummaryGrows(g, p);
      SummariesSnoc(Init(before), g + [p]);
    }
    SummariesSnoc(before, [p]);
  }

  lemma NoSummaries()
    ensures Summaries([]) == []
  {
  }

  lemma SingleSummary(p: Packet)
    ensures Summary([p]) == Burst(p.fromClient, p.ts, p.ts, p.length, 1)
  {
    var s: seq<Packet> := [p];
    assert Init(s) == [];
    assert Bytes(s) == p.length;
  }

  lemma SummaryGrows(g: Group, p: Packet)
    ensures Summary(g + [p]) == Summary(g).(end := p.ts, bytes := Summary(g).bytes + p.length, records := |g| + 1)
    ensures Summary(g).end == Last(g).ts && Summary(g).records == |g| && Summary(g).fromClient == g[0].fromClient
  {
    Snoc(g, p);
  }

  lemma SummariesSnoc(groups: seq<Group>, g: Group)
    ensures Summaries(groups + [g]) == Summaries(groups) + [Summary(g)]
  {
    Snoc(groups, g);
  }

  // All records of the last burst have its direction.
  lemma LastOfGroup(records: seq<Packet>, gap: int)
    requires |Groups(records, gap)| > 0
    ensures Last(Last(Groups(records, gap))).fromClient == Last(Groups(records, gap))[0].fromClient
  {
    GroupsKeepDirection(records, gap);
    var g := Last(Groups(records, gap));
    assert g in Groups(records, gap) && Last(g) in g;
  }

  lemma LastSummary(found: seq<Burst>, c: Burst, groups: seq<Group>)
    requires |groups| > 0 && found + [c] == Summaries(groups)
    ensures found == Summaries(Init(groups)) && c == Summary(Last(groups))
  {
    Snoc(found, c);
    Snoc(Summaries(Init(groups)), Summary(Last(groups)));
  }

  // ------------------------------------------------------------ a partition

  function Joins(gap: int): (Packet, Packet) -> bool {
    (last: Packet, p: Packet) => last.fromClient == p.fromClient && p.ts - last.ts <= gap
  }

  /**
   The bursts hold every payload record once, in time order, and are cut exactly where a record
   changes direction or comes after the threshold.
   */
  lemma {:induction false} GroupsPartition(records: seq<Packet>, gap: int)
    ensures Partitions(Groups(records, gap), records, Joins(gap))
  {
    hide Groups, Partitions;
    if |records| == 0 {
      assert Groups(records, gap) == [];
      NoParts(Joins(gap));
    } else {
      var before := Groups(Init(records), gap);
      var p := Last(records);
      GroupsPartition(Init(records), gap);
      GroupsSnoc(records, gap);
      assert records == Init(records) + [p];
      if |before| > 0 && Continues(Last(Last(before)), p, gap) {
        Continue(before, Init(records), p, Joins(gap));
      } else {
        Begin(before, Init(records), p, Joins(gap));
      }
    }
  }

  /** The records are those with payload, in time order; records of one time keep their order. */
  lemma RecordsMean(packets: seq<Packet>, p: Packet)
    ensures p in Ordered(packets) <==> p in packets && p.length > 0
    ensures forall i, j | 0 <= i < j < |Ordered(packets)| :: Ordered(packets)[i].ts <= Ordered(packets)[j].ts
    ensures multiset(Ordered(packets))[p] == if p.length > 0 then multiset(packets)[p] else 0
  {
    hide Sort, Filter;
    FilterCommutesWithSort(packets, Time, HasPayload);
    var data := Filter(packets, HasPayload);
    SortSorts(data, Time);
    FilterMembers(packets, HasPayload);
    FilterCounts(packets, HasPayload, p);
    SameElements(Sort(data, Time), data);
  }

  /** A burst is reported with its direction, its first and last time, its bytes and its records. */
  lemma {:induction false} BurstMeans(groups: seq<Group>, k: nat)
    requires k < |groups|
    ensures var b, g := Summaries(groups)[k], groups[k];
            && b.fromClient == g[0].fromClient && b.start == g[0].ts && b.end == g[|g| - 1].ts
            && b.bytes == Bytes(g) && b.records == |g|
  {
    if k < |groups| - 1 {
      BurstMeans(Init(groups), k);
    }
  }

  /** No other grouping has these cuts. */
  lemma GroupsAreUnique(groups: seq<Group>, records: seq<Packet>, gap: int)
    requires Partitions(groups, records, Joins(gap))
    ensures groups == Groups(records, gap)
  {
    hide Partitions, Groups;
    GroupsPartition(records, gap);
    PartsAreUnique(groups, Groups(records, gap), records, Joins(gap));
  }

  function BurstBytes(bursts: seq<Burst>): nat {
    if |bursts| == 0 then 0 else BurstBytes(Init(bursts)) + Last(bursts).bytes
  }

  lemma {:induction false} BytesConcat(a: seq<Packet>, b: seq<Packet>)
    ensures Bytes(a + b) == Bytes(a) + Bytes(b)
  {
    if |b| == 0 {
      assert a + b == a;
    } else {
      assert Init(a + b) == a + Init(b);
      BytesConcat(a, Init(b));
    }
  }

  /** No byte is lost or counted twice. */
  lemma {:induction false} BurstsConserveBytes(groups: seq<Group>)
    ensures BurstBytes(Summaries(groups)) == Bytes(Flatten(groups))
  {
    if |groups| > 0 {
      BurstsConserveBytes(Init(groups));
      BytesConcat(Flatten(Init(groups)), Last(groups));
      Snoc(Summaries(Init(groups)), Summary(Last(groups)));
    }
  }

  // ------------------------------------------------------------ a larger threshold

  // `f` ends the last group of `coarse`.
  predicate EndsWith(coarse: seq<Group>, f: Group) {
    |coarse| > 0 && |f| <= |Last(coarse)| && Last(coarse)[|Last(coarse)| - |f|..] == f
  }

  // What remains of `coarse` when `f` is cut off its end.
  function CutOff(coarse: seq<Group>, f: Group): seq<Group>
    requires EndsWith(coarse, f)
  {
    var c := Last(coarse);
    if |f| == |c| then Init(coarse) else Init(coarse) + [c[..|c| - |f|]]
  }

  // Each group of `fine` lies inside one group of `coarse`, in the same order.
  ghost predicate Coarsens(fine: seq<Group>, coarse: seq<Group>)
    decreases |fine|
  {
    if |fine| == 0 then |coarse| == 0
    else EndsWith(coarse, Last(fine)) && Coarsens(Init(fine), CutOff(coarse, Last(fine)))
  }

  lemma CutOffSnoc(coarse: seq<Group>, f: Group, p: Packet)
    requires EndsWith(coarse, f)
    ensures EndsWith(Init(coarse) + [Last(coarse) + [p]], f + [p])
    ensures CutOff(Init(coarse) + [Last(coarse) + [p]], f + [p]) == CutOff(coarse, f)
  {
    Snoc(Init(coarse), Last(coarse) + [p]);
    TailSnoc(f, Last(coarse), p);
  }

  // The record continues the last burst at both thresholds.
  lemma JoinBoth(fine: seq<Group>, coarse: seq<Group>, p: Packet)
    requires Coarsens(fine, coarse) && |fine| > 0
    ensures Coarsens(Init(fine) + [Last(fine) + [p]], Init(coarse) + [Last(coarse) + [p]])
  {
    hide EndsWith, CutOff;
    Snoc(Init(fine), Last(fine) + [p]);
    CutOffSnoc(coarse, Last(fine), p);
  }

  lemma TailSnoc(f: Group, c: Group, p: Packet)
    requires |f| <= |c| && c[|c| - |f|..] == f
    ensures (c + [p])[|c + [p]| - |f + [p]|..] == f + [p]
    ensures (c + [p])[..|c + [p]| - |f + [p]|] == c[..|c| - |f|]
  {
    assert (c + [p])[|c| - |f|..] == c[|c| - |f|..] + [p];
    assert (c + [p])[..|c| - |f|] == c[..|c| - |f|];
  }

  lemma CutSingle(coarse: seq<Group>, p: Packet)
    requires |coarse| > 0
    ensures var c' := Init(coarse) + [Last(coarse) + [p]];
            EndsWith(c', [p]) && CutOff(c', [p]) == coarse
  {
    var c := Last(coarse);
    Snoc(Init(coarse), c + [p]);
    assert (c + [p])[|c|..] == [p] && (c + [p])[..|c|] == c;
    assert Init(coarse) + [c] == coarse;
  }

  // It starts a burst at the smaller threshold only.
  lemma CutFine(fine: seq<Group>, coarse: seq<Group>, p: Packet)
    requires Coarsens(fine, coarse) && |coarse| > 0
    ensures Coarsens(fine + [[p]], Init(coarse) + [Last(coarse) + [p]])
  {
    hide EndsWith, CutOff;
    Snoc(fine, [p]);
    CutSingle(coarse, p);
  }

  // It starts a burst at both.
  lemma CutBoth(fine: seq<Group>, coarse: seq<Group>, p: Packet)
    requires Coarsens(fine, coarse)
    ensures Coarsens(fine + [[p]], coarse + [[p]])
  {
    Snoc(fine, [p]);
    Snoc(coarse, [p]);
  }

  lemma GroupsSnoc(records: seq<Packet>, gap: int)
    requires |records| > 0
    ensures var before := Groups(Init(records), gap);
            Groups(records, gap) ==
              if |before| > 0 && Continues(Last(Last(before)), Last(records), gap)
              then Init(before) + [Last(before) + [Last(records)]] else before + [[Last(records)]]
    ensures Last(Last(Groups(records, gap))) == Last(records)
  {
    var before := Groups(Init(records), gap);
    Snoc(before, [Last(records)]);
    if |before| > 0 {
      Snoc(Init(before), Last(before) + [Last(records)]);
    }
  }

  /** For thresholds g <= g', each g-burst lies inside one g'-burst. */
  lemma {:induction false} LargerGapCoarsens(records: seq<Packet>, gap: int, gap': int)
    requires gap <= gap'
    ensures Coarsens(Groups(records, gap), Groups(records, gap'))
  {
    hide Coarsens, Groups;
    if |records| == 0 {
      CoarsensNothing(gap, gap');
    } else {
      var p := Last(records);
      var fine, coarse := Groups(Init(records), gap), Groups(Init(records), gap');
      LargerGapCoarsens(Init(records), gap, gap');
      GroupsSnoc(records, gap);
      GroupsSnoc(records, gap');
      if |fine| == 0 {
        CutBoth(fine, coarse, p);
      } else {
        GroupsSnoc(Init(records), gap);
        GroupsSnoc(Init(records), gap');
        assert |coarse| > 0;
        if Continues(Last(Last(fine)), p, gap) {
          JoinBoth(fine, coarse, p);
        } else if Continues(Last(Last(coarse)), p, gap') {
          CutFine(fine, coarse, p);
        } else {
          CutBoth(fine, coarse, p);
        }
      }
    }
  }

  lemma CoarsensNothing(gap: int, gap': int)
    ensures Coarsens(Groups([], gap), Groups([], gap'))
  {
  }

  function LargestBytes(groups: seq<Group>): nat {
    if |groups| == 0 then 0
    else if Bytes(Last(groups)) >= LargestBytes(Init(groups)) then Bytes(Last(groups))
    else LargestBytes(Init(groups))
  }

  lemma LargestSnoc(groups: seq<Group>, g: Group)
    ensures LargestBytes(groups + [g]) == if Bytes(g) >= LargestBytes(groups) then Bytes(g) else LargestBytes(groups)
  {
    Snoc(groups, g);
  }

  lemma CutOffIsSmaller(coarse: seq<Group>, f: Group)
    requires EndsWith(coarse, f)
    ensures LargestBytes(CutOff(coarse, f)) <= LargestBytes(coarse)
    ensures Bytes(f) <= LargestBytes(coarse)
  {
    hide LargestBytes, Bytes;
    var c := Last(coarse);
    assert coarse == Init(coarse) + [c];
    LargestSnoc(Init(coarse), c);
    assert c == c[..|c| - |f|] + f;
    BytesConcat(c[..|c| - |f|], f);
    if |f| < |c| {
      LargestSnoc(Init(coarse), c[..|c| - |f|]);
    } else {
      assert f == c;
    }
  }

  lemma {:induction false} CoarserIsLarger(fine: seq<Group>, coarse: seq<Group>)
    requires Coarsens(fine, coarse)
    ensures LargestBytes(fine) <= LargestBytes(coarse)
    decreases |fine|
  {
    hide EndsWith, CutOff;
    if |fine| > 0 {
      CoarserIsLarger(Init(fine), CutOff(coarse, Last(fine)));
      CutOffIsSmaller(coarse, Last(fine));
    }
  }

  /** The largest of the reported bursts is the largest group. */
  lemma LargestIsReported(groups: seq<Group>, b: Burst)
    requires b in Summaries(groups) && forall c | c in Summaries(groups) :: c.bytes <= b.bytes
    ensures b.bytes == LargestBytes(groups)
  {
    LargestBounds(groups);
  }

  lemma {:induction false} LargestBounds(groups: seq<Group>)
    ensures forall c | c in Summaries(groups) :: c.bytes <= LargestBytes(groups)
    ensures groups != [] ==> exists c :: c in Summaries(groups) && c.bytes == LargestBytes(groups)
  {
    if |groups| > 0 {
      LargestBounds(Init(groups));
      var last := Summary(Last(groups));
      assert Summaries(groups) == Summaries(Init(groups)) + [last];
      assert last in Summaries(groups);
    }
  }

  // The size of the largest burst at one threshold, 0 without bursts.
  method Sensitivity(packets: seq<Packet>, gap: int) returns (bytes: nat)
    ensures bytes == LargestBytes(Groups(Ordered(packets), gap))
  {
    hide Groups, LargestBytes, Sort, Filter, Summaries;
    ghost var groups := Groups(Ordered(packets), gap);
    var bursts := BurstsAt(packets, gap);
    if |bursts| == 0 {
      NoLargest(groups);
      return 0;
    }
    var largest := Largest(bursts);
    LargestIsReported(groups, largest);
    bytes := largest.bytes;
  }

  lemma NoLargest(groups: seq<Group>)
    requires |groups| == 0
    ensures LargestBytes(groups) == 0
  {
  }

  /** The reported sensitivities never decrease with the threshold. */
  lemma SensitivityIsMonotone(packets: seq<Packet>, gap: int, gap': int)
    requires gap <= gap'
    ensures LargestBytes(Groups(Ordered(packets), gap)) <= LargestBytes(Groups(Ordered(packets), gap'))
  {
    LargerGapCoarsens(Ordered(packets), gap, gap');
    CoarserIsLarger(Groups(Ordered(packets), gap), Groups(Ordered(packets), gap'));
  }

  // `max(bursts, key=bytes)`: the first burst of the largest size.
  method Largest(bursts: seq<Burst>) returns (largest: Burst)
    requires |bursts| > 0
    ensures largest in bursts && forall b | b in bursts :: b.bytes <= largest.bytes
    ensures exists k :: 0 <= k < |bursts| && bursts[k] == largest && forall j | 0 <= j < k :: bursts[j].bytes < largest.bytes
  {
    largest := bursts[0];
    ghost var at := 0;
    for n := 1 to |bursts|
      invariant 0 <= at < n && bursts[at] == largest
      invariant forall j | 0 <= j < n :: bursts[j].bytes <= largest.bytes
      invariant forall j | 0 <= j < at :: bursts[j].bytes < largest.bytes
    {
      if bursts[n].bytes > largest.bytes {
        largest := bursts[n];
        at := n;
      }
    }
  }

  // ------------------------------------------------------------ the loop of the classifier

  // `classify_stream` filters before it sorts and keeps the open burst in the list.
  method ClassifierBursts(packets: seq<Packet>) returns (bursts: seq<Burst>)
    ensures bursts == Summaries(Groups(Ordered(packets), 200_000))
  {
    hide Groups, Sort, Filter, Summary, Summaries;
    var data := Sort(Filter(packets, HasPayload), Time);
    FilterCommutesWithSort(packets, Time, HasPayload);
    bursts := [];
    NoBursts(data);
    for n := 0 to |data|
      invariant Open(bursts, Groups(data[..n], 200_000))
    {
      var p := data[n];
      assert data[..n + 1] == data[..n] + [p];
      NextClassified(data[..n], p, bursts);
      if |bursts| > 0 && Last(bursts).fromClient == p.fromClient && p.ts - Last(bursts).end <= 200_000 {
        var b := Last(bursts);
        bursts := bursts[|bursts| - 1 := b.(end := p.ts, bytes := b.bytes + p.length, records := b.records + 1)];
      } else {
        bursts := bursts + [Burst(p.fromClient, p.ts, p.ts, p.length, 1)];
      }
    }
    assert data[..|data|] == data;
  }

  // The list with its last burst still open.
  ghost predicate Open(bursts: seq<Burst>, groups: seq<Group>) {
    bursts == Summaries(groups)
  }

  lemma NoBursts(data: seq<Packet>)
    ensures Open([], Groups(data[..0], 200_000))
  {
  }

  lemma NextClassified(records: seq<Packet>, p: Packet, bursts: seq<Burst>)
    requires Open(bursts, Groups(records, 200_000))
    ensures
      if |bursts| > 0 && Last(bursts).fromClient == p.fromClient && p.ts - Last(bursts).end <= 200_000 then
        var b := Last(bursts);
        Open(bursts[|bursts| - 1 := b.(end := p.ts, bytes := b.bytes + p.length, records := b.records + 1)],
             Groups(records + [p], 200_000))
      else Open(bursts + [Burst(p.fromClient, p.ts, p.ts, p.length, 1)], Groups(records + [p], 200_000))
  {
    hide Groups, Summary, Summaries;
    NoSummaries();
    if |bursts| == 0 {
      NextRecord(records, p, 200_000, [], None);
      assert [] + [Burst(p.fromClient, p.ts, p.ts, p.length, 1)] == bursts + [Burst(p.fromClient, p.ts, p.ts, p.length, 1)];
    } else {
      var b := Last(bursts);
      assert Init(bursts) + [b] == bursts;
      NextRecord(records, p, 200_000, Init(bursts), Some(b));
      var grown := b.(end := p.ts, bytes := b.bytes + p.length, records := b.records + 1);
      assert Init(bursts) + [grown] == bursts[|bursts| - 1 := grown];
    }
  }
}
