/**
 When a connection opens and where a record goes, said of the records themselves: flag bits as
 numbers, positions in the log, nothing of what the indexer computes.
 */
module Connections {
  import opened Wrappers
  import opened Bytes
  import opened Packet
  import opened Sequences
  import opened Ledger
  import opened LedgerFacts
  import opened Capture

  // The record starts a segment with this flag bit.
  predicate Has(x: Item, weight: nat)
    requires weight > 0
  {
    !x.packet.nonInitial && x.packet.flags / weight % 2 == 1
  }

  // SYN without ACK.
  predicate Opening(x: Item) {
    Has(x, 2) && !Has(x, 16)
  }

  // A reset was seen, or each side has finished.
  ghost predicate Ended(items: seq<Item>) {
    || (exists x :: x in items && Has(x, 4))
    || ((exists x :: x in items && Has(x, 1) && x.packet.srcIsLeft)
        && (exists x :: x in items && Has(x, 1) && !x.packet.srcIsLeft))
  }

  lemma ClosedMeansEnded(items: seq<Item>)
    ensures Closed(items) <==> Ended(items)
  {
    FlagsMean(items);
  }

  lemma OpensMeansOpening(x: Item)
    requires !x.packet.nonInitial
    ensures OpensConnection(x.packet) <==> Opening(x)
  {
  }

  // ------------------------------------------------------------ a second connection of a tuple

  /** Once a connection has ended, an opening record of its tuple no longer joins it. */
  lemma {:induction false} NoOpeningAfterEnd(log: Log, i: nat, k: nat)
    requires Grown(log) && 0 < k < |Members(log, i)| && Ended(Members(log, i)[..k])
    ensures !Opening(Members(log, i)[k])
  {
    hide Ended;
    var before, e := Init(log), Last(log);
    assert log == before + [e];
    MembersSnoc(before, e, i);
    if k < |Members(before, i)| {
      assert Members(log, i)[..k] == Members(before, i)[..k];
      NoOpeningAfterEnd(before, i, k);
    } else {
      assert Members(log, i)[..k] == Members(before, i);
      if i >= FlowCount(before) {
        NoMembersBeyondCount(before, i);
      }
      if !e.item.packet.nonInitial {
        OpensMeansOpening(e.item);
        ClosedMeansEnded(Members(before, i));
      }
    }
  }

  /** Every flow with an earlier flow of its tuple opens with SYN without ACK. */
  lemma {:induction false} LaterFlowsOpen(log: Log, i: nat, j: nat)
    requires Grown(log) && i < j < FlowCount(log) && KeyOf(log, i) == KeyOf(log, j)
    ensures |Members(log, j)| > 0 && Opening(Members(log, j)[0])
  {
    hide Closed, OpensConnection;
    var before, e := Init(log), Last(log);
    assert log == before + [e];
    CountIsBounded(log);
    PlaceIsBounded(before, e.item);
    MembersSnoc(before, e, j);
    KeyOfIsStable(before, e, i);
    FlowsHaveOneKey(before, i);
    if j < FlowCount(before) {
      KeyOfIsStable(before, e, j);
      LaterFlowsOpen(before, i, j);
    } else {
      NoMembersBeyondCount(before, j);
      LatestIsNewest(before, e.item.packet.key.value, i);
      KeyOwnerBounded(before, e.item.packet.key.value);
      OpensMeansOpening(e.item);
    }
  }

  /** And the flow it follows had ended. */
  lemma FollowsEndedFlow(log: Log, i: nat, j: nat)
    requires Grown(log) && i < j < FlowCount(log) && KeyOf(log, i) == KeyOf(log, j)
    ensures Ended(Members(log, i))
  {
    hide Closed;
    OlderGenerationsAreClosed(log, i, j);
    ClosedMeansEnded(Members(log, i));
  }

  /** So it is in the index of every capture that can be scanned. */
  lemma ScannedConnections(c: bytes)
    requires Scanned(c).Ok?
    ensures var log := Scanned(c).value;
            && (forall i: nat, k | 0 < k < |Members(log, i)| && Ended(Members(log, i)[..k]) :: !Opening(Members(log, i)[k]))
            && (forall i: nat, j: nat | i < j < FlowCount(log) && KeyOf(log, i) == KeyOf(log, j) ::
                  |Members(log, j)| > 0 && Opening(Members(log, j)[0]) && Ended(Members(log, i)))
  {
    hide Members, Opening, Ended, FlowCount, KeyOf, Grown;
    var log := Scanned(c).value;
    ScannedIsGrown(c);
    forall i: nat, k | 0 < k < |Members(log, i)| && Ended(Members(log, i)[..k])
      ensures !Opening(Members(log, i)[k])
    {
      NoOpeningAfterEnd(log, i, k);
    }
    forall i: nat, j: nat | i < j < FlowCount(log) && KeyOf(log, i) == KeyOf(log, j)
      ensures |Members(log, j)| > 0 && Opening(Members(log, j)[0]) && Ended(Members(log, i))
    {
      LaterFlowsOpen(log, i, j);
      FollowsEndedFlow(log, i, j);
    }
  }

  lemma ScannedIsGrown(c: bytes)
    requires Scanned(c).Ok?
    ensures Grown(Scanned(c).value)
  {
    hide RecordsFrom, ReadFormat, ItemsOf, Replay, Grown;
    var f := ReadFormat(c).value;
    var records := RecordsFrom(c, f.little, HEADER, 0).value;
    RecordsAreLaidOut(c, f.little, HEADER, 0);
    ReplayGrows(ItemsOf(c, f.nanos, records));
  }

  // ------------------------------------------------------------ where every record goes

  // Entry `m` is the last of the first entries with that key, or that fragment key.
  ghost predicate LastWithKey(log: Log, m: int, key: FlowKey) {
    && 0 <= m < |log| && log[m].item.packet.key == Some(key)
    && forall l | m < l < |log| :: log[l].item.packet.key != Some(key)
  }

  ghost predicate LastWithFragment(log: Log, m: int, fk: FragmentKey) {
    && 0 <= m < |log| && log[m].item.packet.fragment == Some(fk)
    && forall l | m < l < |log| :: log[l].item.packet.fragment != Some(fk)
  }

  // The number of a new flow: one more than the largest so far.
  ghost predicate IsNew(log: Log, i: nat) {
    && (forall m | 0 <= m < |log| :: log[m].owner < i)
    && (i > 0 ==> exists m :: 0 <= m < |log| && log[m].owner == i - 1)
  }

  // Record `x`, coming after `log`, belongs to flow `i`: a later fragment to the flow of the last
  // record with its fragment key; any other record to the flow of the last record of its tuple,
  // unless there is none, or that flow has ended and the record is opening.
  ghost predicate Belongs(log: Log, x: Item, i: nat) {
    if x.packet.nonInitial then
      x.packet.fragment.Some? && exists m :: LastWithFragment(log, m, x.packet.fragment.value) && log[m].owner == i
    else
      var key := x.packet.key.value;
      if exists m :: LastWithKey(log, m, key) && !(Opening(x) && Ended(Members(log, log[m].owner)))
      then exists m :: LastWithKey(log, m, key) && log[m].owner == i
      else IsNew(log, i)
  }

  lemma {:induction false} KeySearchFinds(log: Log, key: FlowKey)
    ensures var r := LatestWithKey(log, key);
            if r.Some? then exists m :: LastWithKey(log, m, key) && log[m].owner == r.value
            else forall m | 0 <= m < |log| :: log[m].item.packet.key != Some(key)
  {
    if |log| > 0 {
      var before := Init(log);
      KeySearchFinds(before, key);
      if Last(log).item.packet.key == Some(key) {
        assert LastWithKey(log, |log| - 1, key);
      } else if LatestWithKey(before, key).Some? {
        var m :| LastWithKey(before, m, key) && before[m].owner == LatestWithKey(before, key).value;
        assert LastWithKey(log, m, key) && log[m].owner == before[m].owner;
      }
    }
  }

  lemma {:induction false} FragmentSearchFinds(log: Log, fk: FragmentKey)
    ensures var r := LatestWithFragment(log, fk);
            if r.Some? then exists m :: LastWithFragment(log, m, fk) && log[m].owner == r.value
            else forall m | 0 <= m < |log| :: log[m].item.packet.fragment != Some(fk)
  {
    if |log| > 0 {
      var before := Init(log);
      FragmentSearchFinds(before, fk);
      if Last(log).item.packet.fragment == Some(fk) {
        assert LastWithFragment(log, |log| - 1, fk);
      } else if LatestWithFragment(before, fk).Some? {
        var m :| LastWithFragment(before, m, fk) && before[m].owner == LatestWithFragment(before, fk).value;
        assert LastWithFragment(log, m, fk) && log[m].owner == before[m].owner;
      }
    }
  }

  lemma {:induction false} CountIsNew(log: Log)
    ensures IsNew(log, FlowCount(log))
  {
    if |log| > 0 {
      var before := Init(log);
      CountIsNew(before);
      if FlowCount(log) == FlowCount(before) && FlowCount(log) > 0 {
        var m :| 0 <= m < |before| && before[m].owner == FlowCount(log) - 1;
        assert log[m].owner == FlowCount(log) - 1;
      } else {
        assert log[|log| - 1].owner == Last(log).owner;
      }
      forall m | 0 <= m < |log|
        ensures log[m].owner < FlowCount(log)
      {
        OwnersBelowCount(log, m);
      }
    }
  }

  lemma OneNewFlow(log: Log, i: nat, j: nat)
    requires IsNew(log, i) && IsNew(log, j)
    ensures i == j
  {
  }

  /** Naive search places a record exactly where it belongs. */
  lemma PlaceMeansBelongs(log: Log, x: Item, i: nat)
    ensures Place(log, x) == Some(i) <==> Belongs(log, x, i)
  {
    hide Ended, Opening, Closed, OpensConnection, FlowCount, LatestWithKey, LatestWithFragment, Members, IsNew;
    CountIsNew(log);
    if IsNew(log, i) {
      OneNewFlow(log, i, FlowCount(log));
    }
    if x.packet.nonInitial {
      if x.packet.fragment.Some? {
        FragmentSearchFinds(log, x.packet.fragment.value);
      }
    } else {
      KeySearchFinds(log, x.packet.key.value);
      OpensMeansOpening(x);
      var r := LatestWithKey(log, x.packet.key.value);
      if r.Some? {
        ClosedMeansEnded(Members(log, r.value));
      }
    }
  }

  /** In the log of every scan every record is where it belongs, and only such logs are grown. */
  lemma {:induction false} GrownMeansBelongs(log: Log)
    ensures Grown(log) <==> forall n | 0 <= n < |log| :: Belongs(log[..n], log[n].item, log[n].owner)
  {
    hide Belongs, Place;
    if |log| > 0 {
      var before, e := Init(log), Last(log);
      GrownMeansBelongs(before);
      PlaceMeansBelongs(before, e.item, e.owner);
      assert log[..|log| - 1] == before;
      forall n | 0 <= n < |before|
        ensures before[..n] == log[..n] && before[n] == log[n]
      {
      }
    }
  }

  // No flow is found for a later fragment.
  ghost predicate LeftOut(log: Log, x: Item) {
    x.packet.nonInitial && forall m | 0 <= m < |log| ::
      x.packet.fragment.None? || log[m].item.packet.fragment != x.packet.fragment
  }

  lemma LeftOutMeans(log: Log, x: Item)
    ensures Place(log, x).None? <==> LeftOut(log, x)
  {
    hide Closed, LatestWithFragment;
    if x.packet.fragment.Some? {
      FragmentSearchFinds(log, x.packet.fragment.value);
    }
  }

  /** Record by record: what is left out leaves the log as it is, all else goes where it belongs. */
  lemma EveryRecordIsPlaced(items: seq<Item>, n: nat)
    requires n < |items|
    ensures var before, after, x := Replay(items[..n]), Replay(items[..n + 1]), items[n];
            if LeftOut(before, x) then after == before
            else exists i :: Belongs(before, x, i) && after == before + [Entry(x, i)]
  {
    hide Belongs, Place;
    var before, x := Replay(items[..n]), items[n];
    assert Init(items[..n + 1]) == items[..n];
    LeftOutMeans(before, x);
    if Place(before, x).Some? {
      PlaceMeansBelongs(before, x, Place(before, x).value);
    }
  }

  // ------------------------------------------------------------ what a row says

  lemma {:induction false} SumOfSame(items: seq<Item>, f: Item -> nat, g: Item -> nat)
    requires forall x | x in items :: f(x) == g(x)
    ensures Sum(items, f) == Sum(items, g)
  {
    if |items| > 0 {
      assert items == Init(items) + [Last(items)];
      SumOfSame(Init(items), f, g);
    }
  }

  /** The row of a flow, in the fields of its records. */
  lemma RowMeans(log: Log, i: nat)
    requires |log| < NO_REF && KeyOf(log, i).Some?
    ensures |Members(log, i)| > 0
    ensures var items, row := Members(log, i), Row(log, i);
            && row.packets == |items| && row.clientIsLeft == items[0].packet.srcIsLeft
            && row.key == items[0].packet.key.value
            && row.firstFrame == items[0].frame && row.lastFrame == items[|items| - 1].frame
            && row.firstTs == items[0].ts && row.lastTs == items[|items| - 1].ts
            && row.capturedBytes == Sum(items, (x: Item) => x.incl)
            && row.payloadBytes == Sum(items, (x: Item) => if x.packet.nonInitial then 0 else x.packet.payload)
            && row.leftPayloadBytes
               == Sum(items, (x: Item) => if !x.packet.nonInitial && x.packet.srcIsLeft then x.packet.payload else 0)
            && row.rightPayloadBytes
               == Sum(items, (x: Item) => if !x.packet.nonInitial && !x.packet.srcIsLeft then x.packet.payload else 0)
            && row.zeroWindowEvents
               == Sum(items, (x: Item) => if !x.packet.nonInitial && x.packet.zeroWindow then 1 else 0)
  {
    hide Sum, Members, KeyCount, FirstPosition, LastPosition, Closed, FinMask, Saw;
    var items := Members(log, i);
    SumOfSame(items, Captured, (x: Item) => x.incl);
    SumOfSame(items, Payload, (x: Item) => if x.packet.nonInitial then 0 else x.packet.payload);
    SumOfSame(items, LeftPayload, (x: Item) => if !x.packet.nonInitial && x.packet.srcIsLeft then x.packet.payload else 0);
    SumOfSame(items, RightPayload, (x: Item) => if !x.packet.nonInitial && !x.packet.srcIsLeft then x.packet.payload else 0);
    SumOfSame(items, ZeroWindow, (x: Item) => if !x.packet.nonInitial && x.packet.zeroWindow then 1 else 0);
  }

  /** A mark of the row stands when some record of the flow bears the bit. */
  lemma RowMarks(log: Log, i: nat)
    requires |log| < NO_REF && KeyOf(log, i).Some?
    ensures var items, row := Members(log, i), Row(log, i);
            && (row.synSeen <==> exists x :: x in items && Has(x, 2))
            && (row.rstSeen <==> exists x :: x in items && Has(x, 4))
            && (row.finMask % 2 == 1 <==> exists x :: x in items && Has(x, 1) && x.packet.srcIsLeft)
            && (row.finMask / 2 == 1 <==> exists x :: x in items && Has(x, 1) && !x.packet.srcIsLeft)
            && row.finMask < 4 && (row.closed <==> Ended(items))
  {
    hide Sum, Members, KeyCount, FirstPosition, LastPosition, Ended, KeyOf;
    ClosedMeansEnded(Members(log, i));
    FlagsMean(Members(log, i));
  }

  /** The row's references are the places of its first and last record in the log, its id is its flow. */
  lemma RowPoints(log: Log, i: nat)
    requires |log| < NO_REF && KeyOf(log, i).Some?
    ensures var row := Row(log, i);
            && row.id == i && 0 <= row.firstRef <= row.lastRef < |log|
            && log[row.firstRef].owner == log[row.lastRef].owner == i
            && (forall k | 0 <= k < |log| && log[k].owner == i :: row.firstRef <= k <= row.lastRef)
  {
    hide Members, KeyCount, FirstPosition, LastPosition, Sum, Closed, FinMask;
    FirstIsFirst(log, i);
    LastIsLast(log, i);
    MembersHavePlaces(log, i);
    var row := Row(log, i);
    assert row.firstRef == AsRef(FirstPosition(log, i)) && row.lastRef == AsRef(LastPosition(log, i)) && row.id == i;
  }

  lemma {:induction false} MembersHavePlaces(log: Log, i: nat)
    requires KeyOf(log, i).Some?
    ensures exists k :: 0 <= k < |log| && log[k].owner == i
  {
    if |log| > 0 && Last(log).owner != i {
      MembersHavePlaces(Init(log), i);
      var k :| 0 <= k < |Init(log)| && Init(log)[k].owner == i;
      assert log[k].owner == i;
    }
  }

  lemma {:induction false} FirstIsFirst(log: Log, i: nat)
    ensures forall k | 0 <= k < |log| && log[k].owner == i ::
              FirstPosition(log, i).Some? && FirstPosition(log, i).value <= k
  {
    if |log| > 0 {
      FirstIsFirst(Init(log), i);
      assert forall k | 0 <= k < |log| - 1 :: Init(log)[k] == log[k];
    }
  }

  lemma {:induction false} LastIsLast(log: Log, i: nat)
    ensures forall k | 0 <= k < |log| && log[k].owner == i ::
              LastPosition(log, i).Some? && k <= LastPosition(log, i).value
  {
    if |log| > 0 && Last(log).owner != i {
      LastIsLast(Init(log), i);
      assert forall k | 0 <= k < |log| - 1 :: Init(log)[k] == log[k];
    }
  }

  lemma FlagsMean(items: seq<Item>)
    ensures Saw(items, SYN) <==> exists x :: x in items && Has(x, 2)
    ensures Saw(items, RST) <==> exists x :: x in items && Has(x, 4)
    ensures SawFin(items, true) <==> exists x :: x in items && Has(x, 1) && x.packet.srcIsLeft
    ensures SawFin(items, false) <==> exists x :: x in items && Has(x, 1) && !x.packet.srcIsLeft
  {
  }

  /** The generation of a flow is the number of earlier flows of its tuple. */
  lemma GenerationCounts(log: Log, i: nat)
    requires |log| < NO_REF && KeyOf(log, i).Some?
    ensures Row(log, i).generation == |EarlierFlows(log, i, KeyOf(log, i))|
  {
    hide KeyOf;
    CountsEarlierFlows(log, i, KeyOf(log, i).value);
  }

  ghost function EarlierFlows(log: Log, n: nat, key: Option<FlowKey>): set<nat> {
    set j: nat | j < n && KeyOf(log, j) == key
  }

  lemma {:induction false} CountsEarlierFlows(log: Log, n: nat, key: FlowKey)
    ensures KeyCount(log, n, key) == |EarlierFlows(log, n, Some(key))|
  {
    hide KeyOf;
    if n > 0 {
      CountsEarlierFlows(log, n - 1, key);
      var before := EarlierFlows(log, n - 1, Some(key));
      assert EarlierFlows(log, n, Some(key)) == if KeyOf(log, n - 1) == Some(key) then before + {n - 1} else before;
    }
  }
}
