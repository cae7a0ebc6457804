/**
 What holds of every log the indexer can reach, and how a row changes by one record.
 */
module LedgerFacts {
  import opened Wrappers
  import opened Packet
  import opened Sequences
  import opened Ledger

  // ------------------------------------------------------------ keys and generations

  lemma {:induction false} KeyOfIsStable(log: Log, e: Entry, i: nat)
    requires Grown(log + [e]) && i < FlowCount(log)
    ensures KeyOf(log + [e], i) == KeyOf(log, i)
  {
    Snoc(log, e);
    FlowsHaveOneKey(log, i);
    MembersSnoc(log, e, i);
  }

  lemma {:induction false} KeyCountIsStable(log: Log, e: Entry, n: nat, key: FlowKey)
    requires Grown(log + [e]) && n <= FlowCount(log)
    ensures KeyCount(log + [e], n, key) == KeyCount(log, n, key)
  {
    if n > 0 {
      KeyCountIsStable(log, e, n - 1, key);
      KeyOfIsStable(log, e, n - 1);
    }
  }

  /** The flow found by key is the newest one with that key, and is found whenever there is one. */
  lemma {:induction false} LatestIsNewest(log: Log, key: FlowKey, i: nat)
    requires Grown(log) && i < FlowCount(log) && KeyOf(log, i) == Some(key)
    ensures LatestWithKey(log, key).Some? && i <= LatestWithKey(log, key).value
  {
    var before, e := Init(log), Last(log);
    assert log == before + [e];
    PlaceIsBounded(before, e.item);
    if i < FlowCount(before) {
      KeyOfIsStable(before, e, i);
      LatestIsNewest(before, key, i);
    } else {
      NoMembersBeyondCount(before, i);
      MembersSnoc(before, e, i);
    }
  }

  /** Every generation of a tuple but the newest is closed. */
  lemma {:induction false} OlderGenerationsAreClosed(log: Log, i: nat, j: nat)
    requires Grown(log) && i < j < FlowCount(log) && KeyOf(log, i) == KeyOf(log, j)
    ensures Closed(Members(log, i))
  {
    var before, e := Init(log), Last(log);
    assert log == before + [e];
    PlaceIsBounded(before, e.item);
    FlowsHaveOneKey(log, i);
    MembersSnoc(before, e, i);
    KeyOfIsStable(before, e, i);
    if j < FlowCount(before) {
      KeyOfIsStable(before, e, j);
      OlderGenerationsAreClosed(before, i, j);
      if e.owner == i {
        ClosedIsFinal(Members(before, i), e.item);
      }
    } else {
      NoMembersBeyondCount(before, j);
      MembersSnoc(before, e, j);
      var key := KeyOf(log, i).value;
      LatestIsNewest(before, key, i);
      var newest := LatestWithKey(before, key).value;
      KeyOwnerBounded(before, key);
      KeyOwnerHasKey(before, key);
      if i < newest {
        OlderGenerationsAreClosed(before, i, newest);
      }
    }
  }

  lemma {:induction false} KeyCountGrows(log: Log, m: nat, n: nat, key: FlowKey)
    requires m <= n
    ensures KeyCount(log, m, key) <= KeyCount(log, n, key)
    ensures m < n && KeyOf(log, m) == Some(key) ==> KeyCount(log, m, key) < KeyCount(log, n, key)
    decreases n
  {
    if m < n {
      KeyCountGrows(log, m, n - 1, key);
    }
  }

  /** The generations of a tuple are numbered in creation order, without gaps, from zero. */
  lemma {:induction false} GenerationsAreDense(log: Log, n: nat, key: FlowKey, g: nat)
    requires g < KeyCount(log, n, key)
    ensures exists i: nat :: i < n && KeyOf(log, i) == Some(key) && KeyCount(log, i, key) == g
  {
    if KeyOf(log, n - 1) == Some(key) && g == KeyCount(log, n - 1, key) {
      assert n - 1 < n && KeyOf(log, n - 1) == Some(key) && KeyCount(log, n - 1, key) == g;
    } else {
      GenerationsAreDense(log, n - 1, key, g);
    }
  }

  lemma GenerationsFollowCreation(log: Log, i: nat, j: nat)
    requires |log| < NO_REF && i < j && KeyOf(log, i).Some? && KeyOf(log, i) == KeyOf(log, j)
    ensures Row(log, i).generation < Row(log, j).generation
  {
    KeyCountGrows(log, i, j, KeyOf(log, i).value);
  }

  // ------------------------------------------------------------ fragments

  /** The flow found by fragment key owns a record that carries the key. */
  lemma {:induction false} FragmentOwnerCarriesKey(log: Log, fk: FragmentKey) returns (x: Item)
    requires LatestWithFragment(log, fk).Some?
    ensures x in Members(log, LatestWithFragment(log, fk).value) && x.packet.fragment == Some(fk)
  {
    if Last(log).item.packet.fragment == Some(fk) {
      x := Last(log).item;
    } else {
      x := FragmentOwnerCarriesKey(Init(log), fk);
    }
  }

  /** Every later fragment of a flow follows a record of the same flow with the same fragment key. */
  lemma {:induction false} LaterFragmentsFollow(log: Log, i: nat, n: nat)
    requires Grown(log) && n < |Members(log, i)| && Members(log, i)[n].packet.nonInitial
    ensures exists m :: 0 <= m < n && Members(log, i)[m].packet.fragment == Members(log, i)[n].packet.fragment
  {
    var before, e := Init(log), Last(log);
    assert log == before + [e];
    MembersSnoc(before, e, i);
    if n < |Members(before, i)| {
      LaterFragmentsFollow(before, i, n);
      var m :| 0 <= m < n && Members(before, i)[m].packet.fragment == Members(before, i)[n].packet.fragment;
      assert Members(log, i)[m].packet.fragment == Members(log, i)[n].packet.fragment;
    } else {
      var x := FragmentOwnerCarriesKey(before, e.item.packet.fragment.value);
      var m :| 0 <= m < n && Members(before, i)[m] == x;
      assert Members(log, i)[m].packet.fragment == Members(log, i)[n].packet.fragment;
    }
  }

  // ------------------------------------------------------------ rows, one record at a time

  lemma RowOfOtherFlow(log: Log, e: Entry, i: nat)
    requires Grown(log + [e]) && |log| + 1 < NO_REF && i < FlowCount(log) && e.owner != i
    requires KeyOf(log, i).Some?
    ensures KeyOf(log + [e], i).Some?
    ensures Row(log + [e], i) == Row(log, i)
  {
    Snoc(log, e);
    MembersSnoc(log, e, i);
    KeyCountIsStable(log, e, i, KeyOf(log, i).value);
  }

  lemma PositionsSnoc(log: Log, e: Entry)
    ensures LastPosition(log + [e], e.owner) == Some(|log|)
    ensures FirstPosition(log + [e], e.owner)
         == if FirstPosition(log, e.owner).Some? then FirstPosition(log, e.owner) else Some(|log|)
  {
    Snoc(log, e);
  }

  lemma {:induction false} OwnersHavePositions(log: Log, i: nat)
    ensures FirstPosition(log, i).Some? <==> Members(log, i) != []
    ensures LastPosition(log, i).Some? <==> Members(log, i) != []
  {
    if |log| > 0 {
      OwnersHavePositions(Init(log), i);
    }
  }

  function OrFin(mask: nat, x: Item): nat {
    (if mask == 1 || mask == 3 || FinFrom(x, true) then 1 else 0) +
    (if mask == 2 || mask == 3 || FinFrom(x, false) then 2 else 0)
  }

  lemma FlagsSnoc(items: seq<Item>, x: Item)
    ensures Saw(items + [x], SYN) == (Saw(items, SYN) || Flagged(x, SYN))
    ensures Saw(items + [x], RST) == (Saw(items, RST) || Flagged(x, RST))
    ensures FinMask(items + [x]) == OrFin(FinMask(items), x)
    ensures Closed(items + [x]) == (Saw(items, RST) || Flagged(x, RST) || OrFin(FinMask(items), x) == 3)
  {
    SawSnoc(items, x);
  }

  lemma SumsSnoc(items: seq<Item>, x: Item)
    ensures Sum(items + [x], Captured) == Sum(items, Captured) + x.incl
    ensures Sum(items + [x], Payload) == Sum(items, Payload) + Payload(x)
    ensures Sum(items + [x], LeftPayload) == Sum(items, LeftPayload) + LeftPayload(x)
    ensures Sum(items + [x], RightPayload) == Sum(items, RightPayload) + RightPayload(x)
    ensures Sum(items + [x], ZeroWindow) == Sum(items, ZeroWindow) + ZeroWindow(x)
  {
    SumSnoc(items, x, Captured);
    SumSnoc(items, x, Payload);
    SumSnoc(items, x, LeftPayload);
    SumSnoc(items, x, RightPayload);
    SumSnoc(items, x, ZeroWindow);
  }

  /** The row of the flow that received the record: every running total moves by that record. */
  lemma RowOfGrownFlow(log: Log, e: Entry)
    requires Grown(log + [e]) && |log| + 1 < NO_REF && e.owner < FlowCount(log)
    requires KeyOf(log, e.owner).Some?
    ensures KeyOf(log + [e], e.owner).Some?
    ensures var f, x := Row(log, e.owner), e.item;
            Row(log + [e], e.owner) == f.(
              lastFrame := x.frame, lastTs := x.ts, packets := f.packets + 1,
              capturedBytes := f.capturedBytes + x.incl,
              payloadBytes := f.payloadBytes + Payload(x),
              leftPayloadBytes := f.leftPayloadBytes + LeftPayload(x),
              rightPayloadBytes := f.rightPayloadBytes + RightPayload(x),
              synSeen := f.synSeen || Flagged(x, SYN),
              finMask := OrFin(f.finMask, x),
              rstSeen := f.rstSeen || Flagged(x, RST),
              zeroWindowEvents := f.zeroWindowEvents + ZeroWindow(x),
              closed := f.rstSeen || Flagged(x, RST) || OrFin(f.finMask, x) == 3,
              lastRef := |log|)
  {
    hide Sum, Saw, SawFin, FinMask, Closed, Flagged, FinFrom, OrFin, Payload, LeftPayload, RightPayload, ZeroWindow;
    hide FirstPosition, LastPosition, KeyCount, Members, Grown;
    var i, items := e.owner, Members(log, e.owner);
    MembersSnoc(log, e, i);
    KeyCountIsStable(log, e, i, KeyOf(log, i).value);
    FlagsSnoc(items, e.item);
    SumsSnoc(items, e.item);
    PositionsSnoc(log, e);
    OwnersHavePositions(log, i);
  }

  lemma NothingYet()
    ensures Saw([], SYN) == Saw([], RST) == false && FinMask([]) == 0
    ensures Sum([], Captured) == Sum([], Payload) == Sum([], LeftPayload) == Sum([], RightPayload) == 0
    ensures Sum([], ZeroWindow) == 0
  {
  }

  lemma RowOfNewFlow(log: Log, e: Entry)
    requires Grown(log + [e]) && |log| + 1 < NO_REF && e.owner == FlowCount(log) && e.item.packet.key.Some?
    ensures KeyOf(log + [e], e.owner) == e.item.packet.key
    ensures var x, key := e.item, e.item.packet.key.value;
            Row(log + [e], e.owner) == Flow(
              e.owner, KeyCount(log, e.owner, key), key, x.frame, x.frame, x.ts, x.ts, 1, x.incl,
              Payload(x), LeftPayload(x), RightPayload(x), x.packet.srcIsLeft, Flagged(x, SYN), OrFin(0, x),
              Flagged(x, RST), ZeroWindow(x), Flagged(x, RST) || OrFin(0, x) == 3, |log|, |log|)
  {
    hide Sum, Saw, SawFin, FinMask, Closed, Flagged, FinFrom, OrFin, Payload, LeftPayload, RightPayload, ZeroWindow;
    hide FirstPosition, LastPosition, KeyCount, Members, Grown;
    var i := e.owner;
    NoMembersBeyondCount(log, i);
    MembersSnoc(log, e, i);
    KeyCountIsStable(log, e, i, e.item.packet.key.value);
    FlagsSnoc([], e.item);
    SumsSnoc([], e.item);
    NothingYet();
    PositionsSnoc(log, e);
    OwnersHavePositions(log, i);
    assert [] + [e.item] == [e.item];
  }
}
