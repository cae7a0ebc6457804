/**
 The reference meaning of indexing. A log lists the TCP records that were given to a flow,
 each with its owner. Where the indexer consults hash maps and running totals, the
 functions here search and sum over the log.
 */
module Ledger {
  import opened Wrappers
  import opened Bytes
  import opened Sequences
  import opened Packet

  const NO_REF: u64 := 0xFFFF_FFFF_FFFF_FFFF

  // A TCP record: its source frame, its place in the capture, its time in nanoseconds.
  datatype Item = Item(frame: nat, offset: nat, incl: nat, ts: int, packet: TcpPacket)

  datatype Entry = Entry(item: Item, owner: nat)

  type Log = seq<Entry>

  datatype Flow = Flow(
    id: nat,
    generation: nat,
    key: FlowKey,
    firstFrame: nat,
    lastFrame: nat,
    firstTs: int,
    lastTs: int,
    packets: nat,
    capturedBytes: nat,
    payloadBytes: nat,
    leftPayloadBytes: nat,
    rightPayloadBytes: nat,
    clientIsLeft: bool,
    synSeen: bool,
    finMask: nat,
    rstSeen: bool,
    zeroWindowEvents: nat,
    closed: bool,
    firstRef: u64,
    lastRef: u64)

  // ------------------------------------------------------------ searching a log

  // The records of flow `i`, in capture order.
  function Members(log: Log, i: nat): seq<Item> {
    if |log| == 0 then []
    else if Last(log).owner == i then Members(Init(log), i) + [Last(log).item]
    else Members(Init(log), i)
  }

  function FlowCount(log: Log): nat {
    if |log| == 0 then 0
    else if FlowCount(Init(log)) <= Last(log).owner then Last(log).owner + 1
    else FlowCount(Init(log))
  }

  // The owner of the most recent record that opens with `key`.
  function LatestWithKey(log: Log, key: FlowKey): Option<nat> {
    if |log| == 0 then None
    else if Last(log).item.packet.key == Some(key) then Some(Last(log).owner)
    else LatestWithKey(Init(log), key)
  }

  // The owner of the most recent record that carries `fk`.
  function LatestWithFragment(log: Log, fk: FragmentKey): Option<nat> {
    if |log| == 0 then None
    else if Last(log).item.packet.fragment == Some(fk) then Some(Last(log).owner)
    else LatestWithFragment(Init(log), fk)
  }

  // Position in the log of the last record of flow `i`.
  function LastPosition(log: Log, i: nat): (r: Option<nat>)
    ensures r.Some? ==> r.value < |log| && log[r.value].owner == i
  {
    if |log| == 0 then None
    else if Last(log).owner == i then Some(|log| - 1)
    else LastPosition(Init(log), i)
  }

  function FirstPosition(log: Log, i: nat): (r: Option<nat>)
    ensures r.Some? ==> r.value < |log| && log[r.value].owner == i
  {
    if |log| == 0 then None
    else if FirstPosition(Init(log), i).Some? then FirstPosition(Init(log), i)
    else if Last(log).owner == i then Some(|log| - 1)
    else None
  }

  // ------------------------------------------------------------ what a flow's records say

  predicate Flagged(x: Item, flag: nat)
    requires flag > 0
  {
    !x.packet.nonInitial && Bit(x.packet.flags, flag)
  }

  predicate FinFrom(x: Item, left: bool) {
    Flagged(x, FIN) && x.packet.srcIsLeft == left
  }

  predicate Saw(items: seq<Item>, flag: nat)
    requires flag > 0
  {
    exists x | x in items :: Flagged(x, flag)
  }

  predicate SawFin(items: seq<Item>, left: bool) {
    exists x | x in items :: FinFrom(x, left)
  }

  // A connection is over once a reset was seen or both sides have finished.
  predicate Closed(items: seq<Item>) {
    Saw(items, RST) || (SawFin(items, true) && SawFin(items, false))
  }

  function FinMask(items: seq<Item>): nat {
    (if SawFin(items, true) then 1 else 0) + (if SawFin(items, false) then 2 else 0)
  }

  function Sum(items: seq<Item>, f: Item -> nat): nat {
    if |items| == 0 then 0 else Sum(Init(items), f) + f(Last(items))
  }

  function Captured(x: Item): nat { x.incl }

  function Payload(x: Item): nat { if x.packet.nonInitial then 0 else x.packet.payload }

  function LeftPayload(x: Item): nat { if x.packet.srcIsLeft then Payload(x) else 0 }

  function RightPayload(x: Item): nat { if x.packet.srcIsLeft then 0 else Payload(x) }

  function ZeroWindow(x: Item): nat { if !x.packet.nonInitial && x.packet.zeroWindow then 1 else 0 }

  // ------------------------------------------------------------ the flow of a record

  predicate OpensConnection(p: TcpPacket) {
    Bit(p.flags, SYN) && !Bit(p.flags, ACK)
  }

  // The flow a record goes to: a later fragment follows the last record with its fragment
  // key, any other record goes to the newest connection of its tuple, unless it opens a
  // new one. None: the record is not indexed.
  function Place(log: Log, x: Item): Option<nat> {
    if x.packet.nonInitial then
      match x.packet.fragment
      case None => None
      case Some(fk) => LatestWithFragment(log, fk)
    else
      match LatestWithKey(log, x.packet.key.value)
      case None => Some(FlowCount(log))
      case Some(i) => if OpensConnection(x.packet) && Closed(Members(log, i)) then Some(FlowCount(log)) else Some(i)
  }

  function Extend(log: Log, x: Item): Log {
    match Place(log, x)
    case None => log
    case Some(i) => log + [Entry(x, i)]
  }

  function Replay(items: seq<Item>): Log {
    if |items| == 0 then [] else Extend(Replay(Init(items)), Last(items))
  }

  // A log in which every record went where Place sends it.
  predicate Grown(log: Log) {
    |log| > 0 ==> Grown(Init(log)) && Place(Init(log), Last(log).item) == Some(Last(log).owner)
  }

  lemma {:induction false} ReplayGrows(items: seq<Item>)
    ensures Grown(Replay(items))
  {
    if |items| > 0 {
      ReplayGrows(Init(items));
      var log := Replay(Init(items));
      if Place(log, Last(items)).Some? {
        Snoc(log, Entry(Last(items), Place(log, Last(items)).value));
      }
    }
  }

  // ------------------------------------------------------------ the row of a flow

  function KeyOf(log: Log, i: nat): Option<FlowKey> {
    if |Members(log, i)| == 0 then None else Members(log, i)[0].packet.key
  }

  // How many of the first `n` flows have this key.
  function KeyCount(log: Log, n: nat, key: FlowKey): (c: nat)
    ensures c <= n
  {
    if n == 0 then 0 else KeyCount(log, n - 1, key) + (if KeyOf(log, n - 1) == Some(key) then 1 else 0)
  }

  function AsRef(position: Option<nat>): u64
    requires position.Some? ==> position.value < NO_REF
  {
    if position.None? then NO_REF else position.value
  }

  // The row of flow `i`, computed from its records alone.
  function Row(log: Log, i: nat): Flow
    requires |log| < NO_REF && KeyOf(log, i).Some?
  {
    var items := Members(log, i);
    Flow(i, KeyCount(log, i, KeyOf(log, i).value), KeyOf(log, i).value,
         items[0].frame, Last(items).frame, items[0].ts, Last(items).ts,
         |items|, Sum(items, Captured), Sum(items, Payload), Sum(items, LeftPayload), Sum(items, RightPayload),
         items[0].packet.srcIsLeft, Saw(items, SYN), FinMask(items), Saw(items, RST), Sum(items, ZeroWindow),
         Closed(items), AsRef(FirstPosition(log, i)), AsRef(LastPosition(log, i)))
  }

  // ------------------------------------------------------------ one more record

  lemma MembersSnoc(log: Log, e: Entry, i: nat)
    ensures Members(log + [e], i) == if e.owner == i then Members(log, i) + [e.item] else Members(log, i)
  {
    Snoc(log, e);
  }

  lemma SumSnoc(items: seq<Item>, x: Item, f: Item -> nat)
    ensures Sum(items + [x], f) == Sum(items, f) + f(x)
  {
    Snoc(items, x);
  }

  lemma SawSnoc(items: seq<Item>, x: Item)
    ensures forall flag | flag > 0 :: Saw(items + [x], flag) <==> Saw(items, flag) || Flagged(x, flag)
    ensures forall left :: SawFin(items + [x], left) <==> SawFin(items, left) || FinFrom(x, left)
  {
    assert forall y :: y in items + [x] <==> y in items || y == x;
    assert x in items + [x];
  }

  // Closing is final: no later record reopens a connection.
  lemma ClosedIsFinal(items: seq<Item>, x: Item)
    requires Closed(items)
    ensures Closed(items + [x])
  {
    SawSnoc(items, x);
  }

  lemma LeftAndRightMakePayload(items: seq<Item>)
    ensures Sum(items, LeftPayload) + Sum(items, RightPayload) == Sum(items, Payload)
  {
  }

  // ------------------------------------------------------------ invariants of a grown log

  lemma {:induction false} OwnersBelowCount(log: Log, k: nat)
    requires k < |log|
    ensures log[k].owner < FlowCount(log)
  {
    if k < |log| - 1 {
      OwnersBelowCount(Init(log), k);
    }
  }

  lemma {:induction false} CountIsBounded(log: Log)
    requires Grown(log)
    ensures FlowCount(log) <= |log|
  {
    if |log| > 0 {
      CountIsBounded(Init(log));
      PlaceIsBounded(Init(log), Last(log).item);
    }
  }

  lemma {:induction false} PlaceIsBounded(log: Log, x: Item)
    ensures Place(log, x).Some? ==> Place(log, x).value <= FlowCount(log)
    ensures Place(log, x).Some? && x.packet.nonInitial ==> Place(log, x).value < FlowCount(log)
  {
    if x.packet.nonInitial && x.packet.fragment.Some? {
      FragmentOwnerBounded(log, x.packet.fragment.value);
    } else if !x.packet.nonInitial {
      KeyOwnerBounded(log, x.packet.key.value);
    }
  }

  lemma {:induction false} FragmentOwnerBounded(log: Log, fk: FragmentKey)
    ensures var r := LatestWithFragment(log, fk); r.Some? ==> r.value < FlowCount(log)
  {
    if |log| > 0 {
      FragmentOwnerBounded(Init(log), fk);
    }
  }

  lemma {:induction false} KeyOwnerBounded(log: Log, key: FlowKey)
    ensures var r := LatestWithKey(log, key); r.Some? ==> r.value < FlowCount(log)
  {
    if |log| > 0 {
      KeyOwnerBounded(Init(log), key);
    }
  }

  lemma {:induction false} NoMembersBeyondCount(log: Log, i: nat)
    requires i >= FlowCount(log)
    ensures Members(log, i) == []
  {
    if |log| > 0 {
      NoMembersBeyondCount(Init(log), i);
    }
  }

  // Every flow opens with a record that has a key, and keeps that key.
  lemma {:induction false} FlowsHaveOneKey(log: Log, i: nat)
    requires Grown(log) && i < FlowCount(log)
    ensures KeyOf(log, i).Some?
    ensures forall x | x in Members(log, i) :: x.packet.nonInitial || x.packet.key == KeyOf(log, i)
  {
    var before, e := Init(log), Last(log);
    MembersSnoc(before, e, i);
    assert log == before + [e];
    PlaceIsBounded(before, e.item);
    if i < FlowCount(before) {
      FlowsHaveOneKey(before, i);
      if e.owner == i && !e.item.packet.nonInitial {
        KeyOwnerHasKey(before, e.item.packet.key.value);
      }
    } else {
      NoMembersBeyondCount(before, i);
      assert e.owner == i;
    }
  }

  // The owner found by key has that key, and it is the newest flow that does.
  lemma {:induction false} KeyOwnerHasKey(log: Log, key: FlowKey)
    requires Grown(log)
    ensures LatestWithKey(log, key).Some? ==> KeyOf(log, LatestWithKey(log, key).value) == Some(key)
  {
    if |log| > 0 {
      var before, e := Init(log), Last(log);
      KeyOwnerHasKey(before, key);
      assert log == before + [e];
      var r := LatestWithKey(log, key);
      if r.Some? {
        MembersSnoc(before, e, r.value);
        if e.item.packet.key == Some(key) && LatestWithKey(before, key) != r {
          NoMembersBeyondCount(before, r.value);
        }
      }
    }
  }
}
