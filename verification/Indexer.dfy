/**
 The one-pass indexer (`scan`): hash maps and running rows, updated in place, proved equal
 to what searching and summing over the log gives.
 */
module Indexer {
  import opened Wrappers
  import opened Bytes
  import opened Packet
  import opened Sequences
  import opened Ledger
  import opened LedgerFacts
  import opened Capture
  import opened References

  function Get<K, V>(m: map<K, V>, k: K): Option<V> {
    if k in m then Some(m[k]) else None
  }

  // The generation of the newest flow with this key.
  function NewestGeneration(log: Log, key: FlowKey): Option<nat> {
    var n := KeyCount(log, FlowCount(log), key);
    if n == 0 then None else Some(n - 1)
  }

  // The number the next flow with this key gets.
  function NextGeneration(generations: map<FlowKey, nat>, key: FlowKey): nat {
    if key in generations then generations[key] + 1 else 0
  }

  // The hash maps answer what naive search over the log answers.
  ghost predicate MapsAgree(log: Log, active: map<FlowKey, nat>, generations: map<FlowKey, nat>,
                            fragments: map<FragmentKey, nat>) {
    && (forall key :: Get(active, key) == LatestWithKey(log, key))
    && (forall key :: Get(generations, key) == NewestGeneration(log, key))
    && (forall fk :: Get(fragments, fk) == LatestWithFragment(log, fk))
  }

  // The running rows are the rows computed from the log.
  ghost predicate RowsAgree(log: Log, flows: seq<Flow>)
    requires |log| < NO_REF
  {
    && |flows| == FlowCount(log)
    && forall i | 0 <= i < |flows| :: KeyOf(log, i).Some? && flows[i] == Row(log, i)
  }

  // A flow without packets yet, as pushed before its first record is accounted.
  function Blank(id: nat, generation: nat, key: FlowKey, x: Item): Flow {
    Flow(id, generation, key, x.frame, x.frame, 0, 0, 0, 0, 0, 0, 0, x.packet.srcIsLeft,
         false, 0, false, 0, false, NO_REF, NO_REF)
  }

  // The update of one flow by one of its records.
  function Accounted(flow: Flow, x: Item, ref: nat): Flow
    requires ref < NO_REF
  {
    flow.(
      firstTs := if flow.packets == 0 then x.ts else flow.firstTs,
      lastTs := x.ts, lastFrame := x.frame, packets := flow.packets + 1,
      capturedBytes := flow.capturedBytes + x.incl,
      payloadBytes := flow.payloadBytes + Payload(x),
      leftPayloadBytes := flow.leftPayloadBytes + LeftPayload(x),
      rightPayloadBytes := flow.rightPayloadBytes + RightPayload(x),
      synSeen := flow.synSeen || Flagged(x, SYN),
      finMask := OrFin(flow.finMask, x),
      rstSeen := flow.rstSeen || Flagged(x, RST),
      zeroWindowEvents := flow.zeroWindowEvents + ZeroWindow(x),
      closed := flow.closed || Flagged(x, RST) || (!x.packet.nonInitial && OrFin(flow.finMask, x) == 3),
      firstRef := if flow.firstRef == NO_REF then ref else flow.firstRef,
      lastRef := ref)
  }

  // ------------------------------------------------------------ one more entry

  lemma CountSnoc(log: Log, e: Entry)
    requires e.owner <= FlowCount(log)
    ensures FlowCount(log + [e]) == if e.owner == FlowCount(log) then FlowCount(log) + 1 else FlowCount(log)
  {
    Snoc(log, e);
  }

  lemma ActiveSnoc(log: Log, e: Entry, active: map<FlowKey, nat>)
    requires forall key :: Get(active, key) == LatestWithKey(log, key)
    ensures var active' := if e.item.packet.key.Some? then active[e.item.packet.key.value := e.owner] else active;
            forall key :: Get(active', key) == LatestWithKey(log + [e], key)
  {
    Snoc(log, e);
  }

  lemma FragmentsSnoc(log: Log, e: Entry, fragments: map<FragmentKey, nat>)
    requires forall fk :: Get(fragments, fk) == LatestWithFragment(log, fk)
    ensures var fragments' := if e.item.packet.fragment.Some? then fragments[e.item.packet.fragment.value := e.owner]
                              else fragments;
            forall fk :: Get(fragments', fk) == LatestWithFragment(log + [e], fk)
  {
    Snoc(log, e);
  }

  lemma KeyCountSnoc(log: Log, e: Entry, key: FlowKey)
    requires Grown(log + [e]) && e.owner <= FlowCount(log)
    ensures KeyCount(log + [e], FlowCount(log + [e]), key)
         == KeyCount(log, FlowCount(log), key) +
            (if e.owner == FlowCount(log) && e.item.packet.key == Some(key) then 1 else 0)
  {
    CountSnoc(log, e);
    KeyCountIsStable(log, e, FlowCount(log), key);
    if e.owner == FlowCount(log) {
      NoMembersBeyondCount(log, e.owner);
      MembersSnoc(log, e, e.owner);
    }
  }

  lemma GenerationsSnoc(log: Log, e: Entry, generations: map<FlowKey, nat>)
    requires Grown(log + [e]) && e.owner <= FlowCount(log)
    requires e.owner == FlowCount(log) ==> e.item.packet.key.Some?
    requires forall key :: Get(generations, key) == NewestGeneration(log, key)
    ensures var generations' :=
              if e.owner == FlowCount(log) then
                generations[e.item.packet.key.value := NextGeneration(generations, e.item.packet.key.value)]
              else generations;
            forall key :: Get(generations', key) == NewestGeneration(log + [e], key)
  {
    hide Grown, KeyCount, FlowCount;
    var generations' := if e.owner == FlowCount(log) then
                generations[e.item.packet.key.value := NextGeneration(generations, e.item.packet.key.value)]
              else generations;
    forall key
      ensures Get(generations', key) == NewestGeneration(log + [e], key)
    {
      KeyCountSnoc(log, e, key);
      assert Get(generations, key) == NewestGeneration(log, key);
    }
  }

  lemma RowsSnoc(log: Log, e: Entry, flows: seq<Flow>, f: Flow)
    requires Grown(log) && Grown(log + [e]) && |log| + 1 < NO_REF && RowsAgree(log, flows)
    requires e.owner <= FlowCount(log)
    requires KeyOf(log + [e], e.owner).Some? && f == Row(log + [e], e.owner)
    ensures RowsAgree(log + [e], if e.owner == |flows| then flows + [f] else flows[e.owner := f])
  {
    hide Grown, Row, Members, FlowCount;
    CountSnoc(log, e);
    var flows' := if e.owner == |flows| then flows + [f] else flows[e.owner := f];
    forall i | 0 <= i < |flows'|
      ensures KeyOf(log + [e], i).Some? && flows'[i] == Row(log + [e], i)
    {
      if i != e.owner {
        RowOfOtherFlow(log, e, i);
      }
    }
  }

  lemma RowKnowsClosed(log: Log, flows: seq<Flow>, i: nat)
    requires |log| < NO_REF && RowsAgree(log, flows) && i < |flows|
    ensures flows[i].closed == Closed(Members(log, i))
  {
    assert flows[i] == Row(log, i);
  }

  // All maps and rows follow the longer log.
  lemma TablesSnoc(log: Log, e: Entry, flows: seq<Flow>, f: Flow,
                   active: map<FlowKey, nat>, generations: map<FlowKey, nat>, fragments: map<FragmentKey, nat>)
    requires Grown(log) && Grown(log + [e]) && |log| + 1 < NO_REF && RowsAgree(log, flows)
    requires MapsAgree(log, active, generations, fragments)
    requires e.owner <= |flows| && (e.owner == |flows| ==> e.item.packet.key.Some?)
    requires KeyOf(log + [e], e.owner).Some? && f == Row(log + [e], e.owner)
    ensures RowsAgree(log + [e], if e.owner == |flows| then flows + [f] else flows[e.owner := f])
    ensures MapsAgree(log + [e],
              if e.item.packet.key.Some? then active[e.item.packet.key.value := e.owner] else active,
              if e.owner == |flows| then
                generations[e.item.packet.key.value := NextGeneration(generations, e.item.packet.key.value)]
              else generations,
              if e.item.packet.fragment.Some? then fragments[e.item.packet.fragment.value := e.owner] else fragments)
  {
    hide Row, Grown, Get, NewestGeneration;
    RowsSnoc(log, e, flows, f);
    ActiveSnoc(log, e, active);
    FragmentsSnoc(log, e, fragments);
    GenerationsSnoc(log, e, generations);
  }

  // A record placed in the log fits a reference row.
  lemma EntryFits(log: Log, e: Entry, flows: seq<Flow>)
    requires Grown(log) && Place(log, e.item) == Some(e.owner)
    requires Fits(log) && |log| < e.item.frame < 0x1_0000_0000 && e.item.offset < 0x1_0000_0000_0000_0000
    requires RowsAgree(log, flows)
    ensures e.owner <= |flows| < 0x1_0000_0000 && Grown(log + [e]) && Fits(log + [e]) && FitsRow(e)
    ensures e.owner == |flows| ==> e.item.packet.key.Some?
    ensures e.owner < |flows| ==> flows[e.owner].id == e.owner && flows[e.owner].finMask < 4
    ensures e.owner < |flows| ==> flows[e.owner].lastRef == AsRef(LastPosition(log, e.owner))
    ensures e.owner == |flows| ==> LastPosition(log, e.owner) == None
  {
    PlaceIsBounded(log, e.item);
    CountIsBounded(log);
    Snoc(log, e);
    OwnersHavePositions(log, e.owner);
    NoMembersBeyondCount(log, FlowCount(log));
  }

  // Accounting the record yields the row of the longer log.
  lemma AccountedOldFlow(log: Log, e: Entry)
    requires Grown(log + [e]) && |log| + 1 < NO_REF && e.owner < FlowCount(log) && KeyOf(log, e.owner).Some?
    ensures KeyOf(log + [e], e.owner).Some?
    ensures Accounted(Row(log, e.owner), e.item, |log|) == Row(log + [e], e.owner)
  {
    hide Sum, Saw, SawFin, Payload, LeftPayload, RightPayload, ZeroWindow, KeyCount, Members, Grown, Bit;
    OwnersHavePositions(log, e.owner);
    RowOfGrownFlow(log, e);
  }

  lemma AccountedNewFlow(log: Log, e: Entry, active: map<FlowKey, nat>, generations: map<FlowKey, nat>,
                         fragments: map<FragmentKey, nat>)
    requires Grown(log + [e]) && |log| + 1 < NO_REF && e.owner == FlowCount(log) && e.item.packet.key.Some?
    requires MapsAgree(log, active, generations, fragments)
    ensures KeyOf(log + [e], e.owner).Some?
    ensures var key := e.item.packet.key.value;
            Accounted(Blank(e.owner, NextGeneration(generations, key), key, e.item), e.item, |log|) == Row(log + [e], e.owner)
  {
    hide Row, Sum, Saw, SawFin, Payload, LeftPayload, RightPayload, ZeroWindow, KeyCount, Members, Grown, Bit;
    assert Get(generations, e.item.packet.key.value) == NewestGeneration(log, e.item.packet.key.value);
    RowOfNewFlow(log, e);
  }

  lemma LogSnoc(log: Log, e: Entry)
    requires Fits(log) && FitsRow(e) && Fits(log + [e])
    ensures EncodeLog(log + [e])
         == EncodeLog(log) + EncodeRef(Ref(e.item.offset, StoredSize(e.item), e.item.frame,
                                           AsRef(LastPosition(log, e.owner)), e.owner))
  {
    Snoc(log, e);
    assert (log + [e])[..|log|] == log;
  }

  class Indexer {
    var flows: seq<Flow>
    var active: map<FlowKey, nat>
    var generations: map<FlowKey, nat>
    var fragments: map<FragmentKey, nat>
    var refs: bytes
    var refCount: nat
    var frame: nat
    ghost var log: Log

    ghost predicate Valid()
      reads this
    {
      && Grown(log)
      && |log| <= frame < 0x1_0000_0000
      && Fits(log)
      && MapsAgree(log, active, generations, fragments)
      && RowsAgree(log, flows)
      && refCount == |log|
      && refs == EncodeLog(log)
    }

    constructor ()
      ensures Valid() && log == [] && frame == 0
    {
      flows, active, generations, fragments, refs, refCount, frame, log := [], map[], map[], map[], [], 0, 0, [];
    }

    method OpenFlow(key: FlowKey, x: Item) returns (i: nat)
      modifies this`flows, this`active, this`generations
      ensures i == |old(flows)|
      ensures flows == old(flows) + [Blank(i % 0x1_0000_0000, NextGeneration(old(generations), key), key, x)]
      ensures active == old(active)[key := i]
      ensures generations == old(generations)[key := NextGeneration(old(generations), key)]
    {
      if key in generations {
        generations := generations[key := generations[key] + 1];
      } else {
        generations := generations[key := 0];
      }
      i := |flows|;
      flows := flows + [Blank(i % 0x1_0000_0000, generations[key], key, x)];
      active := active[key := i];
    }

    // The in-place update of one flow by one of its records.
    static method Account(flow: Flow, x: Item, ref: nat) returns (f: Flow)
      requires ref < NO_REF && flow.finMask < 4
      ensures f == Accounted(flow, x, ref)
    {
      hide Bit, Flagged, FinFrom, OrFin, ZeroWindow, Payload, LeftPayload, RightPayload;
      var firstTs := flow.firstTs;
      if flow.packets == 0 {
        firstTs := x.ts;
      }
      var payload, left, right := AccountPayload(flow, x);
      var syn, fin, rst, zeros, closed := AccountFlags(flow, x);
      var firstRef := flow.firstRef;
      if firstRef == NO_REF {
        firstRef := ref;
      }
      f := flow.(
        firstTs := firstTs, lastTs := x.ts, lastFrame := x.frame, packets := flow.packets + 1,
        capturedBytes := flow.capturedBytes + x.incl,
        payloadBytes := payload, leftPayloadBytes := left, rightPayloadBytes := right,
        synSeen := syn, finMask := fin, rstSeen := rst, zeroWindowEvents := zeros, closed := closed,
        firstRef := firstRef, lastRef := ref);
    }

    static method AccountPayload(flow: Flow, x: Item) returns (payload: nat, left: nat, right: nat)
      ensures payload == flow.payloadBytes + Payload(x)
      ensures left == flow.leftPayloadBytes + LeftPayload(x)
      ensures right == flow.rightPayloadBytes + RightPayload(x)
    {
      payload, left, right := flow.payloadBytes, flow.leftPayloadBytes, flow.rightPayloadBytes;
      if !x.packet.nonInitial {
        payload := payload + x.packet.payload;
        if x.packet.srcIsLeft {
          left := left + x.packet.payload;
        } else {
          right := right + x.packet.payload;
        }
      }
    }

    static method AccountFlags(flow: Flow, x: Item) returns (syn: bool, fin: nat, rst: bool, zeros: nat, closed: bool)
      requires flow.finMask < 4
      ensures syn == (flow.synSeen || Flagged(x, SYN))
      ensures fin == OrFin(flow.finMask, x)
      ensures rst == (flow.rstSeen || Flagged(x, RST))
      ensures zeros == flow.zeroWindowEvents + ZeroWindow(x)
      ensures closed == (flow.closed || Flagged(x, RST) || (!x.packet.nonInitial && OrFin(flow.finMask, x) == 3))
    {
      hide Bit;
      syn, fin, rst, zeros, closed := flow.synSeen, flow.finMask, flow.rstSeen, flow.zeroWindowEvents, flow.closed;
      if !x.packet.nonInitial {
        syn := syn || Bit(x.packet.flags, SYN);
        if Bit(x.packet.flags, FIN) {
          // finMask |= 1 for the left side, 2 for the right side
          if x.packet.srcIsLeft {
            fin := if fin == 0 || fin == 2 then fin + 1 else fin;
          } else {
            fin := if fin == 0 || fin == 1 then fin + 2 else fin;
          }
        }
        rst := rst || Bit(x.packet.flags, RST);
        zeros := zeros + (if x.packet.zeroWindow then 1 else 0);
        closed := closed || Bit(x.packet.flags, RST) || fin == 3;
      }
    }

    // The flow of a record, opened when it has none yet.
    method FlowFor(x: Item) returns (r: Option<nat>)
      requires Valid()
      modifies this`flows, this`active, this`generations
      ensures r == Place(log, x)
      ensures r.Some? ==> r.value <= |old(flows)| && (r.value == |old(flows)| ==> x.packet.key.Some?)
      ensures flows == if r == Some(|old(flows)|)
                       then old(flows) + [Blank(r.value % 0x1_0000_0000,
                                                NextGeneration(old(generations), x.packet.key.value),
                                                x.packet.key.value, x)]
                       else old(flows)
      ensures generations == if r == Some(|old(flows)|)
                             then old(generations)[x.packet.key.value := NextGeneration(old(generations), x.packet.key.value)]
                             else old(generations)
      ensures active == if r.Some? && x.packet.key.Some? then old(active)[x.packet.key.value := r.value] else old(active)
    {
      hide Row, Members, KeyCount, FlowCount, EncodeLog, Bit, NewestGeneration, Grown, LatestWithKey, LatestWithFragment;
      PlaceIsBounded(log, x);
      if x.packet.nonInitial {
        if x.packet.fragment.None? {
          return None;
        }
        assert Get(fragments, x.packet.fragment.value) == LatestWithFragment(log, x.packet.fragment.value);
        if x.packet.fragment.value !in fragments {
          return None;
        }
        return Some(fragments[x.packet.fragment.value]);
      }
      var key := x.packet.key.value;
      assert Get(active, key) == LatestWithKey(log, key);
      KeyOwnerBounded(log, key);
      if key in active {
        RowKnowsClosed(log, flows, active[key]);
      }
      var makeNew := key !in active || (OpensConnection(x.packet) && flows[active[key]].closed);
      if makeNew {
        var i := OpenFlow(key, x);
        return Some(i);
      }
      assert active == active[key := active[key]];
      return Some(active[key]);
    }

    // One TCP record: find or open its flow, account it, write its reference.
    method Add(x: Item)
      requires Valid() && |log| < x.frame <= frame && x.offset < 0x1_0000_0000_0000_0000
      modifies this
      ensures Valid() && log == Extend(old(log), x) && frame == old(frame)
    {
      hide Row, Accounted, Grown, Place, FlowCount, EncodeRef, KeyOf;
      hide MapsAgree, EncodeLog, LastPosition, NextGeneration, StoredSize;
      ghost var before, rows := log, flows;
      var place := FlowFor(x);
      if place.None? {
        return;
      }
      var i := place.value;
      ghost var e := Entry(x, i);
      EntryFits(before, e, rows);
      if x.packet.fragment.Some? {
        fragments := fragments[x.packet.fragment.value := i];
      }
      var previous := flows[i].lastRef;
      var id := flows[i].id;
      var f := Account(flows[i], x, refCount);
      if i < |rows| {
        assert KeyOf(before, i).Some? && rows[i] == Row(before, i);
        AccountedOldFlow(before, e);
      } else {
        AccountedNewFlow(before, e, old(active), old(generations), old(fragments));
      }
      TablesSnoc(before, e, rows, f, old(active), old(generations), old(fragments));
      flows := flows[i := f];
      assert flows == if i == |rows| then rows + [f] else rows[i := f];
      LogSnoc(before, e);
      refs := refs + EncodeRef(Ref(x.offset, StoredSize(x), x.frame, previous, id));
      refCount := refCount + 1;
      log := log + [e];
    }

    // The whole pass. An error leaves nothing behind that would be published.
    method Scan(capture: bytes) returns (r: Result<nat, Error>)
      requires Valid() && log == [] && frame == 0
      requires |capture| < 0x1_0000_0000_0000_0000
      modifies this
      ensures Scanned(capture).Ok? <==> r.Ok?
      ensures r.Err? ==> Scanned(capture) == Err(r.error)
      ensures r.Ok? ==> Valid() && log == Scanned(capture).value && r.value == |flows|
    {
      hide RecordAt, Parse, RecordsFrom, Replay, ItemsOf, Extend, Grown, MapsAgree, RowsAgree, EncodeLog, ReadFormat;
      var format := ReadFormat(capture);
      if format.Err? {
        return Err(format.error);
      }
      var little, nanos := format.value.little, format.value.nanos;
      var pos := HEADER;
      ghost var done: seq<Record> := [];
      NothingScanned(capture, nanos, RecordsFrom(capture, little, pos, 0));
      RecordsAreLaidOut(capture, little, HEADER, 0);
      while pos + RECORD_HEADER <= |capture|
        invariant Valid() && frame == |done| && Inside(capture, done)
        invariant RecordsFrom(capture, little, HEADER, 0) == Prepend(done, RecordsFrom(capture, little, pos, frame))
        invariant log == Replay(ItemsOf(capture, nanos, done))
        decreases |capture| - pos
      {
        var record := RecordAt(capture, little, pos);
        NextRecord(capture, little, pos, frame, done);
        if record.incl > |capture| - (pos + RECORD_HEADER) {
          return Err(TruncatedRecord(frame + 1));
        }
        if frame + 1 >= 0x1_0000_0000 {
          return Err(TooManyFrames);
        }
        CountFrame();
        pos := record.End();
        var parsed := ParseTcp(PacketOf(capture, record), 1);
        NextItem(capture, nanos, done, record);
        if parsed.Some? {
          Add(Item(frame, record.offset, record.incl, Timestamp(record, nanos), parsed.value));
        }
        done := done + [record];
      }
      LastRecord(capture, little, pos, frame, done);
      return Ok(|flows|);
    }

    method CountFrame()
      requires Valid() && frame + 1 < 0x1_0000_0000
      modifies this`frame
      ensures Valid() && frame == old(frame) + 1 && log == old(log)
    {
      frame := frame + 1;
    }
  }

  lemma NothingScanned(c: bytes, nanos: bool, rest: Result<seq<Record>, Error>)
    ensures Inside(c, []) && Replay(ItemsOf(c, nanos, [])) == []
    ensures Prepend([], rest) == rest
  {
    if rest.Ok? {
      assert [] + rest.value == rest.value;
    }
  }

  // One step of the record loop, as a step of the specification.
  lemma NextRecord(c: bytes, little: bool, pos: nat, frame: nat, done: seq<Record>)
    requires pos + RECORD_HEADER <= |c|
    ensures var r := RecordAt(c, little, pos);
            Prepend(done, RecordsFrom(c, little, pos, frame)) ==
              if r.incl > |c| - (pos + RECORD_HEADER) then Err(TruncatedRecord(frame + 1))
              else if frame + 1 >= 0x1_0000_0000 then Err(TooManyFrames)
              else Prepend(done + [r], RecordsFrom(c, little, r.End(), frame + 1))
    ensures RecordAt(c, little, pos).offset == pos
  {
    var r := RecordAt(c, little, pos);
    var rest := RecordsFrom(c, little, r.End(), frame + 1);
    if rest.Ok? {
      assert done + ([r] + rest.value) == done + [r] + rest.value;
    }
  }

  lemma LastRecord(c: bytes, little: bool, pos: nat, frame: nat, done: seq<Record>)
    requires pos + RECORD_HEADER > |c|
    ensures Prepend(done, RecordsFrom(c, little, pos, frame)) == Ok(done)
  {
    assert done + [] == done;
  }

  lemma NextItem(c: bytes, nanos: bool, done: seq<Record>, r: Record)
    requires Inside(c, done) && r.End() <= |c|
    ensures Inside(c, done + [r])
    ensures Replay(ItemsOf(c, nanos, done + [r])) ==
              match Parse(PacketOf(c, r), 1)
              case None => Replay(ItemsOf(c, nanos, done))
              case Some(p) => Extend(Replay(ItemsOf(c, nanos, done)), Item(|done| + 1, r.offset, r.incl, Timestamp(r, nanos), p))
  {
    hide Parse;
    Snoc(done, r);
    var before := ItemsOf(c, nanos, done);
    match Parse(PacketOf(c, r), 1)
    case None =>
    case Some(p) => Snoc(before, Item(|done| + 1, r.offset, r.incl, Timestamp(r, nanos), p));
  }
}
