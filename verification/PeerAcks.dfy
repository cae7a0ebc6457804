/** What each endpoint has acknowledged by a time (`_peer_ack_index`, `_ack_at`). */
module PeerAcks {
  import opened Wrappers
  import opened Sequences

  // The address pair of a packet, as its sender sees it; any part may be missing.
  datatype Sender = Sender(src: Option<string>, sport: Option<nat>, dst: Option<string>, dport: Option<nat>)

  datatype Packet = Packet(sender: Sender, time: Option<int>, ackFlag: bool, ack: Option<nat>)

  type Index = map<Sender, seq<(Option<int>, Option<nat>)>>

  function Entries(index: Index, sender: Sender): seq<(Option<int>, Option<nat>)> {
    if sender in index then index[sender] else []
  }

  // A missing time counts as early enough.
  predicate NotAfter(entry: Option<int>, time: Option<int>) {
    entry.None? || time.None? || entry.value <= time.value
  }

  method PeerAckIndex(ordered: seq<Packet>) returns (index: Index)
    ensures forall sender :: Entries(index, sender) == AcksSent(ordered, sender)
  {
    index := map[];
    for n := 0 to |ordered|
      invariant forall sender :: Entries(index, sender) == AcksSent(ordered[..n], sender)
    {
      var p := ordered[n];
      assert Init(ordered[..n + 1]) == ordered[..n];
      if p.ackFlag {
        var before := Entries(index, p.sender);
        index := index[p.sender := before + [(p.time, p.ack)]];
      }
    }
    assert ordered[..|ordered|] == ordered;
  }

  function AcksSent(ordered: seq<Packet>, sender: Sender): seq<(Option<int>, Option<nat>)> {
    if |ordered| == 0 then []
    else if Last(ordered).ackFlag && Last(ordered).sender == sender
      then AcksSent(Init(ordered), sender) + [(Last(ordered).time, Last(ordered).ack)]
    else AcksSent(Init(ordered), sender)
  }

  // The acknowledgement of the last packet of the sender that is not after `time`.
  function LatestAck(ordered: seq<Packet>, sender: Sender, time: Option<int>): Option<nat> {
    if |ordered| == 0 then None
    else if Last(ordered).ackFlag && Last(ordered).sender == sender && NotAfter(Last(ordered).time, time)
      then Last(ordered).ack
    else LatestAck(Init(ordered), sender, time)
  }

  function LatestEntry(entries: seq<(Option<int>, Option<nat>)>, time: Option<int>): Option<nat> {
    if |entries| == 0 then None
    else if NotAfter(Last(entries).0, time) then Last(entries).1
    else LatestEntry(Init(entries), time)
  }

  lemma {:induction false} IndexFindsLatest(ordered: seq<Packet>, sender: Sender, time: Option<int>)
    ensures LatestEntry(AcksSent(ordered, sender), time) == LatestAck(ordered, sender, time)
  {
    if |ordered| > 0 {
      IndexFindsLatest(Init(ordered), sender, time);
      Snoc(AcksSent(Init(ordered), sender), (Last(ordered).time, Last(ordered).ack));
    }
  }

  /** Looking an acknowledgement up in the index finds what a backward search finds. */
  method AckAt(index: Index, ghost ordered: seq<Packet>, sender: Sender, time: Option<int>)
      returns (latest: Option<nat>)
    requires Entries(index, sender) == AcksSent(ordered, sender)
    ensures latest == LatestAck(ordered, sender, time)
  {
    IndexFindsLatest(ordered, sender, time);
    var entries := Entries(index, sender);
    latest := None;
    for n := 0 to |entries|
      invariant latest == LatestEntry(entries[..n], time)
    {
      assert Init(entries[..n + 1]) == entries[..n];
      if NotAfter(entries[n].0, time) {
        latest := entries[n].1;
      }
    }
    assert entries[..|entries|] == entries;
  }

  // An acknowledgement of the sender that is not known to be later than `time`.
  ghost predicate IsAck(p: Packet, sender: Sender, time: Option<int>) {
    p.sender == sender && p.ackFlag && (p.time.Some? && time.Some? ==> p.time.value <= time.value)
  }

  /** The lookup gives the number of the sender's last acknowledgement by that time, or none. */
  lemma {:induction false} LatestMeans(ordered: seq<Packet>, sender: Sender, time: Option<int>)
    ensures var latest := LatestAck(ordered, sender, time);
            (exists k :: 0 <= k < |ordered| && IsAck(ordered[k], sender, time) && latest == ordered[k].ack
                         && forall j | k < j < |ordered| :: !IsAck(ordered[j], sender, time))
            || (latest == None && forall p | p in ordered :: !IsAck(p, sender, time))
  {
    if |ordered| > 0 {
      var before, p := Init(ordered), Last(ordered);
      var latest := LatestAck(ordered, sender, time);
      assert ordered == before + [p];
      if IsAck(p, sender, time) {
        assert ordered[|ordered| - 1] == p;
      } else {
        LatestMeans(before, sender, time);
        if k :| 0 <= k < |before| && IsAck(before[k], sender, time) && latest == before[k].ack
                && forall j | k < j < |before| :: !IsAck(before[j], sender, time)
        {
          assert ordered[k] == before[k];
          assert forall j | k < j < |before| :: ordered[j] == before[j];
        }
      }
    }
  }

  // The endpoint at the other end.
  function Peer(sender: Sender): Sender {
    Sender(sender.dst, sender.dport, sender.src, sender.sport)
  }

  /** The number a probe is held against is one the peer had already sent. */
  lemma {:induction false} LatestWasSent(ordered: seq<Packet>, probe: Sender, time: int)
    requires LatestAck(ordered, Peer(probe), Some(time)).Some?
    ensures exists p :: p in ordered && p.ackFlag && (p.time.Some? ==> p.time.value <= time)
                        && p.sender.src == probe.dst && p.sender.sport == probe.dport
                        && p.sender.dst == probe.src && p.sender.dport == probe.sport
                        && p.ack == LatestAck(ordered, Peer(probe), Some(time))
  {
    LatestMeans(ordered, Peer(probe), Some(time));
  }
}
