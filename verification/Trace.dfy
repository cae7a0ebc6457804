/** One stream's packets, as the analyses receive them. Times are whole microseconds. */
module Trace {
  import opened Wrappers
  import opened Sequences

  datatype Packet = Packet(
    frame: nat,
    ts: int,
    fromClient: bool,       // direction "out"
    length: nat,
    seq_: nat,
    ack: Option<nat>,
    syn: bool,
    ackFlag: bool,
    window: Option<nat>,    // None when no window field was captured
    retrans: bool)

  function Time(p: Packet): int { p.ts }

  // The payload of the packets together.
  function Bytes(packets: seq<Packet>): nat {
    if |packets| == 0 then 0 else Bytes(Init(packets)) + Last(packets).length
  }
}
