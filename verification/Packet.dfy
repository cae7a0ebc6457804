/**
 The frame parser of the indexer (`parse_tcp`, `canonical`, `Endpoint::cmp`):
 Ethernet with stacked VLAN tags, IPv4 or IPv6 with extension headers, TCP.

 `Parse` is the specification; `ParseTcp` is the program, with its two header loops.
 */
module Packet {
  import opened Wrappers
  import opened Bytes

  type Addr = a: bytes | |a| == 16 witness seq(16, (_: nat) => 0)

  datatype Endpoint = Endpoint(addr: Addr, port: u16)

  datatype FlowKey = FlowKey(family: nat, left: Endpoint, right: Endpoint)

  datatype FragmentKey = FragmentKey(family: nat, src: Addr, dst: Addr, ident: u32)

  datatype Parsed = Parsed(
    key: Option<FlowKey>,
    fragment: Option<FragmentKey>,
    nonInitial: bool,
    srcIsLeft: bool,
    flags: byte,
    payload: u32,
    zeroWindow: bool)

  // What the parser returns: a flow key unless the packet is a later fragment.
  type TcpPacket = p: Parsed | p.nonInitial <==> p.key.None?
    witness Parsed(None, None, true, false, 0, 0, false)

  // What the network layer tells the transport layer.
  datatype Network = Network(
    family: nat,
    src: Addr,
    dst: Addr,
    tcpOff: nat,
    declaredEnd: nat,
    fragment: Option<FragmentKey>,
    nonInitial: bool)

  const FIN := 1
  const SYN := 2
  const RST := 4
  const ACK := 16

  // ---------------------------------------------------------------- flow keys

  predicate LexLess(a: bytes, b: bytes) {
    |b| > 0 && (|a| == 0 || a[0] < b[0] || (a[0] == b[0] && LexLess(a[1..], b[1..])))
  }

  predicate AtMost(a: Endpoint, b: Endpoint) {
    LexLess(a.addr, b.addr) || (a.addr == b.addr && a.port <= b.port)
  }

  function Canonical(family: nat, src: Endpoint, dst: Endpoint): (FlowKey, bool) {
    if AtMost(src, dst) then (FlowKey(family, src, dst), true) else (FlowKey(family, dst, src), false)
  }

  lemma {:induction false} LexTrichotomy(a: bytes, b: bytes)
    ensures a != b ==> LexLess(a, b) != LexLess(b, a)
    ensures a == b ==> !LexLess(a, b)
  {
    if |a| > 0 && |b| > 0 {
      LexTrichotomy(a[1..], b[1..]);
      if a[0] == b[0] && a[1..] == b[1..] {
        assert a == [a[0]] + a[1..] == [b[0]] + b[1..] == b;
      }
    }
  }

  // Both directions of a connection reach one key, the direction bit tells them apart,
  // and key plus direction bit give the two endpoints back.
  lemma KeyIgnoresDirection(family: nat, a: Endpoint, b: Endpoint)
    ensures Canonical(family, a, b).0 == Canonical(family, b, a).0
    ensures a != b ==> Canonical(family, a, b).1 != Canonical(family, b, a).1
    ensures var (key, left) := Canonical(family, a, b);
            a == (if left then key.left else key.right) && b == (if left then key.right else key.left)
  {
    LexTrichotomy(a.addr, b.addr);
  }

  // Two conversations share a key only when they join the same two endpoints.
  lemma KeyIdentifiesPair(family: nat, a: Endpoint, b: Endpoint, family': nat, c: Endpoint, d: Endpoint)
    ensures Canonical(family, a, b).0 == Canonical(family', c, d).0 <==>
            family == family' && ((a == c && b == d) || (a == d && b == c))
  {
    KeyIgnoresDirection(family, a, b);
    KeyIgnoresDirection(family', c, d);
  }

  // The left endpoint is the smaller one: addresses are compared byte by byte, then ports.
  lemma LeftIsSmaller(family: nat, a: Endpoint, b: Endpoint)
    ensures var (key, left) := Canonical(family, a, b);
            && key.family == family && key.left == (if left then a else b) && key.right == (if left then b else a)
            && (if key.left.addr == key.right.addr then key.left.port <= key.right.port
                else exists k :: 0 <= k < 16 && key.left.addr[k] < key.right.addr[k]
                                 && key.left.addr[..k] == key.right.addr[..k])
  {
    LexTrichotomy(a.addr, b.addr);
    var (key, left) := Canonical(family, a, b);
    if a.addr != b.addr {
      var k := FirstDifference(key.left.addr, key.right.addr);
    }
  }

  lemma {:induction false} FirstDifference(a: bytes, b: bytes) returns (k: nat)
    requires |a| == |b| && LexLess(a, b)
    ensures k < |a| && a[k] < b[k] && a[..k] == b[..k]
  {
    if a[0] < b[0] {
      k := 0;
    } else {
      var j := FirstDifference(a[1..], b[1..]);
      k := j + 1;
      assert a[..k] == [a[0]] + a[1..][..j] && b[..k] == [b[0]] + b[1..][..j];
    }
  }

  // ------------------------------------------------------------ specification

  predicate IsVlan(eth: u16) {
    eth == 0x8100 || eth == 0x88a8 || eth == 0x9100
  }

  predicate IsExtension(next: byte) {
    next == 0 || next == 43 || next == 44 || next == 51 || next == 60
  }

  // The inner EtherType and the offset behind the last tag.
  function SkipVlan(p: bytes, eth: u16, off: nat): (r: Option<(u16, nat)>)
    requires off <= |p|
    ensures r.Some? ==> off <= r.value.1 <= |p| && !IsVlan(r.value.0)
    decreases |p| - off
  {
    if !IsVlan(eth) then Some((eth, off))
    else if |p| < off + 4 then None
    else SkipVlan(p, U16(p[off + 2], p[off + 3]), off + 4)
  }

  function Addr4(v: bytes): Addr
    requires |v| == 4
  {
    v + [0, 0, 0, 0, 0, 0, 0, 0, 0, 0, 0, 0]
  }

  // The fixed part `h` of an IPv4 header found at `off` in a frame of `size` bytes.
  function Ipv4Fields(h: bytes, off: nat, size: nat): (r: Option<Network>)
    requires |h| == 20
    ensures r.Some? ==> off + 20 <= r.value.tcpOff <= size
    ensures r.Some? ==> r.value.declaredEnd < off + 0x1_0000
  {
    var ihl := h[0] % 16 * 4;
    if ihl < 20 || size < off + ihl || h[9] != 6 then None else
    var frag := U16(h[6], h[7]);
    var src, dst := Addr4(h[12..16]), Addr4(h[16..20]);
    var fk := if frag % 0x4000 != 0 then Some(FragmentKey(4, src, dst, U16(h[4], h[5]))) else None;
    Some(Network(4, src, dst, off + ihl, off + U16(h[2], h[3]), fk, frag % 0x2000 != 0))
  }

  function ParseIpv4(p: bytes, off: nat): (r: Option<Network>)
    requires off <= |p|
    ensures r.Some? ==> off + 20 <= r.value.tcpOff <= |p|
    ensures r.Some? ==> r.value.declaredEnd < off + 0x1_0000
  {
    if |p| < off + 20 then None else Ipv4Fields(p[off..off + 20], off, |p|)
  }

  // Section 2.2 of RFC 4302: the Authentication Header counts 4-byte words, minus 2.
  function AuthLength(n: byte): (r: nat)
    ensures r >= 8
  {
    4 * n + 8
  }

  // Section 4 of RFC 8200: the other extension headers count 8-byte words beyond the first.
  function OptionsLength(n: byte): (r: nat)
    ensures r >= 8
  {
    8 * n + 8
  }

  // State of the walk over IPv6 extension headers.
  datatype HeaderWalk = HeaderWalk(next: byte, cur: nat, fragment: Option<FragmentKey>, nonInitial: bool)

  function FragmentFields(h: bytes, src: Addr, dst: Addr, cur: nat): (r: HeaderWalk)
    requires |h| == 8
    ensures r.cur == cur + 8 && r.fragment.Some?
  {
    HeaderWalk(h[0], cur + 8, Some(FragmentKey(6, src, dst, U32(h[4], h[5], h[6], h[7]))), U16(h[2], h[3]) / 8 != 0)
  }

  function ExtensionStep(p: bytes, src: Addr, dst: Addr, w: HeaderWalk): (r: Option<HeaderWalk>)
    ensures r.Some? ==> w.cur + 8 <= r.value.cur && w.cur + 2 <= |p|
  {
    if |p| < w.cur + 2 then None
    else if w.next == 44 then
      if |p| < w.cur + 8 then None else Some(FragmentFields(p[w.cur..w.cur + 8], src, dst, w.cur))
    else if w.next == 51 then
      Some(HeaderWalk(p[w.cur], w.cur + AuthLength(p[w.cur + 1]), w.fragment, w.nonInitial))
    else
      Some(HeaderWalk(p[w.cur], w.cur + OptionsLength(p[w.cur + 1]), w.fragment, w.nonInitial))
  }

  function SkipExtensions(p: bytes, src: Addr, dst: Addr, w: HeaderWalk): (r: Option<HeaderWalk>)
    ensures r.Some? ==> w.cur <= r.value.cur
    decreases |p| - w.cur
  {
    if !IsExtension(w.next) then Some(w) else
    match ExtensionStep(p, src, dst, w)
    case None => None
    case Some(w') => SkipExtensions(p, src, dst, w')
  }

  function ParseIpv6(p: bytes, off: nat): (r: Option<Network>)
    requires off <= |p|
    ensures r.Some? ==> off + 40 <= r.value.tcpOff && off + 40 <= |p|
    ensures r.Some? ==> r.value.declaredEnd < off + 40 + 0x1_0000
  {
    if |p| < off + 40 || p[off] / 16 != 6 then None else
    var src := p[off + 8..off + 24];
    var dst := p[off + 24..off + 40];
    match SkipExtensions(p, src, dst, HeaderWalk(p[off + 6], off + 40, None, false))
    case None => None
    case Some(w) =>
      if w.next != 6 then None
      else Some(Network(6, src, dst, w.cur, off + 40 + U16(p[off + 4], p[off + 5]), w.fragment, w.nonInitial))
  }

  function ParseNetwork(p: bytes): (r: Option<Network>)
    ensures r.Some? ==> r.value.declaredEnd < r.value.tcpOff + 0x1_0000
  {
    if |p| < 14 then None else
    match SkipVlan(p, U16(p[12], p[13]), 14)
    case None => None
    case Some((eth, off)) =>
      if eth == 0x0800 then ParseIpv4(p, off)
      else if eth == 0x86dd then ParseIpv6(p, off)
      else None
  }

  function DataOffset(p: bytes, tcpOff: nat): nat
    requires tcpOff + 20 <= |p|
  {
    p[tcpOff + 12] / 16 * 4
  }

  // The fixed part `h` of a TCP header in a frame of `size` bytes.
  function SegmentFields(h: bytes, size: nat, n: Network): (r: Option<TcpPacket>)
    requires |h| == 20 && n.declaredEnd < n.tcpOff + 0x1_0000
  {
    var end := n.tcpOff + h[12] / 16 * 4;
    if end < n.tcpOff + 20 || size < end || n.declaredEnd < end then None else
    var src := Endpoint(n.src, U16(h[0], h[1]));
    var dst := Endpoint(n.dst, U16(h[2], h[3]));
    var (key, left) := Canonical(n.family, src, dst);
    Some(Parsed(Some(key), n.fragment, false, left, h[13], n.declaredEnd - end,
                U16(h[14], h[15]) == 0 && Bit(h[13], ACK) && !Bit(h[13], SYN)))
  }

  function ParseTransport(p: bytes, n: Network): (r: Option<TcpPacket>)
    requires n.declaredEnd < n.tcpOff + 0x1_0000
  {
    if n.nonInitial then Some(Parsed(None, n.fragment, true, false, 0, 0, false))
    else if |p| < n.tcpOff + 20 then None
    else SegmentFields(p[n.tcpOff..n.tcpOff + 20], |p|, n)
  }

  function Parse(p: bytes, linktype: u32): (r: Option<TcpPacket>)
    ensures r.Some? ==> r.value.payload < 0x1_0000
  {
    if linktype != 1 then None else
    match ParseNetwork(p)
    case None => None
    case Some(n) => ParseTransport(p, n)
  }

  lemma {:induction false} LaterWalkHasKey(p: bytes, src: Addr, dst: Addr, w: HeaderWalk)
    requires w.nonInitial ==> w.fragment.Some?
    ensures var r := SkipExtensions(p, src, dst, w);
            r.Some? && r.value.nonInitial ==> r.value.fragment.Some?
    decreases |p| - w.cur
  {
    if IsExtension(w.next) && ExtensionStep(p, src, dst, w).Some? {
      LaterWalkHasKey(p, src, dst, ExtensionStep(p, src, dst, w).value);
    }
  }

  // The mask of the fragment offset lies inside the mask of offset and More Fragments.
  lemma OffsetBitsAreFragmentBits(frag: u16)
    ensures frag % 0x2000 != 0 ==> frag % 0x4000 != 0
  {
    if frag % 0x4000 == 0 {
      assert frag == 0x2000 * (frag / 0x4000 * 2);
    }
  }

  lemma Ipv4LaterHasKey(p: bytes, off: nat)
    requires off <= |p| && ParseIpv4(p, off).Some? && ParseIpv4(p, off).value.nonInitial
    ensures ParseIpv4(p, off).value.fragment.Some?
  {
    OffsetBitsAreFragmentBits(U16(p[off..off + 20][6], p[off..off + 20][7]));
  }

  // A later fragment always comes with the key that can attach it to a flow.
  lemma LaterFragmentHasKey(p: bytes, linktype: u32)
    requires Parse(p, linktype).Some? && Parse(p, linktype).value.nonInitial
    ensures Parse(p, linktype).value.fragment.Some?
  {
    hide ParseIpv4;
    var (eth, off) := SkipVlan(p, U16(p[12], p[13]), 14).value;
    if eth == 0x0800 {
      Ipv4LaterHasKey(p, off);
    } else {
      LaterWalkHasKey(p, p[off + 8..off + 24], p[off + 24..off + 40], HeaderWalk(p[off + 6], off + 40, None, false));
    }
  }

  // ------------------------------------------------------------------ program

  // The walk over extension headers, as the loop of `parse_tcp`.
  method WalkExtensions(packet: bytes, src: Addr, dst: Addr, first: byte, start: nat) returns (r: Option<HeaderWalk>)
    ensures r == SkipExtensions(packet, src, dst, HeaderWalk(first, start, None, false))
  {
    hide U16, U32, AuthLength, OptionsLength;
    var next, cur, fk, nonInitial := first, start, None, false;
    while IsExtension(next)
      invariant SkipExtensions(packet, src, dst, HeaderWalk(first, start, None, false))
             == SkipExtensions(packet, src, dst, HeaderWalk(next, cur, fk, nonInitial))
      decreases |packet| - cur
    {
      if |packet| < cur + 2 {
        return None;
      }
      var previous := next;
      next := packet[cur];
      if previous == 44 {
        if |packet| < cur + 8 {
          return None;
        }
        var frag := U16(packet[cur + 2], packet[cur + 3]);
        var ident := U32(packet[cur + 4], packet[cur + 5], packet[cur + 6], packet[cur + 7]);
        nonInitial := frag / 8 != 0;
        fk := Some(FragmentKey(6, src, dst, ident));
        cur := cur + 8;
      } else if previous == 51 {
        cur := cur + AuthLength(packet[cur + 1]);
      } else {
        cur := cur + OptionsLength(packet[cur + 1]);
      }
    }
    return Some(HeaderWalk(next, cur, fk, nonInitial));
  }

  // The walk over VLAN tags, as the loop of `parse_tcp`.
  method WalkTags(packet: bytes) returns (r: Option<(u16, nat)>)
    requires |packet| >= 14
    ensures r == SkipVlan(packet, U16(packet[12], packet[13]), 14)
  {
    var off := 14;
    var eth := U16(packet[12], packet[13]);
    while IsVlan(eth)
      invariant off <= |packet|
      invariant SkipVlan(packet, U16(packet[12], packet[13]), 14) == SkipVlan(packet, eth, off)
      decreases |packet| - off
    {
      if |packet| < off + 4 {
        return None;
      }
      eth := U16(packet[off + 2], packet[off + 3]);
      off := off + 4;
    }
    return Some((eth, off));
  }

  method ReadNetwork(packet: bytes) returns (r: Option<Network>)
    ensures r == ParseNetwork(packet)
  {
    if |packet| < 14 {
      return None;
    }
    var tags := WalkTags(packet);
    if tags.None? {
      return None;
    }
    var (eth, off) := tags.value;
    if eth == 0x0800 {
      return ParseIpv4(packet, off);
    } else if eth == 0x86dd {
      if |packet| < off + 40 || packet[off] / 16 != 6 {
        return None;
      }
      var src: Addr := packet[off + 8..off + 24];
      var dst: Addr := packet[off + 24..off + 40];
      var walk := WalkExtensions(packet, src, dst, packet[off + 6], off + 40);
      if walk.None? || walk.value.next != 6 {
        return None;
      }
      var declaredEnd := off + 40 + U16(packet[off + 4], packet[off + 5]);
      return Some(Network(6, src, dst, walk.value.cur, declaredEnd, walk.value.fragment, walk.value.nonInitial));
    } else {
      return None;
    }
  }

  method ParseTcp(packet: bytes, linktype: u32) returns (r: Option<TcpPacket>)
    ensures r == Parse(packet, linktype)
  {
    if linktype != 1 {
      return None;
    }
    var network := ReadNetwork(packet);
    if network.None? {
      return None;
    }
    return ParseTransport(packet, network.value);
  }

  // ---------------------------------------------- what the answer depends on

  // First offset behind the headers that were read.
  function HeaderEnd(p: bytes): nat
    requires Parse(p, 1).Some?
  {
    var n := ParseNetwork(p).value;
    if n.nonInitial then n.tcpOff else n.tcpOff + DataOffset(p, n.tcpOff)
  }

  ghost predicate Agree(p: bytes, q: bytes, end: nat) {
    end <= |p| && end <= |q| && forall k | 0 <= k < end :: p[k] == q[k]
  }

  lemma {:induction false} VlanPrefix(p: bytes, q: bytes, eth: u16, off: nat, end: nat)
    requires off <= end && Agree(p, q, end)
    requires SkipVlan(p, eth, off).Some? && SkipVlan(p, eth, off).value.1 <= end
    ensures SkipVlan(q, eth, off) == SkipVlan(p, eth, off)
    decreases |p| - off
  {
    if IsVlan(eth) {
      VlanPrefix(p, q, U16(p[off + 2], p[off + 3]), off + 4, end);
    }
  }

  lemma {:induction false} ExtensionPrefix(p: bytes, q: bytes, src: Addr, dst: Addr, w: HeaderWalk, end: nat)
    requires Agree(p, q, end)
    requires SkipExtensions(p, src, dst, w).Some?
    requires end == |p| || SkipExtensions(p, src, dst, w).value.cur <= end
    ensures SkipExtensions(q, src, dst, w) == SkipExtensions(p, src, dst, w)
    decreases |p| - w.cur
  {
    if IsExtension(w.next) {
      var w' := ExtensionStep(p, src, dst, w).value;
      assert w.next == 44 ==> p[w.cur..w.cur + 8] == q[w.cur..w.cur + 8];
      assert ExtensionStep(q, src, dst, w) == Some(w');
      ExtensionPrefix(p, q, src, dst, w', end);
    }
  }

  lemma Ipv6Prefix(p: bytes, q: bytes, off: nat, end: nat)
    requires off <= end && Agree(p, q, end)
    requires ParseIpv6(p, off).Some?
    requires end == |p| || ParseIpv6(p, off).value.tcpOff <= end
    ensures ParseIpv6(q, off) == ParseIpv6(p, off)
  {
    var src, dst := p[off + 8..off + 24], p[off + 24..off + 40];
    assert src == q[off + 8..off + 24] && dst == q[off + 24..off + 40];
    ExtensionPrefix(p, q, src, dst, HeaderWalk(p[off + 6], off + 40, None, false), end);
  }

  lemma Ipv4Prefix(p: bytes, q: bytes, off: nat, end: nat)
    requires off <= end && Agree(p, q, end)
    requires ParseIpv4(p, off).Some? && ParseIpv4(p, off).value.tcpOff <= end
    ensures ParseIpv4(q, off) == ParseIpv4(p, off)
  {
    hide Ipv4Fields;
    assert p[off..off + 20] == q[off..off + 20];
    Ipv4IgnoresSize(p[off..off + 20], off, |p|, |q|);
  }

  // A larger frame cannot change a header that was accepted.
  lemma Ipv4IgnoresSize(h: bytes, off: nat, size: nat, size': nat)
    requires |h| == 20 && Ipv4Fields(h, off, size).Some?
    requires Ipv4Fields(h, off, size).value.tcpOff <= size'
    ensures Ipv4Fields(h, off, size') == Ipv4Fields(h, off, size)
  {
  }

  lemma NetworkPrefix(p: bytes, q: bytes, end: nat)
    requires Agree(p, q, end)
    requires ParseNetwork(p).Some?
    requires end == |p| || ParseNetwork(p).value.tcpOff <= end
    ensures ParseNetwork(q) == ParseNetwork(p)
  {
    var (eth, off) := SkipVlan(p, U16(p[12], p[13]), 14).value;
    VlanPrefix(p, q, U16(p[12], p[13]), 14, end);
    if eth == 0x0800 {
      Ipv4Prefix(p, q, off, end);
    } else {
      Ipv6Prefix(p, q, off, end);
    }
  }

  lemma TransportPrefix(p: bytes, q: bytes, n: Network, end: nat)
    requires n.declaredEnd < n.tcpOff + 0x1_0000
    requires Agree(p, q, end)
    requires ParseTransport(p, n).Some?
    requires n.nonInitial || n.tcpOff + DataOffset(p, n.tcpOff) <= end
    ensures ParseTransport(q, n) == ParseTransport(p, n)
  {
    if !n.nonInitial {
      assert p[n.tcpOff..n.tcpOff + 20] == q[n.tcpOff..n.tcpOff + 20];
    }
  }

  // Trailer padding after the headers, a different payload, or a snap length that cuts
  // the payload changes nothing: the answer is a function of the header bytes.
  lemma HeadersDetermineAnswer(p: bytes, q: bytes)
    requires Parse(p, 1).Some?
    requires HeaderEnd(p) <= |p| ==> HeaderEnd(p) <= |q| && p[..HeaderEnd(p)] == q[..HeaderEnd(p)]
    requires HeaderEnd(p) > |p| ==> p <= q
    ensures Parse(q, 1) == Parse(p, 1)
  {
    var end := if HeaderEnd(p) <= |p| then HeaderEnd(p) else |p|;
    forall k | 0 <= k < end
      ensures p[k] == q[k]
    {
      assert p[..end][k] == q[..end][k];
    }
    NetworkPrefix(p, q, end);
    TransportPrefix(p, q, ParseNetwork(p).value, end);
  }
}
