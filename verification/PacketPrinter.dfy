/**
 Frames as the standards lay them out, and the proof that `Packet.Parse` reads them back:
 VLAN stacks, IPv4 (section 3.1 of RFC 791), chains of IPv6 extension headers
 (section 4 of RFC 8200, section 2.2 of RFC 4302) and TCP (section 3.1 of RFC 9293).
 */
module PacketPrinter {
  import opened Wrappers
  import opened Bytes
  import opened Packet

  // Network byte order.
  function Two(n: u16): (s: bytes)
    ensures |s| == 2
  {
    [n / 256, n % 256]
  }

  function Four(n: u32): (s: bytes)
    ensures |s| == 4
  {
    Two(n / 0x1_0000) + Two(n % 0x1_0000)
  }

  lemma TwoReadsBack(n: u16)
    ensures U16(Two(n)[0], Two(n)[1]) == n
  {
  }

  lemma FourReadsBack(n: u32)
    ensures U32(Four(n)[0], Four(n)[1], Four(n)[2], Four(n)[3]) == n
  {
  }

  // An IPv4 address, as 16 bytes.
  function Ipv4Address(a: bytes): Addr
    requires |a| == 4
  {
    a + [0, 0, 0, 0, 0, 0, 0, 0, 0, 0, 0, 0]
  }

  datatype Tag = Tag(tpid: u16, tci: u16)

  datatype Extension =
    | Options(kind: byte, words: byte, body: bytes)
    | Fragment(reserved: byte, offsetFlags: u16, ident: u32)
    | Auth(words: byte, body: bytes)
  {
    predicate Valid() {
      match this
      case Options(kind, words, body) => (kind == 0 || kind == 43 || kind == 60) && |body| == 8 * words + 6
      case Fragment(_, _, _) => true
      case Auth(words, body) => |body| == 4 * words + 6
    }

    function Kind(): byte {
      match this
      case Options(kind, _, _) => kind
      case Fragment(_, _, _) => 44
      case Auth(_, _) => 51
    }

    function Print(next: byte): (s: bytes)
      ensures |s| >= 2
    {
      match this
      case Options(_, words, body) => [next, words] + body
      case Fragment(reserved, offsetFlags, ident) => [next, reserved] + Two(offsetFlags) + Four(ident)
      case Auth(words, body) => [next, words] + body
    }
  }

  datatype Network4 = Network4(
    version: byte, tos: byte, ident: u16, offsetFlags: u16, ttl: byte,
    checksum: u16, src: bytes, dst: bytes, options: bytes)
  {
    predicate Valid() {
      version < 16 && |src| == 4 && |dst| == 4 && |options| % 4 == 0 && |options| <= 40
    }

    function Length(): nat { 20 + |options| }

    function Fixed(total: u16): (s: bytes)
      requires Valid()
      ensures |s| == 20
    {
      [version * 16 + Length() / 4, tos, total / 256, total % 256, ident / 256, ident % 256,
       offsetFlags / 256, offsetFlags % 256, ttl, 6, checksum / 256, checksum % 256,
       src[0], src[1], src[2], src[3], dst[0], dst[1], dst[2], dst[3]]
    }

    function Print(total: u16): bytes
      requires Valid()
    {
      Fixed(total) + options
    }

    function Key(): Option<FragmentKey>
      requires Valid()
    {
      if offsetFlags % 0x4000 != 0 then Some(FragmentKey(4, Ipv4Address(src), Ipv4Address(dst), ident)) else None
    }

    predicate Later() { offsetFlags % 0x2000 != 0 }
  }

  datatype Network6 = Network6(
    traffic: byte, flowLabel: bytes, hops: byte, src: Addr, dst: Addr, extensions: seq<Extension>)
  {
    predicate Valid() {
      traffic < 16 && |flowLabel| == 3 && forall e | e in extensions :: e.Valid()
    }

    function Marks(): Marks {
      MarksAfter(extensions, src, dst, (None, false))
    }

    // `after` is the Next Header value behind the last extension header.
    function Fixed(size: u16, after: byte): (s: bytes)
      requires Valid()
      ensures |s| == 40
    {
      [96 + traffic] + flowLabel + Two(size) + [FirstKind(extensions, after), hops] + src + dst
    }

    function Print(size: u16, after: byte): bytes
      requires Valid()
    {
      Fixed(size, after) + PrintExtensions(extensions, after)
    }
  }

  datatype Segment = Segment(
    sport: u16, dport: u16, seqAck: bytes, reserved: byte, flags: byte, window: u16,
    sumUrgent: bytes, options: bytes)
  {
    predicate Valid() {
      |seqAck| == 8 && reserved < 16 && |sumUrgent| == 4 && |options| % 4 == 0 && |options| <= 40
    }

    function Length(): nat { 20 + |options| }

    function Fixed(): (s: bytes)
      requires Valid()
      ensures |s| == 20
    {
      [sport / 256, sport % 256, dport / 256, dport % 256,
       seqAck[0], seqAck[1], seqAck[2], seqAck[3], seqAck[4], seqAck[5], seqAck[6], seqAck[7],
       Length() / 4 * 16 + reserved, flags, window / 256, window % 256,
       sumUrgent[0], sumUrgent[1], sumUrgent[2], sumUrgent[3]]
    }

    function Print(): bytes
      requires Valid()
    {
      Fixed() + options
    }
  }

  function FirstKind(exts: seq<Extension>, after: byte): byte {
    if |exts| == 0 then after else exts[0].Kind()
  }

  function PrintExtensions(exts: seq<Extension>, after: byte): bytes {
    if |exts| == 0 then [] else exts[0].Print(FirstKind(exts[1..], after)) + PrintExtensions(exts[1..], after)
  }

  function PrintTags(tags: seq<Tag>, inner: u16): (s: bytes)
    ensures |s| == 4 * |tags| + 2
  {
    if |tags| == 0 then Two(inner) else Two(tags[0].tpid) + Two(tags[0].tci) + PrintTags(tags[1..], inner)
  }

  predicate ValidTags(tags: seq<Tag>) {
    forall t | t in tags :: t.tpid == 0x8100 || t.tpid == 0x88a8 || t.tpid == 0x9100
  }

  // The fragment key of the walk and whether it marks a later fragment.
  type Marks = (Option<FragmentKey>, bool)

  function MarksOf(e: Extension, src: Addr, dst: Addr, m: Marks): Marks {
    match e
    case Fragment(_, offsetFlags, ident) => (Some(FragmentKey(6, src, dst, ident)), offsetFlags / 8 != 0)
    case _ => m
  }

  // The last Fragment header decides; earlier ones are overwritten by the walk.
  function MarksAfter(exts: seq<Extension>, src: Addr, dst: Addr, m: Marks): Marks {
    if |exts| == 0 then m else MarksAfter(exts[1..], src, dst, MarksOf(exts[0], src, dst, m))
  }

  // ------------------------------------------------------------ placed bytes

  // `s` stands in `p` at offset `at`.
  ghost predicate Holds(p: bytes, at: nat, s: bytes) {
    at + |s| <= |p| && p[at..at + |s|] == s
  }

  lemma HoldsParts(p: bytes, at: nat, a: bytes, b: bytes)
    requires Holds(p, at, a + b)
    ensures Holds(p, at, a) && Holds(p, at + |a|, b)
  {
    var whole := p[at..at + |a + b|];
    assert p[at..at + |a|] == whole[..|a|] == a;
    assert p[at + |a|..at + |a| + |b|] == whole[|a|..] == b;
  }

  lemma HoldsByte(p: bytes, at: nat, s: bytes, k: nat)
    requires Holds(p, at, s) && k < |s|
    ensures p[at + k] == s[k]
  {
    assert p[at..at + |s|][k] == p[at + k];
  }

  // ------------------------------------------------------------ inversion

  lemma {:induction false} TagsReadBack(p: bytes, at: nat, tags: seq<Tag>, inner: u16)
    requires ValidTags(tags) && !IsVlan(inner)
    requires Holds(p, at, PrintTags(tags, inner))
    ensures at + 2 <= |p|
    ensures SkipVlan(p, U16(p[at], p[at + 1]), at + 2) == Some((inner, at + |PrintTags(tags, inner)|))
    decreases |tags|
  {
    var s := PrintTags(tags, inner);
    HoldsByte(p, at, s, 0);
    HoldsByte(p, at, s, 1);
    TwoReadsBack(if |tags| == 0 then inner else tags[0].tpid);
    if |tags| > 0 {
      assert tags[0] in tags;
      var head := Two(tags[0].tpid) + Two(tags[0].tci);
      assert s == head + PrintTags(tags[1..], inner);
      HoldsParts(p, at, head, PrintTags(tags[1..], inner));
      TagsReadBack(p, at + 4, tags[1..], inner);
    }
  }

  lemma ExtensionReadBack(p: bytes, src: Addr, dst: Addr, cur: nat, m: Marks, e: Extension, next: byte)
    requires e.Valid() && Holds(p, cur, e.Print(next))
    ensures var m' := MarksOf(e, src, dst, m);
            SkipExtensions(p, src, dst, HeaderWalk(e.Kind(), cur, m.0, m.1))
            == SkipExtensions(p, src, dst, HeaderWalk(next, cur + |e.Print(next)|, m'.0, m'.1))
  {
    ExtensionStepReadBack(p, src, dst, cur, m, e, next);
  }

  lemma ExtensionStepReadBack(p: bytes, src: Addr, dst: Addr, cur: nat, m: Marks, e: Extension, next: byte)
    requires e.Valid() && Holds(p, cur, e.Print(next))
    ensures var m' := MarksOf(e, src, dst, m);
            ExtensionStep(p, src, dst, HeaderWalk(e.Kind(), cur, m.0, m.1))
            == Some(HeaderWalk(next, cur + |e.Print(next)|, m'.0, m'.1))
  {
    var s := e.Print(next);
    HoldsByte(p, cur, s, 0);
    HoldsByte(p, cur, s, 1);
    if e.Fragment? {
      FragmentFieldsReadBack(e, next);
    }
  }

  lemma FragmentFieldsReadBack(e: Extension, next: byte)
    requires e.Valid() && e.Fragment?
    ensures var s := e.Print(next);
            && |s| == 8 && s[0] == next && U16(s[2], s[3]) == e.offsetFlags && U32(s[4], s[5], s[6], s[7]) == e.ident
  {
    hide U16, U32, Two, Four;
    var s, two, four := e.Print(next), Two(e.offsetFlags), Four(e.ident);
    TwoReadsBack(e.offsetFlags);
    FourReadsBack(e.ident);
    assert s[2] == two[0] && s[3] == two[1];
    assert s[4] == four[0] && s[5] == four[1] && s[6] == four[2] && s[7] == four[3];
  }

  // One printed header, then the rest of the chain.
  lemma ChainParts(p: bytes, src: Addr, dst: Addr, cur: nat, m: Marks, exts: seq<Extension>, after: byte)
    requires |exts| > 0 && Holds(p, cur, PrintExtensions(exts, after))
    ensures var printed := exts[0].Print(FirstKind(exts[1..], after));
            && Holds(p, cur, printed)
            && Holds(p, cur + |printed|, PrintExtensions(exts[1..], after))
            && |PrintExtensions(exts, after)| == |printed| + |PrintExtensions(exts[1..], after)|
    ensures FirstKind(exts, after) == exts[0].Kind()
    ensures MarksAfter(exts, src, dst, m) == MarksAfter(exts[1..], src, dst, MarksOf(exts[0], src, dst, m))
  {
    hide Extension.Print;
    HoldsParts(p, cur, exts[0].Print(FirstKind(exts[1..], after)), PrintExtensions(exts[1..], after));
  }

  lemma EmptyChain(src: Addr, dst: Addr, m: Marks, exts: seq<Extension>, after: byte)
    requires |exts| == 0
    ensures PrintExtensions(exts, after) == [] && FirstKind(exts, after) == after && MarksAfter(exts, src, dst, m) == m
  {
  }

  // The walk from the first header of a printed chain continues behind the chain.
  lemma {:induction false} ExtensionsReadBack(
      p: bytes, src: Addr, dst: Addr, cur: nat, m: Marks, exts: seq<Extension>, after: byte, end: nat)
    requires forall e | e in exts :: e.Valid()
    requires Holds(p, cur, PrintExtensions(exts, after)) && end == cur + |PrintExtensions(exts, after)|
    ensures var m' := MarksAfter(exts, src, dst, m);
            SkipExtensions(p, src, dst, HeaderWalk(FirstKind(exts, after), cur, m.0, m.1))
            == SkipExtensions(p, src, dst, HeaderWalk(after, end, m'.0, m'.1))
    decreases |exts|
  {
    hide *;
    if |exts| == 0 {
      EmptyChain(src, dst, m, exts, after);
    } else {
      var e, next := exts[0], FirstKind(exts[1..], after);
      ChainParts(p, src, dst, cur, m, exts, after);
      ExtensionReadBack(p, src, dst, cur, m, e, next);
      ExtensionsReadBack(p, src, dst, cur + |e.Print(next)|, MarksOf(e, src, dst, m), exts[1..], after, end);
    }
  }

  // Section 4.7 of RFC 8200: nothing follows.
  const NO_NEXT := 59

  // The walk stops at TCP; behind another header it is lost when the next byte says that
  // nothing follows.
  lemma WalkStops(p: bytes, src: Addr, dst: Addr, w: HeaderWalk)
    ensures !IsExtension(w.next) ==> SkipExtensions(p, src, dst, w) == Some(w)
    ensures w.next != 6 && (w.cur < |p| ==> p[w.cur] == NO_NEXT) ==>
              SkipExtensions(p, src, dst, w).None? || SkipExtensions(p, src, dst, w).value.next != 6
  {
    var step := ExtensionStep(p, src, dst, w);
    if IsExtension(w.next) && step.Some? {
      assert w.cur < |p| && p[w.cur] == NO_NEXT ==> step.value.next == NO_NEXT;
    }
  }

  lemma Nibbles(high: byte, low: byte)
    requires high < 16 && low < 16
    ensures (high * 16 + low) % 16 == low && (high * 16 + low) / 16 == high
  {
  }

  lemma WordReadsBack(n: u16)
    ensures U16(n / 256, n % 256) == n
  {
  }

  lemma Network4Fields(n: Network4, total: u16, off: nat, size: nat)
    requires n.Valid() && off + n.Length() <= size
    ensures Ipv4Fields(n.Fixed(total), off, size)
         == Some(Network(4, Ipv4Address(n.src), Ipv4Address(n.dst), off + n.Length(), off + total, n.Key(), n.Later()))
  {
    hide U16;
    var h := n.Fixed(total);
    assert h[12..16] == n.src && h[16..20] == n.dst;
    Nibbles(n.version, n.Length() / 4);
    WordReadsBack(total);
    WordReadsBack(n.ident);
    WordReadsBack(n.offsetFlags);
  }

  lemma Network4ReadBack(p: bytes, off: nat, n: Network4, total: u16)
    requires n.Valid() && Holds(p, off, n.Print(total))
    ensures ParseIpv4(p, off)
         == Some(Network(4, Ipv4Address(n.src), Ipv4Address(n.dst), off + n.Length(), off + total, n.Key(), n.Later()))
  {
    hide Ipv4Fields;
    HoldsParts(p, off, n.Fixed(total), n.options);
    Network4Fields(n, total, off, |p|);
  }

  lemma Network6Fixed(p: bytes, off: nat, n: Network6, size: u16, after: byte)
    requires n.Valid() && Holds(p, off, n.Fixed(size, after))
    ensures p[off] / 16 == 6 && p[off + 6] == FirstKind(n.extensions, after)
    ensures U16(p[off + 4], p[off + 5]) == size
    ensures p[off + 8..off + 24] == n.src && p[off + 24..off + 40] == n.dst
  {
    var h := n.Fixed(size, after);
    assert p[off] == h[0] && p[off + 6] == h[6] && p[off + 4] == h[4] && p[off + 5] == h[5];
    assert h[4..6] == Two(size);
    TwoReadsBack(size);
    assert h[8..24] == n.src && h[24..40] == n.dst;
    assert p[off + 8..off + 24] == p[off..off + 40][8..24];
    assert p[off + 24..off + 40] == p[off..off + 40][24..40];
  }

  // The walk stops behind the chain when TCP follows, and may be lost when something else does.
  lemma Network6ReadBack(p: bytes, off: nat, n: Network6, size: u16, after: byte)
    requires n.Valid() && Holds(p, off, n.Print(size, after))
    ensures var end := off + |n.Print(size, after)|;
            && (after == 6 ==> ParseIpv6(p, off) == Some(Network(6, n.src, n.dst, end, off + 40 + size,
                                                                 n.Marks().0, n.Marks().1)))
            && (after != 6 && (end < |p| ==> p[end] == NO_NEXT) ==> ParseIpv6(p, off) == None)
  {
    hide U16;
    hide SkipExtensions;
    hide PrintExtensions;
    hide MarksAfter;
    hide Network6.Fixed;
    HoldsParts(p, off, n.Fixed(size, after), PrintExtensions(n.extensions, after));
    Network6Fixed(p, off, n, size, after);
    var end := off + |n.Print(size, after)|;
    ExtensionsReadBack(p, n.src, n.dst, off + 40, (None, false), n.extensions, after, end);
    WalkStops(p, n.src, n.dst, HeaderWalk(after, end, n.Marks().0, n.Marks().1));
  }

  // What the parser is to report of a segment that starts in the frame.
  function Report(family: nat, src: Addr, dst: Addr, fragment: Option<FragmentKey>, t: Segment, payload: nat)
      : (r: Parsed)
    requires payload < 0x1_0000
    ensures !r.nonInitial
  {
    var (key, left) := Canonical(family, Endpoint(src, t.sport), Endpoint(dst, t.dport));
    Parsed(Some(key), fragment, false, left, t.flags, payload,
           t.window == 0 && t.flags / 16 % 2 == 1 && t.flags / 2 % 2 == 0)
  }

  lemma SegmentFieldsReadBack(t: Segment, size: nat, n: Network, payload: nat)
    requires t.Valid() && n.tcpOff + t.Length() <= size
    requires n.declaredEnd == n.tcpOff + t.Length() + payload < n.tcpOff + 0x1_0000
    ensures SegmentFields(t.Fixed(), size, n) == Some(Report(n.family, n.src, n.dst, n.fragment, t, payload))
  {
    hide U16, Canonical;
    Nibbles(t.Length() / 4, t.reserved);
    WordReadsBack(t.sport);
    WordReadsBack(t.dport);
    WordReadsBack(t.window);
  }

  // ------------------------------------------------------------ whole frames

  // Offset of the network header behind the addresses, the tags and the EtherType.
  function NetworkOffset(tags: seq<Tag>): nat {
    14 + 4 * |tags|
  }

  // A frame that carries the tags and the network header at their places; the MAC
  // addresses in front and all bytes behind are arbitrary.
  ghost predicate Carries(p: bytes, tags: seq<Tag>, inner: u16, network: bytes) {
    ValidTags(tags) && Holds(p, 12, PrintTags(tags, inner)) && Holds(p, NetworkOffset(tags), network)
  }

  // Printing the layers one after the other builds such a frame.
  lemma PrintedFrameCarries(macs: bytes, tags: seq<Tag>, inner: u16, network: bytes, transport: bytes, rest: bytes)
    requires |macs| == 12 && ValidTags(tags)
    ensures var p := macs + PrintTags(tags, inner) + network + transport + rest;
            && Carries(p, tags, inner, network)
            && Holds(p, NetworkOffset(tags) + |network|, transport)
  {
    var p := macs + PrintTags(tags, inner) + network + transport + rest;
    var at := NetworkOffset(tags);
    assert p[12..at] == PrintTags(tags, inner);
    assert p[at..at + |network|] == network;
    assert p[at + |network|..at + |network| + |transport|] == transport;
  }

  lemma Network4Frame(p: bytes, tags: seq<Tag>, n: Network4, total: u16)
    requires n.Valid() && Carries(p, tags, 0x0800, n.Print(total))
    ensures var off := NetworkOffset(tags);
            ParseNetwork(p) == Some(Network(4, Ipv4Address(n.src), Ipv4Address(n.dst), off + n.Length(), off + total,
                                            n.Key(), n.Later()))
  {
    hide ParseIpv4;
    hide Network4.Print;
    TagsReadBack(p, 12, tags, 0x0800);
    Network4ReadBack(p, NetworkOffset(tags), n, total);
  }

  lemma Network6Frame(p: bytes, tags: seq<Tag>, n: Network6, size: u16, after: byte)
    requires n.Valid() && Carries(p, tags, 0x86dd, n.Print(size, after))
    ensures var off := NetworkOffset(tags);
            var end := off + |n.Print(size, after)|;
            && (after == 6 ==> ParseNetwork(p) == Some(Network(6, n.src, n.dst, end, off + 40 + size,
                                                               n.Marks().0, n.Marks().1)))
            && (after != 6 && (end < |p| ==> p[end] == NO_NEXT) ==> ParseNetwork(p) == None)
  {
    hide ParseIpv6;
    hide Network6.Print;
    TagsReadBack(p, 12, tags, 0x86dd);
    Network6ReadBack(p, NetworkOffset(tags), n, size, after);
  }

  lemma FrameReadsBack(p: bytes, n: Network, t: Segment, payload: nat)
    requires ParseNetwork(p) == Some(n) && t.Valid() && !n.nonInitial && Holds(p, n.tcpOff, t.Print())
    requires n.declaredEnd == n.tcpOff + t.Length() + payload < n.tcpOff + 0x1_0000
    ensures Parse(p, 1) == Some(Report(n.family, n.src, n.dst, n.fragment, t, payload))
  {
    hide ParseNetwork;
    hide SegmentFields;
    HoldsParts(p, n.tcpOff, t.Fixed(), t.options);
    SegmentFieldsReadBack(t, |p|, n, payload);
  }

  /** Any IPv4 frame whose fragment offset is zero reads back, whatever follows the TCP header. */
  lemma Ipv4FrameReadsBack(p: bytes, tags: seq<Tag>, n: Network4, t: Segment, payload: nat)
    requires n.Valid() && t.Valid() && !n.Later()
    requires n.Length() + t.Length() + payload < 0x1_0000
    requires Carries(p, tags, 0x0800, n.Print(n.Length() + t.Length() + payload))
    requires Holds(p, NetworkOffset(tags) + n.Length(), t.Print())
    ensures Parse(p, 1) == Some(Report(4, Ipv4Address(n.src), Ipv4Address(n.dst), n.Key(), t, payload))
  {
    hide ParseNetwork;
    Network4Frame(p, tags, n, n.Length() + t.Length() + payload);
    FrameReadsBack(p, ParseNetwork(p).value, t, payload);
  }

  lemma LaterIsFragment(n: Network4)
    requires n.Valid() && n.Later()
    ensures n.Key().Some?
  {
    OffsetBitsAreFragmentBits(n.offsetFlags);
  }

  /** A later IPv4 fragment yields its fragment key and no flow key, whatever data it carries. */
  lemma Ipv4LaterFragmentReadsBack(p: bytes, tags: seq<Tag>, n: Network4, total: u16)
    requires n.Valid() && n.Later() && Carries(p, tags, 0x0800, n.Print(total))
    ensures n.Key().Some?
    ensures Parse(p, 1) == Some(Parsed(None, n.Key(), true, false, 0, 0, false))
  {
    hide ParseNetwork;
    LaterIsFragment(n);
    Network4Frame(p, tags, n, total);
  }

  /** Any IPv6 frame with any chain of extension headers reads back unless it is a later fragment. */
  lemma Ipv6FrameReadsBack(p: bytes, tags: seq<Tag>, n: Network6, t: Segment, payload: nat)
    requires n.Valid() && t.Valid() && !n.Marks().1
    requires |PrintExtensions(n.extensions, 6)| + t.Length() + payload < 0x1_0000
    requires Carries(p, tags, 0x86dd, n.Print(|PrintExtensions(n.extensions, 6)| + t.Length() + payload, 6))
    requires Holds(p, NetworkOffset(tags) + 40 + |PrintExtensions(n.extensions, 6)|, t.Print())
    ensures Parse(p, 1) == Some(Report(6, n.src, n.dst, n.Marks().0, t, payload))
  {
    hide ParseNetwork;
    Network6Frame(p, tags, n, |PrintExtensions(n.extensions, 6)| + t.Length() + payload, 6);
    FrameReadsBack(p, ParseNetwork(p).value, t, payload);
  }

  /**
   A later IPv6 fragment (its last Fragment header has a non-zero offset) is recognised for
   all the data it may carry, however many bytes, exactly when the chain names TCP as what
   follows. When the fragmentable part starts with another extension header, the walk takes
   fragment data for headers and may lose the packet.
   */
  lemma Ipv6LaterFragmentReadsBack(front: bytes, tags: seq<Tag>, n: Network6, size: u16, after: byte, count: nat)
    requires n.Valid() && n.Marks().1
    requires Carries(front, tags, 0x86dd, n.Print(size, after))
    requires |front| == NetworkOffset(tags) + |n.Print(size, after)|
    ensures (forall data: bytes | |data| == count ::
               Parse(front + data, 1) == Some(Parsed(None, n.Marks().0, true, false, 0, 0, false)))
            <==> after == 6
  {
    hide ParseNetwork;
    hide Network6.Print;
    if after == 6 {
      forall data: bytes | |data| == count
        ensures Parse(front + data, 1) == Some(Parsed(None, n.Marks().0, true, false, 0, 0, false))
      {
        StillCarries(front, tags, 0x86dd, n.Print(size, after), data);
        Network6Frame(front + data, tags, n, size, after);
      }
    } else {
      var data: bytes := seq(count, (_: nat) => NO_NEXT);
      StillCarries(front, tags, 0x86dd, n.Print(size, after), data);
      Network6Frame(front + data, tags, n, size, after);
      assert |data| == count && Parse(front + data, 1) == None;
    }
  }

  /**
   A later fragment, once with TCP named next and once with a Destination Options header
   (section 4.6 of RFC 8200), and data that starts with "nothing follows": only the first is found.
   */
  lemma FragmentBehindOptionsIsLost(macs: bytes, src: Addr, dst: Addr, data: bytes)
    requires |macs| == 12 && 0 < |data| < 0x8000 && data[0] == NO_NEXT
    ensures var n := Network6(0, [0, 0, 0], 64, src, dst, [Fragment(0, 8, 7)]);
            && n.Valid()
            && Parse(macs + Two(0x86dd) + n.Print(8 + |data|, 6) + data, 1)
               == Some(Parsed(None, Some(FragmentKey(6, src, dst, 7)), true, false, 0, 0, false))
            && Parse(macs + Two(0x86dd) + n.Print(8 + |data|, 60) + data, 1) == None
  {
    hide ParseNetwork, Network6.Print, MarksAfter, Two;
    var n := Network6(0, [0, 0, 0], 64, src, dst, [Fragment(0, 8, 7)]);
    FragmentAlone(src, dst, n.extensions[0], n.extensions);
    PutBehind(macs, n.Print(8 + |data|, 6), data);
    PutBehind(macs, n.Print(8 + |data|, 60), data);
    Network6Frame(macs + Two(0x86dd) + n.Print(8 + |data|, 6) + data, [], n, 8 + |data|, 6);
    Network6Frame(macs + Two(0x86dd) + n.Print(8 + |data|, 60) + data, [], n, 8 + |data|, 60);
  }

  lemma FragmentAlone(src: Addr, dst: Addr, e: Extension, exts: seq<Extension>)
    requires exts == [e] && e == Fragment(0, 8, 7)
    ensures MarksAfter(exts, src, dst, (None, false)) == (Some(FragmentKey(6, src, dst, 7)), true)
  {
    assert exts[1..] == [];
  }

  lemma PutBehind(macs: bytes, network: bytes, data: bytes)
    requires |macs| == 12 && |data| > 0
    ensures var p := macs + Two(0x86dd) + network + data;
            Carries(p, [], 0x86dd, network) && p[14 + |network|] == data[0]
  {
    hide Two;
    PrintedFrameCarries(macs, [], 0x86dd, network, [], data);
    assert PrintTags([], 0x86dd) == Two(0x86dd);
    assert macs + PrintTags([], 0x86dd) + network + [] + data == macs + Two(0x86dd) + network + data;
  }

  lemma StillCarries(front: bytes, tags: seq<Tag>, inner: u16, network: bytes, data: bytes)
    requires Carries(front, tags, inner, network)
    ensures Carries(front + data, tags, inner, network)
  {
    var p, at := front + data, NetworkOffset(tags);
    assert p[12..12 + |PrintTags(tags, inner)|] == front[12..12 + |PrintTags(tags, inner)|];
    assert p[at..at + |network|] == front[at..at + |network|];
  }
}
