/**
 What the frame parser accepts: nothing but the frames that `PacketPrinter` lays out. Together
 with the read-back theorems this says exactly which frames are TCP packets to the indexer.
 */
module PacketConverse {
  import opened Wrappers
  import opened Bytes
  import opened Packet
  import opened PacketPrinter

  // `p` is a frame with IPv4 header `n` and TCP header `t`, and `r` is what to report of it.
  ghost predicate IsIpv4Frame(p: bytes, tags: seq<Tag>, n: Network4, t: Segment, payload: nat, r: Parsed) {
    && n.Valid() && t.Valid() && !n.Later() && n.Length() + t.Length() + payload < 0x1_0000
    && Carries(p, tags, 0x0800, n.Print(n.Length() + t.Length() + payload))
    && Holds(p, NetworkOffset(tags) + n.Length(), t.Print())
    && r == Report(4, Ipv4Address(n.src), Ipv4Address(n.dst), n.Key(), t, payload)
  }

  ghost predicate IsIpv4Fragment(p: bytes, tags: seq<Tag>, n: Network4, total: u16, r: Parsed) {
    && n.Valid() && n.Later() && Carries(p, tags, 0x0800, n.Print(total))
    && r == Parsed(None, n.Key(), true, false, 0, 0, false)
  }

  ghost predicate IsIpv6Frame(p: bytes, tags: seq<Tag>, n: Network6, t: Segment, payload: nat, r: Parsed) {
    && n.Valid() && t.Valid() && !n.Marks().1
    && |PrintExtensions(n.extensions, 6)| + t.Length() + payload < 0x1_0000
    && Carries(p, tags, 0x86dd, n.Print(|PrintExtensions(n.extensions, 6)| + t.Length() + payload, 6))
    && Holds(p, NetworkOffset(tags) + 40 + |PrintExtensions(n.extensions, 6)|, t.Print())
    && r == Report(6, n.src, n.dst, n.Marks().0, t, payload)
  }

  // The frame may end inside the last extension header: `cut` is what it lacks.
  ghost predicate IsIpv6Fragment(p: bytes, cut: bytes, tags: seq<Tag>, n: Network6, size: u16, r: Parsed) {
    && n.Valid() && n.Marks().1 && Carries(p + cut, tags, 0x86dd, n.Print(size, 6))
    && r == Parsed(None, n.Marks().0, true, false, 0, 0, false)
  }

  // ------------------------------------------------------------ tags

  lemma {:induction false} TagsAreHeld(p: bytes, at: nat) returns (tags: seq<Tag>)
    requires at + 2 <= |p| && SkipVlan(p, U16(p[at], p[at + 1]), at + 2).Some?
    ensures ValidTags(tags)
    ensures var (inner, off) := SkipVlan(p, U16(p[at], p[at + 1]), at + 2).value;
            Holds(p, at, PrintTags(tags, inner)) && off == at + 2 + 4 * |tags|
    decreases |p| - at
  {
    var eth := U16(p[at], p[at + 1]);
    var (inner, off) := SkipVlan(p, eth, at + 2).value;
    if !IsVlan(eth) {
      tags := [];
      assert p[at..at + 2] == Two(eth);
    } else {
      var rest := TagsAreHeld(p, at + 4);
      var tag := Tag(eth, U16(p[at + 2], p[at + 3]));
      tags := [tag] + rest;
      assert tags[1..] == rest;
      var s := Two(tag.tpid) + Two(tag.tci);
      assert p[at..at + 4] == s;
      HoldsBoth(p, at, s, PrintTags(rest, inner));
    }
  }

  lemma HoldsBoth(p: bytes, at: nat, a: bytes, b: bytes)
    requires Holds(p, at, a) && Holds(p, at + |a|, b)
    ensures Holds(p, at, a + b)
  {
    assert p[at..at + |a + b|] == p[at..at + |a|] + p[at + |a|..at + |a| + |b|];
  }

  // ------------------------------------------------------------ IPv4

  lemma Ipv4IsHeld(p: bytes, off: nat) returns (n: Network4, total: u16)
    requires off <= |p| && ParseIpv4(p, off).Some?
    ensures n.Valid() && Holds(p, off, n.Print(total))
  {
    var h := p[off..off + 20];
    var options := p[off + 20..off + h[0] % 16 * 4];
    n := Network4(h[0] / 16, h[1], U16(h[4], h[5]), U16(h[6], h[7]), h[8], U16(h[10], h[11]), h[12..16], h[16..20], options);
    total := U16(h[2], h[3]);
    FixedIsHeld(h, n, total);
    HoldsBoth(p, off, h, options);
  }

  lemma WordBytes(hi: byte, lo: byte)
    ensures U16(hi, lo) / 256 == hi && U16(hi, lo) % 256 == lo
  {
  }

  lemma FixedIsHeld(h: bytes, n: Network4, total: u16)
    requires |h| == 20 && h[0] % 16 * 4 == 20 + |n.options| <= 60 && h[9] == 6 && total == U16(h[2], h[3])
    requires n == Network4(h[0] / 16, h[1], U16(h[4], h[5]), U16(h[6], h[7]), h[8], U16(h[10], h[11]),
                           h[12..16], h[16..20], n.options)
    ensures n.Valid() && n.Fixed(total) == h
  {
    hide U16;
    WordBytes(h[2], h[3]);
    WordBytes(h[4], h[5]);
    WordBytes(h[6], h[7]);
    WordBytes(h[10], h[11]);
    assert n.Fixed(total)[0] == h[0];
  }

  // ------------------------------------------------------------ IPv6

  lemma ExtensionIsHeld(p: bytes, src: Addr, dst: Addr, w: HeaderWalk) returns (e: Extension)
    requires IsExtension(w.next) && ExtensionStep(p, src, dst, w).Some?
    requires ExtensionStep(p, src, dst, w).value.cur <= |p|
    ensures e.Valid() && e.Kind() == w.next
    ensures var w' := ExtensionStep(p, src, dst, w).value;
            && Holds(p, w.cur, e.Print(w'.next)) && w'.cur == w.cur + |e.Print(w'.next)|
            && (w'.fragment, w'.nonInitial) == MarksOf(e, src, dst, (w.fragment, w.nonInitial))
  {
    var w' := ExtensionStep(p, src, dst, w).value;
    if w.next == 44 {
      var h := p[w.cur..w.cur + 8];
      e := FragmentIsHeld(h, src, dst, w.cur);
    } else if w.next == 51 {
      e := Auth(p[w.cur + 1], p[w.cur + 2..w'.cur]);
      assert p[w.cur..w'.cur] == [p[w.cur], p[w.cur + 1]] + p[w.cur + 2..w'.cur];
    } else {
      e := Extension.Options(w.next, p[w.cur + 1], p[w.cur + 2..w'.cur]);
      assert p[w.cur..w'.cur] == [p[w.cur], p[w.cur + 1]] + p[w.cur + 2..w'.cur];
    }
  }

  lemma QuadBytes(b3: byte, b2: byte, b1: byte, b0: byte)
    ensures Four(U32(b3, b2, b1, b0)) == [b3, b2, b1, b0]
  {
    hide U16, Two;
    Halves(U16(b3, b2), U16(b1, b0));
    PairBytes(b3, b2);
    PairBytes(b1, b0);
    assert [b3, b2] + [b1, b0] == [b3, b2, b1, b0];
  }

  lemma PairBytes(hi: byte, lo: byte)
    ensures Two(U16(hi, lo)) == [hi, lo]
  {
  }

  lemma Halves(a: u16, b: u16)
    ensures (a * 0x1_0000 + b) / 0x1_0000 == a && (a * 0x1_0000 + b) % 0x1_0000 == b
  {
  }

  lemma FragmentIsHeld(h: bytes, src: Addr, dst: Addr, cur: nat) returns (e: Extension)
    requires |h| == 8
    ensures e.Fragment? && e.Print(h[0]) == h
    ensures var w' := FragmentFields(h, src, dst, cur);
            (w'.fragment, w'.nonInitial) == MarksOf(e, src, dst, (None, false)) && w'.next == h[0] && w'.cur == cur + 8
  {
    hide U16, U32, Four;
    e := Fragment(h[1], U16(h[2], h[3]), U32(h[4], h[5], h[6], h[7]));
    WordBytes(h[2], h[3]);
    QuadBytes(h[4], h[5], h[6], h[7]);
    assert [h[0], h[1]] + [h[2], h[3]] + [h[4], h[5], h[6], h[7]] == h;
  }

  // A chain whose end lies inside the frame is a printed chain.
  lemma {:induction false} ChainIsHeld(p: bytes, src: Addr, dst: Addr, w: HeaderWalk) returns (exts: seq<Extension>)
    requires SkipExtensions(p, src, dst, w).Some? && SkipExtensions(p, src, dst, w).value.cur <= |p|
    ensures forall e | e in exts :: e.Valid()
    ensures var last := SkipExtensions(p, src, dst, w).value;
            && FirstKind(exts, last.next) == w.next
            && Holds(p, w.cur, PrintExtensions(exts, last.next)) && last.cur == w.cur + |PrintExtensions(exts, last.next)|
            && (last.fragment, last.nonInitial) == MarksAfter(exts, src, dst, (w.fragment, w.nonInitial))
    decreases |p| - w.cur
  {
    hide ExtensionStep, MarksOf, Extension.Print;
    if !IsExtension(w.next) {
      exts := [];
    } else {
      var w' := ExtensionStep(p, src, dst, w).value;
      var rest := ChainIsHeld(p, src, dst, w');
      var e := ExtensionIsHeld(p, src, dst, w);
      var last := SkipExtensions(p, src, dst, w).value;
      exts := [e] + rest;
      assert exts[1..] == rest;
      HoldsBoth(p, w.cur, e.Print(w'.next), PrintExtensions(rest, last.next));
    }
  }

  lemma Ipv6IsHeld(p: bytes, off: nat) returns (n: Network6, size: u16)
    requires off <= |p| && ParseIpv6(p, off).Some? && ParseIpv6(p, off).value.tcpOff <= |p|
    ensures n.Valid() && Holds(p, off, n.Print(size, 6))
  {
    hide SkipExtensions, U16;
    var src, dst := p[off + 8..off + 24], p[off + 24..off + 40];
    var first := HeaderWalk(p[off + 6], off + 40, None, false);
    var exts := ChainIsHeld(p, src, dst, first);
    n := Network6(p[off] % 16, p[off + 1..off + 4], p[off + 7], src, dst, exts);
    size := U16(p[off + 4], p[off + 5]);
    WordBytes(p[off + 4], p[off + 5]);
    FixedPartIsHeld(p, off, n, size);
    HoldsBoth(p, off, n.Fixed(size, 6), PrintExtensions(exts, 6));
  }

  lemma FixedPartIsHeld(p: bytes, off: nat, n: Network6, size: u16)
    requires n.Valid() && off + 40 <= |p| && p[off] == 96 + n.traffic && n.flowLabel == p[off + 1..off + 4]
    requires Two(size) == [p[off + 4], p[off + 5]] && FirstKind(n.extensions, 6) == p[off + 6] && n.hops == p[off + 7]
    requires n.src == p[off + 8..off + 24] && n.dst == p[off + 24..off + 40]
    ensures Holds(p, off, n.Fixed(size, 6))
  {
    hide FirstKind, Two;
    assert p[off..off + 40] == [p[off]] + p[off + 1..off + 4] + [p[off + 4], p[off + 5]] + [p[off + 6], p[off + 7]]
                               + p[off + 8..off + 24] + p[off + 24..off + 40];
  }

  // ------------------------------------------------------------ TCP

  lemma SegmentIsHeld(p: bytes, n: Network) returns (t: Segment)
    requires n.declaredEnd < n.tcpOff + 0x1_0000 && !n.nonInitial && ParseTransport(p, n).Some?
    ensures t.Valid() && Holds(p, n.tcpOff, t.Print()) && n.tcpOff + t.Length() <= n.declaredEnd
  {
    var h := p[n.tcpOff..n.tcpOff + 20];
    var options := p[n.tcpOff + 20..n.tcpOff + h[12] / 16 * 4];
    t := Segment(U16(h[0], h[1]), U16(h[2], h[3]), h[4..12], h[12] % 16, h[13], U16(h[14], h[15]), h[16..20], options);
    SegmentFixedIsHeld(h, t);
    HoldsBoth(p, n.tcpOff, h, options);
  }

  lemma SegmentFixedIsHeld(h: bytes, t: Segment)
    requires |h| == 20 && h[12] / 16 * 4 == 20 + |t.options|
    requires t == Segment(U16(h[0], h[1]), U16(h[2], h[3]), h[4..12], h[12] % 16, h[13], U16(h[14], h[15]), h[16..20],
                          t.options)
    ensures t.Valid() && t.Fixed() == h
  {
    hide U16;
    WordBytes(h[0], h[1]);
    WordBytes(h[2], h[3]);
    WordBytes(h[14], h[15]);
    assert t.Fixed()[12] == h[12];
  }

  // ------------------------------------------------------------ whole frames

  lemma {:induction false} EtherTypes(p: bytes) returns (tags: seq<Tag>, eth: u16)
    requires ParseNetwork(p).Some?
    ensures ValidTags(tags) && Holds(p, 12, PrintTags(tags, eth)) && NetworkOffset(tags) <= |p|
    ensures (eth == 0x0800 && ParseIpv4(p, NetworkOffset(tags)) == ParseNetwork(p))
         || (eth == 0x86dd && ParseIpv6(p, NetworkOffset(tags)) == ParseNetwork(p))
  {
    hide ParseIpv4, ParseIpv6;
    tags := TagsAreHeld(p, 12);
    eth := SkipVlan(p, U16(p[12], p[13]), 14).value.0;
  }

  lemma Ipv4FrameIsHeld(p: bytes, tags: seq<Tag>, r: Parsed)
    requires ValidTags(tags) && Holds(p, 12, PrintTags(tags, 0x0800)) && NetworkOffset(tags) <= |p|
    requires ParseNetwork(p).Some? && ParseIpv4(p, NetworkOffset(tags)) == ParseNetwork(p)
    requires ParseTransport(p, ParseNetwork(p).value) == Some(r)
    ensures if r.nonInitial then exists n, total :: IsIpv4Fragment(p, tags, n, total, r)
            else exists n, t, payload :: IsIpv4Frame(p, tags, n, t, payload, r)
  {
    hide ParseIpv4, Network4.Print, Segment.Print, SegmentFields, Report;
    var n, total := Ipv4IsHeld(p, NetworkOffset(tags));
    assert Carries(p, tags, 0x0800, n.Print(total));
    Network4Frame(p, tags, n, total);
    if n.Later() {
      assert IsIpv4Fragment(p, tags, n, total, r);
    } else {
      var t := SegmentIsHeld(p, ParseNetwork(p).value);
      var payload := total - n.Length() - t.Length();
      Ipv4FrameReadsBack(p, tags, n, t, payload);
      assert IsIpv4Frame(p, tags, n, t, payload, r);
    }
  }

  lemma Ipv6FrameIsHeld(p: bytes, tags: seq<Tag>, r: Parsed)
    requires ValidTags(tags) && Holds(p, 12, PrintTags(tags, 0x86dd)) && NetworkOffset(tags) <= |p|
    requires ParseNetwork(p).Some? && ParseIpv6(p, NetworkOffset(tags)) == ParseNetwork(p)
    requires ParseTransport(p, ParseNetwork(p).value) == Some(r) && ParseNetwork(p).value.tcpOff <= |p|
    ensures if r.nonInitial then exists n, size :: IsIpv6Fragment(p, [], tags, n, size, r)
            else exists n, t, payload :: IsIpv6Frame(p, tags, n, t, payload, r)
  {
    hide ParseIpv6, Network6.Print, PrintExtensions, Segment.Print, SegmentFields, Report, MarksAfter;
    var n, size := Ipv6IsHeld(p, NetworkOffset(tags));
    assert Carries(p, tags, 0x86dd, n.Print(size, 6));
    Network6Frame(p, tags, n, size, 6);
    PrintedSize(n, size);
    if n.Marks().1 {
      assert p + [] == p;
      assert IsIpv6Fragment(p, [], tags, n, size, r);
    } else {
      var t := SegmentIsHeld(p, ParseNetwork(p).value);
      var payload := size - |PrintExtensions(n.extensions, 6)| - t.Length();
      Ipv6FrameReadsBack(p, tags, n, t, payload);
      assert IsIpv6Frame(p, tags, n, t, payload, r);
    }
  }

  lemma PrintedSize(n: Network6, size: u16)
    requires n.Valid()
    ensures |n.Print(size, 6)| == 40 + |PrintExtensions(n.extensions, 6)|
  {
  }

  // A later fragment whose chain runs past the end of the frame, completed with any bytes.
  lemma CutFragmentIsHeld(p: bytes, r: Parsed) returns (cut: bytes, tags: seq<Tag>, n: Network6, size: u16)
    requires ParseNetwork(p).Some? && ParseTransport(p, ParseNetwork(p).value) == Some(r)
    requires ParseNetwork(p).value.tcpOff > |p|
    ensures IsIpv6Fragment(p, cut, tags, n, size, r)
  {
    hide ParseIpv4, ParseIpv6, Network6.Print, SegmentFields, MarksAfter, ParseNetwork;
    cut := seq(ParseNetwork(p).value.tcpOff - |p|, (_: nat) => 0);
    var q := p + cut;
    var eth: u16;
    tags, eth := EtherTypes(p);
    assert eth == 0x86dd;
    var off := NetworkOffset(tags);
    Ipv6Prefix(p, q, off, |p|);
    n, size := Ipv6IsHeld(q, off);
    assert q[12..off] == p[12..off];
    Network6Frame(q, tags, n, size, 6);
    NetworkPrefix(p, q, |p|);
  }

  // Some printed frame explains the answer.
  ghost predicate Explained(p: bytes, r: Parsed) {
    || (exists tags, n, t, payload :: IsIpv4Frame(p, tags, n, t, payload, r))
    || (exists tags, n, total :: IsIpv4Fragment(p, tags, n, total, r))
    || (exists tags, n, t, payload :: IsIpv6Frame(p, tags, n, t, payload, r))
    || (exists cut, tags, n, size :: IsIpv6Fragment(p, cut, tags, n, size, r))
  }

  /**
   The parser accepts nothing else: what it reports, of any bytes and link type, is the report of
   an Ethernet frame with VLAN tags, an IPv4 header with protocol 6 or an IPv6 chain that ends in
   6, and, unless it is a later fragment, a TCP header inside frame and declared length.
   */
  lemma AcceptedIsExplained(p: bytes, linktype: u32, r: Parsed)
    requires Parse(p, linktype) == Some(r)
    ensures linktype == 1 && Explained(p, r)
  {
    hide ParseNetwork, ParseTransport, ParseIpv4, ParseIpv6;
    if ParseNetwork(p).value.tcpOff > |p| {
      var cut, tags, n, size := CutFragmentIsHeld(p, r);
    } else {
      var tags, eth := EtherTypes(p);
      Reported(p, r);
      if eth == 0x0800 {
        Ipv4FrameIsHeld(p, tags, r);
      } else {
        Ipv6FrameIsHeld(p, tags, r);
      }
    }
  }

  lemma Reported(p: bytes, r: Parsed)
    requires Parse(p, 1) == Some(r)
    ensures ParseNetwork(p).Some? && ParseTransport(p, ParseNetwork(p).value) == Some(r)
  {
    hide ParseNetwork, ParseTransport;
  }

  /** A frame is reported as the start of a segment if and only if it is such a frame. */
  lemma SegmentsAreExact(p: bytes, r: Parsed)
    requires !r.nonInitial
    ensures Parse(p, 1) == Some(r)
            <==> (exists tags, n, t, payload :: IsIpv4Frame(p, tags, n, t, payload, r))
                 || (exists tags, n, t, payload :: IsIpv6Frame(p, tags, n, t, payload, r))
  {
    hide Parse, Carries, Report, Network4.Print, Network6.Print, Segment.Print, PrintExtensions;
    if Parse(p, 1) == Some(r) {
      AcceptedIsExplained(p, 1, r);
    }
    if tags, n, t, payload :| IsIpv4Frame(p, tags, n, t, payload, r) {
      Ipv4FrameReadsBack(p, tags, n, t, payload);
    }
    if tags, n, t, payload :| IsIpv6Frame(p, tags, n, t, payload, r) {
      Ipv6FrameReadsBack(p, tags, n, t, payload);
    }
  }

  /** An IPv4 frame with another protocol, UDP say, is refused, whatever it carries. */
  lemma OtherProtocolIsRefused(p: bytes, tags: seq<Tag>, h: bytes)
    requires |h| == 20 && h[9] != 6 && Carries(p, tags, 0x0800, h)
    ensures Parse(p, 1) == None
  {
    TagsReadBack(p, 12, tags, 0x0800);
  }
}
