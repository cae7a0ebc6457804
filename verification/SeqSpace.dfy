/** Ranges of sequence space: merging, splitting at 2^32, and what both leave unchanged. */
module SeqSpace {
  import opened Wrappers
  import opened Sequences
  import opened Intervals
  import opened StableSort
  import opened Trace

  const SEQ_SPACE: nat := 0x1_0000_0000

  datatype Range = Range(start: nat, end: nat)

  predicate Proper(rs: seq<Range>) {
    forall r | r in rs :: r.start <= r.end
  }

  function Span(a: nat, b: nat): (s: set<nat>)
    ensures forall x :: x in s <==> a <= x < b
    ensures |s| == if a < b then b - a else 0
  {
    Interval(a, b)
  }

  // The positions covered by any of the ranges.
  function Cover(rs: seq<Range>): set<nat> {
    if |rs| == 0 then {} else Cover(Init(rs)) + Span(Last(rs).start, Last(rs).end)
  }

  lemma {:induction false} CoverMembers(rs: seq<Range>)
    ensures forall x :: x in Cover(rs) <==> exists r :: r in rs && r.start <= x < r.end
  {
    if |rs| > 0 {
      CoverMembers(Init(rs));
      assert rs == Init(rs) + [Last(rs)];
      forall x
        ensures x in Cover(rs) <==> exists r :: r in rs && r.start <= x < r.end
      {
        if x in Span(Last(rs).start, Last(rs).end) {
          assert Last(rs) in rs && Last(rs).start <= x < Last(rs).end;
        }
      }
    }
  }

  lemma CoverOfSameRanges(rs: seq<Range>, qs: seq<Range>)
    requires forall r :: r in rs <==> r in qs
    ensures Cover(rs) == Cover(qs)
  {
    CoverMembers(rs);
    CoverMembers(qs);
  }

  lemma {:induction false} CoverConcat(rs: seq<Range>, qs: seq<Range>)
    ensures Cover(rs + qs) == Cover(rs) + Cover(qs)
  {
    CoverMembers(rs);
    CoverMembers(qs);
    CoverMembers(rs + qs);
  }

  // ------------------------------------------------------------ unique_payload

  function Start(r: Range): int { r.start }

  function End(r: Range): int { r.end }

  // `sorted(ranges)` on pairs: by start, equal starts by end.
  function SortRanges(rs: seq<Range>): seq<Range> {
    Sort(Sort(rs, End), Start)
  }

  lemma SortRangesSorts(rs: seq<Range>)
    ensures Sorted(SortRanges(rs), Start) && |SortRanges(rs)| == |rs|
    ensures forall r :: r in SortRanges(rs) <==> r in rs
  {
    SortSorts(rs, End);
    SortSorts(Sort(rs, End), Start);
    SameElements(SortRanges(rs), rs);
  }

  // Ranges in order that do not even touch.
  ghost predicate Separated(rs: seq<Range>) {
    && (forall i | 0 <= i < |rs| :: rs[i].start <= rs[i].end)
    && forall i, j | 0 <= i < j < |rs| :: rs[i].end < rs[j].start
  }

  function TotalLength(rs: seq<Range>): int {
    if |rs| == 0 then 0 else TotalLength(Init(rs)) + (Last(rs).end - Last(rs).start)
  }

  lemma {:induction false} SeparatedLength(rs: seq<Range>)
    requires Separated(rs)
    ensures TotalLength(rs) == |Cover(rs)|
  {
    if |rs| > 0 {
      var r := Last(rs);
      forall q | q in Init(rs)
        ensures q.end < r.start
      {
        var k :| 0 <= k < |rs| - 1 && rs[k] == q;
      }
      SeparatedLength(Init(rs));
      CoverMembers(Init(rs));
      assert Cover(Init(rs)) !! Span(r.start, r.end);
    }
  }

  method Merge(ranges: seq<Range>) returns (merged: seq<Range>)
    requires Proper(ranges)
    ensures Separated(merged) && Cover(merged) == Cover(ranges)
  {
    hide Separated, Cover, Span, SortRanges, Sorted;
    var sorted := SortRanges(ranges);
    SortRangesSorts(ranges);
    CoverOfSameRanges(sorted, ranges);
    NothingMerged(sorted);
    merged := [];
    for n := 0 to |sorted|
      invariant Separated(merged) && Cover(merged) == Cover(sorted[..n])
      invariant |merged| > 0 && n < |sorted| ==> Last(merged).start <= sorted[n].start
    {
      var r := sorted[n];
      NextRange(sorted, n);
      if |merged| > 0 && r.start <= Last(merged).end {
        var joined := Range(Last(merged).start, if Last(merged).end >= r.end then Last(merged).end else r.end);
        JoinLast(merged, r, joined);
        merged := merged[|merged| - 1 := joined];
      } else {
        AddLast(merged, r);
        merged := merged + [r];
      }
    }
    assert sorted[..|sorted|] == sorted;
  }

  lemma NothingMerged(sorted: seq<Range>)
    ensures Separated([]) && Cover([]) == Cover(sorted[..0])
  {
  }

  lemma NextRange(sorted: seq<Range>, n: nat)
    requires Sorted(sorted, Start) && Proper(sorted) && n < |sorted|
    ensures sorted[n].start <= sorted[n].end
    ensures Cover(sorted[..n + 1]) == Cover(sorted[..n]) + Span(sorted[n].start, sorted[n].end)
    ensures n + 1 < |sorted| ==> sorted[n].start <= sorted[n + 1].start
  {
    assert sorted[n] in sorted;
    assert Init(sorted[..n + 1]) == sorted[..n];
    assert n + 1 < |sorted| ==> Start(sorted[n]) <= Start(sorted[n + 1]);
  }

  lemma AddLast(merged: seq<Range>, r: Range)
    requires Separated(merged) && r.start <= r.end && (|merged| > 0 ==> Last(merged).end < r.start)
    ensures Separated(merged + [r]) && Cover(merged + [r]) == Cover(merged) + Span(r.start, r.end)
  {
    hide Span;
    Snoc(merged, r);
  }

  lemma JoinLast(merged: seq<Range>, r: Range, joined: Range)
    requires Separated(merged) && |merged| > 0 && r.start <= r.end
    requires Last(merged).start <= r.start <= Last(merged).end
    requires joined == Range(Last(merged).start, if Last(merged).end >= r.end then Last(merged).end else r.end)
    ensures var m := merged[|merged| - 1 := joined];
            Separated(m) && Cover(m) == Cover(merged) + Span(r.start, r.end) && Last(m) == joined
  {
    var m := merged[|merged| - 1 := joined];
    assert Init(m) == Init(merged);
  }

  /** Payload counted once: the number of positions covered by the ranges, in whatever order. */
  method UniquePayload(ranges: seq<Range>) returns (total: nat)
    requires Proper(ranges)
    ensures total == |Cover(ranges)|
  {
    if |ranges| == 0 {
      return 0;
    }
    var merged := Merge(ranges);
    SeparatedLength(merged);
    total := TotalLength(merged);
  }

  // ------------------------------------------------------------ relative sequence numbers

  // A payload record of the wanted direction.
  predicate Carries(p: Packet, fromClient: bool) {
    p.fromClient == fromClient && p.length > 0
  }

  // `initial_sequence`: the first SYN of the direction, else its first payload record.
  function FirstSyn(packets: seq<Packet>, fromClient: bool): Option<nat> {
    if |packets| == 0 then None
    else if packets[0].syn && packets[0].fromClient == fromClient then Some(packets[0].seq_ % SEQ_SPACE)
    else FirstSyn(packets[1..], fromClient)
  }

  function FirstPayload(packets: seq<Packet>, fromClient: bool): Option<nat> {
    if |packets| == 0 then None
    else if Carries(packets[0], fromClient) then Some(packets[0].seq_ % SEQ_SPACE)
    else FirstPayload(packets[1..], fromClient)
  }

  function InitialSequence(packets: seq<Packet>, fromClient: bool): Option<nat> {
    if FirstSyn(packets, fromClient).Some? then FirstSyn(packets, fromClient) else FirstPayload(packets, fromClient)
  }

  method FindInitialSequence(packets: seq<Packet>, fromClient: bool) returns (base: Option<nat>)
    ensures base == InitialSequence(packets, fromClient)
  {
    for n := 0 to |packets|
      invariant FirstSyn(packets, fromClient) == FirstSyn(packets[n..], fromClient)
    {
      if packets[n].syn && packets[n].fromClient == fromClient {
        return Some(packets[n].seq_ % SEQ_SPACE);
      }
      assert packets[n..][1..] == packets[n + 1..];
    }
    for n := 0 to |packets|
      invariant FirstPayload(packets, fromClient) == FirstPayload(packets[n..], fromClient)
    {
      if Carries(packets[n], fromClient) {
        return Some(packets[n].seq_ % SEQ_SPACE);
      }
      assert packets[n..][1..] == packets[n + 1..];
    }
    return None;
  }

  function Relative(value: int, base: Option<nat>): (r: nat)
    ensures r < SEQ_SPACE
  {
    if base.None? then value % SEQ_SPACE else (value - base.value) % SEQ_SPACE
  }

  // One payload range, split where it crosses 2^32.
  function Pieces(start: nat, length: nat): (rs: seq<Range>)
    requires start < SEQ_SPACE
    ensures Proper(rs)
  {
    if start + length > SEQ_SPACE then [Range(start, SEQ_SPACE), Range(0, start + length - SEQ_SPACE)]
    else [Range(start, start + length)]
  }

  function RangesOf(packets: seq<Packet>, fromClient: bool, base: Option<nat>): (rs: seq<Range>)
    ensures Proper(rs)
  {
    if |packets| == 0 then [] else
    var before := RangesOf(Init(packets), fromClient, base);
    var p := Last(packets);
    if Carries(p, fromClient) then before + Pieces(Relative(p.seq_, base), p.length) else before
  }

  method SeqRanges(packets: seq<Packet>, fromClient: bool) returns (ranges: seq<Range>)
    ensures ranges == RangesOf(packets, fromClient, InitialSequence(packets, fromClient))
  {
    var base := FindInitialSequence(packets, fromClient);
    ranges := [];
    for n := 0 to |packets|
      invariant ranges == RangesOf(packets[..n], fromClient, base)
    {
      var p := packets[n];
      assert Init(packets[..n + 1]) == packets[..n];
      if Carries(p, fromClient) {
        var start := Relative(p.seq_, base);
        var end := start + p.length;
        if end > SEQ_SPACE {
          ranges := ranges + [Range(start, SEQ_SPACE)];
          ranges := ranges + [Range(0, end - SEQ_SPACE)];
          assert [Range(start, SEQ_SPACE)] + [Range(0, end - SEQ_SPACE)]
              == [Range(start, SEQ_SPACE), Range(0, end - SEQ_SPACE)];
        } else {
          ranges := ranges + [Range(start, end)];
        }
      }
    }
    assert packets[..|packets|] == packets;
  }

  // ------------------------------------------------------------ positions on the wire

  function Wrap(n: int): (r: nat)
    ensures r < SEQ_SPACE
  {
    n % SEQ_SPACE
  }

  // The sequence numbers a record of `length` bytes occupies from `at` on.
  function Circle(at: int, length: nat): set<nat> {
    set x: nat | x < SEQ_SPACE && Distance(at, x) < length
  }

  // How far `x` lies behind `at`.
  function Distance(at: int, x: nat): (d: nat)
    ensures d < SEQ_SPACE
  {
    Wrap(x - at)
  }

  lemma WrapInverts(at: int, k: nat, x: nat)
    requires k < SEQ_SPACE && x < SEQ_SPACE
    ensures x == Wrap(at + k) <==> Wrap(x - at) == k
  {
    var q := at / SEQ_SPACE;
    var a := at % SEQ_SPACE;
    assert at == q * SEQ_SPACE + a;
    WrapShift(a + k, q);
    WrapShift(x - a, -q);
  }

  lemma WrapShift(n: int, q: int)
    ensures Wrap(n + q * SEQ_SPACE) == Wrap(n)
  {
  }

  // The k-th number from `at` on.
  function Nth(at: int, k: nat): nat { Wrap(at + k) }

  // It occupies exactly the numbers (at + k) mod 2^32.
  lemma CircleIsConsecutive(at: int, length: nat, x: nat)
    requires length <= SEQ_SPACE && x < SEQ_SPACE
    ensures x in Circle(at, length) <==> exists k: nat :: k < length && x == Nth(at, k)
  {
    hide Wrap;
    WrapInverts(at, Distance(at, x), x);
    if x in Circle(at, length) {
      assert Distance(at, x) < length && x == Nth(at, Distance(at, x));
    }
    if k: nat :| k < length && x == Nth(at, k) {
      WrapInverts(at, k, x);
    }
  }

  lemma PiecesCover(start: nat, length: nat)
    requires start < SEQ_SPACE
    ensures Cover(Pieces(start, length)) ==
              if start + length > SEQ_SPACE then Span(start, SEQ_SPACE) + Span(0, start + length - SEQ_SPACE)
              else Span(start, start + length)
  {
    hide Span;
    if start + length > SEQ_SPACE {
      var a, b := Range(start, SEQ_SPACE), Range(0, start + length - SEQ_SPACE);
      assert [a] + [b] == Pieces(start, length);
      CoverConcat([a], [b]);
      CoverOne(a);
      CoverOne(b);
    } else {
      CoverOne(Range(start, start + length));
    }
  }

  lemma CoverOne(r: Range)
    ensures Cover([r]) == Span(r.start, r.end)
  {
    assert Init([r]) == [];
  }

  /** Splitting at 2^32 covers the record's positions relative to the base, no more and no fewer. */
  lemma PiecesCoverRecord(value: int, base: int, length: nat)
    requires length <= SEQ_SPACE
    ensures Cover(Pieces(Wrap(value - base), length)) == Circle(value - base, length)
  {
    hide Cover, Wrap, Pieces, Span, Distance;
    var start := Wrap(value - base);
    PiecesCover(start, length);
    forall x: nat
      ensures x in Cover(Pieces(start, length)) <==> x in Circle(value - base, length)
    {
      if x < SEQ_SPACE {
        SameDistance(value - base, x);
      }
    }
  }

  lemma SameDistance(at: int, x: nat)
    requires x < SEQ_SPACE
    ensures Distance(at, x) == if Wrap(at) <= x then x - Wrap(at) else x - Wrap(at) + SEQ_SPACE
  {
    var q := at / SEQ_SPACE;
    assert at == q * SEQ_SPACE + Wrap(at);
    WrapShift(x - Wrap(at), -q);
  }

  // ------------------------------------------------------------ turning the circle

  function Rotate(s: set<nat>, c: int): set<nat> {
    set x | x in s :: Wrap(x + c)
  }

  lemma WrapInjective(x: nat, y: nat, c: int)
    requires x < SEQ_SPACE && y < SEQ_SPACE && Wrap(x + c) == Wrap(y + c)
    ensures x == y
  {
    WrapInverts(c, x, Wrap(x + c));
    WrapInverts(c, y, Wrap(x + c));
  }

  lemma {:induction false} RotateSize(s: set<nat>, c: int)
    requires forall x | x in s :: x < SEQ_SPACE
    ensures |Rotate(s, c)| == |s|
    decreases |s|
  {
    hide Wrap;
    if s != {} {
      var x :| x in s;
      var rest := s - {x};
      RotateSize(rest, c);
      assert s == rest + {x} && Rotate({x}, c) == {Wrap(x + c)};
      RotateUnion(rest, {x}, c);
      forall y | y in rest
        ensures Wrap(y + c) != Wrap(x + c)
      {
        if Wrap(y + c) == Wrap(x + c) {
          WrapInjective(x, y, c);
        }
      }
    }
  }

  lemma RotateUnion(s: set<nat>, t: set<nat>, c: int)
    ensures Rotate(s + t, c) == Rotate(s, c) + Rotate(t, c)
  {
    hide Wrap;
  }

  lemma RotateCircle(at: int, length: nat, c: int)
    ensures Rotate(Circle(at, length), c) == Circle(at + c, length)
  {
    hide Wrap;
    forall y: nat
      ensures y in Rotate(Circle(at, length), c) <==> y in Circle(at + c, length)
    {
      if y in Rotate(Circle(at, length), c) {
        var x :| x in Circle(at, length) && y == Wrap(x + c);
        TurnedDistance(x, at, c);
      }
      if y in Circle(at + c, length) {
        var x := Wrap(y - c);
        WrapInverts(c, x, y);
        TurnedDistance(x, at, c);
        assert x in Circle(at, length) && y == Wrap(x + c);
      }
    }
  }

  lemma TurnedDistance(x: nat, at: int, c: int)
    requires x < SEQ_SPACE
    ensures Wrap(Wrap(x + c) - (at + c)) == Wrap(x - at)
  {
    var q := (x + c) / SEQ_SPACE;
    assert x + c == q * SEQ_SPACE + Wrap(x + c);
    WrapShift(Wrap(x + c) - (at + c), q);
  }

  // All sequence numbers that payload of one direction occupied, as seen on the wire.
  function Wire(packets: seq<Packet>, fromClient: bool): (s: set<nat>)
    ensures forall x | x in s :: x < SEQ_SPACE
  {
    if |packets| == 0 then {} else
    var before := Wire(Init(packets), fromClient);
    var p := Last(packets);
    if Carries(p, fromClient) then before + Circle(p.seq_, p.length) else before
  }

  predicate LengthsFit(packets: seq<Packet>) {
    forall p | p in packets :: p.length <= SEQ_SPACE
  }

  lemma {:induction false} RangesTurnIntoWire(packets: seq<Packet>, fromClient: bool, base: Option<nat>)
    requires LengthsFit(packets)
    ensures var c := if base.Some? then base.value else 0;
            Rotate(Cover(RangesOf(packets, fromClient, base)), c) == Wire(packets, fromClient)
    ensures forall x | x in Cover(RangesOf(packets, fromClient, base)) :: x < SEQ_SPACE
  {
    hide Wrap, Pieces, Circle, Cover, Rotate, Relative;
    EmptyCover(if base.Some? then base.value else 0);
    if |packets| > 0 {
      var c := if base.Some? then base.value else 0;
      var p := Last(packets);
      assert p in packets && forall q | q in Init(packets) :: q in packets;
      RangesTurnIntoWire(Init(packets), fromClient, base);
      if Carries(p, fromClient) {
        var before := RangesOf(Init(packets), fromClient, base);
        RelativeIsWrap(p.seq_, base);
        PiecesCoverRecord(p.seq_, c, p.length);
        CoverConcat(before, Pieces(Relative(p.seq_, base), p.length));
        RotateUnion(Cover(before), Circle(p.seq_ - c, p.length), c);
        RotateCircle(p.seq_ - c, p.length, c);
        CircleBounded(p.seq_ - c, p.length);
      }
    }
  }

  lemma EmptyCover(c: int)
    ensures Cover([]) == {} && Rotate({}, c) == {}
  {
  }

  lemma CircleBounded(at: int, length: nat)
    ensures forall x | x in Circle(at, length) :: x < SEQ_SPACE
  {
  }

  lemma RelativeIsWrap(value: int, base: Option<nat>)
    ensures Relative(value, base) == Wrap(value - (if base.Some? then base.value else 0))
  {
  }

  /**
   Unique payload is the number of distinct sequence numbers on the wire, whatever base the
   ranges are taken relative to.
   */
  lemma UniquePayloadIsWireCount(packets: seq<Packet>, fromClient: bool, base: Option<nat>)
    requires LengthsFit(packets)
    ensures |Cover(RangesOf(packets, fromClient, base))| == |Wire(packets, fromClient)|
  {
    RangesTurnIntoWire(packets, fromClient, base);
    RotateSize(Cover(RangesOf(packets, fromClient, base)), if base.Some? then base.value else 0);
  }

  // ------------------------------------------------------------ another initial sequence number

  // The same packets had the direction started `c` further on; the peer acknowledges alike.
  function Shift(p: Packet, fromClient: bool, c: nat): Packet {
    if p.fromClient == fromClient then p.(seq_ := Wrap(p.seq_ + c))
    else p.(ack := if p.ack.Some? then Some(Wrap(p.ack.value + c)) else None)
  }

  function ShiftAll(packets: seq<Packet>, fromClient: bool, c: nat): (r: seq<Packet>)
    ensures |r| == |packets|
  {
    if |packets| == 0 then [] else ShiftAll(Init(packets), fromClient, c) + [Shift(Last(packets), fromClient, c)]
  }

  lemma {:induction false} WireTurns(packets: seq<Packet>, fromClient: bool, c: nat)
    ensures Wire(ShiftAll(packets, fromClient, c), fromClient) == Rotate(Wire(packets, fromClient), c)
  {
    hide Wrap, Circle, Rotate;
    EmptyCover(c);
    if |packets| > 0 {
      var p := Last(packets);
      var shifted := ShiftAll(Init(packets), fromClient, c);
      Snoc(shifted, Shift(p, fromClient, c));
      WireTurns(Init(packets), fromClient, c);
      if Carries(p, fromClient) {
        RotateUnion(Wire(Init(packets), fromClient), Circle(p.seq_, p.length), c);
        RotateCircle(p.seq_, p.length, c);
        CircleOfWrapped(p.seq_ + c, p.length);
      }
    }
  }

  lemma WrapOfWrap(at: int)
    ensures Wrap(Wrap(at)) == Wrap(at)
  {
  }

  lemma CircleOfWrapped(at: int, length: nat)
    ensures Circle(Wrap(at), length) == Circle(at, length)
  {
    hide Wrap;
    forall x: nat | x < SEQ_SPACE
      ensures Distance(Wrap(at), x) == Distance(at, x)
    {
      WrapOfWrap(at);
      SameDistance(at, x);
      SameDistance(Wrap(at), x);
    }
  }

  lemma {:induction false} ShiftedFits(packets: seq<Packet>, fromClient: bool, c: nat)
    requires LengthsFit(packets)
    ensures LengthsFit(ShiftAll(packets, fromClient, c))
  {
    if |packets| > 0 {
      assert packets == Init(packets) + [Last(packets)];
      ShiftedFits(Init(packets), fromClient, c);
    }
  }

  /** Unique payload does not depend on where the sequence numbers of the direction start. */
  lemma UniquePayloadIgnoresInitialSequence(packets: seq<Packet>, fromClient: bool, c: nat)
    requires LengthsFit(packets)
    ensures var shifted := ShiftAll(packets, fromClient, c);
            |Cover(RangesOf(shifted, fromClient, InitialSequence(shifted, fromClient)))|
            == |Cover(RangesOf(packets, fromClient, InitialSequence(packets, fromClient)))|
  {
    var shifted := ShiftAll(packets, fromClient, c);
    ShiftedFits(packets, fromClient, c);
    UniquePayloadIsWireCount(packets, fromClient, InitialSequence(packets, fromClient));
    UniquePayloadIsWireCount(shifted, fromClient, InitialSequence(shifted, fromClient));
    WireTurns(packets, fromClient, c);
    RotateSize(Wire(packets, fromClient), c);
  }
}
