/**
 Repeat accounting (`_segments`, `_overlap`, `_first_transmissions` and the byte totals of
 `retransmission_analysis`), measured against the true unique payload.
 */
module Retransmit {
  import opened Wrappers
  import opened Sequences
  import opened Trace
  import opened SeqSpace
  import opened Outstanding

  datatype Segment = Segment(frame: nat, start: nat, length: nat)
  {
    function End(): nat { start + length }

    function AsRange(): Range { Range(start, End()) }

    function Bytes(): set<nat> { Span(start, End()) }
  }

  datatype Repeat = Repeat(segment: Segment, repeatBytes: nat, newBytes: nat)

  function SegmentOf(p: Packet, base: Option<nat>): Segment {
    Segment(p.frame, Relative(p.seq_, base), p.length)
  }

  function SegmentsFrom(packets: seq<Packet>, base: Option<nat>): seq<Segment> {
    if |packets| == 0 then [] else SegmentsFrom(Init(packets), base) + [SegmentOf(Last(packets), base)]
  }

  // The segments of one direction: its payload records, relative to the first of them that
  // carries a SYN, or else to the first.
  function SegmentsOf(packets: seq<Packet>, fromClient: bool): seq<Segment> {
    var payload := SentOf(packets, fromClient);
    SegmentsFrom(payload, InitialSequence(payload, fromClient))
  }

  function Overlap(a: Segment, b: Segment): nat {
    var end := if a.End() <= b.End() then a.End() else b.End();
    var start := if a.start >= b.start then a.start else b.start;
    if end > start then end - start else 0
  }

  function SumOverlap(s: Segment, prior: seq<Segment>): nat {
    if |prior| == 0 then 0 else SumOverlap(s, Init(prior)) + Overlap(s, Last(prior))
  }

  // The bytes counted as repeated, clamped to the segment.
  function Duplicate(s: Segment, prior: seq<Segment>): nat {
    if SumOverlap(s, prior) <= s.length then SumOverlap(s, prior) else s.length
  }

  function Firsts(segments: seq<Segment>): seq<Segment> {
    if |segments| == 0 then [] else
    var before := Firsts(Init(segments));
    if Duplicate(Last(segments), Init(segments)) == 0 then before + [Last(segments)] else before
  }

  function Repeats(segments: seq<Segment>): seq<Repeat> {
    if |segments| == 0 then [] else
    var before := Repeats(Init(segments));
    var s := Last(segments);
    var d := Duplicate(s, Init(segments));
    if d == 0 then before else before + [Repeat(s, d, s.length - d)]
  }

  method FirstTransmissions(segments: seq<Segment>) returns (firsts: seq<Segment>, repeats: seq<Repeat>)
    ensures firsts == Firsts(segments) && repeats == Repeats(segments)
  {
    var covered: seq<Segment> := [];
    firsts, repeats := [], [];
    for n := 0 to |segments|
      invariant covered == segments[..n]
      invariant firsts == Firsts(segments[..n]) && repeats == Repeats(segments[..n])
    {
      var s := segments[n];
      assert Init(segments[..n + 1]) == segments[..n];
      var duplicate := 0;
      for k := 0 to |covered|
        invariant duplicate == SumOverlap(s, covered[..k])
      {
        assert Init(covered[..k + 1]) == covered[..k];
        duplicate := duplicate + Overlap(s, covered[k]);
      }
      assert covered[..|covered|] == covered;
      if duplicate > s.length {
        duplicate := s.length;
      }
      if duplicate != 0 {
        repeats := repeats + [Repeat(s, duplicate, s.length - duplicate)];
      } else {
        firsts := firsts + [s];
      }
      covered := covered + [s];
    }
    assert segments[..|segments|] == segments;
  }

  // ------------------------------------------------------------ totals

  function Lengths(segments: seq<Segment>): nat {
    if |segments| == 0 then 0 else Lengths(Init(segments)) + Last(segments).length
  }

  function RepeatedBytes(repeats: seq<Repeat>): nat {
    if |repeats| == 0 then 0 else RepeatedBytes(Init(repeats)) + Last(repeats).repeatBytes
  }

  function NewBytes(repeats: seq<Repeat>): nat {
    if |repeats| == 0 then 0 else NewBytes(Init(repeats)) + Last(repeats).newBytes
  }

  function Ranges(segments: seq<Segment>): (rs: seq<Range>)
    ensures |rs| == |segments| && Proper(rs)
  {
    if |segments| == 0 then [] else Ranges(Init(segments)) + [Last(segments).AsRange()]
  }

  // The bytes the segments cover together; its size is their unique payload.
  function Covered(segments: seq<Segment>): set<nat> {
    Cover(Ranges(segments))
  }

  lemma CoveredSnoc(segments: seq<Segment>)
    requires |segments| > 0
    ensures Covered(segments) == Covered(Init(segments)) + Last(segments).Bytes()
  {
    Snoc(Ranges(Init(segments)), Last(segments).AsRange());
  }

  lemma OverlapIsIntersection(a: Segment, b: Segment)
    ensures Overlap(a, b) == |a.Bytes() * b.Bytes()|
  {
    var end := if a.End() <= b.End() then a.End() else b.End();
    var start := if a.start >= b.start then a.start else b.start;
    assert a.Bytes() * b.Bytes() == Span(start, end);
  }

  /** First, repeated and new bytes add up to all payload bytes. */
  lemma {:induction false} BytesAreConserved(segments: seq<Segment>)
    ensures Lengths(Firsts(segments)) + RepeatedBytes(Repeats(segments)) + NewBytes(Repeats(segments)) == Lengths(segments)
  {
    if |segments| > 0 {
      var s, before := Last(segments), Init(segments);
      BytesAreConserved(before);
      var d := Duplicate(s, before);
      Snoc(Firsts(before), s);
      Snoc(Repeats(before), Repeat(s, d, s.length - d));
    }
  }

  // ------------------------------------------------------------ what counts as a repeat

  // What of the segment was truly sent before.
  function SentBefore(s: Segment, prior: seq<Segment>): set<nat> {
    s.Bytes() * Covered(prior)
  }

  // No byte of the segment lies in two earlier segments.
  ghost predicate CoveredOnce(s: Segment, prior: seq<Segment>) {
    |prior| > 0 ==> CoveredOnce(s, Init(prior)) && s.Bytes() * Last(prior).Bytes() * Covered(Init(prior)) == {}
  }

  lemma {:induction false} SumOverlapBounds(s: Segment, prior: seq<Segment>)
    ensures |SentBefore(s, prior)| <= SumOverlap(s, prior)
    ensures |SentBefore(s, prior)| == SumOverlap(s, prior) <==> CoveredOnce(s, prior)
    ensures SumOverlap(s, prior) > 0 ==> SentBefore(s, prior) != {}
  {
    hide Overlap, Segment.Bytes, Covered;
    NothingCovered();
    if |prior| > 0 {
      var q, before := Last(prior), Init(prior);
      SumOverlapBounds(s, before);
      CoveredSnoc(prior);
      OverlapIsIntersection(s, q);
      var a, b := SentBefore(s, before), s.Bytes() * q.Bytes();
      assert SentBefore(s, prior) == a + b;
      assert a * b == s.Bytes() * q.Bytes() * Covered(before);
      UnionSize(a, b);
    }
  }

  lemma NothingCovered()
    ensures Covered([]) == {}
  {
  }

  lemma UnionSize<T>(a: set<T>, b: set<T>)
    ensures |a + b| == |a| + |b| - |a * b|
  {
    assert a + b == a + (b - a);
    assert b == (b - a) + a * b;
  }

  lemma SentBeforeBound(s: Segment, prior: seq<Segment>)
    ensures |s.Bytes()| == s.length
    ensures |SentBefore(s, prior)| + |s.Bytes() - Covered(prior)| == s.length
    ensures |SentBefore(s, prior)| == s.length <==> s.Bytes() <= Covered(prior)
  {
    hide Covered;
    assert s.Bytes() == SentBefore(s, prior) + (s.Bytes() - Covered(prior));
  }

  /** A non-empty segment counts as a repeat exactly when it shares a byte with an earlier one. */
  lemma RepeatMeansOverlap(s: Segment, prior: seq<Segment>)
    requires s.length > 0
    ensures Duplicate(s, prior) > 0 <==> SentBefore(s, prior) != {}
    ensures SentBefore(s, prior) != {} <==> exists q :: q in prior && s.Bytes() * q.Bytes() != {}
  {
    SumOverlapBounds(s, prior);
    CoveredMembers(prior);
    if q :| q in prior && s.Bytes() * q.Bytes() != {} {
      var x :| x in s.Bytes() * q.Bytes();
      assert x in SentBefore(s, prior);
    }
    if SentBefore(s, prior) != {} {
      var x :| x in SentBefore(s, prior);
      var q :| q in prior && x in q.Bytes();
      assert x in s.Bytes() * q.Bytes();
    }
  }

  lemma {:induction false} CoveredMembers(segments: seq<Segment>)
    ensures forall x :: x in Covered(segments) <==> exists q :: q in segments && x in q.Bytes()
  {
    hide Segment.Bytes;
    if |segments| > 0 {
      CoveredMembers(Init(segments));
      CoveredSnoc(segments);
      assert segments == Init(segments) + [Last(segments)];
      hide Covered;
      forall x
        ensures x in Covered(segments) <==> exists q :: q in segments && x in q.Bytes()
      {
        if x in Last(segments).Bytes() {
          assert Last(segments) in segments && x in Last(segments).Bytes();
        }
      }
    }
  }

  // The segments share no position.
  predicate Apart(a: Segment, b: Segment) {
    a.start + a.length <= b.start || b.start + b.length <= a.start
  }

  ghost predicate IsFirst(segments: seq<Segment>, k: int) {
    0 <= k < |segments| && forall j | 0 <= j < k :: Apart(segments[j], segments[k])
  }

  // Segment `k` is repeated: in all positions it shares with earlier ones together, or throughout.
  ghost predicate IsRepeat(segments: seq<Segment>, k: int, r: Repeat) {
    && 0 <= k < |segments| && !IsFirst(segments, k) && r.segment == segments[k]
    && 0 < r.repeatBytes == r.segment.length - r.newBytes
    && (r.repeatBytes == SumOverlap(r.segment, segments[..k])
        || r.repeatBytes == r.segment.length <= SumOverlap(r.segment, segments[..k]))
  }

  /**
   The first transmissions are the segments that share no position with an earlier one, and the
   repeats are all the others.
   */
  lemma {:induction false} SplitMeans(segments: seq<Segment>)
    requires forall s | s in segments :: s.length > 0
    ensures forall s :: s in Firsts(segments) <==> exists k :: IsFirst(segments, k) && segments[k] == s
    ensures forall r :: r in Repeats(segments) <==> exists k :: IsRepeat(segments, k, r)
  {
    hide Duplicate, IsFirst, IsRepeat, Firsts, Repeats;
    if |segments| > 0 {
      assert segments == Init(segments) + [Last(segments)];
      SplitMeans(Init(segments));
      LastIsSplit(segments);
      FirstsMean(segments);
      RepeatsMean(segments);
    } else {
      NothingSplit(segments);
    }
  }

  // The last segment is the one or the other.
  ghost predicate LastSplits(segments: seq<Segment>)
    requires |segments| > 0
  {
    var s, n := Last(segments), |segments| - 1;
    var d := Duplicate(s, Init(segments));
    && (d == 0 <==> IsFirst(segments, n)) && d <= s.length
    && forall r :: IsRepeat(segments, n, r) <==> d > 0 && r == Repeat(s, d, s.length - d)
  }

  lemma FirstsMean(segments: seq<Segment>)
    requires |segments| > 0 && LastSplits(segments)
    requires forall s :: s in Firsts(Init(segments)) <==> exists k :: IsFirst(Init(segments), k) && Init(segments)[k] == s
    ensures forall s :: s in Firsts(segments) <==> exists k :: IsFirst(segments, k) && segments[k] == s
  {
    hide Duplicate, IsFirst, IsRepeat;
    var n := |segments| - 1;
    forall k: int
      ensures IsFirst(segments, k) ==> 0 <= k <= n && (k < n ==> IsFirst(Init(segments), k))
      ensures IsFirst(Init(segments), k) ==> 0 <= k < n && IsFirst(segments, k) && Init(segments)[k] == segments[k]
    {
      FirstOfPrefix(segments, k);
    }
  }

  lemma RepeatsMean(segments: seq<Segment>)
    requires |segments| > 0 && LastSplits(segments)
    requires forall r :: r in Repeats(Init(segments)) <==> exists k :: IsRepeat(Init(segments), k, r)
    ensures forall r :: r in Repeats(segments) <==> exists k :: IsRepeat(segments, k, r)
  {
    hide Duplicate, IsFirst, IsRepeat;
    var n := |segments| - 1;
    forall k: int, r
      ensures IsRepeat(segments, k, r) ==> 0 <= k <= n && (k < n ==> IsRepeat(Init(segments), k, r))
      ensures IsRepeat(Init(segments), k, r) ==> IsRepeat(segments, k, r)
    {
      RepeatOfPrefix(segments, k, r);
    }
    assert forall r :: r in Repeats(segments) <==> r in Repeats(Init(segments)) || IsRepeat(segments, n, r);
  }

  lemma NothingSplit(segments: seq<Segment>)
    requires |segments| == 0
    ensures forall k :: !IsFirst(segments, k)
    ensures forall k, r :: !IsRepeat(segments, k, r)
    ensures Firsts(segments) == [] && Repeats(segments) == []
  {
  }

  lemma FirstOfPrefix(segments: seq<Segment>, k: int)
    requires |segments| > 0
    ensures IsFirst(Init(segments), k) <==> IsFirst(segments, k) && k < |segments| - 1
    ensures IsFirst(segments, k) ==> 0 <= k < |segments|
  {
    hide Apart;
  }

  lemma RepeatOfPrefix(segments: seq<Segment>, k: int, r: Repeat)
    requires |segments| > 0
    ensures IsRepeat(Init(segments), k, r) <==> IsRepeat(segments, k, r) && k < |segments| - 1
    ensures IsRepeat(segments, k, r) ==> 0 <= k < |segments|
  {
    hide IsFirst, SumOverlap;
    FirstOfPrefix(segments, k);
    if 0 <= k < |segments| - 1 {
      assert Init(segments)[..k] == segments[..k] && Init(segments)[k] == segments[k];
    }
  }

  lemma LastIsSplit(segments: seq<Segment>)
    requires |segments| > 0 && forall s | s in segments :: s.length > 0
    ensures LastSplits(segments)
  {
    hide SumOverlap, Apart;
    var n, before := |segments| - 1, Init(segments);
    var s := segments[n];
    assert segments == before + [s] && segments[..n] == before;
    NoneOverlaps(s, before);
    assert forall j | 0 <= j < n :: before[j] == segments[j];
  }

  lemma {:induction false} NoneOverlaps(s: Segment, prior: seq<Segment>)
    requires s.length > 0 && forall q | q in prior :: q.length > 0
    ensures SumOverlap(s, prior) == 0 <==> forall j | 0 <= j < |prior| :: Apart(prior[j], s)
  {
    hide Overlap, Apart;
    if |prior| > 0 {
      var before, q := Init(prior), Last(prior);
      assert prior == before + [q];
      NoneOverlaps(s, before);
      OverlapMeans(s, q);
      assert forall j | 0 <= j < |before| :: prior[j] == before[j];
      assert prior[|prior| - 1] == q;
    }
  }

  lemma OverlapMeans(a: Segment, b: Segment)
    requires a.length > 0 && b.length > 0
    ensures Overlap(a, b) == 0 <==> Apart(b, a)
  {
  }

  /** First transmissions never share a byte. */
  lemma {:induction false} FirstsAreDisjoint(segments: seq<Segment>, j: nat, k: nat)
    requires j < k < |Firsts(segments)| && forall s | s in segments :: s.length > 0
    ensures Firsts(segments)[j].Bytes() * Firsts(segments)[k].Bytes() == {}
  {
    var s, before := Last(segments), Init(segments);
    assert segments == before + [s];
    if k < |Firsts(before)| {
      FirstsAreDisjoint(before, j, k);
    } else {
      FirstsAreSegments(before);
      assert Firsts(before)[j] in before;
      assert s in segments;
      RepeatMeansOverlap(s, before);
    }
  }

  lemma {:induction false} FirstsAreSegments(segments: seq<Segment>)
    ensures forall s | s in Firsts(segments) :: s in segments
  {
    if |segments| > 0 {
      FirstsAreSegments(Init(segments));
      assert segments == Init(segments) + [Last(segments)];
    }
  }

  // ------------------------------------------------------------ bounded by the truth

  // The segment's repeated bytes are counted right: no byte twice, or all of them repeated.
  ghost predicate CountedRight(s: Segment, prior: seq<Segment>) {
    CoveredOnce(s, prior) || s.Bytes() <= Covered(prior)
  }

  ghost predicate AllCountedRight(segments: seq<Segment>) {
    |segments| > 0 ==> AllCountedRight(Init(segments)) && CountedRight(Last(segments), Init(segments))
  }

  // A segment is new throughout or repeated throughout.
  ghost predicate AllOrNothing(segments: seq<Segment>) {
    |segments| > 0 ==>
      && AllOrNothing(Init(segments))
      && (SentBefore(Last(segments), Init(segments)) == {} || Last(segments).Bytes() <= Covered(Init(segments)))
  }

  lemma CoveredGrows(segments: seq<Segment>)
    requires |segments| > 0
    ensures |Covered(segments)| == |Covered(Init(segments))| + |Last(segments).Bytes() - Covered(Init(segments))|
  {
    CoveredSnoc(segments);
    hide Covered;
    var before, s := Covered(Init(segments)), Last(segments);
    assert Covered(segments) == before + (s.Bytes() - before);
  }

  /**
   Bytes reported as first or new never exceed the true unique payload, and equal it exactly
   when every segment either has no byte in two earlier segments or is wholly repeated.
   */
  lemma {:induction false} NewBytesAreBounded(segments: seq<Segment>)
    requires forall s | s in segments :: s.length > 0
    ensures Lengths(Firsts(segments)) + NewBytes(Repeats(segments)) <= |Covered(segments)|
    ensures Lengths(Firsts(segments)) + NewBytes(Repeats(segments)) == |Covered(segments)| <==> AllCountedRight(segments)
  {
    hide Covered, SumOverlap, SentBefore, CoveredOnce, Segment.Bytes;
    NothingCovered();
    if |segments| > 0 {
      var s, before := Last(segments), Init(segments);
      assert segments == before + [s];
      NewBytesAreBounded(before);
      CoveredGrows(segments);
      SumOverlapBounds(s, before);
      SentBeforeBound(s, before);
      var d := Duplicate(s, before);
      Snoc(Firsts(before), s);
      Snoc(Repeats(before), Repeat(s, d, s.length - d));
    }
  }

  /**
   The reported unique bytes alone (first transmissions only) equal the true unique payload
   exactly when no segment is partly new and partly repeated.
   */
  lemma {:induction false} UniqueBytesAreExactIff(segments: seq<Segment>)
    requires forall s | s in segments :: s.length > 0
    ensures Lengths(Firsts(segments)) <= |Covered(segments)|
    ensures Lengths(Firsts(segments)) == |Covered(segments)| <==> AllOrNothing(segments)
  {
    hide Covered, SumOverlap, SentBefore, CoveredOnce, Segment.Bytes, Duplicate;
    NothingCovered();
    if |segments| > 0 {
      var s, before := Last(segments), Init(segments);
      assert segments == before + [s];
      assert s in segments;
      UniqueBytesAreExactIff(before);
      CoveredGrows(segments);
      RepeatMeansOverlap(s, before);
      SentBeforeBound(s, before);
      assert |SentBefore(s, before)| == 0 <==> SentBefore(s, before) == {};
      Snoc(Firsts(before), s);
    }
  }

  // Two copies of one segment and a half-new third: two thirds of the payload are reported.
  lemma DoubleCountedOverlapHidesNewBytes(n: nat)
    requires n > 0
    ensures var segments := [Segment(1, 0, 2 * n), Segment(2, 0, 2 * n), Segment(3, n, 2 * n)];
            && Lengths(Firsts(segments)) + NewBytes(Repeats(segments)) == 2 * n
            && |Covered(segments)| == 3 * n
  {
    var a, b, c := Segment(1, 0, 2 * n), Segment(2, 0, 2 * n), Segment(3, n, 2 * n);
    var s1, s2, s3 := [a], [a, b], [a, b, c];
    assert Init(s3) == s2 && Init(s2) == s1 && Init(s1) == [];
    ThreeSegments(n, a, b, c, s1, s2, s3);
    ThreeCovered(n, a, b, c, s1, s2, s3);
  }

  lemma ThreeCovered(n: nat, a: Segment, b: Segment, c: Segment, s1: seq<Segment>, s2: seq<Segment>, s3: seq<Segment>)
    requires a == Segment(1, 0, 2 * n) && b == Segment(2, 0, 2 * n) && c == Segment(3, n, 2 * n)
    requires s1 == [a] && s2 == [a, b] && s3 == [a, b, c]
    requires Init(s3) == s2 && Init(s2) == s1 && Init(s1) == []
    ensures |Covered(s3)| == 3 * n
  {
    hide Covered, Span;
    CoveredSnoc(s1);
    CoveredSnoc(s2);
    CoveredSnoc(s3);
    NothingCovered();
    assert Covered(s3) == Span(0, 3 * n);
  }

  lemma ThreeSegments(n: nat, a: Segment, b: Segment, c: Segment, s1: seq<Segment>, s2: seq<Segment>, s3: seq<Segment>)
    requires n > 0 && a == Segment(1, 0, 2 * n) && b == Segment(2, 0, 2 * n) && c == Segment(3, n, 2 * n)
    requires s1 == [a] && s2 == [a, b] && s3 == [a, b, c]
    requires Init(s3) == s2 && Init(s2) == s1 && Init(s1) == []
    ensures Lengths(Firsts(s3)) == 2 * n && NewBytes(Repeats(s3)) == 0
  {
    assert Duplicate(a, []) == 0;
    assert Duplicate(b, s1) == 2 * n;
    assert SumOverlap(c, s1) == n;
    assert SumOverlap(c, s2) == 2 * n;
    var r2, r3 := Repeat(b, 2 * n, 0), Repeat(c, 2 * n, 0);
    assert Firsts(s1) == [a] && Repeats(s1) == [];
    assert Firsts(s2) == [a] && Repeats(s2) == [r2];
    assert Firsts(s3) == [a] && Repeats(s3) == [r2] + [r3];
    Snoc([r2], r3);
    assert Init([r2]) == [] && Init([a]) == [];
    assert NewBytes([r2]) == 0;
    assert NewBytes([r2] + [r3]) == 0;
    assert Lengths([a]) == 2 * n;
  }

  // ------------------------------------------------------------ the seam of sequence space

  // The sequence numbers of a segment, relative to its base, on the circle of 2^32.
  function OnCircle(s: Segment): set<nat> {
    Circle(s.start, s.length)
  }

  // The segments meet across the end of sequence space, where ranges are not split.
  predicate MeetAtSeam(s: Segment, q: Segment) {
    Overlap(s.(start := s.start + SEQ_SPACE), q) > 0 || Overlap(s, q.(start := q.start + SEQ_SPACE)) > 0
  }

  lemma CircleMember(s: Segment, x: nat)
    requires s.start < SEQ_SPACE && s.length <= SEQ_SPACE && x < SEQ_SPACE
    ensures x in OnCircle(s) <==> s.start <= x < s.End() || s.start <= x + SEQ_SPACE < s.End()
  {
    SameDistance(s.start, x);
    assert Wrap(s.start) == s.start;
  }

  lemma CirclesMeet(s: Segment, q: Segment)
    requires s.start < SEQ_SPACE && q.start < SEQ_SPACE && s.length <= SEQ_SPACE && q.length <= SEQ_SPACE
    ensures OnCircle(s) * OnCircle(q) != {} <==> Overlap(s, q) > 0 || MeetAtSeam(s, q)
  {
    hide OnCircle;
    if x :| x in OnCircle(s) * OnCircle(q) {
      OnCircleBound(s);
      CircleMember(s, x);
      CircleMember(q, x);
    }
    if Overlap(s, q) > 0 {
      CommonPoint(s, q, if s.start >= q.start then s.start else q.start);
    } else if Overlap(s.(start := s.start + SEQ_SPACE), q) > 0 {
      CommonPoint(s, q, s.start + SEQ_SPACE);
    } else if MeetAtSeam(s, q) {
      CommonPoint(s, q, q.start + SEQ_SPACE);
    }
  }

  lemma OnCircleBound(s: Segment)
    ensures forall x | x in OnCircle(s) :: x < SEQ_SPACE
  {
  }

  // A linear position common to both, one of them possibly raised by 2^32.
  lemma CommonPoint(s: Segment, q: Segment, y: nat)
    requires s.start < SEQ_SPACE && q.start < SEQ_SPACE && s.length <= SEQ_SPACE && q.length <= SEQ_SPACE
    requires (s.start <= y < s.End() || s.start <= y - SEQ_SPACE < s.End())
          && (q.start <= y < q.End() || q.start <= y - SEQ_SPACE < q.End())
    requires y < 2 * SEQ_SPACE
    ensures OnCircle(s) * OnCircle(q) != {}
  {
    hide OnCircle;
    var x := if y < SEQ_SPACE then y else y - SEQ_SPACE;
    CircleMember(s, x);
    CircleMember(q, x);
    assert x in OnCircle(s) * OnCircle(q);
  }

  /**
   A segment is flagged as a repeat exactly when it re-sends sequence numbers of an earlier
   one, if and only if it overlaps an earlier one linearly or meets none across 2^32.
   */
  lemma RepeatsAcrossWrap(s: Segment, prior: seq<Segment>)
    requires s.start < SEQ_SPACE && 0 < s.length <= SEQ_SPACE
    requires forall q | q in prior :: q.start < SEQ_SPACE && q.length <= SEQ_SPACE
    ensures var flagged := Duplicate(s, prior) > 0;
            var resent := exists q :: q in prior && OnCircle(s) * OnCircle(q) != {};
            (flagged <==> resent) <==>
              (exists q :: q in prior && Overlap(s, q) > 0) || !(exists q :: q in prior && MeetAtSeam(s, q))
  {
    hide MeetAtSeam, OnCircle, Covered, Duplicate;
    RepeatMeansOverlap(s, prior);
    forall q | q in prior
      ensures s.Bytes() * q.Bytes() != {} <==> Overlap(s, q) > 0
      ensures OnCircle(s) * OnCircle(q) != {} <==> Overlap(s, q) > 0 || MeetAtSeam(s, q)
    {
      OverlapIsIntersection(s, q);
      assert |s.Bytes() * q.Bytes()| == 0 <==> s.Bytes() * q.Bytes() == {};
      CirclesMeet(s, q);
    }
    hide Segment.Bytes, Overlap;
  }

  /** In particular the flags are right when no segment reaches past 2^32. */
  lemma NoWrapNoSeam(s: Segment, q: Segment)
    requires s.End() <= SEQ_SPACE && q.End() <= SEQ_SPACE
    ensures !MeetAtSeam(s, q)
  {
  }

  // ------------------------------------------------------------ another initial sequence number

  lemma {:induction false} SegmentsKeep(payload: seq<Packet>, base: nat, fromClient: bool, c: nat)
    requires forall p | p in payload :: p.fromClient == fromClient
    ensures SegmentsFrom(ShiftAll(payload, fromClient, c), Some(Wrap(base + c))) == SegmentsFrom(payload, Some(base))
  {
    hide Wrap, Relative;
    if |payload| > 0 {
      assert payload == Init(payload) + [Last(payload)];
      SegmentsKeep(Init(payload), base, fromClient, c);
      Snoc(ShiftAll(Init(payload), fromClient, c), Shift(Last(payload), fromClient, c));
      RelativeTurns(Last(payload).seq_, base, c);
    }
  }

  /** The segments, hence all repeat totals, do not depend on the initial sequence number. */
  lemma SegmentsIgnoreInitialSequence(packets: seq<Packet>, fromClient: bool, c: nat)
    ensures SegmentsOf(ShiftAll(packets, fromClient, c), fromClient) == SegmentsOf(packets, fromClient)
  {
    hide Wrap, SentOf, ShiftAll, SegmentsFrom, InitialSequence;
    var payload := SentOf(packets, fromClient);
    SentShifts(packets, fromClient, c);
    SentHaveDirection(packets, fromClient);
    if payload == [] {
      NoSegments(fromClient, c);
    } else {
      InitialShifts(payload, fromClient, c);
      SegmentsKeep(payload, InitialSequence(payload, fromClient).value, fromClient, c);
    }
  }

  lemma NoSegments(fromClient: bool, c: nat)
    ensures ShiftAll([], fromClient, c) == []
  {
  }

  lemma InitialShifts(payload: seq<Packet>, fromClient: bool, c: nat)
    requires payload != [] && forall p | p in payload :: Carries(p, fromClient)
    ensures InitialSequence(payload, fromClient).Some?
    ensures InitialSequence(ShiftAll(payload, fromClient, c), fromClient)
         == Some(Wrap(InitialSequence(payload, fromClient).value + c))
  {
    hide Wrap, FirstSyn, FirstPayload, ShiftAll;
    PayloadFound(payload, fromClient);
    assert payload[0] in payload;
    FirstSynShifts(payload, fromClient, c);
    FirstPayloadShifts(payload, fromClient, c);
  }
}
