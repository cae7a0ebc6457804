/** Paged payload transcripts (`parse_follow_raw`, `conversation_from_follow_output`). */
module Payload {
  import opened Wrappers
  import opened Bytes
  import opened Sequences

  const MAX_PAGE := 0x10_0000

  // One byte of the conversation and the node that sent it.
  datatype Tagged = Tagged(node: nat, value: byte)

  datatype Chunk = Chunk(node: nat, data: bytes)

  // ------------------------------------------------------------ lines

  // What `str.splitlines` takes for the end of a line.
  predicate IsBreak(c: char) {
    || '\n' <= c <= '\r' || '\U{1C}' <= c <= '\U{1E}' || c == '\U{85}' || c == '\U{2028}' || c == '\U{2029}'
  }

  function LineEnd(text: string): (k: nat)
    ensures k <= |text| && (forall j | 0 <= j < k :: !IsBreak(text[j])) && (k < |text| ==> IsBreak(text[k]))
  {
    if |text| == 0 || IsBreak(text[0]) then 0 else 1 + LineEnd(text[1..])
  }

  // A carriage return and a line feed end one line together.
  function BreakSize(text: string, k: nat): (n: nat)
    requires k < |text|
    ensures 0 < n && k + n <= |text|
  {
    if k + 1 < |text| && text[k] == '\r' && text[k + 1] == '\n' then 2 else 1
  }

  function SplitLines(text: string): (lines: seq<string>)
    decreases |text|
  {
    if |text| == 0 then [] else
    var k := LineEnd(text);
    if k == |text| then [text] else [text[..k]] + SplitLines(text[k + BreakSize(text, k)..])
  }

  ghost predicate Unbroken(line: string) {
    forall c | c in line :: !IsBreak(c)
  }

  lemma {:induction false} LinesAreUnbroken(text: string)
    ensures forall line | line in SplitLines(text) :: Unbroken(line)
    decreases |text|
  {
    if |text| > 0 {
      var k := LineEnd(text);
      if k < |text| {
        LinesAreUnbroken(text[k + BreakSize(text, k)..]);
      }
    }
  }

  function JoinLines(lines: seq<string>): string {
    if |lines| == 0 then "" else lines[0] + "\n" + JoinLines(lines[1..])
  }

  lemma FirstBreak(text: string, line: string, rest: string)
    requires Unbroken(line) && text == line + "\n" + rest
    ensures LineEnd(text) == |line|
  {
    hide LineEnd;
    assert forall j | 0 <= j < |line| :: text[j] == line[j] && line[j] in line;
    assert text[|line|] == '\n';
  }

  /** Lines written one under the other are read back, whatever they hold besides line ends. */
  lemma {:induction false} LinesReadBack(lines: seq<string>)
    requires forall line | line in lines :: Unbroken(line)
    ensures SplitLines(JoinLines(lines)) == lines
  {
    hide LineEnd, Unbroken;
    if |lines| > 0 {
      var line, rest := lines[0], JoinLines(lines[1..]);
      var text := JoinLines(lines);
      LinesReadBack(lines[1..]);
      assert text == line + "\n" + rest && text[|line|] == '\n';
      FirstBreak(text, line, rest);
      assert text[..|line|] == line && text[|line| + 1..] == rest;
    }
  }

  // ------------------------------------------------------------ one line of the report

  // What `str.strip` and `\s` take for white space.
  predicate IsSpace(c: char) {
    || '\t' <= c <= '\r' || '\U{1C}' <= c <= ' ' || c == '\U{85}' || c == '\U{A0}' || c == '\U{1680}'
    || '\U{2000}' <= c <= '\U{200A}' || c == '\U{2028}' || c == '\U{2029}' || c == '\U{202F}' || c == '\U{205F}'
    || c == '\U{3000}'
  }

  function StripLeft(s: string): string {
    if |s| > 0 && IsSpace(s[0]) then StripLeft(s[1..]) else s
  }

  function StripRight(s: string): string {
    if |s| > 0 && IsSpace(Last(s)) then StripRight(Init(s)) else s
  }

  function Strip(s: string): string {
    StripRight(StripLeft(s))
  }

  // `^Node ([01]):\s*(.+)$`
  function NodeName(s: string): Option<(nat, string)> {
    if |s| < 8 || s[..5] != "Node " || (s[5] != '0' && s[5] != '1') || s[6] != ':' then None
    else Some((if s[5] == '0' then 0 else 1, StripLeft(s[7..])))
  }

  function HexValue(c: char): Option<nat> {
    if '0' <= c <= '9' then Some(c as int - '0' as int)
    else if 'a' <= c <= 'f' then Some(c as int - 'a' as int + 10)
    else if 'A' <= c <= 'F' then Some(c as int - 'A' as int + 10)
    else None
  }

  predicate IsHex(s: string) {
    forall c | c in s :: HexValue(c).Some?
  }

  // A line that carries payload: a non-empty, even number of hex digits.
  predicate IsData(s: string) {
    |s| > 0 && |s| % 2 == 0 && IsHex(s)
  }

  function Nibble(c: char): (n: nat)
    ensures n < 16
  {
    match HexValue(c) case Some(n) => n case None => 0
  }

  function Unhex(s: string): (r: bytes)
    requires |s| % 2 == 0
    ensures |r| == |s| / 2
  {
    if |s| == 0 then [] else [Nibble(s[0]) * 16 + Nibble(s[1])] + Unhex(s[2..])
  }

  lemma {:induction false} UnhexAt(s: string, k: nat)
    requires |s| % 2 == 0 && k < |s| / 2
    ensures Unhex(s)[k] == Nibble(s[2 * k]) * 16 + Nibble(s[2 * k + 1])
  {
    if k > 0 {
      UnhexAt(s[2..], k - 1);
      assert s[2..][2 * (k - 1)] == s[2 * k] && s[2..][2 * (k - 1) + 1] == s[2 * k + 1];
    }
  }

  // Decoding a part of the digits gives that part of the bytes.
  lemma UnhexPart(s: string, a: nat, b: nat)
    requires |s| % 2 == 0 && a <= b <= |s| / 2
    ensures Unhex(s[2 * a..2 * b]) == Unhex(s)[a..b]
  {
    hide Nibble, Unhex;
    var part := s[2 * a..2 * b];
    forall k: nat | k < b - a
      ensures Unhex(part)[k] == Unhex(s)[a..b][k]
    {
      UnhexPartAt(s, a, b, k);
    }
  }

  lemma UnhexPartAt(s: string, a: nat, b: nat, k: nat)
    requires |s| % 2 == 0 && a <= b <= |s| / 2 && k < b - a
    ensures Unhex(s[2 * a..2 * b])[k] == Unhex(s)[a + k]
  {
    hide Nibble, Unhex;
    assert s[2 * a..2 * b][2 * k] == s[2 * (a + k)] && s[2 * a..2 * b][2 * k + 1] == s[2 * (a + k) + 1];
    UnhexAt(s[2 * a..2 * b], k);
    UnhexAt(s, a + k);
  }

  // ------------------------------------------------------------ the whole stream

  function Tag(node: nat, data: bytes): (r: seq<Tagged>)
    ensures |r| == |data| && forall k | 0 <= k < |data| :: r[k] == Tagged(node, data[k])
  {
    if |data| == 0 then [] else Tag(node, Init(data)) + [Tagged(node, Last(data))]
  }

  // Node 1 is indented by a tab.
  function NodeOf(line: string): nat {
    if |line| > 0 && line[0] == '\t' then 1 else 0
  }

  function LineBytes(line: string): seq<Tagged> {
    var s := Strip(line);
    if NodeName(s).None? && IsData(s) then Tag(NodeOf(line), Unhex(s)) else []
  }

  // The conversation: every payload byte of the report, tagged with its sender.
  function Stream(lines: seq<string>): seq<Tagged> {
    if |lines| == 0 then [] else Stream(Init(lines)) + LineBytes(Last(lines))
  }

  // The endpoints the report names; a later line replaces an earlier one.
  function NodesIn(lines: seq<string>): map<nat, string> {
    if |lines| == 0 then map[] else
    match NodeName(Strip(Last(lines)))
    case None => NodesIn(Init(lines))
    case Some((node, name)) => NodesIn(Init(lines))[node := name]
  }

  function Min(a: int, b: int): int { if a <= b then a else b }

  function Max(a: int, b: int): int { if a >= b then a else b }

  // The bytes from `offset` on, at most `limit` of them.
  function Page(s: seq<Tagged>, limit: nat, offset: nat): (page: seq<Tagged>)
    ensures |page| == if offset >= |s| then 0 else if offset + limit >= |s| then |s| - offset else limit
    ensures forall k | 0 <= k < |page| :: page[k] == s[offset + k]
  {
    s[Min(offset, |s|)..Min(offset + limit, |s|)]
  }

  function Expand(chunks: seq<Chunk>): seq<Tagged> {
    if |chunks| == 0 then [] else Expand(Init(chunks)) + Tag(Last(chunks).node, Last(chunks).data)
  }

  // Chunks are never empty, and neighbours come from different nodes.
  ghost predicate Alternating(chunks: seq<Chunk>) {
    && (forall k | 0 <= k < |chunks| :: |chunks[k].data| > 0)
    && forall k | 0 < k < |chunks| :: chunks[k - 1].node != chunks[k].node
  }

  function ClampLimit(limit: int): (r: nat)
    ensures r == if limit < 1 then 1 else if limit > 1_048_576 then 1_048_576 else limit
  {
    Max(1, Min(limit, MAX_PAGE))
  }

  lemma TagConcat(node: nat, a: bytes, b: bytes)
    ensures Tag(node, a + b) == Tag(node, a) + Tag(node, b)
  {
  }

  lemma ExpandSnoc(chunks: seq<Chunk>, c: Chunk)
    ensures Expand(chunks + [c]) == Expand(chunks) + Tag(c.node, c.data)
  {
    Snoc(chunks, c);
  }

  // Appending bytes to the page, in the last chunk when the node is the same.
  method Keep(chunks: seq<Chunk>, node: nat, data: bytes) returns (r: seq<Chunk>)
    requires Alternating(chunks) && |data| > 0
    ensures Alternating(r) && Expand(r) == Expand(chunks) + Tag(node, data)
  {
    hide Expand, Tag;
    if |chunks| > 0 && Last(chunks).node == node {
      var last := Last(chunks);
      var longer := Chunk(node, last.data + data);
      r := chunks[|chunks| - 1 := longer];
      assert r == Init(chunks) + [longer];
      assert chunks == Init(chunks) + [last];
      ExpandSnoc(Init(chunks), longer);
      ExpandSnoc(Init(chunks), last);
      TagConcat(node, last.data, data);
    } else {
      r := chunks + [Chunk(node, data)];
      ExpandSnoc(chunks, Chunk(node, data));
    }
  }

  // How much of a line of `count` bytes is skipped when `total` bytes precede it.
  function Skip(total: nat, offset: nat): nat {
    Max(0, offset - total)
  }

  // What a further line adds to a page that holds `kept` bytes.
  function Added(data: bytes, total: nat, kept: nat, limit: nat, offset: nat): bytes {
    var skip := Skip(total, offset);
    if skip >= |data| || kept >= limit then [] else data[skip..skip + Min(|data| - skip, limit - kept)]
  }

  lemma PageGrows(s: seq<Tagged>, node: nat, data: bytes, limit: nat, offset: nat)
    ensures |Page(s, limit, offset)| <= limit
    ensures Page(s + Tag(node, data), limit, offset)
         == Page(s, limit, offset) + Tag(node, Added(data, |s|, |Page(s, limit, offset)|, limit, offset))
  {
    hide Tag;
    var t := s + Tag(node, data);
    var before, after := Page(s, limit, offset), Page(t, limit, offset);
    var extra := Tag(node, Added(data, |s|, |before|, limit, offset));
    assert |after| == |before| + |extra|;
    forall k | 0 <= k < |after|
      ensures after[k] == (before + extra)[k]
    {
      if k >= |before| {
        assert t[Min(offset, |t|) + k] == Tagged(node, data[Min(offset, |t|) + k - |s|]);
      }
    }
  }

  lemma NextLine(lines: seq<string>, n: nat)
    requires n < |lines|
    ensures Stream(lines[..n + 1]) == Stream(lines[..n]) + LineBytes(lines[n])
    ensures var name := NodeName(Strip(lines[n]));
            NodesIn(lines[..n + 1]) ==
              if name.Some? then NodesIn(lines[..n])[name.value.0 := name.value.1] else NodesIn(lines[..n])
  {
    hide LineBytes;
    assert Init(lines[..n + 1]) == lines[..n];
  }

  // The text of a line decides what it is; only data lines carry bytes.
  lemma WhatLineCarries(line: string)
    ensures var s := Strip(line);
            && (NodeName(s).None? && IsData(s) ==> |s| > 0 && |s| % 2 == 0 && LineBytes(line) == Tag(NodeOf(line), Unhex(s)))
            && (NodeName(s).Some? || !IsData(s) ==> LineBytes(line) == [])
  {
    hide Strip, NodeName, IsHex, Unhex, Tag;
  }

  // Keeping what the line adds, in the last chunk when its node is the same.
  method KeepLine(chunks: seq<Chunk>, node: nat, s: string, total: nat, kept: nat, limit: nat, offset: nat)
      returns (r: seq<Chunk>, more: nat)
    requires Alternating(chunks) && |s| % 2 == 0
    ensures Alternating(r) && more == |Added(Unhex(s), total, kept, limit, offset)|
    ensures Expand(r) == Expand(chunks) + Tag(node, Added(Unhex(s), total, kept, limit, offset))
  {
    hide Alternating, Expand, Unhex;
    var count := |s| / 2;
    var skip := Skip(total, offset);
    assert Tag(node, []) == [] && Expand(chunks) + [] == Expand(chunks);
    if skip >= count {
      return chunks, 0;
    }
    var take := Min(count - skip, limit - kept);
    if take <= 0 {
      return chunks, 0;
    }
    UnhexPart(s, skip, skip + take);
    var data := Unhex(s[2 * skip..2 * (skip + take)]);
    more := |data|;
    r := Keep(chunks, node, data);
  }

  /** One page of the conversation: the chunks are exactly that slice of the stream. */
  method ParseFollowRaw(text: string, limit: int, offset: int)
      returns (nodes: map<nat, string>, chunks: seq<Chunk>, total: nat)
    ensures nodes == NodesIn(SplitLines(text)) && total == |Stream(SplitLines(text))|
    ensures Alternating(chunks)
    ensures Expand(chunks) == Page(Stream(SplitLines(text)), ClampLimit(limit), Max(0, offset))
  {
    hide Strip, NodeName, IsData, Page, Stream, NodesIn, Alternating, Expand, LineBytes, Unhex, Added, NodeOf;
    hide SplitLines;
    var lines := SplitLines(text);
    var size := ClampLimit(limit);
    var from := Max(0, offset);
    nodes, chunks, total := map[], [], 0;
    var kept := 0;
    NothingYet(lines, size, from);
    for n := 0 to |lines|
      invariant nodes == NodesIn(lines[..n]) && total == |Stream(lines[..n])| && kept == |Expand(chunks)|
      invariant Alternating(chunks) && Expand(chunks) == Page(Stream(lines[..n]), size, from)
    {
      var line := lines[n];
      NextLine(lines, n);
      WhatLineCarries(line);
      ghost var before := Stream(lines[..n]);
      assert before + [] == before;
      var s := Strip(line);
      var name := NodeName(s);
      if name.Some? {
        nodes := nodes[name.value.0 := name.value.1];
        continue;
      }
      if !IsData(s) {
        continue;
      }
      var node := NodeOf(line);
      PageGrows(before, node, Unhex(s), size, from);
      var more: nat;
      chunks, more := KeepLine(chunks, node, s, total, kept, size, from);
      total := total + |s| / 2;
      kept := kept + more;
    }
    assert lines[..|lines|] == lines;
  }

  lemma NothingYet(lines: seq<string>, limit: nat, offset: nat)
    ensures Stream(lines[..0]) == [] && NodesIn(lines[..0]) == map[]
    ensures Alternating([]) && Expand([]) == Page([], limit, offset) == []
  {
  }

  // ------------------------------------------------------------ reading page after page

  datatype Conversation = Conversation(
    nodes: map<nat, string>, chunks: seq<Chunk>, length: nat, loadedThrough: int, total: nat, truncated: bool)

  function DataLength(chunks: seq<Chunk>): nat {
    if |chunks| == 0 then 0 else DataLength(Init(chunks)) + |Last(chunks).data|
  }

  lemma {:induction false} ExpandLength(chunks: seq<Chunk>)
    ensures |Expand(chunks)| == DataLength(chunks)
  {
    if |chunks| > 0 {
      ExpandLength(Init(chunks));
    }
  }

  method ConversationFromFollow(text: string, limit: int, offset: int) returns (c: Conversation)
    ensures var lines := SplitLines(text);
            && Expand(c.chunks) == Page(Stream(lines), ClampLimit(limit), Max(0, offset)) && Alternating(c.chunks)
            && c.nodes == NodesIn(lines) && c.length == |Expand(c.chunks)| && c.total == |Stream(lines)|
    ensures c.loadedThrough == offset + c.length
    ensures c.truncated <==> c.loadedThrough < c.total
  {
    var nodes, chunks, total := ParseFollowRaw(text, limit, offset);
    ExpandLength(chunks);
    var returned := 0;
    for n := 0 to |chunks|
      invariant returned == DataLength(chunks[..n])
    {
      assert Init(chunks[..n + 1]) == chunks[..n];
      returned := returned + |chunks[n].data|;
    }
    assert chunks[..|chunks|] == chunks;
    c := Conversation(nodes, chunks, returned, offset + returned, total, offset + returned < total);
  }

  // What a reader collects that asks for the next page while the answer is truncated.
  function Follow(s: seq<Tagged>, limit: nat, offset: nat): seq<Tagged>
    requires limit > 0
    decreases |s| - offset
  {
    var page := Page(s, limit, offset);
    if offset + |page| < |s| then page + Follow(s, limit, offset + |page|) else page
  }

  /** Following `loaded_through` while `truncated` ends, and yields the whole stream. */
  lemma {:induction false} PagesReassemble(s: seq<Tagged>, limit: nat, offset: nat)
    requires limit > 0 && offset <= |s|
    ensures Follow(s, limit, offset) == s[offset..]
    decreases |s| - offset
  {
    var page := Page(s, limit, offset);
    if offset + |page| < |s| {
      PagesReassemble(s, limit, offset + |page|);
      assert page + s[offset + |page|..] == s[offset..];
    }
  }

  /**
   `loaded_through` is the end of the page exactly when the caller's offset was not negative:
   the parser clamps the offset, the response does not. The two callers pass 0 or a clamped one.
   */
  lemma LoadedThroughIsPageEnd(s: seq<Tagged>, limit: nat, offset: int)
    requires limit > 0 && offset <= |s|
    ensures offset + |Page(s, limit, Max(0, offset))| == Min(Max(0, offset) + limit, |s|) <==> offset >= 0
  {
  }

  /** Two alternating chunkings of the same bytes are the same chunks. */
  lemma {:induction false} ChunksAreCanonical(a: seq<Chunk>, b: seq<Chunk>)
    requires Alternating(a) && Alternating(b) && Expand(a) == Expand(b)
    ensures a == b
    decreases |a|
  {
    hide Expand;
    EmptyExpand(a);
    EmptyExpand(b);
    if |a| > 0 && |b| > 0 {
      SameLast(a, b);
      ChunksAreCanonical(Init(a), Init(b));
      assert a == Init(a) + [Last(a)] && b == Init(b) + [Last(b)];
    }
  }

  lemma SameLast(a: seq<Chunk>, b: seq<Chunk>)
    requires Alternating(a) && Alternating(b) && Expand(a) == Expand(b) && |a| > 0 && |b| > 0
    ensures Last(a) == Last(b) && Expand(Init(a)) == Expand(Init(b))
  {
    hide Expand, Alternating;
    SameRun(a, b);
    LastRun(a);
    LastRun(b);
    var s, m := Expand(a), |Last(a).data|;
    forall k | 0 <= k < m
      ensures Last(a).data[k] == Last(b).data[k]
    {
      assert s[|s| - m + k] == Tagged(Last(a).node, Last(a).data[k]);
      assert s[|s| - m + k] == Tagged(Last(b).node, Last(b).data[k]);
    }
    assert Last(a).data == Last(b).data;
  }

  lemma EmptyExpand(a: seq<Chunk>)
    requires Alternating(a)
    ensures Expand(a) == [] <==> a == []
  {
  }

  function NodeAt(s: seq<Tagged>, k: int): nat {
    if 0 <= k < |s| then s[k].node else 0
  }

  lemma ExpandLast(a: seq<Chunk>)
    requires |a| > 0
    ensures var s, m := Expand(a), |Last(a).data|;
            && m <= |s| && Expand(Init(a)) == s[..|s| - m]
            && (forall k | |s| - m <= k < |s| :: s[k] == Tagged(Last(a).node, Last(a).data[k - (|s| - m)]))
  {
    hide Tag;
  }

  // The last chunk is the longest run of its node at the end of the stream.
  lemma LastRun(a: seq<Chunk>)
    requires Alternating(a) && |a| > 0
    ensures var s, m := Expand(a), |Last(a).data|;
            && 0 < m <= |s| && Expand(Init(a)) == s[..|s| - m]
            && (forall k | |s| - m <= k < |s| :: s[k] == Tagged(Last(a).node, Last(a).data[k - (|s| - m)]))
            && (m < |s| ==> NodeAt(s, |s| - m - 1) != Last(a).node)
  {
    hide Expand, Alternating, NodeAt, Tag;
    ExpandLast(a);
    LastDiffers(a);
    if |a| > 1 {
      ExpandLast(Init(a));
      BeforeLastRun(Expand(a), |Last(a).data|, Expand(Init(a)), |Last(Init(a)).data|, Last(Init(a)).node,
                    Last(Init(a)).data);
    } else {
      EmptyExpand(Init(a));
    }
  }

  lemma LastDiffers(a: seq<Chunk>)
    requires Alternating(a) && |a| > 0
    ensures |Last(a).data| > 0 && Alternating(Init(a))
    ensures |a| > 1 ==> |Last(Init(a)).data| > 0 && Last(Init(a)).node != Last(a).node
  {
  }

  lemma BeforeLastRun(s: seq<Tagged>, m: nat, front: seq<Tagged>, n: nat, node: nat, data: bytes)
    requires m <= |s| && front == s[..|s| - m] && 0 < n == |data| && n <= |front|
    requires forall k | |front| - n <= k < |front| :: front[k] == Tagged(node, data[k - (|front| - n)])
    ensures NodeAt(s, |s| - m - 1) == node
  {
    assert front[|front| - 1] == s[|s| - m - 1];
  }

  // A node's bytes in front of another node's run would be part of that run.
  lemma NotLonger(a: seq<Chunk>, b: seq<Chunk>)
    requires Alternating(a) && Alternating(b) && Expand(a) == Expand(b) && |a| > 0 && |b| > 0
    ensures Last(a).node == Last(b).node && |Last(a).data| <= |Last(b).data|
  {
    hide Expand, Alternating;
    LastRun(a);
    LastRun(b);
    var s := Expand(a);
    var n, node := |Last(b).data|, Last(a).node;
    assert NodeAt(s, |s| - 1) == node;
    assert NodeAt(s, |s| - 1) == Last(b).node;
    assert n < |Last(a).data| ==> NodeAt(s, |s| - n - 1) == node;
  }

  lemma SameRun(a: seq<Chunk>, b: seq<Chunk>)
    requires Alternating(a) && Alternating(b) && Expand(a) == Expand(b) && |a| > 0 && |b| > 0
    ensures Last(a).node == Last(b).node && |Last(a).data| == |Last(b).data|
  {
    hide Expand, Alternating;
    NotLonger(a, b);
    NotLonger(b, a);
  }
}
