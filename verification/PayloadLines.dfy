/** What single lines of the report say, in their own characters. */
module PayloadLines {
  import opened Wrappers
  import opened Bytes
  import opened Sequences
  import opened Payload

  // ------------------------------------------------------------ surrounding white space

  ghost predicate Blank(s: string) {
    forall c | c in s :: IsSpace(c)
  }

  // Nothing to strip at either end.
  ghost predicate Bare(s: string) {
    |s| > 0 ==> !IsSpace(s[0]) && !IsSpace(s[|s| - 1])
  }

  lemma {:induction false} LeftIsStripped(left: string, s: string)
    requires Blank(left) && (|s| > 0 ==> !IsSpace(s[0]))
    ensures StripLeft(left + s) == s
  {
    hide IsSpace;
    if |left| == 0 {
      assert left + s == s;
    } else {
      assert left[0] in left && forall c | c in left[1..] :: c in left;
      assert (left + s)[1..] == left[1..] + s;
      LeftIsStripped(left[1..], s);
    }
  }

  lemma {:induction false} RightIsStripped(s: string, right: string)
    requires Blank(right) && (|s| > 0 ==> !IsSpace(s[|s| - 1]))
    ensures StripRight(s + right) == s
  {
    hide IsSpace;
    if |right| == 0 {
      assert s + right == s;
    } else {
      assert Last(right) in right && forall c | c in Init(right) :: c in right;
      assert Init(s + right) == s + Init(right);
      RightIsStripped(s, Init(right));
    }
  }

  lemma {:induction false} LeftPart(s: string)
    ensures exists left :: Blank(left) && s == left + StripLeft(s)
    ensures |StripLeft(s)| > 0 ==> !IsSpace(StripLeft(s)[0])
  {
    hide IsSpace;
    if |s| > 0 && IsSpace(s[0]) {
      LeftPart(s[1..]);
      var left :| Blank(left) && s[1..] == left + StripLeft(s[1..]);
      assert Blank([s[0]] + left) && s == [s[0]] + left + StripLeft(s);
    } else {
      assert Blank("") && s == "" + StripLeft(s);
    }
  }

  lemma {:induction false} RightPart(s: string)
    ensures exists right :: Blank(right) && s == StripRight(s) + right
    ensures StripRight(s) != "" ==> StripRight(s)[0] == s[0] && !IsSpace(Last(StripRight(s)))
  {
    hide IsSpace;
    if |s| > 0 && IsSpace(Last(s)) {
      RightPart(Init(s));
      var right :| Blank(right) && Init(s) == StripRight(Init(s)) + right;
      assert Blank(right + [Last(s)]) && s == StripRight(s) + (right + [Last(s)]);
    } else {
      assert Blank("") && s == StripRight(s) + "";
    }
  }

  ghost predicate Surrounds(line: string, left: string, s: string, right: string) {
    Blank(left) && Blank(right) && Bare(s) && line == left + s + right
  }

  // The stripped line is the only part without white space at its ends that leaves only white space.
  lemma StripMeans(line: string, s: string)
    ensures Strip(line) == s <==> exists left, right :: Surrounds(line, left, s, right)
  {
    hide IsSpace, StripLeft, StripRight, Blank;
    LeftPart(line);
    RightPart(StripLeft(line));
    var left :| Blank(left) && line == left + StripLeft(line);
    var right :| Blank(right) && StripLeft(line) == Strip(line) + right;
    assert line == left + Strip(line) + right;
    assert Surrounds(line, left, Strip(line), right);
    forall left, right | Surrounds(line, left, s, right)
      ensures Strip(line) == s
    {
      StripsTo(line, left, s, right);
    }
  }

  lemma StripsTo(line: string, left: string, s: string, right: string)
    requires Surrounds(line, left, s, right)
    ensures Strip(line) == s
  {
    hide IsSpace, StripLeft, StripRight;
    if s == "" {
      assert Blank(left + right) && line == (left + right) + "";
      LeftIsStripped(left + right, "");
      RightIsStripped("", "");
      assert "" + "" == "";
    } else {
      assert line == left + (s + right) && (s + right)[0] == s[0];
      LeftIsStripped(left, s + right);
      RightIsStripped(s, right);
    }
  }

  // ------------------------------------------------------------ digits

  const LOWER := "0123456789abcdef"
  const UPPER := "0123456789ABCDEF"

  // `c` writes the number `n`.
  predicate Writes(c: char, n: int) {
    0 <= n < 16 && (c == LOWER[n] || c == UPPER[n])
  }

  lemma DigitMeans(c: char, n: int)
    ensures HexValue(c).Some? && HexValue(c).value == n <==> Writes(c, n)
    ensures Writes(c, n) ==> !IsSpace(c) && c != 'N'
  {
  }

  // Two digits for every byte.
  ghost predicate AreDigits(s: string, data: bytes) {
    && |s| == 2 * |data|
    && forall k | 0 <= k < |data| :: Writes(s[2 * k], data[k] / 16) && Writes(s[2 * k + 1], data[k] % 16)
  }

  lemma DigitsAreData(s: string, data: bytes)
    requires AreDigits(s, data) && data != []
    ensures IsData(s) && Unhex(s) == data && Bare(s) && NodeName(s).None?
  {
    hide HexValue, Nibble, Unhex, Writes, IsSpace;
    forall i | 0 <= i < |s|
      ensures HexValue(s[i]).Some? && !IsSpace(s[i]) && s[i] != 'N'
    {
      var k := i / 2;
      assert Writes(s[2 * k], data[k] / 16) && Writes(s[2 * k + 1], data[k] % 16);
      DigitMeans(s[2 * k], data[k] / 16);
      DigitMeans(s[2 * k + 1], data[k] % 16);
    }
    forall k | 0 <= k < |data|
      ensures Unhex(s)[k] == data[k]
    {
      UnhexAt(s, k);
      PairMeans(s[2 * k], s[2 * k + 1], data[k]);
    }
    assert |s| >= 8 ==> s[..5][0] == s[0];
  }

  lemma PairMeans(high: char, low: char, b: byte)
    requires HexValue(high).Some? && HexValue(low).Some?
    ensures Nibble(high) * 16 + Nibble(low) == b <==> Writes(high, b / 16) && Writes(low, b % 16)
  {
    hide HexValue, Writes;
    DigitMeans(high, b / 16);
    DigitMeans(low, b % 16);
  }

  lemma DataIsDigits(s: string)
    requires IsData(s)
    ensures Unhex(s) != [] && AreDigits(s, Unhex(s))
  {
    hide HexValue, Nibble, Unhex, Writes;
    forall k | 0 <= k < |s| / 2
      ensures Writes(s[2 * k], Unhex(s)[k] / 16) && Writes(s[2 * k + 1], Unhex(s)[k] % 16)
    {
      UnhexAt(s, k);
      assert s[2 * k] in s && s[2 * k + 1] in s;
      PairMeans(s[2 * k], s[2 * k + 1], Unhex(s)[k]);
    }
  }

  // ------------------------------------------------------------ lines

  // The line is these bytes in hex digits of either case, between white space.
  ghost predicate IsDataLine(line: string, left: string, digits: string, right: string, data: bytes) {
    Surrounds(line, left, digits, right) && AreDigits(digits, data) && data != []
  }

  // The bytes of the node that a leading tab tells.
  ghost predicate AreSent(tags: seq<Tagged>, line: string, data: bytes) {
    && |tags| == |data|
    && forall k | 0 <= k < |data| ::
         tags[k].value == data[k] && tags[k].node == if |line| > 0 && line[0] == '\t' then 1 else 0
  }

  /** A line carries bytes exactly when it is an even, non-empty run of digits between white space. */
  lemma DataLineMeans(line: string, tags: seq<Tagged>)
    requires tags != []
    ensures LineBytes(line) == tags
            <==> exists left, digits, right, data :: IsDataLine(line, left, digits, right, data) && AreSent(tags, line, data)
  {
    hide Strip, IsData, Unhex, NodeName, AreDigits, Surrounds;
    var s := Strip(line);
    if LineBytes(line) == tags {
      StripMeans(line, s);
      WhatLineCarries(line);
      var left, right :| Surrounds(line, left, s, right);
      DataIsDigits(s);
      assert IsDataLine(line, left, s, right, Unhex(s)) && AreSent(tags, line, Unhex(s));
    }
    forall left, digits, right, data | IsDataLine(line, left, digits, right, data) && AreSent(tags, line, data)
      ensures LineBytes(line) == tags
    {
      StripMeans(line, digits);
      DigitsAreData(digits, data);
    }
  }

  // The line names a node.
  ghost predicate IsNameLine(line: string, left: string, node: nat, gap: string, name: string, right: string) {
    && Blank(left) && Blank(gap) && Blank(right) && Bare(name) && name != ""
    && ((node == 0 && line == left + "Node 0:" + gap + name + right)
        || (node == 1 && line == left + "Node 1:" + gap + name + right))
  }

  // What `^Node ([01]):\s*(.+)$` takes apart.
  lemma NodeNameMeans(s: string, node: nat, name: string)
    requires Bare(s)
    ensures NodeName(s) == Some((node, name)) <==> exists gap :: IsNameLine(s, "", node, gap, name, "")
  {
    hide StripLeft, IsSpace;
    if NodeName(s) == Some((node, name)) {
      LeftPart(s[7..]);
      var gap :| Blank(gap) && s[7..] == gap + name;
      assert s[7..] == gap + name && Last(s) in s[7..] && !IsSpace(Last(s));
      assert gap + "" == gap;
      assert s == s[..5] + [s[5], s[6]] + s[7..];
      assert IsNameLine(s, "", node, gap, name, "");
    }
    forall gap | IsNameLine(s, "", node, gap, name, "")
      ensures NodeName(s) == Some((node, name))
    {
      LeftIsStripped(gap, name);
      assert s[7..] == gap + name;
    }
  }

  lemma NameIsBare(t: string, line: string, left: string, node: nat, gap: string, name: string, right: string)
    requires IsNameLine(line, left, node, gap, name, right)
    requires t == (if node == 0 then "Node 0:" else "Node 1:") + gap + name
    ensures Surrounds(line, left, t, right) && IsNameLine(t, "", node, gap, name, "")
  {
    assert !IsSpace('N') && t[0] == 'N' && Last(t) == Last(name);
    assert line == left + t + right;
    assert t == "" + t + "";
  }

  ghost predicate Names(line: string, node: nat, name: string) {
    exists left, gap, right :: IsNameLine(line, left, node, gap, name, right)
  }

  /** A line names a node exactly when it reads `Node 0:` or `Node 1:` and a name, between white space. */
  lemma NameLineMeans(line: string, node: nat, name: string)
    ensures NodeName(Strip(line)) == Some((node, name)) <==> Names(line, node, name)
  {
    hide Strip, NodeName, IsSpace;
    var s := Strip(line);
    StripMeans(line, s);
    var left, right :| Surrounds(line, left, s, right);
    NodeNameMeans(s, node, name);
    if gap :| IsNameLine(s, "", node, gap, name, "") {
      assert IsNameLine(line, left, node, gap, name, right);
    }
    forall left, gap, right | IsNameLine(line, left, node, gap, name, right)
      ensures NodeName(s) == Some((node, name))
    {
      var t := (if node == 0 then "Node 0:" else "Node 1:") + gap + name;
      NameIsBare(t, line, left, node, gap, name, right);
      StripMeans(line, t);
    }
  }

  // ------------------------------------------------------------ the report

  /** The stream is what the lines carry, in their order. */
  lemma {:induction false} StreamOfLines(a: seq<string>, b: seq<string>)
    ensures Stream(a + b) == Stream(a) + Stream(b)
    ensures forall line | b == [line] :: Stream(b) == LineBytes(line)
  {
    hide LineBytes;
    if b == [] {
      assert a + b == a;
    } else {
      assert Init(a + b) == a + Init(b);
      StreamOfLines(a, Init(b));
    }
  }

  ghost predicate IsLatestName(lines: seq<string>, k: int, node: nat, name: string) {
    0 <= k < |lines| && Names(lines[k], node, name) && forall j, other | k < j < |lines| :: !Names(lines[j], node, other)
  }

  /** A node has the name that the last line about it gives. */
  lemma {:induction false} NodesMean(lines: seq<string>, node: nat, name: string)
    ensures node in NodesIn(lines) && NodesIn(lines)[node] == name <==> exists k :: IsLatestName(lines, k, node, name)
  {
    hide Strip, NodeName, Names;
    if lines != [] {
      var line, before := Last(lines), Init(lines);
      NodesMean(before, node, name);
      forall other
        ensures NodeName(Strip(line)) == Some((node, other)) <==> Names(line, node, other)
      {
        NameLineMeans(line, node, other);
      }
      forall k
        ensures IsLatestName(lines, k, node, name)
                <==> (k == |before| && Names(line, node, name))
                     || (IsLatestName(before, k, node, name) && forall other :: !Names(line, node, other))
      {
        LatestSnoc(lines, k, node, name);
      }
      if Names(line, node, name) {
        assert IsLatestName(lines, |before|, node, name);
      }
    }
  }

  lemma LatestSnoc(lines: seq<string>, k: int, node: nat, name: string)
    requires lines != []
    ensures IsLatestName(lines, k, node, name)
            <==> (k == |lines| - 1 && Names(Last(lines), node, name))
                 || (IsLatestName(Init(lines), k, node, name) && forall other :: !Names(Last(lines), node, other))
  {
    hide Names;
    assert forall j | 0 <= j < |lines| - 1 :: Init(lines)[j] == lines[j];
    assert lines[|lines| - 1] == Last(lines);
  }
}
