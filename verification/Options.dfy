/** The order of TCP options, read from their raw bytes (`parse_options`; section 3.1 of RFC 9293). */
module Options {
  import opened Bytes

  datatype Name =
    | NoOperation
    | SegmentSize
    | WindowScale
    | Sack
    | SackPermitted
    | Timestamps
    | OtherKind(kind: byte)
    | Malformed(kind: byte)

  function NameOf(kind: byte): (name: Name)
    ensures !name.Malformed?
  {
    match kind
    case 2 => SegmentSize
    case 3 => WindowScale
    case 4 => Sack
    case 5 => SackPermitted
    case 8 => Timestamps
    case _ => OtherKind(kind)
  }

  // A well-formed option: the one-byte NOP, or a kind with a length that counts its two header bytes.
  datatype TcpOption = Nop | WithLength(kind: byte, body: seq<byte>)
  {
    ghost predicate Valid() {
      WithLength? ==> kind >= 2 && |body| <= 253
    }

    function Encoded(): seq<byte>
      requires Valid()
    {
      if Nop? then [1] else [kind, |body| as byte + 2] + body
    }

    function Name(): Name {
      if Nop? then NoOperation else NameOf(kind)
    }
  }

  ghost predicate AllValid(options: seq<TcpOption>) {
    forall k :: 0 <= k < |options| ==> options[k].Valid()
  }

  // The bytes of a list of options, back to back.
  function Encode(options: seq<TcpOption>): bytes
    requires AllValid(options)
  {
    if |options| == 0 then [] else options[0].Encoded() + Encode(options[1..])
  }

  function NamesIn(options: seq<TcpOption>): seq<Name> {
    if |options| == 0 then [] else [options[0].Name()] + NamesIn(options[1..])
  }

  // Where reading stops: the end, an end-of-list byte, a kind without a length byte, or a
  // length that is too small or reaches past the end.
  predicate Stops(tail: bytes) {
    |tail| == 0 || tail[0] == 0 || (tail[0] != 1 && (|tail| == 1 || BadLength(tail)))
  }

  predicate BadLength(tail: bytes)
    requires |tail| >= 2
  {
    tail[1] < 2 || tail[1] > |tail|
  }

  // Only a bad length is reported; a missing length byte ends the list silently.
  function StopNames(tail: bytes): seq<Name> {
    if |tail| >= 2 && tail[0] > 1 && BadLength(tail) then [Malformed(tail[0])] else []
  }

  // The option that the bytes start with.
  function First(data: bytes): (option: TcpOption)
    requires !Stops(data)
    ensures option.Valid() && |option.Encoded()| <= |data| && data == option.Encoded() + data[|option.Encoded()|..]
  {
    if data[0] == 1 then Nop else WithLength(data[0], data[2..data[1]])
  }

  // The options that the bytes start with, up to where reading stops.
  function Options(data: bytes): (options: seq<TcpOption>)
    ensures AllValid(options)
    decreases |data|
  {
    if Stops(data) then [] else [First(data)] + Options(data[|First(data).Encoded()|..])
  }

  function Rest(data: bytes): (tail: bytes)
    ensures Stops(tail)
    decreases |data|
  {
    if Stops(data) then data else Rest(data[|First(data).Encoded()|..])
  }

  function Names(data: bytes): seq<Name> {
    NamesIn(Options(data)) + StopNames(Rest(data))
  }

  lemma NextNames(data: bytes)
    requires !Stops(data)
    ensures Names(data) == [First(data).Name()] + Names(data[|First(data).Encoded()|..])
  {
    var rest := data[|First(data).Encoded()|..];
    assert Options(data)[1..] == Options(rest);
  }

  method ParseOptions(data: bytes) returns (names: seq<Name>)
    ensures names == Names(data)
  {
    hide Names, First, Stops;
    names := [];
    var index := 0;
    while index < |data|
      invariant 0 <= index <= |data|
      invariant names + Names(data[index..]) == Names(data)
    {
      var kind := data[index];
      Step(data, index);
      assert names + [] == names;
      if kind == 0 {
        return;
      }
      if kind == 1 {
        names := names + [NoOperation];
        index := index + 1;
        continue;
      }
      if index + 1 >= |data| {
        return;
      }
      var length := data[index + 1];
      if length < 2 || index + length > |data| {
        names := names + [Malformed(kind)];
        return;
      }
      names := names + [NameOf(kind)];
      index := index + length;
    }
    EndOfData();
    assert data[index..] == [] && names + [] == names;
  }

  lemma EndOfData()
    ensures Names([]) == []
  {
  }

  // What one turn of the loop may rely on.
  lemma Step(data: bytes, index: nat)
    requires index < |data|
    ensures var kind, names := data[index], Names(data[index..]);
            if kind == 0 then names == []
            else if kind == 1 then names == [NoOperation] + Names(data[index + 1..])
            else if index + 1 == |data| then names == []
            else if data[index + 1] < 2 || index + data[index + 1] > |data| then names == [Malformed(kind)]
            else names == [NameOf(kind)] + Names(data[index + data[index + 1]..])
  {
    var tail := data[index..];
    if !Stops(tail) {
      NextNames(tail);
      var width := |First(tail).Encoded()|;
      assert tail[width..] == data[index + width..];
    }
  }

  lemma {:induction false} SplitsBack(data: bytes)
    ensures data == Encode(Options(data)) + Rest(data)
    decreases |data|
  {
    if !Stops(data) {
      var rest := data[|First(data).Encoded()|..];
      SplitsBack(rest);
      assert Options(data)[1..] == Options(rest);
      assert data == First(data).Encoded() + rest;
    }
  }

  lemma FirstOfEncoded(option: TcpOption, tail: bytes)
    requires option.Valid()
    ensures var data := option.Encoded() + tail;
            !Stops(data) && First(data) == option && data[|option.Encoded()|..] == tail
  {
    var data := option.Encoded() + tail;
    if option.WithLength? {
      assert data[2..data[1]] == option.body;
    }
    assert data[|option.Encoded()|..] == tail;
  }

  /** Encoded options followed by anything that stops reading split back into just those options. */
  lemma {:induction false} SplitIsUnique(options: seq<TcpOption>, tail: bytes)
    requires AllValid(options) && Stops(tail)
    ensures Options(Encode(options) + tail) == options && Rest(Encode(options) + tail) == tail
  {
    hide Stops, First;
    if |options| == 0 {
      assert Encode(options) + tail == tail;
    } else {
      var rest := Encode(options[1..]) + tail;
      assert Encode(options) + tail == options[0].Encoded() + rest;
      FirstOfEncoded(options[0], rest);
      SplitIsUnique(options[1..], tail);
    }
  }

  /** The padding after an end-of-list byte is not read: the names come back in order. */
  lemma EncodedOptionsReadBack(options: seq<TcpOption>, padding: bytes)
    requires AllValid(options)
    ensures Names(Encode(options)) == NamesIn(options)
    ensures Names(Encode(options) + ([0] + padding)) == NamesIn(options)
  {
    hide Options, Rest;
    assert Encode(options) + [] == Encode(options);
    SplitIsUnique(options, []);
    SplitIsUnique(options, [0] + padding);
  }

  // The name that the registered kind numbers stand for.
  ghost predicate IsNamed(option: TcpOption, name: Name) {
    if option.Nop? then name == NoOperation
    else if option.kind in {2, 3, 4, 5, 8} then
      && (option.kind == 2 ==> name == SegmentSize)
      && (option.kind == 3 ==> name == WindowScale)
      && (option.kind == 4 ==> name == Sack)
      && (option.kind == 5 ==> name == SackPermitted)
      && (option.kind == 8 ==> name == Timestamps)
    else name == OtherKind(option.kind)
  }

  // The option's length byte counts less than its header or more than there is.
  ghost predicate HasBadLength(tail: bytes) {
    |tail| >= 2 && tail[0] >= 2 && (tail[1] < 2 || tail[1] > |tail|)
  }

  // The bytes are these options back to back and a tail without a further one.
  ghost predicate SplitsInto(data: bytes, options: seq<TcpOption>, tail: bytes) {
    && AllValid(options) && data == Encode(options) + tail
    && (|tail| == 0 || tail[0] == 0 || (|tail| == 1 && tail[0] != 1) || HasBadLength(tail))
  }

  // One name for each option, and one report for a bad length.
  ghost predicate AreNames(names: seq<Name>, options: seq<TcpOption>, tail: bytes) {
    && |names| == |options| + (if HasBadLength(tail) then 1 else 0)
    && (forall k | 0 <= k < |options| :: IsNamed(options[k], names[k]))
    && (HasBadLength(tail) ==> names[|options|] == Malformed(tail[0]))
  }

  lemma {:induction false} NamesAt(options: seq<TcpOption>, names: seq<Name>)
    ensures |NamesIn(options)| == |options|
    ensures names == NamesIn(options)
            <==> |names| == |options| && forall k | 0 <= k < |options| :: IsNamed(options[k], names[k])
  {
    hide IsNamed;
    if |options| > 0 {
      NameMeans(options[0], options[0].Name());
      if |names| > 0 {
        NamesAt(options[1..], names[1..]);
        NameMeans(options[0], names[0]);
        assert names == [names[0]] + names[1..];
      } else {
        NamesAt(options[1..], []);
      }
    }
  }

  lemma NameMeans(option: TcpOption, name: Name)
    ensures IsNamed(option, name) <==> name == option.Name()
  {
  }

  lemma StopMeans(options: seq<TcpOption>, tail: bytes, names: seq<Name>)
    ensures AreNames(names, options, tail) <==> names == NamesIn(options) + StopNames(tail)
  {
    hide IsNamed, NamesIn;
    NamesAt(options, NamesIn(options));
    if |names| >= |options| {
      NamesAt(options, names[..|options|]);
      assert names == names[..|options|] + names[|options|..];
    }
  }

  /**
   The names are exactly those of the only split of the bytes into well-formed options and a
   stop, with one report when the stop is a bad length.
   */
  lemma NamesAreExact(data: bytes, names: seq<Name>)
    ensures names == Names(data)
            <==> exists options, tail :: SplitsInto(data, options, tail) && AreNames(names, options, tail)
  {
    hide Options, Rest, Encode, NamesIn, StopNames, AreNames;
    SplitsBack(data);
    assert SplitsInto(data, Options(data), Rest(data));
    StopMeans(Options(data), Rest(data), names);
    forall options, tail | SplitsInto(data, options, tail)
      ensures options == Options(data) && tail == Rest(data)
    {
      SplitIsUnique(options, tail);
    }
  }

  /** A report of a malformed option can only be the last name. */
  lemma {:induction false} OnlyTheLastIsMalformed(options: seq<TcpOption>, tail: bytes, k: nat)
    requires k < |NamesIn(options) + StopNames(tail)|
    ensures (NamesIn(options) + StopNames(tail))[k].Malformed? <==> k == |NamesIn(options)|
  {
    if k < |NamesIn(options)| && k > 0 {
      OnlyTheLastIsMalformed(options[1..], tail, k - 1);
    }
  }
}
