/** The reference file: 32-byte rows that link the records of a flow backward (`write_ref`). */
module References {
  import opened Bytes
  import opened Sequences
  import opened Ledger
  import opened Capture

  const REF_SIZE := 32

  datatype Ref = Ref(offset: u64, size: u32, frame: u32, previous: u64, owner: u32)

  function EncodeRef(r: Ref): (s: bytes)
    ensures |s| == REF_SIZE
  {
    ToLE(r.offset, 8) + ToLE(r.size, 4) + ToLE(r.frame, 4) + ToLE(r.previous, 8) + ToLE(r.owner, 4) + [0, 0, 0, 0]
  }

  function DecodeRef(s: bytes): Ref
    requires |s| == REF_SIZE
  {
    FromLEBound(s[0..8]);
    FromLEBound(s[8..12]);
    FromLEBound(s[12..16]);
    FromLEBound(s[16..24]);
    FromLEBound(s[24..28]);
    WordCapacity();
    Ref(FromLE(s[0..8]), FromLE(s[8..12]), FromLE(s[12..16]), FromLE(s[16..24]), FromLE(s[24..28]))
  }

  lemma RefReadsBack(r: Ref)
    ensures DecodeRef(EncodeRef(r)) == r
    ensures var s := EncodeRef(r);
            && FromLE(s[0..8]) == r.offset && FromLE(s[8..12]) == r.size && FromLE(s[12..16]) == r.frame
            && FromLE(s[16..24]) == r.previous && FromLE(s[24..28]) == r.owner && s[28..32] == [0, 0, 0, 0]
  {
    var s := EncodeRef(r);
    WordCapacity();
    assert s[0..8] == ToLE(r.offset, 8);
    assert s[8..12] == ToLE(r.size, 4);
    assert s[12..16] == ToLE(r.frame, 4);
    assert s[16..24] == ToLE(r.previous, 8);
    assert s[24..28] == ToLE(r.owner, 4);
    ReadBackLE(r.offset, 8);
    ReadBackLE(r.size, 4);
    ReadBackLE(r.frame, 4);
    ReadBackLE(r.previous, 8);
    ReadBackLE(r.owner, 4);
  }

  // The limits under which a log entry fits its row.
  ghost predicate FitsRow(e: Entry) {
    e.item.offset < 0x1_0000_0000_0000_0000 && e.item.frame < 0x1_0000_0000 && e.owner < 0x1_0000_0000
  }

  ghost predicate Fits(log: Log) {
    |log| < NO_REF && forall k | 0 <= k < |log| :: FitsRow(log[k])
  }

  // `(16 + incl) as u32`: the size of the record, truncated to 32 bits.
  function StoredSize(x: Item): u32 { (RECORD_HEADER + x.incl) % 0x1_0000_0000 }

  // The row of log entry `k`: it points back to the previous record of the same flow.
  ghost function RefOf(log: Log, k: nat): Ref
    requires Fits(log) && k < |log|
  {
    var e := log[k];
    Ref(e.item.offset, StoredSize(e.item), e.item.frame, AsRef(LastPosition(log[..k], e.owner)), e.owner)
  }

  ghost function EncodeLog(log: Log): (s: bytes)
    requires Fits(log)
    ensures |s| == REF_SIZE * |log|
  {
    if |log| == 0 then [] else EncodeLog(Init(log)) + EncodeRef(RefOf(log, |log| - 1))
  }

  lemma {:induction false} RowOfEncodedLog(log: Log, k: nat)
    requires Fits(log) && k < |log|
    ensures EncodeLog(log)[REF_SIZE * k..REF_SIZE * k + REF_SIZE] == EncodeRef(RefOf(log, k))
  {
    var before := Init(log);
    if k < |log| - 1 {
      RowOfEncodedLog(before, k);
      assert before[..k] == log[..k];
      assert EncodeLog(log)[..|EncodeLog(before)|] == EncodeLog(before);
      assert EncodeLog(log)[REF_SIZE * k..REF_SIZE * k + REF_SIZE]
          == EncodeLog(before)[REF_SIZE * k..REF_SIZE * k + REF_SIZE];
    }
  }

  /** Row `k` of the reference file decodes to the reference of log entry `k`. */
  lemma EncodedLogDecodes(log: Log, k: nat)
    requires Fits(log) && k < |log|
    ensures DecodeRef(EncodeLog(log)[REF_SIZE * k..REF_SIZE * k + REF_SIZE]) == RefOf(log, k)
  {
    RowOfEncodedLog(log, k);
    RefReadsBack(RefOf(log, k));
  }
}
