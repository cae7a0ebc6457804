# PacketTrain verification

A Dafny model of the parts of PacketTrain whose correctness is hard to see from reading one
function, with proofs of what those parts promise together.

- **The flow indexer** (`indexer/src/main.rs`, read back by `packettrain/indexing.py` and
  `app.py`). One pass over a classic PCAP gives every TCP record to a connection generation and
  threads all flows through one file of 32-byte references. The meaning of the pass is a *log*
  (`Ledger`): the list of records that were given to a flow, each with its owner. Searching and
  summing over the log says what the three hash maps and the running totals of the program must
  answer; the class `Indexer` keeps the two in step. On top of that: the backward chain walk on
  arbitrary bytes, in Rust and in Python, exact extraction, and the theorem that re-indexing an
  extracted flow gives that flow back. `PacketPrinter` lays frames out as the standards do; the
  parser is proved to read them back, and to accept nothing else.
- **Publishing an index** is a state machine of workers and scan processes that may stop at any
  step; its safety is proved over all runs.
- **TCP accounting** (`accounting_tcp.py`, `retransmit.py`, `behavior.py`): interval merging,
  the outstanding sweep, repeat accounting and burst grouping, each against a set of sequence
  numbers or a partition of the records.
- **Timeline segmentation** (`window_flow.py`, `idle.py`, `phases.py`): zero-window episodes,
  compressible gaps, activity runs and phases.
- **Transcript paging and TCP options** (`payload.py`, `fingerprint.py`).

What a result means is also stated apart from the functions that compute it, in packet fields,
numerals and quantifiers: `PacketConverse`, `CapturePrinter`, `Connections`, `SeqMeaning`,
`GapMeaning` and `PayloadLines` say it for the parser, the container, the flow table, sequence
numbers, gaps and report lines.

Loops of the program are loops here, with the specification beside them as functions; the
lemmas are about those functions. Times are whole microseconds (nanoseconds in the indexer).

## What the code does not keep

Each of these is shown by a concrete input or run, with the exact condition under which the
promise holds.

- Records whose header and data need 2^32 bytes or more are cut by `(16 + incl) as u32`:
  extraction is exact, and the extracted file indexes to its flow, if and only if no record of the
  flow is that large (`Extraction.ExtractionIsExact`, `Reindex.ExtractIndexesToFlow`,
  `RecordSize.LargeRecordIsCut`).
- On a corrupt flow row with a negative last reference the two chain walks differ. Rust refuses the
  row; in Python the guard of `original_frames` passes and `struct.unpack_from` reads from the end
  of the file, so a frame is returned for a reference that does not exist
  (`PythonWalk.NegativeRowReadsFromEnd`). They agree on every other row, and on a negative one
  exactly when no chain of the flow starts there (`PythonWalk.WalksAgree`).
- A later IPv6 fragment is recognised whatever it carries if and only if its chain names TCP
  next (`PacketPrinter.Ipv6LaterFragmentReadsBack`). When the chain names another extension header
  in front of TCP, fragment data is read as headers and the packet can be lost
  (`PacketPrinter.FragmentBehindOptionsIsLost`), although `docs/FLOW-INDEX.md` lists later IPv6
  fragments without this limit.
- When writing the progress status fails, `_run_index` releases the lock while its scan goes
  on. The same worker can then start a second scan in the same directory
  (`Publication.OneScanIffSupervised`), and unless the abandoned scan has only READY left to
  write, READY can come to stand beside files of two scans (`Publication.SoundIffSupervised`).
- `retransmit.py` says that 32-bit wraparound does not corrupt its comparisons. It does not
  split ranges at 2^32, so a repeat that meets its original only across 2^32 is not seen
  (`Retransmit.RepeatsAcrossWrap`, `RepeatTotals.ReorderedStartHidesRepeat`), and sequence numbers
  are counted on both sides exactly when two segments meet there
  (`RepeatTotals.SegmentsCoverWire`, `RepeatTotals.ReorderedStartCountsTwice`).
- `unique_bytes`, described there as the unique payload of a direction, leaves out the new part
  of partly repeated segments (`Retransmit.UniqueBytesAreExactIff`,
  `RepeatTotals.PartlyRepeatedIsDropped`), and bytes that two earlier segments covered are counted
  twice before the clamp (`Retransmit.NewBytesAreBounded`, `RepeatTotals.CopiesHideNewBytes`).
- Acknowledgement number 0 is skipped, so the outstanding series depends on the initial
  sequence number exactly when a shift moves an acknowledgement to or from 0
  (`Outstanding.OutstandingIgnoresInitialSequence`, `Outstanding.ZeroAckDependsOnInitialSequence`).
- The documentation of smart compression (`packettrain/idle.py:3-8`) promises not to take
  unresolved outstanding bytes for idle time. The series has samples at acknowledgements only, so
  an interval that a full acknowledgement ends is compressed although its payload was
  unacknowledged throughout (`InFlight.WaitForAnswerIsCompressed`, with the exact condition in
  `InFlight.FlightIsCompressed`).
- `stalled_fraction` adds the stalls of both endpoints and can reach 2
  (`StalledTotal.BothStalledThroughout`). In a time-ordered group it stays within 1 exactly when
  both windows stand closed at once for no longer than both are open, as the packets say it
  (`StalledTotal.TotalIsBounded`).

## Model

| member | source | states |
|---|---|---|
| Packet.LexTrichotomy | indexer/src/main.rs:38-42 | the order on address bytes decides between any two different addresses, one way only |
| Packet.LeftIsSmaller | indexer/src/main.rs:103-131 | the left endpoint of a key is the one whose address, at the first byte that differs, is smaller, or whose port is smaller when the addresses are equal |
| Packet.KeyIgnoresDirection | indexer/src/main.rs:103-131 | both directions of a tuple reach one key, the direction bit differs between them, and key plus bit give source and destination back |
| Packet.KeyIdentifiesPair | indexer/src/main.rs:103-131 | two packets share a key exactly when family and unordered endpoint pair agree |
| Packet.WalkTags | indexer/src/main.rs:137-145 | the tag loop ends on any bytes with every index in bounds, and finds the inner EtherType and its end as the recursive definition does |
| Packet.WalkExtensions | indexer/src/main.rs:189-220 | the extension-header loop ends on any bytes with every index in bounds, and refines the recursive walk that `PacketPrinter.ExtensionsReadBack` inverts |
| Packet.ReadNetwork | indexer/src/main.rs:133-224 | the network layer on arbitrary bytes, equal to the specification that the printer lemmas invert |
| Packet.ParseTcp | indexer/src/main.rs:133-257 | the whole parser on arbitrary bytes and link type, equal to the specification that the printer lemmas invert |
| Packet.LaterFragmentHasKey | indexer/src/main.rs:225-235 | a later fragment always carries a fragment key, so the early `continue` of the record loop is never taken |
| Packet.HeadersDetermineAnswer | indexer/src/main.rs:133-257 | the answer depends only on the bytes up to the end of the headers: padding, payload or a later cut change nothing |
| PacketPrinter.TagsReadBack | indexer/src/main.rs:137-145 | any stack of VLAN tags is skipped exactly, and the EtherType behind it is found |
| PacketPrinter.ExtensionsReadBack | indexer/src/main.rs:189-220 | from the first header of any printed chain of extension headers the walk arrives behind the chain with the mark of the last Fragment header |
| PacketPrinter.PrintedFrameCarries | indexer/src/main.rs:133-257 | printing addresses, tags, network and transport one after the other yields a frame that the read-back theorems apply to |
| PacketPrinter.Ipv4FrameReadsBack | indexer/src/main.rs:146-177 | every IPv4 frame with any tags and options and a zero fragment offset reads back to its key, direction, flags, payload length, zero-window mark and fragment key, whatever follows the TCP header |
| PacketPrinter.Ipv4LaterFragmentReadsBack | indexer/src/main.rs:225-235 | a later IPv4 fragment yields its fragment key and no flow key, whatever it carries |
| PacketPrinter.Ipv6FrameReadsBack | indexer/src/main.rs:178-224 | the same for IPv6 with any chain of extension headers, including several Fragment headers |
| PacketPrinter.Ipv6LaterFragmentReadsBack | indexer/src/main.rs:192-224 | for every number of data bytes: a later IPv6 fragment is recognised for all data of that length if and only if TCP is named next |
| PacketPrinter.FragmentBehindOptionsIsLost | indexer/src/main.rs:192-220 | one frame with TCP named behind the Fragment header, which is recognised, and one with another extension header, which is lost |
| PacketConverse.AcceptedIsExplained | indexer/src/main.rs:133-257 | the parser accepts nothing else: an accepted frame is, byte for byte, tags, a valid IPv4 header of protocol 6 or a valid IPv6 chain that ends in 6, and a TCP header inside frame and declared length unless it is a later fragment |
| PacketConverse.SegmentsAreExact | indexer/src/main.rs:133-257 | the frames that give a flow key are exactly those that hold tags, such a network header and a TCP header, with the values it reports |
| PacketConverse.OtherProtocolIsRefused | indexer/src/main.rs:151 | a frame with an IPv4 header of any other protocol is refused |
| Ledger.ReplayGrows | indexer/src/main.rs:336-382 | every log that comes from records in order has each record where naive search would put it |
| Ledger.ClosedIsFinal | indexer/src/main.rs:403-411 | a closed connection is never reopened by a later record |
| Ledger.LeftAndRightMakePayload | indexer/src/main.rs:395-402 | for every flow left and right payload add up to payload |
| Ledger.CountIsBounded | indexer/src/main.rs:354-355 | there are never more flows than indexed records |
| Ledger.FlowsHaveOneKey | indexer/src/main.rs:336-382 | every flow opens with a keyed record, and all its records but later fragments have that key |
| Ledger.KeyOwnerHasKey | indexer/src/main.rs:348-381 | the flow found by key has that key |
| LedgerFacts.LatestIsNewest | indexer/src/main.rs:348-378 | the flow found by key is the newest flow with the key, and is found whenever there is one |
| LedgerFacts.OlderGenerationsAreClosed | indexer/src/main.rs:348-351 | every generation of a tuple but the newest is closed |
| LedgerFacts.GenerationsAreDense | indexer/src/main.rs:353 | the generation numbers of a tuple are 0..n-1 without gaps |
| LedgerFacts.GenerationsFollowCreation | indexer/src/main.rs:353 | a later flow with the same key has a larger generation number |
| LedgerFacts.FragmentOwnerCarriesKey | indexer/src/main.rs:340-343 | the flow found by fragment key owns a record that carries the key |
| LedgerFacts.LaterFragmentsFollow | indexer/src/main.rs:336-343 | every later fragment of a flow follows a record of that flow with the same fragment key |
| LedgerFacts.RowOfGrownFlow | indexer/src/main.rs:386-412 | sums, flags and positions recomputed from all records of a flow move by exactly the new record |
| LedgerFacts.RowOfNewFlow | indexer/src/main.rs:352-378 | the row of a flow with one record, recomputed from the log |
| LedgerFacts.RowOfOtherFlow | indexer/src/main.rs:387 | a record changes no other flow's row |
| Connections.NoOpeningAfterEnd | indexer/src/main.rs:346-351 | no record behind the first of a flow has SYN (2) without ACK (16) once earlier records of the flow hold a RST (4) or a FIN (1) of each side |
| Connections.LaterFlowsOpen | indexer/src/main.rs:348-378 | every flow with an earlier flow of its key opens with SYN without ACK |
| Connections.FollowsEndedFlow | indexer/src/main.rs:348-351 | and that earlier flow holds a RST or a FIN of each side |
| Connections.ScannedConnections | indexer/src/main.rs:336-434 | the three together, for the index of every capture that can be scanned |
| Connections.PlaceMeansBelongs | indexer/src/main.rs:336-382 | a record goes to the flow of the last record with its key, or with its fragment key if it is a later fragment, and to a new flow exactly when there is none, or that flow has ended and the record is opening |
| Connections.GrownMeansBelongs | indexer/src/main.rs:336-382 | a log is one that a scan can build if and only if every record in it belongs where it is |
| Connections.EveryRecordIsPlaced | indexer/src/main.rs:332-343 | each record extends the log by itself or, only for a later fragment without a carrier of its key, leaves it as it is |
| Connections.RowMeans | indexer/src/main.rs:386-425 | the row of a flow in terms of its records: first and last times and frames, sums of bytes, of payload per side, and of zero windows |
| Connections.RowMarks | indexer/src/main.rs:402-411 | a mark of the row stands exactly when some record of the flow bears the bit, and it is closed exactly when the flow has ended |
| Connections.RowPoints | indexer/src/main.rs:413-425 | the references of a row are the places of the first and last record of its flow, and its id is the flow's number |
| Connections.GenerationCounts | indexer/src/main.rs:353 | the generation of a flow is the number of earlier flows with its key |
| Capture.RecordsAreLaidOut | indexer/src/main.rs:318-332 | records are read back to back, lie inside the file, and are fewer than 2^32 |
| CapturePrinter.FormatMeans | indexer/src/main.rs:297-307 | a format is read exactly from one of the four magic numbers and link type 1 in that byte order |
| CapturePrinter.TimesMean | indexer/src/main.rs:386 | times are nanoseconds, of seconds and microseconds or of seconds and nanoseconds |
| CapturePrinter.CaptureReadsBack | indexer/src/main.rs:318-331 | any printed capture, in any of the four formats, reads back to its records with their bytes; up to 15 bytes behind the last are ignored |
| CapturePrinter.CutCaptureIsRefused | indexer/src/main.rs:318-326 | a last record that claims more bytes than are left makes the whole file unreadable, with its frame number in the error |
| CapturePrinter.ItemsMean | indexer/src/main.rs:327-335 | an item is among the TCP records if and only if it is what some record says whose packet parses, numbered by its position |
| Capture.ItemsAreRecords | indexer/src/main.rs:327-335 | the TCP records keep offset, length and time of their source record, and their frame numbers strictly increase |
| Capture.ReplayKeepsOrder | indexer/src/main.rs:336-434 | indexed records are a selection of the TCP records in frame order |
| Capture.MemberIsInside | indexer/src/main.rs:318-332 | every indexed record lies inside the file behind its header |
| Capture.FlowRecordsAreOrdered | indexer/src/main.rs:318-434 | within a flow frames increase and records do not overlap |
| References.RefReadsBack | indexer/src/main.rs:267-283 | a reference row decodes to what was encoded: offset, size, frame, previous and owner at bytes 0, 8, 12, 16 and 24, least byte first |
| References.EncodedLogDecodes | indexer/src/main.rs:413-426 | row k of the reference file names log entry k and points to the previous record of the same flow |
| Indexer.Indexer.constructor | indexer/src/main.rs:310-317 | the empty index satisfies the invariant with an empty log |
| Indexer.Indexer.OpenFlow | indexer/src/main.rs:352-378 | a new flow is appended with the next generation of its key, and both maps follow |
| Indexer.Indexer.FlowFor | indexer/src/main.rs:336-382 | the hash maps send the record to the flow that naive search over the log would, and change only when a flow is opened |
| Indexer.Indexer.Account | indexer/src/main.rs:386-412 | the in-place update of a flow, whose result `Indexer.AccountedOldFlow` and `Indexer.AccountedNewFlow` equate with the row of the longer log |
| Indexer.Indexer.Add | indexer/src/main.rs:335-431 | one record extends the log as the specification says, and rows, maps and reference file again agree with the log |
| Indexer.Indexer.Scan | indexer/src/main.rs:291-434 | the whole pass succeeds or fails exactly like the specification, with the same error, and leaves rows, maps and references that agree with the log |
| Indexer.AccountedOldFlow | indexer/src/main.rs:386-412 | the running update gives the row recomputed from all records |
| Indexer.AccountedNewFlow | indexer/src/main.rs:352-412 | so does the first update of a new flow, generation included |
| Indexer.ActiveSnoc | indexer/src/main.rs:348-381 | `active` keeps answering the newest flow of every key |
| Indexer.FragmentsSnoc | indexer/src/main.rs:383-385 | `fragments` keeps answering the flow of the last record with every fragment key |
| Indexer.GenerationsSnoc | indexer/src/main.rs:353 | `generations` keeps answering the newest generation number of every key |
| Indexer.RowsSnoc | indexer/src/main.rs:387-425 | updating one row keeps all rows equal to those recomputed from the log |
| ChainWalk.WalkInRust | indexer/src/main.rs:572-598 | from a row of unsigned numbers the walk of `extract` on arbitrary bytes takes at most packets+1 steps and answers like the specification; an overflowing offset is a reference outside the file |
| ChainWalk.OneChain | indexer/src/main.rs:572-594 | at most one intact chain starts at a reference |
| ChainWalk.ChainIsDistinct | indexer/src/main.rs:574-594 | an intact chain visits no reference twice |
| ChainWalk.WalkIsExact | indexer/src/main.rs:572-598 | the walk succeeds if and only if an intact chain of exactly `packets` rows exists |
| ChainWalk.WalkReturnsChain | indexer/src/main.rs:572-598 | it then returns that chain oldest first: distinct, in bounds, owned by the flow |
| ChainWalk.WalkAfterScan | indexer/src/main.rs:413-426 | after a scan no guard fires and the chain of every flow is the flow's records in source order |
| PythonWalk.WalkInPython | packettrain/indexing.py:198-222 | from any two 64-bit numbers the walk of `original_frames` on arbitrary bytes takes at most packets+1 steps, or one for a negative count, and answers like the specification, negative references read from the end of the file |
| PythonWalk.WalkRowInRust | indexer/src/main.rs:566-598 | from any two 64-bit numbers the Rust walk, which refuses a negative one |
| PythonWalk.SameFromUnsignedRow | packettrain/indexing.py:198-222 | without negative numbers both walks give the same frames in the same order, or the same refusal |
| PythonWalk.NegativeRowIsFollowed | packettrain/indexing.py:208-222 | a negative last reference is followed exactly when a chain of the flow starts that many rows before the end of the file |
| PythonWalk.WalksAgree | packettrain/indexing.py:198-222 | on any bytes and any flow row the walks agree if and only if the last reference is not negative or no chain starts there |
| PythonWalk.OnlyUnsignedRowsAgree | packettrain/indexing.py:208-210 | a last reference is safe in every file if and only if it is not negative, or too low for any file |
| PythonWalk.NegativeRowReadsFromEnd | packettrain/indexing.py:208-219 | in every file of k rows whose first row ends a chain, the reference -k makes Python answer with that row's frame, while Rust refuses |
| Extraction.Extract | indexer/src/main.rs:599-618 | the file header followed by the bytes the chain names, or the refusal of the specification |
| Extraction.ScanFits | indexer/src/main.rs:327-434 | flow ids, frames and offsets are never truncated and no reference number equals the end marker |
| Extraction.ExtractionIsExact | indexer/src/main.rs:413-426 | for every flow extraction succeeds, and is the header and precisely the flow's records byte for byte if and only if no record needs 2^32 bytes |
| Extraction.FlowsPartitionLog | indexer/src/main.rs:413-434 | over all flows the extracted records are the indexed records, each once |
| RecordSize.LargeRecordIsCut | indexer/src/main.rs:414-421 | for every size from 54 bytes there is a capture of one such record, and its extraction is exact exactly below 2^32 - 16 |
| Reindex.CopiesIndexToTheFlow | indexer/src/main.rs:336-434 | that flow is generation 0 and its row says of the connection what the original row says |
| Reindex.ReindexIsProjection | indexer/src/main.rs:318-434 | scanning header plus records of any flow succeeds and yields exactly that flow: one flow, every record, frames from 1, all connection facts equal |
| Reindex.ExtractIndexesToFlow | indexer/src/main.rs:572-615 | what `extract` writes for a flow indexes to exactly that flow if and only if none of its records needs 2^32 bytes |
| Reindex.LocalFramesMapBack | app.py:179-184 | extract, scan and Python walk together: every local frame is in range and maps to the source frame that holds the same record, in increasing order |
| Publication.StepKeepsInv | packettrain/indexing.py:66-141 | every supervised step of any worker or scan keeps the invariant of lock, scans and files |
| Publication.RunKeepsInv | packettrain/indexing.py:66-141 | so does every supervised run |
| Publication.PublicationIsSafe | packettrain/indexing.py:61-141 | over all supervised runs and crash points at most one scan runs, the lock exists meanwhile, and a ready index is the complete output of one scan |
| Publication.OneScanIffSupervised | packettrain/indexing.py:66-107 | from every state with the invariant and every possible action, whatever follows under supervision keeps one running scan if and only if the action does not abandon one |
| Publication.SoundIffSupervised | indexer/src/main.rs:519-532 | and keeps READY beside the complete files of one scan if and only if it does not abandon a scan that has more than READY to write |
| Publication.FailedWriteCanPublishMixedIndex | packettrain/indexing.py:80-107 | from the initial state with one worker, a run to READY beside files of two scans |
| Publication.LockNeverOutlivesHolder | packettrain/indexing.py:105-141 | over every run, supervised or not, the lock stands if and only if some worker between creating and removing it exists, and never for two |
| Publication.LockIsGivenBack | packettrain/indexing.py:87-107 | however the watch over a scan ends, by exit, time-out, launch or status failure, the worker's next step removes the lock |
| Publication.NextRequestBuilds | packettrain/indexing.py:112-141 | with no lock and no complete index, the next request takes the lock and starts a scan |
| Publication.RequestLeavesAlone | packettrain/indexing.py:118-134 | a request that finds a complete index or a lock changes nothing but its own worker |
| Publication.ScanPublishes | indexer/src/main.rs:519-532 | from any state of the invariant a running scan can go on to its end and leaves READY beside two files of its own |
| StableSort.FilterCommutesWithSort | packettrain/accounting_tcp.py:197-199 | filtering before or after a stable sort gives the same list |
| StableSort.SortIsStable | packettrain/accounting_tcp.py:169-170 | sorting keeps the order of elements with equal keys |
| SeqSpace.FindInitialSequence | packettrain/accounting_tcp.py:15-29 | the search for the first SYN, else the first payload record |
| SeqMeaning.BaseMeans | packettrain/accounting_tcp.py:15-29 | the base is the number of the direction's first SYN, or without one of its first payload record, and absent without either |
| SeqMeaning.WireMeans | packettrain/accounting_tcp.py:42-59 | the sequence numbers on the wire are those that some payload record of the direction covers modulo 2^32 |
| SeqSpace.Merge | packettrain/accounting_tcp.py:70-75 | merged ranges are sorted, strictly separated, and cover the same positions |
| SeqSpace.UniquePayload | packettrain/accounting_tcp.py:62-76 | the total is the number of distinct positions covered, for ranges in any order |
| SeqSpace.SeqRanges | packettrain/accounting_tcp.py:42-59 | the ranges of one direction, whose cover the next rows describe |
| SeqSpace.CircleIsConsecutive | packettrain/accounting_tcp.py:32-39 | a record covers exactly the sequence numbers (at + k) mod 2^32 for k below its length |
| SeqSpace.PiecesCoverRecord | packettrain/accounting_tcp.py:52-58 | splitting at 2^32 covers exactly those positions relative to the base |
| SeqSpace.UniquePayloadIsWireCount | packettrain/accounting_tcp.py:42-76 | unique payload is the number of distinct sequence numbers on the wire, for whatever base |
| SeqSpace.UniquePayloadIgnoresInitialSequence | packettrain/accounting_tcp.py:15-76 | shifting all sequence numbers of a direction leaves it unchanged |
| Outstanding.Sweep | packettrain/accounting_tcp.py:161-184 | each reported value is the number of distinct positions at or above the acknowledgement covered by records stamped no later than it |
| Outstanding.OutstandingBytes | packettrain/accounting_tcp.py:146-189 | the series holds the points of both directions in time order |
| SeqMeaning.PointsMean | packettrain/accounting_tcp.py:146-189 | every point stems from an acknowledgement of the peer, at that number minus the base modulo 2^32, and every such acknowledgement has one; its value is the number of positions from there on, counted from the base, that records sent by then cover, beside the number of these records; points come in time order |
| Outstanding.OutstandingPlusAcknowledged | packettrain/accounting_tcp.py:178-184 | outstanding plus covered bytes below the acknowledgement are the unique bytes sent so far |
| Outstanding.OutstandingIgnoresInitialSequence | packettrain/accounting_tcp.py:161-180 | the series of a direction is unchanged by a shift of both sides if and only if the shift moves no acknowledgement to or from 0, or nothing was sent |
| Outstanding.ZeroAckDependsOnInitialSequence | packettrain/accounting_tcp.py:161-163 | one record and an acknowledgement with number 0, whose series changes when all numbers move by one |
| Retransmit.FirstTransmissions | packettrain/retransmit.py:69-91 | the split into first transmissions and repeats that the following rows describe |
| Retransmit.BytesAreConserved | packettrain/retransmit.py:69-91 | first, repeated and new bytes add up to all payload bytes |
| Retransmit.SplitMeans | packettrain/retransmit.py:69-91 | the first transmissions are exactly the segments that share no position with an earlier one, and the repeats are exactly the others, each with the positions it shares, summed over earlier segments and limited to its length |
| Retransmit.RepeatMeansOverlap | packettrain/retransmit.py:64-86 | a segment is a repeat if and only if it shares a byte with some earlier segment |
| Retransmit.FirstsAreDisjoint | packettrain/retransmit.py:87-90 | first transmissions share no byte |
| Retransmit.NewBytesAreBounded | packettrain/retransmit.py:81-88 | first and new bytes never exceed the true unique payload, and equal it if and only if no repeat has a byte in two earlier segments unless it is wholly repeated |
| Retransmit.UniqueBytesAreExactIff | packettrain/retransmit.py:149-170 | `unique_bytes` equals the true unique payload if and only if no segment is partly repeated |
| Retransmit.RepeatsAcrossWrap | packettrain/retransmit.py:64-83 | the repeat flag is right on the circle of sequence numbers if and only if the segment overlaps an earlier one linearly or meets none across 2^32 |
| Retransmit.SegmentsIgnoreInitialSequence | packettrain/retransmit.py:39-61 | shifting all sequence numbers of a direction leaves the segments, hence all repeat totals, unchanged |
| RepeatTotals.BuildSegments | packettrain/retransmit.py:39-61 | one segment per payload record, relative to the sequence number the direction started with |
| SeqMeaning.SegmentsMean | packettrain/retransmit.py:39-61 | segment k starts at the sequence number of payload record k minus the base modulo 2^32, and has its frame and length |
| RepeatTotals.TwiceMeansSeam | packettrain/retransmit.py:39-66 | a sequence number is counted on both sides of 2^32 if and only if two segments meet across it |
| RepeatTotals.DirectionTotals | packettrain/retransmit.py:141-174 | records split into firsts and repeats; unique plus repeated bytes never exceed the bytes sent; if no two segments meet across 2^32 unique bytes never exceed the distinct sequence numbers on the wire, and are all of them exactly when no segment is partly repeated |
| RepeatTotals.SegmentsCoverWire | packettrain/retransmit.py:39-61 | the bytes covered by segments are the sequence numbers on the wire plus those counted on both sides, so repeat accounting and `unique_payload` agree if and only if no two segments meet across 2^32 |
| RepeatTotals.ReorderedStartHidesRepeat | packettrain/retransmit.py:39-83 | two packets, the first not the lowest: the second sends every byte of the first again and is not seen as a repeat |
| RepeatTotals.ReorderedStartCountsTwice | packettrain/retransmit.py:39-91 | two packets, the upper half of the data first and then all of it: half as many bytes again are reported as the wire carried |
| RepeatTotals.PartlyRepeatedIsDropped | packettrain/retransmit.py:149-170 | two packets that overlap by half: a third of the wire is not among the unique bytes |
| RepeatTotals.CopiesHideNewBytes | packettrain/retransmit.py:81-88 | the same with the first packet sent twice: a third of the wire is not even among the new bytes |
| Bursts.BurstsAt | packettrain/accounting_tcp.py:194-212 | the bursts are the groups of the time-ordered payload records at that threshold |
| Bursts.GroupsKeepDirection | packettrain/accounting_tcp.py:200-203 | all records of a burst have one direction |
| Bursts.GroupsPartition | packettrain/accounting_tcp.py:194-212 | bursts hold every payload record once, in order, and are cut exactly where a record changes direction or comes after the threshold |
| Bursts.GroupsAreUnique | packettrain/accounting_tcp.py:200-208 | no other grouping has these cuts |
| Bursts.RecordsMean | packettrain/accounting_tcp.py:194-199 | the records grouped are those with payload, each as often as it occurs, in time order |
| Bursts.BurstMeans | packettrain/accounting_tcp.py:200-212 | a burst is reported with the direction, first and last time, bytes and number of its records |
| Bursts.BurstsConserveBytes | packettrain/accounting_tcp.py:200-208 | the bytes of all bursts are the bytes of all records |
| Bursts.LargerGapCoarsens | packettrain/accounting_tcp.py:219-224 | for g <= g' each g-burst lies inside one g'-burst |
| Bursts.CoarserIsLarger | packettrain/accounting_tcp.py:219-224 | a coarser grouping has a burst at least as large |
| Bursts.LargestIsReported | packettrain/accounting_tcp.py:214-217 | the size of the largest reported burst is that of the largest group |
| Bursts.Sensitivity | packettrain/accounting_tcp.py:222-224 | the reported value at one threshold is the size of the largest group |
| Bursts.SensitivityIsMonotone | packettrain/accounting_tcp.py:219-224 | these values never decrease with the threshold |
| Bursts.Largest | packettrain/accounting_tcp.py:214-217 | the first burst of the largest size |
| Bursts.ClassifierBursts | packettrain/behavior.py:18-28 | the separately written loop of the classifier finds the same bursts as the 0.2 s grouping |
| Windows.RecoveryReopens | packettrain/window_flow.py:118-130 | a recovery is a strictly later positive advertisement of that endpoint, and is found if there is one |
| Windows.RecoveryIsEarliest | packettrain/window_flow.py:118-130 | in a time-ordered group it is the earliest |
| Windows.RecoveryMeans | packettrain/window_flow.py:118-130 | in a time-ordered group the recovery after a time is the least later time at which the same endpoint advertises a positive window, and absent if there is none |
| Windows.Episodes | packettrain/window_flow.py:66-115 | the nested loops report, of the episodes that the next rows describe, start, last probe, probe times, count, first twenty frames and recovery |
| Windows.EpisodeMeans | packettrain/window_flow.py:66-115 | an episode consists of zero windows of the endpoint outside the handshake, and recovers at its least later positive one |
| Windows.ReportOf | packettrain/window_flow.py:84-115 | a report holds the times of all advertisements of its episode, their number, first and last, and the frames of the first twenty |
| Windows.EpisodesPartition | packettrain/window_flow.py:87-107 | every zero advertisement lies in exactly one episode |
| Windows.EpisodesAreDisjoint | packettrain/window_flow.py:89-115 | episodes are disjoint half-open intervals in order, and only the last can be unrecovered; no order of the group is needed |
| Windows.StalledTimeIsBounded | packettrain/window_flow.py:171-210 | the durations from any episode on never exceed the time from its start to the end of the capture |
| Windows.StalledTimeOfDirection | packettrain/window_flow.py:163-210 | per direction they never exceed capture end minus first stall start |
| Windows.ReceiverWindow | packettrain/window_flow.py:133-210 | the total stalled time of both endpoints, 0 without packets |
| StalledTotal.StalledByCounts | packettrain/window_flow.py:171-210 | the stalled time of an endpoint counts each stalled microsecond once, inside the capture |
| StalledTotal.StalledTimeIsClosedTime | packettrain/window_flow.py:66-130 | in a time-ordered group the stalled time of an endpoint is the number of microseconds at which the packets say its window stands closed |
| StalledTotal.TotalIsBounded | packettrain/window_flow.py:210-220 | the total never exceeds twice the capture, and in a time-ordered group stays within it if and only if both windows stand closed at once, by the packets, for no longer than both are open |
| StalledTotal.BothStalledThroughout | packettrain/window_flow.py:210-220 | a capture of any length in which the total is twice its length |
| Idle.AnalyzeGaps | packettrain/idle.py:81-151 | one verdict per pair of neighbours with time between them, at any speed and trigger, and the compressed total |
| GapMeaning.GapsMean | packettrain/idle.py:54-151 | a verdict is among the gaps if and only if its ends are neighbours in time order with time between them, its reason is the first that the packets and samples between its ends give, and it is compressed by the mode's rule when its playback takes at least the trigger |
| GapMeaning.CompressedTimeCounts | packettrain/idle.py:124-131 | the compressed total is the number of microseconds that lie in some compressed gap |
| Idle.SmartCompressesIdle | packettrain/idle.py:54-78 | smart mode compresses an interval if and only if its ends are neighbours, it is long enough, and its closed interval has no zero window, no retransmission, no unanswered handshake and no positive outstanding sample |
| Idle.FaithfulCompressesNothing | packettrain/idle.py:111-118 | faithful mode compresses nothing |
| Idle.CompressionIsNested | packettrain/idle.py:109-133 | what smart compresses fast compresses, and what a higher speed or trigger compresses a lower one does |
| Idle.CompressedTimeIsBounded | packettrain/idle.py:126-131 | the compressed time never exceeds the time the packets span |
| Idle.Timeline | packettrain/idle.py:160-181 | every packet once in stable time order whatever the frames; with distinct frames, the interleaving of packets and compressed gaps |
| Idle.GapsStandBetween | packettrain/idle.py:171-180 | in that interleaving each compressed gap stands directly between its two packets |
| Idle.SkippedAreCompressed | packettrain/idle.py:171-180 | the gaps on the timeline are exactly the compressed ones, each once and in order |
| InFlight.SamplesAreAcks | packettrain/accounting_tcp.py:161-184 | the outstanding series has one sample per acknowledgement of the peer and no others |
| InFlight.SampleIsOpen | packettrain/accounting_tcp.py:171-184 | a sample is positive if and only if some payload sent by its time reaches past its acknowledgement |
| InFlight.NoticedAtEnds | packettrain/idle.py:40-51 | in a gap the code sees outstanding payload if and only if an acknowledgement stamped at one of its ends leaves some open |
| InFlight.FlightIsNoticedAtEnds | packettrain/idle.py:40-51 | when payload is unacknowledged as a gap begins, the code notices it if and only if the peer acknowledges in that instant or ends the gap with an acknowledgement that some sent payload reaches past |
| InFlight.FlightIsCompressed | packettrain/idle.py:54-78 | such a gap is compressed all the same if and only if its ends are neighbours far enough apart, its packets are quiet, and no acknowledgement at its ends shows open payload |
| InFlight.WaitForAnswerIsCompressed | packettrain/idle.py:54-78 | a request and its full acknowledgement, at any distance that is long enough: smart mode compresses the wait although the request is unacknowledged |
| Phases.Activity | packettrain/phases.py:21-37 | the runs hold the time-ordered packets, cut exactly at the gaps above 2 s |
| Phases.RunsMean | packettrain/phases.py:21-37 | neighbours in a run are at most 2 000 000 microseconds apart, runs more than that, and all packets are in them in time order |
| Phases.RunsAreUnique | packettrain/phases.py:21-37 | there is only one such partition |
| Phases.PhasesFollowRuns | packettrain/phases.py:315-342 | phase 2k has the bounds and frames of run k, and phase 2k + 1 is the gap behind it |
| Phases.PacketsLieInPhase | packettrain/phases.py:315-328 | every packet of a run lies within the bounds of its phase |
| Phases.StreamPhases | packettrain/phases.py:297-387 | the phases are those of the runs; they alternate and touch, indices are positions, frames are all frames in order, durations add up to the span |
| PeerAcks.PeerAckIndex | packettrain/phases.py:235-250 | per sender, its acknowledgements in time order |
| PeerAcks.IndexFindsLatest | packettrain/phases.py:253-262 | the last entry of that list not after a time is the acknowledgement of the last such packet of the sender |
| PeerAcks.AckAt | packettrain/phases.py:253-262 | the lookup finds what a backward search over the packets finds, missing times included |
| PeerAcks.LatestMeans | packettrain/phases.py:253-262 | the number found is that of the last acknowledgement of the sender not known to be later, and none is found only if there is none or it has none |
| PeerAcks.LatestWasSent | packettrain/phases.py:65-74 | the number a probe is held against is one that the packet's destination had sent to its source by then |
| Payload.Keep | packettrain/payload.py:92-95 | appending bytes keeps chunks non-empty and alternating, and adds exactly those bytes |
| Payload.LinesReadBack | packettrain/payload.py:72 | lines without line ends, written one under the other, split back into themselves |
| Payload.LinesAreUnbroken | packettrain/payload.py:72 | no line holds a line end |
| Payload.ParseFollowRaw | packettrain/payload.py:60-96 | the chunks are exactly the page of the tagged stream, alternate node, and the total does not depend on the page |
| Payload.ConversationFromFollow | packettrain/payload.py:119-145 | length, `loaded_through` and `truncated` say how far the page reaches into the stream |
| Payload.PagesReassemble | packettrain/payload.py:134-145 | following `loaded_through` while `truncated` ends and yields the whole stream |
| Payload.ChunksAreCanonical | packettrain/payload.py:92-95 | alternating chunks are determined by the bytes they hold |
| PayloadLines.StripMeans | packettrain/payload.py:73-77 | the stripped line is the only part without white space at its ends that leaves only white space around it |
| PayloadLines.DataLineMeans | packettrain/payload.py:77-92 | a line carries bytes if and only if it is their hex digits, of either case, between white space; they belong to node 1 if the line starts with a tab and to node 0 otherwise |
| PayloadLines.NameLineMeans | packettrain/payload.py:55-75 | a line names a node if and only if it reads `Node 0:` or `Node 1:` and a name, between white space |
| PayloadLines.StreamOfLines | packettrain/payload.py:72-83 | the stream of a report is what its lines carry, in their order |
| PayloadLines.NodesMean | packettrain/payload.py:73-76 | a node has the name that the last line about it gives, and none without such a line |
| Options.ParseOptions | packettrain/fingerprint.py:42-71 | the loop ends on any bytes and gives the names that `Options.NamesAreExact` characterises |
| Options.EncodedOptionsReadBack | packettrain/fingerprint.py:42-71 | any list of NOPs and well-formed options reads back to its names in order, with or without an end-of-list byte and arbitrary padding |
| Options.SplitIsUnique | packettrain/fingerprint.py:51-70 | bytes split in only one way into well-formed options and a stop |
| Options.NamesAreExact | packettrain/fingerprint.py:51-71 | on arbitrary bytes the names are those of that split, by kind number, plus one report when it stops at a bad length |
| Options.OnlyTheLastIsMalformed | packettrain/fingerprint.py:66-68 | a malformed report can only be the last name |

## Left out

- SQLite, memory mapping, hashing, threads and clocks: rows are a sequence, files are byte
  sequences or a record of presence, hash maps are maps, time is data. An interval of 64-bit
  nanoseconds is an integer here; the values of a PCAP record cannot overflow it.
- Index metadata (`source_size`, `source_mtime_ns`) and its check in `extract`; the capture is
  taken to be the one that was scanned.
- Mapping an empty `refs.bin` fails in Python before the walk; the model walks empty bytes.
- Takeover of a lock older than `INDEX_TIMEOUT`, and the JSON status contents. A first status
  write that fails before the `try` is a worker that stops with its lock in place.
- Publication.PublicationIsSafe: for runs in which no status write fails while the scan it
  reports on is running; what holds without that is said exactly by the two rows behind it.
- Packet.ParseTcp: only Ethernet, as in the source; tunnels and fragment expiry do not exist there.
- ChainWalk.WalkInRust: the specification calls an offset beyond 64 bits a reference outside the file.
- PythonWalk.WalkRowInRust: the vector that `extract` reserves for `packets` entries up front. A
  count that is too large for memory stops the program; no file holds a chain that long.
- PythonWalk.WalkInPython: a flow row holds two 64-bit numbers; text or NULL in these columns, which
  SQLite would allow, is not modelled. All refusals of `unpack_from` are one refusal here.
- SeqSpace.SeqRanges: record lengths up to 2^32 are required where sets of sequence numbers are
  compared; a TCP record is far smaller.
- Window scaling (`window_scale`, `scaled_window`): decided by reading one branch.
- Retransmit.FirstTransmissions: `_classify` and its reasons, the one-sided-capture hint, the
  sample of frames and the percentages.
- Bursts.SensitivityIsMonotone: stated for any two thresholds; the list of the four reported
  ones is not written out. Thresholds are whole microseconds.
- Windows.Episodes: the gaps between probes, the back-off flag and packets without time or
  direction are not modelled.
- Idle.Timeline: for repeated frame numbers only the packets are described, not where the gaps stand.
- Phases.StreamPhases: labels, evidence, `_classify_run`, `_behind` and the link to window
  episodes.
- Payload.LoadedThroughIsPageEnd: a negative offset is outside what the application passes
  (`app.py:82`, `app.py:211`, `packettrain/payload.py:102`); it is covered for the function alone.
- ASCII and hex rendering of payload, gzip, base64, JWT and HTTP detection.
- Options.ParseOptions: takes bytes, so `bytes.fromhex` is not part of this model; signature
  scoring and cross-connection counts.
- Rounding of displayed numbers, labels and evidence strings everywhere.
- Flask routes, TShark calls, `topology`, `position.py`, `https.py`, `rtt.py`, `accounting.py`
  and the threshold labels of `behavior.py`.
- HTML and JavaScript.
