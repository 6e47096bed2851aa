# Verified cores of the vendored Kafka client

The repository wraps librdkafka 1.9.2, whose C sources it carries under `cbits/`. This
project models seven self-contained cores of those sources in Dafny and proves what they
are meant to guarantee, for all inputs, all runs or all arrival orders.

- **CRC-32C** (`Crc32c*.dfy`). One reference: the bit-at-a-time register with the reflected
  polynomial 0x82f63b78 (the digest of section 12.1 of RFC 3720). The slicing-by-8 tables,
  the GF(2) matrices that append zeros and the three-way hardware path all equal it, and it
  detects all damage within four consecutive bytes.
- **AVL tree** (`Avl*.dfy`). Rotation and balancing as mutually recursive functions with a
  termination measure, the finite map they refine, and the pointer version that rewrites
  the nodes in place.
- **Consumer assignment** (`TopParList.dfy`, `Assignment*.dfy`). The lists, counters and
  outstanding messages as a state machine; each event's exact condition and exact effect;
  whole runs; and the object that updates its fields.
- **Segmented buffers and slices** (`Buf*.dfy`, `Varint.dfy`, `Slice.dfy`). A list of
  segments behaves as one flat byte string for writes, pushes, updates, seeks, reads,
  varints and CRCs.
- **HDR histogram** (`Hdr*.dfy`, `Histogram.dfy`). The bucket arithmetic partitions the
  values with a bounded relative error, and quantiles agree with the sorted samples.
- **JSON** (`Utf8.dfy`, `Json*.dfy`). Printing and parsing are inverse, the parser takes
  exactly the texts of a grammar that does not mention parsing, the string parser
  stays inside its pre-sized output, the printer's room estimate is exact, and the element
  lists with their backward link from the first item to the last refine sequences.
- **Admin fan-out** (`Fanout*.dfy`). Partial results in any order merge into one reply.

Pure arithmetic and recursive code is modelled by functions; code that updates state in
place is modelled by classes and methods, each proved equal to the function about which
the laws are then proved. A failed assertion of the C code is an outcome of the model, not
a precondition. Words are natural numbers, with exclusive or, inclusive or and bitwise and
defined bit by bit (`Bits.dfy`, `Utf8.dfy`); wrap-around is written out.

Check the project with `dafny verify dfyconfig.toml`.

## Where the code differs from what it says

- A partition unassigned again while its stop reply is outstanding is stopped twice, and
  the second reply trips an assertion (`AssignmentStops.DoubleStopFails`); the condition
  under which the callers are safe is exact (`AssignmentStops.AllowedExact`).
- The comment on offset queries says that an old reply's offset is never used for a
  partition assigned again. That holds while some partition of the query stays on the
  `queried` list; when all of them were unassigned a second query goes out and the first
  reply is used (`AssignmentRuns.StaleOffsetUsed`). A reply is used for a partition that
  was assigned again after its query exactly when it does not answer the query sent last
  (`AssignmentStale.ReplyStaleExactly`).
- A partition whose offset retrieval is blocked by a transaction is put back "for later
  handling", but started at once, at the offset in the reply, whenever that offset can be
  started from, which includes INVALID (`AssignmentStale.ReplyStartsExactly`).
- An OffsetFetch reply without an offset list for the current version is dereferenced
  (`AssignmentInv.ReplyInv`).
- `rd_buf_write_seek` into memory pushed read-only leaves a buffer whose free room can
  never be written (`Buf.Buffer.WriteSeek`).
- A fresh AVL leaf is stored with height 0, so stored heights can trail the true ones by
  one (`AvlMap.StoredHeight`).
- A `maxValue` that is a power of two at or past the end of the first bucket cannot be
  recorded (`Histogram.NewHistogram`).
- A `\u` escape with a digit missing in its first group is accepted as a zero
  byte (`JsonParse.EscapeExact`).
- `cJSON_PrintPreallocated` asks for five spare bytes; two are necessary and enough
  (`JsonPrint.PrintPreallocated`).
- The DeleteRecords merge depends on the arrival order if two brokers answer differently
  for one partition (`FanoutRecords.OrderIndependence`).
- `add_item_to_array` does not clear the item's `next`, so a list is ended only if it was
  null (`JsonList.AddItemToArray`).

## Model

| member | source | states |
|---|---|---|
| `Crc32cSpec.AdvanceLinear` | cbits/hs_crc32c.c:134-149 | running the CRC register over n zero bits is linear over GF(2): the register of an exclusive or is the exclusive or of the registers |
| `Crc32cSpec.PeelByte` | cbits/hs_crc32c.c:68-91 | the table identity: 8 + k steps of a word are k steps of its upper part, exclusive-or 8 + k steps of its low byte |
| `Crc32cSpec.Crc32cConcat` | cbits/hs_crc32c.c:96-127 | chaining: the CRC of a then b, from any start value, is the CRC of b started from the CRC of a, so cutting a message changes nothing |
| `Crc32cSpec.Crc32cEmpty` | cbits/hs_crc32c.c:96-127 | the CRC of no bytes is the start value |
| `Crc32cSpec.AdvanceIsZeroBytes` | cbits/hs_crc32c.c:203-217 | appending n zero bytes is advancing the register by 8n zero bits |
| `Crc32cSpec.ThreeWay` | cbits/hs_crc32c.c:266-307 | the CRC of three blocks is the exclusive or of their separate CRCs, each advanced over the zeros of what follows: the law behind the three parallel registers |
| `Crc32cSpec.CrcWord` | cbits/hs_crc32c.c:106-119 | consuming up to four bytes is exclusive-or with their little-endian word, then that many zero bytes: what lets the slicing loop take in the register with the low half of its word |
| `Crc32cLaws.BurstDetected` | cbits/hs_crc32c.c:58-127 | a message changed within four consecutive bytes, anywhere and in whatever way, never has the CRC of the original |
| `Crc32cLaws.StartDetected` | cbits/hs_crc32c.c:96-127 | for one message, different start values give different CRCs |
| `Crc32cLaws.KnownValues` | cbits/hs_crc32c.c:58-127 | the CRCs of two messages that leave no bit, or one bit, in the register: they fix the inversion and the polynomial 0x82f63b78 |
| `Crc32cFast.InitSw` | cbits/hs_crc32c.c:68-91 | the filled tables hold, in row k and column n, byte n advanced over k + 1 bytes |
| `Crc32cFast.EightTerms` | cbits/hs_crc32c.c:108-119 | the eight table look-ups over the bytes of a word combine to eight byte-wise updates |
| `Crc32cFast.Crc32cSw` | cbits/hs_crc32c.c:96-127 | slicing-by-8 returns the bit-at-a-time CRC-32C for every start value, every message and every alignment |
| `Crc32cZeros.TimesIsAdvance` | cbits/hs_crc32c.c:137-149 | a matrix whose rows are the advanced unit vectors multiplies any vector to that vector advanced |
| `Crc32cZeros.MatrixTimes` | cbits/hs_crc32c.c:137-149 | the shift-and-add loop computes the matrix product, for any matrix and vector, and reads no row past the last set bit |
| `Crc32cZeros.SquareIsDouble` | cbits/hs_crc32c.c:153-159 | squaring the operator for n zero bits gives the one for 2n |
| `Crc32cZeros.MatrixSquare` | cbits/hs_crc32c.c:153-159 | fills the square of an operator, which is the operator for twice the zeros |
| `Crc32cZeros.FloorPow2OfPower` | cbits/hs_crc32c.c:161-166 | for a power of two the length the operator is built for is that length itself |
| `Crc32cZeros.FloorPow2IsFloor` | cbits/hs_crc32c.c:187-200 | for any other length it is the largest power of two below |
| `Crc32cZeros.ZerosOp` | cbits/hs_crc32c.c:166-201 | the result is the operator for the largest power of two of zero bytes not above the length (exactly the length when that is a power of two) |
| `Crc32cZeros.ZerosTables` | cbits/hs_crc32c.c:205-217 | the four byte tables hold that operator applied to each byte in each lane of a word |
| `Crc32cZeros.Shift` | cbits/hs_crc32c.c:220-224 | four look-ups apply the operator to any 32-bit value |
| `Crc32cHw.Interleave` | cbits/hs_crc32c.c:266-307 | one three-way pass over 3 * block bytes, stitched with the shift tables, is the plain CRC of those bytes |
| `Crc32cHw.Crc32cHardware` | cbits/hs_crc32c.c:248-331 | the LONG/SHORT interleaved path returns the bit-at-a-time CRC-32C for every start value, message and alignment |
| `Crc32cHw.Engine.constructor` | cbits/hs_crc32c.c:371-379 | initialization fills the tables that the chosen path relies on |
| `Crc32cHw.Engine.Compute` | cbits/hs_crc32c.c:353-361 | whichever path the processor allows, the result is the same CRC-32C |
| `Avl.Rotate` | cbits/hs_rdavl.c:48-60 | rotation, including the re-balancing of both nodes it moves, terminates; in-order is kept and, where the rotation is the one balancing asks for, the result is balanced in stored heights and has the promised height |
| `Avl.Balance` | cbits/hs_rdavl.c:62-92 | for two balanced children with any height gap the mutually recursive balance terminates and returns a balanced tree with the same in-order sequence; past a gap of one its stored height is the taller child's or one more |
| `Avl.PreUndone` | cbits/hs_rdavl.c:62-92 | a double rotation whose first half the recursive balance undoes comes back to the tree it started from, already in the shape the second half needs |
| `Avl.MainRank` | cbits/hs_rdavl.c:48-92 | the termination measure drops on the recursive calls of the outer rotation |
| `AvlMap.MoveInOrder` | cbits/hs_rdavl.c:125-133 | hanging a subtree on the far spine concatenates the in-order sequences and re-balances |
| `AvlMap.InsertCorrect` | cbits/hs_rdavl.c:94-121 | after insertion the in-order sequence is the lesser part, the new entry, the greater part; an equal element is replaced and returned; balance and order stay |
| `AvlMap.RemoveCorrect` | cbits/hs_rdavl.c:135-165 | after removal the in-order sequence is the lesser part followed by the greater part |
| `AvlMap.FindCorrect` | cbits/hs_rdavl.c:169-182 | descending the tree agrees with searching the in-order sequence |
| `AvlMap.FindAfterInsert` | cbits/hs_rdavl.c:94-121 | find after insert: the new entry for an equal key, what was there before for any other |
| `AvlMap.FindAfterRemove` | cbits/hs_rdavl.c:147-182 | after removal the tree is still sorted and balanced; find gives nothing for an equal key and what was there before for any other |
| `AvlMap.RunValid` | cbits/hs_rdavl.c:94-165 | after every run of insertions and removals the tree is strictly sorted and balanced in stored heights |
| `AvlMap.RunRefinesMap` | cbits/hs_rdavl.c:94-182 | after every run, find agrees with the finite map that the same operations build |
| `AvlMap.InsertReturnsOld` | cbits/hs_rdavl.h:202-215 | after every run, an insertion returns exactly what the map held for that key |
| `AvlMap.StoredHeight` | cbits/hs_rdavl.h:203-215 | the true height is the stored height or one more, since a fresh leaf is stored with height 0 |
| `AvlMap.NodeCount` | cbits/hs_rdavl.c:62-92 | a balanced tree of stored height h has at least Fib(h + 2) - 1 nodes |
| `AvlMap.RunHeight` | cbits/hs_rdavl.c:62-121 | on every run the true height is logarithmic: Fib(height + 1) is at most the number of nodes plus one |
| `AvlHeap.RotateNode` | cbits/hs_rdavl.c:48-60 | the pointer updates turn the linked shape t into Rotate(t) |
| `AvlHeap.BalanceNode` | cbits/hs_rdavl.c:62-92 | the pointer updates turn the linked shape t into Balance(t) |
| `AvlHeap.InsertNode` | cbits/hs_rdavl.c:94-121 | the pointer updates turn the linked shape into the inserted one and report the node that was replaced |
| `AvlHeap.MoveNode` | cbits/hs_rdavl.c:125-133 | the pointer updates hang the source subtree on the far spine as Move does |
| `AvlHeap.RemoveNode` | cbits/hs_rdavl.c:135-165 | the pointer updates turn the linked shape into the one after removal |
| `AvlHeap.FindNode` | cbits/hs_rdavl.c:169-182 | following the pointers finds the node that Find finds |
| `AvlHeap.AvlTree.InsertElm` | cbits/hs_rdavl.h:203-215 | the tree object stays sorted, balanced and without sharing; it returns the overwritten element |
| `AvlHeap.AvlTree.RemoveElm` | cbits/hs_rdavl.h:220-225 | the tree object stays valid and its shape is the one after removal |
| `AvlHeap.AvlTree.FindElm` | cbits/hs_rdavl.h:234-248 | returns the element of the entry found |
| `AssignmentInv.ServeInv` | cbits/hs_rdkafka_assignment.c:300-603 | serve fails no assertion and keeps the invariant: pending and queried are disjoint parts of all, removed is disjoint from all, started_cnt counts started fetchers, wait_stop_cnt counts outstanding stops |
| `AssignmentInv.AddInv` | cbits/hs_rdkafka_assignment.c:663-767 | an accepted add trips its assertion exactly when a partition was unassigned and serve has not run since; otherwise it keeps the invariant |
| `AssignmentInv.SubtractInv` | cbits/hs_rdkafka_assignment.c:780-860 | an accepted subtract hits its internal error exactly when a partition is listed twice, and keeps the invariant exactly when none of them awaits a stop reply |
| `AssignmentInv.ClearInv` | cbits/hs_rdkafka_assignment.c:627-650 | clear keeps the invariant exactly when no assigned partition awaits a stop reply |
| `AssignmentInv.StoppedInv` | cbits/hs_rdkafka_assignment.c:866-885 | a stop reply that is outstanding fails no assertion and keeps the invariant |
| `AssignmentInv.ReplyInv` | cbits/hs_rdkafka_assignment.c:132-292 | an OffsetFetch reply fails exactly when it carries no offsets for the current version; otherwise it keeps the invariant |
| `AssignmentInv.StepExact` | cbits/hs_rdkafka_assignment.c:132-885 | one event fails no assertion and keeps the invariant if and only if the caller's condition for that event holds |
| `AssignmentInv.RunSafe` | cbits/hs_rdkafka_assignment.c:132-885 | on every run whose events meet those conditions, of any length, no assertion fails and the invariant holds at the end |
| `AssignmentStops.DoubleStopFails` | cbits/hs_rdkafka_assignment.c:866-885 | in any state in which a removed partition still awaits a stop reply, serve stops it again, both replies come, and the second always fails its assertion |
| `AssignmentStops.RefusedFails` | cbits/hs_rdkafka_assignment.c:300-885 | every event refused by its caller's condition leads to a failed assertion, at once or through serve and the outstanding stop replies alone |
| `AssignmentStops.AllowedExact` | cbits/hs_rdkafka_assignment.c:300-885 | the caller's condition is exact: it holds if and only if no assertion fails, then or later, however serve and the outstanding stop replies follow |
| `AssignmentStops.RestopReached` | cbits/hs_rdkafka_assignment.c:780-860 | such a state is reached from the initial one by start, unassign, assign again and unassign again |
| `AssignmentRuns.ServeSignals` | cbits/hs_rdkafka_assignment.c:560-616 | after any serve, completion was signalled exactly when nothing is in progress, and nothing was started or queried while a stop or a commit is outstanding |
| `AssignmentRuns.ServeQueries` | cbits/hs_rdkafka_assignment.c:400-548 | serve sends at most one query, and none while an earlier query has a partition left on queried |
| `AssignmentRuns.WindowNoQuery` | cbits/hs_rdkafka_assignment.c:54-85 | through any sequence of events during which one partition of the query stays on queried, no second query is sent and no partition joins queried |
| `AssignmentRuns.ReassignedIgnored` | cbits/hs_rdkafka_assignment.c:137-151 | a partition unassigned in that window, and perhaps assigned again, is not touched by the offset in the reply that ends it |
| `AssignmentStale.ReassignedWaits` | cbits/hs_rdkafka_assignment.c:77-83 | a partition assigned inside that window, with a start position to be asked for, waits on pending to its end, is never on queried, and the reply that ends the window leaves it waiting |
| `AssignmentRuns.RunOfLast` | cbits/hs_rdkafka_assignment.c:400-548 | on every allowed run, everything on queried was asked for by the query sent last |
| `AssignmentStale.LastReplyFresh` | cbits/hs_rdkafka_assignment.c:54-85 | on every allowed run, a partition on queried was last assigned before the query sent last, so a reply to that query is never stale |
| `AssignmentStale.StaleExactly` | cbits/hs_rdkafka_assignment.c:132-151 | for every outstanding query and every partition on queried, the partition was assigned again after that query if and only if another query was sent last |
| `AssignmentStale.ReplyStaleExactly` | cbits/hs_rdkafka_assignment.c:132-212 | a reply uses a stale offset if and only if it names a partition on queried and its query is not the one sent last |
| `AssignmentStale.ServeFlow` | cbits/hs_rdkafka_assignment.c:400-548 | where serve takes each pending partition: with a query those to be asked for go on queried and nothing stays pending, without one they stay |
| `AssignmentStale.ServeStartsExactly` | cbits/hs_rdkafka_assignment.c:420-466 | serve starts a pending partition if and only if its offset can be started from and no stop or commit is outstanding or caused by the removals |
| `AssignmentStale.ReplyStartsExactly` | cbits/hs_rdkafka_assignment.c:153-200 | a queried partition that a reply puts back, also one blocked by a transaction, is started at once at the reply's offset under exactly that condition |
| `AssignmentRuns.StaleOffsetUsed` | cbits/hs_rdkafka_assignment.c:132-212 | the window is needed: once every partition of the query was unassigned a second query goes out and the first reply's offset is used |
| `AssignmentEffects.ServeExact` | cbits/hs_rdkafka_assignment.c:300-603 | everything serve does, exactly: which stops, commit, starts, query and completion are sent, where each list entry is left, and which fetchers run |
| `AssignmentEffects.ApplyExact` | cbits/hs_rdkafka_assignment.c:132-212 | an entry is pending after the answers of a reply if and only if it was, or it is the first answer for a partition on queried and has no error, neither its own nor the reply's, or its retrieval is blocked by a transaction; every answered partition leaves queried |
| `AssignmentEffects.ReplyExact` | cbits/hs_rdkafka_assignment.c:224-292 | a reply with offsets does that, then serves, and touches nothing else |
| `AssignmentEffects.ErrorReply` | cbits/hs_rdkafka_assignment.c:153-200 | a queried partition whose first answer has another error, or whose request failed, stays assigned but is neither pending nor queried afterwards, and is not started |
| `AssignmentEffects.EmptyReplies` | cbits/hs_rdkafka_assignment.c:224-292 | a reply that was retried changes nothing; one dropped without offsets, or while the client ends, only takes its query off the outstanding ones |
| `AssignmentEffects.AddExact` | cbits/hs_rdkafka_assignment.c:663-767 | add takes exactly the lists without repeats or assigned partitions whose offsets can be started from or are the committed one; it puts every entry on all and on pending, with INVALID turned into the committed offset, and nothing else |
| `AssignmentEffects.AddedAwaits` | cbits/hs_rdkafka_assignment.c:705-711 | a partition assigned with INVALID or the committed offset is never started before a reply names it, in any run that keeps it assigned: it waits on pending until it is asked for, then on queried |
| `AssignmentEffects.ServeAwaits` | cbits/hs_rdkafka_assignment.c:400-548 | when serve sends a query, every partition that waits for its committed offset is in it and on queried |
| `AssignmentEffects.SubtractExact` | cbits/hs_rdkafka_assignment.c:780-860 | subtract takes exactly the lists of assigned partitions; it takes each off all, pending and queried, adds the given entries to removed, and touches nothing else |
| `AssignmentEffects.ClearExact` | cbits/hs_rdkafka_assignment.c:627-650 | clear moves everything assigned to removed and empties pending and queried; it does nothing when nothing is assigned |
| `AssignmentEffects.StoppedExact` | cbits/hs_rdkafka_assignment.c:866-885 | a stop reply ends the fetcher and its count; the last one outstanding serves |
| `AssignmentStale.CommitDueExact` | cbits/hs_rdkafka_assignment.c:340-380 | a commit is due exactly when some removed partition has a stored absolute offset and auto-commit is on |
| `AssignmentObj.ConsumerAssignment.Serve` | cbits/hs_rdkafka_assignment.c:560-603 | serve on the object is the serve transition, and the invariant is kept |
| `AssignmentObj.ConsumerAssignment.ServeRemovals` | cbits/hs_rdkafka_assignment.c:300-388 | the loop over removed partitions is the removal transition; returns the outstanding stops and commits |
| `AssignmentObj.ConsumerAssignment.ServePending` | cbits/hs_rdkafka_assignment.c:400-548 | the backwards loop over pending partitions is the pending transition; returns what is pending or queried |
| `AssignmentObj.ConsumerAssignment.Add` | cbits/hs_rdkafka_assignment.c:663-767 | checks the sorted input, then performs the add transition, or reports the error and changes nothing |
| `AssignmentObj.ConsumerAssignment.Subtract` | cbits/hs_rdkafka_assignment.c:780-860 | checks the sorted input, then performs the subtract transition, or reports the error and changes nothing |
| `AssignmentObj.ConsumerAssignment.Clear` | cbits/hs_rdkafka_assignment.c:627-650 | performs the clear transition and returns the number of partitions cleared |
| `AssignmentObj.ConsumerAssignment.PartitionStopped` | cbits/hs_rdkafka_assignment.c:866-885 | performs the stop-reply transition, and serves |
| `AssignmentObj.ConsumerAssignment.ApplyOffsets` | cbits/hs_rdkafka_assignment.c:132-212 | moves every queried partition of the reply to pending with its offset, and serves |
| `AssignmentObj.ConsumerAssignment.HandleOffsetFetch` | cbits/hs_rdkafka_assignment.c:224-292 | makes the reply transition: offsets are applied whatever the version, a reply without offsets is dropped if outdated |
| `Buf.Buffer.GetWritable` | cbits/hs_rdbuf.c:395-422 | finds the first segment with room, positioned where the flat data ends, and moves the write position there |
| `Buf.Buffer.AppendSegment` | cbits/hs_rdbuf.c:73-87 | appending keeps segments contiguous and the length and size equal to the segment sums |
| `Buf.Buffer.WriteEnsure` | cbits/hs_rdbuf.c:199-204 | afterwards the requested room is available and the bytes are unchanged |
| `Buf.Buffer.Write` | cbits/hs_rdbuf.c:447-481 | the loop over segments terminates and appends exactly the payload; the returned offset addresses it |
| `Buf.Buffer.SegmentAt` | cbits/hs_rdbuf.c:213-234 | finds the segment holding the byte at an offset, or none when the offset is past the data |
| `Buf.Buffer.WriteUpdate` | cbits/hs_rdbuf.c:519-568 | an update across segments overwrites exactly that range of the flat bytes |
| `Buf.Buffer.Push` | cbits/hs_rdbuf.c:254-283 | splitting the write segment around pushed memory appends exactly the pushed bytes, read-only as asked, and keeps the free room |
| `Buf.Buffer.WriteSeek` | cbits/hs_rdbuf.c:692-722 | truncates the flat bytes; the buffer stays usable if and only if the byte at the offset was not read-only |
| `BufRuns.RunAll` | cbits/hs_rdbuf.c:447-722 | any run of writes, pushes, updates and seeks on an empty buffer does what the same run does on one flat string that marks its read-only bytes; it goes to the end if and only if no update of that run is out of range and no seek is to a read-only byte |
| `BufRuns.Apply` | cbits/hs_rdbuf.c:447-722 | one operation does to the flat string and its read-only marks what it does to the segments, and leaves the buffer unusable if and only if it is a seek to a read-only byte |
| `BufRuns.OffsetStays` | cbits/hs_rdbuf.c:430-481 | the offset a write returned addresses the same bytes after any run that neither overwrites nor cuts them off |
| `Varint.RoundTrip` | cbits/hs_rdvarint.h:48-63 | an encoded number is read back in full whatever follows it |
| `Varint.RoundTrip64` | cbits/hs_rdvarint.h:48-63 | every 64-bit number encodes to at most ten bytes that decode to it |
| `Varint.OrGroup` | cbits/hs_rdbuf.c:961-999 | or-ing a seven-bit group into the 64-bit accumulator is addition modulo 2^64; only the tenth group can lose bits |
| `Slice.BufferSlice.Init` | cbits/hs_rdbuf.c:782-822 | a slice covers exactly the requested range, or the call fails |
| `Slice.BufferSlice.Reader` | cbits/hs_rdbuf.c:837-866 | a chunk is a prefix of the remaining flat bytes, empty only when nothing remains, and the position moves past it |
| `Slice.BufferSlice.Read` | cbits/hs_rdbuf.c:906-934 | reads exactly the next bytes of the flat string across segments, or changes nothing |
| `Slice.BufferSlice.Peek` | cbits/hs_rdbuf.c:944-951 | reads at an offset from the start without moving |
| `Slice.BufferSlice.Seek` | cbits/hs_rdbuf.c:1032-1048 | moves to the offset, or changes nothing when it is not inside |
| `Slice.BufferSlice.Narrow` | cbits/hs_rdbuf.c:1063-1070 | moves the end inwards and saves the outer end |
| `Slice.BufferSlice.NarrowRelative` | cbits/hs_rdbuf.c:1076-1081 | leaves exactly the next bytes readable |
| `Slice.BufferSlice.Widen` | cbits/hs_rdbuf.c:1089-1091 | restores the saved end and keeps the position |
| `Slice.BufferSlice.ReadUvarint` | cbits/hs_rdbuf.c:961-999 | finds the length the flat bytes spell, wherever segments are cut, and the value for up to ten bytes; leaves the slice unchanged on underflow |
| `Slice.BufferSlice.ReadVarint` | cbits/hs_rdbuf.h:318-330 | the zig-zag decoding of that value |
| `Varint.ZigZagRoundTrip` | cbits/hs_rdbuf.h:318-330 | zig-zag coding is a bijection between the signed and unsigned 64-bit numbers |
| `Slice.BufferSlice.Crc32c` | cbits/hs_rdbuf.c:1194-1203 | the CRC-32C of the slice depends only on its flat bytes, not on segments or alignment |
| `HdrSpec.RangeOf` | cbits/hs_rdhdrhistogram.c:221-249 | every value lies between its lowest and highest equivalent value, and the adjustment for an oversized sub-bucket is never taken |
| `HdrSpec.RangeIsCounter` | cbits/hs_rdhdrhistogram.c:231-263 | the values of a counter are exactly those between its lowest and highest equivalent value |
| `HdrSpec.SameCounter` | cbits/hs_rdhdrhistogram.c:221-263 | two values share a counter if and only if their ranges coincide |
| `HdrSpec.RangesOrdered` | cbits/hs_rdhdrhistogram.c:231-263 | counters in index order stand for disjoint ranges in value order |
| `HdrSpec.IndexMonotone` | cbits/hs_rdhdrhistogram.c:258-263 | a larger value has no smaller counter index |
| `HdrSpec.ValueOfPair` | cbits/hs_rdhdrhistogram.c:163-219 | the value of a bucket pair maps back to that pair and that counter, and starts its range |
| `HdrSpec.NextPairIndex` | cbits/hs_rdhdrhistogram.c:286-293 | stepping the iterator visits counter indexes in order and leaves the last bucket only after the last counter |
| `HdrSpec.InRange` | cbits/hs_rdhdrhistogram.c:390-400 | a value has a counter if and only if it is below the smallest untrackable value |
| `HdrSpec.RelativeError` | cbits/hs_rdhdrhistogram.c:221-229 | past bucket 0 a range is at most one part in half the sub-bucket count of the value |
| `HdrSpec.UnitExact` | cbits/hs_rdhdrhistogram.c:109-111 | the unit is the largest power of two not above minValue, and one below 1 |
| `HdrSpec.SubBucketsExact` | cbits/hs_rdhdrhistogram.c:103-117 | there are as few sub-buckets as a power of two can count that tell apart twice 10^figures values |
| `HdrSpec.SmallExact` | cbits/hs_rdhdrhistogram.c:103-129 | with minValue at most 1, every value in the first sub-bucket array has a counter of its own |
| `HdrSpec.Precision` | cbits/hs_rdhdrhistogram.c:103-129 | for 1 to 5 significant figures a range is at most max(minValue, 1) wide, or narrower than v / 10^figures + 1 |
| `HdrRank.SortCorrect` | cbits/hs_rdhdrhistogram.c:412-431 | the reference list of samples is sorted, a permutation of the recorded values, with the same counts below every counter |
| `HdrRank.RankCounter` | cbits/hs_rdhdrhistogram.c:412-431 | the k-th smallest sample falls on the counter at which the running count reaches k |
| `Histogram.BitLength` | cbits/hs_rdhdrhistogram.c:179-198 | the shift cascade computes the true bit length of every non-negative value |
| `Histogram.NewHistogram` | cbits/hs_rdhdrhistogram.c:84-149 | refuses figures outside 1 to 5; otherwise unit and sub-buckets as the arguments ask, and the least number of buckets reaching maxValue, which is itself recordable if and only if it is not a power of two at or past the end of the first bucket |
| `Histogram.Histogram.Reset` | cbits/hs_rdhdrhistogram.c:154-159 | no values are recorded afterwards |
| `Histogram.Histogram.Record` | cbits/hs_rdhdrhistogram.c:390-406 | a value below the smallest untrackable one is recorded, any other moves only the out-of-range statistics |
| `Histogram.Iterator.Next` | cbits/hs_rdhdrhistogram.c:280-304 | visits the next counter in index order with its running count, stops exactly when all samples were seen, and never leaves the counters |
| `Histogram.Histogram.Quantile` | cbits/hs_rdhdrhistogram.c:412-431 | for a rank k from 1 to the number of samples, the highest equivalent value of the k-th smallest sample |
| `Histogram.QuantileMonotone` | cbits/hs_rdhdrhistogram.c:412-431 | quantiles do not decrease with the rank |
| `Histogram.Histogram.Max` | cbits/hs_rdhdrhistogram.c:337-346 | the quantile of the last rank; for no samples, the top of the first range |
| `Histogram.Histogram.Min` | cbits/hs_rdhdrhistogram.c:351-362 | the lowest equivalent value of the smallest sample, or 0 |
| `Histogram.ExtremesBound` | cbits/hs_rdhdrhistogram.c:337-362 | the reported minimum and maximum bound every sample and are each the end of a sample's own range |
| `Utf8.EncodeDecodes` | cbits/hs_cJSON.c:647-684 | decoding the encoding of a code point gives it back (section 3 of RFC 3629) |
| `Utf8.DecodeEncodes` | cbits/hs_cJSON.c:647-684 | a code point has exactly one encoding: a byte sequence that decodes is the encoding of its value |
| `Utf8.CombineSplits` | cbits/hs_cJSON.c:613-641 | combining two surrogates with shifts and masks gives the code point that splits into them (section 2.2 of RFC 2781) |
| `Utf8.SplitCombines` | cbits/hs_cJSON.c:613-641 | every code point past the first plane is combined from its surrogates |
| `Utf8.HexDigitExact` | cbits/hs_cJSON.c:560-584 | a byte is read as the digit d if and only if it is the lower-case or the upper-case form of d |
| `Utf8.Hex4Exact` | cbits/hs_cJSON.c:560-584 | four bytes are read as w if each is one of the two forms of w's digit there, and as 0 if one is no digit |
| `Utf8.SurrogateRanges` | cbits/hs_cJSON.c:613-641 | the first surrogate of a code point is from D800 to DBFF and the second from DC00 to DFFF |
| `Utf8.WellFormedLiteral` | cbits/hs_cJSON.c:589-645 | an escape or pair spelling a code point, each digit in either letter case, is read as that code point and its full length |
| `JsonParse.ParseHex4` | cbits/hs_cJSON.c:560-584 | the number whose digits the four bytes are, in either letter case, or 0 when one is none |
| `JsonParse.WriteUtf8` | cbits/hs_cJSON.c:670-686 | the backwards byte loop writes the encoding of the code point and nothing else |
| `JsonParse.WellFormedChunk` | cbits/hs_cJSON.c:780-790 | in a string, a well-formed escape or pair puts out the UTF-8 form of its code point |
| `Utf8.LiteralExact` | cbits/hs_cJSON.c:560-645 | an escape is read if and only if it is well formed, then as its code point, or one of its first four digits is bad, then as zero |
| `JsonParse.EscapeExact` | cbits/hs_cJSON.c:745-797 | an escape in a string puts out the UTF-8 form of its code point if and only if it is well formed, a zero byte when one of its first four digits is bad, and is refused in all other cases |
| `JsonLaws.LetterExact` | cbits/hs_cJSON.c:753-797 | each of the eight one-letter escapes of section 7 of RFC 8259 puts out its byte; a backslash before any other letter but u is refused |
| `JsonLaws.EscapeTable` | cbits/hs_cJSON.c:823-932 | printing puts a one-letter escape for seven bytes, four lower-case digits for the other control bytes, and every other byte as it is |
| `JsonLaws.Characters` | cbits/hs_cJSON.c:1214-1270 | keywords, brackets and separators are the texts of sections 2 and 3 of RFC 8259 |
| `JsonLaws.LongestNumber` | cbits/hs_cJSON.c:289-357 | the part of a text taken as a number is its longest prefix that is a decimal number by an explicit grammar |
| `JsonParse.StringFits` | cbits/hs_cJSON.c:695-820 | for any input, even one whose ill-formed escapes misalign the two passes, the second pass puts out at most the number of bytes the first pass computed |
| `JsonParse.ChunkFits` | cbits/hs_cJSON.c:745-797 | each step of the second pass puts out no more than it takes in beyond the escapes the first pass counted there |
| `JsonParse.ParseBuffer.SkipWhitespace` | cbits/hs_cJSON.c:954-973 | stops at the first byte above 32, or at the last byte of the buffer |
| `JsonParse.ParseBuffer.MeasureString` | cbits/hs_cJSON.c:707-734 | the first pass finds the closing quote and counts the escapes |
| `JsonParse.ParseBuffer.ParseString` | cbits/hs_cJSON.c:695-820 | every write is inside the allocated output; the result is the unescaped text and the offset past the quote |
| `JsonParse.ParseBuffer.ParseNumber` | cbits/hs_cJSON.c:289-357 | takes the longest decimal number among the next 63 number characters |
| `JsonParse.ParseBuffer.ParseValue` | cbits/hs_cJSON.c:1214-1270 | the recursive descent computes the parse function and stays inside the buffer |
| `JsonParse.ParseBuffer.ParseArray` | cbits/hs_cJSON.c:1339-1424 | the element loop computes the parse function of arrays, within the nesting limit |
| `JsonParse.ParseBuffer.ParseObject` | cbits/hs_cJSON.c:1481-1581 | the member loop computes the parse function of objects, within the nesting limit |
| `JsonParse.ParseWithOpts` | cbits/hs_cJSON.c:992-1082 | the entry point computes the parse function, with or without requiring the end of the text |
| `JsonRoundTrip.StringBack` | cbits/hs_cJSON.c:823-932 | parsing a printed string, in any surrounding text, gives the string back and stops behind its quote |
| `JsonGrammar.StringExact` | cbits/hs_cJSON.c:695-820 | a string is parsed if and only if a grammar that does not mention parsing says so: it ends at the first quote behind an even number of backslashes and its pieces, each a byte, an escape or a pair, stand for the result |
| `JsonGrammar.NumberExact` | cbits/hs_cJSON.c:289-357 | a number is parsed if and only if it is the longest decimal number among the next number characters, 63 of them at most |
| `JsonGrammar.Complete` | cbits/hs_cJSON.c:1214-1683 | every text of the grammar, with white space around values, commas and colons, is parsed to its value and to its end, if and only if the nesting limit is not exceeded |
| `JsonGrammar.Sound` | cbits/hs_cJSON.c:1214-1683 | whatever is parsed is a text of the grammar, stands for that value, and is within the nesting limit |
| `JsonGrammar.ValueOnce` | cbits/hs_cJSON.c:1214-1683 | the grammar is unambiguous: one position starts at most one value, with one end, however deep it is nested |
| `JsonGrammar.ParseExact` | cbits/hs_cJSON.c:992-1082 | the entry point returns a value if and only if the text is a mark, white space and a text of the grammar for it, nested at most 1000 deep; asked for the whole text, with nothing but white space behind |
| `JsonGrammar.PrintedIs` | cbits/hs_cJSON.c:1273-1683 | what is printed, formatted or not, is a text of the grammar for the value printed, however deep it is nested |
| `JsonRoundTrip.ValueBack` | cbits/hs_cJSON.c:1214-1683 | a printed value inside any text that does not continue a number parses to itself and stops at its end, if and only if the nesting limit is not exceeded |
| `JsonRoundTrip.RoundTrip` | cbits/hs_cJSON.c:1010-1082 | printing and parsing is the identity, formatted or not, and stops at the end of the text, if and only if the tree is nested at most 1000 deep; a deeper one is refused |
| `JsonRoundTrip.PrintInjective` | cbits/hs_cJSON.c:1273-1336 | different trees have different texts, whatever the format of either and however deep they are nested |
| `JsonRoundTrip.PrintVisible` | cbits/hs_cJSON.c:483-491 | a printed text contains no NUL, which is what measuring it with strlen relies on |
| `JsonLaws.ArrayLayoutLaw` | cbits/hs_cJSON.c:1427-1478 | an array is its elements with a comma between each two, followed by a space when formatted |
| `JsonLaws.ObjectLayoutLaw` | cbits/hs_cJSON.c:1584-1683 | an object is its members with a comma between each two; formatted, each is on its own line, one tab deeper than the closing brace, with a tab behind the colon |
| `JsonLaws.Padded` | cbits/hs_cJSON.c:954-1082 | white space before and after a printed text, and a UTF-8 mark before it, change nothing but where the parse ends |
| `JsonPrint.PrintBuffer.Ensure` | cbits/hs_cJSON.c:410-479 | succeeds exactly when the bytes and one more fit the largest buffer allowed, and keeps what was written |
| `JsonPrint.PrintBuffer.UpdateOffset` | cbits/hs_cJSON.c:483-491 | moves to the end of the C string in the buffer |
| `JsonPrint.PrintBuffer.PrintString` | cbits/hs_cJSON.c:823-932 | writes the quoted, escaped string as section 7 of RFC 8259 asks, by a plain copy when nothing needs escaping |
| `JsonPrint.PrintBuffer.PrintValue` | cbits/hs_cJSON.c:1273-1336 | writes the text of the value and its terminator, and succeeds if and only if the text and two more bytes fit |
| `JsonPrint.PrintBuffer.PrintArray` | cbits/hs_cJSON.c:1427-1478 | the same for an array |
| `JsonPrint.PrintBuffer.PrintObject` | cbits/hs_cJSON.c:1584-1683 | the same for an object, with its indentation |
| `JsonPrint.PrintText` | cbits/hs_cJSON.c:1096-1163 | returns the text of the value, if and only if it and two more bytes fit INT_MAX |
| `JsonPrint.PrintPreallocated` | cbits/hs_cJSON.c:1193-1211 | succeeds if and only if the given buffer is two bytes longer than the text (its header asks for five), and then holds it as a C string |
| `JsonList.HoldsOnce` | cbits/hs_cJSON.c:1706-1720 | the links determine the sequence of items: two sequences held by the same array are equal |
| `JsonList.GetArrayItem` | cbits/hs_cJSON.c:1706-1720 | the item at an index, or null past the end |
| `JsonList.AddItemToArray` | cbits/hs_cJSON.c:1780-1830 | appends in constant time through the first item's prev; the list stays ended by null if and only if it was empty or the item's next was null |
| `JsonList.InsertItemInArray` | cbits/hs_cJSON.c:2103-2124 | inserts at the index and keeps all links; past the end it appends, and the list is then ended by null if and only if it was empty or the item's next was null |
| `JsonList.DetachItemViaPointer` | cbits/hs_cJSON.c:2035-2062 | removes the item, keeps all other links and clears the item's own |
| `JsonList.DetachItemFromArray` | cbits/hs_cJSON.c:2064-2071 | removes and returns the item at an index, if there is one |
| `JsonList.ReplaceItemViaPointer` | cbits/hs_cJSON.c:2127-2167 | puts the replacement in the item's place and keeps all links |
| `JsonList.ReplaceItemInArray` | cbits/hs_cJSON.c:2170-2177 | replaces the item at an index, if there is one |
| `JsonList.ApplyAll` | cbits/hs_cJSON.c:1780-2177 | every run of appends, inserts, detaches and replacements keeps next and prev consistent, ends in null, has the first item's prev at the last, and does what the run on a sequence does |
| `Fanout.OneReply` | cbits/hs_rdkafka_admin.c:1242-1300 | while merges succeed nothing is replied before the last partial result, and exactly one reply, with everything merged, is sent on it |
| `Fanout.NoneLeft` | cbits/hs_rdkafka_admin.c:1253-1254 | a partial result beyond those counted trips the worker's assertion |
| `FanoutGroups.DeleteGroups` | cbits/hs_rdkafka_admin.c:3681-3778 | starts one request per group if and only if the list is not empty and names no group twice |
| `FanoutGroups.FindDuplicate` | cbits/hs_rdlist.c:365-377 | comparing neighbours of the sorted copy finds a repeated group if and only if there is one |
| `FanoutGroups.CompleteExact` | cbits/hs_rdkafka_admin.c:3650-3669 | what is assumed of the partial results: one for each group, and a success carries a result for its group |
| `FanoutGroups.DeleteGroupsReply` | cbits/hs_rdkafka_admin.c:3641-3679 | for every arrival order, every mix of success, error and termination, no assertion fails and the one reply has, at each group's place, the error of its partial result if it has one, that of a destroyed handle if it came while terminating, and otherwise its result |
| `FanoutGroups.SecondResult` | cbits/hs_rdkafka_admin.c:3671-3678 | a second result for an answered group always trips the assertion |
| `FanoutGroups.DeleteGroupsOp.ResponseMerge` | cbits/hs_rdkafka_admin.c:3641-3679 | the merge in place fills the group's empty slot with its error or its result and no other slot, failing where an assertion fails |
| `FanoutGroups.DeleteGroupsOp.FanoutWorker` | cbits/hs_rdkafka_admin.c:1242-1300 | the worker on the object is the worker step |
| `FanoutRecords.MergeMeaning` | cbits/hs_rdkafka_admin.c:3216-3281 | a merge changes exactly the requested partitions the partial result speaks about, and fails if and only if an error comes for one that was never requested |
| `FanoutRecords.DeleteRecordsReply` | cbits/hs_rdkafka_admin.c:3216-3281 | for every arrival order no assertion fails, nothing is replied before the last result, and the one reply is every requested partition passed through the results in that order |
| `FanoutRecords.OrderIndependence` | cbits/hs_rdkafka_admin.c:3216-3281 | the reply is the same for every arrival order if and only if no two partial results contradict each other about a requested partition |
| `FanoutRecords.DisjointAgree` | cbits/hs_rdkafka_admin.c:3398-3417 | leaders that own disjoint partitions never contradict each other |
| `FanoutRecords.RequestedKeeps` | cbits/hs_rdkafka_admin.c:3461-3480 | every requested partition is in the results with its offset, marked as not done |
| `FanoutRecords.DeleteRecords` | cbits/hs_rdkafka_admin.c:3423-3495 | accepts exactly one request, not empty and without repeats; every partition keeps its offset and is marked as not done |
| `FanoutRecords.LeaderErrorsKept` | cbits/hs_rdkafka_admin.c:3356-3373 | copying the errors of the leader query fails if and only if one is about a partition not requested; otherwise each requested partition gets the last error reported for it, or keeps its own, and nothing else changes |
| `FanoutRecords.RequestToReply` | cbits/hs_rdkafka_admin.c:3423-3495 | from request to reply, in any arrival order: exactly the requested partitions are listed; one that no leader speaks about has the leader query's error or is marked as not done, any other has the error its leader reported, and its offset if it was a success |
| `FanoutRecords.DeleteRecordsOp.LeadersQueried` | cbits/hs_rdkafka_admin.c:3356-3396 | one request per leader is outstanding, and the results are the requested partitions, each with the last error the query reported for it |
| `FanoutRecords.DeleteRecordsOp.ResponseMerge` | cbits/hs_rdkafka_admin.c:3216-3281 | the merge in place is the merge function, failing where an assertion fails |
| `FanoutRecords.DeleteRecordsOp.FanoutWorker` | cbits/hs_rdkafka_admin.c:1242-1300 | the worker on the object is the worker step |

## Left out

- Locks, atomics, reference counts and memory ownership: everything runs on one thread, allocation succeeds, and freeing is not modelled.
- CRC: the processor query (a parameter of the engine) and reading words through pointers; messages are byte sequences with the address of their first byte.
- AVL: the comparator is a total function (a total order where results depend on it), locking flags and `rd_avl_destroy`.
- Assignment: a topic and partition pair is one integer key in comparator order; pause, resume, destroy, logging and the reset of stored offsets; the group state that the completion callback changes; the environment (coordinator up, stored offsets, auto-commit) is a parameter of each event.
- Buffers: `rd_buf_erase`, `rd_buf_write_ensure_contig`, a bare reservation before a push, the iovec views, writes with a null payload, and `rd_buf_write_slice`.
- Slice.BufferSlice.ReadUvarint: does not say which value more than ten bytes give, because C leaves the shift by 64 bits or more undefined.
- Slice.BufferSlice.ReadVarint: the same.
- AssignmentStale.StaleExactly: takes the replies of the run to carry offsets a fetcher can start from, as the reply parser does for committed offsets and for none (-1 becomes INVALID); what a broker sends is otherwise not restricted.
- AssignmentStale.ReplyStaleExactly: the same.
- Slice.BufferSlice.Narrow: requires that the new end is not before the read position, which the code asserts.
- Histogram: negative values, mean, standard deviation and the conversion of a quantile to a rank (the rank is an integer parameter); `pow` and `log2` are integer powers and logarithms.
- Histogram.NewHistogram: does not model 64-bit overflow; the bound it proves on the smallest untrackable value (below twice maxValue once a bucket was added) keeps it in 64 bits for maxValue up to 2^62 and a minValue below 2^45.
- JSON numbers: the token that is printed stands for the number; formatting a double and the value strtod computes are not modelled, only how many characters it takes. Not-a-number prints as null and so does not come back as a number.
- JSON: raw and reference items, minification, locales, case-insensitive key search, printing a null string pointer, and parsing a buffer without a terminator.
- JsonParse.ParseBuffer.ParseString: the result is the whole output, including zero bytes from escapes, after which a C string would end.
- JsonList.InsertItemInArray: does not model a null item or an item that is the array itself, which the code dereferences or links into itself.
- JsonList: the array pointer is never null.
- JsonList.ReplaceItemViaPointer: stops before the old item is freed.
- JsonList.DetachItemViaPointer: the item must be one of the list, as the code relies on.
- Admin: the worker's broker and coordinator look-up, timers, request encoding and response parsing, and the replies for a failed leader query; a group name is one integer key in strcmp order.
- The remaining sources (sockets, brokers, producers, protocol requests, the Haskell bindings) are not part of this model.
