# Velocity feed: a verified model

A model in Dafny of the stateful core of a market-data fan-out server, with proofs of what its
parts promise over every input and every run. Each module follows one component:

- **Write-ahead log** (`Bytes`, `Checksum`, `Framing`, `Record`, `LogFile`, `IndexFile`, `Segment`,
  `Layout`, `Manager`, `LogRuns`): binary records, a sparse index, rolling segments, retention and a
  reader across segments. Together they behave like one append-only sequence: `LogRuns.RunThenRead`.
- **Replay and session** (`Replay`, `Session`, `Delivery`): a bounded window of the log, copied out of the shared
  scratch buffer, then handed over to the live stream. `Delivery` joins log, replay and session:
  `Delivery.RunAndConnect`.
- **Routing** (`HashRing`, `RoutingEngine`): consistent hashing, topology sync, redirects.
- **Snapshots** (`Checkpoints`, `Recovery`): file rotation under crashes, recovery by cursor paging.
- **Backpressure** (`Bits`, `Ring`, `DropWindow`, `Channel`): a masked ring, a per-second drop window,
  and the channel built on them.
- **Order book** (`OrderBook`), **Redis envelope** (`WireEnvelope`), **block sequencer** (`Sequencer`),
  **distributed router** (`TopicRouter`). `Collections` and `Arithmetic` hold what several of them share.

Objects the server updates in place are classes with in-place arrays, sequences and maps, proved
against functions on values; the properties are then proved of those functions and of whole runs.
Files are byte sequences with a flushed prefix. Clocks, query outcomes, checkpoint write failures,
crash points and lost replies are parameters, so every statement covers all of them. The routing and sharding
hashes are parameters too. Every method guarded by a mutex is one atomic step; a send into the
backpressure channel, which holds no mutex, is four. Prices are whole
ticks, which is what comparing within an epsilon means on a price grid coarser than the epsilon.

Premises, each named in a `requires`:

- Sequences appended to a log increase, and payload lengths fit 32 bits; the index search and the
  record header rely on both. `Record.RoundTripIff` shows the second is necessary.
- A positive segment size. With size zero or less even an empty segment rolls.
- For agreement between gateways and ownership by distance, no two virtual nodes collide; lookups
  and minimal disruption need no such premise.
  `HashRing.HistoryIndependentIff` shows this is exactly when the ring forgets its history.
- Order book sequences are positive. A book at sequence 0 takes any increment, so an accepted 0
  would make it fresh again.

Where the code does not keep a promise, the exact condition is proved instead:
`Session.OrderedIffNoWrap` (uint64 wrap-around, `Session.WrapShows`), `HashRing.HistoryIndependentIff` (collisions),
`Replay.ReplayCompleteIff` (messages still in the writer's buffer), `Channel.AnySchedule` (drops seen
by two senders), `OrderBook.BookSide.ApplyLevel` (a full side), `WireEnvelope.RoundTripIff` (truncated lengths) and
`TopicRouter.RepeatedIff` (a repeated subscription is never paid back by unsubscribing,
`TopicRouter.RepeatLeaks`), `Channel.LosslessIff` (events lost), `Recovery.LiveStaysIff` (a live event
overwritten by an older buffered one).

## Model

| member | source | states |
|---|---|---|
| `Bytes.FromToLE` | internal/wal/writer.go:55-59 | a number written into k little-endian bytes reads back as itself modulo 256^k, so an oversized length is truncated exactly as a Go conversion would truncate it |
| `Bytes.ToLEAt` | internal/wal/writer.go:55-59 | byte i of a written number is its i-th digit to the base 256, least significant first |
| `Bytes.PutLE` | internal/wal/writer.go:55-59 | writing a fixed-width number in place changes those bytes and no others |
| `Checksum.WriteInPieces` | internal/wal/writer.go:60-69 | CRC-32 taken piece by piece (header, topic, payload) is the CRC-32 of the concatenation |
| `Checksum.PublishedValue` | internal/wal/writer.go:60-69 | the checksum is the standard CRC-32: that of the nine digits is the published CBF43926 |
| `Checksum.OneByteShows` | internal/wal/reader.go:94-104 | changing any one byte of any bytes changes their checksum |
| `Framing.TornTail` | internal/wal/reader.go:47-122 | for any record format that reads what it writes and rejects cut records: every byte prefix of a file of records reads as exactly the records wholly inside it, then a clean end on a boundary and a corrupted tail anywhere else |
| `Framing.ReadFromBoundary` | internal/wal/reader.go:47-122 | reading from the boundary of record j returns the records wholly inside the prefix from j on |
| `Record.HeaderFields` | internal/wal/writer.go:41-99 | sequence, timestamp and both lengths read back from an encoded header, whatever follows it |
| `Record.BodyBytes` | internal/wal/writer.go:41-99 | topic and payload follow the 22-byte header in that order, and the last four bytes are the checksum of everything before them |
| `Record.ParseWhole` | internal/wal/reader.go:47-122 | a whole record followed by anything decodes to the message (Type is not stored) and to its exact size |
| `Record.ParseCut` | internal/wal/reader.go:47-122 | every proper non-empty prefix of a record is reported as a corrupted tail |
| `Record.ParseDamaged` | internal/wal/reader.go:94-104 | a record with any one byte changed, outside its length fields, is reported as a corrupted tail, whatever follows it |
| `Record.RoundTripIff` | internal/wal/writer.go:41-99 | decoding undoes encoding if and only if the payload length fits 32 bits |
| `Record.LogPrefix` | internal/wal/reader.go:47-122 | torn tail for the log format: a prefix of a log yields exactly the messages wholly inside it |
| `Record.LogSuffix` | internal/wal/reader.go:47-122 | the same, read from the start of any record |
| `Record.LogDamaged` | internal/wal/reader.go:47-122 | a log with one such byte of record k changed reads as exactly the records before k, then a corrupted tail |
| `Record.RoundTripAll` | internal/wal/reader.go:47-122 | a complete log reads back as all its messages and ends cleanly |
| `LogFile.FillHeader` | internal/wal/writer.go:45-58 | the header bytes filled in field by field are the encoded header |
| `LogFile.ChecksumOf` | internal/wal/writer.go:60-69 | the running checksum is the CRC-32 of header, topic and payload |
| `LogFile.LogWriter.Write` | internal/wal/writer.go:25-39 | the fill, flush and direct-write loop of the 64 KB buffered writer: nothing more on file while the bytes fit the buffer; everything if it was empty or they overflow it twice; one full buffer more otherwise |
| `LogFile.LogWriter.Append` | internal/wal/writer.go:41-99 | an accepted message adds exactly its encoding and reports its size, and stays in the buffer while it fits; an oversized topic adds nothing |
| `LogFile.LogWriter.Sync` | internal/wal/writer.go:102-113 | after a sync everything written is on file |
| `LogFile.LogReader.ReadBody` | internal/wal/reader.go:64-82 | the body lands in the reused scratch buffer, which is replaced only when too small |
| `LogFile.LogReader.Next` | internal/wal/reader.go:47-122 | refines the parser: returns the next message as a window into the scratch buffer and advances past it, or reports end of file or a corrupted tail, for every file content |
| `IndexFile.EntryRoundTrip` | internal/wal/index.go:43-54 | a 16-byte index entry decodes to the sequence and offset it was made from |
| `IndexFile.IndexFile.Append` | internal/wal/index.go:43-54 | the file grows by sequence and offset, eight little-endian bytes each, and holds the old entries and then the new one |
| `IndexFile.IndexFile.Lookup` | internal/wal/index.go:57-106 | the binary search over file bytes returns the last entry not above the target, or the first entry if there is none such; an error exactly on an empty index |
| `Segment.IndexesAppend` | internal/wal/segment.go:61-85 | an append keeps every index entry pointing at the start of the record with its sequence, whether or not it adds one |
| `Segment.SeekRefinesScan` | internal/wal/segment.go:88-110 | for every target and every flushed prefix, seeking through the sparse index and then skipping smaller sequences yields the same messages as a scan from offset 0 |
| `Segment.Segment.Append` | internal/wal/segment.go:61-85 | file, index and size stay in step with the message list; an index entry is added for the first record and whenever the interval is reached, and else none; a refused message changes none of them; a record that fits the buffer does not reach the file |
| `Segment.Segment.ReadAt` | internal/wal/segment.go:88-110 | the reader opened at a sequence will return, from that sequence on, exactly the flushed messages of the segment |
| `Segment.Segment.Sync` | internal/wal/segment.go:136-141 | afterwards the file is the encoding of every message appended |
| `Layout.RemoveOldest` | internal/wal/manager.go:251-299 | dropping the oldest segments keeps the rest laid out and the log, dropped part included, unchanged |
| `Layout.RetentionIs` | internal/wal/manager.go:259-294 | retention removes as long as the records left are longer than the limit or the oldest segment is too old, and no longer: at the first segment kept neither holds, unless it is the active one |
| `Layout.StartSegment` | internal/wal/manager.go:137-175 | rolling adds an empty segment whose base bounds everything before it, and changes no message |
| `Layout.NoSilentGap` | internal/wal/manager.go:183-213 | the part of segment k from start on, then every later segment, is the whole visible log from start on: nothing a removed or skipped segment held is missing |
| `Layout.VisiblePrefix` | internal/wal/manager.go:216-220 | what readers can see is a prefix of what was appended |
| `Manager.SegmentManager.constructor` | internal/wal/manager.go:44-61 | a new log in an empty directory has one empty segment with base 0 |
| `Manager.SegmentManager.Roll` | internal/wal/manager.go:141-165 | the full segment is flushed and a new one becomes active; the log does not change |
| `Manager.SegmentManager.Append` | internal/wal/manager.go:137-175 | rolls exactly when the active segment has reached its size, then extends the last segment by the message, or by nothing if the topic is oversized; the log grows by the message accordingly |
| `Manager.SegmentManager.Sync` | internal/wal/manager.go:216-220 | afterwards every appended message is visible |
| `Manager.SegmentManager.EnforceRetention` | internal/wal/manager.go:251-299 | removes segments from the old end, each because the records from it on exceed the size limit or it is too old, up to the first for which neither holds or the active one; what was ever appended is unchanged |
| `Manager.SegmentManager.CountExpired` | internal/wal/manager.go:259-294 | how many that are: at the first segment kept neither the records from it on exceed the limit nor is it too old, unless it is the active one, and at every earlier one either holds |
| `Manager.SegmentManager.FindSegment` | internal/wal/manager.go:191-204 | the newest segment whose base does not exceed the start, or none exactly when the start is older than every base |
| `Manager.SegmentManager.NewReader` | internal/wal/manager.go:183-213 | refused exactly when the start lies before the oldest kept segment; otherwise the reader still has to return every visible message ever appended from the start on |
| `Manager.MultiSegmentReader.Next` | internal/wal/manager.go:309-357 | returns the first of the messages still to come and leaves the rest, across segment boundaries, or reports the end exactly when none is left |
| `LogRuns.RunThenRead` | internal/wal/manager.go:137-357 | no silent gap: after any run of appends, flushes and retention passes on an empty directory, a read is refused if and only if it starts below the oldest kept base, and otherwise returns every message ever accepted from the start on, once and in order |
| `LogRuns.Drain` | internal/wal/manager.go:309-357 | reading to the end returns exactly the messages the reader had left |
| `LogRuns.RunLayout` | internal/wal/manager.go:137-299 | what any run keeps: the removed messages lie below the oldest base and the kept ones do not, together they are exactly the accepted messages, and only the active segment can be empty |
| `LogRuns.RetainedIs` | internal/wal/manager.go:251-299 | after any run, a pass of retention leaves only the active segment, or a log within its limit whose oldest segment is not too old; before every segment it removed this was not so |
| `LogRuns.RefusedMeansRemoved` | internal/wal/manager.go:201-204 | a refused start concerns a non-empty removed prefix of the accepted messages, all below the oldest base, everything after it at or above |
| `Replay.UpToIsRange` | internal/replay/engine.go:77-109 | cutting an increasing stream at the first sequence beyond the end selects exactly the messages in the range |
| `Replay.InRangeHas` | internal/replay/engine.go:77-109 | the range holds exactly the messages with sequence between its ends, both included |
| `Replay.WalIterator.FastForward` | internal/replay/engine.go:34-69 | skips precisely the messages below the resume point and keeps the first one at or after it |
| `Replay.WalIterator.Next` | internal/replay/engine.go:77-109 | yields the pending messages up to the end sequence, in order, and then stops for good |
| `Replay.Start` | internal/replay/engine.go:34-69 | fails exactly when the log is too old for the resume point; otherwise the iterator has pending the visible log between resume point and end |
| `Replay.Collect` | internal/replay/service.go:50-71 | the copies show the pending messages, and no later read into the shared scratch buffer changes them |
| `Replay.Replay` | internal/replay/service.go:27-84 | the case split on an empty log, a resume point ahead of the log and a missing start; on success exactly the messages on file with sequence in [resumeFrom, current], the first being resumeFrom |
| `Replay.RangeCompleteIff` | internal/replay/service.go:27-84 | a prefix of an increasing log gives the whole of a range it reaches into if and only if the first message after the prefix lies beyond the range |
| `Replay.ReplayCompleteIff` | internal/replay/service.go:27-84 | a replay that succeeds returns every message of the log up to current if and only if the first message still in the buffer lies beyond current |
| `Replay.UnflushedReplay` | internal/wal/writer.go:25-39 | a concrete log of two messages with the second in the buffer: sequence 2 is current, and a replay from 1 succeeds with one message |
| `Session.Session.RunLoop` | internal/gateway/session.go:43-108 | the loop over any events equals the run of the state machine |
| `Session.Handover` | internal/gateway/session.go:43-108 | for every interleaving, the output is one filter run over replay, then buffer, then live stream, and nothing is sent before the replay is accepted |
| `Session.RefusedSendsNothing` | internal/gateway/session.go:78-83 | after a failed replay the client is refused and nothing is ever sent |
| `Session.DeliverIff` | internal/gateway/session.go:68-102 | for any streams, short of a wrap, a message is sent if and only if it is not below resumeFrom and beyond everything that came before it |
| `Session.OrderedIffNoWrap` | internal/gateway/session.go:68-102 | the output is strictly increasing from resumeFrom on if and only if nothing follows a delivered message with the largest uint64 sequence, after which the expected sequence wraps to 0 |
| `Session.WrapShows` | internal/gateway/session.go:68-102 | a delivered message with the largest sequence followed by one with sequence 0: both are sent, out of order |
| `Session.NoGapNoDuplicate` | internal/gateway/session.go:43-108 | a contiguous replay from resumeFrom and a contiguous live stream that overlaps or touches it give exactly resumeFrom, resumeFrom + 1, ... with no gap and no duplicate |
| `Session.GapFreeIff` | internal/gateway/session.go:43-108 | contiguous replay and live stream are sent without a gap if and only if the live stream is empty or starts no later than the replay ends |
| `Session.ReplayIsConsecutive` | internal/replay/service.go:27-84 | on a log without holes a replay from resumeFrom is the contiguous stream the handover needs |
| `Delivery.Connect` | internal/gateway/session.go:43-108 | a session on a log sends nothing if the replay is refused, and otherwise what the filter makes of the replayed range and the live stream |
| `Delivery.ReachesIffCovered` | internal/replay/service.go:27-84 | on a hole-free log an accepted replay reaches any sequence up to current if and only if the log is flushed that far |
| `Delivery.CoveredAccepts` | internal/replay/service.go:27-84 | a hole-free log accepts every resume point it has kept and flushed |
| `Delivery.SentIs` | internal/gateway/session.go:68-102 | the replayed range is sent, and then what the live stream has beyond it, the overlap once |
| `Delivery.OverlapSentOnce` | internal/gateway/session.go:68-102 | replaying 5, 6, 7 against a live stream 7, 8, 9 sends 7 once |
| `Delivery.RunAndConnect` | internal/gateway/session.go:43-108 | from appends to delivery: after any run, a client accepted on a hole-free log, with a hole-free live stream from any sequence, is sent the replayed range and what the live stream has beyond it; that is free of gaps if and only if the live stream is empty, starts by the resume point, or starts by current + 1 with the log flushed to just before its start; then, if both streams carry the same messages, it is every accepted message from the resume point on as far as it goes, and on a fully flushed log all of them |
| `Delivery.Serve` | internal/gateway/session.go:43-108 | the same for one client on any hole-free log, however it was written |
| `HashRing.OwnerUnique` | internal/routing/ring.go:77-98 | a key has at most one owner by clockwise distance |
| `HashRing.ItoaReads` | internal/routing/ring.go:43 | the decimal digits of a virtual node number read back as the number, without a leading zero |
| `HashRing.LabelInjective` | internal/routing/ring.go:43 | different virtual nodes have different labels, whatever the node names contain |
| `HashRing.CollisionsAreTheHash` | internal/routing/ring.go:41-48 | so virtual nodes share a point if and only if the hash maps two different labels to one value |
| `HashRing.AddMovesOnlyToNew` | internal/routing/ring.go:31-52 | for every hash and every ring, a join moves a lookup to the new node or not at all |
| `HashRing.RemoveMovesOnlyOwned` | internal/routing/ring.go:55-74 | for every hash and every ring, a departure moves only lookups that the departed node served |
| `HashRing.SortIs` | internal/routing/ring.go:51 | sorting gives an ascending permutation |
| `HashRing.JoinedLaid` | internal/routing/ring.go:31-52 | without collisions, a join leaves the key array strictly ascending and laying out exactly the points of the members |
| `HashRing.LeftLaid` | internal/routing/ring.go:55-74 | without collisions, so does a departure |
| `HashRing.LaidDetermined` | internal/routing/ring.go:31-74 | the member set alone determines the key array and every owner |
| `HashRing.SuccessorOwns` | internal/routing/ring.go:88-97 | the wrapped successor in the key array belongs to the owner by clockwise distance |
| `HashRing.NextOwns` | internal/routing/ring.go:88-97 | on a laid-out ring the next key clockwise belongs to the owner by clockwise distance |
| `HashRing.SameMembersSameRing` | internal/routing/ring.go:31-74 | two histories ending in the same members leave equal key arrays and owner maps |
| `HashRing.HistoryIndependentIff` | internal/routing/ring.go:31-74 | the ring is independent of its history if and only if no two virtual nodes of the possible members collide (members with non-empty names) |
| `HashRing.SharedPointShows` | internal/routing/ring.go:41-48 | a point shared by two nodes belongs to whichever joined last, so two orders of joining differ |
| `HashRing.RepeatedPointShows` | internal/routing/ring.go:65-73 | a point repeated within one node survives its departure: the second occurrence has no owner left by then |
| `HashRing.SearchKeys` | internal/routing/ring.go:88-90 | the binary search returns the first key not below the target |
| `HashRing.NextIff` | internal/routing/ring.go:88-95 | the next key clockwise is the least one not below the target or, if all are below it, the least of all |
| `HashRing.ConsistentHashRing.AddNode` | internal/routing/ring.go:31-52 | the in-place join is the join on values, for any hash: the hash of the node name, "#" and the number of each virtual node becomes a key owned by the node; a collision-free ring stays laid out |
| `HashRing.ConsistentHashRing.RemoveNode` | internal/routing/ring.go:55-74 | the in-place departure is the departure on values, for any hash; a collision-free ring stays laid out |
| `HashRing.ConsistentHashRing.Lookup` | internal/routing/ring.go:77-98 | always the owner entry of the next key clockwise, and empty on a ring without keys; on a collision-free ring the owner of the hashed key |
| `HashRing.ConsistentHashRing.LookupPartition` | internal/routing/ring.go:102-128 | the same for a partition, hashed from its four little-endian bytes |
| `HashRing.ConsistentHashRing.Apply` | internal/routing/ring.go:31-74 | any history on a new ring gives the ring of that history |
| `RoutingEngine.PartitionManager.PartitionFor` | internal/routing/partition.go:29-33 | the hash of the symbol reduced modulo the partition count |
| `RoutingEngine.PartitionManager.GatewayForPartition` | internal/routing/partition.go:36-47 | the override if there is one, otherwise the owner entry of the next key clockwise, for any ring |
| `RoutingEngine.PlacedServes` | internal/routing/partition.go:36-47 | without collisions that entry is the owner by clockwise distance |
| `RoutingEngine.PartitionManager.GatewayForSymbol` | internal/routing/partition.go:50-53 | the gateway of the symbol by override or ring |
| `RoutingEngine.RoutesUnique` | internal/routing/partition.go:36-53 | a symbol is routed to one gateway, collisions or not |
| `RoutingEngine.Engine.SyncTopology` | internal/routing/engine.go:69-98 | after every sync the ring holds exactly the online and leaving gateways of the listing, each with its last listed address; a collision-free ring stays laid out |
| `RoutingEngine.Engine.RedirectTarget` | internal/routing/engine.go:103-121 | serve locally, or the ws:// URI of the gateway the symbol is routed to |
| `RoutingEngine.SameRing` | internal/routing/engine.go:69-98 | gateways that last saw the same active set have equal rings, whatever their histories, unless points collide |
| `RoutingEngine.SameRoutes` | internal/routing/engine.go:69-121 | gateways with equal rings route every symbol alike |
| `RoutingEngine.NoRedirectLoop` | internal/routing/engine.go:103-121 | the gateway a client is redirected to, having the same view, serves the symbol locally |
| `RoutingEngine.RedirectedServesLocally` | internal/routing/engine.go:103-121 | with distinct addresses the same holds for whoever answers at the URI |
| `Checkpoints.CheckpointStore.Save` | internal/snapshot/snapshot.go:466-517 | the disk after a call that stops anywhere, and that it completes exactly when the write and the install succeed and the process survives every step |
| `Checkpoints.CallIsSafe` | internal/snapshot/snapshot.go:466-546 | wherever a call stops, loading returns what it did before or the new checkpoint in full, and the new one if the call completed |
| `Checkpoints.FallbackIff` | internal/snapshot/snapshot.go:489-546 | after a completed call, should the new file be damaged, the former checkpoint still loads if and only if it was rotated |
| `Checkpoints.NeverOlder` | internal/snapshot/snapshot.go:466-546 | after any later calls, each cut short anywhere, what loads is a completed checkpoint or a newer one |
| `Checkpoints.LoadedIsWhole` | internal/snapshot/snapshot.go:466-546 | what loads after any calls is the checkpoint of one of them in full |
| `Checkpoints.AnyCalls` | internal/snapshot/snapshot.go:466-546 | running any calls says truly which of them completed, and none that did is newer than what loads |
| `Recovery.OverlapHarmless` | internal/snapshot/snapshot.go:594-684 | replaying from the cursor over a snapshot that already contains part of it gives the snapshot of the whole log |
| `Recovery.LatestDetermined` | internal/snapshot/snapshot.go:594-684 | the last event per symbol is one map |
| `Recovery.LatestIff` | internal/snapshot/snapshot.go:594-684 | a snapshot of a log holds the event of the last readable row of every symbol, and no other symbol |
| `Recovery.OverlayIs` | internal/snapshot/snapshot.go:257-262 | applying buffered events leaves the last one of every symbol and other symbols as they were |
| `Recovery.LiveStaysIff` | internal/snapshot/snapshot.go:245-299 | under any interleaving of the drain with live events, the last live event of a symbol remains if and only if no other event last for that symbol was still in the buffer when it came |
| `Recovery.DrainRace` | internal/snapshot/snapshot.go:245-299 | one buffered event and a newer live one during the drain: the older one remains |
| `Recovery.OrderedIff` | internal/eventlog/postgres.go:402-449 | rows are ordered by time, and by id where the times are equal |
| `Recovery.SelectsAll` | internal/eventlog/postgres.go:402-449 | the zero cursor selects every row |
| `Recovery.SelectedIsSuffix` | internal/eventlog/postgres.go:402-449 | the rows after a cursor are a suffix of the ordered log |
| `Recovery.QueryEvents` | internal/eventlog/postgres.go:354-449 | a page is a prefix of the selected rows, says truly whether there are more, and then carries the cursor of its last row |
| `Recovery.EndsIff` | internal/snapshot/snapshot.go:620-673 | the replay succeeds if and only if no query it makes is cancelled or is one failure too many in a row |
| `Recovery.Service.Update` | internal/snapshot/snapshot.go:283-322 | a live event is applied, or buffered with the oldest evicted when the buffer is full |
| `Recovery.Service.StopBuffering` | internal/snapshot/snapshot.go:245-280 | the buffered events are applied in order of arrival: the last of every symbol remains and other symbols are as they were; the buffer ends empty |
| `Recovery.Service.OnePage` | internal/snapshot/snapshot.go:627-672 | one page applies exactly the next rows and moves the working and the stored cursor to its last row when more follow |
| `Recovery.Service.ReplayLog` | internal/snapshot/snapshot.go:606-673 | every row after the cursor is visited once; success and the number of queries are determined by their outcomes, the stored cursor ends within a page of the end, and a failure leaves the snapshot of the rows visited |
| `Recovery.Service.Recover` | internal/snapshot/snapshot.go:594-684 | from a checkpoint of any prefix that reaches its cursor, a recovery that ends normally has, for every symbol, the last of the newest events that arrived live before its last query, or else the last event of the whole log; a failed one is as far as it got, overlaid likewise |
| `Bits.NextPow2` | internal/backpressure/ring.go:185-197 | the least power of two not below n, by bit smearing, for n up to 2^32 |
| `Bits.SmearStep` | internal/backpressure/ring.go:190-194 | each shift-and-or doubles the run of leading ones |
| `Bits.MaskIsMod` | internal/backpressure/ring.go:85 | masking with a power of two minus one is the remainder |
| `Collections.NewestIs` | internal/backpressure/ring.go:85-100 | the newest n events counted from the end are the events themselves counted from the end |
| `Ring.SlotsApart` | internal/backpressure/ring.go:85-91 | the slot written next is free, or holds exactly the oldest unread event |
| `Ring.Ring.Push` | internal/backpressure/ring.go:67-100 | keeps the newest cap events of the old ones and the new one, counts an overwrite or an expired event as dropped, in place |
| `Ring.Ring.Pop` | internal/backpressure/ring.go:130-145 | takes the oldest event, or reports empty exactly when there is none |
| `Ring.Ring.Len` | internal/backpressure/ring.go:148-159 | the number of unread events |
| `Ring.AnyRun` | internal/backpressure/ring.go:48-159 | over any run, late pushes included, the buffer answers like a plain queue that keeps its newest events, its capacity the least power of two; it counts every push, and every eviction or refusal as dropped, and pushed = popped + evicted + unread |
| `DropWindow.SumIsWindow` | internal/backpressure/channel.go:52-96 | the buckets add up to the number of drops in the window |
| `DropWindow.WindowIs` | internal/backpressure/channel.go:52-96 | the window is the number of recorded drops whose second is one of the last ten |
| `DropWindow.LatestIs` | internal/backpressure/channel.go:64-87 | the window ends at the greatest reading so far, and a reading counts for the greatest one up to it |
| `DropWindow.BucketAfter` | internal/backpressure/channel.go:64-87 | advancing the clock clears exactly the buckets whose second has left the window |
| `DropWindow.DropBucketWindow.Record` | internal/backpressure/channel.go:64-87 | returns the number of drops, this one included, in the ten seconds ending at the latest clock reading |
| `DropWindow.DropBucketWindow.Reset` | internal/backpressure/channel.go:90-96 | an empty window |
| `DropWindow.AnyReadings` | internal/backpressure/channel.go:52-96 | for every sequence of clock readings and resets, readings going backwards too, each result counts the drops since the last reset whose second, clamped to the running maximum, lies in the window |
| `Channel.AnySchedule` | internal/backpressure/channel.go:128-163 | under every schedule of any number of senders the consumer sees an in-order part of the accepted events, and accepted and refused events are together exactly those received, queued, in hand, in the ring, dropped or lost, at most one being lost and only with the forwarder; when no send is under way the drop counter is the true number plus one for every other sender that was between its two reads at a drop, so it is exact if and only if there never was one |
| `Channel.LosslessIff` | internal/backpressure/channel.go:128-344 | under every schedule, what was accepted is exactly what is received, queued, in hand and in the ring, in that order, if and only if no push met a full ring, no stop an event in hand and no drain a full queue |
| `Channel.Forwards` | internal/backpressure/channel.go:248-268 | an idle forwarder moves the oldest k events of the ring to the end of the queue, in order, as far as there is room |
| `Channel.Drains` | internal/backpressure/channel.go:322-336 | the closing drain delivers, oldest first, what the queue has room for, counts the rest as dropped and then ends; if there is room for all, nothing is dropped |
| `Channel.StopsOnly` | internal/backpressure/channel.go:248-268 | the forwarder stops only once closed, and never empty-handed while events wait |
| `Channel.Closing` | internal/backpressure/channel.go:310-336 | closing stops the forwarder, loses the event in its hand and drains the ring |
| `Channel.ClosedAccepts` | internal/backpressure/channel.go:128-131 | a closed channel stays closed under every schedule, and accepts no further event once no send is under way |
| `Channel.StepKeeps` | internal/backpressure/channel.go:128-344 | every atomic step of every sender, the forwarder, the consumer and the closer keeps the order and the two balances |
| `Channel.PushCounts` | internal/backpressure/channel.go:145-163 | a push keeps the balance of the drop counter, with the drops open senders have yet to add |
| `Channel.OverlapsIff` | internal/backpressure/channel.go:145-163 | the surplus is zero if and only if no step drops an event while another sender is between its reads |
| `Channel.OneSenderExact` | internal/backpressure/channel.go:145-163 | a single sender counts every drop once |
| `Channel.TwoSendersCountTwice` | internal/backpressure/channel.go:145-163 | two senders that both read before either pushes into a full ring count two drops as four |
| `Channel.OneSendFills` | internal/backpressure/channel.go:145-163 | such a full ring is reached by one send |
| `Channel.Channel.Send` | internal/backpressure/channel.go:128-163 | a send nobody interrupts is accepted unless closed or expired, leaves the newest events in the ring, its own last, and counts its drop once |
| `Channel.Channel.PushEvent` | internal/backpressure/channel.go:145-163 | the push on the in-place ring is the push on values |
| `Channel.Channel.ReadAfter` | internal/backpressure/channel.go:148-157 | the second read adds the difference to the counter |
| `Channel.Channel.TakeFromRing` | internal/backpressure/channel.go:248-268 | the forwarder takes the oldest event in hand |
| `Channel.Channel.PassOn` | internal/backpressure/channel.go:248-268 | the event in hand goes to the end of the consumer queue when there is room |
| `Channel.Channel.Receive` | internal/backpressure/channel.go:271-276 | the consumer gets the head of the queue |
| `Channel.Channel.StopForwarder` | internal/backpressure/channel.go:248-268 | the forwarder returns with an empty ring or with the event in its hand, which is lost uncounted |
| `Channel.Channel.DrainOne` | internal/backpressure/channel.go:322-336 | each event left in the ring at close goes to the consumer queue if there is room and is counted as dropped otherwise, until the ring is found empty |
| `Channel.Channel.RunSchedule` | internal/backpressure/channel.go:128-344 | any schedule on the in-place channel does what it does on values |
| `OrderBook.BestIsUnique` | internal/orderbook/book.go:44-92 | the best n entries of a price map, best first, are one list only |
| `OrderBook.AfterIsBest` | internal/orderbook/book.go:44-92 | an update of the list is the same update of the price map, cut to the best 200 |
| `OrderBook.ToMapExact` | internal/orderbook/book.go:44-92 | a sorted side and the map of its levels hold the same prices and quantities |
| `OrderBook.PositionIsPoint` | internal/orderbook/book.go:50-62 | the insertion point has only better levels before it and none after it |
| `OrderBook.PriceOrder` | internal/orderbook/book.go:41-43 | a book in order has strictly falling bids and strictly rising asks, each at most 200 deep, and conversely |
| `OrderBook.AskUpdate` | internal/orderbook/book.go:44-92 | an ask update panics if and only if it sets a price above all 200 asks; otherwise the bids stay, its price ends with its size or, deleted or updated to nothing, with no level, and every other ask stays but one, which is above all 200 that remain |
| `OrderBook.BidUpdate` | internal/orderbook/book.go:44-92 | the same for a bid update, with the prices the other way round |
| `OrderBook.OtherUpdate` | internal/orderbook/book.go:28-33 | an update of neither side changes nothing |
| `OrderBook.BookSide.Search` | internal/orderbook/book.go:50-62 | the binary search finds that point on the in-place array |
| `OrderBook.BookSide.InsertAt` | internal/orderbook/book.go:70-81 | the shifted array is the list with the level inserted and, on a full side, the worst level gone |
| `OrderBook.BookSide.RemoveAt` | internal/orderbook/book.go:83-88 | the shifted array is the list without that level |
| `OrderBook.BookSide.ApplyLevel` | internal/orderbook/book.go:44-92 | panics if and only if a new price is worse than every level of a full side, and otherwise performs the update in place; the side stays strictly sorted and at most 200 deep |
| `OrderBook.SideAfter` | internal/orderbook/book.go:44-92 | an update that does not panic gives the best 200 entries of the updated price map |
| `OrderBook.Applied` | internal/orderbook/book.go:16-39 | an increment is rejected exactly when the book has a sequence and the increment is not the next one, as old exactly when it is not above it, and then nothing changes |
| `OrderBook.OrderBook.Apply` | internal/orderbook/book.go:16-39 | the in-place book does what the rule on values says, including what a panic leaves behind; bids fall and asks rise |
| `OrderBook.AnyStream` | internal/orderbook/book.go:16-39 | over every stream of positive sequences what is accepted is consecutive, sequence and timestamp are those of the last accepted, and the sides are what the accepted updates alone make of them, followed, after a panic, by the updates of that increment before the failing one |
| `OrderBook.PanicReachable` | internal/orderbook/book.go:74-81 | 201 falling bids on a fresh book panic |
| `WireEnvelope.ReadWritten` | internal/distribution/redisbus/wire_envelope.go:25-219 | any fields whose lengths fit are read back, whatever precedes and follows them |
| `WireEnvelope.ReadCut` | internal/distribution/redisbus/wire_envelope.go:113-219 | no strict prefix of written fields can be read |
| `WireEnvelope.HeadBytes` | internal/distribution/redisbus/wire_envelope.go:62-97 | the fields stand in their order on the wire, each with its width |
| `WireEnvelope.OneMoreEntry` | internal/distribution/redisbus/wire_envelope.go:98-108 | each trace entry is its key and then its value |
| `WireEnvelope.TraceOfEntries` | internal/distribution/redisbus/wire_envelope.go:98-108 | the entries written in any order rebuild the same trace context |
| `WireEnvelope.RoundTrip` | internal/distribution/redisbus/wire_envelope.go:25-219 | decoding undoes encoding for every order of the trace map and any trailing bytes; an envelope without trace entries leaves the receiver's trace context as it was |
| `WireEnvelope.RoundTripIff` | internal/distribution/redisbus/wire_envelope.go:25-219 | into a fresh envelope, decoding undoes encoding if and only if every length and the number of entries fit their prefixes |
| `WireEnvelope.PrefixRejected` | internal/distribution/redisbus/wire_envelope.go:113-219 | every strict prefix of an encoding is rejected |
| `WireEnvelope.DecodedFits` | internal/distribution/redisbus/wire_envelope.go:113-219 | whatever the bytes, a decoded envelope has only lengths that fit |
| `WireEnvelope.RoomOfOrders` | internal/distribution/redisbus/wire_envelope.go:49-60 | the size computed in one order of the map is the room needed in any other |
| `WireEnvelope.MarshalBinary` | internal/distribution/redisbus/wire_envelope.go:25-111 | the buffer is sized in one map order, filled in another, never overrun, and ends as the encoding |
| `WireEnvelope.Receiver.UnmarshalBinary` | internal/distribution/redisbus/wire_envelope.go:113-219 | accepts exactly the decodable bytes, never reads outside them, and then holds what they encode |
| `Sequencer.Redis.IncrBy` | internal/sequencer/redis_sequencer.go:57 | the counter after an answered or a lost INCRBY, exactly: it moves by the block unless the call was lost before it or would leave int64 |
| `Sequencer.RedisSequencer.Next` | internal/sequencer/redis_sequencer.go:45-69 | the next number of the block, or the first of a newly reserved one, or 0 with the block untouched |
| `Sequencer.ZeroIff` | internal/sequencer/redis_sequencer.go:45-69 | a call returns 0 if and only if its block is used up and the INCRBY is lost or would leave int64, in the state the call sees |
| `Sequencer.StepKeeps` | internal/sequencer/redis_sequencer.go:45-69 | one call by any sequencer keeps blocks within their counters and apart, and issued numbers unique per key and increasing per sequencer |
| `Sequencer.StepSpends` | internal/sequencer/redis_sequencer.go:45-69 | a number just issued is held by no sequencer any more |
| `Sequencer.AnyInterleaving` | internal/sequencer/redis_sequencer.go:45-69 | for any number of sequencers, any interleaving and any lost INCRBYs, on values: no nonzero number twice under a key, each sequencer's numbers for a symbol increase, and reserved blocks stay apart |
| `Sequencer.Interleaved` | internal/sequencer/redis_sequencer.go:45-69 | the sequencers themselves return what the run on values does, call by call, so the numbers are unique and increasing, and each 0 is explained by the state its call saw |
| `TopicRouter.PutKeeps` | internal/topicmanager/router.go:145-164 | replacing one symbol's state keeps shard counters and the total equal to the number of set flags, and every other symbol as it was |
| `TopicRouter.AlternatePerSymbol` | internal/topicmanager/router.go:213-229 | two consecutive callbacks for a symbol are never the same change |
| `TopicRouter.MergeIs` | internal/topicmanager/router.go:174-189 | merging adds the new topics and keeps the list free of repeats |
| `TopicRouter.DistributedRouter.AddLocal` | internal/topicmanager/router.go:194-211 | one subscriber more; a first one sets the flag and asks for a callback |
| `TopicRouter.DistributedRouter.DropLocal` | internal/topicmanager/router.go:314-338 | one subscriber fewer, never below zero; the last one clears the flag and asks for a callback |
| `TopicRouter.DistributedRouter.Subscribe` | internal/topicmanager/router.go:169-220 | the invariants are kept; counts grow by the topics named, and exceed the trackers further by exactly the repeats in the call |
| `TopicRouter.DistributedRouter.Unsubscribe` | internal/topicmanager/router.go:304-348 | the invariants are kept; each topic of the id loses one, and no count drifts from its trackers |
| `TopicRouter.DistributedRouter.Reconcile` | internal/topicmanager/router.go:385-417 | from any flags whatever, every flag ends agreeing with its demand and callbacks go only to those that did not; from a reachable state nothing is fired and nothing changes |
| `TopicRouter.RepeatedIff` | internal/topicmanager/router.go:169-220 | a run has no surplus for a topic if and only if no id ever repeated it |
| `TopicRouter.RepeatLeaks` | internal/topicmanager/router.go:169-348 | one subscription naming a topic twice, then the unsubscription: nobody tracks the topic, its count is 1 and its channel stays subscribed |
| `TopicRouter.AnyRun` | internal/topicmanager/router.go:169-417 | every reachable router has its flags equal to its demand, its counters equal to its set flags and its callbacks alternating, and counts for each topic its trackers plus the repeats of the run |

## Left out

- WireEnvelope.Receiver.UnmarshalBinary: does not say which fields a rejected message has already overwritten; the subscriber discards the envelope on error.
- Bits.NextPow2: stops at 2^32, because five shifts do not smear longer numbers.
- LogFile.LogWriter.Append: write errors of the file are absent, so an append fails only for its topic.
- LogFile.LogWriter.Sync: flush and fsync errors are absent.
- Segment.Segment.Append: asks for increasing sequences and payloads below 4 GiB, which the index search and the record header need.
- Manager.SegmentManager.Append: asks for the same.
- Manager.SegmentManager.constructor: asks for a positive segment size.
- Recovery.Service.StopBuffering: drains as one step; `Recovery.LiveStaysIff` says what live events applied meanwhile come to, and an event buffered by an update that had read the flag before it was cleared is not captured.
- Session.Session.RunLoop: the outgoing channel is unbounded here, so a slow client that stalls the loop, and cancellation, are not captured.
- TopicRouter.DistributedRouter.Subscribe: counts are unbounded integers (the source's are 32-bit), the operation is one atomic step, and the hand-over to the local topic manager is absent.
- Channel.Channel.Send: drop-newest, disconnect thresholds and consecutive-drop counting are absent; nothing reads the drop counter, so its addition is one step with the second read.
- Reopening a log directory: recovery of segments, index truncation and the offsets taken behind a buffered reader are not modelled; runs start from an empty directory.
- Retention or appends while a multi-segment reader is open: the reader's segment index is not adjusted when segments are removed.
- The FNV-1a and 64-bit string hashes themselves: any hash is allowed.
- The WAL-based recoverer, which replays through the bounded live buffer.
- The lock-free topic lists of the in-memory topic manager, at instruction level.
- The in-memory sequencer, whose numbering restarts on eviction, and resets of the Redis sequencer.
- The pre-encoded twins of ring and channel, which repeat the same logic for cached events.
- JSON, Protobuf and FlatBuffers serializers, SQL beyond an ordered page after a cursor, and Redis itself beyond its counter.
- Time zones of envelope timestamps, and timestamps outside the range of int64 nanoseconds.
- Floating-point analytics, metrics, logging, tracing, configuration, health checks, HTTP and websocket handling, adapters and the client library.
