# jocko, verified

jocko is a Kafka-compatible broker written in Go. This project models the four parts of it that
hold state or transform bytes, and proves what they promise for every input and every run:

* **The commit log** (`commitlog/`). A log is a list of segments, each a file of message sets and
  an index of fixed-width entries. Appending stamps offsets, rolls segments and runs retention;
  reading searches a segment, then its index, and reads on across files. The classes `Index`,
  `Segment`, `CommitLog`, `Reader`, `DeleteCleaner` and `CompactCleaner` update their fields as
  the Go code does, and are tied to one flat append-only list of sets.
* **The wire codec** (`protocol/`). A message type is a program of put operations in which
  reserved size and checksum fields nest. One pass measures, one writes and back-fills, and a
  cursor decoder undoes it. Facts are proved for every program and then used for real messages.
  The layout is that of the Apache Kafka protocol guide, sections "Protocol Primitive Types" and
  "Common Request and Response Structure".
* **The Raft-applied store** (`jocko/fsm/`). Commands upsert and delete rows that carry create and
  modify indexes; a secondary index on partition leaders is scanned by prefix.
* **Placement, failover and leadership** (`jocko/broker.go`, `jocko/leader.go`). Replicas are
  placed on a ring of brokers, the partitions of a failed broker are reassigned, and the leader
  loop decides when this broker may serve consistent reads.

Files and the network are byte sequences held in memory. `rand.Intn`, the iteration order of Go
maps and the interleaving of goroutines are arbitrary choices. CRC-32, xxhash and lower-casing are
function parameters about which nothing is assumed (the checksum fits 32 bits; the results on keys
ask for a hash without collisions). Panics are result values (`Panic`, `Panics`, `NoBrokers`,
`Panicked`, `None` where the comment says so, `ok == false`) or, where the code can never reach
them, excluded by proof. Ghost parameters such as `want` and `tail` only name what the input
is compared with; they carry no data.

Some promises of the code turn out false as written. Each is stated with the exact condition under
which it does hold:

* `MessageSet.Messages` overwrites its offset instead of adding to it: `MessagesRead`,
  `MessagesExact`. Compaction can therefore lose keys that share a set: `SurvivalExact`, `CleanLog`,
  `HiddenKeyLost`.
* A null key makes the view read the value's length one byte early, which makes compaction panic:
  `ViewSize`, `StoredMessageView`, `SingleMessageSet`. A negative magic byte misplaces the key:
  `KeyReadAlways`, `NegativeMagicMisread`.
* A timestamp outside 64 bits of nanoseconds, such as one never set, is not carried:
  `CarriedExact`, `ZeroTimeLost`.
* `findEntry` searches through a cell that keeps its old value past the written slots, and can
  report a written offset as missing: `FindEntry`, `ThresholdBounds`, `FirstHalfFound`,
  `SecondHalfLost`, `SmallSegmentsFound`. Its documentation says it returns the nearest entry at or
  above the offset; the code returns one at or below it.
* An index that is full makes `Append` panic between the file and the index: `Append`, `RoomAlways`.
* `Truncate` above the base of the active segment leaves a log without it: `Truncate`.
* After a failover the new leader need not be one of the partition's replicas:
  `NewLeaderIsReplica`, `SoleReplicaLost`. Nodes are registered without their id, so nobody can
  take over from broker 0: `NoCandidatesForZero`.
* A broker that comes back under another address is listed twice: `AddBroker`.
* At replication factor -32768 the loop's 16-bit bound wraps: `ReplicasExact`, `PlacedApart`.
* The encoders accept arrays that the decoders refuse: `RoundTrip` in each codec.
* Creating a topic without a name reports success and stores nothing: `CreateTopic`.

## Model

| member | source | states |
|---|---|---|
| Bytes.GetPut | protocol/encoder.go:180-198 | reading a signed big-endian integer of any width gives back the value that was written |
| Bytes.PutGet | protocol/decoder.go:75-105 | writing what was read gives the same bytes, for every byte string |
| MessageView.SizeOfWellFormed | commitlog/message_set.go:31-33 | the declared size plus the header, in 32-bit arithmetic, is the real length of a well-formed set |
| MessageView.Stamped | commitlog/message_set.go:23-29 | stamping an offset keeps length, payload and whether the set is well formed, and the offset reads back |
| MessageView.NewMessageSet | commitlog/message_set.go:11-21 | the set holds the messages byte for byte behind their size and an offset that reads back as its signed 64 bits |
| MessageView.ViewKey | commitlog/message.go:28-34 | the key read through the view is the key that was laid out, null and empty alike, whatever follows the message |
| MessageView.ViewSizeNull | commitlog/message.go:62-79 | with a null key the value's length is read one byte early, and then is far below zero unless the value is null |
| MessageView.ViewSize | commitlog/message.go:44-79 | the computed size is the message's size if and only if the key is present or the value is null, and the magic byte is not negative; a value without a key makes it negative |
| MessageView.Messages | commitlog/message_set.go:39-52 | the loop gives the messages that MessagesOf describes from any point of it, including where it would panic |
| MessageView.MessagesRead | commitlog/message_set.go:39-52 | what the loop reads of any list of messages, sized right or negative: the ones before its stop, or a panic where it does not stop |
| MessageView.StopWhere | commitlog/message_set.go:39-52 | it stops after the first message whose doubled size reaches the payload's size, in 32-bit arithmetic, if every message up to there is sized right |
| MessageView.MessagesExact | commitlog/message_set.go:39-52 | for every list of messages: the ones read are the ones stored if and only if twice the last one's size reaches the payload's size and twice no earlier one's does, in 32-bit arithmetic |
| MessageView.ReadWholeBelow | commitlog/message_set.go:39-52 | below a gigabyte that says that the last message fills at least half of the payload and every earlier one less than half |
| MessageView.SingleMessage | commitlog/message_set.go:39-52 | a set of one message gives back that message below a gigabyte, and panics from there on |
| MessageView.SecondUnread | commitlog/message_set.go:39-52 | of two equally long messages only the first is read |
| MessageBridge.EncodedShape | protocol/message.go:14-29 | an encoded message with a non-negative magic byte has the layout that the commit log's view expects |
| MessageBridge.StoredMessageView | commitlog/message.go:28-79 | of an encoded message with a non-negative magic byte the commit log reads the key that was sent, and its size if and only if the key is present or the value null |
| MessageBridge.NegativeMagicMisread | commitlog/message.go:62-71 | with a negative magic byte the view skips a timestamp that was not written: of a message without a value it never reads the key sent |
| MessageBridge.KeyReadAlways | commitlog/message.go:28-34 | the commit log reads the key sent, whatever the value and whatever follows, if and only if the magic byte is not negative |
| MessageBridge.StoredShape | protocol/message_set.go:10-20 | an encoded set is a header with its offset and the encoded messages one after the other |
| MessageBridge.StopHashes | commitlog/compact_cleaner.go:32-35 | the cleaner gets through an encoded set if and only if the reading of it stops, and then takes exactly the keys sent before the stop |
| MessageBridge.SingleMessageSet | commitlog/compact_cleaner.go:32-35 | the cleaner gets through an encoded set of one message if and only if its key is present or its value null, and it is below a gigabyte; otherwise it panics |
| MessageBridge.StampStored | commitlog/commitlog.go:142-144 | appending an encoded set gives the encoding of the same messages at the new offset |
| SegmentIndex.RoundDown | commitlog/util.go:20-22 | the result is the largest multiple that does not exceed the total |
| SegmentIndex.EncodeDecode | commitlog/index.go:48-58 | a relative entry survives being written and read |
| SegmentIndex.EntryBytes | commitlog/index.go:48-53 | an entry is written as the low 32 bits of its relative offset, then those of its position |
| SegmentIndex.NarrowingExact | commitlog/index.go:48-58 | an entry survives the narrowing to 32 bits if and only if offset and position are within range of the base |
| SegmentIndex.Index.constructor | commitlog/index.go:66-95 | the map has the default or the given size, rounded down to whole entries, and holds none |
| SegmentIndex.Index.WriteAt | commitlog/index.go:150-154 | exactly the eight bytes at the offset are replaced; a panic exactly past the map |
| SegmentIndex.Index.WriteEntry | commitlog/index.go:97-108 | one entry is added, as eight bytes with its relative offset and position narrowed to 32 bits, and no earlier entry changes; a panic exactly if the map is full |
| SegmentIndex.Index.ReadAt | commitlog/index.go:136-144 | EOF exactly past the written position, and otherwise the bytes of the map |
| SegmentIndex.Index.ReadEntryAtLogOffset | commitlog/index.go:113-134 | the cell is filled from a written slot and keeps its old value at EOF |
| SegmentIndex.IndexScanner.Scan | commitlog/index.go:222-232 | the next entry, or the end at the last slot or at a zero offset past the first |
| Segments.Segment.constructor | commitlog/segment.go:37-58 | a fresh segment is empty, and file, index and offsets agree |
| Segments.Segment.Write | commitlog/segment.go:149-159 | the file grows by the set, and position and next offset stay in step with the sets written |
| Segments.Segment.ReadAt | commitlog/segment.go:167-171 | the bytes of the file from the offset, fewer than asked exactly at its end |
| Segments.Segment.ReadSet | commitlog/segment.go:261-273 | header and payload read at a set's position are that set, byte for byte |
| Segments.Segment.Search | commitlog/segment.go:216-221 | the binary search over all slots, through one reused cell, keeps its search invariant to the end |
| Segments.Segment.FindEntry | commitlog/segment.go:213-227 | exactly which entry comes back: the one asked for up to a threshold that depends only on the slots and how many are written, past it the entry at the threshold, or none if more than half of the slots are written |
| Segments.Probe | commitlog/segment.go:218-221 | one probe, with a fresh or a stale cell, keeps the search invariant on both sides |
| Segments.SearchEnds | commitlog/segment.go:218-225 | where the search ends: at the slot chosen, or past the written slots with the stale cell at the slot chosen, or off the end exactly when missed |
| Segments.ThresholdBounds | commitlog/segment.go:213-227 | the threshold is a written slot, in the middle of the written ones or past it |
| Segments.ChosenBounds | commitlog/segment.go:213-227 | the entry returned is never past the one asked for, and before it only at the threshold, past the middle of the written ones (or for offset 1 at base 0) |
| Segments.FirstHalfFound | commitlog/segment.go:213-227 | every slot of the first half of the index is found, however many are written |
| Segments.SecondHalfLost | commitlog/segment.go:213-227 | until the second probe is written, a slot is missed if and only if it is past the first half |
| Segments.SegmentScanner.Scan | commitlog/segment.go:254-274 | scanning yields exactly the sets of the segment in order, byte for byte, then EOF; the zero-offset rule never cuts it short |
| LogSpec.CutIsLongest | commitlog/delete_cleaner.go:22-50 | retention keeps the longest suffix that fits the budget, or the last segment alone |
| LogSpec.LongestFitUnique | commitlog/delete_cleaner.go:22-50 | only one suffix is the longest that fits |
| LogSpec.Clean | commitlog/delete_cleaner.go:22-50 | the newest segment always survives cleaning |
| LogSpec.CleanExact | commitlog/delete_cleaner.go:22-50 | what cleaning keeps is exactly the longest suffix that fits the limit, or the newest segment alone; with a limit of -1 everything |
| LogSpec.RollInv | commitlog/commitlog.go:223-239 | splitting and cleaning keep the log a contiguous stretch of the flat list up to its end |
| LogSpec.AppendInv | commitlog/commitlog.go:135-156 | one append keeps the invariant, with the flat list grown by the stamped set |
| LogSpec.AppendShape | commitlog/commitlog.go:135-239 | what an append leaves is a suffix of the segments, the new one included, of which only the active one changes |
| LogSpec.AppendDrops | commitlog/commitlog.go:135-239 | an append drops a segment if and only if it starts a new one, retention is on, and the log from that segment on exceeds the limit |
| LogSpec.TruncateShape | commitlog/commitlog.go:196-211 | truncation drops a prefix; the rest keeps the invariant, and is non-empty if and only if the offset is at most the active base |
| LogSpec.Run | commitlog/commitlog.go:135-239 | after every run of appends and truncations the log is a contiguous stretch of everything appended, up to its end |
| LogSpec.RunRefinesFlat | commitlog/commitlog.go:135-239 | in every run the live sets are exactly the appended ones from the oldest offset on, bases increase strictly, each segment ends where the next begins, and each set is stamped with its offset |
| LogSpec.AppendedFormed | commitlog/commitlog.go:135-156 | what was appended well formed is stored well formed |
| LogSpec.RunStorageBound | commitlog/commitlog.go:219-239 | with retention on, no run holds more than the limit plus one segment plus one set, less a byte |
| LogSpec.RunKeepsRecent | commitlog/commitlog.go:135-239 | no run of appends loses a set that retention has room for: what lies within the limit, less one segment, of the newest byte is live |
| LogSpec.SegmentRoom | commitlog/segment.go:141-159 | a segment never holds more sets than 12-byte headers fit in its size |
| Segments.Segment.Slot | commitlog/index.go:48-58 | slot k of the index gives back offset and position of set k unnarrowed, if it starts below 2^31 |
| CommitLogs.SegmentIsReadable | commitlog/segment.go:149-159 | in every log each set carries its offset and starts below the segment size, so within reach of a 32-bit position for segments of at most 2^31 bytes |
| CommitLogs.DeleteCleaner.Retain | commitlog/delete_cleaner.go:26-39 | the backward scan stops exactly at the longest fitting suffix |
| CommitLogs.DeleteCleaner.Clean | commitlog/delete_cleaner.go:22-50 | keeps the longest suffix that fits the retention size, or the newest segment alone, and everything without a limit; exactly the complementary prefix is deleted, newest first |
| CommitLogs.DeleteCleaner.Delete | commitlog/delete_cleaner.go:40-47 | the segments before the kept ones are deleted from the newest to the oldest |
| CommitLogs.WriteSet | commitlog/commitlog.go:145-154 | after the file and the index are written, slot k still holds offset and position of set k, for all k; with a full index it panics after the file was written, and the two disagree |
| CommitLogs.CommitLog.constructor | commitlog/commitlog.go:49-85 | a log in an empty directory is the empty run |
| CommitLogs.CommitLog.Split | commitlog/commitlog.go:223-239 | the objects refine the abstract roll, and the new active segment is fresh and never dropped |
| CommitLogs.CommitLog.Append | commitlog/commitlog.go:135-156 | for any set with a header: returns the old newest offset, stamps the caller's buffer with it, adds exactly that set to the flat list, and refines the abstract append; if the active segment is not full and all its index slots are taken, exactly then, it panics and leaves a log that is not valid |
| CommitLogs.CommitLog.RoomAlways | commitlog/index.go:97-108 | with segments of at most 12 bytes per index slot, every append finds room in the index |
| CommitLogs.CommitLog.NewestOffset | commitlog/commitlog.go:164-166 | the number of sets ever appended |
| CommitLogs.CommitLog.OldestOffset | commitlog/commitlog.go:168-172 | the offset from which the flat list is live |
| CommitLogs.CommitLog.Truncate | commitlog/commitlog.go:196-211 | drops the segments that begin below the offset; the log stays valid if and only if the offset is at most the active base |
| CommitLogs.Stamp | commitlog/message_set.go:27-29 | the buffer is stamped in place |
| Readers.StreamAtSet | commitlog/reader.go:47-68 | from a set boundary the stream is the flat list from that offset on: no gap, no duplicate |
| Readers.StreamGrows | commitlog/reader.go:17-45 | an append that drops no segment extends what a reader still has to deliver by exactly the stamped set |
| Readers.Reader.Fill | commitlog/reader.go:26-28 | one read from a file delivers the next stretch of the stream and leaves the rest of the buffer alone |
| Readers.Reader.Read | commitlog/reader.go:17-45 | each call delivers the next min(len, remaining) bytes of the concatenated files, and EOF exactly when it delivers fewer than asked; it terminates |
| Readers.FindSegment | commitlog/util.go:9-18 | the pure search is exact: the first segment whose next offset lies past the offset |
| Readers.PicksContaining | commitlog/reader.go:47-58 | for a live offset the segment picked is the one segment that contains it |
| Readers.PicksOldest | commitlog/reader.go:47-58 | for an offset at or below the oldest one, 0 and negative ones included, the oldest segment is picked and its first set found |
| Readers.Locate | commitlog/reader.go:59-67 | the position of the set that the index search chooses, as 32 bits keep it, or nothing exactly when the search misses |
| Readers.NewReader | commitlog/reader.go:47-68 | segment-not-found exactly at and past the newest offset (other than 0); entry-not-found only on a miss, and never at or below the oldest offset; for a live offset the reader is in the segment that contains it, at its set or, past the middle of the segment, before it; otherwise at the oldest set; for segments of at most 2^31 bytes it delivers exactly the flat list from there on |
| Readers.OpenedDelivers | commitlog/reader.go:47-68 | at which offset the stream starts: at the one asked for up to the threshold (one early for offset 1 at base 0), past it at the threshold, in the second half of the segment |
| Readers.SmallSegmentsFound | commitlog/reader.go:47-68 | with segments of at most 12 bytes for every second index slot, every offset that falls in a segment can be opened |
| Compaction.CompactPreservesLookup | commitlog/compact_cleaner.go:18-72 | every key hash has the same last set before and after compaction |
| Compaction.CompactIsSubsequence | commitlog/compact_cleaner.go:40-69 | the kept sets are old sets in the old order, byte for byte |
| Compaction.CompactExact | commitlog/compact_cleaner.go:18-72 | a set is kept if and only if one of its key hashes is in no later set |
| Compaction.CompactIdempotent | commitlog/compact_cleaner.go:18-72 | compacting again drops nothing |
| Compaction.CompactSplit | commitlog/compact_cleaner.go:40-69 | compacting segment by segment against what follows is compacting the whole log |
| Compaction.NoteAt | commitlog/compact_cleaner.go:27-37 | after the first pass a hash maps to the offset of its last set, whatever the map held before |
| Compaction.RetainedIsCurrent | commitlog/compact_cleaner.go:49-55 | the test on the map retains a set if and only if one of its keys has no later value |
| Compaction.CompactCleaner.NoteMessages | commitlog/compact_cleaner.go:32-35 | every key hash of the set is mapped to the set's offset and no other entry changes; a panic exactly if the set does not parse |
| Compaction.CompactCleaner.Retains | commitlog/compact_cleaner.go:49-55 | true exactly when some message of the set is at or past its key's latest offset; a panic exactly if the set does not parse |
| Compaction.CompactCleaner.NoteSegment | commitlog/compact_cleaner.go:28-37 | one segment is noted set by set, up to the first that does not parse |
| Compaction.CompactCleaner.NoteAll | commitlog/compact_cleaner.go:27-37 | all segments are noted, or the pass panics, exactly if some set does not parse |
| Compaction.CompactCleaner.KeepSegment | commitlog/compact_cleaner.go:40-62 | the bytes written for a segment are its compaction against everything after it |
| Compaction.CompactCleaner.Clean | commitlog/compact_cleaner.go:18-72 | panics exactly if some set does not parse; otherwise each cleaned file is its segment's compaction, all of them together the compaction of the whole log |
| Compaction.LiveIncreasing | commitlog/compact_cleaner.go:18-72 | the sets of any commit log come in increasing offsets, as the cleaner needs |
| StoredKeys.SurvivalExact | commitlog/compact_cleaner.go:18-72 | keeping the sets that are seen to be needed keeps every key's last value, where it was, if and only if every set that holds one is seen to |
| StoredKeys.CompactIsKept | commitlog/compact_cleaner.go:18-80 | with a collision-free hash, compacting any log of encoded sets that can be read leaves exactly the sets needed for the last value of some key that is read, byte for byte |
| StoredKeys.CleanLog | commitlog/compact_cleaner.go:18-80 | cleaning a valid commit log of encoded messages: a panic exactly if reading some set does not stop; otherwise the files hold the sets kept, and every key sent keeps its last value if and only if each set that holds one is seen to |
| StoredKeys.LastValuesSurvive | commitlog/compact_cleaner.go:18-80 | in particular nothing is lost of a log in which every set is read as it was sent |
| StoredKeys.SinglesReadBack | commitlog/message_set.go:39-52 | sets of one message are read as sent if and only if each has a key or no value and is below a gigabyte |
| StoredKeys.HiddenKeyLost | commitlog/compact_cleaner.go:18-72 | an input on which a key is lost: the second of two equally long messages goes when the first one's key gets a new value |
| Wire.LayTail | protocol/encoder.go:52-157 | what a program writes does not depend on what follows it, and its length is its measured size |
| Wire.WholeMillis | protocol/message.go:18-20 | less than a millisecond is lost, toward zero |
| Wire.MillisNear | protocol/fetch_response.go:112-116 | of a duration whose milliseconds fit 32 bits less than a millisecond is lost, toward zero |
| Wire.AllChecksPass | protocol/size_field.go:17-28 | in every encoded program, wherever it lies in a buffer, every size and checksum field passes its check, at every nesting |
| Wire.FrameChecks | protocol/crc_field.go:20-32 | a filled field passes its check whatever precedes and follows the frame |
| Encoders.LenEncoder.Run | protocol/encoder.go:52-157 | the measuring pass accepts exactly the programs within the limits and measures their layout |
| Encoders.LenEncoder.PutString | protocol/encoder.go:103-110 | a string is accepted up to 32767 bytes |
| Encoders.ByteEncoder.PutBool | protocol/encoder.go:173-178 | false is right without being written, since bytes from the cursor on are zero |
| Encoders.ByteEncoder.Put | protocol/encoder.go:173-270 | each put appends exactly its bytes, never out of bounds, and leaves the bytes after the cursor zero |
| Encoders.ByteEncoder.Push | protocol/encoder.go:272-276 | four zero bytes are reserved and remembered |
| Encoders.ByteEncoder.Pop | protocol/encoder.go:278-283 | the innermost field is filled from the bytes since its Push and nothing else changes |
| Encoders.ByteEncoder.Run | protocol/encoder.go:159-283 | running any program in a zeroed buffer of its measured size writes exactly its layout and ends at the measured length |
| Encoders.Encode | protocol/encoder.go:35-50 | the two passes give the layout of the program, or an error exactly when a put exceeds its limit, also if the passes visit maps in different orders |
| Decoders.ByteDecoder.Int8 | protocol/decoder.go:75-79 | reads one byte, panics exactly at the end, and undoes the put |
| Decoders.ByteDecoder.Int16 | protocol/decoder.go:81-85 | reads two bytes, panics exactly when fewer are left, and undoes the put |
| Decoders.ByteDecoder.Int | protocol/decoder.go:87-105 | a guarded read of 4 or 8 bytes; on too few it reports insufficient data and moves to the end |
| Decoders.ByteDecoder.Bool | protocol/decoder.go:67-73 | true exactly for the byte 1, and undoes the put |
| Decoders.ByteDecoder.ArrayLength | protocol/decoder.go:107-121 | accepts a count exactly if it is at most the bytes left and 131070, with the right error otherwise; a longer array that was put is refused |
| Decoders.ByteDecoder.Blob | protocol/decoder.go:125-149 | on any input the result written again is what was read, each error has its condition, a cut blob is insufficient data, and reading undoes the put |
| Decoders.ByteDecoder.String | protocol/decoder.go:151-175 | the same for strings, where a length of -1 also reads as empty |
| Decoders.ByteDecoder.NullableString | protocol/decoder.go:177-201 | the same for nullable strings, null and empty kept apart |
| Decoders.ByteDecoder.Push | protocol/decoder.go:288-298 | skips and remembers the reserved field, or reports insufficient data |
| Decoders.ByteDecoder.Pop | protocol/decoder.go:300-304 | succeeds if and only if the field holds the number of bytes since its Push, in 32 bits, or their checksum; otherwise the error names which of the two is wrong |
| Decoders.BlobUndone | protocol/decoder.go:125-149 | a blob can be read in one way only: what was put, or insufficient data if cut |
| Decoders.BlobReadExact | protocol/decoder.go:125-149 | the result of reading a blob on any input, by the length that its first four bytes show |
| Decoders.StringUndone | protocol/decoder.go:151-175 | a string that was put can be read in one way only |
| Decoders.StringReadExact | protocol/decoder.go:151-175 | the result of reading a string on any input, by the length that its first two bytes show: none for 0 and -1 |
| Decoders.NullableUndone | protocol/decoder.go:177-201 | a nullable string that was put can be read in one way only |
| Decoders.NullableReadExact | protocol/decoder.go:177-201 | the result of reading a nullable string on any input, by the length that its first two bytes show |
| ArrayReaders.IntArray | protocol/decoder.go:203-259 | on any input the array written again is what was read; it fails exactly when the bytes are too few; and it undoes the put |
| ArrayReaders.Reread | protocol/decoder.go:203-259 | the array that was put is the only one that can be read |
| ArrayReaders.StringArray | protocol/decoder.go:261-286 | on any input as many strings as the count says, read one after the other, or the error of the first that cannot be read; and it undoes the put |
| ProtocolMessages.CarriedExact | protocol/message.go:14-56 | a message loses nothing if and only if its timestamp is in whole milliseconds whose nanoseconds fit 64 bits, or is neither set nor sent |
| ProtocolMessages.ZeroTimeLost | protocol/message.go:18-20 | a timestamp that is not set but sent comes back as an instant in 1754 |
| ProtocolMessages.MessageLayout | protocol/message.go:14-29 | an encoded message is the checksum of what follows, magic byte, attributes, milliseconds if the magic byte is positive, key and value |
| ProtocolMessages.DecodeHead | protocol/message.go:36-41 | magic byte and attributes, or a panic if fewer than two bytes are left |
| ProtocolMessages.DecodeBody | protocol/message.go:31-56 | the fields after the checksum, also when the bytes are cut short anywhere |
| ProtocolMessages.DecodeMessage | protocol/message.go:31-56 | a whole message decodes whatever follows it; a cut one is insufficient data, except that tails of 4 and 5 bytes panic; a whole body behind other four bytes than its checksum is refused as such, and no input at all is accepted behind another checksum than that of the bytes taken |
| ProtocolMessages.DecodeMessages | protocol/message_set.go:30-42 | on whole messages and then the beginning of another or a spoilt one: exactly the whole ones, flagged partial; a panic for 4 and 5 bytes; a checksum error for a spoilt one |
| ProtocolMessages.CutSplits | protocol/message_set.go:30-42 | a payload cut anywhere is whole messages and the beginning of the next |
| ProtocolMessages.WholeExact | protocol/message_set.go:30-42 | the whole messages before a cut are as many as fit, and what is left over is less than the next one |
| ProtocolMessages.DecodeSet | protocol/message_set.go:22-44 | any cut of a set gives its offset, size and whole messages, and the partial flag exactly when bytes remain, except for tails of 4 and 5 bytes; a message behind a wrong checksum, after any number of good ones, makes the whole set fail |
| ProtocolMessages.SetLaid | protocol/message_set.go:10-20 | an encoded set is its offset, its size and its messages |
| ProtocolMessages.RoundTrip | protocol/message_set.go:10-44 | encoding and decoding any number of messages gives back magic byte, attributes, key and value, null and empty kept apart, and the timestamp less part of a millisecond; a set with an oversized field is refused |
| Requests.RequestLaid | protocol/request.go:15-28 | an encoded request is a size, a header and its body |
| Requests.RequestLayout | protocol/request.go:15-28 | field by field: the size of what follows, key, version, correlation id, client id and body |
| Requests.DecodeHeader | protocol/request_header.go:29-49 | the header is given back and the cursor is left at the body |
| Requests.ReadFrame | jocko/server.go:156-192 | one round takes exactly the declared frame off the connection; each way of ending has its condition |
| Requests.CutEnds | jocko/server.go:156-192 | every proper part of an encoded request ends the loop: nothing closes it, part of the size is a read error, a cut frame a panic |
| Requests.HandleRequests | jocko/server.go:156-192 | any stream of encoded requests is split at exactly their boundaries, each with the size, key, version, correlation id, client id and body that were sent; what follows the last of them, if it is no frame, ends the loop in the way that its bytes decide |
| FetchResponses.CarriedExact | protocol/fetch_response.go:112-175 | at every version nothing is lost if and only if the throttle time is in whole milliseconds that fit 32 bits (zero at version 0) and fields the version lacks are empty |
| FetchResponses.PartitionLaid | protocol/fetch_response.go:73-94 | the bytes of a partition, field by field, at every version |
| FetchResponses.TransactionsNext | protocol/fetch_response.go:20-24 | the bytes of each aborted transaction |
| FetchResponses.TopicLaid | protocol/fetch_response.go:120-131 | the bytes of a topic |
| FetchResponses.FetchLaid | protocol/fetch_response.go:112-134 | the bytes of a response: the throttle time from version 1 on, then its topics |
| FetchResponses.FetchAccepted | protocol/fetch_response.go:73-134 | the encoder accepts a response if and only if every string, record set and array that the version carries is within its limits |
| FetchResponses.DecodePartition | protocol/fetch_response.go:35-71 | undoes the encoding of a partition at every version, or refuses its list of transactions if too long |
| FetchResponses.Decode | protocol/fetch_response.go:136-175 | undoes the encoding of every nesting, or refuses it exactly if some array is too long |
| FetchResponses.RoundTrip | protocol/fetch_response.go:112-175 | at every version the two passes and the decoder give back every field that the version has, and nothing in the others, if and only if the response is within the encoder's limits and the decoder's |
| CreateTopics.TotalAnyOrder | protocol/create_topic_requests.go:34-50 | a total over a map does not depend on the order of the visit |
| CreateTopics.SameSize | protocol/create_topic_requests.go:21-57 | the measured length is right for whatever order the writing pass takes |
| CreateTopics.RequestLaid | protocol/create_topic_requests.go:26-50 | the bytes of a request, in any order of its maps |
| CreateTopics.AssignmentsNext | protocol/create_topic_requests.go:34-39 | the bytes of each replica assignment in the order of the visit |
| CreateTopics.ConfigsNext | protocol/create_topic_requests.go:43-50 | the bytes of each configuration in the order of the visit |
| CreateTopics.RequestsLaid | protocol/create_topic_requests.go:21-57 | the bytes of the list: the requests, the timeout, and validate-only from version 1 on |
| CreateTopics.CarriedExact | protocol/create_topic_requests.go:59-136 | only version 0 without validate-only and with a timeout in whole milliseconds that fit 32 bits comes back unchanged, since decoding does not set the version |
| CreateTopics.RequestsAccepted | protocol/create_topic_requests.go:21-57 | the encoder accepts the requests if and only if every string and array is within its limits, in whatever order maps are visited |
| CreateTopics.DecodeRequest | protocol/create_topic_requests.go:66-123 | the same maps come back from whatever order they were written in, or the request is refused exactly if some array is too long |
| CreateTopics.Decode | protocol/create_topic_requests.go:59-136 | undoes the encoding of any list of requests, or refuses it exactly if some array is too long |
| CreateTopics.RoundTrip | protocol/create_topic_requests.go:21-136 | two passes in different orders and the decoder give back the same requests, the timeout in milliseconds and, from version 1 on, validate-only, if and only if they are within the encoder's limits and the decoder's |
| DescribeConfigs.CarriedExact | protocol/describe_configs_response.go:35-157 | at every version nothing is lost if and only if the throttle time is in whole milliseconds that fit 32 bits and, at version 0, no entry has synonyms |
| DescribeConfigs.SynonymsNext | protocol/describe_configs_response.go:66-74 | the bytes of each synonym |
| DescribeConfigs.EntryLaid | protocol/describe_configs_response.go:52-76 | the bytes of an entry, field by field, at every version |
| DescribeConfigs.ResourceLaid | protocol/describe_configs_response.go:41-51 | the bytes of a resource, field by field |
| DescribeConfigs.ResponseLaid | protocol/describe_configs_response.go:35-40 | the bytes of a response: the throttle time, then its resources |
| DescribeConfigs.ResponseAccepted | protocol/describe_configs_response.go:35-79 | the encoder accepts a response if and only if every string and array that the version carries is within its limits |
| DescribeConfigs.DecodeEntry | protocol/describe_configs_response.go:112-152 | undoes the encoding of an entry with its synonyms at every version, or refuses them if too many |
| DescribeConfigs.Decode | protocol/describe_configs_response.go:81-157 | undoes the encoding of every nesting, or refuses it exactly if some array is too long |
| DescribeConfigs.RoundTrip | protocol/describe_configs_response.go:35-157 | at every version the two passes and the decoder give back every field that the version has, and no synonyms at version 0, if and only if the response is within the encoder's limits and the decoder's |
| IntKeys.Key | jocko/fsm/index.go:15-61 | a key exists exactly for integer kinds and has the fixed length of its kind |
| IntKeys.KeyFits | jocko/fsm/index.go:65-80 | the varint of every value of every integer kind fits the buffer made for its kind |
| IntKeys.ZigZagShifts | jocko/fsm/index.go:15-61 | the signed value is folded as binary.PutVarint does in 64 bits: shifted left by one, all bits flipped if negative |
| IntKeys.ReadBack | jocko/fsm/index.go:15-61 | a varint reads back whatever follows it |
| IntKeys.KeyPrefix | jocko/fsm/index.go:15-61 | a key is a prefix of another key with anything after it if and only if both are keys of the same value |
| Tables.RowsAreLive | jocko/fsm/fsm.go:351-377 | after any history a row exists exactly for the keys put and not deleted since |
| Tables.RowOrigin | jocko/fsm/fsm.go:666-694 | a row holds what its last put wrote and that put's index, and was created by the first put since the key was last deleted |
| Tables.IndexOrigin | jocko/fsm/fsm.go:774-792 | the table index is that of the last command that changed the table; deletes of missing rows change nothing |
| Tables.IndexesOrdered | jocko/fsm/fsm.go:399-427 | create index, modify index, table index and last applied index are in order |
| StoreSpec.TablesHaveHistories | jocko/fsm/commands.go:10-116 | every table of the store is what its own part of the command log makes of it, so the facts above hold of each |
| StoreSpec.NodeRows | jocko/fsm/commands.go:10-60 | after any log a node has a row if and only if it was registered and not deregistered since |
| StoreSpec.TopicRows | jocko/fsm/commands.go:62-88 | after any log a topic has a row, under its lower-case name, if and only if it was registered with a name and not deregistered since |
| StoreSpec.PartitionRows | jocko/fsm/commands.go:90-116 | after any log a partition has a row if and only if it was registered, of a topic with a name, and not deregistered since |
| StoreSpec.GroupRows | jocko/fsm/fsm.go:518-546 | after any log a group has a row if and only if it was ever registered with a name, since no command deletes groups |
| StoreSpec.SnapshotIndex | jocko/fsm/fsm.go:829-860 | the index of a snapshot is that of the last command that changed anything, zero if none did |
| Stores.IdKeyInjective | jocko/fsm/fsm.go:951-960 | the compound primary key tells partitions apart |
| Stores.LeaderKeyInjective | jocko/fsm/fsm.go:977-984 | the key in the leader index tells leaders and partitions apart |
| Stores.SyncDeleted | jocko/fsm/fsm.go:774-792 | deleting a row and its key keeps the leader index in step with the table |
| Stores.SyncInserted | jocko/fsm/fsm.go:666-694 | inserting a row and its key keeps the leader index in step with the table |
| Stores.Store.EnsureNode | jocko/fsm/fsm.go:351-377 | the node's row holds it, keeps its create index and gets the new modify index, and the table the new index; nothing else changes; refines the abstract step of its command |
| Stores.Store.DeleteNode | jocko/fsm/fsm.go:295-315 | the node's row is gone and the table gets the new index exactly if it was there; nothing else changes; refines the abstract step of its command |
| Stores.Store.EnsureTopic | jocko/fsm/fsm.go:399-427 | fails and changes nothing exactly without a name; otherwise upserts the row under the lower-case name and nothing else; refines the abstract step of its command |
| Stores.Store.DeleteTopic | jocko/fsm/fsm.go:483-501 | the topic's row is gone and the table gets the new index exactly if it was there; nothing else changes; refines the abstract step of its command |
| Stores.Store.EnsureGroup | jocko/fsm/fsm.go:518-546 | fails and changes nothing exactly without a name; otherwise upserts the row under the lower-case name and nothing else; refines the abstract step of its command |
| Stores.Store.EnsurePartition | jocko/fsm/fsm.go:666-694 | fails and changes nothing exactly without a topic name; otherwise upserts the row and keeps the leader index in step, also when the leader changes; refines the abstract step of its command |
| Stores.Store.DeletePartition | jocko/fsm/fsm.go:774-792 | the partition's row and its key in the leader index are gone, and the table gets the new index exactly if it was there; refines the abstract step of its command |
| Stores.Store.Apply | jocko/fsm/fsm.go:92-99 | any log entry takes the store to the abstract next state; other message types change nothing |
| Stores.ReplayLog | jocko/fsm/fsm.go:92-99 | replaying any log builds the store that the log describes |
| Stores.Store.PartitionsByLeader | jocko/fsm/fsm.go:719-736 | the prefix scan finds exactly the partitions that filtering by leader would, each once |
| Stores.Store.MaxIndex | jocko/fsm/fsm.go:848-860 | the highest index of the tables, attained by one of them or zero |
| Placement.BrokerLookup.AddBroker | jocko/broker_lookup.go:25-30 | the lookup is what its joins and leaves amount to; ids stay distinct if and only if the broker is not known under another address |
| Placement.BrokerLookup.RemoveBroker | jocko/broker_lookup.go:56-61 | both entries go, and ids stay distinct |
| Placement.BrokerLookup.Brokers | jocko/broker_lookup.go:63-71 | every broker known by address, in any order; ids are distinct exactly if no two addresses share one |
| Placement.FixedAddressesDistinct | jocko/broker_lookup.go:25-61 | while each broker keeps one address, ids stay distinct over any run of joins and leaves |
| Placement.ReplicasExact | jocko/broker.go:1117-1121 | the loop gives max(1, factor) replicas if and only if the factor is not -32768, where its 16-bit bound wraps and it gives 32768 |
| Placement.PlacedApart | jocko/broker.go:1096-1134 | on brokers with distinct ids no partition has a broker twice, if and only if the factor is not -32768 or there are 32768 brokers |
| Placement.LowestFactorRepeats | jocko/broker.go:1117-1121 | at factor -32768 a single broker fills all 32768 places |
| Placement.Pick | jocko/broker.go:1116-1121 | the walk around the ring gives the replicas in ring order, the first at the start; with distinct ids they are distinct if and only if there are no more of them than brokers |
| Placement.BuildPartitions | jocko/broker.go:1096-1134 | for every factor each partition has as many replicas as the loop counts, all of them brokers that follow one another on the ring, the leader first and all in sync, distinct exactly if there are enough brokers with distinct ids; refused exactly if the factor exceeds the brokers, a panic exactly if there are none to draw from |
| Placement.PlaceTopic | jocko/broker.go:1096-1134 | on the brokers known after any joins and leaves: if each kept one address, no partition has a broker twice, if and only if the factor is not -32768 or there are 32768 brokers |
| Failover.WithoutKeepsOrder | jocko/leader.go:514-525 | taking a broker out leaves a subsequence with exactly that broker gone |
| Failover.Drop | jocko/leader.go:514-525 | the loop removes exactly the failed broker and keeps the order of the rest |
| Failover.ReassignedKeeps | jocko/leader.go:514-538 | reassigning keeps topic and number, and of both lists of replicas exactly the failed broker goes, the rest in its old order |
| Failover.ReassignedSound | jocko/leader.go:514-538 | reassigning a sound partition gives a sound one |
| Failover.EveryRunSound | jocko/leader.go:436-551 | however the registrations of new topics and failovers interleave in the log, in every partition row the in-sync replicas are the assigned ones, without repetition if topics were placed on enough brokers with distinct ids |
| Controllers.FailedLeadsNothing | jocko/leader.go:507-541 | after a failover the failed broker leads nothing and is no replica of what it led |
| Controllers.NewLeaderIsReplica | jocko/leader.go:508-538 | the new leader is sure to be a replica if and only if every passing node already is one |
| Controllers.SoleReplicaLost | jocko/leader.go:514-538 | a partition with one replica is left with none, and a leader outside it |
| Controllers.NoCandidatesForZero | jocko/leader.go:478-483 | as nodes are registered without an id, the candidates are all passing nodes, but none at all for broker 0 |
| Controllers.Controller.RaftApply | jocko/leader.go:316-326 | the command takes the next index and the store takes its abstract step; every invariant of the log is kept |
| Controllers.Controller.PartitionsSound | jocko/leader.go:436-551 | every partition is sound in every state the leader can reach |
| Controllers.Controller.HandleAlive | jocko/leader.go:276-314 | a new member that joined is registered as passing, a known one is left as it is, even if critical; a member that is no broker makes it panic |
| Controllers.Controller.HandleDeregister | jocko/leader.go:337-367 | a member that is gone loses its row, unless it is no broker, is the leader itself or could not be removed from the Raft cluster |
| Controllers.Controller.Reassign | jocko/leader.go:514-541 | exactly one row changes: new leader, exactly the failed broker gone from both lists, the others in their old order, create index kept |
| Controllers.Controller.TakeOver | jocko/leader.go:507-541 | all the given partitions get a passing leader and nothing else changes; a panic exactly if nobody passes and there is something to move |
| Controllers.Controller.HandleFailed | jocko/leader.go:436-541 | the node is critical, no partition is led by it; each one that was has a passing leader and keeps all its other replicas in order, and every other row is as before; a panic exactly if nobody can take over what it led |
| Controllers.Controller.RegisterAll | jocko/broker.go:1052-1056 | the rows of the topic's partitions are the placed ones and all others are as before |
| Controllers.Controller.CreateTopic | jocko/broker.go:1031-1056 | on the brokers of the lookup: each refusal has its exact condition and changes nothing; otherwise the topic row lists the replicas of each partition, each partition row is the one placed, with its leader first, and no other row changes; a topic without a name is reported created but stores nothing |
| Leadership.NextInv | jocko/leader.go:121-216 | every step of the monitor and of every leader loop keeps the invariant |
| Leadership.OneLoop | jocko/leader.go:121-157 | in every interleaving at most one leader loop is alive |
| Leadership.ReadyMeansEstablished | jocko/leader.go:170-216 | the broker is ready for consistent reads exactly while a loop whose own barrier succeeded is established |
| Leadership.LostMeansNotReady | jocko/leader.go:142-151 | once the monitor has seen leadership lost, the broker is not ready and no loop is left |
| Leadership.ReadyUntilLost | jocko/leader.go:142-206 | a ready broker stays ready until leadership is lost or it shuts down |
| Leadership.BarrierReady | jocko/leader.go:170-190 | a barrier that succeeds leaves the broker ready, by the loop that waited for it |
| Leadership.CanServe | jocko/leader.go:121-190 | from every reachable state without a loop, winning leadership and a barrier that succeeds make the broker ready |
| Leadership.CanStop | jocko/leader.go:142-151 | a monitor that waits for its loop can always get through, whatever the loop was doing, to a state that is not ready and in which leadership can be won again |

## Left out

- Rebuilding the index of an existing file (`BuildIndex`), and with it reopening a log and the index after `Replace`: its loop reads each payload and then skips as many bytes again.
- Splitting under the compact policy: the cleaner's new segment and the active one differ there, so compaction is modelled on the bytes it writes.
- CommitLogs.CommitLog.Append: assumes a set with a whole header, fewer than 2^63 sets, and a buffer that is not the memory of an index; offsets are unbounded integers below that.
- SegmentIndex.Index.constructor: an index file that already holds entries is not modelled, since it is truncated and rebuilt from the log by `BuildIndex`.
- Segments.Segment.constructor: a log file that already holds sets is not modelled, for the same reason.
- CommitLogs.CommitLog.constructor: a directory that already holds segments is not modelled, for the same reason.
- LogSpec.RunKeepsRecent: runs that also truncate are covered step by step, by `AppendDrops` and `TruncateShape`.
- CommitLogs.CommitLog.Truncate: what a log does after its active segment was truncated away is not modelled.
- Readers.Reader.Read: `idx` is a position in the live list of segments, so what a reader delivers is stated between steps that drop no segment.
- Readers.NewReader: what a reader delivers from a segment larger than 2^31 bytes, whose positions no longer fit 32 bits, is stated only as the wrapped position.
- MessageView.Messages: a Go slice may reach past its length into its capacity; the model panics at the length.
- MessageBridge.StoredMessageView: what the view makes of a message with a negative magic byte depends on bytes of its key and value and is stated only as far as `KeyReadAlways` goes; so with `EncodedShape`, `SingleMessageSet` and the results on compaction.
- Compaction.CompactCleaner.Clean: the segment objects that replace the old ones are given as their bytes, and a loop over a message that claims no bytes, which does not end, counts as a panic.
- Requests.HandleRequests: the handlers behind the loop, tracing and deadlines are left out.
- Failures of files, memory maps and the network; locks, since each locked method is modelled as one step.
- Snapshot and restore of the store: no persister or restorer is registered.
- Consumer groups: their handlers and the deletion of groups.
- Controllers.Controller.HandleFailed: the reassignment of group coordinators, which comes first and panics too if nobody can take over, is left out; so is a member that is no broker, for which nothing is done.
- Controllers.Controller.TakeOver: it runs as one step, and so do `HandleFailed` and `CreateTopic`, although topics are created on other goroutines without a lock; `EveryRunSound` covers the interleavings, the absence of partitions led by the failed broker does not.
- Controllers.Controller.HandleAlive: how a member joins the Raft cluster is left out; whether it could is a parameter.
- Controllers.Controller.HandleDeregister: how a member is removed from the Raft cluster is left out; whether it could be is a parameter.
- `Node.Meta`, `Topic.Config` and the check fields other than the status, which no modelled decision reads.
- The LeaderAndISR requests sent after a topic is created or a node fails, and the replicas they start.
- Controllers.Controller.RaftApply: Raft itself (replication, terms, lost leadership while applying) is left out; an entry handed to it is applied.
- The replicator, and the message types whose encoder and decoder disagree or are stubs (JoinGroup, Heartbeat, Produce below version 2, LeaderAndISR, APIVersions, OffsetCommit, OffsetFetch, StopReplica).
- The internals of Raft, Serf, memdb, msgpack, xxhash and CRC-32; configuration, command line, logging and metrics.
