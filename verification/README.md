# Kingbus, modelled and proved in Dafny

Kingbus keeps a replicated raft log whose payloads are MySQL binlog events, and serves that log
to MySQL replicas by GTID.  This project models the parts of it that carry state, loops and
arithmetic, and proves what they promise together: the bytes on disk read back as one log, what
is applied is exactly what raft committed, a crash changes nothing that counts, and a replica
that may connect misses no transaction.

`dafny verify dfyconfig.toml` checks everything.

## How the model is laid out

* **Bytes and messages.** `Bytes.dfy`, `Protobuf.dfy`, `Messages.dfy`, `Codec.dfy`: varints, the
  generated codec of `Record` and `BinlogEvent`, and the raft `Entry` it wraps.
* **The log on disk.** `RecordLog.dfy` and `Records.dfy` give the byte layout of a log;
  `MmapFile.dfy`, `Index.dfy`, `Segment.dfy` and `DiskStorage.dfy` are the classes that keep it;
  `EntryReads.dfy` reads it; `RaftNode.dfy` is how the raft loop writes it; `Recovery.dfy` and
  `Restart.dfy` open it again.  A checksum is any function of bytes.
* **Transactions.** `TrxBoundary.dfy` is the boundary parser and its language, `BinlogProgress.dfy`
  the executed set, `ExecutedSet.dfy` its exactness, `CrashReplay.dfy` crashes and replays;
  `RawEvents.dfy` says all of it about the bytes of events.
* **Metadata and dumps.** `Gtids.dfy`, `Keys.dfy` and `MetaStore.dfy` are the ordered metadata
  bucket; `BinlogEvents.dfy` and `BinlogServer.dfy` the dump; `ServedLog.dfy` dumps, restarts and
  purges over whole runs; `Serving.dfy` ties these runs to the classes.
* **Applying.** `Applier.dfy` applies committed entries to all of the above; `AppliedPrefix.dfy` is
  the raft loop, the apply loop and the purger interleaved.
* **The wire.** `Packets.dfy`, `Fragments.dfy` and `DividedEvents.dfy`: MySQL packets, and events of
  16 MB and more from the master to a replica.
* **Membership.** `Membership.dfy`.
* **A whole life.** `Lifetime.dfy` joins the raft side and the metadata side over any number of
  restarts; the contracts of `AppendRaftEntries`, `Apply`, `PurgeLog` and `OpenSegments` are its steps.

Objects that the source updates in place are classes here, with the source's loops as loops;
each is proved against a function of its old value.  GTID sets are finite sets, a bolt bucket is
a finite map whose cursor walks the byte order of the key names, and a file is its bytes.

## What the proofs found

Where a property the code or its documentation suggests does not hold, the model keeps the code
and proves the exact condition.

* **Big events stop every node.** From 2^24-1 bytes on, the first part of an event carries a header
  with the size of the whole event, so `updateProcess` returns an error and the apply loop ends the
  process (`DividedEvents.FirstPartRefused`).  `DividedEvents.DeliveredIff`: an event is applied,
  sent and reassembled whole if and only if it is smaller than 2^24-2 bytes, or of 2^24-2 bytes and
  not of type GTID, ROTATE or PREVIOUS_GTIDS.
* **An empty second part stops every node too.** At 2^24-2 bytes an event is divided into itself and
  an empty part, and the metadata code is run on every part; for the three types above it slices
  the empty data (`DividedEvents.EmptySecondPart`).  For a format description the empty part is
  stored instead, and hides the real one from later dumps (`DividedEvents.EmptyDescriptionHides`).
* **Dividing and sending lose a byte of their own.** When the length of an event is a positive
  multiple of 2^24-1, `divideBinlogEvent` makes one part too few.  `Fragments.ReassembledExactly`:
  of these two steps alone, a replica gets the whole event if and only if the length is zero or no
  such multiple; at exactly 2^24-1 bytes the packet sequence is not terminated either.  At 2^32-1
  bytes the 32-bit size test wraps and the event is not divided at all
  (`Fragments.LargestNotSendable`), but then it fits no segment (`DividedEvents.LargestNotStored`).
* **A resent transaction may be counted too early or never.** After a transaction is cut short, the
  GTID event that starts it again is refused and leaves the parser outside.
  `ExecutedSets.ExactAfterCutIff`: the executed set is exact on every prefix if and only if the
  next event is a BEGIN, a statement, a pre-statement or an incident (or there is none).
* **A purge can strand the recorded dump positions.** `ServedLogs.PurgeSoundIff`: the metadata stays
  sound if and only if a recorded set that can be merged lies beyond the new first index, or no
  recorded set lies below it.  A set of more than one server cannot be merged, because the text
  form is parsed as one server's set.
* **A cut can refuse replicas.** Cutting across segments runs the same metadata update as a purge,
  with the first index where it is.  `ServedLogs.CutPurgesIff` says when gtid_purged then grows by
  GTIDs that are still stored, `ServedLogs.CutRefuses` which replicas are refused from then on,
  and `DiskStorages.DiskStorage.TruncateSuffix` when the update ends the process instead.
* **Metadata can be lost in a crash.** The checkpoint of an entry is written before its metadata, so
  a crash in between skips the metadata for good.  `Appliers.CheckpointFirstIff`: an event with
  metadata makes a checkpoint if and only if it is a format description, ROTATE or PREVIOUS_GTIDS
  event that finds a GTID dangling, which only a refused GTID event leaves behind
  (`BinlogProgresses.DanglingIff`).
* **Packets.** `Packets.PacketRoundTrip`: the reader returns what the writer wrote if and only if
  the payload length is no multiple of 2^24-1, because it refuses empty packets.
* **Reopened segments.** A segment opened read-only has write position 0, so cutting inside it fails
  and cutting at its first index leaves the old bytes.  `Recovery.OverwrittenExact`: after such a
  cut and new records, recovery finds exactly the new log if and only if the old bytes behind it
  do not open; `Recovery.StaleRecordsReturn`: if the new log ends where an old record starts, all
  old records from there on come back.
* **Recovery reuses its messages.** `Recovery.RecoveryExact` is the exact condition for a rebuilt
  index.  `Recovery.ChecksumOnlyTail`: a tail record with nothing but the last record's checksum
  passes the checksum test on the kept data, and the last entry is indexed twice.
* **Recorded sets are compared in one direction only.** `Gtids.EqualToMeans`: a new set counts as
  already recorded when it equals a recorded set restricted to its own servers, so an empty set
  equals everything.

Where comments and code disagree, the code is followed: `COMMIT` is an ordinary statement,
`ROLLBACK TO` ends a transaction, `XA START` begins one only as the whole text, and each segment
of a range read gets the full size budget.

## Model

| member | source | states |
|---|---|---|
| `Protobuf.EncodeVarint` | storage/storagepb/record.pb.go:233-241 | writes exactly the base-128 form of the value behind what the buffer already holds, and returns the position behind it |
| `Protobuf.SizeOfVarint` | storage/storagepb/record.pb.go:273-282 | the size loop gives the length of the form that is written |
| `Protobuf.DecodeVarint` | storage/storagepb/record.pb.go:287-307 | the shifting loop, with its 64-bit shift limit and its truncation to the field width, reads the same number as the base-128 definition, or fails when that does |
| `Protobuf.AccumulateIsReadVarint` | storage/storagepb/record.pb.go:287-307 | or-ing truncated bits on the way gives the same word as truncating the whole number at the end |
| `Protobuf.VarintRoundTrip` | storage/storagepb/record.pb.go:233-241 | every number that fits the field width is read back from its varint, whatever follows it |
| `Protobuf.DelimitedRoundTrip` | storage/storagepb/record.pb.go:336-364 | a length-delimited field is read back, whatever follows it |
| `Messages.FieldsRoundTrip` | storage/storagepb/record.pb.go:286-385 | every list of fields that fits the message is read back field by field |
| `Messages.RecordRoundTrip` | storage/storagepb/record.pb.go:146-174 | decoding an encoded Record gives it back; decoded into a used message, absent data keeps the old data |
| `Messages.EventRoundTrip` | storage/storagepb/record.pb.go:176-213 | decoding an encoded BinlogEvent gives it back, absent data staying apart from empty data |
| `Messages.EntryRoundTrip` | vendor/github.com/coreos/etcd/raft/raftpb/raft.pb.go:318-346 | decoding an encoded raft Entry gives it back |
| `Messages.RecordLayout` | storage/storagepb/record.pb.go:156-174 | a Record is the checksum under tag 8 and the data under tag 18, byte for byte |
| `Messages.EventLayout` | storage/storagepb/record.pb.go:186-213 | a BinlogEvent is type, flavor, number of parts and part number under tags 8, 16, 24 and 32 and the data under tag 42, byte for byte |
| `Messages.EntryLayout` | vendor/github.com/coreos/etcd/raft/raftpb/raft.pb.go:318-346 | a raft Entry is type, term and index under tags 8, 16 and 24 and the data under tag 34, byte for byte |
| `Codec.MarshalRecordTo` | storage/storagepb/record.pb.go:156-174 | fills the buffer with exactly the encoded Record and returns its length |
| `Codec.MarshalEventTo` | storage/storagepb/record.pb.go:186-213 | fills the buffer with exactly the encoded BinlogEvent and returns its length |
| `Codec.SizeOfRecord` | storage/storagepb/record.pb.go:242-254 | Size equals the number of bytes MarshalTo writes |
| `Codec.SizeOfEvent` | storage/storagepb/record.pb.go:256-271 | Size equals the number of bytes MarshalTo writes |
| `Codec.MarshalRecord` | storage/storagepb/record.pb.go:146-154 | Marshal allocates Size bytes and returns all of the encoding |
| `Codec.MarshalEvent` | storage/storagepb/record.pb.go:176-184 | Marshal allocates Size bytes and returns all of the encoding |
| `Codec.UnmarshalRecord` | storage/storagepb/record.pb.go:286-386 | the decoding loop folds the fields of the input into the message, on every input, well formed or not |
| `Codec.UnmarshalEvent` | storage/storagepb/record.pb.go:387-544 | the decoding loop folds the fields of the input into the message, on every input, well formed or not |
| `Codec.SkipSuffix` | storage/storagepb/record.pb.go:545-640 | skipping an unknown field leaves a suffix of the input |
| `RecordLog.EncodeConcat` | storage/segment.go:234-270 | the bytes of two appended batches are the bytes of their concatenation |
| `RecordLog.EncodeCut` | storage/segment.go:385-424 | the bytes of a shortened log are a prefix of the bytes of the log, as long as the offset of the first dropped entry |
| `RecordLog.FrameInFile` | storage/mmap_file.go:136-159 | entry k of a log starts at its offset in any file that begins with the log |
| `RecordLog.CellRoundTrip` | storage/index.go:54-67 | a 12-byte index cell gives back its raft index and file position |
| `RecordLog.CellLayout` | storage/index.go:54-67 | the first eight bytes of a cell are the raft index, the last four the file position |
| `RecordLog.FrameLayout` | storage/segment.go:272-307 | four bytes of length, then exactly the record |
| `RecordLog.IndexCellReads` | storage/index.go:85-105 | cell k of the index file of a log holds the index and the offset of entry k |
| `Records.OpenRecordRoundTrip` | storage/mmap_file.go:136-159 | a stored record opens to the entry it was made from, also into used messages, except that absent data keeps old data |
| `Records.CorruptRefused` | storage/mmap_file.go:148-154 | a record whose checksum is not that of its data never opens, whatever the reused messages hold |
| `Records.FrameAtReads` | storage/mmap_file.go:136-159 | reading at the offset of entry k gives entry k and the offset of entry k+1 |
| `MmapFiles.MmapFile.Create` | storage/mmap_file.go:42-68 | a new file is all zeros with write position 0 |
| `MmapFiles.MmapFile.Open` | storage/mmap_file.go:70-102 | an opened file keeps its bytes and has write position 0 |
| `MmapFiles.MmapFile.Append` | storage/mmap_file.go:104-110 | the data goes behind the written part, and nothing else changes |
| `MmapFiles.MmapFile.TruncateSuffix` | storage/mmap_file.go:198-220 | fails exactly when the position is behind the written part; else zeros from the position to the old write position and nothing else |
| `MmapFiles.MmapFile.ReadRaftEntry` | storage/mmap_file.go:136-159 | reads the length, opens the record and returns the entry and the next position, or nothing on any defect |
| `Indexes.OpenRWFile` | storage/index.go:238-280 | the cell loop gives back exactly the entries whose cells the file holds |
| `Indexes.Index.New` | storage/index.go:69-73 | a new index holds no entry |
| `Indexes.Index.GetRaftEntryPosition` | storage/index.go:85-105 | the position of raft index i, from the list or from the cells alike; an index below the first is out of bound, one behind the last is fatal |
| `Indexes.Index.AppendIndexEntry` | storage/index.go:107-118 | the index holds one entry more, in the list and in the buffered file |
| `Indexes.Index.GetLastRaftEntry` | storage/index.go:127-133 | of a writable index that holds a list of entries, the last one; fatal exactly when the list is empty |
| `Indexes.Index.TruncateSuffix` | storage/index.go:135-181 | the index holds exactly the entries below i and is writable, whether it was a list or cells before |
| `Indexes.Index.ChangeToReadonly` | storage/index.go:183-206 | the read-only cells hold exactly the entries of the list |
| `Segments.Segment.New` | storage/segment.go:71-83 | a new segment is writable, empty and zero |
| `Segments.Segment.AppendRecord` | storage/segment.go:272-307 | one record more: the file, the index cell and the write position stay in agreement, and the bytes behind stay as they were |
| `Segments.Segment.AppendRecords` | storage/segment.go:234-270 | refuses a segment that is not writable or a batch that does not continue it; else the segment holds its old log and the batch, and every byte behind it is what it was |
| `Segments.Segment.ReadFrom` | storage/segment.go:325-352 | the scan takes entries from k on up to the first one that exceeds the budget, is the last wanted or is the last stored, and never one more |
| `Segments.Segment.TakeOne` | storage/segment.go:335-352 | after one more entry the scan goes on if and only if none of the three tests stops it |
| `Segments.Segment.ReadRaftEntries` | storage/segment.go:309-359 | the entries such a scan takes and the budget left; every error case |
| `Segments.Segment.TruncateSuffix` | storage/segment.go:385-429 | the log keeps exactly the entries below i and the segment is writable; inside the range it fails if and only if the write position is unknown and i is not the first index; with write position 0 no byte of the file changes |
| `Segments.Segment.ChangeToReadonly` | storage/segment.go:431-453 | only the status and the form of the index change |
| `Segments.Segment.ReadsBack` | storage/segment.go:309-359 | in every valid segment the file has entry k, with raft index first+k, at the offset its index gives |
| `DiskStorages.DiskStorage.EntriesToRecords` | storage/disk_storage.go:346-364 | the records carry the entries with their checksums, and the size is exactly the room they need in a file |
| `DiskStorages.DiskStorage.SaveRaftEntries` | storage/disk_storage.go:309-344 | the log is the old log and the batch; the batch goes to the last segment if and only if there is one and the bytes of both fit a file, else exactly one segment is added that holds just the batch; fails exactly for a batch that fits no segment |
| `DiskStorages.DiskStorage.RollAndAppend` | storage/disk_storage.go:593-614 | sealing the last segment and opening a new one keeps the log; no empty segment is ever sealed |
| `DiskStorages.DiskStorage.FindSegment` | storage/disk_storage.go:230-247 | the backward search finds a segment that contains the index, if there is one |
| `DiskStorages.DiskStorage.TruncateSuffix` | storage/disk_storage.go:230-280 | the log keeps exactly the entries below the index, across segments; it fails exactly outside the log, in a segment that cannot be cut, or where whole segments go and the metadata cannot be updated; after a failure inside the log exactly the segments behind the one with the index are gone; what a cut across segments does to the metadata |
| `DiskStorages.DiskStorage.PurgeSegments` | storage/disk_storage.go:282-306 | removing segments updates the metadata for the first index that is left, and is fatal exactly when the set to merge is of several servers |
| `DiskStorages.DiskStorage.LiveCanCut` | storage/disk_storage.go:230-280 | in a store whose segments were all created in this run every index of the log can be cut at |
| `DiskStorages.DiskStorage.Bounds` | storage/disk_storage.go:205-223 | FirstIndex and LastIndex are those of the one gap-free log the segments hold |
| `DiskStorages.DiskStorage.PurgeLog` | storage/disk_storage.go:388-430 | the oldest segments go, what remains is a suffix of the log, and the metadata is updated for its first index; exactly when that is fatal |
| `RaftNodes.Node.AppendRaftEntries` | raft/raft.go:314-337 | the log keeps the entries below the batch and ends with the batch; what the cut leaves of the last segment decides by the same rule where the batch goes; exactly when it fails and with which error, and what it does to the metadata |
| `RaftNodes.Node.AppendAll` | raft/raft.go:314-337 | for every run of acceptable batches on a fresh store the segments read back as exactly the log the batches describe, with its bounds, and are a single segment if the log fits a file all along; the run ends early only where the metadata cannot be updated |
| `RaftNodes.JoinedSmall` | storage/disk_storage.go:560-590 | batches whose joined encoding fits a file are such a run, also where they overwrite each other |
| `RaftNodes.Node.AppendAllAndPurge` | storage/disk_storage.go:407-415 | after such a run a purge that reserves one segment drops nothing |
| `MetaStores.StuckStays` | storage/meta_storage.go:400-432 | a purge of the metadata does not change whether the next one at the same first index is fatal |
| `RaftNodes.AppendedSound` | raft/raft.go:314-337 | an accepted batch leaves a gap-free log |
| `RaftNodes.ReplaySound` | raft/raft.go:314-337 | every run of batches leaves a gap-free log |
| `RaftNodes.ReplayMembers` | raft/raft.go:314-337 | an entry is in the log if and only if some batch delivered it and no later batch reached back to its index |
| `EntryReads.CutRaftEntries` | storage/disk_storage.go:150-179 | the longest prefix within the payload budget, but at least one entry |
| `EntryReads.ReadOne` | storage/disk_storage.go:511-557 | what one segment contributes is a slice of the log, complete unless the budget is used up |
| `EntryReads.ReadSegments` | storage/disk_storage.go:511-557 | a contiguous slice of the log across segments, all of the range when its size is below the budget |
| `EntryReads.GetReadSegments` | storage/disk_storage.go:470-509 | the segments that contain the two ends of the range |
| `EntryReads.Entries` | storage/disk_storage.go:113-147 | for every range inside the log a non-empty prefix of it, over the limit only as a single entry, and all of it when its size is below the limit; every error case |
| `EntryReads.Term` | storage/disk_storage.go:182-202 | the term of the stored entry; every error case |
| `EntryReads.NewEntryReaderAt` | storage/disk_storage.go:616-628 | a reader is given for an index if and only if it is inside the stored bounds; which error otherwise |
| `EntryReads.DiskEntryReader.GetNext` | storage/disk_storage.go:631-641 | the entry at the read index, which then moves on by one; on error nothing moves |
| `EntryReads.DiskEntryReader.ReadMany` | storage/disk_storage.go:631-645 | n calls return the next n entries of the log, none twice and none left out |
| `Recovery.RebuildIndex` | storage/segment.go:153-219 | the scan over the file ends and leaves an index of exactly the records it could open |
| `Recovery.ScanOfLog` | storage/segment.go:153-219 | for every file that starts with the records of a log, the scan from entry k on gives the index of the rest of the log and then what the scan finds behind it with the messages the last record left |
| `Recovery.RecoveryExact` | storage/segment.go:153-219 | the rebuilt index is exactly that of the log if and only if the bytes behind it do not open into the messages the last record left |
| `Recovery.LeftoverIsLast` | storage/segment.go:154-202 | the record message the scan has left is the last record, and the entry message has its index |
| `Recovery.ChecksumOnlyTail` | storage/segment.go:186-202 | a tail record that holds only a checksum is harmless if and only if the checksum is not the last record's; else the last entry is indexed twice |
| `Recovery.ChecksumOnlyOpens` | storage/segment.go:186-202 | such a record opens, into the data that was kept, exactly when the checksums agree |
| `Recovery.ZerosAreBad` | storage/segment.go:165-185 | zeros behind the records stop the scan |
| `Recovery.Refill` | storage/segment.go:385-429 | cutting a segment opened read-only at its first index and appending a new log leaves the old bytes behind the new ones |
| `Recovery.OverwrittenExact` | storage/segment.go:153-219 | after that, recovery finds exactly the new log if and only if the old bytes behind it do not open |
| `Recovery.StaleRecordsReturn` | storage/segment.go:153-219 | if the new log ends where some old record starts, recovery also finds every old record from there on |
| `Recovery.SameTail` | storage/segment.go:153-219 | two files with equal bytes behind the log recover alike |
| `Recovery.OpenReadOnly` | storage/segment.go:118-151 | a sealed file opens to a valid segment with its log |
| `Recovery.OpenReadWrite` | storage/segment.go:118-151 | the last file opens, after a crash or a clean stop, to a valid writable segment with its log and write position; it fails if and only if it has no record |
| `Recovery.LastFrame` | storage/segment.go:137-148 | the last cell leads to the end of the records |
| `Restart.OpenSegments` | storage/segment.go:85-116 | the files of a store open to a valid store with exactly the log they hold |
| `Restart.StoreSurvives` | storage/segment.go:85-116 | the files any valid store leaves behind, with a lost index after a crash, are files that open to its log |
| `RawEvents.TypeLaw` | mysql/trx_boundary_parser.go:108-186 | what each event type, by its number, is taken for; an unknown type is ignored if its flags are exactly the ignorable one and is an error otherwise |
| `RawEvents.QueryLaw` | mysql/trx_boundary_parser.go:121-142 | a query begins a transaction if and only if it spells BEGIN or XA START up to case, ends one if it starts like ROLLBACK, ends an XA one if it starts like XA ROLLBACK, and is a statement otherwise |
| `RawEvents.HeaderLaw` | server/binlog_progress.go:97-114 | in the bytes of an event the type is byte 4, the size bytes 9 to 12, the flags bytes 17 and 18, and the body lies between the 19 bytes of header and the 4 of checksum |
| `RawEvents.DecodesIff` | server/apply.go:144-168 | which events given as bytes can be applied at all |
| `RawEvents.GtidEventLaw` | mysql/trx_boundary_parser.go:189-304 | a GTID event in bytes opens a transaction from outside and makes its GTID the current one; elsewhere the old transaction is forgotten |
| `RawEvents.QueryEventLaw` | mysql/trx_boundary_parser.go:189-304 | what a query event does to progress in every state, by its text |
| `RawEvents.EndLaw` | server/binlog_progress.go:116-160 | XID and XA_PREPARE_LOG count the GTID of a transaction that was begun, and forget it elsewhere |
| `RawEvents.StatementLaw` | server/binlog_progress.go:116-160 | a statement or row event goes on inside a transaction that was begun and completes a transaction elsewhere |
| `RawEvents.PreStatementLaw` | server/binlog_progress.go:116-160 | INTVAR, RAND and USER_VAR complete nothing |
| `RawEvents.IncidentLaw` | server/binlog_progress.go:116-160 | an incident completes whatever is open |
| `RawEvents.IgnoredLaw` | server/binlog_progress.go:116-160 | ignored events change nothing, except that a dangling GTID is counted |
| `RawEvents.UnknownLaw` | server/binlog_progress.go:116-160 | an unknown event without the ignorable flag makes the transaction forgotten |
| `RawEvents.RowTransaction` | server/binlog_progress.go:116-160 | a GTID event, a query that spells BEGIN, any number of table maps, row events and statements, and an XID, XA_PREPARE_LOG or ROLLBACK, all given as bytes, count exactly that GTID, and only at the end |
| `RawEvents.StatementTransaction` | server/binlog_progress.go:116-160 | a GTID event, any number of INTVAR, RAND and USER_VAR events and a statement, DDL queries included, count exactly that GTID, and only at the statement |
| `RawEvents.ShortTransaction` | server/binlog_progress.go:116-160 | so do a GTID event and an XA ROLLBACK or an incident right behind it |
| `TrxBoundaries.CaseDoesNotMatter` | mysql/trx_boundary_parser.go:121-142 | two queries that differ only in the case of letters are classified alike |
| `TrxBoundaries.TransactionBoundaryParser.UpdateState` | mysql/trx_boundary_parser.go:189-304 | the state assigned and whether the event is refused, for every state and boundary |
| `TrxBoundaries.RunStripped` | mysql/trx_boundary_parser.go:289-290 | ignorable events never matter to the parser |
| `TrxBoundaries.SplitIntoGroups` | mysql/trx_boundary_parser.go:189-304 | an accepted sequence that ends outside splits into groups of the grammar |
| `TrxBoundaries.GroupsRun` | mysql/trx_boundary_parser.go:189-304 | every sequence of groups is accepted and ends outside |
| `TrxBoundaries.ParserLanguage` | mysql/trx_boundary_parser.go:189-304 | ignorable events aside, a sequence is accepted and ends outside a transaction if and only if it is a concatenation of the groups of the grammar and of groups cut off by an incident |
| `BinlogProgresses.BinlogProgress.constructor` | server/binlog_progress.go:37-62 | a restart: the stored executed set, the parser outside, no current and no saved GTID |
| `BinlogProgresses.BinlogProgress.ResetTo` | server/binlog_progress.go:64-90 | the parser starts over, the set grows by the purged GTIDs and only the set is stored; fails exactly for a set of several servers |
| `BinlogProgresses.BinlogProgress.UpdateProcess` | server/binlog_progress.go:93-162 | the progress after one raw event, when it is stored together with the index, and exactly which events are rejected |
| `BinlogProgresses.NeverFailed` | server/binlog_progress.go:124-131 | over every sequence of events the parser is never left in its error state |
| `BinlogProgresses.DanglingIff` | server/binlog_progress.go:124-145 | an event leaves an uncounted GTID outside any transaction if and only if it is a refused GTID event with a GTID other than the last counted one |
| `ExecutedSets.ExecutedSetExact` | server/binlog_progress.go:116-145 | on every prefix of a stream of groups with ignorable events anywhere, cut and resent groups included, the executed set is the initial one plus exactly the GTIDs of the completed groups |
| `ExecutedSets.ExactAfterCutIff` | server/binlog_progress.go:124-145 | after a cut the next group is tracked exactly if and only if its GTID event is directly followed by a BEGIN, statement, pre-statement or incident |
| `ExecutedSets.NotResumed` | server/binlog_progress.go:124-145 | an ignorable event there counts the GTID too early, an XA rollback loses it |
| `CrashReplay.SimilarStep` | server/binlog_progress.go:133-160 | one entry keeps a restarted progress and the uninterrupted one similar |
| `CrashReplay.CrashTransparent` | server/binlog_progress.go:37-62 | over every log, every choice of checkpoints and every sequence of crashes, a node that has caught up with the furthest entry it ever applied has exactly the executed set of the uninterrupted run |
| `CrashReplay.RestartAndReplay` | server/apply.go:144-211 | after any history, a restart from the stored pair and a replay of the rest of the log ends with the executed set of the uninterrupted run |
| `Gtids.EqualToMeans` | vendor/github.com/siddontang/go-mysql/mysql/mysql_gtid.go:386-405 | the equality test holds if and only if the new set is the stored one restricted to the new set's servers |
| `Gtids.Update` | vendor/github.com/siddontang/go-mysql/mysql/mysql_gtid.go:355-364 | a union, for the text of exactly one server's set; anything else is a parse error |
| `Keys.NameParses` | server/apply.go:218-223 | every 64-bit index is read back from its 20-digit key |
| `Keys.NameOrder` | server/apply.go:218-223 | keys of one prefix are in byte order if and only if their indices are in numeric order |
| `Keys.NamesDiffer` | storage/storage.go:22-48 | different keys have different names |
| `Keys.ScanVisits` | storage/meta_storage.go:253-275 | a prefix scan visits exactly the keys of its kind, by increasing index |
| `MetaStores.MetaStore.SetBinlogProgress` | storage/meta_storage.go:207-229 | index and set change together and nothing else does |
| `MetaStores.WithMasterMeans` | server/apply.go:190-200 | of the master's purged GTIDs exactly those of servers without any purged GTID are added |
| `MetaStores.MetaStore.SetPreviousGtidSet` | storage/meta_storage.go:253-286 | the set is recorded unless a recorded one counts as equal, and no two recorded sets are ever equal |
| `MetaStores.MetaStore.DeletePreviousGtidSet` | storage/meta_storage.go:288-315 | exactly the recorded sets below the index go |
| `MetaStores.MetaStore.GetPreviousGtidSet` | storage/meta_storage.go:324-377 | the first recorded position for an empty slave set, else the last one whose set the slave contains; an error exactly when there is none |
| `MetaStores.MetaStore.UpdatePurgedGtidSet` | storage/meta_storage.go:380-441 | the first recorded set beyond the first index is merged into gtid_purged and the recorded sets below go; exactly when nothing happens and when it is fatal |
| `MetaStores.MetaStore.GetFde` | storage/meta_storage.go:444-487 | the format description at the greatest index below the argument; an error exactly when there is none or it is empty |
| `MetaStores.MetaStore.GetNextBinlogFile` | storage/meta_storage.go:490-535 | the name at the greatest index below the start; where there is none or an empty one, the predecessor of the next name; exactly when there is an error |
| `MetaStores.PreviousIsPredecessor` | storage/meta_storage.go:537-550 | the generated name is the one whose successor is the given name |
| `BinlogServers.CheckGtidSet` | server/binlog_server.go:292-321 | passes if and only if the slave has all purged GTIDs and, of servers the master knows, only executed ones |
| `BinlogServers.ExcludingMeans` | server/binlog_server.go:244-273 | the filter flag says whether the latest GTID or ROTATE event is a GTID the slave has, or one that cannot be read |
| `BinlogServers.SentExactly` | server/binlog_server.go:173-242 | the events sent are, once each and in log order, those of exactly the entries outside the excluded groups |
| `RawEvents.GtidLayout` | vendor/github.com/siddontang/go-mysql/replication/event.go:325-332 | in the bytes of a GTID event the server id is the sixteen bytes behind the flag and the number the eight behind that, least significant first, whatever precedes and follows; a number no GTID can have is refused |
| `RawEvents.GtidApplies` | server/apply.go:238-252 | the GTID in those bytes is the one that is applied and the one the filter compares |
| `RawEvents.GroupLaw` | server/binlog_server.go:244-273 | an event of a group is sent if and only if the slave lacks the GTID in the bytes of the event that opens the group |
| `RawEvents.RotateLaw` | server/binlog_server.go:269-272 | a rotation is always sent, and so is everything behind it up to the next GTID event |
| `BinlogServers.DumpMissesNothing` | server/binlog_server.go:173-273 | from the chosen start, every event of every stored transaction that the slave lacks is sent |
| `BinlogServers.Dump.CatchUp` | server/binlog_server.go:187-240 | reads exactly the entries up to the applied index, without gap or repeat, and sends what the filter lets through; fails exactly when an entry is not stored |
| `ServedLogs.ApplySoundIff` | server/apply.go:270-283 | applying an entry for the first time keeps the metadata sound if and only if no purge has overtaken an entry whose set is recorded |
| `ServedLogs.ReplayKeeps` | server/apply.go:61-85 | applying an entry again after a restart keeps the metadata sound, also when purges came in between |
| `ServedLogs.EmptyStaysFirst` | storage/meta_storage.go:253-286 | an empty set is only ever recorded where no previous-GTIDs event came before |
| `ServedLogs.AnnouncedKeeps` | server/apply.go:214-268 | every applied or re-applied entry keeps the stored format descriptions and file names exactly those of the applied events, each at its index |
| `ServedLogs.FormatFromHistory` | storage/meta_storage.go:444-487 | in every sound state the format description found for a start is the last one applied below it, and there is one if and only if one was applied |
| `ServedLogs.FileFromHistory` | storage/meta_storage.go:490-535 | and the file name is that of the last rotation applied below the start, or the predecessor of the name in the first rotation from there on |
| `ServedLogs.PurgeSoundIff` | storage/disk_storage.go:282-306 | a purge keeps the metadata sound if and only if a mergeable recorded set lies beyond the new first index or no recorded set lies below it |
| `ServedLogs.PurgedGrows` | storage/meta_storage.go:420-432 | gtid_purged never shrinks |
| `ServedLogs.PurgedCovered` | storage/meta_storage.go:380-441 | with sound metadata gtid_purged contains the GTID of every removed event |
| `ServedLogs.PurgeCanStrand` | storage/meta_storage.go:400-418 | a purge behind the only recorded set leaves it below the first index |
| `ServedLogs.CutKeeps` | storage/disk_storage.go:262-268 | cutting across segments, which leaves the first index, keeps the metadata sound |
| `ServedLogs.CutPurgesIff` | storage/disk_storage.go:262-268 | such a cut leaves gtid_purged alone if and only if the next recorded set adds nothing to it |
| `ServedLogs.CutRefuses` | storage/disk_storage.go:262-268 | after it every slave that lacks a transaction before that set is refused, although the transaction is stored |
| `ServedLogs.CutCanRefuse` | storage/disk_storage.go:262-268 | a slave that was welcome before a cut and is refused after it |
| `ServedLogs.RunSound` | server/apply.go:61-85 | over every run of first applications, restarts, replays, purges and cuts the metadata stays sound |
| `ServedLogs.DumpsComplete` | server/binlog_server.go:173-273 | in every such run, for every slave that passes the check, the dump start is still stored and no stored, applied transaction the slave lacks is missed |
| `Serving.ApplyEntry` | server/apply.go:93-115 | applying an entry with the applier, for the first time or again, is a step of those runs, and the history is what the applied entries mean; exactly when it fails |
| `Serving.Restart` | raft/raft.go:162-174 | a restart with the stored applied index is a step of those runs |
| `Serving.CutLog` | storage/disk_storage.go:230-306 | a cut behind everything applied leaves the metadata as it was or is a purge step with the same first index; the history stays tracked and every applied entry stays stored |
| `Serving.PurgeLog` | storage/disk_storage.go:388-430 | a purge of the stored log is a purge step to its new first index; store, metadata and history belong together afterwards if and only if a mergeable recorded set lies beyond that index or none lies below it |
| `Serving.PurgeTracks` | storage/disk_storage.go:282-306 | under that condition a purge step keeps the history tracked |
| `Serving.StoresApplied` | server/binlog_server.go:187-204 | the stored entries up to the applied index carry exactly the GTIDs of the history |
| `Serving.FindStart` | mysql/command.go:466-492 | a dump request is accepted if and only if it passes the GTID check and a start, a format description and a file name are known; the format description and the name are those of the events applied around the start |
| `Serving.Serve` | mysql/command.go:451-517 | a slave is served exactly then, the start being always inside the stored log; it is sent that format description and name, every event of every applied, stored transaction it lacks, and nothing but what the filter lets through from that start on |
| `Lifetimes.SiteStepKeeps` | raft/raft.go:213-312 | ready batches with cuts, taking and applying batches, purges and restarts each keep the raft side, the metadata side and the link between them |
| `Lifetimes.LifeInv` | raft/raft.go:162-174 | over every life of a node, any number of processes long, all of that holds |
| `Lifetimes.AppliedStaysStored` | raft/raft.go:243-279 | in every state of every life each entry ever applied is in the stored log at its index unless purged, and the metadata is sound for what those entries mean |
| `Lifetimes.ServeInLife` | mysql/command.go:451-517 | at any moment of any life a slave is served exactly when it is welcome, and is sent the right format description and file name and every event of every applied, stored transaction it lacks |
| `Appliers.Server.constructor` | raft/raft.go:162-174 | a restart takes progress and applied index from the store |
| `Appliers.Server.ApplyBinlogEvent` | server/apply.go:214-286 | the whole metadata after a format description, a rotation or a GTID event, what a previous-GTIDs event records, the current GTID, and which events are rejected |
| `Appliers.AppliedAnnounces` | server/apply.go:214-268 | an applied entry announces a format description exactly if its event is of type 15, with all its bytes, and a rotation exactly if it is of type 4, with the bytes behind the first 27 |
| `Appliers.Server.ApplyMySQLBinlogEvent` | server/apply.go:144-168 | one event, or one part of a divided event, is one step of the crash model and one step of the metadata model; exactly which are fatal; where a transaction completes the stored index is at most 10000 entries behind |
| `Appliers.CheckpointFirstIff` | server/apply.go:154-167 | an event with metadata makes a checkpoint, which is stored before the metadata, if and only if it is no GTID event and finds a GTID dangling; else the stored pair stays |
| `Appliers.Server.ApplyNodeAttributes` | server/apply.go:289-302 | the name and admin URLs of a member change; a message that does not decode and an id never seen are fatal, and nothing else is |
| `Appliers.Server.ApplyMasterGtidPurged` | server/apply.go:172-211 | the purged sets of unknown servers are added, the executed set grows by exactly the given one and the parser starts over; fails exactly for a set of several servers |
| `Appliers.Server.ApplyEntry` | server/apply.go:93-141 | one committed entry is one step of the crash model, one of the metadata model and one of the membership model, and becomes the applied index; it fails exactly when it does not decode, is of an unknown type, names another member than it carries, or describes an id never seen |
| `Appliers.Server.Apply` | server/apply.go:93-115 | the loop applies every entry once, in order, and is a run of the crash model and of the membership model; exactly which batches fail, and whether the node itself was removed |
| `Appliers.UpdatesRun` | server/apply.go:93-115 | the cluster after a batch is the cluster after the run of its configuration changes and attribute updates |
| `Appliers.AppliedMark` | server/apply.go:144-168 | an entry was applied as a GTID if and only if the dump filter reads that GTID in it |
| `Appliers.EntryKinds` | server/apply.go:93-141 | what an entry is taken for, by its type and the first byte of its data |
| `Appliers.Server.ApplyEntries` | server/apply.go:61-85 | of a batch that overlaps what is applied only the rest is applied; a batch with a gap is a panic |
| `Appliers.CommandWellFormed` | server/apply.go:144-168 | only a GTID event carries a GTID |
| `Appliers.CommandsRun` | server/apply.go:93-115 | a run of applied commands is the run of the crash model over the same log |
| `AppliedPrefix.AppliedIsCommittedPrefix` | raft/raft.go:243-279 | in every interleaving of ready batches, overlapping committed batches, applies and purges: each index is applied once and in ascending order, the applied index is never behind the stored log, and applied entries are in the log unless purged |
| `AppliedPrefix.AppliedNeverChanges` | server/binlog_server.go:187-204 | an entry that was applied, and so could be sent by a dump, never changes until it is purged |
| `AppliedPrefix.StepKeeps` | raft/raft.go:213-312 | every step of the three loops keeps the invariant |
| `Packets.BaseConn.WritePacket` | mysql/base_conn.go:109-143 | writes exactly the packets of the payload, although each later header is put over payload bytes in the buffer |
| `Packets.BaseConn.ReadPacket` | mysql/base_conn.go:70-105 | reads packets until one is not full; which input is refused |
| `Packets.BaseConn.WriteEvent` | mysql/base_conn.go:148-195 | one packet, with a leading zero byte when it is the first; refused exactly when it is too long |
| `Packets.PacketRoundTrip` | mysql/base_conn.go:70-143 | the reader returns the payload with both sequence numbers equal modulo 256 if and only if its length is no multiple of 2^24-1 |
| `Packets.ReadsOnlyWritten` | mysql/base_conn.go:70-105 | the reader accepts no input but what the writer writes for some payload, with its sequence numbers |
| `Packets.FrameBytes` | mysql/base_conn.go:109-143 | the four header bytes of a packet |
| `Fragments.DivideBinlogEvent` | server/binlog_syncer.go:343-392 | the number of parts and the bytes of each |
| `Fragments.ProposeBinlogEvent` | server/binlog_syncer.go:176-210 | which events are divided, on 32-bit sizes |
| `Fragments.SendEvents` | mysql/command.go:533-558 | one packet per part, and an empty one behind a full last part; fails exactly when a part is too long |
| `Fragments.ReassembledExactly` | server/binlog_syncer.go:343-392 | of dividing and sending alone: the packets reassemble to a zero byte and the event if and only if its length is zero or no multiple of 2^24-1; else exactly the last byte is missing, and at 2^24-1 the sequence is not terminated |
| `Fragments.AlwaysSendable` | mysql/command.go:533-558 | every packet of every event below 2^32-1 bytes fits |
| `Fragments.LargestNotSendable` | server/binlog_syncer.go:176-180 | at 2^32-1 bytes the size test wraps and the event cannot be sent |
| `DividedEvents.LargestNotStored` | storage/disk_storage.go:309-320 | a batch with such an event fits no segment, so storing it is fatal before it could be applied |
| `DividedEvents.FirstPartRefused` | server/binlog_progress.go:108-112 | applying refuses the first part of every event from 2^24-1 bytes on, because its header announces the whole size |
| `DividedEvents.EmptySecondPart` | server/apply.go:154-167 | at 2^24-2 bytes the first of two parts is the whole event and is applied as such; the second is empty and is fatal if and only if the type is GTID, ROTATE or PREVIOUS_GTIDS |
| `DividedEvents.EmptyDescriptionHides` | server/apply.go:214-231 | an empty part stored as a format description hides the one before it from every later start |
| `DividedEvents.CarriedCommand` | utils/pb_utils.go:68-77 | applying a proposed entry is applying the event that was encoded into it |
| `DividedEvents.AppliedIff` | server/apply.go:144-168 | in any cluster, the entries of an event that would be applied undivided can all be applied if and only if it is smaller than 2^24-2 bytes, or of 2^24-2 bytes and not of one of those three types, or of 2^32-1 bytes |
| `DividedEvents.DeliveredIff` | server/binlog_syncer.go:176-210 | an event is applied, fits its packets and reaches a replica whole if and only if it is smaller than 2^24-2 bytes, or of 2^24-2 bytes and not of one of those three types |
| `Membership.RaftCluster.ValidateConfigurationChange` | raft/membership/cluster.go:235-291 | which changes the stored cluster rejects, and with which error |
| `Membership.RaftCluster.AddMember` | raft/membership/cluster.go:296-306 | the member is added and the whole cluster saved |
| `Membership.RaftCluster.RemoveMember` | raft/membership/cluster.go:310-321 | the member moves to the removed ids and the whole cluster is saved |
| `Membership.RaftCluster.UpdateAttributes` | raft/membership/cluster.go:324-341 | a member's name and admin URLs, in memory and in the stored copy; a removed id is skipped and an unknown one is a panic |
| `Membership.DescribedKeeps` | raft/membership/cluster.go:324-341 | attributes change no id, no peer URL and no removed id, so the cluster stays sound |
| `Membership.RaftCluster.UpdateRaftAttributes` | raft/membership/cluster.go:344-355 | a member's peer URLs change and the whole cluster is saved |
| `Membership.RaftCluster.ApplyConfChange` | server/apply.go:322-369 | a committed change succeeds if and only if its id was never removed, is new for an addition and a member otherwise, and the member it brings has that id and no peer URL of another; then exactly that member is added, changed in its peer URLs or moved to the removed ids, in memory and in the stored copy, and everything else stays |
| `Membership.ErrorsExact` | raft/membership/cluster.go:235-291 | which changes are rejected with which error |
| `Membership.MembersOfRun` | raft/membership/cluster.go:235-355 | an id is a member after a run if and only if it was one or an accepted addition named it, and no accepted removal did; it is a removed one if and only if it was or an accepted removal named it |
| `Membership.RaftCluster.IsReadyToAddNewMember` | raft/membership/cluster.go:358-384 | accepted if and only if the started members are a majority of the enlarged cluster, or a single started member is all of it |
| `Membership.RaftCluster.IsReadyToRemoveMember` | raft/membership/cluster.go:387-409 | accepted if and only if the started members that stay are a majority of those that stay |
| `Membership.RunKeeps` | raft/membership/cluster.go:235-355 | over every run of changes and attribute updates members and removed ids stay disjoint, members never share a peer URL, and no removed id returns |
| `Membership.RemovedForGood` | raft/membership/cluster.go:310-341 | after an applied removal the id is gone for the rest of the run, and attributes for it change and end nothing |

## Left out

- etcd raft, bolt and go-mysql: raft's promises are the assumptions of `AppliedPrefix`, `RaftNodes` and `Lifetimes` (across restarts: an entry ever applied is never overwritten and is committed again at its index), a bolt bucket is an ordered map with atomic updates, GTID interval lists are the sets they denote.
- mmap, fsync, preallocation, file names and renames: files are byte arrays, and a crash is any loss of the buffered index with the record file kept.
- Locks, goroutines and channels: the three loops are interleaved step by step in `AppliedPrefix`; inside a class method nothing else runs.
- Timers: the four-second checkpoint interval is a parameter, the purge timer and heartbeats are not modelled, and nothing is claimed about a waiting dump being woken.
- HTTP administration, configuration, logging, metrics, the in-memory storage and the command-line tools.
- The MySQL handshake, SQL dispatch, result sets, and the heartbeat and fake rotate events.
- The direct reset of progress when a syncer starts: only the reset that goes through the log is modelled.
- Replaying configuration changes after a restart: a change rejected once may be accepted when replayed, so nothing is claimed.
- The decoders of query text, of a previous-GTIDs event, of a configuration change and of JSON messages are parameters.
- Syncer arguments and master information are stored under keys that no modelled property depends on; only whether they decode is modelled.
- The fields kept for heartbeats, the last binlog file and position, are not part of progress here.
- Codec.UnmarshalRecord: positions are unbounded integers, so the overflow check on a malformed length near 2^63 is not modelled.
- Codec.UnmarshalEvent: the same holds here.
- Appliers.Server.ApplyBinlogEvent: a GTID number that no GTID can have is rejected when its event is applied; the code stores it and fails when the transaction ends.
- ServedLogs.DumpsComplete: assumes that a previous-GTIDs event lists every GTID before it, and that a GTID event before the first recorded set is in gtid_purged, as the source of the binlog promises; and that no purge has overtaken a previous-GTIDs event that is being applied, which the purger, counting segments only, does not check (`ServedLogs.ApplySoundIff` is the exact condition).
- Serving.Serve: the fake rotate event and the format description sent before the log, and waiting for entries to come, are not part of it.
- Lifetimes.LifeInv: a restart finds either both or none of an entry's checkpoint and metadata; when a crash can come between them is the subject of `Appliers.CheckpointFirstIff`.
- AppliedPrefix.AppliedIsCommittedPrefix: a run starts at a process start; what a restart repeats is the subject of `CrashReplay`.
