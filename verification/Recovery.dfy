/** Reopening segment files: rebuilding a lost index, and finding the write position again. */
module Recovery {
  import opened Bytes
  import opened Messages
  import opened RecordLog
  import opened Records
  import opened StorageErrors
  import opened MmapFiles
  import opened Indexes
  import opened Segments
  import Codec

  /**
   A scan that holds these two messages cannot read on at `pos`: out of room, no length, or a
   record that does not open into them.
   */
  predicate BadFrame(crc: Checksum, file: seq<byte>, pos: nat, record: Record, entry: Entry)
  {
    || pos + RECORD_LENGTH_SIZE >= |file|
    || var end := pos + RECORD_LENGTH_SIZE + LengthAt(file, pos);
       || end > |file|
       || LengthAt(file, pos) == 0
       || OpenRecord(crc, record, entry, file[pos + RECORD_LENGTH_SIZE..end]).None?
  }

  /** The index entries a scan from `pos` finds; the two messages are reused without a reset. */
  function Scan(crc: Checksum, file: seq<byte>, pos: nat, record: Record, entry: Entry): (cs: seq<IndexEntry>)
    decreases |file| - pos
  {
    if |file| <= pos + RECORD_LENGTH_SIZE then []
    else
      var at := pos + RECORD_LENGTH_SIZE;
      var n := LengthAt(file, pos);
      if |file| < at + n || n == 0 then []
      else match OpenRecord(crc, record, entry, file[at..at + n])
        case None => []
        case Some((rec, e)) =>
          [IndexEntry(e.index, pos % TWO_32)] + Scan(crc, file, at + n, rec, e)
  }

  /** rebuildIndex: scans the file from the start into a new index. */
  method RebuildIndex(crc: Checksum, file: seq<byte>) returns (index: Index)
    ensures fresh(index) && index.Holds(Scan(crc, file, 0, NEW_RECORD, NEW_ENTRY), SegmentRDWR)
  {
    hide OpenRecord, ParseRecord, ParseEntry;
    index := new Index.New();
    ghost var done: seq<IndexEntry> := [];
    var position, record, entry := 0, NEW_RECORD, NEW_ENTRY;
    while true
      invariant position <= |file|
      invariant fresh(index) && index.Holds(done, SegmentRDWR)
      invariant done + Scan(crc, file, position, record, entry) == Scan(crc, file, 0, NEW_RECORD, NEW_ENTRY)
      decreases |file| - position
    {
      if |file| <= position + RECORD_LENGTH_SIZE { break; }
      var recordLen := LengthAt(file, position);
      var at := position + RECORD_LENGTH_SIZE;
      if |file| <= at || |file| < at + recordLen { break; }
      if recordLen == 0 { break; }
      var opened' := Unpack(crc, record, entry, file[at..at + recordLen]);
      if opened'.None? { break; }
      ghost var found := IndexEntry(opened'.value.1.index, position % TWO_32);
      index.AppendIndexEntry(IndexEntry(opened'.value.1.index, position % TWO_32), done);
      ConcatAssoc(done, [found], Scan(crc, file, at + recordLen, opened'.value.0, opened'.value.1));
      done := done + [found];
      record, entry := opened'.value.0, opened'.value.1;
      position := at + recordLen;
    }
    assert done + [] == done;
  }

  method Unpack(crc: Checksum, record: Record, entry: Entry, body: seq<byte>) returns (r: Option<(Record, Entry)>)
    ensures r == OpenRecord(crc, record, entry, body)
  {
    var rec := Codec.UnmarshalRecord(record, body);
    if rec.None? { return None; }
    if crc(DataOf(rec.value)) != rec.value.crc { return None; }
    var e := ParseEntry(entry, DataOf(rec.value));
    if e.None? { return None; }
    r := Some((rec.value, e.value));
  }

  lemma ScanStops(crc: Checksum, file: seq<byte>, pos: nat, record: Record, entry: Entry)
    ensures Scan(crc, file, pos, record, entry) == [] <==> BadFrame(crc, file, pos, record, entry)
  {
    hide OpenRecord;
  }

  lemma ScanStep(crc: Checksum, file: seq<byte>, pos: nat, body: seq<byte>, record: Record, entry: Entry)
    requires 0 < |body| && pos + RECORD_LENGTH_SIZE + |body| <= |file| && pos < TWO_32
    requires LengthAt(file, pos) == |body|
    requires file[pos + RECORD_LENGTH_SIZE..pos + RECORD_LENGTH_SIZE + |body|] == body
    requires OpenRecord(crc, record, entry, body).Some?
    ensures var (rec, e) := OpenRecord(crc, record, entry, body).value;
            Scan(crc, file, pos, record, entry) ==
            [IndexEntry(e.index, pos)] + Scan(crc, file, pos + RECORD_LENGTH_SIZE + |body|, rec, e)
  {
    hide OpenRecord;
  }

  /** The two messages as a scan over the first k entries of a log leaves them. */
  function Leftover(crc: Checksum, enc: Encoder, log: seq<Entry>, k: nat): (m: (Record, Entry))
    requires k <= |log|
  {
    if k == 0 then (NEW_RECORD, NEW_ENTRY)
    else
      var (record, entry) := Leftover(crc, enc, log, k - 1);
      match OpenRecord(crc, record, entry, enc(log[k - 1]))
      case None => (record, entry)
      case Some(m) => m
  }

  /** Nothing more can be read behind the records of a log. */
  predicate EndsWith(crc: Checksum, enc: Encoder, file: seq<byte>, log: seq<Entry>)
  {
    var (record, entry) := Leftover(crc, enc, log, |log|);
    BadFrame(crc, file, |EncodeLog(enc, log)|, record, entry)
  }

  /** What a scan reads behind the records of a log. */
  function Beyond(crc: Checksum, enc: Encoder, file: seq<byte>, log: seq<Entry>): seq<IndexEntry>
  {
    var (record, entry) := Leftover(crc, enc, log, |log|);
    Scan(crc, file, |EncodeLog(enc, log)|, record, entry)
  }

  /**
   For every file that starts with the frames of a log, the scan finds the index of that log and
   then whatever can be read behind it.
   */
  lemma {:induction false} ScanOfLog(crc: Checksum, enc: Encoder, file: seq<byte>, log: seq<Entry>, k: nat)
    requires Encodes(enc, crc) && |file| <= TWO_32 && AllStorable(log) && k <= |log|
    requires EncodeLog(enc, log) <= file
    ensures var (record, entry) := Leftover(crc, enc, log, k);
            Scan(crc, file, Offset(enc, log, k), record, entry) == IndexOf(enc, log)[k..] + Beyond(crc, enc, file, log)
    decreases |log| - k
  {
    hide Encodes, EncodeLog, OpenRecord, FrameOf, Scan, Offset;
    EncodedLength(enc, log);
    var (record, entry) := Leftover(crc, enc, log, k);
    if k < |log| {
      var e, pos := log[k], Offset(enc, log, k);
      FrameHere(crc, enc, file, log, k, record, entry);
      ScanStep(crc, file, pos, enc(e), record, entry);
      ScanOfLog(crc, enc, file, log, k + 1);
      assert IndexOf(enc, log)[k..] == [IndexEntry(e.index, pos)] + IndexOf(enc, log)[k + 1..];
      ConcatAssoc([IndexEntry(e.index, pos)], IndexOf(enc, log)[k + 1..], Beyond(crc, enc, file, log));
    }
  }

  lemma ScanWhole(crc: Checksum, enc: Encoder, file: seq<byte>, log: seq<Entry>)
    requires Encodes(enc, crc) && |file| <= TWO_32 && AllStorable(log) && EncodeLog(enc, log) <= file
    ensures Scan(crc, file, 0, NEW_RECORD, NEW_ENTRY) == IndexOf(enc, log) + Beyond(crc, enc, file, log)
  {
    hide Encodes, EncodeLog, Scan, Beyond;
    ScanOfLog(crc, enc, file, log, 0);
    assert Offset(enc, log, 0) == 0 && IndexOf(enc, log)[0..] == IndexOf(enc, log);
  }

  /**
   Recovery is exact if and only if the bytes behind the log do not open into the messages that
   the scan of the log has left.
   */
  lemma RecoveryExact(crc: Checksum, enc: Encoder, file: seq<byte>, log: seq<Entry>)
    requires Encodes(enc, crc) && |file| <= TWO_32 && AllStorable(log) && EncodeLog(enc, log) <= file
    ensures Scan(crc, file, 0, NEW_RECORD, NEW_ENTRY) == IndexOf(enc, log) <==> EndsWith(crc, enc, file, log)
  {
    hide Encodes, EncodeLog, Scan, BadFrame;
    ScanWhole(crc, enc, file, log);
    var (record, entry) := Leftover(crc, enc, log, |log|);
    ScanStops(crc, file, |EncodeLog(enc, log)|, record, entry);
    var index, beyond := IndexOf(enc, log), Beyond(crc, enc, file, log);
    assert index + [] == index;
    assert beyond != [] ==> |index + beyond| > |index|;
  }

  /** The record message holds the last record of the log; the entry message at least its index. */
  lemma LeftoverIsLast(crc: Checksum, enc: Encoder, log: seq<Entry>, k: nat)
    requires Encodes(enc, crc) && AllStorable(log) && |EncodeLog(enc, log)| <= TWO_32 && 1 <= k <= |log|
    ensures var (record, entry) := Leftover(crc, enc, log, k);
            record == RecordOf(crc, log[k - 1]).(unrecognized := record.unrecognized) && entry.index == log[k - 1].index
  {
    hide RecordBytes, EntryBytes, ParseRecord, ParseEntry, EncodeLog;
    var e := log[k - 1];
    var (record, entry) := Leftover(crc, enc, log, k - 1);
    assert enc(e) == RecordBytes(RecordOf(crc, e));
    FrameInFile(enc, EncodeLog(enc, log), log, k - 1);
    RecordSizes(crc, e);
    OpenRecordRoundTrip(crc, record, entry, e);
    RecordRoundTrip(record, RecordOf(crc, e));
  }

  lemma FrameHere(crc: Checksum, enc: Encoder, file: seq<byte>, log: seq<Entry>, k: nat, record: Record, entry: Entry)
    requires Encodes(enc, crc) && |file| <= TWO_32 && AllStorable(log) && k < |log|
    requires EncodeLog(enc, log) <= file
    ensures var pos := Offset(enc, log, k);
            && pos + RECORD_LENGTH_SIZE + |enc(log[k])| <= |file| && pos < TWO_32
            && LengthAt(file, pos) == |enc(log[k])| >= 2
            && file[pos + RECORD_LENGTH_SIZE..pos + RECORD_LENGTH_SIZE + |enc(log[k])|] == enc(log[k])
            && Offset(enc, log, k + 1) == pos + RECORD_LENGTH_SIZE + |enc(log[k])|
    ensures OpenRecord(crc, record, entry, enc(log[k])).Some?
    ensures OpenRecord(crc, record, entry, enc(log[k])).value.1.index == log[k].index
  {
    hide EncodeLog, OpenRecord, RecordBytes;
    FrameInFile(enc, file, log, k);
    FrameParts(enc, file, Offset(enc, log, k), log[k]);
    RecordSizes(crc, log[k]);
    OpenRecordRoundTrip(crc, record, entry, log[k]);
  }

  /** Zeros behind the records stop the scan, also when there is no room for a length. */
  lemma ZerosAreBad(crc: Checksum, file: seq<byte>, pos: nat, record: Record, entry: Entry)
    requires pos <= |file| && forall k :: pos <= k < |file| ==> file[k] == 0
    ensures BadFrame(crc, file, pos, record, entry)
  {
    hide OpenRecord;
    if pos + RECORD_LENGTH_SIZE < |file| {
      ZeroLength(file[pos..pos + RECORD_LENGTH_SIZE]);
    }
  }

  lemma {:induction false} ZeroLength(s: seq<byte>)
    requires forall k :: 0 <= k < |s| ==> s[k] == 0
    ensures FromLittleEndian(s) == 0
  {
    if s != [] { ZeroLength(s[1..]); }
  }

  // ---- when recovery is not exact -----------------------------------------------------

  /** A file whose front was overwritten with the frames of a log, the old bytes staying behind them. */
  function Overwritten(enc: Encoder, file: seq<byte>, log: seq<Entry>): (written: seq<byte>)
    requires |EncodeLog(enc, log)| <= |file|
    ensures |written| == |file|
  {
    EncodeLog(enc, log) + file[|EncodeLog(enc, log)|..]
  }

  /**
   Over old bytes, recovery finds exactly the new log if and only if the old bytes behind it do
   not open into what the scan of the new log has left.
   */
  lemma OverwrittenExact(crc: Checksum, enc: Encoder, file: seq<byte>, log: seq<Entry>)
    requires Encodes(enc, crc) && |EncodeLog(enc, log)| <= |file| <= TWO_32 && AllStorable(log)
    ensures Scan(crc, Overwritten(enc, file, log), 0, NEW_RECORD, NEW_ENTRY) == IndexOf(enc, log)
            <==> EndsWith(crc, enc, file, log)
  {
    hide Encodes, EncodeLog, Scan, BadFrame, Leftover;
    var n, written := |EncodeLog(enc, log)|, Overwritten(enc, file, log);
    RecoveryExact(crc, enc, written, log);
    assert written[n..] == file[n..];
    var (record, entry) := Leftover(crc, enc, log, |log|);
    SameTail(crc, file, written, n, record, entry);
  }

  /**
   Old records come back: when the new log ends where an old record starts, the scan goes on with
   all of the old records from there.
   */
  lemma StaleRecordsReturn(crc: Checksum, enc: Encoder, file: seq<byte>, stale: seq<Entry>, j: nat, log: seq<Entry>)
    requires Encodes(enc, crc) && |file| <= TWO_32 && AllStorable(stale) && AllStorable(log)
    requires EncodeLog(enc, stale) <= file && j < |stale| && |EncodeLog(enc, log)| == Offset(enc, stale, j)
    ensures |EncodeLog(enc, log)| <= |file|
    ensures IndexOf(enc, log + stale[j..]) <= Scan(crc, Overwritten(enc, file, log), 0, NEW_RECORD, NEW_ENTRY)
    ensures !EndsWith(crc, enc, file, log)
  {
    hide Encodes, EncodeLog, Scan, Beyond, EndsWith;
    FrameInFile(enc, file, stale, j);
    StaleLayout(enc, file, stale, j, log);
    var all := log + stale[j..];
    ScanWhole(crc, enc, Overwritten(enc, file, log), all);
    OverwrittenExact(crc, enc, file, log);
    assert |IndexOf(enc, all)| > |IndexOf(enc, log)|;
  }

  lemma StaleLayout(enc: Encoder, file: seq<byte>, stale: seq<Entry>, j: nat, log: seq<Entry>)
    requires EncodeLog(enc, stale) <= file && j < |stale|
    requires |EncodeLog(enc, log)| == Offset(enc, stale, j) <= |file|
    ensures EncodeLog(enc, log + stale[j..]) <= Overwritten(enc, file, log)
  {
    hide EncodeLog;
    var front, back := EncodeLog(enc, stale[..j]), EncodeLog(enc, stale[j..]);
    assert stale == stale[..j] + stale[j..];
    EncodeConcat(enc, stale[..j], stale[j..]);
    EncodeConcat(enc, log, stale[j..]);
    EncodeCut(enc, stale, j);
    var n := |front|;
    assert file[..n + |back|] == front + back;
    assert file[n..][..|back|] == back;
  }

  /** A record that holds nothing but a checksum. */
  function ChecksumOnly(c: word32): Record
  {
    Record(c, None, [])
  }

  /**
   A record of a checksum alone keeps the data of the record before it, so it opens exactly when
   it repeats that record's checksum; the scan then counts the last entry twice.
   */
  lemma ChecksumOnlyTail(crc: Checksum, enc: Encoder, file: seq<byte>, log: seq<Entry>, c: word32)
    requires Encodes(enc, crc) && |file| <= TWO_32 && AllStorable(log) && log != [] && EncodeLog(enc, log) <= file
    requires var pos, body := |EncodeLog(enc, log)|, RecordBytes(ChecksumOnly(c));
             && pos + RECORD_LENGTH_SIZE + |body| <= |file| && LengthAt(file, pos) == |body|
             && file[pos + RECORD_LENGTH_SIZE..pos + RECORD_LENGTH_SIZE + |body|] == body
    ensures EndsWith(crc, enc, file, log) <==> c != crc(EntryBytes(log[|log| - 1]))
    ensures c == crc(EntryBytes(log[|log| - 1])) ==>
              IndexOf(enc, log) + [IndexEntry(log[|log| - 1].index, |EncodeLog(enc, log)|)]
              <= Scan(crc, file, 0, NEW_RECORD, NEW_ENTRY)
  {
    hide Encodes, EncodeLog, Scan, Leftover, OpenRecord, RecordBytes, EntryBytes, AllStorable, LengthAt, IndexOf;
    var pos, body := |EncodeLog(enc, log)|, RecordBytes(ChecksumOnly(c));
    var (record, entry) := Leftover(crc, enc, log, |log|);
    ChecksumOnlyOpens(crc, enc, log, c);
    ChecksumOnlyBytes(c);
    ScanWhole(crc, enc, file, log);
    if c == crc(EntryBytes(log[|log| - 1])) {
      ScanStep(crc, file, pos, body, record, entry);
      var (rec, e) := OpenRecord(crc, record, entry, body).value;
      ConcatAssoc(IndexOf(enc, log), [IndexEntry(e.index, pos)],
          Scan(crc, file, pos + RECORD_LENGTH_SIZE + |body|, rec, e));
    }
  }

  lemma ChecksumOnlyBytes(c: word32)
    ensures 2 <= |RecordBytes(ChecksumOnly(c))|
  {
    var fs := RecordFields(ChecksumOnly(c));
    assert FieldsBytes(fs) == FieldBytes(fs.head) + FieldsBytes(fs.tail);
  }

  lemma ChecksumOnlyOpens(crc: Checksum, enc: Encoder, log: seq<Entry>, c: word32)
    requires Encodes(enc, crc) && AllStorable(log) && log != [] && |EncodeLog(enc, log)| <= TWO_32
    ensures var e := log[|log| - 1];
            var (record, entry) := Leftover(crc, enc, log, |log|);
            var got := OpenRecord(crc, record, entry, RecordBytes(ChecksumOnly(c)));
            if c == crc(EntryBytes(e)) then got.Some? && got.value.1.index == e.index else got.None?
  {
    var e := log[|log| - 1];
    var (record, entry) := Leftover(crc, enc, log, |log|);
    hide Leftover, EncodeLog;
    LeftoverIsLast(crc, enc, log, |log|);
    RecordRoundTrip(record, ChecksumOnly(c));
    EntryRoundTrip(entry, e);
  }

  lemma SameTail(crc: Checksum, a: seq<byte>, b: seq<byte>, pos: nat, record: Record, entry: Entry)
    requires pos <= |a| == |b| && a[pos..] == b[pos..]
    ensures BadFrame(crc, a, pos, record, entry) <==> BadFrame(crc, b, pos, record, entry)
  {
    hide OpenRecord;
    if pos + RECORD_LENGTH_SIZE < |a| {
      assert a[pos..pos + RECORD_LENGTH_SIZE] == a[pos..][..RECORD_LENGTH_SIZE];
      assert b[pos..pos + RECORD_LENGTH_SIZE] == b[pos..][..RECORD_LENGTH_SIZE];
      var end := pos + RECORD_LENGTH_SIZE + LengthAt(a, pos);
      if end <= |a| {
        assert a[pos + RECORD_LENGTH_SIZE..end] == a[pos..][RECORD_LENGTH_SIZE..end - pos];
        assert b[pos + RECORD_LENGTH_SIZE..end] == b[pos..][RECORD_LENGTH_SIZE..end - pos];
      }
    }
  }

  // ---- opening segments ---------------------------------------------------------------

  /** A sealed segment: the file name gives the range, the write position stays 0. */
  method OpenReadOnly(crc: Checksum, ghost enc: Encoder, first: nat, last: nat, contents: seq<byte>,
                      cells: seq<byte>, ghost log: seq<Entry>) returns (s: Segment)
    requires |contents| <= TWO_32 && AllStorable(log) && Contiguous(log) && log != []
    requires EncodeLog(enc, log) <= contents && cells == Cells(IndexOf(enc, log))
    requires first == log[0].index && last == first + |log| - 1
    ensures fresh(s.Repr()) && s.Valid() && s.status == SegmentReadOnly
    ensures s.log == log && s.enc == enc && s.crc == crc && s.logFile.maxBytes == |contents|
    ensures s.logFile.writePosition == 0 && s.logFile.mappedData[..] == contents
  {
    var file := new MmapFile.Open(contents);
    var index := new Index.OpenReadOnly(cells);
    s := new Segment.Around(crc, enc, file, index, first, last, SegmentReadOnly, log);
  }

  /**
   A batch from the first index on reaches a segment that was opened read-only: the cut succeeds
   and leaves every byte, so the batch is written over the old records.
   */
  method Refill(s: Segment, records: seq<Record>, ghost es: seq<Entry>) returns (r: Result<()>)
    requires s.Valid() && s.log != [] && s.logFile.writePosition == 0
    requires 0 < |records| == |es| && AllStorable(es) && Contiguous(es) && es[0].index == s.firstIndex
    requires forall i :: 0 <= i < |es| ==> RecordBytes(records[i]) == s.enc(es[i])
    requires |EncodeLog(s.enc, es)| <= s.logFile.maxBytes
    modifies s.Repr()
    ensures r.Ok? && s.Valid() && s.log == es && s.status == SegmentRDWR
    ensures |EncodeLog(s.enc, es)| <= |old(s.logFile.mappedData[..])|
    ensures s.logFile.mappedData[..] == Overwritten(s.enc, old(s.logFile.mappedData[..]), es)
  {
    hide Segment.Valid, EncodeLog, RecordBytes, AllStorable, Contiguous;
    var startIndex := s.firstIndex;
    s.RangeFacts();
    s.FileFacts();
    r := s.TruncateSuffix(startIndex);
    s.RangeFacts();
    s.FileFacts();
    r := s.AppendRecords(records, startIndex, es);
    s.RangeFacts();
    s.FileFacts();
    assert [] + es == es;
    RefilledBytes(s.logFile.mappedData[..], old(s.logFile.mappedData[..]), EncodeLog(s.enc, es));
  }

  lemma RefilledBytes(now: seq<byte>, before: seq<byte>, bytes: seq<byte>)
    requires bytes <= now && |now| == |before| && now[|bytes|..] == before[|bytes|..]
    ensures now == bytes + before[|bytes|..]
  {
    assert now == now[..|bytes|] + now[|bytes|..];
  }

  /** The last segment: its index is rebuilt after a crash and read back after a clean stop. */
  method OpenReadWrite(crc: Checksum, ghost enc: Encoder, first: nat, contents: seq<byte>, cells: seq<byte>,
                       needRecover: bool, ghost log: seq<Entry>) returns (r: Result<Segment>)
    requires Encodes(enc, crc) && |contents| <= TWO_32 && AllStorable(log) && Contiguous(log)
    requires EncodeLog(enc, log) <= contents && (log != [] ==> first == log[0].index)
    requires if needRecover then EndsWith(crc, enc, contents, log) else cells == Cells(IndexOf(enc, log))
    ensures r.Ok? <==> log != []
    ensures r.Ok? ==> fresh(r.value.Repr()) && r.value.Valid() && r.value.status == SegmentRDWR
    ensures r.Ok? ==> r.value.log == log && r.value.enc == enc && r.value.crc == crc
    ensures r.Ok? ==> r.value.logFile.maxBytes == |contents| && r.value.logFile.mappedData[..] == contents
  {
    hide Encodes, EncodeLog, Scan, EndsWith;
    var file := new MmapFile.Open(contents);
    var index := OpenIndex(crc, enc, contents, cells, needRecover, log);
    var lastEntry := index.GetLastRaftEntry(IndexOf(enc, log));
    if lastEntry.Err? { return Err(lastEntry.error); }
    var position := lastEntry.value.filePosition;
    LastFrame(enc, contents, log);
    file.SetPosition(position + LengthAt(contents, position) + RECORD_LENGTH_SIZE);
    var s := new Segment.Around(crc, enc, file, index, first, lastEntry.value.raftIndex, SegmentRDWR, log);
    r := Ok(s);
  }

  method OpenIndex(crc: Checksum, ghost enc: Encoder, contents: seq<byte>, cells: seq<byte>,
                   needRecover: bool, ghost log: seq<Entry>) returns (index: Index)
    requires Encodes(enc, crc) && |contents| <= TWO_32 && AllStorable(log)
    requires EncodeLog(enc, log) <= contents
    requires if needRecover then EndsWith(crc, enc, contents, log) else cells == Cells(IndexOf(enc, log))
    ensures fresh(index) && index.Holds(IndexOf(enc, log), SegmentRDWR)
  {
    hide Encodes, EncodeLog, Scan, EndsWith;
    if needRecover {
      index := RebuildIndex(crc, contents);
      RecoveryExact(crc, enc, contents, log);
    } else {
      IndexFits(enc, contents, log);
      var rw := OpenRWFile(cells, IndexOf(enc, log));
      index := new Index.OpenReadWrite(rw.value);
    }
  }

  lemma IndexFits(enc: Encoder, contents: seq<byte>, log: seq<Entry>)
    requires AllStorable(log) && EncodeLog(enc, log) <= contents && |contents| <= TWO_32
    ensures Representable(IndexOf(enc, log))
  {
    hide EncodeLog;
    forall k | 0 <= k < |log| ensures Offset(enc, log, k) < TWO_32 {
      FrameInFile(enc, contents, log, k);
    }
  }

  /** The write position found from the last cell is the end of the records. */
  lemma LastFrame(enc: Encoder, contents: seq<byte>, log: seq<Entry>)
    requires EncodeLog(enc, log) <= contents && |contents| <= TWO_32 && log != []
    ensures var pos := IndexOf(enc, log)[|log| - 1].filePosition;
            && pos + RECORD_LENGTH_SIZE <= |contents|
            && pos + LengthAt(contents, pos) + RECORD_LENGTH_SIZE == |EncodeLog(enc, log)|
  {
    hide EncodeLog;
    var k := |log| - 1;
    FrameInFile(enc, contents, log, k);
    FrameParts(enc, contents, Offset(enc, log, k), log[k]);
    EncodedLength(enc, log);
  }
}
