/** Opening a store from the files a previous run left behind, after a clean stop or a crash. */
module Restart {
  import opened Bytes
  import opened Messages
  import opened RecordLog
  import opened Records
  import opened Segments
  import opened DiskStorages
  import opened Recovery
  import MetaStores

  /** What a segment leaves on disk: the range in its name, the record file, the index file. */
  datatype SegmentFiles = SegmentFiles(first: nat, last: nat, contents: seq<byte>, cells: seq<byte>)

  ghost predicate FilesHold(f: SegmentFiles, log: seq<Entry>, enc: Encoder, size: nat)
  {
    && log != [] && AllStorable(log) && Contiguous(log)
    && |f.contents| == size && EncodeLog(enc, log) <= f.contents && f.first == log[0].index
  }

  ghost predicate SealedFiles(f: SegmentFiles, log: seq<Entry>, enc: Encoder, size: nat)
  {
    FilesHold(f, log, enc, size) && f.last == f.first + |log| - 1 && f.cells == Cells(IndexOf(enc, log))
  }

  /** After a crash the index file may hold anything; the record file must not read on behind the log. */
  ghost predicate LastFiles(f: SegmentFiles, log: seq<Entry>, enc: Encoder, crc: Checksum, size: nat, crashed: bool)
  {
    && FilesHold(f, log, enc, size)
    && if crashed then EndsWith(crc, enc, f.contents, log) else f.cells == Cells(IndexOf(enc, log))
  }

  ghost predicate Consecutive(logs: seq<seq<Entry>>)
  {
    && (forall i :: 0 <= i < |logs| ==> logs[i] != [])
    && (forall i :: 0 < i < |logs| ==> logs[i][0].index == logs[i - 1][0].index + |logs[i - 1]|)
  }

  function Joined(logs: seq<seq<Entry>>): (log: seq<Entry>)
  {
    if logs == [] then [] else Joined(logs[..|logs| - 1]) + logs[|logs| - 1]
  }

  /** openSegments: the reopened store is valid and holds exactly the log that was on disk. */
  method OpenSegments(crc: Checksum, ghost enc: Encoder, size: nat, files: seq<SegmentFiles>, needRecover: bool,
                      meta: MetaStores.MetaStore, ghost logs: seq<seq<Entry>>) returns (store: DiskStorage)
    requires size <= TWO_32 && Encodes(enc, crc) && |files| == |logs| && Consecutive(logs)
    requires forall i :: 0 <= i < |files| - 1 ==> SealedFiles(files[i], logs[i], enc, size)
    requires files != [] ==> LastFiles(files[|files| - 1], logs[|files| - 1], enc, crc, size, needRecover)
    ensures fresh(store) && fresh(store.Footprint())
    ensures store.Valid() && store.Log() == Joined(logs)
    ensures store.segmentSize == size && store.enc == enc && store.crc == crc && store.meta == meta
  {
    hide Segment.Valid, Encodes, DiskStorage.Valid, DiskStorage.AllSealed, LogOf, FootprintOf, SealedFiles, LastFiles;
    store := new DiskStorage(crc, enc, size, false, meta);
    if files == [] { assert store.Footprint() == {} by { store.NoFootprint(); } return; }
    store.NothingIsSealed();
    OpenFront(store, files, logs);
    ghost var n := |files| - 1;
    OpenLast(store, files[|files| - 1], needRecover, logs[n]);
    hide Joined;
    JoinedOneMore(logs, n);
    assert logs[..n + 1] == logs;
  }

  /** Opens the last file, the writable one, behind the sealed segments. */
  method OpenLast(store: DiskStorage, f: SegmentFiles, needRecover: bool, ghost log: seq<Entry>)
    requires store.AllSealed() && !store.live && store.segmentSize <= TWO_32 && Encodes(store.enc, store.crc)
    requires log != [] && LastFiles(f, log, store.enc, store.crc, store.segmentSize, needRecover)
    requires store.segments != [] ==> log[0].index == store.segments[|store.segments| - 1].lastIndex + 1
    modifies store
    ensures store.Valid() && store.Log() == old(store.Log()) + log
    ensures forall o :: o in store.Footprint() ==> o in old(store.Footprint()) || fresh(o)
  {
    hide Segment.Valid, Encodes, Clean, DiskStorage.Valid, DiskStorage.AllSealed, LogOf, FootprintOf, EncodeLog,
         EndsWith;
    ghost var footprint := store.Footprint();
    store.FootprintExists();
    var last := OpenReadWrite(store.crc, store.enc, f.first, f.contents, f.cells, needRecover, log);
    last.value.RangeFacts();
    assert footprint !! last.value.Repr();
    store.AttachLast(last.value);
  }

  method OpenFront(store: DiskStorage, files: seq<SegmentFiles>, ghost logs: seq<seq<Entry>>)
    requires store.AllSealed() && store.segments == [] && !store.live
    requires |files| == |logs| && files != [] && Consecutive(logs) && store.segmentSize <= TWO_32
    requires forall i :: 0 <= i < |files| - 1 ==> SealedFiles(files[i], logs[i], store.enc, store.segmentSize)
    modifies store
    ensures store.AllSealed() && |store.segments| == |files| - 1
    ensures forall o :: o in store.Footprint() ==> fresh(o)
    ensures store.Log() == Joined(logs[..|files| - 1])
    ensures |files| > 1 ==> store.segments[|files| - 2].lastIndex + 1 == logs[|files| - 1][0].index
  {
    hide Segment.Valid, Encodes, DiskStorage.AllSealed, LogOf, FootprintOf, SealedFiles, Joined;
    store.NoFootprint();
    JoinedNone(logs);
    var i := 0;
    while i < |files| - 1
      invariant 0 <= i <= |files| - 1 && |store.segments| == i
      invariant store.AllSealed() && store.Log() == Joined(logs[..i])
      invariant forall o :: o in store.Footprint() ==> fresh(o)
      invariant i > 0 ==> store.segments[i - 1].lastIndex + 1 == logs[i][0].index
    {
      OpenOne(store, files[i], logs[i]);
      JoinedOneMore(logs, i);
      i := i + 1;
    }
  }

  lemma JoinedNone(logs: seq<seq<Entry>>)
    ensures Joined(logs[..0]) == []
  {
  }

  lemma JoinedOneMore(logs: seq<seq<Entry>>, i: nat)
    requires i < |logs|
    ensures Joined(logs[..i + 1]) == Joined(logs[..i]) + logs[i]
  {
    assert logs[..i + 1][..i] == logs[..i];
  }

  /** Opens one sealed file behind the segments opened so far. */
  method OpenOne(store: DiskStorage, f: SegmentFiles, ghost log: seq<Entry>)
    requires store.AllSealed() && !store.live && store.segmentSize <= TWO_32
    requires log != [] && SealedFiles(f, log, store.enc, store.segmentSize)
    requires store.segments != [] ==> log[0].index == store.segments[|store.segments| - 1].lastIndex + 1
    modifies store
    ensures store.AllSealed() && |store.segments| == |old(store.segments)| + 1
    ensures store.Log() == old(store.Log()) + log
    ensures store.segments[|store.segments| - 1].lastIndex + 1 == log[0].index + |log|
    ensures forall o :: o in store.Footprint() ==> o in old(store.Footprint()) || fresh(o)
  {
    hide Segment.Valid, Encodes, Clean, DiskStorage.AllSealed, LogOf, FootprintOf, EncodeLog;
    ghost var footprint := store.Footprint();
    store.FootprintExists();
    var s := OpenReadOnly(store.crc, store.enc, f.first, f.last, f.contents, f.cells, log);
    s.RangeFacts();
    assert footprint !! s.Repr();
    store.AttachSealed(s);
  }

  /** The files behind a segment, with everything buffered in the index flushed. */
  ghost function FilesOf(s: Segment): SegmentFiles
    reads s.Repr()
  {
    var index := s.logIndex;
    var cells := if index.readonly.Some? then index.readonly.value
                 else if index.readWrite.Some? then index.readWrite.value.file + index.readWrite.value.pending
                 else [];
    SegmentFiles(s.firstIndex, s.lastIndex, s.logFile.mappedData[..], cells)
  }

  ghost function LogsOf(segs: seq<Segment>): (logs: seq<seq<Entry>>)
    reads segs
    ensures |logs| == |segs| && forall i :: 0 <= i < |segs| ==> logs[i] == segs[i].log
  {
    if segs == [] then [] else LogsOf(segs[..|segs| - 1]) + [segs[|segs| - 1].log]
  }

  lemma {:induction false} JoinedLogs(segs: seq<Segment>)
    ensures Joined(LogsOf(segs)) == LogOf(segs)
  {
    if segs != [] {
      var n := |segs| - 1;
      JoinedLogs(segs[..n]);
      assert LogsOf(segs)[..n] == LogsOf(segs[..n]);
    }
  }

  lemma SegmentLeaves(store: DiskStorage, i: nat, lost: seq<byte>)
    requires store.Valid() && i < |store.segments|
    ensures var s, f := store.segments[i], FilesOf(store.segments[i]);
            && (i < |store.segments| - 1 ==> SealedFiles(f, s.log, store.enc, store.segmentSize))
            && (i == |store.segments| - 1 ==> LastFiles(f, s.log, store.enc, store.crc, store.segmentSize, false))
            && (i == |store.segments| - 1 && s.ZeroTail() ==>
                  LastFiles(f.(cells := lost), s.log, store.enc, store.crc, store.segmentSize, true))
  {
    hide Encodes, Separate, EncodeLog, BadFrame, Leftover;
    var s := store.segments[i];
    assert SegmentOk(store.segments, i, store.enc, store.crc, store.segmentSize, store.live);
    if s.ZeroTail() {
      var (record, entry) := Leftover(store.crc, store.enc, s.log, |s.log|);
      ZerosAreBad(store.crc, s.logFile.mappedData[..], |EncodeLog(store.enc, s.log)|, record, entry);
    }
  }

  lemma LogsFollow(store: DiskStorage)
    requires store.Valid()
    ensures Consecutive(LogsOf(store.segments))
  {
    hide Segment.Valid, Encodes, Clean, Separate, LogsOf;
    var segs := store.segments;
    forall i | 0 <= i < |segs|
      ensures segs[i].log != [] && segs[i].log[0].index == segs[i].firstIndex
      ensures segs[i].lastIndex == segs[i].firstIndex + |segs[i].log| - 1
    {
      assert SegmentOk(segs, i, store.enc, store.crc, store.segmentSize, store.live);
      segs[i].RangeFacts();
    }
    forall i | 0 < i < |segs|
      ensures segs[i].log[0].index == segs[i - 1].log[0].index + |segs[i - 1].log|
    {
      assert SegmentOk(segs, i, store.enc, store.crc, store.segmentSize, store.live);
      assert segs[i].firstIndex == segs[i - 1].lastIndex + 1;
    }
    var logs: seq<seq<Entry>> := LogsOf(segs);
    forall i | 0 < i < |logs| ensures logs[i][0].index == logs[i - 1][0].index + |logs[i - 1]| {
      assert logs[i] == segs[i].log && logs[i - 1] == segs[i - 1].log;
    }
  }

  /**
   What a valid store leaves on disk is enough to reopen it with the same log, even with the
   last index file replaced by anything, provided the last record file ends in zeros.
   */
  lemma StoreSurvives(store: DiskStorage, files: seq<SegmentFiles>, lost: seq<byte>)
    requires store.Valid() && |files| == |store.segments|
    requires forall i :: 0 <= i < |files| ==> files[i] == FilesOf(store.segments[i])
    ensures var logs := LogsOf(store.segments);
            && Consecutive(logs) && Joined(logs) == store.Log()
            && (forall i :: 0 <= i < |files| - 1 ==> SealedFiles(files[i], logs[i], store.enc, store.segmentSize))
            && (files != [] ==>
                 LastFiles(files[|files| - 1], logs[|files| - 1], store.enc, store.crc, store.segmentSize, false))
            && (files != [] && store.segments[|files| - 1].ZeroTail() ==>
                  LastFiles(files[|files| - 1].(cells := lost), logs[|files| - 1], store.enc, store.crc,
                      store.segmentSize, true))
  {
    hide DiskStorage.Chained, SealedFiles, LastFiles, FilesOf, LogOf, Consecutive;
    LogsFollow(store);
    JoinedLogs(store.segments);
    forall i | 0 <= i < |files| - 1
      ensures SealedFiles(files[i], store.segments[i].log, store.enc, store.segmentSize)
    {
      SegmentLeaves(store, i, lost);
    }
    if files != [] { SegmentLeaves(store, |files| - 1, lost); }
  }
}
