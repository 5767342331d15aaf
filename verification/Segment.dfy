/** One segment of the log: a mapped record file and its index. */
module Segments {
  import opened Bytes
  import opened Messages
  import opened RecordLog
  import opened Records
  import opened StorageErrors
  import opened MmapFiles
  import opened Indexes
  import Codec

  /** Marshalled size of an entry, as Entry.Size computes it. */
  function EntrySize(e: Entry): nat
  {
    |EntryBytes(e)|
  }

  function TotalSize(es: seq<Entry>): nat
  {
    if es == [] then 0 else TotalSize(es[..|es| - 1]) + EntrySize(es[|es| - 1])
  }

  lemma TotalSizeSnoc(es: seq<Entry>, e: Entry)
    ensures TotalSize(es + [e]) == TotalSize(es) + EntrySize(e)
  {
    hide EntrySize;
    assert (es + [e])[..|es|] == es;
  }

  lemma SliceSnoc(log: seq<Entry>, k: nat, n: nat)
    requires k + n < |log|
    ensures log[k..k + n] + [log[k + n]] == log[k..k + n + 1]
  {
  }

  /** A scan that has taken the n entries from position k has no reason to go on. */
  ghost predicate Stops(log: seq<Entry>, k: nat, n: nat, last: nat, maxSize: nat)
    requires 1 <= n && k + n <= |log|
  {
    TotalSize(log[k..k + n]) > maxSize || log[k + n - 1].index == last
  }

  /** A scan from position k that has taken n entries and goes on. */
  ghost predicate Scanned(log: seq<Entry>, k: nat, n: nat, last: nat, maxSize: nat)
  {
    k + n <= |log| && forall m :: 1 <= m <= n ==> !Stops(log, k, m, last, maxSize)
  }

  /** A scan from position k that stopped behind n entries. */
  ghost predicate StoppedAt(log: seq<Entry>, k: nat, n: nat, last: nat, maxSize: nat)
  {
    && 1 <= n && k + n <= |log|
    && (Stops(log, k, n, last, maxSize) || k + n == |log|)
    && forall m :: 1 <= m < n ==> !Stops(log, k, m, last, maxSize)
  }

  lemma ScanStep(log: seq<Entry>, k: nat, n: nat, last: nat, maxSize: nat)
    requires Scanned(log, k, n, last, maxSize) && k + n < |log|
    ensures if Stops(log, k, n + 1, last, maxSize) || k + n + 1 == |log|
            then StoppedAt(log, k, n + 1, last, maxSize)
            else Scanned(log, k, n + 1, last, maxSize)
  {
    hide Stops;
  }

  /** The n entries from position k, and their marshalled size. */
  ghost predicate Collected(log: seq<Entry>, k: nat, n: nat, es: seq<Entry>, size: nat)
  {
    k + n <= |log| && |es| == n && es == log[k..k + n] && size == TotalSize(es)
  }

  lemma CollectStep(log: seq<Entry>, k: nat, n: nat, es: seq<Entry>, size: nat)
    requires Collected(log, k, n, es, size) && k + n < |log|
    ensures Collected(log, k, n + 1, es + [log[k + n]], size + EntrySize(log[k + n]))
  {
    hide TotalSize, EntrySize;
    SliceSnoc(log, k, n);
    TotalSizeSnoc(es, log[k + n]);
  }

  lemma StopsMeans(log: seq<Entry>, k: nat, n: nat, es: seq<Entry>, size: nat, last: nat, maxSize: nat)
    requires Collected(log, k, n, es, size) && 1 <= n
    ensures Stops(log, k, n, last, maxSize) <==> size > maxSize || log[k + n - 1].index == last
  {
    hide TotalSize;
  }

  class Segment {
    ghost const enc: Encoder
    const crc: Checksum
    const logFile: MmapFile
    const logIndex: Index
    var firstIndex: nat
    var lastIndex: nat
    var status: Status
    /** The entries in this segment. */
    ghost var log: seq<Entry>

    ghost function Repr(): set<object>
    {
      {this, logFile, logFile.mappedData, logIndex}
    }

    /** The file starts with the frames of `es`, and the write position is behind them. */
    ghost predicate OnFile(es: seq<Entry>)
      reads this`status, logFile, logFile.mappedData
    {
      && logFile.Valid() && logFile.maxBytes <= TWO_32
      && EncodeLog(enc, es) <= logFile.mappedData[..]
      && (logFile.writePosition == |EncodeLog(enc, es)|
          || (status == SegmentReadOnly && logFile.writePosition == 0))
    }

    /** File and index hold exactly `es`, and the index agrees with the file. */
    ghost predicate Stores(es: seq<Entry>)
      reads this`status, logFile, logFile.mappedData, logIndex
    {
      && AllStorable(es) && Contiguous(es)
      && OnFile(es)
      && logIndex.Holds(IndexOf(enc, es), status)
    }

    ghost predicate RangeIs(es: seq<Entry>)
      reads this
    {
      if es == [] then firstIndex == 0 && lastIndex == 0
      else firstIndex == es[0].index && lastIndex == firstIndex + |es| - 1
    }

    ghost predicate Valid()
      reads this, logFile, logFile.mappedData, logIndex
    {
      Stores(log) && RangeIs(log)
    }

    lemma AsStored(es: seq<Entry>)
      requires AllStorable(es) && Contiguous(es) && OnFile(es) && logIndex.Holds(IndexOf(enc, es), status)
      ensures Stores(es)
    {
    }

    lemma StoresFacts(es: seq<Entry>)
      requires Stores(es)
      ensures logFile.Valid() && Contiguous(es) && AllStorable(es) && OnFile(es)
      ensures status == SegmentRDWR ==> logFile.writePosition == |EncodeLog(enc, es)|
    {
    }

    /** Nothing but zeros behind the last record. */
    ghost predicate ZeroTail()
      reads this, logFile.mappedData
    {
      forall k :: |EncodeLog(enc, log)| <= k < logFile.mappedData.Length ==> logFile.mappedData[k] == 0
    }

    /** False only for a segment that was opened read-only in this run. */
    ghost predicate PositionKnown()
      reads this, logFile
    {
      logFile.writePosition == |EncodeLog(enc, log)|
    }

    constructor New(crc: Checksum, ghost enc: Encoder, segmentSize: nat)
      requires segmentSize <= TWO_32
      ensures fresh(Repr()) && this.crc == crc && this.enc == enc
      ensures Valid() && status == SegmentRDWR && log == [] && ZeroTail()
      ensures logFile.maxBytes == segmentSize && logFile.writePosition == 0
    {
      this.crc := crc;
      this.enc := enc;
      var file := new MmapFile.Create(segmentSize);
      var index := new Index.New();
      logFile, logIndex := file, index;
      firstIndex, lastIndex := 0, 0;
      status := SegmentRDWR;
      log := [];
      new;
      assert IndexOf(enc, []) == [];
    }

    /** A segment around files that already exist. */
    constructor Around(crc: Checksum, ghost enc: Encoder, file: MmapFile, index: Index,
                       first: nat, last: nat, status: Status, ghost log: seq<Entry>)
      ensures this.crc == crc && this.enc == enc && logFile == file && logIndex == index
      ensures firstIndex == first && lastIndex == last && this.status == status && this.log == log
    {
      this.crc, this.enc := crc, enc;
      logFile, logIndex := file, index;
      firstIndex, lastIndex := first, last;
      this.status, this.log := status, log;
    }

    // ---- append ---------------------------------------------------------------------

    /** The length prefix and the record, one after the other at the write position. */
    method WriteFrame(record: Record) returns (startPos: nat)
      requires logFile.Valid()
      requires logFile.writePosition + RECORD_LENGTH_SIZE + |RecordBytes(record)| <= logFile.maxBytes
      modifies logFile, logFile.mappedData
      ensures logFile.Valid() && startPos == old(logFile.writePosition)
      ensures logFile.writePosition == startPos + RECORD_LENGTH_SIZE + |RecordBytes(record)|
      ensures logFile.mappedData[..logFile.writePosition] == old(logFile.mappedData[..logFile.writePosition])
                + (LittleEndian(|RecordBytes(record)|, RECORD_LENGTH_SIZE) + RecordBytes(record))
      ensures logFile.mappedData[logFile.writePosition..]
           == old(logFile.mappedData[..])[logFile.writePosition..]
    {
      var recordBuf := Codec.MarshalRecord(record);
      var size := Codec.SizeOfRecord(record);
      var lengthBuf := LittleEndian(size, RECORD_LENGTH_SIZE);
      ghost var before := logFile.mappedData[..];
      startPos := logFile.Append(lengthBuf);
      ghost var middle := logFile.mappedData[..];
      var _ := logFile.Append(recordBuf);
      ConcatAssoc(before[..startPos], lengthBuf, recordBuf);
      assert before[startPos + |lengthBuf|..][|recordBuf|..] == before[logFile.writePosition..];
      assert middle[startPos + |lengthBuf|..][|recordBuf|..] == middle[logFile.writePosition..];
    }

    method AppendToFile(record: Record, ghost es: seq<Entry>, ghost e: Entry) returns (startPos: nat)
      requires OnFile(es) && status == SegmentRDWR
      requires RecordBytes(record) == enc(e)
      requires logFile.writePosition + |FrameOf(enc, e)| <= logFile.maxBytes
      modifies logFile, logFile.mappedData
      ensures OnFile(es + [e]) && logFile.Valid()
      ensures startPos == |EncodeLog(enc, es)| < TWO_32
      ensures logFile.writePosition == startPos + |FrameOf(enc, e)|
      ensures logFile.mappedData[logFile.writePosition..] == old(logFile.mappedData[..])[logFile.writePosition..]
    {
      hide RecordBytes;
      assert logFile.mappedData[..][..logFile.writePosition] == EncodeLog(enc, es);
      startPos := WriteFrame(record);
      EncodeSnoc(enc, es, e);
      assert logFile.mappedData[..logFile.writePosition] == EncodeLog(enc, es + [e]);
    }

    method AppendRecord(record: Record, raftIndex: nat, ghost es: seq<Entry>, ghost e: Entry)
      requires Stores(es) && status == SegmentRDWR
      requires RecordBytes(record) == enc(e) && e.index == raftIndex && Storable(e)
      requires es != [] ==> raftIndex == es[0].index + |es|
      requires logFile.writePosition + |FrameOf(enc, e)| <= logFile.maxBytes
      modifies logFile, logFile.mappedData, logIndex
      ensures Stores(es + [e]) && logFile.Valid()
      ensures logFile.writePosition == old(logFile.writePosition) + |FrameOf(enc, e)|
      ensures logFile.mappedData[logFile.writePosition..] == old(logFile.mappedData[..])[logFile.writePosition..]
    {
      hide RecordBytes, EncodeLog, FrameOf, IndexOf, Index.Holds, AllStorable, Contiguous;
      assert logFile.writePosition == |EncodeLog(enc, es)|;
      hide OnFile;
      SoundSnoc(es, e);
      var startPos := AppendToFile(record, es, e);
      logIndex.AppendIndexEntry(IndexEntry(raftIndex, startPos % TWO_32), IndexOf(enc, es));
      IndexSnoc(enc, es, e);
    }

    static lemma SoundSnoc(es: seq<Entry>, e: Entry)
      requires AllStorable(es) && Contiguous(es) && Storable(e)
      requires es != [] ==> e.index == es[0].index + |es|
      ensures AllStorable(es + [e]) && Contiguous(es + [e])
    {
    }

    static lemma SoundPrefix(es: seq<Entry>, k: nat)
      requires AllStorable(es) && Contiguous(es) && k <= |es|
      ensures AllStorable(es[..k]) && Contiguous(es[..k])
    {
    }

    /** Appends a contiguous batch; refused when sealed or when the batch leaves a gap. */
    method AppendRecords(records: seq<Record>, startIndex: nat, ghost es: seq<Entry>) returns (r: Result<()>)
      requires Valid()
      requires 0 < |records| == |es|
      requires forall i :: 0 <= i < |es| ==> RecordBytes(records[i]) == enc(es[i])
      requires AllStorable(es) && Contiguous(es) && es[0].index == startIndex
      requires logFile.writePosition + |EncodeLog(enc, es)| <= logFile.maxBytes
      modifies Repr()
      ensures Valid() && status == old(status)
      ensures r == if old(status) != SegmentRDWR then Err(ErrNotWritable)
                   else if old(lastIndex) != 0 && old(lastIndex) + 1 != startIndex then Err(ErrNotContinuous)
                   else Ok(())
      ensures r.Err? ==> log == old(log)
      ensures r.Ok? ==> log == old(log) + es
      ensures r.Ok? ==>
              logFile.mappedData[logFile.writePosition..] == old(logFile.mappedData[..])[logFile.writePosition..]
      ensures old(ZeroTail()) ==> ZeroTail()
    {
      hide Stores, RecordBytes, EncodeLog;
      if status != SegmentRDWR { return Err(ErrNotWritable); }
      if lastIndex != 0 && lastIndex + 1 != startIndex { return Err(ErrNotContinuous); }
      StoresFacts(log);
      AppendAll(records, startIndex, es);
      StoresFacts(log + es);
      if firstIndex == 0 { firstIndex := startIndex; }
      if lastIndex < startIndex + |records| - 1 { lastIndex := startIndex + |records| - 1; }
      log := log + es;
      r := Ok(());
    }

    method AppendAll(records: seq<Record>, startIndex: nat, ghost es: seq<Entry>)
      requires Stores(log) && status == SegmentRDWR
      requires 0 < |records| == |es|
      requires forall i :: 0 <= i < |es| ==> RecordBytes(records[i]) == enc(es[i])
      requires AllStorable(es) && Contiguous(es) && es[0].index == startIndex
      requires log != [] ==> startIndex == log[0].index + |log|
      requires logFile.writePosition + |EncodeLog(enc, es)| <= logFile.maxBytes
      modifies logFile, logFile.mappedData, logIndex
      ensures Stores(log + es) && logFile.Valid()
      ensures logFile.mappedData[logFile.writePosition..] == old(logFile.mappedData[..])[logFile.writePosition..]
      ensures logFile.writePosition >= old(logFile.writePosition)
    {
      hide Stores, RecordBytes, EncodeLog, FrameOf;
      StoresFacts(log);
      ghost var start, initially := logFile.writePosition, logFile.mappedData[..];
      EncodedLength(enc, es);
      assert log + es[..0] == log;
      var i := 0;
      while i < |records|
        invariant 0 <= i <= |records|
        invariant Stores(log + es[..i]) && logFile.Valid()
        invariant logFile.writePosition == start + Offset(enc, es, i)
        invariant logFile.mappedData[logFile.writePosition..] == initially[logFile.writePosition..]
      {
        OffsetsAscend(enc, es, i + 1, |es|);
        ghost var p, before := logFile.writePosition, logFile.mappedData[..];
        NextIndex(log, es, i);
        AppendRecord(records[i], startIndex + i, log + es[..i], es[i]);
        SnocSlice(log, es, i);
        TailAgain(initially, before, p, logFile.writePosition);
        i := i + 1;
      }
      assert es[..|es|] == es;
    }

    static lemma NextIndex(front: seq<Entry>, es: seq<Entry>, i: nat)
      requires Contiguous(front) && Contiguous(es) && i < |es|
      requires front != [] ==> es[0].index == front[0].index + |front|
      ensures var all := front + es[..i]; all != [] ==> es[i].index == all[0].index + |all|
    {
    }

    static lemma SnocSlice(front: seq<Entry>, es: seq<Entry>, i: nat)
      requires i < |es|
      ensures front + es[..i] + [es[i]] == front + es[..i + 1]
    {
      assert es[..i + 1] == es[..i] + [es[i]];
    }

    static lemma TailAgain(first: seq<byte>, second: seq<byte>, p: nat, q: nat)
      requires p <= q <= |first| == |second|
      requires second[p..] == first[p..]
      ensures second[q..] == first[q..]
    {
      assert second[q..] == second[p..][q - p..];
      assert first[q..] == first[p..][q - p..];
    }

    // ---- read -----------------------------------------------------------------------

    lemma IndexUsable()
      requires Valid()
      ensures logIndex.Holds(IndexOf(enc, log), status)
      ensures Numbered(IndexOf(enc, log), firstIndex) && Representable(IndexOf(enc, log))
    {
      EncodedLength(enc, log);
      forall k | 0 <= k < |log|
        ensures Offset(enc, log, k) < TWO_32
      {
        OffsetsAscend(enc, log, k + 1, |log|);
      }
    }

    lemma ReadsBack(k: nat)
      requires Valid() && Encodes(enc, crc) && k < |log|
      ensures FrameAt(crc, logFile.mappedData[..], Offset(enc, log, k)) == Some((log[k], Offset(enc, log, k + 1)))
      ensures log[k].index == firstIndex + k
    {
      FrameAtReads(crc, enc, logFile.mappedData[..], log, k);
    }

    /** `es` are the entries from position k of the log up to where a scan stops. */
    ghost predicate Taken(k: nat, es: seq<Entry>, last: nat, maxSize: nat)
      reads this`log
    {
      StoppedAt(log, k, |es|, last, maxSize) && es == log[k..k + |es|]
    }

    /** The entry behind n scanned ones, as the file holds it. */
    method ReadNext(position: nat, ghost k: nat) returns (entry: Entry, next: nat)
      requires Valid() && Encodes(enc, crc) && k < |log| && position == Offset(enc, log, k)
      ensures entry == log[k] && next == Offset(enc, log, k + 1) && entry.index == firstIndex + k
    {
      hide Valid, Encodes, FrameAt, Offset;
      ReadsBack(k);
      var got := logFile.ReadRaftEntry(crc, position);
      entry, next := got.value.0, got.value.1;
    }

    method ReadFrom(start: nat, last: nat, maxSize: nat, ghost k: nat) returns (es: seq<Entry>, readSize: nat)
      requires Valid() && Encodes(enc, crc)
      requires k < |log| && start == Offset(enc, log, k)
      ensures Taken(k, es, last, maxSize) && readSize == TotalSize(es)
    {
      hide Valid, RangeIs, Contiguous, AllStorable, Encodes, EntrySize, TotalSize, Offset;
      hide Scanned, StoppedAt, Stops, Collected, Taken;
      var position := start;
      es, readSize := [], 0;
      ghost var n := 0;
      var stop := false;
      ScanBegins(k, last, maxSize);
      while !stop
        invariant Valid() && Collected(log, k, n, es, readSize)
        invariant if stop then StoppedAt(log, k, n, last, maxSize)
                  else k + n < |log| && Scanned(log, k, n, last, maxSize) && position == Offset(enc, log, k + n)
        decreases |log| - n, !stop
      {
        es, readSize, position, stop := ReadStep(position, es, readSize, last, maxSize, k, n);
        n := n + 1;
      }
      ScanEnds(k, n, es, readSize, last, maxSize);
    }

    /** One turn of the read loop, and whether it is the last one. */
    method ReadStep(position: nat, es: seq<Entry>, size: nat, last: nat, maxSize: nat, ghost k: nat, ghost n: nat)
      returns (more: seq<Entry>, readSize: nat, next: nat, stop: bool)
      requires Valid() && Encodes(enc, crc) && k + n < |log| && position == Offset(enc, log, k + n)
      requires Collected(log, k, n, es, size) && Scanned(log, k, n, last, maxSize)
      ensures Collected(log, k, n + 1, more, readSize)
      ensures if stop then StoppedAt(log, k, n + 1, last, maxSize)
              else k + n + 1 < |log| && Scanned(log, k, n + 1, last, maxSize) && next == Offset(enc, log, k + n + 1)
    {
      hide Valid, RangeIs, Contiguous, AllStorable, Encodes, EntrySize, TotalSize, Offset;
      hide Scanned, StoppedAt, Stops, Collected;
      RangeFacts();
      TakeOne(k, n, es, size, last, maxSize);
      var entry;
      entry, next := ReadNext(position, k + n);
      more, readSize := es + [entry], size + EntrySize(entry);
      stop := readSize > maxSize || entry.index == last || entry.index == lastIndex;
    }

    /** Taking one more entry: the scan goes on exactly when none of the three tests stops it. */
    lemma TakeOne(k: nat, n: nat, es: seq<Entry>, size: nat, last: nat, maxSize: nat)
      requires k + n < |log| && Collected(log, k, n, es, size) && Scanned(log, k, n, last, maxSize)
      requires RangeIs(log) && Contiguous(log)
      ensures var e := log[k + n];
              var all := size + EntrySize(e);
              && Collected(log, k, n + 1, es + [e], all)
              && if all > maxSize || e.index == last || e.index == lastIndex then
                   StoppedAt(log, k, n + 1, last, maxSize)
                 else k + n + 1 < |log| && Scanned(log, k, n + 1, last, maxSize)
    {
      hide Scanned, StoppedAt, Stops, Collected, EntrySize, TotalSize;
      ScanStep(log, k, n, last, maxSize);
      CollectStep(log, k, n, es, size);
      StopsMeans(log, k, n + 1, es + [log[k + n]], size + EntrySize(log[k + n]), last, maxSize);
    }

    lemma ScanEnds(k: nat, n: nat, es: seq<Entry>, size: nat, last: nat, maxSize: nat)
      requires Collected(log, k, n, es, size) && StoppedAt(log, k, n, last, maxSize)
      ensures Taken(k, es, last, maxSize) && size == TotalSize(es)
    {
      hide Stops, TotalSize;
    }

    lemma ScanBegins(k: nat, last: nat, maxSize: nat)
      requires k <= |log|
      ensures Scanned(log, k, 0, last, maxSize) && Collected(log, k, 0, [], 0)
    {
    }

    /**
     Reads entries from `first` on, stopping behind the entry that uses up the budget, at
     `last`, or at the end of the segment; also returns what is left of the budget.
     */
    method ReadRaftEntries(first: nat, last: nat, maxSize: nat) returns (r: Result<(seq<Entry>, nat)>)
      requires Valid() && Encodes(enc, crc)
      ensures first < firstIndex ==> r == Err(ErrOutOfBound)
      ensures firstIndex <= first && (log == [] || lastIndex < first) ==> r == Err(Fatal)
      ensures log != [] && firstIndex <= first <= lastIndex ==>
                && r.Ok? && Taken(first - firstIndex, r.value.0, last, maxSize)
                && r.value.1 == if TotalSize(r.value.0) > maxSize then 0 else maxSize - TotalSize(r.value.0)
    {
      hide Stores, Encodes, Index.Holds, Taken, EncodeLog, FrameOf;
      if status == SegmentClosed { assert false by { NotClosed(); } return Err(ErrClosed); }
      IndexUsable();
      var found := logIndex.GetRaftEntryPosition(first, firstIndex, status, IndexOf(enc, log));
      if found.Err? { return Err(found.error); }
      var entries, readSize := ReadFrom(found.value, last, maxSize, first - firstIndex);
      r := Ok((entries, if readSize > maxSize then 0 else maxSize - readSize));
    }

    lemma RangeFacts()
      requires Valid()
      ensures RangeIs(log) && Contiguous(log) && AllStorable(log)
      ensures log == [] <==> firstIndex == 0
      ensures log == [] <==> lastIndex == 0
      ensures status == SegmentRDWR ==> logFile.writePosition == |EncodeLog(enc, log)|
    {
    }

    lemma FileFacts()
      requires Valid()
      ensures logFile.mappedData.Length == logFile.maxBytes
      ensures EncodeLog(enc, log) <= logFile.mappedData[..]
      ensures log == [] && status == SegmentRDWR ==> logFile.writePosition == 0
    {
    }

    lemma NotClosed()
      requires Valid()
      ensures status != SegmentClosed
    {
    }

    // ---- truncate, seal, remove -------------------------------------------------------

    /** Cuts the file at entry k, unless the write position is not known to be behind it. */
    method CutFile(position: nat, ghost k: nat) returns (r: Result<()>)
      requires OnFile(log) && k <= |log| && position == Offset(enc, log, k)
      modifies logFile, logFile.mappedData
      ensures r == if old(logFile.writePosition) < position then Err(ErrOutOfBound) else Ok(())
      ensures r.Err? ==> OnFile(log) && logFile.writePosition == old(logFile.writePosition)
      ensures r.Err? ==> logFile.mappedData[..] == old(logFile.mappedData[..])
      ensures r.Ok? ==> OnFile(log[..k]) && logFile.writePosition == |EncodeLog(enc, log[..k])| == position
      ensures r.Ok? ==> forall j :: position <= j < logFile.maxBytes ==>
                logFile.mappedData[j] == if j < old(logFile.writePosition) then 0 else old(logFile.mappedData[j])
      ensures old(logFile.writePosition) == 0 ==> logFile.mappedData[..] == old(logFile.mappedData[..])
    {
      ghost var before := logFile.mappedData[..];
      EncodeCut(enc, log, k);
      PrefixTrans(EncodeLog(enc, log[..k]), EncodeLog(enc, log), before);
      r := logFile.TruncateSuffix(position);
      assert r.Ok? ==> logFile.mappedData[..position] == before[..position] == EncodeLog(enc, log[..k]);
      assert r.Ok? && old(logFile.writePosition) == 0 ==> position == 0 && logFile.mappedData[..] == before;
    }

    /**
     Drops the entries from raft index i on and makes the segment writable.  A segment opened
     read-only does not know its write position: there only a cut at its first index succeeds.
     */
    method TruncateSuffix(i: nat) returns (r: Result<()>)
      requires Valid()
      modifies Repr()
      ensures Valid()
      ensures old(i < firstIndex) ==> r == Err(ErrOutOfBound)
      ensures old(firstIndex <= i && (log == [] || lastIndex < i)) ==> r == Err(Fatal)
      ensures old(log != [] && firstIndex <= i <= lastIndex) ==>
                r == if old(PositionKnown() || i == firstIndex) then Ok(()) else Err(ErrOutOfBound)
      ensures r.Err? ==> log == old(log) && status == old(status)
      ensures r.Ok? ==> old(firstIndex) <= i && i - old(firstIndex) < |old(log)|
      ensures r.Ok? ==> log == old(log)[..i - old(firstIndex)] && status == SegmentRDWR
      ensures r.Ok? && old(ZeroTail() && PositionKnown()) ==> ZeroTail()
      ensures old(logFile.writePosition) == 0 ==> logFile.mappedData[..] == old(logFile.mappedData[..])
    {
      hide Stores, OnFile, EncodeLog, FrameOf, Offset, Index.Holds;
      hide AllStorable, Contiguous, Numbered, Representable;
      IndexUsable();
      ghost var cs := IndexOf(enc, log);
      var found := logIndex.GetRaftEntryPosition(i, firstIndex, status, cs);
      if found.Err? { return Err(found.error); }
      ghost var k := i - firstIndex;
      StoresFacts(log);
      FirstOffset(k);
      r := CutFile(found.value, k);
      if r.Err? {
        AsStored(log);
        return;
      }
      r := logIndex.TruncateSuffix(i, firstIndex, status, cs);
      IndexPrefix(enc, log, k);
      SoundPrefix(log, k);
      status := SegmentRDWR;
      log := log[..k];
      AsStored(log);
      if i == firstIndex {
        firstIndex, lastIndex := 0, 0;
      } else {
        lastIndex := i - 1;
      }
    }

    lemma FirstOffset(k: nat)
      requires k < |log|
      ensures Offset(enc, log, k) == 0 <==> k == 0
      ensures Offset(enc, log, k) < |EncodeLog(enc, log)|
    {
      OffsetsAscend(enc, log, 1, |log|);
      OffsetsAscend(enc, log, k + 1, |log|);
      if k > 0 { OffsetsAscend(enc, log, 1, k); }
      EncodedLength(enc, log);
    }

    /** Seals a non-empty writable segment; its contents and range do not change. */
    method ChangeToReadonly() returns (r: Result<()>)
      requires Valid() && (status == SegmentRDWR ==> log != [])
      modifies Repr()
      ensures Valid() && log == old(log)
      ensures r == if old(status) != SegmentRDWR then Err(ErrArgsIllegal) else Ok(())
      ensures r.Ok? ==> status == SegmentReadOnly
      ensures r.Err? ==> status == old(status)
      ensures firstIndex == old(firstIndex) && lastIndex == old(lastIndex)
      ensures logFile.writePosition == old(logFile.writePosition)
      ensures logFile.mappedData[..] == old(logFile.mappedData[..])
    {
      if status != SegmentRDWR { return Err(ErrArgsIllegal); }
      logIndex.ChangeToReadonly(IndexOf(enc, log));
      status := SegmentReadOnly;
      r := Ok(());
    }

    predicate NeedRolling(size: nat)
      reads logFile
    {
      logFile.writePosition + size > logFile.maxBytes
    }

    /** Closes the files and deletes them; every later read or write is refused. */
    method Remove()
      modifies this
      ensures status == SegmentClosed && firstIndex == 0 && lastIndex == 0
    {
      status := SegmentClosed;
      firstIndex, lastIndex := 0, 0;
    }
  }
}
