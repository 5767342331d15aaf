/** The raft log on disk: sealed segments followed by one writable segment. */
module DiskStorages {
  import opened Bytes
  import opened Messages
  import opened RecordLog
  import opened Records
  import opened StorageErrors
  import opened Indexes
  import opened Segments
  import Codec
  import MetaStores

  /** The entries of all segments, in order. */
  ghost function LogOf(segs: seq<Segment>): seq<Entry>
    reads segs
  {
    if segs == [] then [] else LogOf(segs[..|segs| - 1]) + segs[|segs| - 1].log
  }

  ghost function FootprintOf(segs: seq<Segment>): set<object>
  {
    set s, o | s in segs && o in s.Repr() :: o
  }

  ghost predicate Separate(segs: seq<Segment>)
  {
    forall i, j :: 0 <= i < j < |segs| ==> segs[i].Repr() !! segs[j].Repr()
  }

  /** Segment i is well formed, sealed and non-empty unless it is the last, and follows segment i-1. */
  ghost predicate SegmentOk(segs: seq<Segment>, i: nat, enc: Encoder, crc: Checksum, size: nat, live: bool)
    requires i < |segs|
    reads segs[i].Repr(), if i > 0 then {segs[i - 1]} else {}
  {
    && segs[i].Valid() && segs[i].enc == enc && segs[i].crc == crc && segs[i].logFile.maxBytes == size
    && (live ==> Clean(segs[i]))
    && (if i < |segs| - 1 then segs[i].status == SegmentReadOnly && segs[i].log != []
        else segs[i].status == SegmentRDWR)
    && (i > 0 && segs[i].log != [] ==> segs[i].firstIndex == segs[i - 1].lastIndex + 1)
  }

  /** Segment i as an inner segment of the list, whatever its position. */
  ghost predicate Sealed(segs: seq<Segment>, i: nat, enc: Encoder, crc: Checksum, size: nat, live: bool)
    requires i < |segs|
    reads segs[i].Repr(), if i > 0 then {segs[i - 1]} else {}
  {
    && segs[i].Valid() && segs[i].enc == enc && segs[i].crc == crc && segs[i].logFile.maxBytes == size
    && (live ==> Clean(segs[i]))
    && segs[i].status == SegmentReadOnly && segs[i].log != []
    && (i > 0 ==> segs[i].firstIndex == segs[i - 1].lastIndex + 1)
  }

  /** Segment j of the list, sealed or not, as a non-empty last segment. */
  ghost predicate AtEnd(segs: seq<Segment>, j: nat, enc: Encoder, crc: Checksum, size: nat, live: bool)
    requires j < |segs|
    reads segs[j].Repr(), if j > 0 then {segs[j - 1]} else {}
  {
    && segs[j].Valid() && segs[j].enc == enc && segs[j].crc == crc && segs[j].logFile.maxBytes == size
    && (live ==> Clean(segs[j])) && segs[j].log != []
    && (j > 0 ==> segs[j].firstIndex == segs[j - 1].lastIndex + 1)
  }

  ghost predicate Clean(s: Segment)
    reads s.Repr()
  {
    s.PositionKnown() && s.ZeroTail()
  }

  class DiskStorage {
    ghost const enc: Encoder
    const crc: Checksum
    const segmentSize: nat
    /** Every segment was created in this run: none was opened read-only. */
    ghost const live: bool
    const meta: MetaStores.MetaStore
    var segments: seq<Segment>

    ghost function Footprint(): set<object>
      reads this
    {
      FootprintOf(segments)
    }

    ghost function Log(): seq<Entry>
      reads this, segments
    {
      LogOf(segments)
    }

    /** What holds between the two halves of an append: the last segment may be empty. */
    ghost predicate Chained()
      reads this, segments, Footprint()
    {
      && segmentSize <= TWO_32 && Encodes(enc, crc)
      && Separate(segments)
      && forall i :: 0 <= i < |segments| ==> SegmentOk(segments, i, enc, crc, segmentSize, live)
    }

    ghost predicate Valid()
      reads this, segments, Footprint()
    {
      Chained() && (segments != [] ==> segments[|segments| - 1].log != [])
    }

    /** A store without segments; `live` says whether all of them will be created in this run. */
    constructor (crc: Checksum, ghost enc: Encoder, segmentSize: nat, ghost live: bool, meta: MetaStores.MetaStore)
      requires segmentSize <= TWO_32 && Encodes(enc, crc)
      ensures Valid() && Log() == [] && segments == []
      ensures this.segmentSize == segmentSize && this.live == live && this.crc == crc && this.enc == enc
      ensures this.meta == meta
    {
      this.meta := meta;
      this.crc := crc;
      this.enc := enc;
      this.segmentSize := segmentSize;
      this.live := live;
      segments := [];
    }

    // ---- save -----------------------------------------------------------------------

    /** Records for the entries, and the space they need in a file. */
    method EntriesToRecords(entries: seq<Entry>) returns (records: seq<Record>, size: nat)
      requires Encodes(enc, crc)
      ensures |records| == |entries|
      ensures forall i :: 0 <= i < |entries| ==> RecordBytes(records[i]) == enc(entries[i])
      ensures size == |EncodeLog(enc, entries)|
    {
      hide RecordBytes, EntryBytes, EncodeLog;
      records, size := [], 0;
      var i := 0;
      while i < |entries|
        invariant 0 <= i <= |entries| && |records| == i
        invariant forall k :: 0 <= k < i ==> RecordBytes(records[k]) == enc(entries[k])
        invariant size == Offset(enc, entries, i)
      {
        var record := RecordOf(crc, entries[i]);
        var n := Codec.SizeOfRecord(record);
        records := records + [record];
        size := size + n + RECORD_LENGTH_SIZE;
        i := i + 1;
      }
      EncodedLength(enc, entries);
    }

    /** The next index to write, when there is any entry yet. */
    ghost predicate Follows(startIndex: nat)
      reads this, segments
    {
      && (|segments| > 0 && segments[|segments| - 1].log != [] ==>
            startIndex == segments[|segments| - 1].lastIndex + 1)
      && (|segments| > 1 && segments[|segments| - 1].log == [] ==>
            startIndex == segments[|segments| - 2].lastIndex + 1)
    }

    ghost predicate Batch(entries: seq<Entry>)
    {
      entries != [] && AllStorable(entries) && Contiguous(entries)
    }

    /** The last segment ends with the whole batch. */
    ghost predicate InLast(entries: seq<Entry>)
      reads this, segments
    {
      && segments != [] && |entries| <= |segments[|segments| - 1].log|
      && segments[|segments| - 1].log[|segments[|segments| - 1].log| - |entries|..] == entries
    }

    lemma LastEndsWith(before: seq<Entry>, entries: seq<Entry>)
      requires segments != [] && segments[|segments| - 1].log == before + entries
      ensures InLast(entries)
    {
      assert (before + entries)[|before|..] == entries;
    }

    /** A batch stays in the last segment if there is one and both fit a file; else one segment is added for it. */
    ghost predicate Placed(before: seq<Segment>, tail: seq<Entry>, entries: seq<Entry>)
      reads this, segments
    {
      var n := |before|;
      if n > 0 && |EncodeLog(enc, tail)| + |EncodeLog(enc, entries)| <= segmentSize
      then segments == before && segments[n - 1].log == tail + entries
      else |segments| == n + 1 && segments[..n] == before && segments[n].log == entries
    }

    /** The entries of the last segment. */
    ghost function Tail(): seq<Entry>
      reads this, segments
    {
      if segments == [] then [] else segments[|segments| - 1].log
    }

    ghost predicate Writable(s: Segment)
      reads s.Repr()
    {
      && s.Valid() && s.enc == enc && s.crc == crc && s.logFile.maxBytes == segmentSize
      && s.status == SegmentRDWR && (live ==> Clean(s))
    }

    method AppendTo(s: Segment, records: seq<Record>, startIndex: nat, ghost entries: seq<Entry>)
      requires Writable(s) && Batch(entries) && startIndex == entries[0].index
      requires s.log != [] ==> startIndex == s.lastIndex + 1
      requires |records| == |entries|
      requires forall i :: 0 <= i < |entries| ==> RecordBytes(records[i]) == enc(entries[i])
      requires s.logFile.writePosition + |EncodeLog(enc, entries)| <= segmentSize
      modifies s.Repr()
      ensures Writable(s) && s.log == old(s.log) + entries
      ensures s.firstIndex == if old(s.log) == [] then startIndex else old(s.firstIndex)
    {
      hide Segment.Valid, RecordBytes, EncodeLog, Encodes;
      s.RangeFacts();
      var r := s.AppendRecords(records, startIndex, entries);
      s.RangeFacts();
    }

    method AppendToLast(records: seq<Record>, startIndex: nat, ghost entries: seq<Entry>)
      requires Chained() && segments != [] && Batch(entries)
      requires startIndex == entries[0].index && Follows(startIndex)
      requires |records| == |entries|
      requires forall i :: 0 <= i < |entries| ==> RecordBytes(records[i]) == enc(entries[i])
      requires segments[|segments| - 1].logFile.writePosition + |EncodeLog(enc, entries)| <= segmentSize
      modifies segments[|segments| - 1].Repr()
      ensures Valid() && InLast(entries) && Tail() == old(Tail()) + entries
      ensures Log() == old(Log()) + entries
    {
      hide DiskStorage.Chained, RecordBytes, EncodeLog, LogOf, InLast, Follows;
      ghost var front, before := LogOf(segments[..|segments| - 1]), segments[|segments| - 1].log;
      LastIsLast();
      GrowLast(records, startIndex, entries);
      LastIsLast();
      ConcatAssoc(front, before, entries);
      LastEndsWith(before, entries);
    }

    /** The batch goes to the last segment, and the chain of segments stays well formed. */
    method GrowLast(records: seq<Record>, startIndex: nat, ghost entries: seq<Entry>)
      requires Chained() && segments != [] && Batch(entries)
      requires startIndex == entries[0].index && Follows(startIndex)
      requires |records| == |entries|
      requires forall i :: 0 <= i < |entries| ==> RecordBytes(records[i]) == enc(entries[i])
      requires segments[|segments| - 1].logFile.writePosition + |EncodeLog(enc, entries)| <= segmentSize
      modifies segments[|segments| - 1].Repr()
      ensures Chained()
      ensures segments[|segments| - 1].log == old(segments[|segments| - 1].log) + entries
      ensures LogOf(segments[..|segments| - 1]) == old(LogOf(segments[..|segments| - 1]))
    {
      hide Segment.Valid, RecordBytes, EncodeLog, Encodes, Clean, LogOf;
      ghost var n := |segments| - 1;
      var last := segments[|segments| - 1];
      assert SegmentOk(segments, n, enc, crc, segmentSize, live);
      ghost var front := segments[..n];
      assert forall i :: 0 <= i < n ==> segments[i].Repr() !! last.Repr();
      AppendTo(last, records, startIndex, entries);
      assert SegmentOk(segments, n, enc, crc, segmentSize, live);
      hide SegmentOk, Separate, Writable;
      assert forall i :: 0 <= i < n ==> SegmentOk(segments, i, enc, crc, segmentSize, live);
      assert LogOf(front) == old(LogOf(front));
    }

    /** An inner segment stays well formed when the list around it grows or is cut behind it. */
    lemma InnerOk(segs: seq<Segment>, other: seq<Segment>, i: nat)
      requires i < |segs| - 1 && i < |other| - 1 && segs[..i + 1] == other[..i + 1]
      requires SegmentOk(segs, i, enc, crc, segmentSize, live)
      ensures SegmentOk(other, i, enc, crc, segmentSize, live)
    {
      hide Segment.Valid;
      assert segs[i] == segs[..i + 1][i] == other[..i + 1][i] == other[i];
      if i > 0 { assert segs[i - 1] == segs[..i + 1][i - 1] == other[..i + 1][i - 1] == other[i - 1]; }
    }

    /** Seals the last segment, if there is one. */
    method SealLast()
      requires Chained() && (segments != [] ==> segments[|segments| - 1].log != [])
      modifies if segments == [] then {} else segments[|segments| - 1].Repr()
      ensures Encodes(enc, crc) && segmentSize <= TWO_32 && Separate(segments)
      ensures forall i :: 0 <= i < |segments| - 1 ==> SegmentOk(segments, i, enc, crc, segmentSize, live)
      ensures segments != [] ==> Sealed(segments, |segments| - 1, enc, crc, segmentSize, live)
      ensures segments != [] ==> segments[|segments| - 1].lastIndex == old(segments[|segments| - 1].lastIndex)
      ensures Log() == old(Log())
    {
      hide Encodes, Separate, SegmentOk, Sealed, LogOf;
      if segments != [] {
        LastIsLast();
        SealSegment();
        LastIsLast();
      }
    }

    method SealSegment()
      requires Chained() && segments != [] && segments[|segments| - 1].log != []
      modifies segments[|segments| - 1].Repr()
      ensures Encodes(enc, crc) && segmentSize <= TWO_32 && Separate(segments)
      ensures forall i :: 0 <= i < |segments| - 1 ==> SegmentOk(segments, i, enc, crc, segmentSize, live)
      ensures Sealed(segments, |segments| - 1, enc, crc, segmentSize, live)
      ensures segments[|segments| - 1].lastIndex == old(segments[|segments| - 1].lastIndex)
      ensures segments[|segments| - 1].log == old(segments[|segments| - 1].log)
      ensures LogOf(segments[..|segments| - 1]) == old(LogOf(segments[..|segments| - 1]))
    {
      hide Segment.Valid, EncodeLog, Encodes, LogOf;
      ghost var n := |segments| - 1;
      var last := segments[|segments| - 1];
      assert SegmentOk(segments, n, enc, crc, segmentSize, live);
      ghost var front := segments[..n];
      assert forall i :: 0 <= i < n ==> segments[i].Repr() !! last.Repr();
      var _ := last.ChangeToReadonly();
      assert live ==> Clean(last);
      hide Clean, Separate;
      assert Sealed(segments, n, enc, crc, segmentSize, live);
      hide SegmentOk, Sealed;
      assert forall i :: 0 <= i < n ==> SegmentOk(segments, i, enc, crc, segmentSize, live);
      assert LogOf(front) == old(LogOf(front));
    }

    method RollAndAppend(records: seq<Record>, startIndex: nat, ghost entries: seq<Entry>)
      requires Chained() && (segments != [] ==> segments[|segments| - 1].log != []) && Batch(entries)
      requires startIndex == entries[0].index && Follows(startIndex)
      requires |records| == |entries|
      requires forall i :: 0 <= i < |entries| ==> RecordBytes(records[i]) == enc(entries[i])
      requires |EncodeLog(enc, entries)| <= segmentSize
      modifies this, Footprint()
      ensures Valid() && InLast(entries)
      ensures |segments| == |old(segments)| + 1 && segments[..|old(segments)|] == old(segments) && Tail() == entries
      ensures forall o :: o in Footprint() ==> o in old(Footprint()) || fresh(o)
      ensures Log() == old(Log()) + entries
    {
      hide Segment.Valid, RecordBytes, EncodeLog, Encodes, Clean, SegmentOk, Sealed, Separate, LogOf, InLast;
      SealLast();
      label sealed:
      assert Footprint() == old(Footprint());
      AddSegment(records, startIndex, entries);
      hide FootprintOf;
      forall o | o in Footprint() && o !in old(Footprint()) ensures fresh(o) {
        assert fresh@sealed(o);
      }
    }

    /** Puts the batch into a new segment behind sealed ones. */
    method AddSegment(records: seq<Record>, startIndex: nat, ghost entries: seq<Entry>)
      requires segmentSize <= TWO_32 && Encodes(enc, crc) && Separate(segments) && Batch(entries)
      requires forall i :: 0 <= i < |segments| - 1 ==> SegmentOk(segments, i, enc, crc, segmentSize, live)
      requires segments != [] ==> Sealed(segments, |segments| - 1, enc, crc, segmentSize, live)
      requires startIndex == entries[0].index
      requires segments != [] ==> startIndex == segments[|segments| - 1].lastIndex + 1
      requires |records| == |entries|
      requires forall i :: 0 <= i < |entries| ==> RecordBytes(records[i]) == enc(entries[i])
      requires |EncodeLog(enc, entries)| <= segmentSize
      modifies this
      ensures Valid() && InLast(entries)
      ensures |segments| == |old(segments)| + 1 && segments[..|old(segments)|] == old(segments) && Tail() == entries
      ensures forall o :: o in Footprint() ==> o in old(Footprint()) || fresh(o)
      ensures Log() == old(Log()) + entries
    {
      hide Segment.Valid, RecordBytes, EncodeLog, Encodes, Clean, SegmentOk, Sealed, Separate, LogOf, InLast;
      ghost var segs := segments;
      assert forall q, o :: 0 <= q < |segs| && o in segs[q].Repr() ==> allocated(o);
      var newSegment := FillNew(records, startIndex, entries);
      assert LogOf(segments) == old(LogOf(segments));
      Attach(newSegment);
      assert Footprint() == old(Footprint()) + newSegment.Repr();
      hide FootprintOf;
      LastEndsWith([], entries);
    }

    /** A fresh segment holding just this batch. */
    method FillNew(records: seq<Record>, startIndex: nat, ghost entries: seq<Entry>) returns (s: Segment)
      requires Batch(entries) && startIndex == entries[0].index
      requires |records| == |entries| && segmentSize <= TWO_32
      requires forall i :: 0 <= i < |entries| ==> RecordBytes(records[i]) == enc(entries[i])
      requires |EncodeLog(enc, entries)| <= segmentSize
      ensures fresh(s.Repr()) && Writable(s) && s.log == entries && s.firstIndex == startIndex
    {
      hide Segment.Valid, RecordBytes, EncodeLog;
      s := new Segment.New(crc, enc, segmentSize);
      s.RangeFacts();
      AppendTo(s, records, startIndex, entries);
    }

    /** Adds a segment behind a chain of sealed ones. */
    method Attach(s: Segment)
      requires segmentSize <= TWO_32 && Encodes(enc, crc) && Separate(segments)
      requires forall i :: 0 <= i < |segments| - 1 ==> SegmentOk(segments, i, enc, crc, segmentSize, live)
      requires segments != [] ==> Sealed(segments, |segments| - 1, enc, crc, segmentSize, live)
      requires Footprint() !! s.Repr() && Writable(s) && s.log != []
      requires segments != [] ==> s.firstIndex == segments[|segments| - 1].lastIndex + 1
      modifies this
      ensures Valid() && Footprint() == old(Footprint()) + s.Repr()
      ensures Log() == old(Log()) + s.log && segments == old(segments) + [s]
    {
      hide Segment.Valid, Encodes, SegmentOk, Sealed, Separate, LogOf, FootprintOf;
      SeparateSnoc(segments, s);
      ChainSnoc(segments, s);
      LogSnoc(segments, s);
      ghost var longer := segments + [s];
      Apart(longer);
      segments := segments + [s];
      assert forall i :: 0 <= i < |longer| ==> SegmentOk(longer, i, enc, crc, segmentSize, live);
    }

    lemma Apart(segs: seq<Segment>)
      ensures forall i :: 0 <= i < |segs| ==> this !in segs[i].Repr()
    {
    }

    lemma LogSnoc(segs: seq<Segment>, s: Segment)
      ensures LogOf(segs + [s]) == LogOf(segs) + s.log
      ensures FootprintOf(segs + [s]) == FootprintOf(segs) + s.Repr()
    {
      assert (segs + [s])[..|segs|] == segs;
    }

    lemma SeparateSnoc(segs: seq<Segment>, s: Segment)
      requires Separate(segs) && FootprintOf(segs) !! s.Repr()
      ensures Separate(segs + [s])
    {
      forall i, j | 0 <= i < j < |segs| + 1
        ensures (segs + [s])[i].Repr() !! (segs + [s])[j].Repr()
      {
        if j == |segs| {
          assert segs[i] in segs && segs[i].Repr() <= FootprintOf(segs);
        }
      }
    }

    /** A new last segment behind a chain of sealed ones. */
    lemma ChainSnoc(segs: seq<Segment>, s: Segment)
      requires forall i :: 0 <= i < |segs| - 1 ==> SegmentOk(segs, i, enc, crc, segmentSize, live)
      requires segs != [] ==> Sealed(segs, |segs| - 1, enc, crc, segmentSize, live)
      requires Writable(s)
      requires segs != [] && s.log != [] ==> s.firstIndex == segs[|segs| - 1].lastIndex + 1
      ensures forall i :: 0 <= i <= |segs| ==> SegmentOk(segs + [s], i, enc, crc, segmentSize, live)
    {
      hide Segment.Valid;
      var longer := segs + [s];
      forall i | 0 <= i <= |segs|
        ensures SegmentOk(longer, i, enc, crc, segmentSize, live)
      {
        if i < |segs| - 1 {
          assert longer[..i + 1] == segs[..i + 1];
          InnerOk(segs, longer, i);
        }
      }
    }

    /**
     Appends a batch that continues the log, to the last segment exactly when it fits there, else
     to a new one.  A batch that no segment can hold is fatal; there is no other failure.
     */
    method SaveRaftEntries(entries: seq<Entry>) returns (r: Result<()>)
      requires Chained()
      requires entries != [] ==> Batch(entries) && Follows(entries[0].index)
      modifies this, Footprint()
      ensures r == if entries != [] && segmentSize < |EncodeLog(enc, entries)| then Err(Fatal) else Ok(())
      ensures entries == [] || r.Err? ==> Chained() && segments == old(segments) && Log() == old(Log())
      ensures entries != [] && r.Ok? ==> Valid() && Log() == old(Log()) + entries && InLast(entries)
      ensures entries != [] && r.Ok? ==> Placed(old(segments), old(Tail()), entries)
      ensures forall o :: o in Footprint() ==> o in old(Footprint()) || fresh(o)
    {
      hide EncodeLog, RecordBytes, Encodes, LogOf, InLast, DiskStorage.Follows, Batch, DiskStorage.Placed;
      hide DiskStorage.Chained, DiskStorage.Valid, DiskStorage.Tail;
      ChainedEncodes();
      if entries == [] { return Ok(()); }
      assert forall o :: o in Footprint() ==> allocated(o);
      var records, recordsSize := EntriesToRecords(entries);
      if segmentSize < recordsSize { return Err(Fatal); }
      Place(records, recordsSize, entries);
      r := Ok(());
    }

    lemma ChainedEncodes()
      requires Chained()
      ensures Encodes(enc, crc)
    {
      hide SegmentOk, Separate, Encodes;
    }

    /** Chooses the segment to write to, and writes. */
    method Place(records: seq<Record>, recordsSize: nat, entries: seq<Entry>)
      requires Chained() && Batch(entries) && Follows(entries[0].index)
      requires |records| == |entries| && recordsSize == |EncodeLog(enc, entries)| <= segmentSize
      requires forall i :: 0 <= i < |entries| ==> RecordBytes(records[i]) == enc(entries[i])
      modifies this, Footprint()
      ensures Valid() && Log() == old(Log()) + entries && InLast(entries)
      ensures Placed(old(segments), old(Tail()), entries)
      ensures forall o :: o in Footprint() ==> o in old(Footprint()) || fresh(o)
    {
      hide EncodeLog, RecordBytes, LogOf, InLast, DiskStorage.Follows;
      hide DiskStorage.Chained, DiskStorage.Valid;
      if segments == [] {
        RollAndAppend(records, entries[0].index, entries);
      } else {
        var last := segments[|segments| - 1];
        LastRoom();
        if last.NeedRolling(recordsSize) {
          RollAndAppend(records, entries[0].index, entries);
        } else {
          AppendToLast(records, entries[0].index, entries);
        }
      }
    }

    /** The write position of the last segment is the length of its records, so an empty one has all its room. */
    lemma LastRoom()
      requires Chained() && segments != []
      ensures var last := segments[|segments| - 1];
              && last.logFile.maxBytes == segmentSize
              && last.logFile.writePosition == |EncodeLog(enc, last.log)|
              && (last.log == [] ==> last.logFile.writePosition == 0)
    {
      hide Segment.Valid, Encodes, Separate, Clean;
      var last := segments[|segments| - 1];
      assert SegmentOk(segments, |segments| - 1, enc, crc, segmentSize, live);
      last.RangeFacts();
    }

    // ---- where entries are ------------------------------------------------------------

    static lemma {:induction false} LogSplit(segs: seq<Segment>, j: nat)
      requires j <= |segs|
      ensures LogOf(segs) == LogOf(segs[..j]) + LogOf(segs[j..])
    {
      var n := |segs| - 1;
      if j == |segs| {
        assert segs[..j] == segs;
      } else {
        LogSplit(segs[..n], j);
        assert segs[..n][..j] == segs[..j] && segs[..n][j..] == segs[j..][..n - j];
        assert segs[j..][|segs[j..]| - 1] == segs[n];
        ConcatAssoc(LogOf(segs[..j]), LogOf(segs[..n][j..]), segs[n].log);
      }
    }

    /** Segment j starts as many entries into the log as its first index is past the log's. */
    lemma {:induction false} PlaceOf(j: nat)
      requires Chained() && j < |segments| && segments[j].log != []
      ensures segments[0].log != []
      ensures |LogOf(segments[..j])| == segments[j].firstIndex - segments[0].firstIndex
      decreases j
    {
      hide Segment.Valid, Separate, Clean;
      assert SegmentOk(segments, j, enc, crc, segmentSize, live);
      if j > 0 {
        assert SegmentOk(segments, j - 1, enc, crc, segmentSize, live);
        segments[j - 1].RangeFacts();
        PlaceOf(j - 1);
        assert segments[..j][..j - 1] == segments[..j - 1];
      }
    }

    lemma {:induction false} Ascending(i: nat, j: nat)
      requires Chained() && i < j < |segments| && segments[j].log != []
      ensures segments[i].lastIndex < segments[j].firstIndex
      decreases j
    {
      hide Segment.Valid, Separate, Clean;
      assert SegmentOk(segments, j, enc, crc, segmentSize, live);
      if i < j - 1 {
        assert SegmentOk(segments, j - 1, enc, crc, segmentSize, live);
        segments[j - 1].RangeFacts();
        Ascending(i, j - 1);
      }
    }

    ghost predicate Contains(j: nat, raftIndex: nat)
      requires j < |segments|
      reads this, segments
    {
      segments[j].firstIndex <= raftIndex <= segments[j].lastIndex
    }

    method FindSegment(raftIndex: nat) returns (j: int)
      ensures -1 <= j < |segments|
      ensures j >= 0 ==> Contains(j, raftIndex)
      ensures j < 0 ==> forall i :: 0 <= i < |segments| ==> !Contains(i, raftIndex)
    {
      j := |segments| - 1;
      while j >= 0
        invariant -1 <= j < |segments|
        invariant forall i :: j < i < |segments| ==> !Contains(i, raftIndex)
      {
        if segments[j].firstIndex <= raftIndex && raftIndex <= segments[j].lastIndex { return; }
        j := j - 1;
      }
    }

    // ---- truncate -------------------------------------------------------------------

    ghost predicate MetaOk()
      reads meta
    {
      MetaStores.WellFormed(meta.bucket) && MetaStores.Distinct(meta.bucket)
    }

    /** The metadata update that goes with removing segments ends the process. */
    ghost predicate MetaStuck()
      reads this, segments, meta
    {
      MetaStores.Stuck(meta.bucket, FirstIndex())
    }

    /** Updates the purged set for the first index that is left, then removes the segments. */
    method PurgeSegments(removed: seq<Segment>) returns (r: Result<()>)
      requires MetaOk()
      modifies meta, removed
      ensures MetaOk()
      ensures r == if old(MetaStuck()) then Err(Fatal) else Ok(())
      ensures MetaStores.Purges(old(meta.bucket), meta.bucket, old(FirstIndex()))
    {
      hide MetaStores.Purges, MetaStores.Stuck, MetaStores.WellFormed, MetaStores.Distinct;
      var firstIndex := FirstIndex();
      r := meta.UpdatePurgedGtidSet(firstIndex);
      if r.Err? { return; }
      RemoveAll(removed);
    }

    lemma MetaApart()
      ensures meta !in Footprint()
    {
    }

    method RemoveAll(segs: seq<Segment>)
      modifies segs
      ensures forall i :: 0 <= i < |segs| ==> segs[i].status == SegmentClosed
    {
      var i := 0;
      while i < |segs|
        invariant 0 <= i <= |segs|
        invariant forall k :: 0 <= k < i ==> segs[k].status == SegmentClosed
      {
        segs[i].Remove();
        i := i + 1;
      }
    }

    lemma DroppedApart(all: seq<Segment>, kept: seq<Segment>, dropped: seq<Segment>)
      requires Separate(all) && all == kept + dropped
      ensures forall i, k :: 0 <= i < |kept| && 0 <= k < |dropped| ==> dropped[k] !in kept[i].Repr()
      ensures FootprintOf(kept) <= FootprintOf(all)
      ensures forall s :: s in dropped ==> s in FootprintOf(all)
      ensures Separate(kept)
    {
      forall i, k | 0 <= i < |kept| && 0 <= k < |dropped|
        ensures dropped[k] !in kept[i].Repr()
      {
        assert kept[i] == all[i] && dropped[k] == all[|kept| + k];
        assert dropped[k] in all[|kept| + k].Repr();
      }
      forall i, j | 0 <= i < j < |kept|
        ensures kept[i].Repr() !! kept[j].Repr()
      {
        assert kept[i] == all[i] && kept[j] == all[j];
      }
      forall o | o in FootprintOf(kept)
        ensures o in FootprintOf(all)
      {
        var s :| s in kept && o in s.Repr();
        assert s in all;
      }
      forall s | s in dropped
        ensures s in FootprintOf(all)
      {
        assert s in all && s in s.Repr();
      }
    }

    /** Forgets the segments behind segment j, and purges them if there are any. */
    method DropAfter(j: nat) returns (r: Result<()>)
      requires Valid() && j < |segments| && MetaOk()
      modifies this, Footprint(), meta
      ensures MetaOk()
      ensures r == if old(j < |segments| - 1 && MetaStuck()) then Err(Fatal) else Ok(())
      ensures if j < |old(segments)| - 1 then MetaStores.Purges(old(meta.bucket), meta.bucket, old(FirstIndex()))
              else meta.bucket == old(meta.bucket)
      ensures segments == old(segments)[..j + 1] && Footprint() <= old(Footprint())
      ensures Separate(segments)
      ensures forall i :: 0 <= i < j ==> SegmentOk(segments, i, enc, crc, segmentSize, live)
      ensures AtEnd(segments, j, enc, crc, segmentSize, live)
      ensures LogOf(segments[..j]) == old(LogOf(segments[..j]))
      ensures segments[j].log == old(segments[j].log) && segments[j].firstIndex == old(segments[j].firstIndex)
      ensures segments[j].lastIndex == old(segments[j].lastIndex)
      ensures segments[j].logFile.writePosition == old(segments[j].logFile.writePosition)
    {
      hide Segment.Valid, Encodes, Clean, SegmentOk, Separate, AtEnd, LogOf, FootprintOf;
      hide MetaStores.Purges, MetaStores.Stuck, MetaStores.WellFormed, MetaStores.Distinct;
      r := Ok(());
      var removed := segments[j + 1..];
      ghost var all, kept := segments, segments[..j + 1];
      KeptOk(j);
      assert all == kept + removed;
      DroppedApart(all, kept, removed);
      Apart(kept);
      segments := segments[..j + 1];
      assert FirstIndex() == old(FirstIndex());
      if |removed| != 0 {
        r := PurgeSegments(removed);
      }
      assert kept[..j] == all[..j];
    }

    lemma KeptOk(j: nat)
      requires Valid() && j < |segments|
      ensures var kept := segments[..j + 1];
              && AtEnd(kept, j, enc, crc, segmentSize, live)
              && forall i :: 0 <= i < j ==> SegmentOk(kept, i, enc, crc, segmentSize, live)
    {
      hide Segment.Valid, Encodes, Clean;
      var kept := segments[..j + 1];
      assert SegmentOk(segments, j, enc, crc, segmentSize, live);
      forall i | 0 <= i < j
        ensures SegmentOk(kept, i, enc, crc, segmentSize, live)
      {
        assert kept[..i + 1] == segments[..i + 1];
        InnerOk(segments, kept, i);
      }
    }

    /** Cuts the last segment at raftIndex and reopens it for writing. */
    method CutLast(s: Segment, raftIndex: nat, ghost front: seq<Segment>) returns (r: Result<()>)
      requires segments == front + [s] && segmentSize <= TWO_32 && Encodes(enc, crc) && Separate(segments)
      requires forall i :: 0 <= i < |front| ==> SegmentOk(segments, i, enc, crc, segmentSize, live)
      requires AtEnd(segments, |front|, enc, crc, segmentSize, live)
      requires s.firstIndex <= raftIndex <= s.lastIndex
      modifies s.Repr()
      ensures r == if old(Cuttable(s, raftIndex)) then Ok(()) else Err(ErrOutOfBound)
      ensures r.Ok? ==> Chained() && Follows(raftIndex)
      ensures r.Ok? ==> raftIndex - old(s.firstIndex) <= |old(s.log)|
      ensures s.log == if r.Err? then old(s.log) else old(s.log)[..raftIndex - old(s.firstIndex)]
      ensures LogOf(front) == old(LogOf(front))
    {
      hide Segment.Valid, Encodes, EncodeLog, Clean;
      ghost var n := |front|;
      assert segments[n] == s;
      assert forall i :: 0 <= i < n ==> segments[i] == front[i] && segments[i].Repr() !! s.Repr();
      r := CutSegment(s, raftIndex);
      assert r.Ok? ==> Follows(raftIndex) && SegmentOk(segments, n, enc, crc, segmentSize, live);
      hide SegmentOk, AtEnd, Separate, LogOf;
      assert forall i :: 0 <= i < n ==> SegmentOk(segments, i, enc, crc, segmentSize, live);
    }

    method CutSegment(s: Segment, raftIndex: nat) returns (r: Result<()>)
      requires s.Valid() && s.enc == enc && s.crc == crc && s.logFile.maxBytes == segmentSize
      requires live ==> Clean(s)
      requires s.log != [] && s.firstIndex <= raftIndex <= s.lastIndex
      modifies s.Repr()
      ensures r == if old(Cuttable(s, raftIndex)) then Ok(()) else Err(ErrOutOfBound)
      ensures r.Ok? ==> raftIndex - old(s.firstIndex) <= |old(s.log)|
      ensures s.log == if r.Err? then old(s.log) else old(s.log)[..raftIndex - old(s.firstIndex)]
      ensures r.Ok? ==> Writable(s)
      ensures r.Ok? && s.log != [] ==> s.firstIndex == old(s.firstIndex) && s.lastIndex == raftIndex - 1
      ensures r.Ok? && s.log == [] ==> raftIndex == old(s.firstIndex)
    {
      hide Segment.Valid, EncodeLog;
      s.RangeFacts();
      r := s.TruncateSuffix(raftIndex);
      s.RangeFacts();
    }

    ghost predicate Cuttable(s: Segment, raftIndex: nat)
      reads s, s.logFile
    {
      s.PositionKnown() || raftIndex == s.firstIndex
    }

    ghost predicate InRange(raftIndex: nat)
      reads this, segments
    {
      segments != [] && segments[0].firstIndex <= raftIndex <= segments[|segments| - 1].lastIndex
    }

    /** The segment holding raftIndex knows its write position, or is cut at its very start. */
    ghost predicate CanCut(raftIndex: nat)
      reads this, segments, set s | s in segments :: s.logFile
    {
      exists j :: 0 <= j < |segments| && Contains(j, raftIndex) && Cuttable(segments[j], raftIndex)
    }

    /** A cut at this index drops whole segments behind it. */
    ghost predicate CutsAcross(raftIndex: nat)
      reads this, segments
    {
      segments != [] && raftIndex < segments[|segments| - 1].firstIndex
    }

    /**
     Drops every entry from raftIndex on, across segments.  It succeeds exactly for an index
     in the log whose segment can be cut, unless dropping whole segments meets metadata that
     cannot be updated; then exactly the segments behind the one that contains the index are gone.
     */
    method TruncateSuffix(raftIndex: nat) returns (r: Result<()>)
      requires Valid() && MetaOk()
      modifies this, Footprint(), meta
      ensures MetaOk()
      ensures r == if !old(InRange(raftIndex)) then Err(ErrOutOfBound)
                   else if old(CutsAcross(raftIndex) && MetaStuck()) then Err(Fatal)
                   else if old(CanCut(raftIndex)) then Ok(()) else Err(ErrOutOfBound)
      ensures if old(InRange(raftIndex) && CutsAcross(raftIndex))
              then MetaStores.Purges(old(meta.bucket), meta.bucket, old(FirstIndex()))
              else meta.bucket == old(meta.bucket)
      ensures !old(InRange(raftIndex)) ==> Valid() && segments == old(segments) && Log() == old(Log())
      ensures r.Ok? ==> Chained() && Follows(raftIndex)
      ensures r.Ok? ==> raftIndex - old(segments[0].firstIndex) <= |old(Log())|
      ensures r.Ok? ==> Log() == old(Log())[..raftIndex - old(segments[0].firstIndex)]
      ensures r.Ok? ==> CutFrom(old(segments), old(Starts()), old(Logs()), raftIndex)
      ensures r.Err? ==> Log() <= old(Log())
      ensures r.Err? && old(InRange(raftIndex)) ==> exists j ::
                && 0 <= j < |old(segments)| && old(Contains(j, raftIndex))
                && Log() == old(LogOf(segments[..j])) + old(segments[j].log)
      ensures Footprint() <= old(Footprint())
    {
      hide DiskStorage.Valid, DiskStorage.Chained, LogOf, Cuttable, DiskStorage.CanCut, DiskStorage.CutsAcross;
      hide MetaStores.Purges, MetaStores.Stuck, MetaStores.WellFormed, MetaStores.Distinct;
      var j := FindSegment(raftIndex);
      if j < 0 {
        Covered(raftIndex);
        return Err(ErrOutOfBound);
      }
      WhereToCut(j, raftIndex);
      ghost var before, starts, logs, front := segments, Starts(), Logs(), LogOf(segments[..j]);
      assert starts[j] == segments[j].firstIndex && logs[j] == segments[j].log;
      ghost var k := raftIndex - starts[j];
      assert starts[j] <= raftIndex < starts[j] + |logs[j]|;
      hide DiskStorage.InRange, DiskStorage.Starts, DiskStorage.Logs, DiskStorage.CutFrom, DiskStorage.Tail;
      r := CutAt(j, raftIndex, front, logs[j], k);
      if r.Ok? { CutShape(before, starts, logs, j, raftIndex); }
    }

    lemma CutShape(before: seq<Segment>, starts: seq<nat>, logs: seq<seq<Entry>>, j: nat, raftIndex: nat)
      requires |before| == |starts| == |logs| && j < |before| && segments == before[..j + 1]
      requires starts[j] <= raftIndex < starts[j] + |logs[j]| && Tail() == logs[j][..raftIndex - starts[j]]
      ensures CutFrom(before, starts, logs, raftIndex)
    {
    }

    /** Segment j, which contains the index, decides how and where the log is cut. */
    lemma WhereToCut(j: nat, raftIndex: nat)
      requires Valid() && j < |segments| && Contains(j, raftIndex)
      ensures InRange(raftIndex) && (CanCut(raftIndex) <==> Cuttable(segments[j], raftIndex))
      ensures CutsAcross(raftIndex) <==> j < |segments| - 1
      ensures var front, body, n := LogOf(segments[..j]), segments[j].log, raftIndex - segments[j].firstIndex;
              && n < |body| && front + body <= Log()
              && raftIndex - segments[0].firstIndex <= |Log()|
              && front + body[..n] == Log()[..raftIndex - segments[0].firstIndex]
    {
      hide Segment.Valid, Encodes, Clean, Separate, SegmentOk, AtEnd, LogOf;
      OnlyHolder(j, raftIndex);
      BeforeAndIn(j);
      assert CanCut(raftIndex) <==> Cuttable(segments[j], raftIndex);
      PrefixCut(LogOf(segments[..j]), segments[j].log, Log(), raftIndex - segments[j].firstIndex);
      if j < |segments| - 1 { BeforeAndIn(|segments| - 1); Ascending(j, |segments| - 1); }
    }

    /** Where the segments start, and what they hold. */
    ghost function Starts(): (r: seq<nat>)
      reads this, segments
      ensures |r| == |segments|
    {
      seq(|segments|, i requires 0 <= i < |segments| reads this, segments => segments[i].firstIndex)
    }

    ghost function Logs(): (r: seq<seq<Entry>>)
      reads this, segments
      ensures |r| == |segments|
    {
      seq(|segments|, i requires 0 <= i < |segments| reads this, segments => segments[i].log)
    }

    /** The segments up to the one that has the index are left, and that one ends right below it. */
    ghost predicate CutFrom(before: seq<Segment>, starts: seq<nat>, logs: seq<seq<Entry>>, raftIndex: nat)
      requires |before| == |starts| == |logs|
      reads this, segments
    {
      var n := |segments| - 1;
      && 0 <= n < |before| && segments == before[..n + 1]
      && starts[n] <= raftIndex < starts[n] + |logs[n]| && Tail() == logs[n][..raftIndex - starts[n]]
    }

    /** Drops the segments behind segment j and cuts segment j. */
    method CutAt(j: nat, raftIndex: nat, ghost front: seq<Entry>, ghost body: seq<Entry>, ghost k: nat)
      returns (r: Result<()>)
      requires Valid() && j < |segments| && Contains(j, raftIndex) && MetaOk()
      requires front == LogOf(segments[..j]) && body == segments[j].log &&
               k == raftIndex - segments[j].firstIndex <= |body|
      modifies this, Footprint(), meta
      ensures MetaOk()
      ensures r == if old(j < |segments| - 1 && MetaStuck()) then Err(Fatal)
                   else if old(Cuttable(segments[j], raftIndex)) then Ok(()) else Err(ErrOutOfBound)
      ensures if j < |old(segments)| - 1 then MetaStores.Purges(old(meta.bucket), meta.bucket, old(FirstIndex()))
              else meta.bucket == old(meta.bucket)
      ensures r.Ok? ==> Chained() && Follows(raftIndex)
      ensures segments == old(segments)[..j + 1]
      ensures r.Ok? ==> Log() == front + body[..k] && Tail() == body[..k]
      ensures r.Err? ==> Log() == front + body
      ensures Footprint() <= old(Footprint())
    {
      hide Segment.Valid, Encodes, Clean, Separate, SegmentOk, AtEnd, LogOf;
      hide MetaStores.Purges, MetaStores.Stuck, MetaStores.WellFormed, MetaStores.Distinct;
      r := DropAfter(j);
      if r.Err? {
        LastIsLast();
        return;
      }
      ghost var before, kept := segments[..j], Footprint();
      MetaApart();
      assert segments == before + [segments[j]];
      r := CutLast(segments[j], raftIndex, before);
      assert Footprint() == kept;
      hide FootprintOf, DiskStorage.Chained;
      LastIsLast();
    }

    /** Entries in front of segment j, then its own, then the rest. */
    lemma BeforeAndIn(j: nat)
      requires Valid() && j < |segments|
      ensures LogOf(segments[..j]) + segments[j].log <= Log()
      ensures |LogOf(segments[..j])| == segments[j].firstIndex - segments[0].firstIndex
      ensures segments[j].log != [] && segments[j].lastIndex == segments[j].firstIndex + |segments[j].log| - 1
    {
      hide Segment.Valid, Encodes, Clean, Separate;
      assert SegmentOk(segments, j, enc, crc, segmentSize, live);
      segments[j].RangeFacts();
      LogSplit(segments, j + 1);
      assert segments[..j + 1][..j] == segments[..j];
      PlaceOf(j);
    }

    lemma LastIsLast()
      requires segments != []
      ensures Log() == LogOf(segments[..|segments| - 1]) + segments[|segments| - 1].log
    {
    }

    static lemma PrefixCut(a: seq<Entry>, b: seq<Entry>, whole: seq<Entry>, k: nat)
      requires a + b <= whole && k <= |b|
      ensures a + b[..k] == whole[..|a| + k]
      ensures a + b <= whole
    {
      assert whole[..|a + b|] == a + b;
    }

    lemma OnlyHolder(j: nat, raftIndex: nat)
      requires Valid() && j < |segments| && Contains(j, raftIndex)
      ensures InRange(raftIndex)
      ensures forall i :: 0 <= i < |segments| && Contains(i, raftIndex) ==> i == j
    {
      hide Segment.Valid, Encodes, Clean, Separate;
      forall i | 0 <= i < |segments|
        ensures segments[i].log != [] && segments[i].firstIndex <= segments[i].lastIndex
      {
        assert SegmentOk(segments, i, enc, crc, segmentSize, live);
        segments[i].RangeFacts();
      }
      forall i | 0 <= i < |segments| && i != j
        ensures !Contains(i, raftIndex)
      {
        if i < j { Ascending(i, j); } else { Ascending(j, i); }
      }
      if j > 0 { Ascending(0, j); }
      if j < |segments| - 1 { Ascending(j, |segments| - 1); }
    }

    /** No index inside the log falls between segments. */
    lemma Covered(raftIndex: nat)
      requires Valid() && forall i :: 0 <= i < |segments| ==> !Contains(i, raftIndex)
      ensures !InRange(raftIndex)
    {
      hide Segment.Valid, Encodes, Clean, Separate;
      if InRange(raftIndex) {
        var i := |segments| - 1;
        while i > 0
          invariant 0 <= i < |segments| && raftIndex <= segments[i].lastIndex && !Contains(i, raftIndex)
        {
          assert SegmentOk(segments, i, enc, crc, segmentSize, live);
          i := i - 1;
        }
      }
    }

    // ---- bounds ---------------------------------------------------------------------

    function LastIndex(): (i: nat)
      reads this, segments
    {
      if |segments| == 0 then 0 else segments[|segments| - 1].lastIndex
    }

    function FirstIndex(): (i: nat)
      reads this, segments
    {
      if |segments| == 0 then 1 else segments[0].firstIndex
    }

    /** FirstIndex and LastIndex are the bounds of one gap-free log. */
    lemma Bounds()
      requires Valid()
      ensures segments == [] <==> Log() == []
      ensures Contiguous(Log()) && AllStorable(Log())
      ensures FirstIndex() == if Log() == [] then 1 else Log()[0].index
      ensures LastIndex() == if Log() == [] then 0 else Log()[|Log()| - 1].index
      ensures Log() != [] ==> LastIndex() == FirstIndex() + |Log()| - 1
    {
      hide Segment.Valid, Encodes, Clean, Separate;
      if segments != [] {
        var n := |segments| - 1;
        JoinedLog(n + 1);
        assert segments[..n + 1] == segments;
        BeforeAndIn(n);
        assert Log()[|Log()| - 1] == segments[n].log[|segments[n].log| - 1];
        assert SegmentOk(segments, n, enc, crc, segmentSize, live);
        segments[n].RangeFacts();
      }
    }

    lemma {:induction false} JoinedLog(j: nat)
      requires Valid() && j <= |segments|
      ensures Contiguous(LogOf(segments[..j])) && AllStorable(LogOf(segments[..j]))
      ensures j > 0 ==> LogOf(segments[..j]) != [] && LogOf(segments[..j])[0].index == segments[0].firstIndex
      decreases j
    {
      hide Segment.Valid, Encodes, Clean, Separate;
      if j > 0 {
        JoinedLog(j - 1);
        assert segments[..j][..j - 1] == segments[..j - 1];
        assert SegmentOk(segments, j - 1, enc, crc, segmentSize, live);
        BeforeAndIn(j - 1);
        segments[j - 1].RangeFacts();
      }
    }

    /** A segment of a store created in this run can be cut anywhere. */
    lemma LiveCanCut(raftIndex: nat)
      requires Valid() && live && InRange(raftIndex)
      ensures CanCut(raftIndex)
    {
      hide Segment.Valid, Encodes, Separate;
      if forall i :: 0 <= i < |segments| ==> !Contains(i, raftIndex) {
        Covered(raftIndex);
      } else {
        var j :| 0 <= j < |segments| && Contains(j, raftIndex);
        assert SegmentOk(segments, j, enc, crc, segmentSize, live);
      }
    }

    // ---- purge ----------------------------------------------------------------------

    /** Forgets the first d segments and purges them. */
    method DropBefore(d: nat) returns (r: Result<()>)
      requires Valid() && d <= |segments| && MetaOk()
      modifies this, Footprint(), meta
      ensures MetaOk()
      ensures r == if MetaStores.Stuck(old(meta.bucket), FirstIndex()) then Err(Fatal) else Ok(())
      ensures MetaStores.Purges(old(meta.bucket), meta.bucket, FirstIndex())
      ensures Valid() && Footprint() <= old(Footprint())
      ensures segments == old(segments)[d..]
      ensures old(Log()) == old(LogOf(segments[..d])) + Log()
    {
      hide Segment.Valid, Encodes, Clean, EncodeLog, SegmentOk, Separate, LogOf, FootprintOf;
      hide MetaStores.Purges, MetaStores.Stuck, MetaStores.WellFormed, MetaStores.Distinct;
      var deleted := segments[..d];
      ghost var kept := segments[d..];
      LogSplit(segments, d);
      RemainOk(d);
      assert segments == deleted + kept;
      PurgedApart(segments, deleted, kept);
      Apart(kept);
      segments := segments[d..];
      label dropped:
      r := PurgeSegments(deleted);
      assert FirstIndex() == old@dropped(FirstIndex());
      assert LogOf(kept) == old(LogOf(kept));
      assert forall i :: 0 <= i < |kept| ==> SegmentOk(kept, i, enc, crc, segmentSize, live);
    }

    /**
     Removes the oldest segments until `reserve` are left; what remains is a suffix of the log, and
     the metadata is updated for its first index.
     */
    method PurgeLog(reserve: nat) returns (r: Result<()>)
      requires Valid() && MetaOk()
      modifies this, Footprint(), meta
      ensures MetaOk()
      ensures r == if reserve < |old(segments)| && MetaStores.Stuck(old(meta.bucket), FirstIndex())
                   then Err(Fatal) else Ok(())
      ensures if reserve < |old(segments)| then MetaStores.Purges(old(meta.bucket), meta.bucket, FirstIndex())
              else meta.bucket == old(meta.bucket)
      ensures Valid() && Footprint() <= old(Footprint())
      ensures if reserve < |old(segments)| then |segments| == reserve
              else segments == old(segments) && Log() == old(Log())
      ensures |Log()| <= |old(Log())| && Log() == old(Log())[|old(Log())| - |Log()|..]
    {
      hide DiskStorage.Valid, LogOf, FootprintOf;
      hide MetaStores.Purges, MetaStores.Stuck, MetaStores.WellFormed, MetaStores.Distinct;
      r := Ok(());
      if reserve < |segments| {
        ghost var before, front := Log(), LogOf(segments[..|segments| - reserve]);
        r := DropBefore(|segments| - reserve);
        assert before[|front|..] == Log();
      } else {
        assert Log() == Log()[0..];
      }
    }

    lemma RemainOk(d: nat)
      requires Valid() && d <= |segments|
      ensures forall i :: 0 <= i < |segments| - d ==> SegmentOk(segments[d..], i, enc, crc, segmentSize, live)
      ensures segments[d..] != [] ==> segments[d..][|segments| - d - 1].log != []
    {
      hide Segment.Valid, Encodes, Clean, Separate;
      forall i | 0 <= i < |segments| - d
        ensures SegmentOk(segments[d..], i, enc, crc, segmentSize, live)
      {
        assert SegmentOk(segments, d + i, enc, crc, segmentSize, live);
        assert segments[d..][i] == segments[d + i];
      }
    }

    lemma PurgedApart(all: seq<Segment>, dropped: seq<Segment>, kept: seq<Segment>)
      requires Separate(all) && all == dropped + kept
      ensures forall i, k :: 0 <= i < |kept| && 0 <= k < |dropped| ==> dropped[k] !in kept[i].Repr()
      ensures forall i, k :: 0 <= i < |kept| && 0 <= k < |dropped| ==> dropped[k] != kept[i]
      ensures FootprintOf(kept) <= FootprintOf(all)
      ensures forall s :: s in dropped ==> s in FootprintOf(all)
      ensures Separate(kept)
    {
      forall i, k | 0 <= i < |kept| && 0 <= k < |dropped|
        ensures dropped[k] !in kept[i].Repr() && dropped[k] != kept[i]
      {
        assert kept[i] == all[|dropped| + i] && dropped[k] == all[k];
        assert dropped[k] in all[k].Repr() && kept[i] in all[|dropped| + i].Repr();
      }
      forall i, j | 0 <= i < j < |kept|
        ensures kept[i].Repr() !! kept[j].Repr()
      {
        assert kept[i] == all[|dropped| + i] && kept[j] == all[|dropped| + j];
      }
      forall o | o in FootprintOf(kept)
        ensures o in FootprintOf(all)
      {
        var s :| s in kept && o in s.Repr();
        assert s in all;
      }
      forall s | s in dropped
        ensures s in FootprintOf(all)
      {
        assert s in all && s in s.Repr();
      }
    }

    // ---- reopening ------------------------------------------------------------------

    ghost predicate AllSealed()
      reads this, segments, Footprint()
    {
      && segmentSize <= TWO_32 && Encodes(enc, crc) && Separate(segments)
      && forall i :: 0 <= i < |segments| ==> Sealed(segments, i, enc, crc, segmentSize, live)
    }

    lemma NoFootprint()
      requires segments == []
      ensures Footprint() == {} && Log() == []
    {
    }

    lemma FootprintExists()
      ensures forall o :: o in Footprint() ==> allocated(o)
    {
    }

    lemma NothingIsSealed()
      requires Valid() && segments == []
      ensures AllSealed()
    {
    }

    /** Adds one more sealed segment while a store is being reopened. */
    method AttachSealed(s: Segment)
      requires AllSealed() && Footprint() !! s.Repr()
      requires s.Valid() && s.enc == enc && s.crc == crc && s.logFile.maxBytes == segmentSize
      requires s.status == SegmentReadOnly && s.log != [] && (live ==> Clean(s))
      requires segments != [] ==> s.firstIndex == segments[|segments| - 1].lastIndex + 1
      modifies this
      ensures AllSealed() && Footprint() == old(Footprint()) + s.Repr()
      ensures segments == old(segments) + [s] && Log() == old(Log()) + s.log
    {
      hide Segment.Valid, Encodes, Clean, Sealed, Separate, LogOf, FootprintOf;
      ghost var longer := segments + [s];
      SealedSnoc(s);
      SeparateSnoc(segments, s);
      LogSnoc(segments, s);
      Apart(longer);
      segments := segments + [s];
      assert forall i :: 0 <= i < |longer| ==> Sealed(longer, i, enc, crc, segmentSize, live);
    }

    lemma SealedSnoc(s: Segment)
      requires forall i :: 0 <= i < |segments| ==> Sealed(segments, i, enc, crc, segmentSize, live)
      requires s.Valid() && s.enc == enc && s.crc == crc && s.logFile.maxBytes == segmentSize
      requires s.status == SegmentReadOnly && s.log != [] && (live ==> Clean(s))
      requires segments != [] ==> s.firstIndex == segments[|segments| - 1].lastIndex + 1
      ensures forall i :: 0 <= i <= |segments| ==> Sealed(segments + [s], i, enc, crc, segmentSize, live)
    {
      hide Segment.Valid, Clean;
      var longer := segments + [s];
      forall i | 0 <= i <= |segments|
        ensures Sealed(longer, i, enc, crc, segmentSize, live)
      {
        if i < |segments| {
          assert Sealed(segments, i, enc, crc, segmentSize, live);
          assert longer[i] == segments[i] && (i > 0 ==> longer[i - 1] == segments[i - 1]);
        }
      }
    }

    /** Adds the writable last segment of a reopened store. */
    method AttachLast(s: Segment)
      requires AllSealed() && Footprint() !! s.Repr() && Writable(s) && s.log != []
      requires segments != [] ==> s.firstIndex == segments[|segments| - 1].lastIndex + 1
      modifies this
      ensures Valid() && Footprint() == old(Footprint()) + s.Repr()
      ensures Log() == old(Log()) + s.log
    {
      hide Segment.Valid, Encodes, Clean, Separate, LogOf, FootprintOf, Writable;
      SealedIsInner();
      Attach(s);
    }

    lemma SealedIsInner()
      requires AllSealed()
      ensures forall i :: 0 <= i < |segments| - 1 ==> SegmentOk(segments, i, enc, crc, segmentSize, live)
    {
      hide Segment.Valid, Clean, Separate;
      forall i | 0 <= i < |segments| - 1
        ensures SegmentOk(segments, i, enc, crc, segmentSize, live)
      {
        assert Sealed(segments, i, enc, crc, segmentSize, live);
      }
    }
  }
}
