/**
 The index of a segment: an in-memory list with a buffered file behind it while the segment
 is writable, the mapped 12-byte cells of that file once it is read-only.
 */
module Indexes {
  import opened Bytes
  import opened RecordLog
  import opened StorageErrors

  datatype Status = SegmentReadOnly | SegmentRDWR | SegmentClosed

  /** `file` is what reached the file, `pending` what is still in the writer's buffer. */
  datatype RWFile = RWFile(entries: seq<IndexEntry>, file: seq<byte>, pending: seq<byte>)

  ghost predicate Representable(cs: seq<IndexEntry>)
  {
    forall k :: 0 <= k < |cs| ==> cs[k].raftIndex < TWO_64 && cs[k].filePosition < TWO_32
  }

  /** Cell k is for raft index first + k. */
  ghost predicate Numbered(cs: seq<IndexEntry>, first: nat)
  {
    forall k :: 0 <= k < |cs| ==> cs[k].raftIndex == first + k
  }

  /** openRWFile: reads cells until the end of the file; a torn last cell is fatal. */
  method OpenRWFile(contents: seq<byte>, ghost cs: seq<IndexEntry>) returns (rw: Option<RWFile>)
    ensures rw.Some? ==> rw.value.file == contents && rw.value.pending == []
    ensures contents == Cells(cs) && Representable(cs) ==> rw == Some(RWFile(cs, contents, []))
  {
    var entries: seq<IndexEntry> := [];
    var pos := 0;
    while pos < |contents|
      invariant pos == INDEX_ENTRY_SIZE * |entries| <= |contents|
      invariant contents == Cells(cs) && Representable(cs) ==>
                  |entries| <= |cs| && entries == cs[..|entries|]
    {
      if pos + INDEX_ENTRY_SIZE > |contents| {
        return None;
      }
      var entry := ParseCell(contents[pos..pos + INDEX_ENTRY_SIZE]);
      if contents == Cells(cs) && Representable(cs) {
        CellAt(cs, |entries|);
        CellRoundTrip(cs[|entries|]);
      }
      entries := entries + [entry];
      pos := pos + INDEX_ENTRY_SIZE;
    }
    if contents == Cells(cs) && Representable(cs) {
      assert cs[..|cs|] == cs;
    }
    rw := Some(RWFile(entries, contents, []));
  }

  class Index {
    var readonly: Option<seq<byte>>
    var readWrite: Option<RWFile>

    /** The index says exactly `cs`, in the representation `status` calls for. */
    ghost predicate Holds(cs: seq<IndexEntry>, status: Status)
      reads this
    {
      match status
      case SegmentRDWR =>
        && readonly.None? && readWrite.Some?
        && readWrite.value.entries == cs
        && readWrite.value.file + readWrite.value.pending == Cells(cs)
      case SegmentReadOnly => readWrite.None? && readonly == Some(Cells(cs))
      case SegmentClosed => false
    }

    constructor New()
      ensures Holds([], SegmentRDWR)
    {
      readonly := None;
      readWrite := Some(RWFile([], [], []));
    }

    constructor OpenReadOnly(contents: seq<byte>)
      ensures readonly == Some(contents) && readWrite == None
    {
      readonly := Some(contents);
      readWrite := None;
    }

    constructor OpenReadWrite(rw: RWFile)
      ensures readonly == None && readWrite == Some(rw)
    {
      readonly := None;
      readWrite := Some(rw);
    }

    /** Where the record of raft index i starts. */
    method GetRaftEntryPosition(i: nat, first: nat, status: Status, ghost cs: seq<IndexEntry>)
      returns (r: Result<nat>)
      requires Holds(cs, status) && Numbered(cs, first) && Representable(cs)
      ensures r == if i < first then Err(ErrOutOfBound)
                   else if i - first < |cs| then Ok(cs[i - first].filePosition)
                   else Err(Fatal)
    {
      if i < first { return Err(ErrOutOfBound); }
      var entry;
      if status == SegmentReadOnly {
        var cells, position := readonly.value, (i - first) * INDEX_ENTRY_SIZE;
        if position + INDEX_ENTRY_SIZE > |cells| { return Err(Fatal); }
        entry := ParseCell(cells[position..position + INDEX_ENTRY_SIZE]);
        CellAt(cs, i - first);
        CellRoundTrip(cs[i - first]);
      } else {
        if i - first >= |readWrite.value.entries| { return Err(Fatal); }
        entry := readWrite.value.entries[i - first];
      }
      if entry.raftIndex != i { return Err(Fatal); }
      r := Ok(entry.filePosition);
    }

    method AppendIndexEntry(entry: IndexEntry, ghost cs: seq<IndexEntry>)
      requires Holds(cs, SegmentRDWR)
      modifies this
      ensures Holds(cs + [entry], SegmentRDWR)
    {
      var rw := readWrite.value;
      readWrite := Some(RWFile(rw.entries + [entry], rw.file, rw.pending + CellBytes(entry)));
      CellsSnoc(cs, entry);
      ConcatAssoc(rw.file, rw.pending, CellBytes(entry));
    }

    method GetLastRaftEntry(ghost cs: seq<IndexEntry>) returns (r: Result<IndexEntry>)
      requires Holds(cs, SegmentRDWR)
      ensures r == if cs == [] then Err(Fatal) else Ok(cs[|cs| - 1])
    {
      var entries := readWrite.value.entries;
      if |entries| == 0 { return Err(Fatal); }
      r := Ok(entries[|entries| - 1]);
    }

    /** Drops the cells from raft index i on; a read-only index becomes writable again. */
    method TruncateSuffix(i: nat, first: nat, status: Status, ghost cs: seq<IndexEntry>)
      returns (r: Result<()>)
      requires Holds(cs, status) && Representable(cs)
      requires first <= i ==> i - first <= |cs|
      modifies this
      ensures r == if i < first then Err(ErrOutOfBound) else Ok(())
      ensures r.Err? ==> Holds(cs, status)
      ensures r.Ok? ==> Holds(cs[..i - first], SegmentRDWR)
    {
      if i < first { return Err(ErrOutOfBound); }
      var keep := i - first;
      if status == SegmentReadOnly {
        var reopened := OpenRWFile(readonly.value, cs);
        readonly := None;
        readWrite := reopened;
      } else {
        var rw := readWrite.value;
        readWrite := Some(rw.(file := rw.file + rw.pending, pending := []));
      }
      var rw := readWrite.value;
      if keep < |cs| { CellAt(cs, keep); } else { assert cs[..keep] == cs; }
      readWrite := Some(RWFile(rw.entries[..keep], rw.file[..keep * INDEX_ENTRY_SIZE], []));
      r := Ok(());
    }

    /** Flushes the writer and maps the file read-only. */
    method ChangeToReadonly(ghost cs: seq<IndexEntry>)
      requires Holds(cs, SegmentRDWR) && cs != []
      modifies this
      ensures Holds(cs, SegmentReadOnly)
    {
      var rw := readWrite.value;
      var flushed := rw.file + rw.pending;
      readWrite := None;
      readonly := Some(flushed);
    }
  }
}
