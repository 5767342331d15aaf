/**
 The byte layout of a segment, as a function of the entries in it: each entry becomes a
 checksummed Record behind a 4-byte length, records stand back to back, and the index
 holds one 12-byte cell (raft index, file offset) per entry.
 */
module RecordLog {
  import opened Bytes
  import opened Messages

  const RECORD_LENGTH_SIZE: nat := 4
  const INDEX_ENTRY_SIZE: nat := 12

  /** How an entry becomes the bytes of a record. */
  type Encoder = Entry -> seq<byte>

  function FrameOf(enc: Encoder, e: Entry): (s: seq<byte>)
    ensures |s| == RECORD_LENGTH_SIZE + |enc(e)|
  {
    LittleEndian(|enc(e)|, RECORD_LENGTH_SIZE) + enc(e)
  }

  function EncodeLog(enc: Encoder, log: seq<Entry>): (s: seq<byte>)
  {
    if log == [] then [] else EncodeLog(enc, log[..|log| - 1]) + FrameOf(enc, log[|log| - 1])
  }

  /** Where entry k's frame starts. */
  function Offset(enc: Encoder, log: seq<Entry>, k: nat): (n: nat)
    requires k <= |log|
  {
    if k == 0 then 0 else Offset(enc, log, k - 1) + |FrameOf(enc, log[k - 1])|
  }

  ghost predicate Storable(e: Entry)
  {
    ValidEntry(e) && e.index >= 1
  }

  /** Consecutive raft indices. */
  ghost predicate Contiguous(log: seq<Entry>)
  {
    forall i :: 0 <= i < |log| ==> log[i].index == log[0].index + i
  }

  ghost predicate AllStorable(log: seq<Entry>)
  {
    forall i :: 0 <= i < |log| ==> Storable(log[i])
  }

  // ---- layout lemmas ----------------------------------------------------------------

  lemma EncodeSnoc(enc: Encoder, log: seq<Entry>, e: Entry)
    ensures EncodeLog(enc, log + [e]) == EncodeLog(enc, log) + FrameOf(enc, e)
  {
    assert (log + [e])[..|log|] == log;
  }

  lemma {:induction false} EncodeConcat(enc: Encoder, a: seq<Entry>, b: seq<Entry>)
    ensures EncodeLog(enc, a + b) == EncodeLog(enc, a) + EncodeLog(enc, b)
  {
    if b == [] {
      assert a + b == a;
    } else {
      var b', e := b[..|b| - 1], b[|b| - 1];
      assert a + b == (a + b') + [e];
      EncodeSnoc(enc, a + b', e);
      EncodeConcat(enc, a, b');
      ConcatAssoc(EncodeLog(enc, a), EncodeLog(enc, b'), FrameOf(enc, e));
    }
  }

  lemma {:induction false} OffsetOfPrefix(enc: Encoder, log: seq<Entry>, other: seq<Entry>, k: nat)
    requires k <= |log| && k <= |other| && log[..k] == other[..k]
    ensures Offset(enc, log, k) == Offset(enc, other, k)
  {
    if k > 0 {
      assert log[k - 1] == log[..k][k - 1] == other[..k][k - 1] == other[k - 1];
      assert log[..k - 1] == log[..k][..k - 1] == other[..k][..k - 1] == other[..k - 1];
      OffsetOfPrefix(enc, log, other, k - 1);
    }
  }

  lemma {:induction false} OffsetsAscend(enc: Encoder, log: seq<Entry>, j: nat, k: nat)
    requires j <= k <= |log|
    ensures Offset(enc, log, j) <= Offset(enc, log, k)
  {
    if j < k { OffsetsAscend(enc, log, j, k - 1); }
  }

  lemma {:induction false} EncodedLength(enc: Encoder, log: seq<Entry>)
    ensures |EncodeLog(enc, log)| == Offset(enc, log, |log|)
  {
    if log != [] {
      var front := log[..|log| - 1];
      EncodedLength(enc, front);
      OffsetOfPrefix(enc, front, log, |front|);
    }
  }

  /** Keeping the first k entries keeps exactly the bytes before entry k's offset. */
  lemma {:induction false} EncodeCut(enc: Encoder, log: seq<Entry>, k: nat)
    requires k <= |log|
    ensures EncodeLog(enc, log[..k]) <= EncodeLog(enc, log)
    ensures |EncodeLog(enc, log[..k])| == Offset(enc, log, k)
  {
    EncodedLength(enc, log[..k]);
    OffsetOfPrefix(enc, log[..k], log, k);
    if k == |log| {
      assert log[..k] == log;
    } else {
      var front := log[..|log| - 1];
      EncodeCut(enc, front, k);
      assert front[..k] == log[..k];
    }
  }

  /** A file that starts with the encoded log has entry k's frame at entry k's offset. */
  lemma {:induction false} FrameInFile(enc: Encoder, file: seq<byte>, log: seq<Entry>, k: nat)
    requires EncodeLog(enc, log) <= file
    requires k < |log|
    ensures Offset(enc, log, k) + |FrameOf(enc, log[k])| <= |EncodeLog(enc, log)|
    ensures file[Offset(enc, log, k)..Offset(enc, log, k) + |FrameOf(enc, log[k])|] == FrameOf(enc, log[k])
  {
    var front, frame := log[..|log| - 1], FrameOf(enc, log[|log| - 1]);
    if k < |front| {
      PrefixTrans(EncodeLog(enc, front), EncodeLog(enc, log), file);
      FrameInFile(enc, file, front, k);
      OffsetOfPrefix(enc, front, log, k);
    } else {
      EncodedLength(enc, front);
      OffsetOfPrefix(enc, front, log, k);
      SliceMiddle(file, EncodeLog(enc, front), frame);
    }
  }

  function LengthAt(file: seq<byte>, pos: nat): (n: nat)
    requires pos + RECORD_LENGTH_SIZE <= |file|
  {
    FromLittleEndian(file[pos..pos + RECORD_LENGTH_SIZE])
  }

  /** The length prefix of a frame reads back, and the record follows it. */
  lemma FrameParts(enc: Encoder, file: seq<byte>, pos: nat, e: Entry)
    requires pos + |FrameOf(enc, e)| <= |file| <= TWO_32
    requires file[pos..pos + |FrameOf(enc, e)|] == FrameOf(enc, e)
    ensures LengthAt(file, pos) == |enc(e)|
    ensures file[pos + RECORD_LENGTH_SIZE..pos + |FrameOf(enc, e)|] == enc(e)
  {
    var body, frame := enc(e), FrameOf(enc, e);
    Pow2Small();
    LittleEndianRoundTrip(|body|, RECORD_LENGTH_SIZE);
    assert frame[..RECORD_LENGTH_SIZE] == LittleEndian(|body|, RECORD_LENGTH_SIZE);
    assert frame[RECORD_LENGTH_SIZE..] == body;
    assert file[pos..pos + RECORD_LENGTH_SIZE] == file[pos..pos + |frame|][..RECORD_LENGTH_SIZE];
    assert file[pos + RECORD_LENGTH_SIZE..pos + |frame|] == file[pos..pos + |frame|][RECORD_LENGTH_SIZE..];
  }

  // ---- index cells ------------------------------------------------------------------

  datatype IndexEntry = IndexEntry(raftIndex: nat, filePosition: nat)

  function CellBytes(c: IndexEntry): (s: seq<byte>)
    ensures |s| == INDEX_ENTRY_SIZE
  {
    LittleEndian(c.raftIndex, 8) + LittleEndian(c.filePosition, 4)
  }

  function ParseCell(s: seq<byte>): (c: IndexEntry)
    requires |s| == INDEX_ENTRY_SIZE
  {
    IndexEntry(FromLittleEndian(s[..8]), FromLittleEndian(s[8..]))
  }

  /** A cell: eight bytes of raft index, then four of file position. */
  lemma CellLayout(c: IndexEntry)
    requires c.raftIndex < TWO_64 && c.filePosition < TWO_32
    ensures var cell := CellBytes(c);
            |cell| == 12 && FromLittleEndian(cell[0..8]) == c.raftIndex &&
                FromLittleEndian(cell[8..12]) == c.filePosition
  {
    Pow2Values();
    LittleEndianRoundTrip(c.raftIndex, 8);
    LittleEndianRoundTrip(c.filePosition, 4);
    hide LittleEndian, FromLittleEndian;
    assert CellBytes(c)[0..8] == LittleEndian(c.raftIndex, 8);
    assert CellBytes(c)[8..12] == LittleEndian(c.filePosition, 4);
  }

  /** A frame: four bytes of length, then the record. */
  lemma FrameLayout(enc: Encoder, e: Entry)
    requires |enc(e)| < TWO_32
    ensures var frame := FrameOf(enc, e);
            |frame| == 4 + |enc(e)| && FromLittleEndian(frame[0..4]) == |enc(e)| && frame[4..] == enc(e)
  {
    Pow2Values();
    LittleEndianRoundTrip(|enc(e)|, 4);
    hide LittleEndian, FromLittleEndian;
    assert FrameOf(enc, e)[0..4] == LittleEndian(|enc(e)|, 4);
  }

  lemma CellRoundTrip(c: IndexEntry)
    requires c.raftIndex < TWO_64 && c.filePosition < TWO_32
    ensures ParseCell(CellBytes(c)) == c
  {
    Pow2Values();
    LittleEndianRoundTrip(c.raftIndex, 8);
    LittleEndianRoundTrip(c.filePosition, 4);
    assert CellBytes(c)[..8] == LittleEndian(c.raftIndex, 8);
    assert CellBytes(c)[8..] == LittleEndian(c.filePosition, 4);
  }

  function Cells(cs: seq<IndexEntry>): (s: seq<byte>)
    ensures |s| == INDEX_ENTRY_SIZE * |cs|
  {
    if cs == [] then [] else Cells(cs[..|cs| - 1]) + CellBytes(cs[|cs| - 1])
  }

  lemma CellsSnoc(cs: seq<IndexEntry>, c: IndexEntry)
    ensures Cells(cs + [c]) == Cells(cs) + CellBytes(c)
  {
    assert (cs + [c])[..|cs|] == cs;
  }

  /** Cell k sits at byte 12k, and cutting the cells there cuts the list at k. */
  lemma {:induction false} CellAt(cs: seq<IndexEntry>, k: nat)
    requires k < |cs|
    ensures Cells(cs)[INDEX_ENTRY_SIZE * k..INDEX_ENTRY_SIZE * k + INDEX_ENTRY_SIZE] == CellBytes(cs[k])
    ensures Cells(cs)[..INDEX_ENTRY_SIZE * k] == Cells(cs[..k])
  {
    var n := |cs| - 1;
    if k < n {
      CellAt(cs[..n], k);
      assert cs[..n][..k] == cs[..k];
      var front := Cells(cs[..n]);
      assert Cells(cs)[..|front|] == front;
      assert Cells(cs)[..12 * k] == front[..12 * k];
      assert Cells(cs)[12 * k..12 * k + 12] == front[12 * k..12 * k + 12];
    }
  }

  /** What the index of a log must say: entry k's raft index and offset, in order. */
  function IndexOf(enc: Encoder, log: seq<Entry>): (cs: seq<IndexEntry>)
    ensures |cs| == |log|
  {
    seq(|log|, k requires 0 <= k < |log| => IndexEntry(log[k].index, Offset(enc, log, k)))
  }

  lemma IndexSnoc(enc: Encoder, log: seq<Entry>, e: Entry)
    ensures IndexOf(enc, log + [e]) == IndexOf(enc, log) + [IndexEntry(e.index, |EncodeLog(enc, log)|)]
  {
    EncodedLength(enc, log);
    forall k | 0 <= k <= |log|
      ensures Offset(enc, log + [e], k) == Offset(enc, log, k)
    {
      OffsetOfPrefix(enc, log + [e], log, k);
    }
  }

  lemma IndexPrefix(enc: Encoder, log: seq<Entry>, k: nat)
    requires k <= |log|
    ensures IndexOf(enc, log[..k]) == IndexOf(enc, log)[..k]
  {
    forall j | 0 <= j < k
      ensures Offset(enc, log[..k], j) == Offset(enc, log, j)
    {
      OffsetOfPrefix(enc, log[..k], log, j);
    }
  }

  /** A cell written for an entry of a log that fits 32-bit positions reads back exactly. */
  lemma IndexCellReads(enc: Encoder, log: seq<Entry>, k: nat)
    requires k < |log| && AllStorable(log) && |EncodeLog(enc, log)| <= TWO_32
    ensures ParseCell(Cells(IndexOf(enc, log))[INDEX_ENTRY_SIZE * k..INDEX_ENTRY_SIZE * k + INDEX_ENTRY_SIZE])
         == IndexOf(enc, log)[k]
  {
    var cs := IndexOf(enc, log);
    CellAt(cs, k);
    FrameInFile(enc, EncodeLog(enc, log), log, k);
    CellRoundTrip(cs[k]);
  }
}
