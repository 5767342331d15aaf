/** Entries as checksummed Records: what entriesToRecords makes and what readers open again. */
module Records {
  import opened Bytes
  import opened Messages
  import opened RecordLog

  type word32 = x: int | 0 <= x < TWO_32

  /** CRC-32, of which only functionality matters here. */
  type Checksum = seq<byte> -> word32

  function RecordOf(crc: Checksum, e: Entry): (r: Record)
  {
    Record(crc(EntryBytes(e)), Some(EntryBytes(e)), [])
  }

  /** `enc` is the encoder that goes through Record with checksum `crc`. */
  ghost predicate Encodes(enc: Encoder, crc: Checksum)
  {
    forall e {:trigger RecordOf(crc, e)} :: enc(e) == RecordBytes(RecordOf(crc, e))
  }

  function DataOf(r: Record): (s: seq<byte>)
  {
    if r.data.Some? then r.data.value else []
  }

  /** Decode a record into `record`, verify the checksum, decode its entry into `entry`. */
  function OpenRecord(crc: Checksum, record: Record, entry: Entry, body: seq<byte>): (r: Option<(Record, Entry)>)
  {
    match ParseRecord(record, body)
    case None => None
    case Some(rec) =>
      if crc(DataOf(rec)) != rec.crc then None
      else match ParseEntry(entry, DataOf(rec))
        case None => None
        case Some(e) => Some((rec, e))
  }

  /**
   A record opens to the entry it was made from.  Decoding into a message that is not fresh
   keeps that message's data when the entry has none, but never its index.
   */
  lemma OpenRecordRoundTrip(crc: Checksum, record: Record, entry: Entry, e: Entry)
    requires ValidEntry(e) && |EntryBytes(e)| < TWO_63
    ensures var got := OpenRecord(crc, record, entry, RecordBytes(RecordOf(crc, e)));
            && got.Some?
            && got.value.1 == Entry(e.etype, e.term, e.index, Kept(e.data, entry.data), entry.unrecognized)
  {
    RecordRoundTrip(record, RecordOf(crc, e));
    EntryRoundTrip(entry, e);
  }

  /** A record whose checksum is not that of its data never opens, whatever the messages hold. */
  lemma CorruptRefused(crc: Checksum, record: Record, entry: Entry, c: word32, data: seq<byte>)
    requires |data| < TWO_63 && c != crc(data)
    ensures OpenRecord(crc, record, entry, RecordBytes(Record(c, Some(data), []))) == None
  {
    hide ParseEntry, RecordBytes;
    RecordRoundTrip(record, Record(c, Some(data), []));
  }

  lemma RecordSizes(crc: Checksum, e: Entry)
    ensures 2 <= |RecordBytes(RecordOf(crc, e))|
    ensures |EntryBytes(e)| <= |RecordBytes(RecordOf(crc, e))|
  {
    var m := RecordOf(crc, e);
    var fs := RecordFields(m);
    assert FieldsBytes(fs) == FieldBytes(fs.head) + FieldsBytes(fs.tail);
    assert FieldsBytes(fs.tail) == FieldBytes(fs.tail.head) + FieldsBytes(Nil);
  }

  /** The entry whose frame starts at `pos`, and where the next frame starts. */
  function FrameAt(crc: Checksum, file: seq<byte>, pos: nat): (r: Option<(Entry, nat)>)
  {
    if pos + RECORD_LENGTH_SIZE > |file| then None
    else
      var next := pos + RECORD_LENGTH_SIZE + LengthAt(file, pos);
      if next > |file| then None
      else match OpenRecord(crc, NEW_RECORD, NEW_ENTRY, file[pos + RECORD_LENGTH_SIZE..next])
        case None => None
        case Some((_, e)) => Some((e, next))
  }

  lemma OpenFresh(crc: Checksum, enc: Encoder, e: Entry)
    requires Encodes(enc, crc) && ValidEntry(e) && |enc(e)| < TWO_63
    ensures var got := OpenRecord(crc, NEW_RECORD, NEW_ENTRY, enc(e)); got.Some? && got.value.1 == e
  {
    RecordSizes(crc, e);
    OpenRecordRoundTrip(crc, NEW_RECORD, NEW_ENTRY, e);
  }

  lemma FrameAtBody(crc: Checksum, file: seq<byte>, pos: nat, body: seq<byte>, e: Entry)
    requires pos + RECORD_LENGTH_SIZE + |body| <= |file|
    requires LengthAt(file, pos) == |body|
    requires file[pos + RECORD_LENGTH_SIZE..pos + RECORD_LENGTH_SIZE + |body|] == body
    requires OpenRecord(crc, NEW_RECORD, NEW_ENTRY, body).Some?
    requires OpenRecord(crc, NEW_RECORD, NEW_ENTRY, body).value.1 == e
    ensures FrameAt(crc, file, pos) == Some((e, pos + RECORD_LENGTH_SIZE + |body|))
  {
  }

  /** Reading at the offset the index holds for entry k gives back entry k. */
  lemma FrameAtReads(crc: Checksum, enc: Encoder, file: seq<byte>, log: seq<Entry>, k: nat)
    requires Encodes(enc, crc) && |file| <= TWO_32
    requires EncodeLog(enc, log) <= file && k < |log| && Storable(log[k])
    ensures FrameAt(crc, file, Offset(enc, log, k)) == Some((log[k], Offset(enc, log, k + 1)))
  {
    var e, pos := log[k], Offset(enc, log, k);
    FrameInFile(enc, file, log, k);
    FrameParts(enc, file, pos, e);
    OpenFresh(crc, enc, e);
    FrameAtBody(crc, file, pos, enc(e), e);
    assert Offset(enc, log, k + 1) == pos + RECORD_LENGTH_SIZE + |enc(e)|;
  }
}
