/** A preallocated file mapped into memory: a byte array with a write position. */
module MmapFiles {
  import opened Bytes
  import opened Messages
  import opened RecordLog
  import opened Records
  import opened StorageErrors
  import Codec

  class MmapFile {
    const mappedData: array<byte>
    const maxBytes: nat
    var writePosition: nat

    ghost predicate Valid()
      reads this
    {
      mappedData.Length == maxBytes && writePosition <= maxBytes
    }

    /** newMmapFile: a file of zeros. */
    constructor Create(fileSize: nat)
      ensures Valid() && fresh(mappedData) && maxBytes == fileSize && writePosition == 0
      ensures mappedData[..] == Zeros(fileSize)
    {
      mappedData := new byte[fileSize](_ => 0);
      maxBytes := fileSize;
      writePosition := 0;
    }

    /** openMmapFile: an existing file, with the write position at 0 until setPosition. */
    constructor Open(contents: seq<byte>)
      ensures Valid() && fresh(mappedData) && maxBytes == |contents| && writePosition == 0
      ensures mappedData[..] == contents
    {
      mappedData := new byte[|contents|](i requires 0 <= i < |contents| => contents[i]);
      maxBytes := |contents|;
      writePosition := 0;
    }

    method Append(data: seq<byte>) returns (startPos: nat)
      requires Valid() && writePosition + |data| <= maxBytes
      modifies this, mappedData
      ensures Valid()
      ensures startPos == old(writePosition) && writePosition == startPos + |data|
      ensures mappedData[..writePosition] == old(mappedData[..writePosition]) + data
      ensures mappedData[writePosition..] == old(mappedData[..])[startPos + |data|..]
    {
      startPos := writePosition;
      CopyInto(mappedData, startPos, data);
      writePosition := writePosition + |data|;
    }

    method SetPosition(position: nat)
      requires Valid() && position <= maxBytes
      modifies this
      ensures Valid() && writePosition == position
    {
      writePosition := position;
    }

    /** Zeroes from `position` up to the write position; refused beyond it. */
    method TruncateSuffix(position: nat) returns (r: Result<()>)
      requires Valid()
      modifies this, mappedData
      ensures Valid()
      ensures r == if old(writePosition) < position then Err(ErrOutOfBound) else Ok(())
      ensures r.Err? ==> writePosition == old(writePosition) && mappedData[..] == old(mappedData[..])
      ensures r.Ok? ==> writePosition == position
      ensures r.Ok? ==> mappedData[..position] == old(mappedData[..])[..position]
      ensures r.Ok? ==> forall k :: position <= k < maxBytes ==>
                          mappedData[k] == if k < old(writePosition) then 0 else old(mappedData[k])
    {
      if writePosition < position { return Err(ErrOutOfBound); }
      CopyInto(mappedData, position, Zeros(writePosition - position));
      writePosition := position;
      r := Ok(());
    }

    /** readRaftEntry: decode failures and bad checksums are fatal in the source. */
    method ReadRaftEntry(crc: Checksum, position: nat) returns (r: Option<(Entry, nat)>)
      ensures r == FrameAt(crc, mappedData[..], position)
    {
      hide LengthAt, ParseRecord, ParseEntry;
      var file := mappedData[..];
      if position + RECORD_LENGTH_SIZE > |file| { return None; }
      var at := position + RECORD_LENGTH_SIZE;
      var end := at + LengthAt(file, position);
      if end > |file| { return None; }
      var record := Codec.UnmarshalRecord(NEW_RECORD, file[at..end]);
      assert mappedData[..] == file;
      if record.None? { return None; }
      if crc(DataOf(record.value)) != record.value.crc { return None; }
      var entry := ParseEntry(NEW_ENTRY, DataOf(record.value));
      if entry.None? { return None; }
      r := Some((entry.value, end));
    }
  }
}
