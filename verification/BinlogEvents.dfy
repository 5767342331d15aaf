/** Raft entries read as binlog events. */
module BinlogEvents {
  import opened Bytes
  import opened Gtids
  import opened Messages
  import opened TrxBoundaries

  const ENTRY_NORMAL := 0
  const BINLOG_EVENT_TYPE: byte := 1
  const ROTATE_EVENT := 4
  const FORMAT_DESCRIPTION_EVENT := 15
  const PREVIOUS_GTIDS_EVENT := 35

  /** Sizes of the common header and of the trailing checksum of a raw event. */
  const HEADER := 19
  const CHECKSUM := 4

  /** A GTID event body starts with a flag, a server id and a 64-bit number. */
  const SID := 16
  const GTID_BODY := 1 + SID + 8

  /** The fields of the common header that progress uses. */
  datatype Header = Header(eventType: nat, eventSize: nat, flags: nat)

  function HeaderOf(raw: seq<byte>): Header
    requires HEADER <= |raw|
  {
    Header(raw[4], FromLittleEndian(raw[9..13]), FromLittleEndian(raw[17..19]))
  }

  predicate IsBinlogEvent(e: Entry)
  {
    e.etype == ENTRY_NORMAL && e.data.Some? && |e.data.value| != 0 && e.data.value[0] == BINLOG_EVENT_TYPE
  }

  function EventOf(e: Entry): Option<BinlogEvent>
    requires IsBinlogEvent(e)
  {
    ParseEvent(NEW_EVENT, e.data.value[1..])
  }

  function RawOf(ev: BinlogEvent): seq<byte>
  {
    if ev.data.Some? then ev.data.value else []
  }

  function BodyOf(raw: seq<byte>): seq<byte>
    requires HEADER + CHECKSUM <= |raw|
  {
    raw[HEADER..|raw| - CHECKSUM]
  }

  /** Decodes the text of a query event from its body; None when it does not decode. */
  type QueryDecoder = seq<byte> -> Option<string>

  /** The boundary of a whole raw event; None when progress rejects the event. */
  function BoundaryOfRaw(raw: seq<byte>, queryOf: QueryDecoder): Option<Boundary>
  {
    if HEADER + CHECKSUM <= |raw| && |raw| == HeaderOf(raw).eventSize then
      var h := HeaderOf(raw);
      BoundaryOf(h.eventType, h.flags, queryOf(BodyOf(raw)))
    else None
  }

  /** The GTID of a GTID event, None when its number is not one a GTID can have. */
  function GtidOf(raw: seq<byte>): Option<Gtid>
    requires HEADER + GTID_BODY + CHECKSUM <= |raw|
  {
    var body := BodyOf(raw);
    var gno := FromLittleEndian(body[1 + SID..GTID_BODY]);
    if gno < TWO_63 - 1 then Some(Gtid(body[1..1 + SID], gno)) else None
  }

  /** What an event means to the dump filter. */
  datatype Mark = GtidMark(gtid: Gtid) | BadGtidMark | RotateMark | NoMark

  /** Whether the slices the code takes of the event stay inside it. */
  predicate Sliceable(ev: BinlogEvent)
  {
    ev.etype == GTID_EVENT ==> HEADER + GTID_BODY + CHECKSUM <= |RawOf(ev)|
  }

  function MarkOf(ev: BinlogEvent): Mark
    requires Sliceable(ev)
  {
    if ev.etype == GTID_EVENT then
      (match GtidOf(RawOf(ev)) case None => BadGtidMark case Some(g) => GtidMark(g))
    else if ev.etype == ROTATE_EVENT then RotateMark
    else NoMark
  }

  /** An entry that applying and dumping can decode without a run-time panic. */
  predicate Decodable(e: Entry)
  {
    IsBinlogEvent(e) ==> EventOf(e).Some? && Sliceable(EventOf(e).value)
  }

  function EntryMark(e: Entry): Mark
    requires Decodable(e)
  {
    if IsBinlogEvent(e) then MarkOf(EventOf(e).value) else NoMark
  }
}
