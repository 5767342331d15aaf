/**
 What becomes of a big event: divided and proposed by the syncer, applied by every node, and
 sent to a replica.
 */
module DividedEvents {
  import opened Bytes
  import opened Messages
  import opened Packets
  import opened BinlogEvents
  import opened Fragments
  import opened Appliers
  import opened CrashReplay
  import opened TrxBoundaries
  import opened Keys
  import opened MetaStores
  import opened RecordLog
  import opened Records
  import EntryReads
  import Membership

  /** A raft entry as the syncer proposes it: the type byte and the encoded event. */
  ghost predicate Carries(e: Entry, ev: BinlogEvent)
  {
    e.etype == ENTRY_NORMAL && e.data == Some([BINLOG_EVENT_TYPE] + EventBytes(ev))
  }

  ghost predicate CarriesAll(es: seq<Entry>, events: seq<BinlogEvent>)
  {
    |es| == |events| && forall i :: 0 <= i < |es| ==> Carries(es[i], events[i])
  }

  /** The event as one entry, whatever its size. */
  function WholeEvent(raw: seq<byte>, eventType: nat): BinlogEvent
  {
    BinlogEvent(eventType, 0, 0, 0, Some(raw), [])
  }

  /** Applying an entry is applying the event that was proposed. */
  lemma CarriedCommand(e: Entry, ev: BinlogEvent, dec: Decoders)
    requires Carries(e, ev) && ValidEvent(ev) && ev.data.Some?
    ensures CommandOf(e, dec) == CommandOfEvent(ev, dec)
  {
    hide EventBytes, CommandOfEvent, ParseEvent;
    assert e.data.value[1..] == EventBytes(ev);
    EventRoundTrip(NEW_EVENT, ev);
  }

  lemma ProposedValid(raw: seq<byte>, eventType: nat, i: nat)
    requires |raw| < TWO_32 && eventType < TWO_32 && i < |Proposed(raw, eventType)|
    ensures ValidEvent(Proposed(raw, eventType)[i]) && Proposed(raw, eventType)[i].data.Some?
  {
  }

  /** The header of a first part still announces the size of the whole event. */
  lemma FirstPartRefused(raw: seq<byte>, eventType: nat, dec: Decoders)
    requires MAX_PAYLOAD <= |raw| < TWO_32 - 1 && HeaderOf(raw).eventSize == |raw|
    ensures CommandOfEvent(Proposed(raw, eventType)[0], dec) == None
  {
    hide EffectOf, BoundaryOf;
    var part := Part(raw, 0);
    assert part == raw[..MAX_PAYLOAD - 1];
    assert part[9..13] == raw[9..13] && part[17..19] == raw[17..19];
    assert HeaderOf(part) == HeaderOf(raw);
  }

  /** The types whose data is decoded for the metadata, whatever part it is. */
  predicate Decoded(eventType: nat)
  {
    eventType == GTID_EVENT || eventType == ROTATE_EVENT || eventType == PREVIOUS_GTIDS_EVENT
  }

  /**
   One byte less: the event is divided, and its first part is all of it.  The second part is
   empty, and slicing it for the metadata is a panic.
   */
  lemma EmptySecondPart(raw: seq<byte>, eventType: nat, dec: Decoders)
    requires |raw| == MAX_PAYLOAD - 1
    ensures var events := Proposed(raw, eventType);
            && |events| == 2
            && CommandOfEvent(events[0], dec) == CommandOfEvent(WholeEvent(raw, eventType), dec)
            && CommandOfEvent(events[1], dec) == if Decoded(eventType) then None else Some(Unrelated)
  {
    hide BoundaryOfRaw, GtidOf;
    assert Part(raw, 0) == raw;
  }

  /** The empty part of a format description is stored, and then hides the one that dumps need. */
  lemma EmptyDescriptionHides(b: Bucket, index: nat, limit: nat)
    requires index < limit && forall j: nat :: HasFde(b, j) && j < limit ==> j <= index
    ensures !Described(b[Fde(index) := Raw([])], limit)
  {
    var c := b[Fde(index) := Raw([])];
    assert HasFde(c, index);
    forall i: nat | LastFdeBelow(c, limit, i) ensures i == index {
      assert i != index ==> HasFde(b, i);
    }
  }

  predicate Appliable(events: seq<BinlogEvent>, dec: Decoders)
  {
    forall i :: 0 <= i < |events| ==> CommandOfEvent(events[i], dec).Some?
  }

  /**
   The events whose parts are all applied: not too big, and not of a decoded type at the size that
   leaves an empty part.
   */
  predicate Passes(length: nat, eventType: nat)
  {
    length < MAX_PAYLOAD - 1 || (length == MAX_PAYLOAD - 1 && !Decoded(eventType))
  }

  lemma PartsAppliable(raw: seq<byte>, eventType: nat, dec: Decoders)
    requires |raw| < TWO_32 && CommandOfEvent(WholeEvent(raw, eventType), dec).Some?
    ensures Appliable(Proposed(raw, eventType), dec) <==> Passes(|raw|, eventType) || |raw| == TWO_32 - 1
  {
    HeaderHolds(raw, eventType, dec);
    hide CommandOfEvent, Fragment, Decoded;
    if |raw| == MAX_PAYLOAD - 1 {
      EmptySecondPart(raw, eventType, dec);
    } else if MAX_PAYLOAD <= |raw| < TWO_32 - 1 {
      FirstPartRefused(raw, eventType, dec);
      assert !Appliable(Proposed(raw, eventType), dec);
    } else {
      assert Proposed(raw, eventType) == [WholeEvent(raw, eventType)];
    }
  }

  lemma CarriedAppliable(c: Membership.Cluster, es: seq<Entry>, events: seq<BinlogEvent>, dec: Decoders)
    requires CarriesAll(es, events)
    requires forall i :: 0 <= i < |events| ==> ValidEvent(events[i]) && events[i].data.Some?
    ensures AllApplicable(c, es, dec) <==> Appliable(events, dec)
  {
    assert forall i :: 0 <= i < |es| ==> Carries(es[i], events[i]) && UpdateIn(es[i], dec).None?;
    ApplicableWithoutUpdates(c, es, dec);
    hide CommandOf, CommandOfEvent, ValidEvent, Carries, AllApplicable;
    forall i | 0 <= i < |es| ensures CommandOf(es[i], dec) == CommandOfEvent(events[i], dec) {
      CarriedCommand(es[i], events[i], dec);
    }
  }

  /**
   The entries of an event that could be applied as one entry can all be applied, in any cluster,
   if and only if the event is smaller than the maximum payload, by more than one byte where its
   data is decoded.  At 2^32-1 bytes it is not divided, but then it cannot be stored.
   */
  lemma AppliedIff(c: Membership.Cluster, raw: seq<byte>, eventType: nat, es: seq<Entry>, dec: Decoders)
    requires |raw| < TWO_32 && eventType < TWO_32 && CarriesAll(es, Proposed(raw, eventType))
    requires CommandOfEvent(WholeEvent(raw, eventType), dec).Some?
    ensures AllApplicable(c, es, dec) <==> Passes(|raw|, eventType) || |raw| == TWO_32 - 1
  {
    hide Proposed, CarriesAll, ValidEvent, CommandOfEvent, AllApplicable, Appliable, Passes;
    var events := Proposed(raw, eventType);
    forall i | 0 <= i < |events| ensures ValidEvent(events[i]) && events[i].data.Some? {
      ProposedValid(raw, eventType, i);
    }
    CarriedAppliable(c, es, events, dec);
    PartsAppliable(raw, eventType, dec);
  }

  lemma EventFits(ev: BinlogEvent)
    ensures |RawOf(ev)| <= |EventBytes(ev)|
  {
    if ev.data.Some? {
      var fs := EventFields(ev);
      assert FieldsBytes(fs) == FieldBytes(fs.head) + FieldsBytes(fs.tail);
      assert FieldsBytes(fs.tail) == FieldBytes(fs.tail.head) + FieldsBytes(fs.tail.tail);
      EventFitsTail(ev);
    }
  }

  lemma EventFitsTail(ev: BinlogEvent)
    requires ev.data.Some?
    ensures |ev.data.value| <= |FieldsBytes(EventFields(ev).tail.tail)|
  {
    var fs := EventFields(ev).tail.tail;
    assert FieldsBytes(fs) == FieldBytes(fs.head) + FieldsBytes(fs.tail);
    assert FieldsBytes(fs.tail) == FieldBytes(fs.tail.head) + FieldsBytes(fs.tail.tail);
    assert FieldsBytes(fs.tail.tail) == FieldBytes(fs.tail.tail.head) + FieldsBytes(fs.tail.tail.tail);
  }

  lemma {:induction false} EntryInLog(enc: Encoder, log: seq<Entry>, i: nat)
    requires i < |log|
    ensures RECORD_LENGTH_SIZE + |enc(log[i])| <= |EncodeLog(enc, log)|
  {
    if i < |log| - 1 {
      EntryInLog(enc, log[..|log| - 1], i);
    }
  }

  /** A batch with the largest event fits no segment, so storing it is fatal before anything is applied. */
  lemma LargestNotStored(raw: seq<byte>, eventType: nat, batch: seq<Entry>, i: nat, enc: Encoder, crc: Checksum)
    requires |raw| == TWO_32 - 1 && Encodes(enc, crc)
    requires i < |batch| && Carries(batch[i], Proposed(raw, eventType)[0])
    ensures TWO_32 < |EncodeLog(enc, batch)|
  {
    hide EventBytes, EntryBytes, RecordBytes, EncodeLog;
    var e, ev := batch[i], Proposed(raw, eventType)[0];
    assert Undivided(|raw|) && RawOf(ev) == raw;
    EventFits(ev);
    EntryReads.PayloadFits(e);
    RecordSizes(crc, e);
    assert enc(e) == RecordBytes(RecordOf(crc, e));
    EntryInLog(enc, batch, i);
  }

  lemma HeaderHolds(raw: seq<byte>, eventType: nat, dec: Decoders)
    requires CommandOfEvent(WholeEvent(raw, eventType), dec).Some?
    ensures HEADER + CHECKSUM <= |raw| && HeaderOf(raw).eventSize == |raw|
  {
    hide EffectOf, BoundaryOf;
  }

  /**
   From the master to a replica: the event is applied, fits its packets and is reassembled whole
   if and only if it is smaller than the maximum payload, by more than one byte where its data is
   decoded.
   */
  lemma DeliveredIff(c: Membership.Cluster, raw: seq<byte>, eventType: nat, es: seq<Entry>, dec: Decoders)
    requires |raw| < TWO_32 && eventType < TWO_32 && CarriesAll(es, Proposed(raw, eventType))
    requires CommandOfEvent(WholeEvent(raw, eventType), dec).Some?
    ensures var events := Proposed(raw, eventType);
            && AllApplicable(c, es, dec) && Sendable(events) && Reassemble(Payloads(events)) == Some([0] + raw)
            <==> Passes(|raw|, eventType)
  {
    hide AllApplicable, Proposed, Reassemble, Payloads, Sendable, CommandOfEvent;
    AppliedIff(c, raw, eventType, es, dec);
    if |raw| == TWO_32 - 1 {
      LargestNotSendable(raw, eventType);
    } else {
      ReassembledExactly(raw, eventType);
      AlwaysSendable(raw, eventType);
      HeaderHolds(raw, eventType, dec);
    }
  }
}
