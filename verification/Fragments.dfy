/**
 Events of 16 MB and more: the syncer divides them (server/binlog_syncer.go), each part is a
 raft entry of its own, and the dump sends one packet per part (mysql/command.go).
 */
module Fragments {
  import opened Bytes
  import opened Messages
  import opened Packets
  import opened BinlogEvents

  const OK_HEADER := 1

  // ---- dividing ---------------------------------------------------------------------

  function CountOf(length: nat): nat
  {
    (length + OK_HEADER) / MAX_PAYLOAD + if length % MAX_PAYLOAD != 0 then 1 else 0
  }

  /** Where part i starts: the first part leaves room for the leading zero byte. */
  function PartStart(i: nat): nat
  {
    if i == 0 then 0 else i * MAX_PAYLOAD - 1
  }

  function Part(raw: seq<byte>, i: nat): seq<byte>
    requires PartStart(i) <= |raw|
  {
    if PartStart(i + 1) < |raw| then raw[PartStart(i)..PartStart(i + 1)] else raw[PartStart(i)..]
  }

  function Fragment(raw: seq<byte>, eventType: nat, i: nat): BinlogEvent
    requires PartStart(i) <= |raw|
  {
    BinlogEvent(eventType, 0, CountOf(|raw|), i, Some(Part(raw, i)), [])
  }

  lemma PartsInside(length: nat, i: nat)
    requires MAX_PAYLOAD - 1 <= length && i < CountOf(length)
    ensures PartStart(i) <= length
  {
  }

  method DivideBinlogEvent(raw: seq<byte>, eventType: nat) returns (events: seq<BinlogEvent>)
    requires MAX_PAYLOAD - 1 <= |raw| < TWO_32
    ensures |events| == CountOf(|raw|)
    ensures forall i :: 0 <= i < |events| ==> PartStart(i) <= |raw| && events[i] == Fragment(raw, eventType, i)
  {
    events := [];
    var dividedCount := (|raw| + OK_HEADER) / MAX_PAYLOAD;
    if |raw| % MAX_PAYLOAD != 0 {
      dividedCount := dividedCount + 1;
    }
    var pos, i := 0, 0;
    while i < dividedCount
      invariant 0 <= i <= dividedCount && |events| == i && pos == PartStart(i)
      invariant forall k :: 0 <= k < i ==> PartStart(k) <= |raw| && events[k] == Fragment(raw, eventType, k)
    {
      PartsInside(|raw|, i);
      var maxEventDataSize := if i == 0 then MAX_PAYLOAD - 1 else MAX_PAYLOAD;
      var data;
      if pos + maxEventDataSize < |raw| {
        data := raw[pos..pos + maxEventDataSize];
      } else {
        data := raw[pos..];
      }
      events := events + [BinlogEvent(eventType, 0, dividedCount, i, Some(data), [])];
      pos := pos + maxEventDataSize;
      i := i + 1;
    }
  }

  /** The size test is done on 32-bit unsigned integers. */
  predicate Undivided(eventSize: nat)
  {
    Truncate(eventSize + OK_HEADER, W32) < MAX_PAYLOAD
  }

  method ProposeBinlogEvent(raw: seq<byte>, eventType: nat) returns (events: seq<BinlogEvent>)
    requires |raw| < TWO_32
    ensures events == Proposed(raw, eventType)
  {
    if Truncate(|raw| + OK_HEADER, W32) < MAX_PAYLOAD {
      return [BinlogEvent(eventType, 0, 0, 0, Some(raw), [])];
    }
    events := DivideBinlogEvent(raw, eventType);
  }

  function Proposed(raw: seq<byte>, eventType: nat): seq<BinlogEvent>
    requires |raw| < TWO_32
  {
    if Undivided(|raw|) then [BinlogEvent(eventType, 0, 0, 0, Some(raw), [])]
    else
      seq(CountOf(|raw|), i requires 0 <= i < CountOf(|raw|) => PartsInside(|raw|, i); Fragment(raw, eventType, i))
  }

  // ---- sending ----------------------------------------------------------------------

  predicate IsFirst(ev: BinlogEvent)
  {
    ev.dividedCount == 0 || (0 < ev.dividedCount && ev.dividedSeqNum == 0)
  }

  /** A full last part that is not the first one needs an empty packet behind it. */
  predicate NeedsEmpty(ev: BinlogEvent)
  {
    !IsFirst(ev) && ev.dividedSeqNum == ev.dividedCount - 1 && |RawOf(ev)| == MAX_PAYLOAD
  }

  function PayloadOf(ev: BinlogEvent): seq<byte>
  {
    if IsFirst(ev) then [0] + RawOf(ev) else RawOf(ev)
  }

  /** The payloads of all packets sent for a run of events. */
  function Payloads(events: seq<BinlogEvent>): seq<seq<byte>>
  {
    if events == [] then []
    else
      var n := |events| - 1;
      Payloads(events[..n]) + [PayloadOf(events[n])] + if NeedsEmpty(events[n]) then [[]] else []
  }

  predicate Sendable(events: seq<BinlogEvent>)
  {
    forall i :: 0 <= i < |events| ==> |PayloadOf(events[i])| <= MAX_PAYLOAD
  }

  lemma {:induction false} FramesSnoc(cs: seq<seq<byte>>, c: seq<byte>, sequence: byte)
    ensures Frames(cs + [c], sequence) == Frames(cs, sequence) + Frame(c, SequenceAfter(sequence, |cs|))
    decreases |cs|
  {
    hide Frame;
    if cs == [] {
      SequenceSteps(sequence, 0);
      assert Frames([c], sequence) == Frame(c, sequence) + Frames([c][1..], NextSequence(sequence));
    } else {
      assert (cs + [c])[1..] == cs[1..] + [c];
      FramesSnoc(cs[1..], c, NextSequence(sequence));
      SequenceShift(sequence, |cs| - 1);
      ConcatAssoc(Frame(cs[0], sequence), Frames(cs[1..], NextSequence(sequence)),
          Frame(c, SequenceAfter(sequence, |cs|)));
    }
  }

  method SendPacket(conn: BaseConn, data: seq<byte>, first: bool, ghost from: byte, ghost start: seq<byte>,
                    ghost sent: seq<seq<byte>>)
    returns (ok: bool)
    requires conn.written == start + Frames(sent, from) && conn.sequence == SequenceAfter(from, |sent|)
    modifies conn
    ensures var payload := if first then [0] + data else data;
            && (ok <==> |payload| <= MAX_PAYLOAD)
            && (ok ==> conn.written == start + Frames(sent + [payload], from))
            && (ok ==> conn.sequence == SequenceAfter(from, |sent| + 1))
  {
    hide Frames, Frame, SequenceAfter;
    ghost var payload := if first then [0] + data else data;
    FramesSnoc(sent, payload, from);
    SequenceSteps(from, |sent|);
    ConcatAssoc(start, Frames(sent, from), Frame(payload, SequenceAfter(from, |sent|)));
    ok := conn.WriteEvent(data, first);
  }

  /** The first i events are on the wire behind what was there before. */
  ghost predicate OnWire(events: seq<BinlogEvent>, i: nat, start: seq<byte>, from: byte, written: seq<byte>,
                         sequence: byte)
  {
    && i <= |events| && Sendable(events[..i])
    && written == start + Frames(Payloads(events[..i]), from)
    && sequence == SequenceAfter(from, |Payloads(events[..i])|)
  }

  lemma NothingOnWire(events: seq<BinlogEvent>, start: seq<byte>, from: byte)
    ensures OnWire(events, 0, start, from, start, from)
  {
    NoFrames(from);
    SequenceSteps(from, 0);
    assert start + [] == start;
  }

  lemma AllOnWire(events: seq<BinlogEvent>, start: seq<byte>, from: byte, written: seq<byte>, sequence: byte)
    requires OnWire(events, |events|, start, from, written, sequence)
    ensures Sendable(events) && written == start + Frames(Payloads(events), from)
    ensures sequence == SequenceAfter(from, |Payloads(events)|)
  {
    hide Frames, Payloads, SequenceAfter;
    assert events[..|events|] == events;
  }

  /** One event of the dump loop: a packet, and an empty one behind a full last part. */
  method SendEvent(conn: BaseConn, events: seq<BinlogEvent>, i: nat, ghost start: seq<byte>, ghost from: byte)
    returns (ok: bool)
    requires i < |events| && OnWire(events, i, start, from, conn.written, conn.sequence)
    modifies conn
    ensures ok <==> |PayloadOf(events[i])| <= MAX_PAYLOAD
    ensures ok ==> OnWire(events, i + 1, start, from, conn.written, conn.sequence)
  {
    hide Frames, Frame, SequenceAfter, Payloads;
    ghost var sent := Payloads(events[..i]);
    var event := events[i];
    if event.dividedCount == 0 || (0 < event.dividedCount && event.dividedSeqNum == 0) {
      ok := SendPacket(conn, RawOf(event), true, from, start, sent);
    } else {
      ok := SendPacket(conn, RawOf(event), false, from, start, sent);
    }
    if !ok {
      return;
    }
    PayloadsOneMore(events, i);
    SendableOneMore(events, i);
    assert sent + [PayloadOf(event)] + [] == sent + [PayloadOf(event)];
    if NeedsEmpty(event) {
      ok := SendPacket(conn, [], false, from, start, sent + [PayloadOf(event)]);
    }
  }

  lemma PayloadsOneMore(events: seq<BinlogEvent>, i: nat)
    requires i < |events|
    ensures Payloads(events[..i + 1]) ==
            Payloads(events[..i]) + [PayloadOf(events[i])] + if NeedsEmpty(events[i]) then [[]] else []
  {
    assert events[..i + 1][..i] == events[..i];
  }

  lemma SendableOneMore(events: seq<BinlogEvent>, i: nat)
    requires i < |events| && Sendable(events[..i]) && |PayloadOf(events[i])| <= MAX_PAYLOAD
    ensures Sendable(events[..i + 1])
  {
    hide PayloadOf;
    assert forall k :: 0 <= k < i ==> events[..i + 1][k] == events[..i][k];
  }

  /** The dump loop over a run of events. */
  method SendEvents(conn: BaseConn, events: seq<BinlogEvent>) returns (ok: bool)
    modifies conn
    ensures ok <==> Sendable(events)
    ensures ok ==> conn.written == old(conn.written) + Frames(Payloads(events), old(conn.sequence))
    ensures ok ==> conn.sequence == SequenceAfter(old(conn.sequence), |Payloads(events)|)
  {
    hide OnWire, PayloadOf, Frames, Payloads, SequenceAfter;
    ghost var start, from := conn.written, conn.sequence;
    NothingOnWire(events, start, from);
    var i := 0;
    while i < |events|
      invariant 0 <= i <= |events| && OnWire(events, i, start, from, conn.written, conn.sequence)
    {
      ok := SendEvent(conn, events, i, start, from);
      if !ok {
        return;
      }
      i := i + 1;
    }
    AllOnWire(events, start, from, conn.written, conn.sequence);
    ok := true;
  }

  lemma NoFrames(sequence: byte)
    ensures Frames([], sequence) == []
  {
  }

  // ---- what a replica reassembles ---------------------------------------------------

  /** The protocol's reading of a packet sequence: parts go on until one is not full. */
  function Reassemble(ps: seq<seq<byte>>): Option<seq<byte>>
  {
    if ps == [] then None
    else if |ps[0]| < MAX_PAYLOAD then (if |ps| == 1 then Some(ps[0]) else None)
    else match Reassemble(ps[1..]) case None => None case Some(more) => Some(ps[0] + more)
  }

  lemma {:induction false} ChunksReassemble(p: seq<byte>)
    ensures Reassemble(Chunks(p)) == Some(p)
    decreases |p|
  {
    var cs := Chunks(p);
    if |p| >= MAX_PAYLOAD {
      assert cs[1..] == Chunks(p[MAX_PAYLOAD..]);
      ChunksReassemble(p[MAX_PAYLOAD..]);
      assert p == p[..MAX_PAYLOAD] + p[MAX_PAYLOAD..];
    }
  }

  lemma {:induction false} ChunksAt(p: seq<byte>, i: nat)
    ensures |Chunks(p)| == |p| / MAX_PAYLOAD + 1
    ensures i < |Chunks(p)| ==>
              var end := if (i + 1) * MAX_PAYLOAD < |p| then (i + 1) * MAX_PAYLOAD else |p|;
              i * MAX_PAYLOAD <= end && Chunks(p)[i] == p[i * MAX_PAYLOAD..end]
    decreases |p|
  {
    if |p| >= MAX_PAYLOAD {
      var q := p[MAX_PAYLOAD..];
      ChunksAt(q, if i == 0 then 0 else i - 1);
    }
  }

  lemma {:induction false} PayloadsPlain(events: seq<BinlogEvent>)
    requires forall i :: 0 <= i < |events| ==> !NeedsEmpty(events[i])
    ensures |Payloads(events)| == |events|
    ensures forall i :: 0 <= i < |events| ==> Payloads(events)[i] == PayloadOf(events[i])
  {
    hide NeedsEmpty, PayloadOf;
    if events != [] {
      PayloadsPlain(events[..|events| - 1]);
    }
  }

  /** The payload of fragment i is part i of the event behind a zero byte. */
  lemma FragmentPayload(raw: seq<byte>, eventType: nat, i: nat)
    requires MAX_PAYLOAD - 1 <= |raw| && i < CountOf(|raw|) && PartStart(i) <= |raw|
    ensures var p := [0] + raw;
            var end := if (i + 1) * MAX_PAYLOAD < |p| then (i + 1) * MAX_PAYLOAD else |p|;
            i * MAX_PAYLOAD <= end && PayloadOf(Fragment(raw, eventType, i)) == p[i * MAX_PAYLOAD..end]
  {
    var p := [0] + raw;
    var end := if (i + 1) * MAX_PAYLOAD < |p| then (i + 1) * MAX_PAYLOAD else |p|;
    assert p[1..] == raw;
    if i == 0 {
      assert PayloadOf(Fragment(raw, eventType, 0)) == [0] + raw[..end - 1];
    } else {
      assert Part(raw, i) == raw[i * MAX_PAYLOAD - 1..end - 1];
    }
  }

  lemma FragmentIsChunk(raw: seq<byte>, eventType: nat, p: seq<byte>, i: nat)
    requires MAX_PAYLOAD - 1 <= |raw| < TWO_32 - 1 && i < CountOf(|raw|) && p <= [0] + raw
    requires |p| == if |raw| % MAX_PAYLOAD != 0 then |raw| + 1 else |raw|
    ensures i < |Chunks(p)| && PayloadOf(Proposed(raw, eventType)[i]) == Chunks(p)[i]
    ensures NeedsEmpty(Proposed(raw, eventType)[i]) <==> 0 < i && i == CountOf(|raw|) - 1 && |raw| % MAX_PAYLOAD == 0
  {
    hide Chunks;
    PartsInside(|raw|, i);
    FragmentPayload(raw, eventType, i);
    ChunksAt(p, i);
    assert p == ([0] + raw)[..|p|];
  }

  lemma DividedPayloads(raw: seq<byte>, eventType: nat)
    requires MAX_PAYLOAD - 1 <= |raw| < TWO_32 - 1 && |raw| % MAX_PAYLOAD != 0
    ensures Payloads(Proposed(raw, eventType)) == Chunks([0] + raw)
  {
    hide Chunks, PayloadOf, NeedsEmpty, Payloads, Fragment;
    var p, events := [0] + raw, Proposed(raw, eventType);
    ChunksAt(p, 0);
    forall i | 0 <= i < |events|
      ensures !NeedsEmpty(events[i]) && PayloadOf(events[i]) == Chunks(p)[i]
    {
      FragmentIsChunk(raw, eventType, p, i);
    }
    PayloadsPlain(events);
  }

  /** A length that is a multiple of the maximum: the last byte is in no part. */
  lemma MultiplePayloads(raw: seq<byte>, eventType: nat)
    requires 0 < |raw| < TWO_32 - 1 && |raw| % MAX_PAYLOAD == 0
    ensures var p := [0] + raw[..|raw| - 1];
            Payloads(Proposed(raw, eventType)) == if |raw| == MAX_PAYLOAD then [p] else Chunks(p)
  {
    hide Chunks, PayloadOf, NeedsEmpty, Payloads, Fragment;
    var p, events := [0] + raw[..|raw| - 1], Proposed(raw, eventType);
    var n := |events| - 1;
    ChunksAt(p, n + 1);
    assert p <= [0] + raw;
    forall i | 0 <= i < |events|
      ensures (NeedsEmpty(events[i]) <==> 0 < i == n) && PayloadOf(events[i]) == Chunks(p)[i]
    {
      FragmentIsChunk(raw, eventType, p, i);
    }
    PayloadsPlain(events[..n]);
    PayloadsLast(events);
    if n == 0 {
      ChunksAt(p, 0);
      assert p[0..MAX_PAYLOAD] == p;
      assert Payloads(events) == [p];
    } else {
      assert Payloads(events) == Chunks(p);
    }
  }

  lemma PayloadsLast(events: seq<BinlogEvent>)
    requires events != []
    ensures var n := |events| - 1;
            Payloads(events) == Payloads(events[..n]) + [PayloadOf(events[n])] +
                                if NeedsEmpty(events[n]) then [[]] else []
  {
  }

  lemma UndividedPayloads(raw: seq<byte>, eventType: nat)
    requires |raw| + 1 < MAX_PAYLOAD
    ensures Payloads(Proposed(raw, eventType)) == Chunks([0] + raw)
  {
    PayloadsLast(Proposed(raw, eventType));
    assert Payloads(Proposed(raw, eventType)[..0]) == [];
  }

  /**
   A replica reassembles the whole event behind its zero byte if and only if the length is zero
   or not a multiple of the maximum payload.  Otherwise the last byte is lost, and at exactly
   the maximum the packet sequence is not even terminated.
   */
  lemma ReassembledExactly(raw: seq<byte>, eventType: nat)
    requires |raw| < TWO_32 - 1
    ensures var r := Reassemble(Payloads(Proposed(raw, eventType)));
            && (r == Some([0] + raw) <==> |raw| == 0 || |raw| % MAX_PAYLOAD != 0)
            && (|raw| == MAX_PAYLOAD ==> r == None)
            && (|raw| > MAX_PAYLOAD && |raw| % MAX_PAYLOAD == 0 ==> r == Some([0] + raw[..|raw| - 1]))
  {
    hide Payloads, Proposed, Chunks;
    if |raw| + 1 < MAX_PAYLOAD {
      UndividedPayloads(raw, eventType);
      ChunksReassemble([0] + raw);
    } else if |raw| % MAX_PAYLOAD != 0 {
      DividedPayloads(raw, eventType);
      ChunksReassemble([0] + raw);
    } else {
      MultiplePayloads(raw, eventType);
      var p := [0] + raw[..|raw| - 1];
      ChunksReassemble(p);
      assert |p| != |[0] + raw|;
    }
  }

  /** Every packet of every event but the very largest fits. */
  lemma AlwaysSendable(raw: seq<byte>, eventType: nat)
    requires |raw| < TWO_32 - 1
    ensures Sendable(Proposed(raw, eventType))
  {
    var events := Proposed(raw, eventType);
    if |raw| + 1 >= MAX_PAYLOAD {
      forall i | 0 <= i < |events| ensures |PayloadOf(events[i])| <= MAX_PAYLOAD {
        PartsInside(|raw|, i);
      }
    }
  }

  /** At 2^32-1 bytes the size test wraps around: the event is not divided and cannot be sent. */
  lemma LargestNotSendable(raw: seq<byte>, eventType: nat)
    requires |raw| == TWO_32 - 1
    ensures !Sendable(Proposed(raw, eventType))
  {
    assert Undivided(|raw|);
    assert |PayloadOf(Proposed(raw, eventType)[0])| == TWO_32;
  }
}
