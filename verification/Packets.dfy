/** MySQL packets (mysql/base_conn.go): payloads of up to 2^24-1 bytes behind a four-byte header. */
module Packets {
  import opened Bytes

  const MAX_PAYLOAD: nat := 0xff_ffff

  /** One packet: three length bytes, a sequence byte, the payload. */
  function Frame(payload: seq<byte>, sequence: byte): (f: seq<byte>)
    ensures |f| == 4 + |payload|
  {
    LittleEndian(|payload|, 3) + [sequence] + payload
  }

  /** The header: the length, least significant byte first, then the sequence number. */
  lemma FrameBytes(payload: seq<byte>, sequence: byte)
    ensures var n := |payload|;
            Frame(payload, sequence) == [n % 256, n / 256 % 256, n / 256 / 256 % 256, sequence] + payload
  {
    ThreeBytes(|payload|);
    hide LittleEndian;
  }

  lemma ThreeBytes(n: nat)
    ensures LittleEndian(n, 3) == [n % 256, n / 256 % 256, n / 256 / 256 % 256]
  {
    var second, third := n / 256, n / 256 / 256;
    assert LittleEndian(third, 1) == [third % 256] + LittleEndian(third / 256, 0);
    assert LittleEndian(second, 2) == [second % 256] + LittleEndian(third, 1);
    assert LittleEndian(n, 3) == [n % 256] + LittleEndian(second, 2);
  }

  function NextSequence(sequence: byte): byte
  {
    (sequence + 1) % 256
  }

  /** A payload cut into packets: full ones, then one that is shorter. */
  function Chunks(payload: seq<byte>): (cs: seq<seq<byte>>)
    ensures cs != []
  {
    if |payload| < MAX_PAYLOAD then [payload]
    else [payload[..MAX_PAYLOAD]] + Chunks(payload[MAX_PAYLOAD..])
  }

  /** The packets on the wire, numbered from a sequence number on. */
  function Frames(cs: seq<seq<byte>>, sequence: byte): seq<byte>
  {
    if cs == [] then [] else Frame(cs[0], sequence) + Frames(cs[1..], NextSequence(sequence))
  }

  function SequenceAfter(sequence: byte, n: nat): byte
  {
    (sequence + n) % 256
  }

  lemma SequenceSteps(sequence: byte, n: nat)
    ensures SequenceAfter(sequence, 0) == sequence
    ensures SequenceAfter(sequence, n + 1) == NextSequence(SequenceAfter(sequence, n))
  {
  }

  // ---- reading ----------------------------------------------------------------------

  datatype Read = Bad | Good(payload: seq<byte>, rest: seq<byte>, sequence: byte)

  /** Reads packets until one is shorter than the maximum; an empty packet is refused. */
  function ReadPayload(input: seq<byte>, sequence: byte): Read
    decreases |input|
  {
    if |input| < 4 then Bad
    else
      var length := FromLittleEndian(input[..3]);
      if length < 1 || input[3] != sequence || |input| - 4 < length then Bad
      else
        var payload, rest := input[4..4 + length], input[4 + length..];
        if length < MAX_PAYLOAD then Good(payload, rest, NextSequence(sequence))
        else
          match ReadPayload(rest, NextSequence(sequence))
          case Bad => Bad
          case Good(more, left, s) => Good(payload + more, left, s)
  }

  lemma FrameReads(payload: seq<byte>, sequence: byte, rest: seq<byte>)
    requires |payload| <= MAX_PAYLOAD
    ensures var input := Frame(payload, sequence) + rest;
            && |input| == 4 + |payload| + |rest|
            && FromLittleEndian(input[..3]) == |payload|
            && input[3] == sequence
            && input[4..4 + |payload|] == payload
            && input[4 + |payload|..] == rest
  {
    var input := Frame(payload, sequence) + rest;
    var head := LittleEndian(|payload|, 3);
    assert input[..3] == head;
    assert FromLittleEndian(head) == |payload| by {
      Pow2Small();
      LittleEndianRoundTrip(|payload|, 3);
    }
    hide LittleEndian;
    assert input[4..4 + |payload|] == payload;
    assert input[4 + |payload|..] == rest;
  }

  /**
   The reader gives back exactly the written payload, and both ends agree on the next sequence
   number, if and only if the payload length is not a multiple of the maximum.
   */
  lemma {:induction false} PacketRoundTrip(payload: seq<byte>, sequence: byte, rest: seq<byte>)
    ensures var r := ReadPayload(Frames(Chunks(payload), sequence) + rest, sequence);
            if |payload| % MAX_PAYLOAD == 0 then r == Bad
            else r == Good(payload, rest, SequenceAfter(sequence, |Chunks(payload)|))
    decreases |payload|
  {
    hide ReadPayload, SequenceAfter;
    var cs := Chunks(payload);
    var later := Frames(cs[1..], NextSequence(sequence));
    assert Frames(cs, sequence) + rest == Frame(cs[0], sequence) + (later + rest) by {
      ConcatAssoc(Frame(cs[0], sequence), later, rest);
    }
    ReadOne(cs[0], sequence, later + rest);
    hide Frame;
    SequenceSteps(sequence, 0);
    if |payload| < MAX_PAYLOAD {
      assert later == [] && later + rest == rest;
    } else {
      assert cs[1..] == Chunks(payload[MAX_PAYLOAD..]);
      PacketRoundTrip(payload[MAX_PAYLOAD..], NextSequence(sequence), rest);
      SequenceShift(sequence, |cs| - 1);
      assert payload[..MAX_PAYLOAD] + payload[MAX_PAYLOAD..] == payload;
      assert |payload| % MAX_PAYLOAD == |payload[MAX_PAYLOAD..]| % MAX_PAYLOAD;
    }
  }

  lemma FrameOfInput(input: seq<byte>, sequence: byte)
    requires 4 <= |input| && input[3] == sequence && FromLittleEndian(input[..3]) <= |input| - 4
    ensures var length := FromLittleEndian(input[..3]);
            length <= MAX_PAYLOAD && input == Frame(input[4..4 + length], sequence) + input[4 + length..]
  {
    FromLittleEndianRoundTrip(input[..3]);
    Pow2Small();
    hide LittleEndian, FromLittleEndian, Pow2;
    var length := FromLittleEndian(input[..3]);
    assert input[..3] + [sequence] == input[..4];
    assert input == input[..4] + input[4..4 + length] + input[4 + length..];
  }

  /**
   The reader accepts nothing but what the writer writes: packets of one payload, full ones and
   then a shorter one that is not empty, numbered one after another.
   */
  lemma {:induction false} ReadsOnlyWritten(input: seq<byte>, sequence: byte)
    ensures match ReadPayload(input, sequence)
            case Bad => true
            case Good(payload, rest, next) =>
              && input == Frames(Chunks(payload), sequence) + rest
              && |payload| % MAX_PAYLOAD != 0 && next == SequenceAfter(sequence, |Chunks(payload)|)
    decreases |input|
  {
    if ReadPayload(input, sequence).Good? {
      FrameOfInput(input, sequence);
      hide Frame, FromLittleEndian, SequenceAfter;
      SequenceSteps(sequence, 0);
      var length := FromLittleEndian(input[..3]);
      var payload, rest := input[4..4 + length], input[4 + length..];
      if length < MAX_PAYLOAD {
        assert Frames([payload], sequence) == Frame(payload, sequence) + Frames([], NextSequence(sequence));
        assert Frame(payload, sequence) + [] == Frame(payload, sequence);
      } else {
        ReadsOnlyWritten(rest, NextSequence(sequence));
        ReadOn(payload, sequence, rest);
      }
    }
  }

  lemma ReadOn(payload: seq<byte>, sequence: byte, rest: seq<byte>)
    requires |payload| == MAX_PAYLOAD && ReadPayload(rest, NextSequence(sequence)).Good?
    requires var r := ReadPayload(rest, NextSequence(sequence));
             && rest == Frames(Chunks(r.payload), NextSequence(sequence)) + r.rest
             && |r.payload| % MAX_PAYLOAD != 0 &&
                  r.sequence == SequenceAfter(NextSequence(sequence), |Chunks(r.payload)|)
    ensures var r := ReadPayload(rest, NextSequence(sequence));
            var all := payload + r.payload;
            && Frame(payload, sequence) + rest == Frames(Chunks(all), sequence) + r.rest
            && |all| % MAX_PAYLOAD != 0 && r.sequence == SequenceAfter(sequence, |Chunks(all)|)
  {
    hide Frame, ReadPayload, SequenceAfter;
    var r := ReadPayload(rest, NextSequence(sequence));
    var all := payload + r.payload;
    assert all[..MAX_PAYLOAD] == payload && all[MAX_PAYLOAD..] == r.payload;
    var cs := Chunks(r.payload);
    assert Chunks(all) == [payload] + cs;
    assert ([payload] + cs)[1..] == cs;
    assert Frames(Chunks(all), sequence) == Frame(payload, sequence) + Frames(cs, NextSequence(sequence));
    ConcatAssoc(Frame(payload, sequence), Frames(cs, NextSequence(sequence)), r.rest);
    SequenceShift(sequence, |cs|);
  }

  lemma SequenceShift(sequence: byte, n: nat)
    ensures SequenceAfter(NextSequence(sequence), n) == SequenceAfter(sequence, n + 1)
  {
  }

  /** Reading up to the first packet that is not full. */
  lemma ReadOne(chunk: seq<byte>, sequence: byte, rest: seq<byte>)
    requires |chunk| <= MAX_PAYLOAD
    ensures var r := ReadPayload(Frame(chunk, sequence) + rest, sequence);
            if |chunk| == 0 then r == Bad
            else if |chunk| < MAX_PAYLOAD then r == Good(chunk, rest, NextSequence(sequence))
            else match ReadPayload(rest, NextSequence(sequence))
                 case Bad => r == Bad
                 case Good(more, left, s) => r == Good(chunk + more, left, s)
  {
    hide Frame, FromLittleEndian;
    FrameReads(chunk, sequence, rest);
  }

  // ---- the connection ---------------------------------------------------------------

  class BaseConn {
    var sequence: byte
    var written: seq<byte>
    var input: seq<byte>

    constructor (input: seq<byte>)
      ensures sequence == 0 && written == [] && this.input == input
    {
      sequence, written := 0, [];
      this.input := input;
    }

    method PutHeader(data: array<byte>, at: nat, length: nat)
      requires at + 4 <= data.Length && length <= MAX_PAYLOAD
      modifies data
      ensures data[at..at + 4] == LittleEndian(length, 3) + [sequence]
      ensures forall i :: 0 <= i < data.Length && !(at <= i < at + 4) ==> data[i] == old(data[i])
    {
      data[at] := length % 256;
      data[at + 1] := length / 256 % 256;
      data[at + 2] := length / 256 / 256 % 256;
      data[at + 3] := sequence;
      assert LittleEndian(length, 3) == [length % 256] + LittleEndian(length / 256, 2);
      assert LittleEndian(length / 256, 2) == [length / 256 % 256] + LittleEndian(length / 256 / 256, 1);
      assert LittleEndian(length / 256 / 256, 1) ==
             [length / 256 / 256 % 256] + LittleEndian(length / 256 / 256 / 256, 0);
    }

    /**
     Writes the payload behind the first four bytes of the buffer.  Each later header is put over
     payload bytes that are already written.
     */
    method WritePacket(data: array<byte>)
      requires data.Length >= 4
      modifies this, data
      ensures written == old(written) + Frames(Chunks(old(data[4..])), old(sequence))
      ensures sequence == SequenceAfter(old(sequence), |Chunks(old(data[4..]))|)
      ensures input == old(input)
    {
      hide Frames, Chunks, LittleEndian, SequenceAfter;
      ghost var payload := data[4..];
      ghost var n := 0;
      assert payload[0..] == payload;
      SequenceSteps(sequence, 0);
      var at := 0;
      var length := data.Length - 4;
      while length >= MAX_PAYLOAD
        invariant 0 <= length && at + 4 + length == data.Length && at <= |payload| && input == old(input)
        invariant forall i :: at + 4 <= i < data.Length ==> data[i] == payload[i - 4]
        invariant sequence == SequenceAfter(old(sequence), n)
        invariant n + |Chunks(payload[at..])| == |Chunks(payload)|
        invariant written + Frames(Chunks(payload[at..]), sequence) ==
                  old(written) + Frames(Chunks(payload), old(sequence))
      {
        PutHeader(data, at, MAX_PAYLOAD);
        Step(data, at, payload);
        ghost var before := written;
        written := written + data[at..at + 4 + MAX_PAYLOAD];
        ConcatAssoc(before, data[at..at + 4 + MAX_PAYLOAD],
            Frames(Chunks(payload[at + MAX_PAYLOAD..]), NextSequence(sequence)));
        SequenceSteps(old(sequence), n);
        sequence := NextSequence(sequence);
        length := length - MAX_PAYLOAD;
        at := at + MAX_PAYLOAD;
        n := n + 1;
      }
      PutHeader(data, at, length);
      Final(data, at, payload);
      SequenceSteps(old(sequence), n);
      written := written + data[at..];
      sequence := NextSequence(sequence);
    }

    /** A full packet, cut off the front of what is left. */
    lemma Step(data: array<byte>, at: nat, payload: seq<byte>)
      requires at + 4 + MAX_PAYLOAD <= data.Length && |payload| == data.Length - 4
      requires data[at..at + 4] == LittleEndian(MAX_PAYLOAD, 3) + [sequence]
      requires forall i :: at + 4 <= i < data.Length ==> data[i] == payload[i - 4]
      ensures var left := payload[at..];
              && |Chunks(left)| == 1 + |Chunks(payload[at + MAX_PAYLOAD..])|
              && Frames(Chunks(left), sequence)
                 == data[at..at + 4 + MAX_PAYLOAD] + Frames(Chunks(payload[at + MAX_PAYLOAD..]), NextSequence(sequence))
    {
      hide LittleEndian;
      var left := payload[at..];
      var cs := Chunks(left);
      assert left[MAX_PAYLOAD..] == payload[at + MAX_PAYLOAD..];
      assert cs[0] == left[..MAX_PAYLOAD] && cs[1..] == Chunks(payload[at + MAX_PAYLOAD..]);
      assert data[at + 4..at + 4 + MAX_PAYLOAD] == left[..MAX_PAYLOAD];
      assert data[at..at + 4 + MAX_PAYLOAD] == data[at..at + 4] + data[at + 4..at + 4 + MAX_PAYLOAD];
    }

    /** The last packet, shorter than the maximum and possibly empty. */
    lemma Final(data: array<byte>, at: nat, payload: seq<byte>)
      requires at + 4 <= data.Length < at + 4 + MAX_PAYLOAD && |payload| == data.Length - 4
      requires data[at..at + 4] == LittleEndian(data.Length - at - 4, 3) + [sequence]
      requires forall i :: at + 4 <= i < data.Length ==> data[i] == payload[i - 4]
      ensures |Chunks(payload[at..])| == 1 && Frames(Chunks(payload[at..]), sequence) == data[at..]
    {
      hide LittleEndian;
      assert data[at + 4..] == payload[at..];
      assert data[at..] == data[at..at + 4] + data[at + 4..];
      var cs := Chunks(payload[at..]);
      assert Frames(cs[1..], NextSequence(sequence)) == [];
    }

    /** Writes one packet that is not divided any further; the first one of an event starts with a zero byte. */
    method WriteEvent(data: seq<byte>, first: bool) returns (ok: bool)
      modifies this
      ensures var payload := if first then [0] + data else data;
              && (ok <==> |payload| <= MAX_PAYLOAD)
              && (ok ==>
                    written == old(written) + Frame(payload, old(sequence)) && sequence == NextSequence(old(sequence)))
              && (!ok ==> written == old(written) && sequence == old(sequence))
      ensures input == old(input)
    {
      var packetLen := if first then |data| + 1 else |data|;
      if MAX_PAYLOAD < packetLen {
        return false;
      }
      ghost var head := LittleEndian(packetLen, 3) + [sequence];
      written := written + LittleEndian(packetLen, 3) + [sequence];
      if first {
        written := written + [0];
      }
      if 0 < |data| {
        written := written + data;
      }
      ghost var payload := if first then [0] + data else data;
      assert written == old(written) + (head + payload);
      sequence := NextSequence(sequence);
      ok := true;
    }

    /** Reads one payload; on failure the connection is useless, whatever it has consumed. */
    method ReadPacket() returns (ok: bool, payload: seq<byte>)
      modifies this
      ensures match ReadPayload(old(input), old(sequence))
              case Bad => !ok
              case Good(p, rest, s) => ok && payload == p && input == rest && sequence == s
      ensures written == old(written)
      decreases |input|
    {
      hide FromLittleEndian;
      payload := [];
      if |input| < 4 {
        return false, [];
      }
      var header := input[..4];
      var length := FromLittleEndian(header[..3]);
      assert header[..3] == input[..3];
      if length < 1 || header[3] != sequence {
        return false, [];
      }
      sequence := NextSequence(sequence);
      input := input[4..];
      if |input| < length {
        return false, [];
      }
      payload := input[..length];
      input := input[length..];
      assert old(input)[4..4 + length] == payload && old(input)[4 + length..] == input;
      if length < MAX_PAYLOAD {
        return true, payload;
      }
      var more;
      ok, more := ReadPacket();
      payload := payload + more;
    }
  }
}
