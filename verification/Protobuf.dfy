/**
 Base 128 varints and the field framing that the generated protobuf code shares between
 messages.  Decoders work on the unread suffix of a buffer; the loops of the generated
 code are the methods at the end, proved to compute the same values.
 */
module Protobuf {
  import opened Bytes

  datatype Read<+T> = Fail | Got(value: T, rest: seq<byte>)

  /** The bytes encodeVarint writes: seven bits each, high bit set on all but the last. */
  function VarintBytes(v: nat): (s: seq<byte>)
    ensures 1 <= |s|
  {
    if v < 128 then [v] else [v % 128 + 128] + VarintBytes(v / 128)
  }

  /** The seven low bits of `b`, placed `shift` bits up. */
  function Bits(b: byte, shift: nat): nat
  {
    Weight(b % 128, shift)
  }

  /** v << shift */
  function Weight(v: nat, shift: nat): nat
  {
    if shift == 0 then v else 2 * Weight(v, shift - 1)
  }

  /** `acc` plus the varint at the front of `s`, before truncation to a machine word. */
  function ReadRaw(s: seq<byte>, shift: nat, acc: nat): (r: Read<nat>)
    decreases s
    ensures r.Got? ==> |r.rest| < |s|
  {
    if shift >= 64 || s == [] then Fail
    else if s[0] < 128 then Got(acc + Bits(s[0], shift), s[1..])
    else ReadRaw(s[1..], shift + 7, acc + Bits(s[0], shift))
  }

  function ReadVarint(s: seq<byte>, width: Width): (r: Read<nat>)
    ensures r.Got? ==> |r.rest| < |s|
  {
    match ReadRaw(s, 0, 0)
    case Fail => Fail
    case Got(v, rest) => Got(Truncate(v, width), rest)
  }

  lemma ReadRawStep(b: byte, tail: seq<byte>, shift: nat, acc: nat)
    requires shift < 64
    ensures ReadRaw([b] + tail, shift, acc) ==
            if b < 128 then Got(acc + Bits(b, shift), tail)
            else ReadRaw(tail, shift + 7, acc + Bits(b, shift))
  {
    assert ([b] + tail)[1..] == tail;
  }

  lemma {:induction false} ReadRawOfVarintBytes(v: nat, shift: nat, acc: nat, rest: seq<byte>)
    requires shift + 7 * |VarintBytes(v)| < 71
    ensures ReadRaw(VarintBytes(v) + rest, shift, acc) == Got(acc + Weight(v, shift), rest)
  {
    if v < 128 {
      assert v % 128 == v;
      ReadRawStep(v, rest, shift, acc);
    } else {
      var low, tail := v % 128 + 128, VarintBytes(v / 128) + rest;
      assert Bits(low, shift) == Weight(v % 128, shift) by { assert low % 128 == v % 128; }
      calc {
        ReadRaw(VarintBytes(v) + rest, shift, acc);
        { assert VarintBytes(v) + rest == [low] + tail; }
        ReadRaw([low] + tail, shift, acc);
        { ReadRawStep(low, tail, shift, acc); }
        ReadRaw(tail, shift + 7, acc + Bits(low, shift));
        { ReadRawOfVarintBytes(v / 128, shift + 7, acc + Bits(low, shift), rest); }
        Got(acc + Bits(low, shift) + Weight(v / 128, shift + 7), rest);
        { WeightSplit(v, shift); }
        Got(acc + Weight(v, shift), rest);
      }
    }
  }

  lemma {:induction false} WeightSplit(v: nat, shift: nat)
    ensures Weight(v % 128, shift) + Weight(v / 128, shift + 7) == Weight(v, shift)
  {
    if shift == 0 {
      var q := v / 128;
      assert Weight(q, 7) == 2 * Weight(q, 6) == 4 * Weight(q, 5) == 8 * Weight(q, 4);
      assert Weight(q, 4) == 2 * Weight(q, 3) == 4 * Weight(q, 2) == 8 * Weight(q, 1) == 16 * q;
    } else {
      WeightSplit(v, shift - 1);
    }
  }

  /** Ten bytes hold any 64-bit value. */
  lemma {:induction false} VarintLength(v: nat, k: nat)
    requires 1 <= k && v < Pow2(7 * k)
    ensures |VarintBytes(v)| <= k
  {
    if v >= 128 {
      Pow2Step7(7 * (k - 1));
      assert Pow2(7) == 128;
      assert k > 1;
      VarintLength(v / 128, k - 1);
    }
  }

  /** Any 64-bit value reads back from its varint, and nothing after it is consumed. */
  lemma VarintRoundTrip(v: nat, rest: seq<byte>, width: Width)
    requires Truncate(v, width) == v
    ensures ReadVarint(VarintBytes(v) + rest, width) == Got(v, rest)
  {
    assert |VarintBytes(v)| <= 10 by {
      assert Pow2(70) == 64 * Pow2(64) by { Pow2Values(); Pow2Step7(63); }
      Pow2Values();
      VarintLength(v, 10);
    }
    ReadRawOfVarintBytes(v, 0, 0, rest);
    assert Weight(v, 0) == v;
  }

  // ---- tags -------------------------------------------------------------------------

  datatype Tag = Tag(field: nat, wire: nat)

  function ToInt32(x: nat): (r: int)
    ensures -0x8000_0000 <= r < 0x8000_0000
  {
    var low := x % TWO_32;
    if low < TWO_31 then low else low - TWO_32
  }

  /** Tag varint; end-group wire types and non-positive field numbers are errors. */
  function ReadTag(s: seq<byte>): (r: Read<Tag>)
    ensures r.Got? ==> |r.rest| < |s|
  {
    match ReadVarint(s, W64)
    case Fail => Fail
    case Got(wire, rest) =>
      if wire % 8 == 4 || ToInt32(wire / 8) <= 0 then Fail
      else Got(Tag(ToInt32(wire / 8), wire % 8), rest)
  }

  lemma ReadTagOfByte(tag: byte, rest: seq<byte>)
    requires 8 <= tag < 128 && tag % 8 != 4
    ensures ReadTag([tag] + rest) == Got(Tag(tag / 8, tag % 8), rest)
  {
    assert VarintBytes(tag) == [tag];
    hide VarintBytes, ReadVarint;
    VarintRoundTrip(tag, rest, W64);
  }

  // ---- field payloads ---------------------------------------------------------------

  /** Length-delimited payload; the length is read as a signed 64-bit int. */
  function ReadDelimited(s: seq<byte>): (r: Read<seq<byte>>)
    ensures r.Got? ==> |r.rest| < |s|
  {
    match ReadVarint(s, W64)
    case Fail => Fail
    case Got(n, rest) =>
      if n >= TWO_63 || n > |rest| then Fail else Got(rest[..n], rest[n..])
  }

  function DelimitedBytes(d: seq<byte>): (s: seq<byte>)
  {
    VarintBytes(|d|) + d
  }

  lemma DelimitedRoundTrip(d: seq<byte>, rest: seq<byte>)
    requires |d| < TWO_63
    ensures ReadDelimited(DelimitedBytes(d) + rest) == Got(d, rest)
  {
    VarintRoundTrip(|d|, d + rest, W64);
    assert DelimitedBytes(d) + rest == VarintBytes(|d|) + (d + rest);
    assert (d + rest)[..|d|] == d && (d + rest)[|d|..] == rest;
  }

  // ---- unrecognised fields ----------------------------------------------------------

  /** How many bytes skipRecord passes over, starting at a tag; groups nest. */
  function Skip(s: seq<byte>): (r: Read<()>)
    decreases |s|, 1
    ensures r.Got? ==> |r.rest| < |s|
  {
    match ReadVarint(s, W64)
    case Fail => Fail
    case Got(wire, rest) =>
      match wire % 8
      case 0 => (match ReadRaw(rest, 0, 0) case Fail => Fail case Got(_, after) => Got((), after))
      case 1 => if |rest| < 8 then Fail else Got((), rest[8..])
      case 2 => (match ReadDelimited(rest) case Fail => Fail case Got(_, after) => Got((), after))
      case 3 => SkipGroup(rest)
      case 4 => Got((), rest)
      case 5 => if |rest| < 4 then Fail else Got((), rest[4..])
      case _ => Fail
  }

  function SkipGroup(s: seq<byte>): (r: Read<()>)
    decreases |s|, 2
    ensures r.Got? ==> |r.rest| < |s|
  {
    match ReadVarint(s, W64)
    case Fail => Fail
    case Got(wire, rest) =>
      if wire % 8 == 4 then Got((), rest)
      else match Skip(s)
        case Fail => Fail
        case Got(_, after) => SkipGroup(after)
  }

  // ---- the loops --------------------------------------------------------------------

  method PutByte(buf: array<byte>, at: nat, b: byte)
    requires at < buf.Length
    modifies buf
    ensures buf[..at + 1] == old(buf[..at]) + [b]
  {
    buf[at] := b;
  }

  method EncodeVarint(buf: array<byte>, offset: nat, value: nat) returns (next: nat)
    requires offset + |VarintBytes(value)| <= buf.Length
    modifies buf
    ensures next == offset + |VarintBytes(value)|
    ensures buf[..next] == old(buf[..offset]) + VarintBytes(value)
  {
    var v := value;
    next := offset;
    ghost var done: seq<byte> := [];
    while v >= 128
      invariant done + VarintBytes(v) == VarintBytes(value)
      invariant next == offset + |done| < buf.Length
      invariant buf[..next] == old(buf[..offset]) + done
    {
      PutByte(buf, next, v % 128 + 128);
      ConcatAssoc(old(buf[..offset]), done, [v % 128 + 128]);
      ConcatAssoc(done, [v % 128 + 128], VarintBytes(v / 128));
      done := done + [v % 128 + 128];
      v := v / 128;
      next := next + 1;
    }
    PutByte(buf, next, v);
    ConcatAssoc(old(buf[..offset]), done, [v]);
    next := next + 1;
  }

  method SizeOfVarint(x: nat) returns (n: nat)
    ensures n == |VarintBytes(x)|
  {
    var v := x;
    n := 1;
    v := v / 128;
    while v != 0
      invariant |VarintBytes(x)| == n + (if v == 0 then 0 else |VarintBytes(v)|)
      decreases v
    {
      n := n + 1;
      v := v / 128;
    }
  }

  /**
   The shift-and-or loop, truncating to the field's width after every byte.  Everything
   accumulated so far lies below bit `shift`, so or-ing is adding.
   */
  method DecodeVarint(data: seq<byte>, start: nat, width: Width) returns (r: Option<nat>, next: nat)
    requires start <= |data|
    ensures next <= |data|
    ensures r.None? ==> ReadVarint(data[start..], width).Fail?
    ensures r.Some? ==> ReadVarint(data[start..], width) == Got(r.value, data[next..])
  {
    var shift, acc: nat := 0, 0;
    next := start;
    AccumulateIsReadVarint(data[start..], 0, 0, width);
    while true
      invariant start <= next <= |data|
      invariant Accumulate(data[start..], 0, 0, width) == Accumulate(data[next..], shift, acc, width)
      decreases |data| - next
    {
      if shift >= 64 { return None, next; }
      if next >= |data| { return None, next; }
      var b := data[next];
      assert data[next..][1..] == data[next + 1..];
      acc := Truncate(acc + Bits(b, shift), width);
      next := next + 1;
      if b < 128 {
        return Some(acc), next;
      }
      shift := shift + 7;
    }
  }

  function Accumulate(s: seq<byte>, shift: nat, acc: nat, width: Width): Read<nat>
    decreases s
  {
    if shift >= 64 || s == [] then Fail
    else if s[0] < 128 then Got(Truncate(acc + Bits(s[0], shift), width), s[1..])
    else Accumulate(s[1..], shift + 7, Truncate(acc + Bits(s[0], shift), width), width)
  }

  /** Truncating once at the end is the same as truncating after every byte. */
  lemma {:induction false} AccumulateIsReadVarint(s: seq<byte>, shift: nat, raw: nat, width: Width)
    ensures Accumulate(s, shift, Truncate(raw, width), width) ==
            match ReadRaw(s, shift, raw)
            case Fail => Fail
            case Got(v, rest) => Got(Truncate(v, width), rest)
    decreases s
  {
    if shift < 64 && s != [] {
      TruncateAdd(raw, Bits(s[0], shift), width);
      if s[0] >= 128 {
        AccumulateIsReadVarint(s[1..], shift + 7, raw + Bits(s[0], shift), width);
      }
    }
  }
}
