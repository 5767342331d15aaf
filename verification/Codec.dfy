/**
 Size, Marshal and Unmarshal as the generated code runs them: a write index moving over a
 preallocated buffer, and a read index moving over the input, filling in a message.
 */
module Codec {
  import opened Bytes
  import opened Protobuf
  import opened Messages

  // ---- writing ----------------------------------------------------------------------

  method PutField(buf: array<byte>, at: nat, f: Field) returns (next: nat)
    requires at + |FieldBytes(f)| <= buf.Length
    modifies buf
    ensures next == at + |FieldBytes(f)|
    ensures buf[..next] == old(buf[..at]) + FieldBytes(f)
  {
    hide VarintBytes, DelimitedBytes;
    ghost var before := buf[..at];
    match f
    case VarintField(num, value) =>
      next := EncodeVarint(buf, at, 8 * num);
      next := EncodeVarint(buf, next, value);
      ConcatAssoc(before, VarintBytes(8 * num), VarintBytes(value));
    case BytesField(num, payload) =>
      next := EncodeVarint(buf, at, 8 * num + 2);
      next := PutDelimited(buf, next, payload);
      ConcatAssoc(before, VarintBytes(8 * num + 2), DelimitedBytes(payload));
    case UnknownField(raw) =>
      CopyInto(buf, at, raw);
      next := at + |raw|;
  }

  method PutDelimited(buf: array<byte>, at: nat, d: seq<byte>) returns (next: nat)
    requires at + |DelimitedBytes(d)| <= buf.Length
    modifies buf
    ensures next == at + |DelimitedBytes(d)|
    ensures buf[..next] == old(buf[..at]) + DelimitedBytes(d)
  {
    ghost var before := buf[..at];
    next := EncodeVarint(buf, at, |d|);
    CopyInto(buf, next, d);
    next := next + |d|;
    ConcatAssoc(before, VarintBytes(|d|), d);
  }

  /** The fields go out in order, each starting where the one before it ended. */
  method PutFields(buf: array<byte>, at: nat, fields: Fields) returns (next: nat)
    requires at + |FieldsBytes(fields)| <= buf.Length
    modifies buf
    ensures next == at + |FieldsBytes(fields)|
    ensures buf[..next] == old(buf[..at]) + FieldsBytes(fields)
  {
    var fs := fields;
    next := at;
    ghost var done: seq<byte> := [];
    while fs.Cons?
      invariant done + FieldsBytes(fs) == FieldsBytes(fields)
      invariant next == at + |done|
      invariant buf[..next] == old(buf[..at]) + done
      decreases fs
    {
      next := PutField(buf, next, fs.head);
      ConcatAssoc(old(buf[..at]), done, FieldBytes(fs.head));
      ConcatAssoc(done, FieldBytes(fs.head), FieldsBytes(fs.tail));
      done := done + FieldBytes(fs.head);
      fs := fs.tail;
    }
  }

  method MarshalRecordTo(m: Record, buf: array<byte>) returns (n: nat)
    requires |RecordBytes(m)| <= buf.Length
    modifies buf
    ensures n == |RecordBytes(m)|
    ensures buf[..n] == RecordBytes(m)
  {
    hide FieldsBytes, RecordFields;
    n := PutFields(buf, 0, RecordFields(m));
    CopyInto(buf, n, m.unrecognized);
    n := n + |m.unrecognized|;
  }

  method MarshalEventTo(m: BinlogEvent, buf: array<byte>) returns (n: nat)
    requires |EventBytes(m)| <= buf.Length
    modifies buf
    ensures n == |EventBytes(m)|
    ensures buf[..n] == EventBytes(m)
  {
    hide FieldsBytes, EventFields;
    n := PutFields(buf, 0, EventFields(m));
    CopyInto(buf, n, m.unrecognized);
    n := n + |m.unrecognized|;
  }

  method SizeOfData(d: Option<seq<byte>>, num: nat) returns (n: nat)
    requires 1 <= num < 16
    ensures n == |FieldsBytes(DataField(num, d))|
  {
    n := 0;
    if d.Some? {
      var l := SizeOfVarint(|d.value|);
      n := 1 + |d.value| + l;
      assert FieldsBytes(DataField(num, d)) == FieldBytes(BytesField(num, d.value)) + FieldsBytes(Nil);
    }
  }

  /** Size adds up field lengths without encoding anything; it is the length Marshal writes. */
  method SizeOfRecord(m: Record) returns (n: nat)
    ensures n == |RecordBytes(m)|
  {
    var c := SizeOfVarint(m.crc);
    var d := SizeOfData(m.data, 2);
    n := 1 + c + d + |m.unrecognized|;
  }

  method SizeOfEvent(m: BinlogEvent) returns (n: nat)
    ensures n == |EventBytes(m)|
  {
    var a := SizeOfVarint(m.etype);
    var b := SizeOfVarint(Uint64(m.flavor));
    var c := SizeOfVarint(m.dividedCount);
    var d := SizeOfVarint(m.dividedSeqNum);
    var e := SizeOfData(m.data, 5);
    n := (1 + a) + (1 + b) + (1 + c) + (1 + d) + e + |m.unrecognized|;
    ghost var fs := EventFields(m);
    assert |FieldsBytes(fs)| == 1 + a + (1 + b) + |FieldsBytes(fs.tail.tail)|;
    assert |FieldsBytes(fs.tail.tail)| == 1 + c + (1 + d) + e;
  }

  method MarshalRecord(m: Record) returns (s: seq<byte>)
    ensures s == RecordBytes(m)
  {
    var size := SizeOfRecord(m);
    var buf := new byte[size];
    var n := MarshalRecordTo(m, buf);
    s := buf[..n];
  }

  method MarshalEvent(m: BinlogEvent) returns (s: seq<byte>)
    ensures s == EventBytes(m)
  {
    var size := SizeOfEvent(m);
    var buf := new byte[size];
    var n := MarshalEventTo(m, buf);
    s := buf[..n];
  }

  // ---- reading ----------------------------------------------------------------------

  method NextField(data: seq<byte>, start: nat, schema: Schema) returns (f: Option<Field>, next: nat)
    requires start < |data|
    ensures f.Some? ==> start < next <= |data|
    ensures f.Some? ==> ReadField(data[start..], schema) == Got(f.value, data[next..])
    ensures f.None? ==> ReadField(data[start..], schema).Fail?
  {
    var wire, at := DecodeVarint(data, start, W64);
    if wire.None? { return None, at; }
    var num, kind := ToInt32(wire.value / 8), wire.value % 8;
    if kind == 4 || num <= 0 { return None, at; }
    if num in schema {
      f, next := NextPayload(data, at, num, kind, schema[num]);
    } else {
      var skipped := Skip(data[start..]);
      if skipped.Fail? { return None, at; }
      next := |data| - |skipped.rest|;
      f := Some(UnknownField(data[start..next]));
      SkipSuffix(data[start..]);
      assert data[start..][..next - start] == data[start..next];
    }
  }

  method NextPayload(data: seq<byte>, at: nat, num: nat, wire: nat, kind: Kind) returns (f: Option<Field>, next: nat)
    requires at <= |data|
    ensures f.Some? ==> at < next <= |data|
    ensures f.Some? ==> ReadPayload(num, wire, kind, data[at..]) == Got(f.value, data[next..])
    ensures f.None? ==> ReadPayload(num, wire, kind, data[at..]).Fail?
  {
    if wire != (if kind == VarintKind then 0 else 2) { return None, at; }
    var v, after := DecodeVarint(data, at, W64);
    if v.None? { return None, at; }
    if kind == VarintKind { return Some(VarintField(num, v.value)), after; }
    if v.value >= TWO_63 || after + v.value > |data| { return None, after; }
    next := after + v.value;
    f := Some(BytesField(num, data[after..next]));
    assert data[after..][..v.value] == data[after..next];
    assert data[after..][v.value..] == data[next..];
  }

  method UnmarshalRecord(m0: Record, data: seq<byte>) returns (r: Option<Record>)
    ensures r == ParseRecord(m0, data)
  {
    var m, pos := m0, 0;
    while pos < |data|
      invariant pos <= |data|
      invariant ParseRecord(m0, data) == ParseRecord(m, data[pos..])
    {
      var f, next := NextField(data, pos, RECORD_SCHEMA);
      if f.None? { return None; }
      m, pos := SetRecord(m, f.value), next;
    }
    r := Some(m);
  }

  method UnmarshalEvent(m0: BinlogEvent, data: seq<byte>) returns (r: Option<BinlogEvent>)
    ensures r == ParseEvent(m0, data)
  {
    var m, pos := m0, 0;
    while pos < |data|
      invariant pos <= |data|
      invariant ParseEvent(m0, data) == ParseEvent(m, data[pos..])
    {
      var f, next := NextField(data, pos, EVENT_SCHEMA);
      if f.None? { return None; }
      m, pos := SetEvent(m, f.value), next;
    }
    r := Some(m);
  }

  // ---- what is left after a read is a suffix of the input ----------------------------

  ghost predicate IsSuffix(t: seq<byte>, s: seq<byte>)
  {
    |t| <= |s| && t == s[|s| - |t|..]
  }

  lemma SuffixTrans(a: seq<byte>, b: seq<byte>, c: seq<byte>)
    requires IsSuffix(a, b) && IsSuffix(b, c)
    ensures IsSuffix(a, c)
  {
  }

  lemma {:induction false} RawSuffix(s: seq<byte>, shift: nat, acc: nat)
    ensures ReadRaw(s, shift, acc).Got? ==> IsSuffix(ReadRaw(s, shift, acc).rest, s)
    decreases s
  {
    if shift < 64 && s != [] && s[0] >= 128 {
      RawSuffix(s[1..], shift + 7, acc + Bits(s[0], shift));
      var r := ReadRaw(s[1..], shift + 7, acc + Bits(s[0], shift));
      if r.Got? { SuffixTrans(r.rest, s[1..], s); }
    }
  }

  lemma DelimitedSuffix(s: seq<byte>)
    ensures ReadDelimited(s).Got? ==> IsSuffix(ReadDelimited(s).rest, s)
  {
    RawSuffix(s, 0, 0);
    var v, r := ReadVarint(s, W64), ReadDelimited(s);
    if r.Got? {
      assert IsSuffix(r.rest, v.rest);
      SuffixTrans(r.rest, v.rest, s);
    }
  }

  lemma {:induction false} SkipSuffix(s: seq<byte>)
    ensures Skip(s).Got? ==> IsSuffix(Skip(s).rest, s)
    decreases |s|, 1
  {
    RawSuffix(s, 0, 0);
    var tag := ReadVarint(s, W64);
    if tag.Got? && Skip(s).Got? {
      var body, after := tag.rest, Skip(s).rest;
      assert IsSuffix(after, body) by {
        if tag.value % 8 == 0 { RawSuffix(body, 0, 0); }
        else if tag.value % 8 == 2 { DelimitedSuffix(body); }
        else if tag.value % 8 == 3 { GroupSuffix(body); }
      }
      SuffixTrans(after, body, s);
    }
  }

  lemma {:induction false} GroupSuffix(s: seq<byte>)
    ensures SkipGroup(s).Got? ==> IsSuffix(SkipGroup(s).rest, s)
    decreases |s|, 2
  {
    RawSuffix(s, 0, 0);
    var tag := ReadVarint(s, W64);
    if tag.Got? && tag.value % 8 != 4 && Skip(s).Got? {
      SkipSuffix(s);
      var after := Skip(s).rest;
      GroupSuffix(after);
      if SkipGroup(after).Got? { SuffixTrans(SkipGroup(after).rest, after, s); }
    }
  }
}
