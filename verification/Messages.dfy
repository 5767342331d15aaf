/**
 The protobuf messages kingbus stores: Record and BinlogEvent (storagepb), and the raft
 Entry a Record carries (raftpb).  A message is a run of fields; decoding one folds its
 fields over the message the caller passes in, as generated Unmarshal code does.
 */
module Messages {
  import opened Bytes
  import opened Protobuf

  datatype Kind = VarintKind | BytesKind

  datatype Field =
    | VarintField(num: nat, value: nat)
    | BytesField(num: nat, payload: seq<byte>)
    | UnknownField(raw: seq<byte>)

  datatype Fields = Nil | Cons(head: Field, tail: Fields)

  type Schema = map<int, Kind>

  // ---- fields -----------------------------------------------------------------------

  ghost predicate Fits(f: Field, schema: Schema)
  {
    && !f.UnknownField?
    && 1 <= f.num < 16
    && f.num in schema
    && (f.VarintField? ==> schema[f.num] == VarintKind && f.value < TWO_64)
    && (f.BytesField? ==> schema[f.num] == BytesKind && |f.payload| < TWO_63)
  }

  ghost predicate AllFit(fs: Fields, schema: Schema)
  {
    fs.Cons? ==> Fits(fs.head, schema) && AllFit(fs.tail, schema)
  }

  function FieldBytes(f: Field): (s: seq<byte>)
  {
    match f
    case VarintField(num, value) => VarintBytes(8 * num) + VarintBytes(value)
    case BytesField(num, payload) => VarintBytes(8 * num + 2) + DelimitedBytes(payload)
    case UnknownField(raw) => raw
  }

  function FieldsBytes(fs: Fields): (s: seq<byte>)
  {
    match fs case Nil => [] case Cons(f, tail) => FieldBytes(f) + FieldsBytes(tail)
  }

  function ReadPayload(num: nat, wire: nat, kind: Kind, s: seq<byte>): (r: Read<Field>)
    ensures r.Got? ==> |r.rest| < |s|
  {
    if kind == VarintKind then
      if wire != 0 then Fail
      else match ReadVarint(s, W64)
        case Fail => Fail
        case Got(v, rest) => Got(VarintField(num, v), rest)
    else
      if wire != 2 then Fail
      else match ReadDelimited(s)
        case Fail => Fail
        case Got(d, rest) => Got(BytesField(num, d), rest)
  }

  function ReadField(s: seq<byte>, schema: Schema): (r: Read<Field>)
    ensures r.Got? ==> |r.rest| < |s|
  {
    match ReadTag(s)
    case Fail => Fail
    case Got(tag, rest) =>
      if tag.field in schema then ReadPayload(tag.field, tag.wire, schema[tag.field], rest)
      else match Skip(s)
        case Fail => Fail
        case Got(_, after) => Got(UnknownField(s[..|s| - |after|]), after)
  }

  function ReadFields(s: seq<byte>, schema: Schema): (r: Option<Fields>)
    decreases |s|
  {
    if s == [] then Some(Nil)
    else match ReadField(s, schema)
      case Fail => None
      case Got(f, rest) =>
        match ReadFields(rest, schema)
        case None => None
        case Some(fs) => Some(Cons(f, fs))
  }

  lemma ReadPayloadRoundTrip(f: Field, rest: seq<byte>, schema: Schema)
    requires Fits(f, schema)
    ensures f.VarintField? ==> ReadPayload(f.num, 0, VarintKind, VarintBytes(f.value) + rest) == Got(f, rest)
    ensures f.BytesField? ==> ReadPayload(f.num, 2, BytesKind, DelimitedBytes(f.payload) + rest) == Got(f, rest)
  {
    if f.VarintField? {
      VarintRoundTrip(f.value, rest, W64);
    } else {
      DelimitedRoundTrip(f.payload, rest);
    }
  }

  /** The tag of a field the schema knows is a single byte. */
  lemma FieldLayout(f: Field, schema: Schema)
    requires Fits(f, schema)
    ensures f.VarintField? ==> 8 * f.num < 128 && FieldBytes(f) == [8 * f.num] + VarintBytes(f.value)
    ensures f.BytesField? ==> 8 * f.num + 2 < 128 && FieldBytes(f) == [8 * f.num + 2] + DelimitedBytes(f.payload)
  {
    hide DelimitedBytes;
    if f.VarintField? {
      assert VarintBytes(8 * f.num) == [8 * f.num];
    } else {
      assert VarintBytes(8 * f.num + 2) == [8 * f.num + 2];
    }
  }

  /** Behind a one-byte tag that the schema knows comes the payload. */
  lemma ReadTagged(num: nat, wire: nat, s: seq<byte>, schema: Schema)
    requires 1 <= num < 16 && wire < 8 && wire != 4 && num in schema
    ensures ReadField([8 * num + wire] + s, schema) == ReadPayload(num, wire, schema[num], s)
  {
    hide ReadPayload, ReadTag, Skip;
    assert (8 * num + wire) / 8 == num && (8 * num + wire) % 8 == wire;
    ReadTagOfByte(8 * num + wire, s);
  }

  lemma ReadFieldRoundTrip(f: Field, rest: seq<byte>, schema: Schema)
    requires Fits(f, schema)
    ensures ReadField(FieldBytes(f) + rest, schema) == Got(f, rest)
  {
    hide VarintBytes, DelimitedBytes, FieldBytes, ReadField, ReadPayload;
    FieldLayout(f, schema);
    ReadPayloadRoundTrip(f, rest, schema);
    if f.VarintField? {
      ConcatAssoc([8 * f.num], VarintBytes(f.value), rest);
      ReadTagged(f.num, 0, VarintBytes(f.value) + rest, schema);
    } else {
      ConcatAssoc([8 * f.num + 2], DelimitedBytes(f.payload), rest);
      ReadTagged(f.num, 2, DelimitedBytes(f.payload) + rest, schema);
    }
  }

  /** Decoding is a left inverse of encoding, whatever the schema, on every field list. */
  lemma {:induction false} FieldsRoundTrip(fs: Fields, schema: Schema)
    requires AllFit(fs, schema)
    ensures ReadFields(FieldsBytes(fs), schema) == Some(fs)
  {
    if fs.Cons? {
      var rest := FieldsBytes(fs.tail);
      FieldsRoundTrip(fs.tail, schema);
      ReadFieldRoundTrip(fs.head, rest, schema);
      assert FieldsBytes(fs) != [];
    }
  }

  // ---- messages ---------------------------------------------------------------------

  datatype Record = Record(crc: nat, data: Option<seq<byte>>, unrecognized: seq<byte>)

  datatype BinlogEvent = BinlogEvent(etype: nat, flavor: int, dividedCount: nat, dividedSeqNum: nat,
                                     data: Option<seq<byte>>, unrecognized: seq<byte>)

  datatype Entry = Entry(etype: int, term: nat, index: nat, data: Option<seq<byte>>, unrecognized: seq<byte>)

  const NEW_RECORD := Record(0, None, [])
  const NEW_EVENT := BinlogEvent(0, 0, 0, 0, None, [])
  const NEW_ENTRY := Entry(0, 0, 0, None, [])

  const RECORD_SCHEMA: Schema := map[1 := VarintKind, 2 := BytesKind]
  const EVENT_SCHEMA: Schema :=
    map[1 := VarintKind, 2 := VarintKind, 3 := VarintKind, 4 := VarintKind, 5 := BytesKind]
  const ENTRY_SCHEMA: Schema :=
    map[1 := VarintKind, 2 := VarintKind, 3 := VarintKind, 4 := BytesKind]

  ghost predicate SmallData(d: Option<seq<byte>>) { d.Some? ==> |d.value| < TWO_63 }

  ghost predicate ValidRecord(m: Record)
  {
    m.crc < TWO_32 && SmallData(m.data) && m.unrecognized == []
  }

  ghost predicate ValidEvent(m: BinlogEvent)
  {
    && m.etype < TWO_32 && m.dividedCount < TWO_32 && m.dividedSeqNum < TWO_32
    && 0 <= m.flavor < TWO_31 && SmallData(m.data) && m.unrecognized == []
  }

  ghost predicate ValidEntry(m: Entry)
  {
    && 0 <= m.etype < TWO_31 && m.term < TWO_64 && m.index < TWO_64
    && SmallData(m.data) && m.unrecognized == []
  }

  /** uint64 of a signed enum: negative values wrap. */
  function Uint64(x: int): (r: nat)
    ensures 0 <= x < TWO_64 ==> r == x
  {
    x % TWO_64
  }

  function DataField(num: nat, d: Option<seq<byte>>): (fs: Fields)
  {
    if d.Some? then Cons(BytesField(num, d.value), Nil) else Nil
  }

  function RecordFields(m: Record): (fs: Fields)
  {
    Cons(VarintField(1, m.crc), DataField(2, m.data))
  }

  function EventFields(m: BinlogEvent): (fs: Fields)
  {
    Cons(VarintField(1, m.etype), Cons(VarintField(2, Uint64(m.flavor)),
    Cons(VarintField(3, m.dividedCount), Cons(VarintField(4, m.dividedSeqNum), DataField(5, m.data)))))
  }

  function EntryFields(m: Entry): (fs: Fields)
  {
    Cons(VarintField(1, Uint64(m.etype)), Cons(VarintField(2, m.term),
    Cons(VarintField(3, m.index), DataField(4, m.data))))
  }

  function RecordBytes(m: Record): (s: seq<byte>) { FieldsBytes(RecordFields(m)) + m.unrecognized }
  function EventBytes(m: BinlogEvent): (s: seq<byte>) { FieldsBytes(EventFields(m)) + m.unrecognized }
  function EntryBytes(m: Entry): (s: seq<byte>) { FieldsBytes(EntryFields(m)) + m.unrecognized }

  // What one decoded field does to the message being filled in.

  function SetRecord(m: Record, f: Field): Record
  {
    match f
    case UnknownField(raw) => m.(unrecognized := m.unrecognized + raw)
    case VarintField(_, v) => m.(crc := Truncate(v, W32))
    case BytesField(_, d) => m.(data := Some(d))
  }

  function SetEvent(m: BinlogEvent, f: Field): BinlogEvent
  {
    match f
    case UnknownField(raw) => m.(unrecognized := m.unrecognized + raw)
    case BytesField(_, d) => m.(data := Some(d))
    case VarintField(num, v) =>
      if num == 1 then m.(etype := Truncate(v, W32))
      else if num == 2 then m.(flavor := ToInt32(v))
      else if num == 3 then m.(dividedCount := Truncate(v, W32))
      else m.(dividedSeqNum := Truncate(v, W32))
  }

  function SetEntry(m: Entry, f: Field): Entry
  {
    match f
    case UnknownField(raw) => m.(unrecognized := m.unrecognized + raw)
    case BytesField(_, d) => m.(data := Some(d))
    case VarintField(num, v) =>
      if num == 1 then m.(etype := ToInt32(v))
      else if num == 2 then m.(term := v)
      else m.(index := v)
  }

  function FoldRecord(m: Record, fs: Fields): Record
    decreases fs
  {
    match fs case Nil => m case Cons(f, tail) => FoldRecord(SetRecord(m, f), tail)
  }

  function FoldEvent(m: BinlogEvent, fs: Fields): BinlogEvent
    decreases fs
  {
    match fs case Nil => m case Cons(f, tail) => FoldEvent(SetEvent(m, f), tail)
  }

  function FoldEntry(m: Entry, fs: Fields): Entry
    decreases fs
  {
    match fs case Nil => m case Cons(f, tail) => FoldEntry(SetEntry(m, f), tail)
  }

  /** Unmarshal into an existing message: fields that are absent keep their old value. */
  function ParseRecord(m: Record, s: seq<byte>): (r: Option<Record>)
  {
    match ReadFields(s, RECORD_SCHEMA) case None => None case Some(fs) => Some(FoldRecord(m, fs))
  }

  function ParseEvent(m: BinlogEvent, s: seq<byte>): (r: Option<BinlogEvent>)
  {
    match ReadFields(s, EVENT_SCHEMA) case None => None case Some(fs) => Some(FoldEvent(m, fs))
  }

  function ParseEntry(m: Entry, s: seq<byte>): (r: Option<Entry>)
  {
    match ReadFields(s, ENTRY_SCHEMA) case None => None case Some(fs) => Some(FoldEntry(m, fs))
  }

  function Kept(read: Option<seq<byte>>, prior: Option<seq<byte>>): Option<seq<byte>>
  {
    if read.Some? then read else prior
  }

  lemma FoldRecordFields(m0: Record, m: Record)
    requires ValidRecord(m)
    ensures FoldRecord(m0, RecordFields(m)) == Record(m.crc, Kept(m.data, m0.data), m0.unrecognized)
  {
    var m1 := m0.(crc := m.crc);
    assert FoldRecord(m0, RecordFields(m)) == FoldRecord(m1, DataField(2, m.data));
  }

  lemma FoldEntryFields(m0: Entry, m: Entry)
    requires ValidEntry(m)
    ensures FoldEntry(m0, EntryFields(m)) ==
            Entry(m.etype, m.term, m.index, Kept(m.data, m0.data), m0.unrecognized)
  {
    var fs := EntryFields(m);
    var m1 := m0.(etype := m.etype);
    var m3 := m1.(term := m.term, index := m.index);
    assert FoldEntry(m0, fs) == FoldEntry(m1, fs.tail);
    assert FoldEntry(m1, fs.tail) == FoldEntry(m3, DataField(4, m.data));
  }

  lemma FoldEventFields(m0: BinlogEvent, m: BinlogEvent)
    requires ValidEvent(m)
    ensures FoldEvent(m0, EventFields(m)) == m.(data := Kept(m.data, m0.data), unrecognized := m0.unrecognized)
  {
    var fs := EventFields(m);
    var m2 := m0.(etype := m.etype, flavor := m.flavor);
    var m4 := m2.(dividedCount := m.dividedCount, dividedSeqNum := m.dividedSeqNum);
    assert FoldEvent(m0, fs) == FoldEvent(m2, fs.tail.tail);
    assert FoldEvent(m2, fs.tail.tail) == FoldEvent(m4, DataField(5, m.data));
  }

  /**
   Unmarshalling Marshal's output into any message `m0` sets every field that was present;
   a nil `data` is not written and so leaves m0's data in place.
   */
  lemma RecordRoundTrip(m0: Record, m: Record)
    requires ValidRecord(m)
    ensures ParseRecord(m0, RecordBytes(m)) == Some(Record(m.crc, Kept(m.data, m0.data), m0.unrecognized))
  {
    assert AllFit(DataField(2, m.data), RECORD_SCHEMA);
    FieldsRoundTrip(RecordFields(m), RECORD_SCHEMA);
    FoldRecordFields(m0, m);
    assert RecordBytes(m) == FieldsBytes(RecordFields(m));
  }

  lemma EntryRoundTrip(m0: Entry, m: Entry)
    requires ValidEntry(m)
    ensures ParseEntry(m0, EntryBytes(m)) ==
            Some(Entry(m.etype, m.term, m.index, Kept(m.data, m0.data), m0.unrecognized))
  {
    assert AllFit(DataField(4, m.data), ENTRY_SCHEMA);
    FieldsRoundTrip(EntryFields(m), ENTRY_SCHEMA);
    FoldEntryFields(m0, m);
    assert EntryBytes(m) == FieldsBytes(EntryFields(m));
  }

  lemma EventRoundTrip(m0: BinlogEvent, m: BinlogEvent)
    requires ValidEvent(m)
    ensures ParseEvent(m0, EventBytes(m)) ==
            Some(m.(data := Kept(m.data, m0.data), unrecognized := m0.unrecognized))
  {
    var fs := EventFields(m);
    assert AllFit(DataField(5, m.data), EVENT_SCHEMA);
    assert AllFit(fs.tail.tail, EVENT_SCHEMA);
    FieldsRoundTrip(fs, EVENT_SCHEMA);
    FoldEventFields(m0, m);
    assert EventBytes(m) == FieldsBytes(fs);
  }

  // ---- messages as bytes ------------------------------------------------------------

  function DataBytes(tag: byte, d: Option<seq<byte>>): seq<byte>
  {
    if d.Some? then [tag] + VarintBytes(|d.value|) + d.value else []
  }

  lemma OneTag(num: nat, value: nat, payload: seq<byte>)
    requires 1 <= num < 16
    ensures FieldBytes(VarintField(num, value)) == [8 * num] + VarintBytes(value)
    ensures FieldBytes(BytesField(num, payload)) == [8 * num + 2] + VarintBytes(|payload|) + payload
  {
    assert VarintBytes(8 * num) == [8 * num] && VarintBytes(8 * num + 2) == [8 * num + 2];
  }

  lemma DataLayout(num: nat, d: Option<seq<byte>>)
    requires 1 <= num < 16
    ensures FieldsBytes(DataField(num, d)) == DataBytes(8 * num + 2, d)
  {
    if d.Some? {
      OneTag(num, 0, d.value);
      assert FieldsBytes(DataField(num, d)) == FieldBytes(BytesField(num, d.value)) + FieldsBytes(Nil);
    }
  }

  lemma FieldsCons(f: Field, fs: Fields)
    ensures FieldsBytes(Cons(f, fs)) == FieldBytes(f) + FieldsBytes(fs)
  {
  }

  /** A Record: the checksum under tag 8, the data under tag 18. */
  lemma RecordLayout(m: Record)
    requires m.unrecognized == []
    ensures RecordBytes(m) == [8] + VarintBytes(m.crc) + DataBytes(18, m.data)
  {
    hide FieldBytes, FieldsBytes, VarintBytes;
    OneTag(1, m.crc, []);
    DataLayout(2, m.data);
    FieldsCons(VarintField(1, m.crc), DataField(2, m.data));
  }

  /** A BinlogEvent: type, flavor, number of parts and part number under tags 8 to 32, the data under tag 42. */
  lemma EventLayout(m: BinlogEvent)
    requires m.unrecognized == [] && 0 <= m.flavor < TWO_64
    ensures EventBytes(m) ==
            ([8] + VarintBytes(m.etype)) + (([16] + VarintBytes(m.flavor)) +
            (([24] + VarintBytes(m.dividedCount)) + (([32] + VarintBytes(m.dividedSeqNum)) + DataBytes(42, m.data))))
  {
    hide FieldBytes, FieldsBytes, VarintBytes;
    OneTag(1, m.etype, []);
    OneTag(2, m.flavor, []);
    OneTag(3, m.dividedCount, []);
    OneTag(4, m.dividedSeqNum, []);
    DataLayout(5, m.data);
    var fs := EventFields(m);
    assert EventBytes(m) == FieldsBytes(fs);
    var one, two := VarintField(1, m.etype), VarintField(2, m.flavor);
    var three, four := VarintField(3, m.dividedCount), VarintField(4, m.dividedSeqNum);
    var five := DataField(5, m.data);
    assert fs == Cons(one, Cons(two, Cons(three, Cons(four, five))));
    hide EventBytes, EventFields, DataField, DataBytes;
    FieldsCons(one, Cons(two, Cons(three, Cons(four, five))));
    FieldsCons(two, Cons(three, Cons(four, five)));
    FieldsCons(three, Cons(four, five));
    FieldsCons(four, five);
  }

  /** A raft Entry: type, term and index under tags 8, 16 and 24, the data under tag 34. */
  lemma EntryLayout(m: Entry)
    requires m.unrecognized == [] && 0 <= m.etype < TWO_64
    ensures EntryBytes(m) ==
            ([8] + VarintBytes(m.etype)) + (([16] + VarintBytes(m.term)) +
            (([24] + VarintBytes(m.index)) + DataBytes(34, m.data)))
  {
    hide FieldBytes, FieldsBytes, VarintBytes;
    OneTag(1, m.etype, []);
    OneTag(2, m.term, []);
    OneTag(3, m.index, []);
    DataLayout(4, m.data);
    var fs := EntryFields(m);
    assert EntryBytes(m) == FieldsBytes(fs);
    var one, two, three := VarintField(1, m.etype), VarintField(2, m.term), VarintField(3, m.index);
    var four := DataField(4, m.data);
    assert fs == Cons(one, Cons(two, Cons(three, four)));
    hide EntryBytes, EntryFields, DataField, DataBytes;
    FieldsCons(one, Cons(two, Cons(three, four)));
    FieldsCons(two, Cons(three, four));
    FieldsCons(three, four);
  }
}
