/** Reading the log back: ranges limited by size, terms, and a one-by-one reader. */
module EntryReads {
  import opened Bytes
  import opened Messages
  import opened RecordLog
  import opened Records
  import opened StorageErrors
  import opened Segments
  import opened DiskStorages

  const NO_LIMIT: nat := TWO_64 - 1

  function PayloadSize(e: Entry): nat
  {
    if e.data.Some? then |e.data.value| else 0
  }

  function TotalPayload(es: seq<Entry>): nat
  {
    if es == [] then 0 else TotalPayload(es[..|es| - 1]) + PayloadSize(es[|es| - 1])
  }

  // ---- sizes ------------------------------------------------------------------------

  lemma PayloadFits(e: Entry)
    ensures PayloadSize(e) <= EntrySize(e)
  {
    if e.data.Some? {
      var fs := EntryFields(e);
      assert FieldsBytes(fs) == FieldBytes(fs.head) + FieldsBytes(fs.tail);
      assert FieldsBytes(fs.tail) == FieldBytes(fs.tail.head) + FieldsBytes(fs.tail.tail);
      var t := fs.tail.tail;
      assert FieldsBytes(t) == FieldBytes(t.head) + FieldsBytes(t.tail);
      assert FieldsBytes(t.tail) == FieldBytes(t.tail.head) + FieldsBytes(Nil);
    }
  }

  lemma {:induction false} PayloadBound(es: seq<Entry>)
    ensures TotalPayload(es) <= TotalSize(es)
  {
    hide EntrySize, PayloadSize;
    if es != [] {
      PayloadBound(es[..|es| - 1]);
      PayloadFits(es[|es| - 1]);
    }
  }

  lemma {:induction false} TotalSizeConcat(a: seq<Entry>, b: seq<Entry>)
    ensures TotalSize(a + b) == TotalSize(a) + TotalSize(b)
  {
    hide EntrySize;
    if b == [] {
      assert a + b == a;
    } else {
      var n := |b| - 1;
      assert (a + b)[..|a + b| - 1] == a + b[..n];
      TotalSizeConcat(a, b[..n]);
    }
  }

  lemma SizeOfPart(es: seq<Entry>, i: nat, j: nat)
    requires i <= j <= |es|
    ensures TotalSize(es[i..j]) <= TotalSize(es)
  {
    hide TotalSize;
    assert es == es[..i] + (es[i..j] + es[j..]);
    TotalSizeConcat(es[i..j], es[j..]);
    TotalSizeConcat(es[..i], es[i..j] + es[j..]);
  }

  // ---- cutting to size --------------------------------------------------------------

  /** Keeps the longest prefix within the payload budget, but always one entry. */
  method CutRaftEntries(entries: seq<Entry>, maxSize: nat) returns (r: Result<seq<Entry>>)
    ensures Contiguous(entries) ==> r.Ok? && r.value <= entries
    ensures r.Ok? && entries != [] ==>
              && r.value <= entries && 1 <= |r.value|
              && (TotalPayload(r.value) <= maxSize || |r.value| == 1)
              && (r.value == entries || TotalPayload(entries[..|r.value| + 1]) > maxSize)
  {
    hide PayloadSize;
    if entries == [] { return Ok([]); }
    var size, limit := PayloadSize(entries[0]), 1;
    assert entries[..1] == [entries[0]];
    while limit < |entries|
      invariant 1 <= limit <= |entries|
      invariant size == TotalPayload(entries[..limit])
      invariant size <= maxSize || limit == 1
    {
      assert entries[..limit + 1][..limit] == entries[..limit];
      size := size + PayloadSize(entries[limit]);
      if size > maxSize { break; }
      limit := limit + 1;
    }
    var i := 0;
    while i < |entries| - 1
      invariant 0 <= i <= |entries| - 1
    {
      if entries[i].index + 1 != entries[i + 1].index { return Err(Fatal); }
      i := i + 1;
    }
    r := Ok(entries[..limit]);
  }

  // ---- one segment ------------------------------------------------------------------

  /** A scan up to `end` takes nothing past it, and everything up to it unless over budget. */
  lemma ScanCovers(log: seq<Entry>, k: nat, n: nat, end: nat, maxSize: nat)
    requires Contiguous(log) && 1 <= n && k + n <= |log|
    requires Stops(log, k, n, end, maxSize) || k + n == |log|
    requires forall m :: 1 <= m < n ==> !Stops(log, k, m, end, maxSize)
    requires log[0].index + k <= end < log[0].index + |log|
    ensures n <= end - log[0].index - k + 1
    ensures TotalSize(log[k..k + n]) <= maxSize ==> n == end - log[0].index - k + 1
  {
    hide TotalSize;
    var all := end - log[0].index - k + 1;
    assert all < n ==> !Stops(log, k, all, end, maxSize);
    assert log[k + n - 1].index == log[0].index + (k + n - 1);
  }

  lemma TakenCovers(s: Segment, k: nat, es: seq<Entry>, end: nat, maxSize: nat)
    requires s.Valid() && s.Taken(k, es, end, maxSize)
    requires s.firstIndex + k <= end <= s.lastIndex
    ensures |es| <= end - s.firstIndex - k + 1
    ensures TotalSize(es) <= maxSize ==> |es| == end - s.firstIndex - k + 1
  {
    hide Segment.Valid, TotalSize, Stops, Contiguous;
    s.RangeFacts();
    ScanCovers(s.log, k, |es|, end, maxSize);
  }

  /** The entries are the ones of the log from position a on. */
  ghost predicate IsRange(log: seq<Entry>, a: nat, es: seq<Entry>)
  {
    a + |es| <= |log| && es == log[a..a + |es|]
  }

  /** What segment i contributes to the range [first, last]. */
  method ReadOne(store: DiskStorage, i: nat, first: nat, last: nat, maxSize: nat)
    returns (es: seq<Entry>, remaining: nat)
    requires store.Valid() && i < |store.segments|
    requires first <= store.segments[i].lastIndex && store.segments[i].firstIndex <= last && first <= last
    ensures var s := store.segments[i];
            var begin := if s.firstIndex < first then first else s.firstIndex;
            var end := if s.lastIndex < last then s.lastIndex else last;
            && store.FirstIndex() <= begin && 1 <= |es| && begin + |es| <= end + 1
            && IsRange(store.Log(), begin - store.FirstIndex(), es)
            && (remaining != 0 ==> begin + |es| == end + 1)
            && (remaining == 0 ==> TotalSize(es) >= maxSize)
    ensures store.Valid()
  {
    hide DiskStorage.Chained, Segment.Valid, LogOf, Segment.Taken, TotalSize, IsRange;
    var s := store.segments[i];
    var begin := if s.firstIndex < first then first else s.firstIndex;
    var end := if s.lastIndex < last then s.lastIndex else last;
    store.BeforeAndIn(i);
    es, remaining := Fetch(store, i, begin, end, maxSize);
    PieceOfLog(store, i, begin, end, es, maxSize);
  }

  /** One segment's entries from begin to end, up to the budget. */
  method Fetch(store: DiskStorage, i: nat, begin: nat, end: nat, maxSize: nat) returns (es: seq<Entry>, remaining: nat)
    requires store.Valid() && i < |store.segments|
    requires store.segments[i].firstIndex <= begin <= end <= store.segments[i].lastIndex
    ensures store.Valid()
    ensures store.segments[i].Taken(begin - store.segments[i].firstIndex, es, end, maxSize)
    ensures remaining == if TotalSize(es) > maxSize then 0 else maxSize - TotalSize(es)
  {
    hide Segment.Valid, Encodes, Clean, Separate, Segment.Taken, TotalSize;
    assert SegmentOk(store.segments, i, store.enc, store.crc, store.segmentSize, store.live);
    var s := store.segments[i];
    s.RangeFacts();
    ghost var segs := store.segments;
    assert forall q, o :: 0 <= q < |segs| && o in segs[q].Repr() ==> allocated(o);
    var r := s.ReadRaftEntries(begin, end, maxSize);
    hide SegmentOk;
    assert forall q :: 0 <= q < |segs| ==> SegmentOk(segs, q, store.enc, store.crc, store.segmentSize, store.live);
    es, remaining := r.value.0, r.value.1;
  }

  /** What a segment gives is a slice of the whole log, complete unless over the budget. */
  lemma PieceOfLog(store: DiskStorage, i: nat, begin: nat, end: nat, es: seq<Entry>, maxSize: nat)
    requires store.Valid() && i < |store.segments|
    requires store.segments[i].firstIndex <= begin <= end <= store.segments[i].lastIndex
    requires store.segments[i].Taken(begin - store.segments[i].firstIndex, es, end, maxSize)
    ensures store.FirstIndex() <= begin && 1 <= |es| && begin + |es| <= end + 1
    ensures IsRange(store.Log(), begin - store.FirstIndex(), es)
    ensures TotalSize(es) <= maxSize ==> begin + |es| == end + 1
  {
    hide Segment.Valid, Encodes, Clean, Separate, LogOf, Segment.Taken, TotalSize, IsRange;
    assert SegmentOk(store.segments, i, store.enc, store.crc, store.segmentSize, store.live);
    hide SegmentOk;
    store.BeforeAndIn(i);
    var s := store.segments[i];
    var k := begin - s.firstIndex;
    TakenCovers(s, k, es, end, maxSize);
    TakenIs(s, k, es, end, maxSize);
    RangeOfLog(LogOf(store.segments[..i]), s.log, store.Log(), k, es);
  }

  lemma RangeOfLog(front: seq<Entry>, body: seq<Entry>, log: seq<Entry>, k: nat, es: seq<Entry>)
    requires front + body <= log && k + |es| <= |body| && es == body[k..k + |es|]
    ensures IsRange(log, |front| + k, es)
  {
    assert log[..|front + body|] == front + body;
  }

  lemma TakenIs(s: Segment, k: nat, es: seq<Entry>, end: nat, maxSize: nat)
    requires s.Taken(k, es, end, maxSize)
    ensures 1 <= |es| && k + |es| <= |s.log| && es == s.log[k..k + |es|]
  {
  }

  // ---- ranges -----------------------------------------------------------------------

  /** Reads segment after segment until the range or one segment's budget is used up. */
  method ReadSegments(store: DiskStorage, fi: nat, li: nat, first: nat, last: nat, maxSize: nat)
    returns (es: seq<Entry>)
    requires store.Valid() && fi <= li < |store.segments| && first <= last
    requires store.Contains(fi, first) && store.Contains(li, last)
    ensures store.Valid() && store.FirstIndex() <= first && 1 <= |es| <= last - first + 1
    ensures IsRange(store.Log(), first - store.FirstIndex(), es)
    ensures last - store.FirstIndex() < |store.Log()|
    ensures TotalSize(store.Log()[first - store.FirstIndex()..last - store.FirstIndex() + 1]) < maxSize ==>
            |es| == last - first + 1
  {
    hide DiskStorage.Valid, LogOf, TotalSize, IsRange;
    ghost var log, a := store.Log(), first - store.FirstIndex();
    Locate(store, fi, first);
    Locate(store, li, last);
    es := [];
    EmptyRange(log, a);
    var i := fi;
    while i <= li
      invariant fi <= i <= li + 1 && store.Valid() && store.Log() == log
      invariant IsRange(log, a, es)
      invariant i == fi ==> es == []
      invariant fi < i <= li ==> first + |es| == store.segments[i].firstIndex
      invariant i == li + 1 ==> |es| == last - first + 1
    {
      if i < li { Neighbours(store, i, li); }
      if fi < i { Neighbours(store, fi, i); }
      ghost var b := a + |es|;
      var piece, remaining := ReadOne(store, i, first, last, maxSize);
      JoinRanges(log, a, es, piece);
      es := es + piece;
      if remaining == 0 {
        PieceOfRange(log, a, last - store.FirstIndex() + 1, b, piece);
        break;
      }
      i := i + 1;
    }
  }

  lemma EmptyRange(log: seq<Entry>, a: nat)
    requires a <= |log|
    ensures IsRange(log, a, [])
  {
  }

  lemma JoinRanges(log: seq<Entry>, a: nat, es: seq<Entry>, more: seq<Entry>)
    requires IsRange(log, a, es) && IsRange(log, a + |es|, more)
    ensures IsRange(log, a, es + more)
  {
  }

  lemma PieceOfRange(log: seq<Entry>, a: nat, d: nat, b: nat, piece: seq<Entry>)
    requires a <= b && b + |piece| <= d <= |log| && IsRange(log, b, piece)
    ensures TotalSize(piece) <= TotalSize(log[a..d])
  {
    hide TotalSize;
    var range := log[a..d];
    assert range[b - a..b - a + |piece|] == piece by {
      assert forall i :: 0 <= i < |piece| ==> range[b - a + i] == log[b + i] == piece[i];
    }
    SizeOfPart(range, b - a, b - a + |piece|);
  }

  lemma Locate(store: DiskStorage, j: nat, raftIndex: nat)
    requires store.Valid() && j < |store.segments| && store.Contains(j, raftIndex)
    ensures store.FirstIndex() <= raftIndex && raftIndex - store.FirstIndex() < |store.Log()|
  {
    hide DiskStorage.Chained, LogOf;
    store.BeforeAndIn(j);
  }

  lemma Neighbours(store: DiskStorage, i: nat, j: nat)
    requires store.Valid() && i < j < |store.segments|
    ensures store.segments[i].lastIndex < store.segments[j].firstIndex
    ensures store.segments[i].lastIndex + 1 == store.segments[i + 1].firstIndex
    ensures store.segments[i].firstIndex <= store.segments[i].lastIndex
    ensures store.segments[j].firstIndex <= store.segments[j].lastIndex
  {
    hide Segment.Valid, Encodes, Clean, Separate;
    assert SegmentOk(store.segments, i + 1, store.enc, store.crc, store.segmentSize, store.live);
    store.BeforeAndIn(i);
    store.BeforeAndIn(j);
    store.Ascending(i, j);
  }

  /** The first and the last segment a range touches. */
  method GetReadSegments(store: DiskStorage, first: nat, last: nat) returns (r: Result<(nat, nat)>)
    requires store.Valid()
    requires store.InRange(first) && store.InRange(last) && first <= last
    ensures r.Ok? && r.value.0 <= r.value.1 < |store.segments|
    ensures store.Contains(r.value.0, first) && store.Contains(r.value.1, last)
    ensures store.Valid()
  {
    hide DiskStorage.Chained, Segment.Valid;
    var fi, li := -1, -1;
    var i := |store.segments| - 1;
    while 0 <= i
      invariant -1 <= i < |store.segments| && -1 <= fi < |store.segments| && -1 <= li < |store.segments|
      invariant if fi >= 0 then store.Contains(fi, first)
                else forall k :: i < k < |store.segments| ==> !store.Contains(k, first)
      invariant if li >= 0 then store.Contains(li, last)
                else forall k :: i < k < |store.segments| ==> !store.Contains(k, last)
    {
      var l, h := store.segments[i].firstIndex, store.segments[i].lastIndex;
      if l <= first && first <= h { fi := i; }
      if l <= last && last <= h { li := i; }
      if fi != -1 && li != -1 { break; }
      i := i - 1;
    }
    if fi < 0 { store.Covered(first); }
    if li < 0 { store.Covered(last); }
    if li < fi { Neighbours(store, li, fi); }
    r := Ok((fi, li));
  }

  function CheckRaftIndex(store: DiskStorage, i: nat): (r: Result<()>)
    reads store, store.segments
  {
    if i < store.FirstIndex() then Err(ErrCompacted)
    else if i > store.LastIndex() then Err(ErrOutOfBound)
    else Ok(())
  }

  /** hi - 1 on 64-bit unsigned integers: a range ending at 0 wraps. */
  function LastWanted(hi: nat): (last: nat)
    ensures hi > 0 && hi < TWO_64 ==> last == hi - 1
  {
    (hi - 1) % TWO_64
  }

  /**
   A non-empty prefix of the entries in [lo, hi), over the payload limit only when it is a
   single entry, and all of them when their marshalled size is below the limit.
   */
  method Entries(store: DiskStorage, lo: nat, hi: nat, maxSize: nat) returns (r: Result<seq<Entry>>)
    requires store.Valid()
    ensures store.Valid()
    ensures LastWanted(hi) < lo ==> r == Err(ErrArgsIllegal)
    ensures lo <= LastWanted(hi) && lo < store.FirstIndex() ==> r == Err(ErrCompacted)
    ensures store.FirstIndex() <= lo <= LastWanted(hi) && store.LastIndex() < LastWanted(hi) ==> r == Err(ErrOutOfBound)
    ensures store.FirstIndex() <= lo <= LastWanted(hi) <= store.LastIndex() ==>
              var a, b := lo - store.FirstIndex(), LastWanted(hi) + 1 - store.FirstIndex();
              && r.Ok? && 1 <= |r.value| <= b - a && b <= |store.Log()|
              && r.value == store.Log()[a..a + |r.value|]
              && (TotalPayload(r.value) <= maxSize || |r.value| == 1)
              && (TotalSize(store.Log()[a..b]) < maxSize ==> |r.value| == b - a)
  {
    hide DiskStorage.Chained, Segment.Valid, LogOf, TotalSize, TotalPayload;
    var last := LastWanted(hi);
    if last < lo { return Err(ErrArgsIllegal); }
    var check := CheckRaftIndex(store, lo);
    if check.Err? { return Err(check.error); }
    check := CheckRaftIndex(store, last);
    if check.Err? { return Err(check.error); }
    var entries := ReadRange(store, lo, last, maxSize);
    r := Ok(entries);
  }

  /** The entries from lo to last, cut to the budget. */
  method ReadRange(store: DiskStorage, lo: nat, last: nat, maxSize: nat) returns (es: seq<Entry>)
    requires store.Valid() && store.FirstIndex() <= lo <= last <= store.LastIndex()
    ensures store.Valid()
    ensures var a, b := lo - store.FirstIndex(), last + 1 - store.FirstIndex();
            && 1 <= |es| <= b - a && b <= |store.Log()|
            && es == store.Log()[a..a + |es|]
            && (TotalPayload(es) <= maxSize || |es| == 1)
            && (TotalSize(store.Log()[a..b]) < maxSize ==> |es| == b - a)
  {
    hide DiskStorage.Chained, Segment.Valid, LogOf, TotalSize, TotalPayload, IsRange;
    var found := GetReadSegments(store, lo, last);
    var entries := ReadSegments(store, found.value.0, found.value.1, lo, last, maxSize);
    store.Bounds();
    RangeContiguous(store.Log(), lo - store.FirstIndex(), entries);
    ghost var footprint := store.Footprint();
    assert forall o :: o in footprint ==> allocated(o);
    var r := CutRaftEntries(entries, maxSize);
    CutIsAnswer(store.Log(), lo - store.FirstIndex(), last + 1 - store.FirstIndex(), entries, r.value, maxSize);
    es := r.value;
  }

  lemma RangeContiguous(log: seq<Entry>, a: nat, es: seq<Entry>)
    requires Contiguous(log) && IsRange(log, a, es)
    ensures Contiguous(es)
  {
  }

  /** Cutting a range to the payload budget keeps all of it when its marshalled size is below the budget. */
  lemma CutIsAnswer(log: seq<Entry>, a: nat, b: nat, entries: seq<Entry>, cut: seq<Entry>, maxSize: nat)
    requires a <= b <= |log| && IsRange(log, a, entries) && 1 <= |entries| <= b - a
    requires TotalSize(log[a..b]) < maxSize ==> |entries| == b - a
    requires cut <= entries && 1 <= |cut|
    requires cut == entries || TotalPayload(entries[..|cut| + 1]) > maxSize
    ensures |cut| <= b - a && cut == log[a..a + |cut|]
    ensures TotalSize(log[a..b]) < maxSize ==> |cut| == b - a
  {
    hide TotalSize, TotalPayload;
    KeptAll(entries, |cut|, maxSize);
    assert cut == entries[..|cut|];
  }

  /** A payload can only be over a limit that the marshalled size is over. */
  lemma KeptAll(entries: seq<Entry>, n: nat, maxSize: nat)
    requires n <= |entries|
    ensures TotalSize(entries) < maxSize && n < |entries| ==> TotalPayload(entries[..n + 1]) <= maxSize
  {
    hide TotalSize, TotalPayload;
    if n < |entries| {
      PayloadBound(entries[..n + 1]);
      SizeOfPart(entries, 0, n + 1);
      assert entries[0..n + 1] == entries[..n + 1];
    }
  }

  /** The term of entry i. */
  method Term(store: DiskStorage, i: nat) returns (r: Result<nat>)
    requires store.Valid() && i < TWO_64 - 1
    ensures store.Valid()
    ensures i == 0 ==> r == Ok(0)
    ensures 0 < i < store.FirstIndex() ==> r == Err(ErrCompacted)
    ensures 0 < i && store.FirstIndex() <= i && store.LastIndex() < i ==> r == Err(ErrOutOfBound)
    ensures 0 < i && store.FirstIndex() <= i <= store.LastIndex() ==>
              && i - store.FirstIndex() < |store.Log()|
              && r == Ok(store.Log()[i - store.FirstIndex()].term)
  {
    hide DiskStorage.Valid, LogOf, TotalSize, TotalPayload;
    if i == 0 { return Ok(0); }
    var check := CheckRaftIndex(store, i);
    if check.Err? { return Err(check.error); }
    var entries := Entries(store, i, i + 1, NO_LIMIT);
    if entries.Err? { return Err(entries.error); }
    r := Ok(entries.value[0].term);
  }

  class DiskEntryReader {
    const store: DiskStorage
    var indexReadAt: nat

    constructor (store: DiskStorage, raftIndex: nat)
      ensures this.store == store && indexReadAt == raftIndex
    {
      this.store := store;
      indexReadAt := raftIndex;
    }

    /** The entry at the read index, which then moves on; on error nothing moves. */
    method GetNext() returns (r: Result<Entry>)
      requires store.Valid() && indexReadAt < TWO_64 - 1
      modifies this
      ensures store.Valid()
      ensures old(store.FirstIndex() <= indexReadAt <= store.LastIndex()) <==> r.Ok?
      ensures r.Ok? ==>
                && old(indexReadAt) - store.FirstIndex() < |store.Log()|
                && r.value == store.Log()[old(indexReadAt) - store.FirstIndex()]
                && indexReadAt == old(indexReadAt) + 1
      ensures r.Err? ==> indexReadAt == old(indexReadAt)
    {
      hide DiskStorage.Valid, LogOf, TotalSize, TotalPayload;
      var entries := Entries(store, indexReadAt, indexReadAt + 1, NO_LIMIT);
      if entries.Err? { return Err(entries.error); }
      NotInStore();
      indexReadAt := indexReadAt + 1;
      r := Ok(entries.value[0]);
    }

    lemma NotInStore()
      ensures this !in store.Footprint()
    {
    }

    /** n calls of GetNext inside the log return the next n entries, none twice and none skipped. */
    method ReadMany(n: nat) returns (es: seq<Entry>)
      requires store.Valid() && store.FirstIndex() <= indexReadAt && indexReadAt + n <= store.LastIndex() + 1 < TWO_64
      modifies this
      ensures store.Valid() && |es| == n && indexReadAt == old(indexReadAt) + n
      ensures old(indexReadAt) - store.FirstIndex() + n <= |store.Log()|
      ensures es == store.Log()[old(indexReadAt) - store.FirstIndex()..old(indexReadAt) - store.FirstIndex() + n]
    {
      hide DiskStorage.Valid, LogOf;
      es := [];
      ghost var start, log, a := indexReadAt, store.Log(), indexReadAt - store.FirstIndex();
      InBounds(n);
      var i := 0;
      while i < n
        invariant 0 <= i <= n && store.Valid() && store.Log() == log && a == start - store.FirstIndex()
        invariant indexReadAt == start + i && start + n <= store.LastIndex() + 1 < TWO_64
        invariant |es| == i && a + i <= |log| && es == log[a..a + i]
      {
        var next := GetNext();
        SliceSnoc(log, a, i);
        es := es + [next.value];
        i := i + 1;
      }
    }

    lemma InBounds(n: nat)
      requires store.Valid() && store.FirstIndex() <= indexReadAt && indexReadAt + n <= store.LastIndex() + 1
      ensures indexReadAt - store.FirstIndex() + n <= |store.Log()|
    {
      hide DiskStorage.Chained, LogOf;
      store.Bounds();
    }
  }

  /** A reader for any index inside the stored bounds, and for no other. */
  method NewEntryReaderAt(store: DiskStorage, raftIndex: nat) returns (r: Result<DiskEntryReader>)
    requires store.Valid()
    ensures store.Valid()
    ensures r.Ok? <==> store.FirstIndex() <= raftIndex <= store.LastIndex()
    ensures r.Ok? ==> fresh(r.value) && r.value.store == store && r.value.indexReadAt == raftIndex
    ensures r.Err? ==> r.error == if raftIndex < store.FirstIndex() then ErrCompacted else ErrOutOfBound
  {
    hide DiskStorage.Valid, DiskStorage.FirstIndex, DiskStorage.LastIndex;
    var check := CheckRaftIndex(store, raftIndex);
    if check.Err? { return Err(check.error); }
    assert forall o :: o in store.Footprint() ==> allocated(o);
    var reader := new DiskEntryReader(store, raftIndex);
    r := Ok(reader);
  }
}
