/**
 The metadata store (storage/meta_storage.go): one bucket of an ordered key-value database. The
 bucket is a map; its cursor walks the keys in the byte order of their names. Values are kept
 decoded.
 */
module MetaStores {
  import opened Bytes
  import opened Gtids
  import opened Keys
  import opened StorageErrors

  datatype Datum =
    | Raw(bytes: seq<byte>)
    | Set(gtids: GtidSet)
    | Text(text: string)
    | Number(number: nat)

  type Bucket = map<Key, Datum>

  // ---- What the bucket holds -------------------------------------------------------

  predicate WellTyped(k: Key, d: Datum) {
    match k
    case Executed => d.Set?
    case Purged => d.Set?
    case ApplyIndex => d.Number?
    case Fde(_) => d.Raw?
    case NextBinlog(_) => d.Text?
    case PreGtids(_) => d.Set?
  }

  predicate WellFormed(b: Bucket) {
    forall k :: k in b ==> Stored(k) && WellTyped(k, b[k])
  }

  function SetAt(b: Bucket, k: Key): GtidSet
    requires WellFormed(b) && (k.Executed? || k.Purged?)
  {
    if k in b then b[k].gtids else {}
  }

  function AppliedIndex(b: Bucket): nat
    requires WellFormed(b)
  {
    if ApplyIndex in b then b[ApplyIndex].number else 0
  }

  /** A set of previous GTIDs is recorded at a raft index. */
  predicate Recorded(b: Bucket, i: nat) {
    PreGtids(i) in b && b[PreGtids(i)].Set?
  }

  function RecordedSet(b: Bucket, i: nat): GtidSet
    requires Recorded(b, i)
  {
    b[PreGtids(i)].gtids
  }

  /** No two recorded sets are equal. */
  ghost predicate Distinct(b: Bucket) {
    forall i: nat, j: nat :: Recorded(b, i) && Recorded(b, j) && i != j ==> RecordedSet(b, i) != RecordedSet(b, j)
  }

  /** The keys a prefix scan visits, in order. */
  function Cursor(b: Bucket, prefix: string): (ks: seq<Key>)
    requires WellFormed(b) && IsKind(prefix)
    ensures ByIndex(ks, prefix)
    ensures forall k :: k in ks <==> k in b && OfKind(k, prefix)
    ensures forall i :: 0 <= i < |ks| ==> ks[i] in b
  {
    ScanVisits(b.Keys, prefix);
    Scan(b.Keys, prefix)
  }

  // ---- File names ------------------------------------------------------------------

  function Decimal(n: nat): (r: string)
    ensures r != "" && forall i :: 0 <= i < |r| ==> IsDigit(r[i])
  {
    if n < 10 then [Digit(n)] else Decimal(n / 10) + [Digit(n % 10)]
  }

  /** A number printed with at least six digits. */
  function SixDigits(n: nat): (r: string)
    ensures r != "" && forall i :: 0 <= i < |r| ==> IsDigit(r[i])
  {
    if n < 1_000_000 then Padded(n, 6) else Decimal(n)
  }

  function PreviousLogName(name: string): Result<string> {
    var parts := Split(name, '.');
    if |parts| != 2 then Err(Fatal)
    else
      var number := ParseUint(parts[1]);
      if number.None? then Err(Fatal)
      else Ok(parts[0] + "." + SixDigits((number.value - 1) % TWO_64))
  }

  lemma {:induction false} DecimalParses(n: nat)
    ensures Value(Decimal(n)) == n
  {
    var s := Decimal(n);
    if n < 10 {
      assert Value(s[..0]) == 0;
    } else {
      DecimalParses(n / 10);
      assert s[..|s| - 1] == Decimal(n / 10);
    }
  }

  lemma SixDigitsParse(n: nat)
    ensures Value(SixDigits(n)) == n
  {
    hide Padded, Decimal, Value;
    if n < 1_000_000 {
      assert Pow10(6) == 1_000_000 by { assert Pow10(3) == 1000; }
      PaddedParses(n, 6);
    } else {
      DecimalParses(n);
    }
  }

  /** The generated name is the one whose successor is the given name. */
  lemma PreviousIsPredecessor(base: string, n: nat)
    requires '.' !in base && n + 1 < TWO_64
    ensures PreviousLogName(base + "." + SixDigits(n + 1)) == Ok(base + "." + SixDigits(n))
  {
    hide SixDigits, Split, Value;
    var digits := SixDigits(n + 1);
    assert '.' !in digits;
    SplitOnce(base, digits, '.');
    SixDigitsParse(n + 1);
  }

  lemma PreviousNotEmpty(name: string)
    ensures PreviousLogName(name).Ok? ==> PreviousLogName(name).value != ""
    ensures PreviousLogName(name).Err? ==> PreviousLogName(name).error == Fatal
  {
    hide SixDigits, Split, ParseUint;
  }

  // ---- The store -------------------------------------------------------------------

  /** A recorded position from which a replica that has executed S can start. */
  predicate Candidate(b: Bucket, s: GtidSet, i: nat) {
    Recorded(b, i) && (s == {} || RecordedSet(b, i) <= s)
  }

  /** The least recorded index beyond a first index. */
  ghost predicate FirstBeyond(b: Bucket, firstIndex: nat, j: nat) {
    Recorded(b, j) && firstIndex < j && forall k: nat :: Recorded(b, k) && firstIndex < k ==> j <= k
  }

  /** The recorded sets below an index are dropped; everything else stays. */
  function Trimmed(b: Bucket, limit: nat): Bucket {
    map k | k in b && !(k.PreGtids? && k.index < limit) :: b[k]
  }

  predicate HasFde(b: Bucket, i: nat) {
    Fde(i) in b && b[Fde(i)].Raw?
  }

  predicate HasName(b: Bucket, i: nat) {
    NextBinlog(i) in b && b[NextBinlog(i)].Text?
  }

  ghost predicate LastFdeBelow(b: Bucket, limit: nat, i: nat) {
    HasFde(b, i) && i < limit && forall j: nat :: HasFde(b, j) && j < limit ==> j <= i
  }

  ghost predicate LastNameBelow(b: Bucket, limit: nat, i: nat) {
    HasName(b, i) && i < limit && forall j: nat :: HasName(b, j) && j < limit ==> j <= i
  }

  ghost predicate FirstNameFrom(b: Bucket, limit: nat, i: nat) {
    HasName(b, i) && limit <= i && forall j: nat :: HasName(b, j) && limit <= j ==> i <= j
  }

  /** No rotation below the start index, or the last one gave an empty name. */
  ghost predicate NoneAnnounced(b: Bucket, start: nat) {
    forall i: nat :: LastNameBelow(b, start, i) ==> b[NextBinlog(i)].text == ""
  }

  ghost predicate FileNamed(b: Bucket, start: nat) {
    || !NoneAnnounced(b, start)
    || exists i: nat :: FirstNameFrom(b, start, i) && PreviousLogName(b[NextBinlog(i)].text).Ok?
  }

  /** The last format description below the limit is there and not empty. */
  ghost predicate Described(b: Bucket, limit: nat) {
    exists i: nat :: LastFdeBelow(b, limit, i) && b[Fde(i)].bytes != []
  }

  /** The master's purged GTIDs of servers that gtid_purged does not know yet. */
  function WithMaster(purged: GtidSet, master: GtidSet): GtidSet {
    purged + set g | g in master && g.sid !in Sids(purged)
  }

  /** Of the master's purged GTIDs exactly those of servers without any purged GTID are added. */
  lemma WithMasterMeans(purged: GtidSet, master: GtidSet, g: Gtid)
    ensures g in WithMaster(purged, master) <==>
              g in purged || (g in master && forall h :: h in purged ==> h.sid != g.sid)
  {
    if h :| h in purged && h.sid == g.sid {
      assert g.sid in Sids(purged);
    }
  }

  function AfterPurge(b: Bucket, gtids: GtidSet, firstIndex: nat): Bucket
    requires WellFormed(b)
  {
    Trimmed(b[Purged := Set(SetAt(b, Purged) + gtids)], firstIndex)
  }

  /** Recording a set: nothing happens if a recorded set counts as equal to it. */
  ghost predicate Records(b: Bucket, c: Bucket, index: nat, previous: GtidSet) {
    if exists j: nat :: Recorded(b, j) && EqualTo(RecordedSet(b, j), previous) then c == b
    else c == b[PreGtids(index) := Set(previous)]
  }

  /** The recorded set a purge will use is the text of more than one server. */
  ghost predicate Stuck(b: Bucket, firstIndex: nat) {
    exists j: nat :: FirstBeyond(b, firstIndex, j) && RecordedSet(b, j) != {} && !OneServer(RecordedSet(b, j))
  }

  /** The effect of a purge up to a first index. */
  ghost predicate Purges(b: Bucket, c: Bucket, firstIndex: nat)
    requires WellFormed(b)
  {
    if exists j: nat :: FirstBeyond(b, firstIndex, j) && OneServer(RecordedSet(b, j)) then
      exists j: nat :: FirstBeyond(b, firstIndex, j) && OneServer(RecordedSet(b, j)) &&
        c == AfterPurge(b, RecordedSet(b, j), firstIndex)
    else c == b
  }

  /** A scan that stops before position n at a limit has seen every index below the limit. */
  lemma BelowLimit(ks: seq<Key>, prefix: string, n: nat, limit: nat, k: Key)
    requires ByIndex(ks, prefix) && n <= |ks| && k in ks && OfKind(k, prefix)
    requires n < |ks| ==> limit <= ks[n].index
    ensures k.index < limit ==> n > 0 && k.index <= ks[n - 1].index
  {
    var p :| 0 <= p < |ks| && ks[p] == k;
  }

  class MetaStore {
    var bucket: Bucket

    constructor ()
      ensures bucket == map[] && WellFormed(bucket) && Distinct(bucket)
    {
      bucket := map[];
    }

    method GetGtidSet(k: Key) returns (s: GtidSet)
      requires WellFormed(bucket) && (k.Executed? || k.Purged?)
      ensures s == SetAt(bucket, k)
    {
      if k !in bucket {
        return {};
      }
      s := bucket[k].gtids;
    }

    method SetBinlogProgress(appliedIndex: nat, executed: GtidSet)
      requires WellFormed(bucket)
      modifies this
      ensures bucket == old(bucket)[Executed := Set(executed)][ApplyIndex := Number(appliedIndex)]
      ensures WellFormed(bucket)
      ensures AppliedIndex(bucket) == appliedIndex && SetAt(bucket, Executed) == executed
    {
      bucket := bucket[Executed := Set(executed)][ApplyIndex := Number(appliedIndex)];
    }

    method SetPreviousGtidSet(raftIndex: nat, previous: GtidSet)
      requires WellFormed(bucket) && Distinct(bucket) && raftIndex < TWO_64
      modifies this
      ensures WellFormed(bucket) && Distinct(bucket)
      ensures Records(old(bucket), bucket, raftIndex, previous)
    {
      hide EqualTo, Cursor;
      var exist := false;
      var ks := Cursor(bucket, PGE);
      var n := 0;
      while n < |ks| && !exist
        invariant 0 <= n <= |ks|
        invariant exist ==> exists j: nat :: Recorded(bucket, j) && EqualTo(RecordedSet(bucket, j), previous)
        invariant !exist ==> forall p :: 0 <= p < n ==> !EqualTo(bucket[ks[p]].gtids, previous)
      {
        if EqualTo(bucket[ks[n]].gtids, previous) {
          assert Recorded(bucket, ks[n].index);
          exist := true;
        }
        n := n + 1;
      }
      if !exist {
        AbsentMeansNew(bucket, ks, previous);
        DistinctGrows(bucket, raftIndex, previous);
        bucket := bucket[PreGtids(raftIndex) := Set(previous)];
      }
    }

    method DeletePreviousGtidSet(lastRaftIndex: nat)
      requires WellFormed(bucket)
      modifies this
      ensures bucket == Trimmed(old(bucket), lastRaftIndex)
    {
      hide Cursor;
      var ks := Cursor(bucket, PGE);
      var n := 0;
      while n < |ks|
        invariant 0 <= n <= |ks|
        invariant forall k :: k in bucket ==> k in old(bucket) && bucket[k] == old(bucket)[k]
        invariant forall k :: k in old(bucket) && k !in bucket ==> k.PreGtids? && k.index < lastRaftIndex
        invariant forall p :: 0 <= p < n && ks[p] in bucket ==> lastRaftIndex <= ks[p].index
      {
        if ks[n].index < lastRaftIndex {
          bucket := bucket - {ks[n]};
        }
        n := n + 1;
      }
      assert forall k :: k in bucket && k.PreGtids? ==> k in ks;
    }

    /**
     Where a replica that has executed `slave` starts: at the first recorded set if it has
     executed nothing, else at the last one it contains.
     */
    method GetPreviousGtidSet(slave: GtidSet) returns (r: Result<nat>)
      requires WellFormed(bucket)
      ensures r.Ok? ==> Candidate(bucket, slave, r.value)
      ensures r.Ok? ==> forall j: nat :: Candidate(bucket, slave, j) ==>
        if slave == {} then r.value <= j else j <= r.value
      ensures r.Err? ==> r.error == ErrNotContain && forall j: nat :: !Candidate(bucket, slave, j)
    {
      hide Cursor;
      var lastKey: Option<Key> := None;
      var ks := Cursor(bucket, PGE);
      var n := 0;
      ghost var at := 0;
      while n < |ks|
        invariant 0 <= n <= |ks|
        invariant slave == {} ==> n == 0 && lastKey.None?
        invariant lastKey.None? ==> forall p :: 0 <= p < n ==> !(bucket[ks[p]].gtids <= slave)
        invariant lastKey.Some? ==> 0 <= at < n && ks[at] == lastKey.value && bucket[ks[at]].gtids <= slave
        invariant lastKey.Some? ==> forall p :: at < p < n ==> !(bucket[ks[p]].gtids <= slave)
      {
        var gtids := bucket[ks[n]].gtids;
        if slave == {} {
          lastKey, at := Some(ks[n]), n;
          break;
        }
        if gtids <= slave {
          lastKey, at := Some(ks[n]), n;
        }
        n := n + 1;
      }
      forall j: nat | Candidate(bucket, slave, j)
        ensures lastKey.Some? && if slave == {} then ks[at].index <= j else j <= ks[at].index
      {
        assert PreGtids(j) in ks;
      }
      if lastKey.None? {
        return Err(ErrNotContain);
      }
      r := Ok(lastKey.value.index);
    }

    /**
     Takes the first recorded set beyond the new first index into gtid_purged and drops the
     recorded sets below that index.
     */
    method UpdatePurgedGtidSet(firstIndex: nat) returns (r: Result<()>)
      requires WellFormed(bucket) && Distinct(bucket)
      modifies this
      ensures WellFormed(bucket) && Distinct(bucket)
      ensures r == if Stuck(old(bucket), firstIndex) then Err(Fatal) else Ok(())
      ensures Purges(old(bucket), bucket, firstIndex)
    {
      hide Cursor;
      var found: Option<Key> := None;
      var ks := Cursor(bucket, PGE);
      var n := 0;
      while n < |ks|
        invariant 0 <= n <= |ks|
        invariant found.None?
        invariant forall p :: 0 <= p < n ==> ks[p].index <= firstIndex
      {
        if firstIndex < ks[n].index {
          found := Some(ks[n]);
          break;
        }
        n := n + 1;
      }
      assert forall j: nat :: Recorded(bucket, j) ==> PreGtids(j) in ks;
      if found.None? {
        return Ok(());
      }
      assert FirstBeyond(bucket, firstIndex, found.value.index);
      var gtids := bucket[found.value].gtids;
      if gtids == {} {
        return Ok(());
      }
      var gtidPurged := GetGtidSet(Purged);
      var updated := Update(gtidPurged, gtids);
      if updated.None? {
        return Err(Fatal);
      }
      DistinctAfterPurge(bucket, gtids, firstIndex);
      bucket := bucket[Purged := Set(updated.value)];
      DeletePreviousGtidSet(firstIndex);
      r := Ok(());
    }

    /** The format description stored at the greatest index below the argument. */
    method GetFde(limit: nat) returns (r: Result<seq<byte>>)
      requires WellFormed(bucket)
      ensures (forall j: nat :: HasFde(bucket, j) ==> limit <= j) ==> r == Err(ErrNotContain)
      ensures forall i: nat :: LastFdeBelow(bucket, limit, i) ==>
        r == if bucket[Fde(i)].bytes == [] then Err(ErrNotContain) else Ok(bucket[Fde(i)].bytes)
      ensures r.Ok? <==> Described(bucket, limit)
    {
      hide Cursor;
      var fde := [];
      var ks := Cursor(bucket, FDE);
      var n := 0;
      while n < |ks|
        invariant 0 <= n <= |ks|
        invariant forall p :: 0 <= p < n ==> ks[p].index < limit
        invariant fde == if n == 0 then [] else bucket[ks[n - 1]].bytes
      {
        if ks[n].index < limit {
          fde := bucket[ks[n]].bytes;
        } else {
          break;
        }
        n := n + 1;
      }
      forall j: nat | HasFde(bucket, j) && j < limit ensures n > 0 && j <= ks[n - 1].index {
        BelowLimit(ks, FDE, n, limit, Fde(j));
      }
      assert n > 0 ==> LastFdeBelow(bucket, limit, ks[n - 1].index);
      hide ByIndex, WellFormed;
      if fde == [] {
        return Err(ErrNotContain);
      }
      r := Ok(fde);
    }

    /**
     The file name announced by the last rotation below the start index; where there is none, or
     an empty one, the name before the next announced one.
     */
    method GetNextBinlogFile(start: nat) returns (r: Result<string>)
      requires WellFormed(bucket)
      ensures forall i: nat :: LastNameBelow(bucket, start, i) && bucket[NextBinlog(i)].text != "" ==>
        r == Ok(bucket[NextBinlog(i)].text)
      ensures forall i: nat :: NoneAnnounced(bucket, start) && FirstNameFrom(bucket, start, i) ==>
        r == PreviousLogName(bucket[NextBinlog(i)].text)
      ensures NoneAnnounced(bucket, start) && (forall j: nat :: HasName(bucket, j) ==> j < start) ==>
              r == Err(ErrKeyNotFound)
      ensures r.Ok? <==> FileNamed(bucket, start)
    {
      hide Cursor, PreviousLogName;
      var fileName := "";
      var ks := Cursor(bucket, NEXT_BINLOG);
      assert forall j: nat :: HasName(bucket, j) ==> NextBinlog(j) in ks;
      var n := 0;
      while n < |ks|
        invariant 0 <= n <= |ks|
        invariant forall p :: 0 <= p < n ==> ks[p].index < start
        invariant fileName == if n == 0 then "" else bucket[ks[n - 1]].text
      {
        if ks[n].index < start {
          fileName := bucket[ks[n]].text;
        } else {
          assert FirstNameFrom(bucket, start, ks[n].index);
          if fileName == "" {
            var previous := PreviousLogName(bucket[ks[n]].text);
            PreviousNotEmpty(bucket[ks[n]].text);
            if previous.Err? {
              assert n > 0 ==> LastNameBelow(bucket, start, ks[n - 1].index);
              return previous;
            }
            fileName := previous.value;
          }
          break;
        }
        n := n + 1;
      }
      assert n > 0 ==> LastNameBelow(bucket, start, ks[n - 1].index);
      if fileName == "" {
        return Err(ErrKeyNotFound);
      }
      r := Ok(fileName);
    }
  }

  /** What keeps a purge from being possible, an earlier purge of the same first index does not change. */
  lemma StuckStays(b: Bucket, c: Bucket, firstIndex: nat)
    requires WellFormed(b) && Purges(b, c, firstIndex)
    ensures Stuck(c, firstIndex) <==> Stuck(b, firstIndex)
  {
    if c != b {
      assert forall j: nat :: Recorded(c, j) <==> Recorded(b, j) && firstIndex <= j;
      assert forall j: nat :: Recorded(c, j) ==> RecordedSet(c, j) == RecordedSet(b, j);
      assert forall j: nat :: FirstBeyond(c, firstIndex, j) <==> FirstBeyond(b, firstIndex, j);
    }
  }

  lemma DistinctGrows(b: Bucket, index: nat, s: GtidSet)
    requires Distinct(b) && forall j: nat :: Recorded(b, j) ==> RecordedSet(b, j) != s
    ensures Distinct(b[PreGtids(index) := Set(s)])
  {
    var c := b[PreGtids(index) := Set(s)];
    forall i: nat, j: nat | Recorded(c, i) && Recorded(c, j) && i != j
      ensures RecordedSet(c, i) != RecordedSet(c, j)
    {
      assert i != index ==> Recorded(b, i);
      assert j != index ==> Recorded(b, j);
    }
  }

  lemma DistinctAfterPurge(b: Bucket, gtids: GtidSet, firstIndex: nat)
    requires WellFormed(b) && Distinct(b)
    ensures Distinct(AfterPurge(b, gtids, firstIndex))
  {
    var c := AfterPurge(b, gtids, firstIndex);
    forall i: nat, j: nat | Recorded(c, i) && Recorded(c, j) && i != j
      ensures RecordedSet(c, i) != RecordedSet(c, j)
    {
      assert Recorded(b, i) && Recorded(b, j);
    }
  }

  lemma AbsentMeansNew(b: Bucket, ks: seq<Key>, previous: GtidSet)
    requires WellFormed(b) && ks == Cursor(b, PGE)
    requires forall p :: 0 <= p < |ks| ==> !EqualTo(b[ks[p]].gtids, previous)
    ensures forall j: nat :: Recorded(b, j) ==> RecordedSet(b, j) != previous && !EqualTo(RecordedSet(b, j), previous)
  {
    hide Cursor;
    forall j: nat | Recorded(b, j)
      ensures RecordedSet(b, j) != previous && !EqualTo(RecordedSet(b, j), previous)
    {
      assert PreGtids(j) in ks;
      var p :| 0 <= p < |ks| && ks[p] == PreGtids(j);
    }
  }
}
