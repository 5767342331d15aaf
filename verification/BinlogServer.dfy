/** Serving the log to a replica by GTID (server/binlog_server.go). */
module BinlogServers {
  import opened Bytes
  import opened Gtids
  import opened Messages
  import opened RecordLog
  import opened StorageErrors
  import opened DiskStorages
  import opened EntryReads
  import opened Keys
  import opened MetaStores
  import opened BinlogEvents

  // ---- the filter -------------------------------------------------------------------

  function SkipMark(m: Mark, slave: GtidSet, inExcludeGroup: bool): bool
  {
    match m
    case GtidMark(g) => g in slave
    case BadGtidMark => true
    case RotateMark => false
    case NoMark => inExcludeGroup
  }

  function SkipEvent(ev: BinlogEvent, slave: GtidSet, inExcludeGroup: bool): bool
    requires Sliceable(ev)
  {
    SkipMark(MarkOf(ev), slave, inExcludeGroup)
  }

  predicate AllDecodable(es: seq<Entry>)
  {
    forall i :: 0 <= i < |es| ==> Decodable(es[i])
  }

  /** The exclusion flag after reading the entries. */
  function Excluding(es: seq<Entry>, slave: GtidSet): bool
    requires AllDecodable(es)
  {
    es != [] && SkipMark(EntryMark(es[|es| - 1]), slave, Excluding(es[..|es| - 1], slave))
  }

  /** The events sent after reading the entries. */
  function Sent(es: seq<Entry>, slave: GtidSet): seq<BinlogEvent>
    requires AllDecodable(es)
  {
    if es == [] then []
    else
      var n := |es| - 1;
      Sent(es[..n], slave) +
      if IsBinlogEvent(es[n]) && !Excluding(es, slave) then [EventOf(es[n]).value] else []
  }

  // ---- what is sent -----------------------------------------------------------------

  /** Entry m is the last GTID or ROTATE event up to entry i. */
  predicate LatestMark(es: seq<Entry>, i: nat, m: nat)
    requires AllDecodable(es) && m <= i < |es|
  {
    EntryMark(es[m]) != NoMark && forall k :: m < k <= i ==> EntryMark(es[k]) == NoMark
  }

  /** The group an entry belongs to is one the replica already has, or one whose GTID is unreadable. */
  predicate InExcludedGroup(es: seq<Entry>, i: nat, slave: GtidSet)
    requires AllDecodable(es) && i < |es|
  {
    exists m :: 0 <= m <= i && LatestMark(es, i, m) &&
      (EntryMark(es[m]).BadGtidMark? || (EntryMark(es[m]).GtidMark? && EntryMark(es[m]).gtid in slave))
  }

  lemma {:induction false} ExcludingMeans(es: seq<Entry>, i: nat, slave: GtidSet)
    requires AllDecodable(es) && i < |es|
    ensures Excluding(es[..i + 1], slave) <==> InExcludedGroup(es, i, slave)
    decreases i
  {
    hide Decodable, EntryMark;
    var front := es[..i + 1];
    assert front[..i] == es[..i];
    if EntryMark(es[i]) != NoMark {
      assert LatestMark(es, i, i);
    } else if i > 0 {
      ExcludingMeans(es, i - 1, slave);
      forall m | 0 <= m < i ensures LatestMark(es, i, m) == LatestMark(es, i - 1, m) {
      }
    }
  }

  /** The positions whose events are sent. */
  function Positions(es: seq<Entry>, slave: GtidSet): (ps: seq<nat>)
    requires AllDecodable(es)
    ensures forall j :: 0 <= j < |ps| ==> ps[j] < |es|
  {
    if es == [] then []
    else
      var n := |es| - 1;
      var ps := Positions(es[..n], slave);
      if IsBinlogEvent(es[n]) && !Excluding(es, slave) then ps + [n] else ps
  }

  predicate Increasing(ps: seq<nat>)
  {
    forall i, j :: 0 <= i < j < |ps| ==> ps[i] < ps[j]
  }

  /** The events are those of the entries at the positions, in that order. */
  ghost predicate Matches(es: seq<Entry>, ps: seq<nat>, events: seq<BinlogEvent>)
  {
    && |events| == |ps|
    && Increasing(ps)
    && forall j :: 0 <= j < |ps| ==>
         ps[j] < |es| && IsBinlogEvent(es[ps[j]]) && EventOf(es[ps[j]]) == Some(events[j])
  }

  lemma {:induction false} SentMatches(es: seq<Entry>, slave: GtidSet)
    requires AllDecodable(es)
    ensures Matches(es, Positions(es, slave), Sent(es, slave))
  {
    hide EntryMark, Excluding, IsBinlogEvent, EventOf, Sliceable;
    if es != [] {
      var n := |es| - 1;
      var front := es[..n];
      SentMatches(front, slave);
      assert Decodable(es[n]);
      hide Decodable;
      var ps := Positions(front, slave);
      assert forall j :: 0 <= j < |ps| ==> es[ps[j]] == front[ps[j]];
    }
  }

  lemma {:induction false} SentPositions(es: seq<Entry>, slave: GtidSet, i: nat)
    requires AllDecodable(es) && i < |es|
    ensures i in Positions(es, slave) <==> IsBinlogEvent(es[i]) && !Excluding(es[..i + 1], slave)
    decreases |es|
  {
    hide Decodable, EntryMark, Excluding, IsBinlogEvent;
    var n := |es| - 1;
    var front := es[..n];
    var ps := Positions(front, slave);
    assert forall j :: 0 <= j < |ps| ==> ps[j] < n;
    if i < n {
      SentPositions(front, slave, i);
      assert front[..i + 1] == es[..i + 1];
    } else {
      assert es[..n + 1] == es;
    }
  }

  /**
   Soundness and exactness of the dump: the events sent are, once each and in log order,
   those of exactly the binlog entries outside the excluded groups.
   */
  lemma SentExactly(es: seq<Entry>, slave: GtidSet)
    requires AllDecodable(es)
    ensures Matches(es, Positions(es, slave), Sent(es, slave))
    ensures forall i :: 0 <= i < |es| ==>
              (i in Positions(es, slave) <==> IsBinlogEvent(es[i]) && !InExcludedGroup(es, i, slave))
  {
    hide Decodable, EntryMark, Excluding, IsBinlogEvent, EventOf, Sent, Positions, Matches, InExcludedGroup;
    SentMatches(es, slave);
    forall i | 0 <= i < |es|
      ensures i in Positions(es, slave) <==> IsBinlogEvent(es[i]) && !InExcludedGroup(es, i, slave)
    {
      ExcludingMeans(es, i, slave);
      SentPositions(es, slave, i);
    }
  }

  // ---- where a replica may start ----------------------------------------------------

  /** The slave's set against the master's executed and purged sets. */
  function CheckGtidSet(executed: GtidSet, purged: GtidSet, slave: GtidSet): (r: Result<()>)
    ensures r.Ok? <==> purged <= slave && forall g :: g in slave && g.sid in Sids(executed) ==> g in executed
  {
    if exists sid :: sid in Sids(slave) && sid in Sids(executed) &&
        !(Restrict(slave, {sid}) <= Restrict(executed, {sid}))
    then Err(ErrNotContain)
    else if !(purged <= slave) then Err(ErrNotContain)
    else
      assert forall g :: g in slave && g.sid in Sids(executed) ==> g in Restrict(slave, {g.sid});
      Ok(())
  }

  /** Every recorded set lists the GTIDs of all stored events before it. */
  ghost predicate Honest(b: Bucket, log: seq<Entry>)
    requires AllDecodable(log)
  {
    forall j: nat, k: nat :: Recorded(b, j) && k < |log| && EntryMark(log[k]).GtidMark? && log[k].index < j ==>
      EntryMark(log[k]).gtid in RecordedSet(b, j)
  }

  /** A GTID event before every recorded set is one that gtid_purged accounts for. */
  ghost predicate EarlyPurged(b: Bucket, log: seq<Entry>)
    requires AllDecodable(log) && WellFormed(b)
  {
    forall k: nat :: k < |log| && EntryMark(log[k]).GtidMark? && (forall j: nat :: Recorded(b, j) ==> log[k].index < j)
      ==>
      EntryMark(log[k]).gtid in SetAt(b, Purged)
  }

  /** The answer of GetPreviousGtidSet. */
  ghost predicate StartFor(b: Bucket, slave: GtidSet, start: nat)
  {
    && Candidate(b, slave, start)
    && forall j: nat :: Candidate(b, slave, j) ==> if slave == {} then start <= j else j <= start
  }

  /** Entry q belongs to the transaction that the GTID event at k opens. */
  ghost predicate InGroupOf(log: seq<Entry>, k: nat, q: nat)
    requires AllDecodable(log) && k < |log|
  {
    k <= q < |log| && IsBinlogEvent(log[q]) && forall m :: k < m <= q ==> EntryMark(log[m]) == NoMark
  }

  lemma StartsBefore(b: Bucket, log: seq<Entry>, slave: GtidSet, start: nat, k: nat)
    requires AllDecodable(log) && WellFormed(b) && Honest(b, log) && EarlyPurged(b, log)
    requires SetAt(b, Purged) <= slave && StartFor(b, slave, start)
    requires k < |log| && EntryMark(log[k]).GtidMark? && EntryMark(log[k]).gtid !in slave
    ensures start <= log[k].index
  {
    hide AllDecodable, WellFormed;
    if log[k].index < start && slave == {} {
      forall j: nat | Recorded(b, j) ensures log[k].index < j {
        assert Candidate(b, slave, j);
      }
    }
  }

  /**
   Completeness: a dump to a replica that passes the check misses no event of any stored
   transaction the replica lacks.  The dump reads entries a..n of the log.
   */
  lemma DumpMissesNothing(b: Bucket, log: seq<Entry>, slave: GtidSet, start: nat, n: nat, k: nat, q: nat)
    requires log != [] && Contiguous(log) && AllDecodable(log) && WellFormed(b)
    requires Honest(b, log) && EarlyPurged(b, log)
    requires SetAt(b, Purged) <= slave && StartFor(b, slave, start)
    requires log[0].index <= start <= log[0].index + n && n <= |log|
    requires k <= q < n && EntryMark(log[k]).GtidMark? && EntryMark(log[k]).gtid !in slave
    requires InGroupOf(log, k, q)
    ensures var a := start - log[0].index;
            a <= q && AllDecodable(log[a..n]) && q - a in Positions(log[a..n], slave)
  {
    StartsBefore(b, log, slave, start, k);
    GroupIsSent(log[start - log[0].index..n], slave, k - (start - log[0].index), q - (start - log[0].index));
  }

  lemma GroupIsSent(es: seq<Entry>, slave: GtidSet, k: nat, q: nat)
    requires AllDecodable(es) && k <= q < |es|
    requires EntryMark(es[k]).GtidMark? && EntryMark(es[k]).gtid !in slave && InGroupOf(es, k, q)
    ensures q in Positions(es, slave)
  {
    hide Decodable, EntryMark, Positions, Sent, Matches, IsBinlogEvent;
    SentExactly(es, slave);
    if InExcludedGroup(es, q, slave) {
      var m :| 0 <= m <= q && LatestMark(es, q, m) &&
        (EntryMark(es[m]).BadGtidMark? || (EntryMark(es[m]).GtidMark? && EntryMark(es[m]).gtid in slave));
      assert false;
    }
  }

  /** Every applied entry was decoded when it was applied. */
  predicate DecodableUpTo(log: seq<Entry>, applied: nat)
  {
    forall i :: 0 <= i < |log| && log[i].index <= applied ==> Decodable(log[i])
  }

  // ---- the dump loop ----------------------------------------------------------------

  /** One dump: a reader, the filter flag, and the channel to the connection. */
  class Dump {
    const reader: DiskEntryReader
    const slave: GtidSet
    const start: nat
    var inExcludeGroup: bool
    var sent: seq<BinlogEvent>
    /** Everything read so far. */
    ghost var read: seq<Entry>

    ghost predicate Valid()
      reads this, reader
    {
      && AllDecodable(read)
      && reader.indexReadAt == start + |read|
      && inExcludeGroup == Excluding(read, slave)
      && sent == Sent(read, slave)
    }

    constructor (reader: DiskEntryReader, slave: GtidSet)
      ensures Valid() && this.reader == reader && this.slave == slave
      ensures start == reader.indexReadAt && read == []
    {
      this.slave := slave;
      this.reader := reader;
      start := reader.indexReadAt;
      inExcludeGroup := false;
      sent := [];
      read := [];
    }

    method Receive(e: Entry)
      requires Decodable(e) && AllDecodable(read)
      requires reader.indexReadAt == start + |read| + 1
      requires inExcludeGroup == Excluding(read, slave) && sent == Sent(read, slave)
      modifies this
      ensures Valid() && read == old(read) + [e]
    {
      hide Decodable, MarkOf, EventOf, IsBinlogEvent;
      ghost var es := read + [e];
      assert es[..|read|] == read;
      assert AllDecodable(es);
      read := es;
      DecodableMeans(e);
      if !IsBinlogEvent(e) {
        return;
      }
      var ev := EventOf(e).value;
      inExcludeGroup := SkipEvent(ev, slave, inExcludeGroup);
      if inExcludeGroup {
        return;
      }
      sent := sent + [ev];
    }

    lemma DecodableMeans(e: Entry)
      requires Decodable(e)
      ensures if IsBinlogEvent(e)
              then EventOf(e).Some? && Sliceable(EventOf(e).value) && EntryMark(e) == MarkOf(EventOf(e).value)
              else EntryMark(e) == NoMark
    {
    }

    /** Reads and filters every entry up to the applied index. */
    method CatchUp(applied: nat) returns (r: Result<()>)
      requires Valid() && reader.store.Valid() && applied < TWO_64 - 1
      requires DecodableUpTo(reader.store.Log(), applied)
      modifies this, reader
      ensures Valid() && reader.store.Valid()
      ensures reader.store.Log() == old(reader.store.Log()) &&
              reader.store.FirstIndex() == old(reader.store.FirstIndex())
      ensures r.Ok? <==> old(reader.indexReadAt) > applied ||
                         (reader.store.FirstIndex() <= old(reader.indexReadAt) && applied <= reader.store.LastIndex())
      ensures r.Ok? && old(reader.indexReadAt) <= applied ==>
                var a, b := old(reader.indexReadAt) - reader.store.FirstIndex(),
                    applied + 1 - reader.store.FirstIndex();
                b <= |reader.store.Log()| && read == old(read) + reader.store.Log()[a..b]
      ensures r.Ok? && old(reader.indexReadAt) > applied ==> read == old(read)
    {
      hide DiskStorage.Valid, DiskStorage.Log, DiskStorage.FirstIndex, DiskStorage.LastIndex, Decodable,
           Excluding, Sent;
      ghost var store, log, from := reader.store, reader.store.Log(), reader.indexReadAt;
      ghost var first, last, before := store.FirstIndex(), store.LastIndex(), read;
      Numbered(store);
      r := Ok(());
      while reader.indexReadAt <= applied
        invariant Valid() && store.Valid() && store.Log() == log && store.FirstIndex() == first &&
                  store.LastIndex() == last
        invariant from <= reader.indexReadAt && (from <= applied ==> reader.indexReadAt <= applied + 1)
        invariant from > applied ==> reader.indexReadAt == from
        invariant reader.indexReadAt > from ==>
                  first <= from && reader.indexReadAt - 1 <= last && reader.indexReadAt - first <= |log|
        invariant reader.indexReadAt > from ==> read == before + log[from - first..reader.indexReadAt - first]
        invariant reader.indexReadAt == from ==> read == before
        invariant r.Ok?
        decreases applied + 1 - reader.indexReadAt
      {
        var next := reader.GetNext();
        if next.Err? {
          return Err(next.error);
        }
        assert log[reader.indexReadAt - 1 - first].index <= applied;
        NotInStore();
        Receive(next.value);
      }
    }

    lemma Numbered(store: DiskStorage)
      requires store.Valid()
      ensures forall i :: 0 <= i < |store.Log()| ==> store.Log()[i].index == store.FirstIndex() + i
    {
      hide DiskStorage.Chained, LogOf;
      store.Bounds();
    }

    lemma NotInStore()
      ensures this !in reader.store.Footprint()
    {
    }
  }
}
