/**
 The whole way of an event: applied from the log, possibly again after a restart, and dumped
 to a replica.  Ties the applier, the metadata, the stored log and the dump together.
 */
module Serving {
  import opened Bytes
  import opened Gtids
  import opened Messages
  import opened StorageErrors
  import opened DiskStorages
  import opened EntryReads
  import opened Keys
  import opened MetaStores
  import opened BinlogEvents
  import opened BinlogServers
  import opened ServedLogs
  import opened Appliers
  import Membership

  /** The history is what applying the entries, numbered from 1, means. */
  ghost predicate Tracks(s: Served, entries: seq<Entry>, dec: Decoders)
  {
    && Sound(s) && AppliedIndex(s.bucket) <= |s.history| == |entries|
    && forall i :: 0 <= i < |entries| ==> Tracked(s, entries, i, dec)
  }

  ghost predicate Tracked(s: Served, entries: seq<Entry>, i: nat, dec: Decoders)
    requires i < |entries| == |s.history|
  {
    && entries[i].index == i + 1 && WellMadeEntry(entries[i])
    && CommandOf(entries[i], dec).Some? && s.history[i] == AppliedOf(entries[i], dec)
  }

  /** The state of a running server. */
  ghost predicate Running(server: Server, s: Served, entries: seq<Entry>)
    reads server, server.progress, server.store, server.cluster, server.cluster.store
  {
    && server.Valid() && s.bucket == server.store.bucket && s.applied == server.appliedIndex
    && Tracks(s, entries, server.dec)
  }

  /** What may be applied next: after a restart the same entries again, then new ones. */
  ghost predicate Next(s: Served, entries: seq<Entry>, e: Entry, dec: Decoders)
    requires WellFormed(s.bucket)
  {
    && e.index == s.applied + 1 < TWO_64 && WellMadeEntry(e)
    && if s.applied < |entries| then e == entries[s.applied] && s.first <= e.index
       else CommandOf(e, dec).Some? ==> Listed(s, AppliedOf(e, dec)) && InTime(s, AppliedOf(e, dec))
  }

  function AfterEntry(entries: seq<Entry>, applied: nat, e: Entry): seq<Entry>
  {
    if applied < |entries| then entries else entries + [e]
  }

  /** The served log after an entry that left the given metadata. */
  function AfterApply(s: Served, entries: seq<Entry>, e: Entry, dec: Decoders, bucket: Bucket): Served
    requires CommandOf(e, dec).Some?
  {
    if s.applied < |entries| then s.(applied := e.index, bucket := bucket)
    else s.(history := s.history + [AppliedOf(e, dec)], applied := e.index, bucket := bucket)
  }

  /** The metadata an entry may leave, and the stored applied index with it. */
  ghost predicate Leaves(s: Served, e: Entry, dec: Decoders, bucket: Bucket)
    requires WellFormed(s.bucket) && CommandOf(e, dec).Some?
  {
    && WellFormed(bucket) && MetaStep(s.bucket, bucket, e.index, AppliedOf(e, dec))
    && (AppliedIndex(bucket) == AppliedIndex(s.bucket) || AppliedIndex(bucket) == e.index)
  }

  /** The step of the served log that goes with an applied entry. */
  lemma EntryStep(s: Served, entries: seq<Entry>, e: Entry, dec: Decoders, bucket: Bucket)
    requires Tracks(s, entries, dec) && Next(s, entries, e, dec) && CommandOf(e, dec).Some? && Leaves(s, e, dec, bucket)
    ensures var t := AfterApply(s, entries, e, dec, bucket);
            Step(s, t) && Tracks(t, AfterEntry(entries, s.applied, e), dec)
  {
    hide WellMadeEntry, CommandOf, AppliedOf, MetaStep, WellFormed, Listed, InTime, Mergeable, Purges;
    var a, t := AppliedOf(e, dec), AfterApply(s, entries, e, dec, bucket);
    if s.applied < |entries| {
      assert Tracked(s, entries, s.applied, dec);
      ReplayKeeps(s, t);
      hide Sound;
      forall i | 0 <= i < |entries| ensures Tracked(t, entries, i, dec) {
        assert Tracked(s, entries, i, dec);
      }
    } else {
      assert ServedLogs.ApplyStep(s, t, a);
      ApplySoundIff(s, t, a);
      hide Sound;
      forall i | 0 <= i <= |entries| ensures Tracked(t, entries + [e], i, dec) {
        if i < |entries| { assert Tracked(s, entries, i, dec); }
      }
    }
  }

  /** Applying an entry for the first time, or again, is a step of the served log. */
  method ApplyEntry(server: Server, e: Entry, due: bool, ghost s: Served, ghost entries: seq<Entry>)
    returns (r: Result<()>, ghost t: Served)
    requires Running(server, s, entries) && Next(s, entries, e, server.dec)
    modifies server, server.progress, server.progress.parser, server.store, server.cluster, server.cluster.store
    ensures r.Ok? <==> Applicable(old(server.cluster.Value()), e, server.dec)
    ensures r.Ok? ==> Step(s, t) && t.first == s.first && Running(server, t, AfterEntry(entries, s.applied, e))
  {
    hide WellMadeEntry, CommandOf, AppliedOf, MetaStep, WellFormed, Distinct, Step, Sound, Listed, InTime;
    t := s;
    ghost var saved;
    var removedSelf;
    r, removedSelf, saved := server.ApplyEntry(e, due);
    if r.Ok? {
      EntryStep(s, entries, e, server.dec, server.store.bucket);
      t := AfterApply(s, entries, e, server.dec, server.store.bucket);
    }
  }

  lemma RestartTracks(s: Served, entries: seq<Entry>, dec: Decoders)
    requires Tracks(s, entries, dec)
    ensures WellFormed(s.bucket)
    ensures var t := s.(applied := AppliedIndex(s.bucket)); RestartStep(s, t) && Tracks(t, entries, dec)
  {
    hide WellMadeEntry, CommandOf, AppliedOf;
    var t := s.(applied := AppliedIndex(s.bucket));
    RestartKeeps(s, t);
    hide Sound, WellFormed;
    forall i | 0 <= i < |entries| ensures Tracked(t, entries, i, dec) {
      assert Tracked(s, entries, i, dec);
    }
  }

  /** A restart goes back to the stored applied index, which every run has reached. */
  method Restart(store: MetaStore, dec: Decoders, cluster: Membership.RaftCluster, id: Membership.Id,
                 ghost s: Served, ghost entries: seq<Entry>)
    returns (server: Server, ghost t: Served)
    requires s.bucket == store.bucket && Distinct(store.bucket) && Tracks(s, entries, dec) && cluster.Valid()
    ensures server.store == store && server.dec == dec && Step(s, t) && t.first == s.first &&
            Running(server, t, entries)
  {
    RestartTracks(s, entries, dec);
    hide Tracks, MetaStep, Listed, InTime, Mergeable, Purges, ReplayStep, ApplyStep, WellFormed, Distinct;
    server := new Server(store, dec, cluster, id, |entries|);
    t := s.(applied := AppliedIndex(s.bucket));
  }

  /** Removing segments keeps the history, under the exact condition for sound metadata. */
  lemma PurgeTracks(s: Served, t: Served, entries: seq<Entry>, dec: Decoders)
    requires Tracks(s, entries, dec) && PurgeStep(s, t)
    requires Mergeable(s.bucket, t.first) || forall j: nat :: Recorded(s.bucket, j) ==> t.first <= j
    ensures Step(s, t) && Tracks(t, entries, dec)
  {
    assert AppliedIndex(t.bucket) == AppliedIndex(s.bucket);
    hide WellMadeEntry, CommandOf, AppliedOf, Mergeable, Purges, PurgeStep;
    PurgeSoundIff(s, t);
    hide Sound;
    forall i | 0 <= i < |entries| ensures Tracked(t, entries, i, dec) {
      assert Tracked(s, entries, i, dec);
    }
  }

  // ---- the stored log ---------------------------------------------------------------

  /** Every entry ever applied, from the first index on, is in the stored log. */
  ghost predicate Holds(log: seq<Entry>, s: Served, entries: seq<Entry>)
  {
    && 1 <= s.first
    && (s.first <= |entries| ==> |entries| + 1 - s.first <= |log|)
    && forall i :: s.first - 1 <= i < |entries| ==> log[i - (s.first - 1)] == entries[i]
  }

  /** The store, its metadata and what was applied belong together. */
  ghost predicate Stocked(store: DiskStorage, s: Served, entries: seq<Entry>, dec: Decoders)
    reads store, store.segments, store.Footprint(), store.meta
  {
    && store.Valid() && store.MetaOk() && s.bucket == store.meta.bucket && s.first == store.FirstIndex()
    && Tracks(s, entries, dec) && Holds(store.Log(), s, entries)
  }

  /** Cutting below nothing that was applied: for the metadata nothing, or a purge that leaves the first index. */
  method CutLog(store: DiskStorage, raftIndex: nat, ghost s: Served, ghost entries: seq<Entry>, ghost dec: Decoders)
    returns (r: Result<()>, ghost t: Served)
    requires Stocked(store, s, entries, dec) && |entries| < raftIndex
    modifies store, store.Footprint(), store.meta
    ensures t.bucket == store.meta.bucket && t.first == s.first && (t == s || PurgeStep(s, t))
    ensures Tracks(t, entries, dec)
    ensures r.Ok? ==> store.Chained() && store.Follows(raftIndex) && Holds(store.Log(), t, entries)
  {
    hide DiskStorage.Valid, DiskStorage.Log, DiskStorage.CanCut, DiskStorage.Chained, FootprintOf;
    hide Tracks, WellFormed, Distinct, Purges, Stuck;
    TracksSound(s, entries, dec);
    r := store.TruncateSuffix(raftIndex);
    t := s.(bucket := store.meta.bucket);
    if t != s {
      CutTracks(s, t, entries, dec);
    }
  }

  lemma TracksSound(s: Served, entries: seq<Entry>, dec: Decoders)
    requires Tracks(s, entries, dec)
    ensures Sound(s) && WellFormed(s.bucket) && s.applied <= |entries| == |s.history|
    ensures forall j: nat :: Recorded(s.bucket, j) ==> s.first <= j <= |entries|
  {
    hide HistoryHonest, EmptyIsFirst, EarlyAccounted, WellFormed, Tracked;
  }

  lemma CutTracks(s: Served, t: Served, entries: seq<Entry>, dec: Decoders)
    requires Tracks(s, entries, dec) && WellFormed(s.bucket) && PurgeStep(s, t) && t.first == s.first
    ensures Tracks(t, entries, dec)
  {
    hide Tracks, WellFormed, PurgeStep;
    TracksSound(s, entries, dec);
    PurgeTracks(s, t, entries, dec);
  }

  /** Purging the stored log moves the first index, and the metadata with it. */
  method PurgeLog(store: DiskStorage, reserve: nat, ghost s: Served, ghost entries: seq<Entry>, ghost dec: Decoders)
    returns (r: Result<()>, ghost t: Served)
    requires Stocked(store, s, entries, dec) && 0 < reserve
    modifies store, store.Footprint(), store.meta
    ensures store.Valid() && t.bucket == store.meta.bucket && t.first == store.FirstIndex() &&
            (t == s || PurgeStep(s, t))
    ensures Stocked(store, t, entries, dec) <==>
              t == s || Mergeable(s.bucket, t.first) || forall j: nat :: Recorded(s.bucket, j) ==> t.first <= j
  {
    hide DiskStorage.Valid, DiskStorage.Chained, LogOf, FootprintOf;
    hide Tracks, WellFormed, Distinct, Purges, Stuck, Mergeable;
    TracksSound(s, entries, dec);
    hide Sound;
    store.Bounds();
    ghost var log := store.Log();
    r := store.PurgeLog(reserve);
    store.Bounds();
    t := s.(first := store.FirstIndex(), bucket := store.meta.bucket);
    if t != s {
      PurgeTracksIff(s, t, entries, dec);
    }
  }

  lemma PurgeTracksIff(s: Served, t: Served, entries: seq<Entry>, dec: Decoders)
    requires Tracks(s, entries, dec) && WellFormed(s.bucket) && PurgeStep(s, t)
    ensures Tracks(t, entries, dec) <==>
              Mergeable(s.bucket, t.first) || forall j: nat :: Recorded(s.bucket, j) ==> t.first <= j
  {
    hide Tracks, WellFormed, PurgeStep, Mergeable;
    TracksSound(s, entries, dec);
    PurgeSoundIff(s, t);
    if Sound(t) {
      PurgeTracks(s, t, entries, dec);
    } else if Tracks(t, entries, dec) {
      TracksSound(t, entries, dec);
    }
  }

  // ---- dumping ----------------------------------------------------------------------

  /** How many stored entries have been applied. */
  function ServedCount(s: Served): nat
  {
    if s.first <= s.applied then s.applied + 1 - s.first else 0
  }

  /** The stored entry at a position carries what the history has there. */
  lemma StoredEntry(s: Served, entries: seq<Entry>, dec: Decoders, log: seq<Entry>, i: nat)
    requires Tracks(s, entries, dec) && Holds(log, s, entries) && s.first + i <= |entries|
    ensures i < |log| && Decodable(log[i]) && log[i].index == s.first + i
    ensures EntryMark(log[i]).GtidMark? <==> s.history[s.first - 1 + i].GtidApplied?
    ensures EntryMark(log[i]).GtidMark? ==> s.history[s.first - 1 + i].gtid == EntryMark(log[i]).gtid
  {
    hide Sound, WellMadeEntry, CommandOf, AppliedOf, Decodable, EntryMark;
    assert log[s.first - 1 + i - (s.first - 1)] == entries[s.first - 1 + i];
    assert Tracked(s, entries, s.first - 1 + i, dec);
    AppliedMark(log[i], dec);
  }

  lemma StoresApplied(s: Served, entries: seq<Entry>, dec: Decoders, log: seq<Entry>)
    requires Tracks(s, entries, dec) && Holds(log, s, entries)
    ensures Sound(s) && WellFormed(s.bucket) && ServedCount(s) <= |log| && Stores(s, log[..ServedCount(s)])
  {
    TracksSound(s, entries, dec);
    assert 1 <= s.first;
    hide Tracks, Sound, Decodable, EntryMark, WellFormed, Holds;
    if ServedCount(s) > 0 {
      StoredEntry(s, entries, dec, log, ServedCount(s) - 1);
    }
    var part := log[..ServedCount(s)];
    forall i | 0 <= i < |part|
      ensures Decodable(part[i]) && part[i].index == s.first + i
      ensures EntryMark(part[i]).GtidMark? <==> s.history[s.first - 1 + i].GtidApplied?
      ensures EntryMark(part[i]).GtidMark? ==> s.history[s.first - 1 + i].gtid == EntryMark(part[i]).gtid
    {
      StoredEntry(s, entries, dec, log, i);
    }
  }

  /** Entry q is part of a stored transaction that the replica lacks. */
  ghost predicate Lacks(log: seq<Entry>, slave: GtidSet, k: nat, q: nat)
    requires AllDecodable(log)
  {
    k <= q < |log| && EntryMark(log[k]).GtidMark? && EntryMark(log[k]).gtid !in slave && InGroupOf(log, k, q)
  }

  lemma LackingIsSent(s: Served, log: seq<Entry>, slave: GtidSet, start: nat, k: nat, q: nat)
    requires Sound(s) && Stores(s, log) && SetAt(s.bucket, Purged) <= slave && StartFor(s.bucket, slave, start)
    requires Lacks(log, slave, k, q)
    ensures var a := start - s.first;
            0 <= a <= |log| && AllDecodable(log[a..]) && EventOf(log[q]).value in Sent(log[a..], slave)
  {
    hide Sound, Stores, StartFor, Decodable, EntryMark, Positions, Sent, InExcludedGroup, EventOf, IsBinlogEvent;
    DumpFromSound(s, log, slave, start, k, q);
    var a := start - s.first;
    SentExactly(log[a..], slave);
    var j :| 0 <= j < |Positions(log[a..], slave)| && Positions(log[a..], slave)[j] == q - a;
    assert log[a..][q - a] == log[q];
    assert Sent(log[a..], slave)[j] == EventOf(log[q]).value;
  }

  /** Every event of every transaction in the log that the replica lacks is among the events. */
  ghost predicate Complete(log: seq<Entry>, slave: GtidSet, events: seq<BinlogEvent>)
  {
    AllDecodable(log) && forall k, q :: 0 <= k <= q && Lacks(log, slave, k, q) ==> EventOf(log[q]).value in events
  }

  /** What the filter lets through of the log from a position on. */
  function SentFrom(log: seq<Entry>, a: nat, slave: GtidSet): seq<BinlogEvent>
    requires AllDecodable(log)
  {
    Sent(if a <= |log| then log[a..] else [], slave)
  }

  lemma AllSent(s: Served, log: seq<Entry>, slave: GtidSet, start: nat, events: seq<BinlogEvent>)
    requires Sound(s) && Stores(s, log) && SetAt(s.bucket, Purged) <= slave && StartFor(s.bucket, slave, start)
    requires s.first <= start && events == SentFrom(log, start - s.first, slave)
    ensures Complete(log, slave, events)
  {
    hide Sound, StartFor, EntryMark, Sent, EventOf;
    forall k, q | 0 <= k <= q && Lacks(log, slave, k, q) ensures EventOf(log[q]).value in events {
      LackingIsSent(s, log, slave, start, k, q);
    }
  }

  /** The applied entries of a stored log that starts at `first`. */
  ghost predicate AppliedPart(log: seq<Entry>, first: nat, applied: nat, part: seq<Entry>)
  {
    && part <= log && AllDecodable(part)
    && |part| == (if first <= applied then applied + 1 - first else 0)
  }

  lemma PartDecodable(log: seq<Entry>, first: nat, applied: nat, part: seq<Entry>)
    requires AppliedPart(log, first, applied, part) && forall i :: 0 <= i < |log| ==> log[i].index == first + i
    ensures DecodableUpTo(log, applied)
  {
    hide Decodable;
    forall i | 0 <= i < |log| && log[i].index <= applied ensures Decodable(log[i]) {
      assert part[i] == log[i];
    }
  }

  lemma ReadIsPart(log: seq<Entry>, first: nat, applied: nat, part: seq<Entry>, start: nat, read: seq<Entry>)
    requires AppliedPart(log, first, applied, part) && first <= start
    requires if start <= applied then read == log[start - first..applied + 1 - first] else read == []
    ensures read == if start - first <= |part| then part[start - first..] else []
  {
    hide AllDecodable;
  }

  /** Reads everything applied, and keeps what the filter lets through. */
  method DumpWith(reader: DiskEntryReader, slave: GtidSet, applied: nat,
                  ghost log: seq<Entry>, ghost first: nat, ghost start: nat, ghost part: seq<Entry>)
    returns (events: seq<BinlogEvent>)
    requires reader.store.Valid() && reader.store.Log() == log && reader.store.FirstIndex() == first
    requires first <= start <= reader.store.LastIndex() && reader.indexReadAt == start && applied < TWO_64 - 1
    requires AppliedPart(log, first, applied, part)
    modifies reader
    ensures events == SentFrom(part, start - first, slave)
  {
    hide DiskStorage.Valid, DiskStorage.Log, DiskStorage.FirstIndex, DiskStorage.LastIndex;
    hide Decodable, Sent, Excluding, DecodableUpTo, AppliedPart;
    StoreFacts(reader.store, applied, part);
    assert forall o :: o in reader.store.Footprint() ==> allocated(o);
    var dump := new Dump(reader, slave);
    var r := dump.CatchUp(applied);
    ReadIsPart(log, first, applied, part, start, dump.read);
    events := dump.sent;
  }

  lemma StoreFacts(store: DiskStorage, applied: nat, part: seq<Entry>)
    requires store.Valid() && AppliedPart(store.Log(), store.FirstIndex(), applied, part)
    ensures DecodableUpTo(store.Log(), applied)
    ensures store.FirstIndex() <= applied ==> applied <= store.LastIndex()
  {
    hide DiskStorage.Valid, DiskStorage.Log, DiskStorage.FirstIndex, DiskStorage.LastIndex, Decodable, DecodableUpTo;
    store.Bounds();
    PartDecodable(store.Log(), store.FirstIndex(), applied, part);
  }

  /** A dump from a start index sends what the filter lets through of the applied entries. */
  method DumpFrom(store: DiskStorage, start: nat, slave: GtidSet, applied: nat, ghost part: seq<Entry>)
    returns (r: Result<seq<BinlogEvent>>)
    requires store.Valid() && applied < TWO_64 - 1
    requires AppliedPart(store.Log(), store.FirstIndex(), applied, part)
    ensures r.Ok? <==> store.FirstIndex() <= start <= store.LastIndex()
    ensures r.Ok? ==> r.value == SentFrom(part, start - store.FirstIndex(), slave)
  {
    hide DiskStorage.Valid, DiskStorage.Log, DiskStorage.FirstIndex, DiskStorage.LastIndex, Decodable, SentFrom;
    hide AppliedPart;
    ghost var log, first := store.Log(), store.FirstIndex();
    assert forall o :: o in store.Footprint() ==> allocated(o);
    var reader := NewEntryReaderAt(store, start);
    if reader.Err? { return Err(reader.error); }
    assert reader.value !in store.Footprint();
    var events := DumpWith(reader.value, slave, applied, log, first, start, part);
    r := Ok(events);
  }

  /** Everything a dump needs before its first event. */
  ghost predicate Welcome(b: Bucket, executed: GtidSet, slave: GtidSet, start: nat)
    requires WellFormed(b)
  {
    && CheckGtidSet(executed, SetAt(b, Purged), slave).Ok?
    && StartFor(b, slave, start) && Described(b, start) && FileNamed(b, start)
  }

  /** The start is where some previous-GTIDs event was applied, so it is stored. */
  lemma StartIsStored(s: Served, entries: seq<Entry>, dec: Decoders, executed: GtidSet, slave: GtidSet, start: nat)
    requires Tracks(s, entries, dec) && WellFormed(s.bucket) && Welcome(s.bucket, executed, slave, start)
    ensures s.first <= start <= |entries| && SetAt(s.bucket, Purged) <= slave && StartFor(s.bucket, slave, start)
  {
    hide Tracks, Described, FileNamed, WellFormed;
    TracksSound(s, entries, dec);
  }

  /** What goes before the events of a dump, and the events. */
  datatype Opening = Opening(start: nat, format: seq<byte>, file: string)

  datatype Reply = Reply(opening: Opening, events: seq<BinlogEvent>)

  /** The opening is what the history says: the last format description and the file name for the start. */
  ghost predicate Opens(s: Served, o: Opening)
  {
    && LastFormat(s.history, Preceding(s.history, o.start)) == Some(o.format) && o.format != []
    && FileFrom(s.history, o.start) == Ok(o.file)
  }

  /** The checks of a dump request. */
  method FindStart(meta: MetaStore, executed: GtidSet, slave: GtidSet, ghost s: Served) returns (r: Result<Opening>)
    requires Sound(s) && WellFormed(s.bucket) && s.bucket == meta.bucket
    ensures r.Ok? <==> exists start: nat :: Welcome(s.bucket, executed, slave, start)
    ensures r.Ok? ==> Welcome(s.bucket, executed, slave, r.value.start) && Opens(s, r.value)
  {
    hide Described, FileNamed, NoneAnnounced, WellFormed, CheckGtidSet, Sids, Restrict, Sound, FileFrom, LastFormat;
    var purged := meta.GetGtidSet(Purged);
    var check := CheckGtidSet(executed, purged, slave);
    if check.Err? { return Err(check.error); }
    var start := meta.GetPreviousGtidSet(slave);
    if start.Err? { return Err(start.error); }
    assert StartFor(meta.bucket, slave, start.value);
    assert forall other: nat :: StartFor(meta.bucket, slave, other) ==> other == start.value;
    var fde := meta.GetFde(start.value);
    if fde.Err? { return Err(fde.error); }
    var fileName := meta.GetNextBinlogFile(start.value);
    if fileName.Err? { return Err(fileName.error); }
    assert Welcome(meta.bucket, executed, slave, start.value);
    FormatFromHistory(s, start.value);
    FileFromHistory(s, start.value, fileName);
    r := Ok(Opening(start.value, fde.value, fileName.value));
  }

  /**
   A replica asks for a dump.  It is served exactly when it passes the GTID check and a start,
   a format description and a file name are known for it.  Then it is sent the last format
   description applied below the start, the file name the rotations give, and every event of
   every applied, stored transaction that it lacks.
   */
  method Serve(store: DiskStorage, executed: GtidSet, slave: GtidSet, applied: nat,
               ghost s: Served, ghost entries: seq<Entry>, ghost dec: Decoders)
    returns (r: Result<Reply>)
    requires Stocked(store, s, entries, dec) && s.applied == applied < TWO_64 - 1
    ensures r.Ok? <==> exists start: nat :: Welcome(s.bucket, executed, slave, start)
    ensures AllDecodable(store.Log()[..ServedCount(s)])
    ensures r.Ok? ==> Complete(store.Log()[..ServedCount(s)], slave, r.value.events)
    ensures r.Ok? ==>
              var start := r.value.opening.start;
              && Welcome(s.bucket, executed, slave, start) && s.first <= start && Opens(s, r.value.opening)
              && r.value.events == SentFrom(store.Log()[..ServedCount(s)], start - s.first, slave)
  {
    hide Sound, DiskStorage.Valid, DiskStorage.Log, DiskStorage.FirstIndex, DiskStorage.LastIndex, Tracks, WellFormed;
    hide Described, FileNamed, Complete, SentFrom, EntryMark, Decodable, CheckGtidSet, StartFor, Opens;
    StoresApplied(s, entries, dec, store.Log());
    ghost var part := store.Log()[..ServedCount(s)];
    store.Bounds();
    assert forall o :: o in store.Footprint() ==> allocated(o);
    var opening := FindStart(store.meta, executed, slave, s);
    if opening.Err? { return Err(opening.error); }
    StartIsStored(s, entries, dec, executed, slave, opening.value.start);
    var events := DumpFrom(store, opening.value.start, slave, applied, part);
    AllSent(s, part, slave, opening.value.start, events.value);
    r := Ok(Reply(opening.value, events.value));
  }
}
