/**
 The whole life of a node: ready batches are stored and queued, committed entries are applied,
 old segments are purged, the process stops and starts again, and in between replicas are
 served.  Joins the raft side of `AppliedPrefix` with the metadata side of `ServedLogs`.
 */
module Lifetimes {
  import opened Bytes
  import opened Gtids
  import opened Messages
  import opened RecordLog
  import opened StorageErrors
  import opened DiskStorages
  import opened MetaStores
  import opened ServedLogs
  import opened Appliers
  import opened Serving
  import RaftNodes
  import Raft = AppliedPrefix

  /** The raft and apply loops of this process, the metadata, and every entry ever applied. */
  datatype Site = Site(raft: Raft.System, served: Served, entries: seq<Entry>)

  // ---- steps ------------------------------------------------------------------------

  /**
   What raft promises beyond one process: an entry that was ever applied is not overwritten and is
   the one committed at its index again, and the first index of a log is 1.
   */
  ghost predicate Lasting(x: Site, ents: seq<Entry>, comm: seq<Entry>)
    requires comm != [] ==> comm[0].index <= Raft.CommitIndex(x.raft) + 1
  {
    && (ents != [] ==> |x.entries| < ents[0].index)
    && (ents != [] && x.raft.log == [] ==> ents[0].index == 1)
    && Agrees(Raft.News(comm, Raft.CommitIndex(x.raft)), Raft.CommitIndex(x.raft), x.entries)
  }

  /** Committed entries beyond `base` are those applied before, as far as those go. */
  ghost predicate Agrees(committed: seq<Entry>, base: nat, entries: seq<Entry>)
  {
    forall i :: 0 <= i < |committed| && base + i < |entries| ==> committed[i] == entries[base + i]
  }

  /** A ready batch; where it cuts across segments, the metadata takes a purge that leaves the first index. */
  ghost predicate Ready(x: Site, y: Site, ents: seq<Entry>, comm: seq<Entry>)
    requires WellFormed(x.served.bucket)
  {
    && Raft.ReadyStep(x.raft, y.raft, ents, comm) && Lasting(x, ents, comm)
    && y.entries == x.entries
    && (y.served == x.served || (PurgeStep(x.served, y.served) && y.served.first == x.served.first))
  }

  ghost predicate Take(x: Site, y: Site)
  {
    Raft.TakeStep(x.raft, y.raft) && y.entries == x.entries && y.served == x.served
  }

  /** The entry can be applied now: it decodes, and no purge has overtaken it. */
  ghost predicate Fit(x: Site, e: Entry, dec: Decoders)
    requires WellFormed(x.served.bucket)
  {
    && e.index < TWO_64 && WellMadeEntry(e) && CommandOf(e, dec).Some?
    && if x.served.applied < |x.entries| then x.served.first <= e.index
       else Listed(x.served, AppliedOf(e, dec)) && InTime(x.served, AppliedOf(e, dec))
  }

  ghost predicate Apply(x: Site, y: Site, dec: Decoders)
    requires WellFormed(x.served.bucket)
  {
    && Raft.ApplyStep(x.raft, y.raft)
    && var e := x.raft.applying[0];
    && Fit(x, e, dec) && Leaves(x.served, e, dec, y.served.bucket)
    && y.served == AfterApply(x.served, x.entries, e, dec, y.served.bucket)
    && y.entries == AfterEntry(x.entries, x.served.applied, e)
  }

  ghost predicate Purge(x: Site, y: Site, n: nat)
    requires WellFormed(x.served.bucket)
  {
    && Raft.PurgeStep(x.raft, y.raft, n) && PurgeStep(x.served, y.served)
    && y.served.first == y.raft.log[0].index && y.entries == x.entries
    && (Mergeable(x.served.bucket, y.served.first) ||
        forall j: nat :: Recorded(x.served.bucket, j) ==> y.served.first <= j)
  }

  /** The process starts again with the stored log, the stored metadata and the stored applied index. */
  ghost predicate Restarted(x: Site, y: Site)
    requires WellFormed(x.served.bucket)
  {
    && var base := AppliedIndex(x.served.bucket);
    && y.raft == Raft.System(x.raft.log, base, [], [], [], base, [])
    && y.served == x.served.(applied := base) && y.entries == x.entries
  }

  ghost predicate SiteStep(x: Site, y: Site, dec: Decoders)
    requires WellFormed(x.served.bucket)
  {
    || (exists ents, comm :: Ready(x, y, ents, comm))
    || Take(x, y)
    || Apply(x, y, dec)
    || (exists n :: Purge(x, y, n))
    || Restarted(x, y)
  }

  // ---- the invariant ----------------------------------------------------------------

  ghost predicate Linked(x: Site)
  {
    && x.served.applied == x.raft.applied
    && x.served.first == (if x.raft.log == [] then 1 else x.raft.log[0].index)
    && (x.raft.log == [] ==> x.entries == [])
    && Holds(x.raft.log, x.served, x.entries)
    && Agrees(x.raft.committed, x.raft.base, x.entries)
  }

  ghost predicate SiteInv(x: Site, dec: Decoders)
  {
    Raft.Inv(x.raft) && Tracks(x.served, x.entries, dec) && Linked(x)
  }

  lemma SiteTracks(x: Site, dec: Decoders)
    requires SiteInv(x, dec)
    ensures WellFormed(x.served.bucket) && x.served.applied <= |x.entries|
    ensures AppliedIndex(x.served.bucket) <= |x.entries|
  {
    hide Sound, WellFormed, Raft.Inv, Linked, Tracked;
    TracksSound(x.served, x.entries, dec);
  }

  /** New entries behind everything ever applied leave it where it is. */
  lemma AppendedHolds(log: seq<Entry>, ents: seq<Entry>, s: Served, entries: seq<Entry>)
    requires Contiguous(log) && RaftNodes.Acceptable(log, ents) && Holds(log, s, entries)
    requires s.first == (if log == [] then 1 else log[0].index) && (log == [] ==> entries == [])
    requires ents != [] ==> |entries| < ents[0].index
    ensures Holds(RaftNodes.Appended(log, ents), s, entries)
  {
    var next := RaftNodes.Appended(log, ents);
    RaftNodes.AppendedContiguous(log, ents);
    forall i | s.first - 1 <= i < |entries| ensures i + 1 - s.first < |next| && next[i + 1 - s.first] == entries[i] {
      assert log[i - (s.first - 1)] == entries[i];
      Raft.AppendedKeeps(log, ents, i + 1);
    }
    hide RaftNodes.Appended, RaftNodes.Acceptable, Contiguous;
    if s.first <= |entries| {
      assert |entries| - 1 + 1 - s.first < |next|;
    }
  }

  lemma AgreesConcat(committed: seq<Entry>, news: seq<Entry>, base: nat, entries: seq<Entry>)
    requires Agrees(committed, base, entries) && Agrees(news, base + |committed|, entries)
    ensures Agrees(committed + news, base, entries)
  {
    var all := committed + news;
    forall i | 0 <= i < |all| && base + i < |entries| ensures all[i] == entries[base + i] {
      if i >= |committed| {
        assert base + |committed| + (i - |committed|) == base + i;
      }
    }
  }

  lemma ReadyLinked(x: Site, y: Site, ents: seq<Entry>, comm: seq<Entry>)
    requires Raft.LogSound(x.raft) && Linked(x) && WellFormed(x.served.bucket) && Ready(x, y, ents, comm)
    ensures Linked(y)
  {
    var news := Raft.News(comm, Raft.CommitIndex(x.raft));
    RaftNodes.AppendedContiguous(x.raft.log, ents);
    hide Purges, WellFormed, Raft.AllKnown, Raft.Known, Raft.News, Agrees, RaftNodes.Acceptable, Contiguous;
    AppendedHolds(x.raft.log, ents, x.served, x.entries);
    AgreesConcat(x.raft.committed, news, x.raft.base, x.entries);
    HoldsSame(y.raft.log, x.served, y.served, x.entries);
    hide Holds;
  }

  lemma HoldsSame(log: seq<Entry>, s: Served, t: Served, entries: seq<Entry>)
    requires Holds(log, s, entries) && t.first == s.first
    ensures Holds(log, t, entries)
  {
  }

  lemma ReadyKeeps(x: Site, y: Site, ents: seq<Entry>, comm: seq<Entry>, dec: Decoders)
    requires SiteInv(x, dec) && WellFormed(x.served.bucket) && Ready(x, y, ents, comm)
    ensures SiteInv(y, dec)
  {
    ReadyLinked(x, y, ents, comm);
    hide Tracks, Linked, WellFormed, PurgeStep, Raft.LogSound, Raft.ApplySound, Raft.RaftPromise;
    Raft.ReadyKeeps(x.raft, y.raft, ents, comm);
    if y.served != x.served {
      CutTracks(x.served, y.served, x.entries, dec);
    }
  }

  lemma HoldsSnoc(log: seq<Entry>, s: Served, t: Served, entries: seq<Entry>, e: Entry)
    requires Holds(log, s, entries) && t.first == s.first
    requires s.first <= |entries| + 1 ==> |entries| + 1 - s.first < |log| && log[|entries| + 1 - s.first] == e
    ensures Holds(log, t, entries + [e])
  {
    var all := entries + [e];
    forall i | t.first - 1 <= i < |all| ensures log[i - (t.first - 1)] == all[i] {
      if i < |entries| { assert log[i - (s.first - 1)] == entries[i]; }
    }
  }

  lemma AgreesSnoc(committed: seq<Entry>, base: nat, entries: seq<Entry>, e: Entry)
    requires Agrees(committed, base, entries)
    requires base <= |entries| && |entries| - base < |committed| ==> committed[|entries| - base] == e
    ensures Agrees(committed, base, entries + [e])
  {
  }

  /** The next entry to be applied is in the log. */
  lemma NextIsStored(x: Raft.System)
    requires Raft.LogSound(x) && x.base <= x.applied < Raft.CommitIndex(x)
    ensures x.log != [] && x.committed[x.applied - x.base].index == x.applied + 1
    ensures x.log[0].index <= x.applied + 1 ==>
              && x.applied + 1 - x.log[0].index < |x.log|
              && x.log[x.applied + 1 - x.log[0].index] == x.committed[x.applied - x.base]
  {
    var i := x.applied - x.base;
    if x.log != [] && x.log[0].index <= x.applied + 1 {
      assert Raft.At(x.log, x.base + 1 + i) == x.committed[i];
    }
  }

  lemma ApplyLinked(x: Site, y: Site, dec: Decoders)
    requires Raft.LogSound(x.raft) && Linked(x) && WellFormed(x.served.bucket) && Apply(x, y, dec)
    requires x.raft.base <= x.raft.applied < Raft.CommitIndex(x.raft)
    requires x.raft.applying[0] == x.raft.committed[x.raft.applied - x.raft.base]
    requires x.served.applied <= |x.entries| && y.raft.applied == x.raft.applied + 1
    ensures Linked(y)
  {
    hide WellFormed, Leaves, Fit, Raft.LogSound, CommandOf, AppliedOf;
    NextIsStored(x.raft);
    hide Holds, Agrees;
    var e := x.raft.applying[0];
    if x.served.applied < |x.entries| {
      HoldsSame(x.raft.log, x.served, y.served, x.entries);
    } else {
      HoldsSnoc(x.raft.log, x.served, y.served, x.entries, e);
      AgreesSnoc(x.raft.committed, x.raft.base, x.entries, e);
    }
  }

  lemma ApplyKeeps(x: Site, y: Site, dec: Decoders)
    requires SiteInv(x, dec) && WellFormed(x.served.bucket) && Apply(x, y, dec)
    ensures SiteInv(y, dec)
  {
    hide Tracks, WellFormed, Leaves, Listed, InTime, CommandOf, AppliedOf, WellMadeEntry, Raft.LogSound,
         Raft.Continues, Holds;
    SiteTracks(x, dec);
    var e := x.raft.applying[0];
    Raft.ApplyKeeps(x.raft, y.raft);
    assert e == x.raft.committed[x.raft.applied - x.raft.base];
    ApplyLinked(x, y, dec);
    assert e.index == x.raft.applied + 1;
    assert Next(x.served, x.entries, e, dec);
    EntryStep(x.served, x.entries, e, dec, y.served.bucket);
  }

  lemma PurgeKeeps(x: Site, y: Site, n: nat, dec: Decoders)
    requires SiteInv(x, dec) && WellFormed(x.served.bucket) && Purge(x, y, n)
    ensures SiteInv(y, dec)
  {
    PurgeTracks(x.served, y.served, x.entries, dec);
    Raft.PurgeKeeps(x.raft, y.raft, n);
    hide Tracks, WellFormed, Mergeable, Purges, Raft.ApplySound;
    assert y.served.first == x.served.first + n;
  }

  /** The stored applied index is inside the stored log. */
  lemma RestartInit(log: seq<Entry>, base: nat, s: Served, entries: seq<Entry>)
    requires Contiguous(log) && Holds(log, s, entries) && base <= |entries|
    requires s.first == (if log == [] then 1 else log[0].index) && (log == [] ==> entries == [])
    ensures Raft.Inv(Raft.System(log, base, [], [], [], base, []))
  {
    var x := Raft.System(log, base, [], [], [], base, []);
    assert Raft.Init(x);
    hide Holds, Contiguous;
    Raft.InitInv(x);
  }

  lemma RestartKeepsSite(x: Site, y: Site, dec: Decoders)
    requires SiteInv(x, dec) && WellFormed(x.served.bucket) && Restarted(x, y)
    ensures SiteInv(y, dec)
  {
    SiteTracks(x, dec);
    assert Contiguous(x.raft.log);
    hide Raft.Inv, Tracks, WellFormed, Contiguous;
    RestartTracks(x.served, x.entries, dec);
    RestartInit(x.raft.log, AppliedIndex(x.served.bucket), x.served, x.entries);
    HoldsSame(x.raft.log, x.served, y.served, x.entries);
    hide Holds, AppliedIndex;
    assert Agrees(y.raft.committed, y.raft.base, y.entries);
  }

  lemma SiteStepKeeps(x: Site, y: Site, dec: Decoders)
    requires SiteInv(x, dec) && WellFormed(x.served.bucket) && SiteStep(x, y, dec)
    ensures SiteInv(y, dec)
  {
    hide SiteInv, Ready, Take, Apply, Purge, Restarted, WellFormed;
    if ents, comm :| Ready(x, y, ents, comm) {
      ReadyKeeps(x, y, ents, comm, dec);
    } else if n :| Purge(x, y, n) {
      PurgeKeeps(x, y, n, dec);
    } else if Take(x, y) {
      TakeKeeps(x, y, dec);
    } else if Apply(x, y, dec) {
      ApplyKeeps(x, y, dec);
    } else {
      RestartKeepsSite(x, y, dec);
    }
  }

  lemma TakeKeeps(x: Site, y: Site, dec: Decoders)
    requires SiteInv(x, dec) && Take(x, y)
    ensures SiteInv(y, dec)
  {
    hide Tracks, Raft.LogSound, Raft.ApplySound;
    Raft.TakeKeeps(x.raft, y.raft);
  }

  // ---- runs -------------------------------------------------------------------------

  const EMPTY_SITE := Site(Raft.System([], 0, [], [], [], 0, []), NOTHING_SERVED, [])

  ghost predicate SiteStepAt(run: seq<Site>, i: nat, dec: Decoders)
    requires i + 1 < |run|
  {
    WellFormed(run[i].served.bucket) && SiteStep(run[i], run[i + 1], dec)
  }

  /** A node's life from an empty directory on, over any number of processes. */
  ghost predicate IsLife(run: seq<Site>, dec: Decoders)
  {
    run != [] && run[0] == EMPTY_SITE && forall i :: 0 <= i < |run| - 1 ==> SiteStepAt(run, i, dec)
  }

  lemma EmptySiteInv(dec: Decoders)
    ensures SiteInv(EMPTY_SITE, dec)
  {
    StartSound();
    Raft.InitInv(EMPTY_SITE.raft);
  }

  lemma {:induction false} LifeInv(run: seq<Site>, n: nat, dec: Decoders)
    requires IsLife(run, dec) && n < |run|
    ensures SiteInv(run[n], dec)
    decreases n
  {
    hide SiteInv, SiteStep, WellFormed;
    if n == 0 {
      EmptySiteInv(dec);
    } else {
      LifeInv(run, n - 1, dec);
      assert SiteStepAt(run, n - 1, dec);
      SiteStepKeeps(run[n - 1], run[n], dec);
    }
  }

  /**
   Over a whole life, restarts and replays included: the history is what the entries mean that were
   ever applied, the metadata is sound for it, and each of those entries is in the stored log, at
   its index, unless it is purged.
   */
  lemma AppliedStaysStored(run: seq<Site>, n: nat, dec: Decoders)
    requires IsLife(run, dec) && n < |run|
    ensures var x := run[n];
            && Tracks(x.served, x.entries, dec) && Holds(x.raft.log, x.served, x.entries)
            && x.served.applied == x.raft.applied <= |x.entries|
            && x.served.first == if x.raft.log == [] then 1 else x.raft.log[0].index
  {
    hide IsLife, Raft.Inv, Holds, Tracks;
    LifeInv(run, n, dec);
    SiteTracks(run[n], dec);
  }

  /**
   At any moment of any life, whatever replica asks is served exactly when it is welcome, and is
   then sent the format description and the file name of its start, as the applied events tell
   them, and every event of every applied, stored transaction that it lacks.
   */
  method ServeInLife(store: DiskStorage, executed: GtidSet, slave: GtidSet, applied: nat,
                     ghost run: seq<Site>, ghost n: nat, ghost dec: Decoders)
    returns (r: Result<Reply>)
    requires IsLife(run, dec) && n < |run| && run[n].raft.applied == applied < TWO_64 - 1
    requires store.Valid() && store.MetaOk()
    requires store.Log() == run[n].raft.log && store.meta.bucket == run[n].served.bucket
    ensures WellFormed(run[n].served.bucket)
    ensures r.Ok? <==> exists start: nat :: Welcome(run[n].served.bucket, executed, slave, start)
    ensures r.Ok? ==> ServedCount(run[n].served) <= |run[n].raft.log|
    ensures r.Ok? ==> Complete(run[n].raft.log[..ServedCount(run[n].served)], slave, r.value.events)
    ensures r.Ok? ==> Opens(run[n].served, r.value.opening)
  {
    hide IsLife, DiskStorage.Valid, DiskStorage.Log, DiskStorage.FirstIndex, Tracks, Holds, Complete, Welcome,
         WellFormed, Distinct, Opens;
    AppliedStaysStored(run, n, dec);
    store.Bounds();
    ghost var s, entries := run[n].served, run[n].entries;
    StoresApplied(s, entries, dec, store.Log());
    r := Serve(store, executed, slave, applied, s, entries, dec);
  }
}
