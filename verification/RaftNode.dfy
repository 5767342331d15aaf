/** How the raft loop writes its log: cut what the batch overwrites, then append the batch. */
module RaftNodes {
  import opened Messages
  import opened RecordLog
  import opened StorageErrors
  import opened Segments
  import opened DiskStorages
  import MetaStores

  /** The entries of a contiguous log with an index below i. */
  function Below(log: seq<Entry>, i: nat): (kept: seq<Entry>)
  {
    if log == [] || i <= log[0].index then []
    else if i - log[0].index <= |log| then log[..i - log[0].index]
    else log
  }

  /** The log after a batch arrives: the batch replaces everything from its first index on. */
  function Appended(log: seq<Entry>, batch: seq<Entry>): (next: seq<Entry>)
  {
    if batch == [] then log else Below(log, batch[0].index) + batch
  }

  /** What raft hands over: a contiguous run starting inside the log or right behind it. */
  ghost predicate Acceptable(log: seq<Entry>, batch: seq<Entry>)
  {
    && AllStorable(batch) && Contiguous(batch)
    && (batch != [] && log != [] ==> log[0].index <= batch[0].index <= log[0].index + |log|)
  }

  /** The log after a run of batches, starting from nothing. */
  function Replay(batches: seq<seq<Entry>>): (log: seq<Entry>)
  {
    if batches == [] then [] else Appended(Replay(batches[..|batches| - 1]), batches[|batches| - 1])
  }

  ghost predicate AcceptableRun(batches: seq<seq<Entry>>)
  {
    forall i :: 0 <= i < |batches| ==> Acceptable(Replay(batches[..i]), batches[i])
  }

  /** An accepted batch leaves a gap-free log that starts where it did. */
  lemma AppendedContiguous(log: seq<Entry>, batch: seq<Entry>)
    requires Contiguous(log) && Acceptable(log, batch)
    ensures Contiguous(Appended(log, batch))
    ensures log != [] && batch != [] && log[0].index < batch[0].index ==> Appended(log, batch)[0] == log[0]
    ensures log != [] ==> Appended(log, batch) != [] && Appended(log, batch)[0].index == log[0].index
  {
    if batch != [] && log != [] {
      var kept, next := Below(log, batch[0].index), Appended(log, batch);
      assert kept == log[..|kept|] && |kept| == batch[0].index - log[0].index;
      forall i | 0 <= i < |next| ensures next[i].index == next[0].index + i {
        if i < |kept| { assert next[i] == log[i]; } else { assert next[i] == batch[i - |kept|]; }
      }
    }
  }

  lemma AppendedSound(log: seq<Entry>, batch: seq<Entry>)
    requires Contiguous(log) && AllStorable(log) && Acceptable(log, batch)
    ensures Contiguous(Appended(log, batch)) && AllStorable(Appended(log, batch))
  {
    AppendedContiguous(log, batch);
    if batch != [] && log != [] {
      var kept := Below(log, batch[0].index);
      assert kept == log[..|kept|];
    }
  }

  lemma {:induction false} ReplaySound(batches: seq<seq<Entry>>)
    requires AcceptableRun(batches)
    ensures Contiguous(Replay(batches)) && AllStorable(Replay(batches))
  {
    if batches != [] {
      var n := |batches| - 1;
      RunPrefix(batches);
      ReplaySound(batches[..n]);
      AppendedSound(Replay(batches[..n]), batches[n]);
    }
  }

  /** Batch j delivered e and no later batch reached back to its index. */
  ghost predicate Survives(batches: seq<seq<Entry>>, j: nat, e: Entry)
    requires j < |batches|
  {
    e in batches[j] && forall k :: j < k < |batches| && batches[k] != [] ==> e.index < batches[k][0].index
  }

  lemma BelowMembers(log: seq<Entry>, i: nat, e: Entry)
    requires Contiguous(log)
    ensures e in Below(log, i) <==> e in log && e.index < i
  {
    if e in log {
      var k :| 0 <= k < |log| && log[k] == e;
      if e.index < i { assert Below(log, i)[k] == e; }
    }
  }

  lemma SurvivesSnoc(front: seq<seq<Entry>>, batch: seq<Entry>, e: Entry)
    ensures (exists j :: 0 <= j <= |front| && Survives(front + [batch], j, e)) <==>
            || e in batch
            || ((batch == [] || e.index < batch[0].index) && exists j :: 0 <= j < |front| && Survives(front, j, e))
  {
    var all := front + [batch];
    if e in batch { assert Survives(all, |front|, e); }
    if j :| 0 <= j < |front| && Survives(front, j, e) && (batch == [] || e.index < batch[0].index) {
      assert all[j] == front[j];
      forall k | j < k < |all| && all[k] != [] ensures e.index < all[k][0].index {
        if k < |front| { assert all[k] == front[k]; }
      }
      assert Survives(all, j, e);
    }
    if j :| 0 <= j < |front| && Survives(all, j, e) {
      assert all[j] == front[j] && all[|front|] == batch;
      forall k | j < k < |front| && front[k] != [] ensures e.index < front[k][0].index {
        assert all[k] == front[k];
      }
      assert Survives(front, j, e);
    }
  }

  lemma RunPrefix(batches: seq<seq<Entry>>)
    requires batches != [] && AcceptableRun(batches)
    ensures AcceptableRun(batches[..|batches| - 1])
  {
    var front := batches[..|batches| - 1];
    forall i | 0 <= i < |front| ensures Acceptable(Replay(front[..i]), front[i]) {
      assert front[..i] == batches[..i];
    }
  }

  /** An entry is in the log exactly when some batch delivered it and none since overwrote it. */
  lemma {:induction false} ReplayMembers(batches: seq<seq<Entry>>, e: Entry)
    requires AcceptableRun(batches)
    ensures e in Replay(batches) <==> exists j :: 0 <= j < |batches| && Survives(batches, j, e)
  {
    hide Survives, AcceptableRun, Contiguous, AllStorable, Below;
    if batches != [] {
      var n := |batches| - 1;
      var front, batch := batches[..n], batches[n];
      RunPrefix(batches);
      ReplayMembers(front, e);
      ReplaySound(front);
      if batch != [] { BelowMembers(Replay(front), batch[0].index, e); }
      SurvivesSnoc(front, batch, e);
      assert batches == front + [batch];
    }
  }

  /** All batches one after another, also where they overwrite each other. */
  function Joined(batches: seq<seq<Entry>>): seq<Entry>
  {
    if batches == [] then [] else Joined(batches[..|batches| - 1]) + batches[|batches| - 1]
  }

  /** The log of every prefix of the run fits a file. */
  ghost predicate StaysSmall(enc: Encoder, size: nat, batches: seq<seq<Entry>>)
  {
    forall i :: 0 <= i <= |batches| ==> |EncodeLog(enc, Replay(batches[..i]))| <= size
  }

  lemma BelowShorter(enc: Encoder, log: seq<Entry>, i: nat)
    ensures |EncodeLog(enc, Below(log, i))| <= |EncodeLog(enc, log)|
  {
    var kept := Below(log, i);
    assert kept == log[..|kept|] && log == kept + log[|kept|..];
    EncodeConcat(enc, kept, log[|kept|..]);
  }

  lemma {:induction false} ReplayShorter(enc: Encoder, batches: seq<seq<Entry>>)
    ensures |EncodeLog(enc, Replay(batches))| <= |EncodeLog(enc, Joined(batches))|
  {
    hide EncodeLog, Below;
    if batches != [] {
      var n := |batches| - 1;
      var front, batch := batches[..n], batches[n];
      ReplayShorter(enc, front);
      EncodeConcat(enc, Joined(front), batch);
      if batch != [] {
        BelowShorter(enc, Replay(front), batch[0].index);
        EncodeConcat(enc, Below(Replay(front), batch[0].index), batch);
      }
    }
  }

  /** Batches whose joined encoding fits a file stay small all along. */
  lemma JoinedSmall(enc: Encoder, size: nat, batches: seq<seq<Entry>>)
    requires |EncodeLog(enc, Joined(batches))| <= size
    ensures StaysSmall(enc, size, batches)
  {
    hide EncodeLog, Replay, Joined;
    forall i | 0 <= i <= |batches| ensures |EncodeLog(enc, Replay(batches[..i]))| <= size {
      ReplayShorter(enc, batches[..i]);
      JoinedGrows(enc, batches, i);
    }
  }

  lemma {:induction false} JoinedGrows(enc: Encoder, batches: seq<seq<Entry>>, i: nat)
    requires i <= |batches|
    ensures |EncodeLog(enc, Joined(batches[..i]))| <= |EncodeLog(enc, Joined(batches))|
    decreases |batches|
  {
    hide EncodeLog;
    if i == |batches| {
      assert batches[..i] == batches;
    } else {
      var n := |batches| - 1;
      JoinedGrows(enc, batches[..n], i);
      assert batches[..n][..i] == batches[..i];
      EncodeConcat(enc, Joined(batches[..n]), batches[n]);
    }
  }

  lemma ReplayNone(batches: seq<seq<Entry>>)
    ensures Replay(batches[..0]) == []
  {
  }

  lemma ReplayNext(batches: seq<seq<Entry>>, i: nat)
    requires i < |batches|
    ensures Replay(batches[..i + 1]) == Appended(Replay(batches[..i]), batches[i])
  {
    hide Appended;
    assert batches[..i + 1][..i] == batches[..i];
  }

  lemma SmallNext(enc: Encoder, size: nat, batches: seq<seq<Entry>>, i: nat)
    requires i < |batches| && StaysSmall(enc, size, batches)
    ensures |EncodeLog(enc, Appended(Replay(batches[..i]), batches[i]))| <= size
  {
    ReplayNext(batches, i);
  }

  class Node {
    const storage: DiskStorage

    constructor (storage: DiskStorage)
      ensures this.storage == storage
    {
      this.storage := storage;
    }

    /**
     On success the stored log is exactly Appended(old log, entries).  Failure has three causes:
     metadata that cannot be updated when the batch overwrites whole segments, an overwritten
     segment whose write position is not known, and a batch too big for a file.
     */
    method AppendRaftEntries(entries: seq<Entry>) returns (r: Result<()>)
      requires storage.Valid() && storage.MetaOk() && Acceptable(storage.Log(), entries)
      modifies storage, storage.Footprint(), storage.meta
      ensures storage.MetaOk()
      ensures r == if entries == [] then Ok(())
                   else if old(Overwrites(entries) && storage.CutsAcross(entries[0].index) && storage.MetaStuck())
                   then Err(Fatal)
                   else if old(Overwrites(entries) && !storage.CanCut(entries[0].index)) then Err(ErrOutOfBound)
                   else if storage.segmentSize < |EncodeLog(storage.enc, entries)| then Err(Fatal)
                   else Ok(())
      ensures if old(Overwrites(entries) && storage.CutsAcross(entries[0].index))
              then MetaStores.Purges(old(storage.meta.bucket), storage.meta.bucket, old(storage.FirstIndex()))
              else storage.meta.bucket == old(storage.meta.bucket)
      ensures r.Ok? ==> storage.Valid() && storage.Log() == Appended(old(storage.Log()), entries)
      ensures r.Ok? && entries != [] ==>
                if old(Overwrites(entries))
                then PlacedAfterCut(old(storage.segments), old(storage.Starts()), old(storage.Logs()), entries)
                else storage.Placed(old(storage.segments), old(storage.Tail()), entries)
      ensures entries == [] ==> storage.segments == old(storage.segments)
      ensures forall o :: o in storage.Footprint() ==> o in old(storage.Footprint()) || fresh(o)
    {
      hide DiskStorage.Valid, DiskStorage.Chained, LogOf, EncodeLog, FootprintOf, Below;
      hide MetaStores.Purges, MetaStores.Stuck, MetaStores.WellFormed, MetaStores.Distinct;
      hide DiskStorage.CanCut, DiskStorage.CutsAcross, DiskStorage.LastIndex, DiskStorage.FirstIndex;
      hide DiskStorage.Starts, DiskStorage.Logs, DiskStorage.Placed, DiskStorage.Tail, Acceptable;
      if entries == [] { return Ok(()); }
      assert AllStorable(entries) && Contiguous(entries) by { AcceptableBatch(storage.Log(), entries); }
      r := CutBack(entries);
      if r.Err? { return; }
      ghost var between := storage.Footprint();
      storage.MetaApart();
      ghost var segs, tail := storage.segments, storage.Tail();
      label saving:
      r := storage.SaveRaftEntries(entries);
      if r.Ok? && old(Overwrites(entries)) {
        assert PlacedAt(old(storage.segments), old(storage.Starts()), old(storage.Logs()), entries, |segs| - 1);
      }
      forall o | o in storage.Footprint() && o !in old(storage.Footprint())
        ensures fresh(o)
      {
        assert o !in between && fresh@saving(o);
      }
    }

    lemma AcceptableBatch(log: seq<Entry>, entries: seq<Entry>)
      requires Acceptable(log, entries)
      ensures AllStorable(entries) && Contiguous(entries)
    {
    }

    /** The segments are first cut at the batch, and what is left of the last one decides where the batch goes. */
    ghost predicate PlacedAfterCut(before: seq<Segment>, starts: seq<nat>, logs: seq<seq<Entry>>, entries: seq<Entry>)
      requires |before| == |starts| == |logs| && entries != []
      reads storage, storage.segments
    {
      exists n :: 0 <= n < |before| && PlacedAt(before, starts, logs, entries, n)
    }

    ghost predicate PlacedAt(before: seq<Segment>, starts: seq<nat>, logs: seq<seq<Entry>>, entries: seq<Entry>, n: nat)
      requires n < |before| == |starts| == |logs| && entries != []
      reads storage, storage.segments
    {
      && starts[n] <= entries[0].index < starts[n] + |logs[n]|
      && storage.Placed(before[..n + 1], logs[n][..entries[0].index - starts[n]], entries)
    }

    /** Makes room for a batch: whatever it overwrites is cut off the log. */
    method CutBack(entries: seq<Entry>) returns (r: Result<()>)
      requires storage.Valid() && storage.MetaOk() && Acceptable(storage.Log(), entries) && entries != []
      modifies storage, storage.Footprint(), storage.meta
      ensures storage.MetaOk()
      ensures r == if old(Overwrites(entries) && storage.CutsAcross(entries[0].index) && storage.MetaStuck())
                   then Err(Fatal)
                   else if old(Overwrites(entries) && !storage.CanCut(entries[0].index)) then Err(ErrOutOfBound)
                   else Ok(())
      ensures if old(Overwrites(entries) && storage.CutsAcross(entries[0].index))
              then MetaStores.Purges(old(storage.meta.bucket), storage.meta.bucket, old(storage.FirstIndex()))
              else storage.meta.bucket == old(storage.meta.bucket)
      ensures r.Ok? ==> storage.Chained() && storage.Follows(entries[0].index)
      ensures r.Ok? ==> storage.Log() == Below(old(storage.Log()), entries[0].index)
      ensures r.Ok? ==>
                if old(Overwrites(entries))
                then storage.CutFrom(old(storage.segments), old(storage.Starts()), old(storage.Logs()),
                    entries[0].index)
                else storage.segments == old(storage.segments) && storage.Tail() == old(storage.Tail())
      ensures storage.Footprint() <= old(storage.Footprint())
    {
      hide DiskStorage.Chained, LogOf, FootprintOf, DiskStorage.CutFrom, DiskStorage.Starts, DiskStorage.Logs;
      hide MetaStores.Purges, MetaStores.Stuck, MetaStores.WellFormed, MetaStores.Distinct;
      storage.Bounds();
      NextIsFollowing();
      var lastIndex := storage.LastIndex();
      r := Ok(());
      if lastIndex >= entries[0].index {
        r := storage.TruncateSuffix(entries[0].index);
      }
    }

    /** The batch starts inside the stored log. */
    ghost predicate Overwrites(entries: seq<Entry>)
      reads storage, storage.segments
    {
      entries != [] && storage.LastIndex() >= entries[0].index
    }

    lemma NextIsFollowing()
      requires storage.Valid()
      ensures storage.segments != [] ==> storage.Follows(storage.LastIndex() + 1)
      ensures storage.segments == [] ==> forall i :: storage.Follows(i)
    {
    }

    /** The log the batches before some batch describe starts where the metadata cannot be updated. */
    ghost predicate MeetsStuck(batches: seq<seq<Entry>>, bucket: MetaStores.Bucket)
    {
      exists i :: 0 <= i < |batches| && StuckAt(batches, i, bucket)
    }

    ghost predicate StuckAt(batches: seq<seq<Entry>>, i: nat, bucket: MetaStores.Bucket)
      requires i < |batches|
    {
      var log := Replay(batches[..i]);
      log != [] && MetaStores.Stuck(bucket, log[0].index)
    }

    /**
     Every run of acceptable batches that fit a file, on a store created in this run, leaves
     exactly the log the batches describe, with its bounds.  It can end early only where the
     metadata has a recorded set that cannot be merged.
     */
    method AppendAll(batches: seq<seq<Entry>>) returns (r: Result<()>)
      requires storage.Valid() && storage.MetaOk() && storage.live && storage.Log() == []
      requires AcceptableRun(batches)
      requires forall i :: 0 <= i < |batches| ==> |EncodeLog(storage.enc, batches[i])| <= storage.segmentSize
      modifies storage, storage.Footprint(), storage.meta
      ensures r.Ok? ==> storage.Valid() && storage.Log() == Replay(batches)
      ensures r.Ok? ==> var log := Replay(batches);
                        storage.LastIndex() == if log == [] then 0 else log[|log| - 1].index
      ensures r.Ok? ==> storage.FirstIndex() == if Replay(batches) == [] then 1 else Replay(batches)[0].index
      ensures r.Err? ==> r.error == Fatal && MeetsStuck(batches, old(storage.meta.bucket))
      ensures r.Ok? && StaysSmall(storage.enc, storage.segmentSize, batches) ==> |storage.segments| <= 1
      ensures storage.MetaOk()
      ensures forall o :: o in storage.Footprint() ==> o in old(storage.Footprint()) || fresh(o)
    {
      hide DiskStorage.Valid, LogOf, EncodeLog, FootprintOf, AcceptableRun, Appended, Replay, MetaStores.Stuck;
      hide MetaStores.Purges, MetaStores.WellFormed, MetaStores.Distinct, DiskStorage.FirstIndex, DiskStorage.LastIndex;
      ReplayNone(batches);
      ghost var bucket := storage.meta.bucket;
      ghost var small := StaysSmall(storage.enc, storage.segmentSize, batches);
      storage.Bounds();
      hide StaysSmall;
      r := Ok(());
      var i := 0;
      while i < |batches|
        invariant 0 <= i <= |batches| && r.Ok? && storage.MetaOk()
        invariant storage.Valid() && storage.Log() == Replay(batches[..i])
        invariant StuckAsBefore(bucket)
        invariant small ==> |storage.segments| <= 1
        invariant forall o :: o in storage.Footprint() ==> o in old(storage.Footprint()) || fresh(o)
      {
        if small { SmallNext(storage.enc, storage.segmentSize, batches, i); }
        r := AppendNext(batches, i, bucket);
        if r.Err? { return; }
        ReplayNext(batches, i);
        i := i + 1;
      }
      assert batches[..|batches|] == batches;
      storage.Bounds();
    }

    /** For the stored log the metadata is stuck exactly when it was at the start. */
    ghost predicate StuckAsBefore(bucket: MetaStores.Bucket)
      reads storage, storage.segments, storage.meta
    {
      var log := storage.Log();
      if log == [] then storage.meta.bucket == bucket
      else MetaStores.Stuck(storage.meta.bucket, log[0].index) <==> MetaStores.Stuck(bucket, log[0].index)
    }

    /** Batch i of a run. */
    method AppendNext(batches: seq<seq<Entry>>, i: nat, ghost bucket: MetaStores.Bucket) returns (r: Result<()>)
      requires i < |batches| && AcceptableRun(batches)
      requires storage.Valid() && storage.MetaOk() && storage.live && storage.Log() == Replay(batches[..i])
      requires |EncodeLog(storage.enc, batches[i])| <= storage.segmentSize && StuckAsBefore(bucket)
      modifies storage, storage.Footprint(), storage.meta
      ensures storage.MetaOk()
      ensures r.Ok? ==>
              storage.Valid() && storage.Log() == Appended(Replay(batches[..i]), batches[i]) && StuckAsBefore(bucket)
      ensures r.Err? ==> r.error == Fatal && StuckAt(batches, i, bucket)
      ensures r.Ok? && old(|storage.segments| <= 1) &&
              |EncodeLog(storage.enc, Appended(Replay(batches[..i]), batches[i]))| <= storage.segmentSize ==>
              |storage.segments| <= 1
      ensures forall o :: o in storage.Footprint() ==> o in old(storage.Footprint()) || fresh(o)
    {
      hide DiskStorage.Valid, LogOf, EncodeLog, FootprintOf, AcceptableRun, Acceptable, Appended, Node.Overwrites;
      hide MetaStores.Stuck, MetaStores.Purges, MetaStores.WellFormed, MetaStores.Distinct;
      hide DiskStorage.CutsAcross, DiskStorage.CanCut, DiskStorage.FirstIndex, DiskStorage.LastIndex;
      ghost var log, batch, was := storage.Log(), batches[i], storage.meta.bucket;
      NextAcceptable(batches, i);
      NextFacts(log, batch);
      ghost var before, starts, logs, tail := storage.segments, storage.Starts(), storage.Logs(), storage.Tail();
      ghost var inside := Overwrites(batch);
      if |before| <= 1 { OneSegment(); }
      hide DiskStorage.Starts, DiskStorage.Logs, DiskStorage.Tail, DiskStorage.Placed;
      r := AppendRaftEntries(batches[i]);
      if storage.meta.bucket != was {
        MetaStores.StuckStays(was, storage.meta.bucket, log[0].index);
      }
      if r.Ok? && |before| <= 1 && batch != [] &&
          |EncodeLog(storage.enc, Appended(log, batch))| <= storage.segmentSize {
        StillOne(before, starts, logs, tail, log, batch, inside);
      }
    }

    lemma NextAcceptable(batches: seq<seq<Entry>>, i: nat)
      requires i < |batches| && AcceptableRun(batches)
      ensures Acceptable(Replay(batches[..i]), batches[i])
    {
      hide Acceptable, Replay;
    }

    lemma NextFacts(log: seq<Entry>, batch: seq<Entry>)
      requires storage.Valid() && storage.live && storage.Log() == log && Acceptable(log, batch)
      ensures storage.FirstIndex() == if log == [] then 1 else log[0].index
      ensures Overwrites(batch) ==> log != [] && batch != [] && storage.CanCut(batch[0].index)
      ensures !Overwrites(batch) && log != [] && batch != [] ==> log[0].index + |log| <= batch[0].index
      ensures storage.segments == [] <==> log == []
      ensures log != [] ==> Appended(log, batch) != [] && Appended(log, batch)[0].index == log[0].index
    {
      hide DiskStorage.Chained, LogOf, DiskStorage.CanCut;
      storage.Bounds();
      AppendedContiguous(log, batch);
      if batch != [] { CutIsPossible(batch); }
    }

    lemma OneSegment()
      requires storage.Valid() && |storage.segments| <= 1
      ensures storage.Log() == storage.Tail()
      ensures |storage.segments| == 1 ==>
              storage.Log() != [] && storage.segments[0].firstIndex == storage.Log()[0].index
      ensures |storage.segments| == 1 ==>
              storage.Logs() == [storage.Log()] && storage.Starts() == [storage.segments[0].firstIndex]
    {
      hide DiskStorage.Chained;
      storage.Bounds();
      if |storage.segments| == 1 {
        assert LogOf(storage.segments[..0]) == [];
      }
    }

    /** A batch that fits with what it leaves of a single segment stays in it. */
    lemma StillOne(before: seq<Segment>, starts: seq<nat>, logs: seq<seq<Entry>>, tail: seq<Entry>,
                   log: seq<Entry>, batch: seq<Entry>, inside: bool)
      requires |before| == |starts| == |logs| <= 1 && batch != [] && tail == log
      requires before != [] ==> logs == [log] && log != [] && starts[0] == log[0].index
      requires before == [] ==> log == []
      requires inside ==> PlacedAfterCut(before, starts, logs, batch)
      requires !inside ==> storage.Placed(before, tail, batch)
      requires !inside && log != [] ==> log[0].index + |log| <= batch[0].index
      requires |EncodeLog(storage.enc, Appended(log, batch))| <= storage.segmentSize
      ensures |storage.segments| <= 1
    {
      hide EncodeLog;
      if before != [] {
        EncodeConcat(storage.enc, Below(log, batch[0].index), batch);
        if inside {
          var n :| 0 <= n < |before| && PlacedAt(before, starts, logs, batch, n);
          assert logs[n][..batch[0].index - starts[n]] == Below(log, batch[0].index);
        } else {
          assert Below(log, batch[0].index) == log;
        }
      }
    }

    /** A run that stays small is still in one segment after a purge that reserves one, so nothing is lost. */
    method AppendAllAndPurge(batches: seq<seq<Entry>>) returns (r: Result<()>)
      requires storage.Valid() && storage.MetaOk() && storage.live && storage.Log() == []
      requires AcceptableRun(batches)
      requires forall i :: 0 <= i < |batches| ==> |EncodeLog(storage.enc, batches[i])| <= storage.segmentSize
      requires StaysSmall(storage.enc, storage.segmentSize, batches)
      modifies storage, storage.Footprint(), storage.meta
      ensures r.Ok? ==> storage.Valid() && storage.Log() == Replay(batches)
      ensures r.Err? ==> r.error == Fatal && MeetsStuck(batches, old(storage.meta.bucket))
    {
      hide DiskStorage.Valid, LogOf, EncodeLog, AcceptableRun, StaysSmall;
      r := AppendAll(batches);
      if r.Err? { return; }
      storage.MetaApart();
      r := storage.PurgeLog(1);
    }

    lemma CutIsPossible(batch: seq<Entry>)
      requires storage.Valid() && storage.live && batch != [] && Acceptable(storage.Log(), batch)
      ensures storage.LastIndex() >= batch[0].index ==> storage.CanCut(batch[0].index)
    {
      hide DiskStorage.Chained, LogOf;
      storage.Bounds();
      if storage.LastIndex() >= batch[0].index {
        storage.LiveCanCut(batch[0].index);
      }
    }
  }
}
