/**
 The metadata that dumps rely on, over whole runs: events are applied, old segments are
 purged, and in between any replica that passes the GTID check may ask for a dump.
 */
module ServedLogs {
  import opened Bytes
  import opened Gtids
  import opened Messages
  import opened RecordLog
  import opened Keys
  import opened MetaStores
  import opened BinlogEvents
  import opened BinlogServers
  import opened StorageErrors

  /** What one applied entry means to the metadata. Entry i of a history has raft index i + 1. */
  datatype Applied =
    | GtidApplied(gtid: Gtid)
    | PreviousApplied(previous: GtidSet)
    | MasterApplied(purged: GtidSet)
    | FormatApplied(raw: seq<byte>)
    | RotateApplied(name: string)
    | OtherApplied

  /**
   Everything ever applied, how much of it has been applied since the last start, the first
   index still stored, and the metadata bucket.
   */
  datatype Served = Served(history: seq<Applied>, applied: nat, first: nat, bucket: Bucket)

  const NOTHING_SERVED := Served([], 0, 1, map[])

  // ---- steps ------------------------------------------------------------------------

  /** A recorded set counts as equal to the given one, so it is not recorded again. */
  ghost predicate Known(b: Bucket, previous: GtidSet)
  {
    exists j: nat :: Recorded(b, j) && EqualTo(RecordedSet(b, j), previous)
  }

  /**
   A previous-GTIDs event lists every GTID before it; a GTID event without any recorded set before
   it is a purged one.
   */
  ghost predicate Listed(s: Served, a: Applied)
    requires WellFormed(s.bucket)
  {
    match a
    case PreviousApplied(previous) => ListsAll(s.history, previous)
    case GtidApplied(g) => g in SetAt(s.bucket, Purged) || exists j: nat :: Recorded(s.bucket, j)
    case _ => true
  }

  ghost predicate ListsAll(history: seq<Applied>, previous: GtidSet)
  {
    forall i :: 0 <= i < |history| && history[i].GtidApplied? ==> history[i].gtid in previous
  }

  /** A purge has not overtaken the entry, if its index is going to be recorded. */
  ghost predicate InTime(s: Served, a: Applied)
  {
    a.PreviousApplied? && !Known(s.bucket, a.previous) ==> s.first <= |s.history| + 1
  }

  /** The two buckets agree on all keys but those of progress. */
  ghost predicate SameMeta(b: Bucket, c: Bucket)
  {
    forall k: Key :: !k.Executed? && !k.ApplyIndex? ==> (k in b <==> k in c) && (k in b ==> b[k] == c[k])
  }

  /** What applying entry `index` does to those keys. */
  ghost predicate MetaStep(b: Bucket, c: Bucket, index: nat, a: Applied)
    requires WellFormed(b)
  {
    match a
    case PreviousApplied(previous) => exists d :: Records(b, d, index, previous) && SameMeta(d, c)
    case MasterApplied(master) => SameMeta(b[Purged := Set(WithMaster(SetAt(b, Purged), master))], c)
    case FormatApplied(raw) => SameMeta(b[Fde(index) := Raw(raw)], c)
    case RotateApplied(name) => SameMeta(b[NextBinlog(index) := Text(name)], c)
    case GtidApplied(_) => SameMeta(b, c)
    case OtherApplied => SameMeta(b, c)
  }

  /** The next entry is applied for the first time. */
  ghost predicate ApplyStep(s: Served, t: Served, a: Applied)
    requires WellFormed(s.bucket)
  {
    && s.applied == |s.history| && |s.history| + 1 < TWO_64
    && t.history == s.history + [a] && t.applied == s.applied + 1
    && t.first == s.first
    && WellFormed(t.bucket)
    && MetaStep(s.bucket, t.bucket, |s.history| + 1, a)
  }

  /** A restart goes back to the applied index in the store. */
  ghost predicate RestartStep(s: Served, t: Served)
  {
    t.applied <= |s.history| && t == s.(applied := t.applied)
  }

  /** After a restart an entry, read back from the log, is applied again. */
  ghost predicate ReplayStep(s: Served, t: Served)
    requires WellFormed(s.bucket)
  {
    && s.first <= s.applied + 1 <= |s.history|
    && t.history == s.history && t.applied == s.applied + 1
    && t.first == s.first
    && WellFormed(t.bucket)
    && MetaStep(s.bucket, t.bucket, s.applied + 1, s.history[s.applied])
  }

  /** Whole segments are dropped; a cut across segments does the same with `first` where it is. */
  ghost predicate PurgeStep(s: Served, t: Served)
    requires WellFormed(s.bucket)
  {
    && t.history == s.history && t.applied == s.applied
    && s.first <= t.first
    && Purges(s.bucket, t.bucket, t.first)
  }

  // ---- the invariant ----------------------------------------------------------------

  /** Every applied previous-GTIDs event lists the GTIDs before it, and some set stays recorded once there was one. */
  ghost predicate HistoryHonest(s: Served)
  {
    forall i :: 0 <= i < |s.history| && s.history[i].PreviousApplied? ==>
      ListsAll(s.history[..i], s.history[i].previous) && exists j: nat :: Recorded(s.bucket, j)
  }

  /** Recorded sets are those of applied previous-GTIDs events. */
  ghost predicate RecordsHonest(s: Served)
  {
    forall j: nat :: Recorded(s.bucket, j) ==>
      1 <= j <= |s.history| && s.history[j - 1] == PreviousApplied(RecordedSet(s.bucket, j))
  }

  /** An empty set is recorded only where no previous-GTIDs event came before. */
  ghost predicate EmptyIsFirst(s: Served)
  {
    forall i: nat, j: nat :: Recorded(s.bucket, j) && RecordedSet(s.bucket, j) == {} && i < j - 1 && i < |s.history| ==>
      !s.history[i].PreviousApplied?
  }

  /** Every GTID before all recorded sets is accounted for by gtid_purged. */
  ghost predicate EarlyAccounted(s: Served)
    requires WellFormed(s.bucket)
  {
    forall i: nat :: i < |s.history| && s.history[i].GtidApplied? && BeforeAllRecorded(s.bucket, i + 1) ==>
      s.history[i].gtid in SetAt(s.bucket, Purged)
  }

  ghost predicate BeforeAllRecorded(b: Bucket, index: nat)
  {
    forall j: nat :: Recorded(b, j) ==> index < j
  }

  /** No recorded position has been purged away. */
  ghost predicate StartsStored(s: Served)
  {
    forall j: nat :: Recorded(s.bucket, j) ==> s.first <= j
  }

  /** What was applied at an index. */
  function AppliedAt(history: seq<Applied>, j: nat): Applied
  {
    if 1 <= j <= |history| then history[j - 1] else OtherApplied
  }

  /** The stored format descriptions and file names are those of the applied events, each at its index. */
  ghost predicate AnnouncedHonest(s: Served)
  {
    forall j: nat :: AnnouncedAt(s.bucket, s.history, j)
  }

  ghost predicate AnnouncedAt(b: Bucket, history: seq<Applied>, j: nat)
  {
    var a := AppliedAt(history, j);
    && (Fde(j) in b <==> a.FormatApplied?) && (Fde(j) in b ==> b[Fde(j)] == Raw(a.raw))
    && (NextBinlog(j) in b <==> a.RotateApplied?) && (NextBinlog(j) in b ==> b[NextBinlog(j)] == Text(a.name))
  }

  ghost predicate Sound(s: Served)
  {
    && WellFormed(s.bucket) && HistoryHonest(s) && RecordsHonest(s) && EmptyIsFirst(s) && AnnouncedHonest(s)
    && EarlyAccounted(s) && StartsStored(s) && s.applied <= |s.history|
  }

  lemma StartSound()
    ensures Sound(NOTHING_SERVED)
  {
  }

  lemma KnowsItself(b: Bucket, j: nat)
    requires Recorded(b, j)
    ensures Known(b, RecordedSet(b, j))
  {
    assert EqualTo(RecordedSet(b, j), RecordedSet(b, j));
  }

  /** Applying entry `index` records its set there, unless it is known, and removes nothing. */
  lemma MetaStepFacts(b: Bucket, c: Bucket, index: nat, a: Applied)
    requires WellFormed(b) && WellFormed(c) && MetaStep(b, c, index, a)
    requires Recorded(b, index) ==> a == PreviousApplied(RecordedSet(b, index))
    ensures forall j: nat :: Recorded(b, j) ==> Recorded(c, j) && RecordedSet(c, j) == RecordedSet(b, j)
    ensures forall j: nat :: Recorded(c, j) && !Recorded(b, j) ==>
              a.PreviousApplied? && !Known(b, a.previous) && j == index && RecordedSet(c, j) == a.previous
    ensures a.PreviousApplied? && !Known(b, a.previous) ==>
              Recorded(c, index) && !Recorded(b, index) && (a.previous == {} ==> forall j: nat :: !Recorded(b, j))
    ensures a.PreviousApplied? ==> exists j: nat :: Recorded(c, j)
    ensures SetAt(b, Purged) <= SetAt(c, Purged)
  {
    hide EqualTo;
    if Recorded(b, index) { KnowsItself(b, index); }
    if a.PreviousApplied? {
      var d :| Records(b, d, index, a.previous) && SameMeta(d, c);
      if !Known(b, a.previous) {
        EmptyEqualsAll(b, a.previous);
        assert Recorded(c, index);
      }
    }
  }

  /** An entry announces itself at its index and nowhere else. */
  lemma AnnouncedKeeps(s: Served, t: Served, index: nat, a: Applied)
    requires AnnouncedHonest(s) && WellFormed(s.bucket) && WellFormed(t.bucket) &&
             MetaStep(s.bucket, t.bucket, index, a)
    requires 1 <= index <= |t.history| && t.history[index - 1] == a
    requires t.history == s.history || (t.history == s.history + [a] && index == |t.history|)
    ensures AnnouncedHonest(t)
  {
    hide EqualTo, WithMaster;
    forall j: nat ensures AnnouncedAt(t.bucket, t.history, j) {
      assert AnnouncedAt(s.bucket, s.history, j);
      assert j != index ==> AppliedAt(t.history, j) == AppliedAt(s.history, j);
    }
  }

  /** What either kind of application comes down to: the set of entry `index` is recorded, or is known. */
  lemma RecordKeeps(s: Served, t: Served, index: nat, a: Applied)
    requires Sound(s) && s.first == t.first && WellFormed(t.bucket) && MetaStep(s.bucket, t.bucket, index, a)
    requires 1 <= index <= |t.history| && t.history[index - 1] == a && t.applied <= |t.history|
    requires HistoryHonest(t) && EarlyAccounted(t) && AnnouncedHonest(t)
    requires t.history == s.history || (t.history == s.history + [a] && index == |t.history|)
    ensures Sound(t) <==> (a.PreviousApplied? && !Known(s.bucket, a.previous) ==> s.first <= index)
  {
    hide MetaStep, WellFormed, HistoryHonest, EarlyAccounted, AnnouncedHonest, Known;
    var b, c := s.bucket, t.bucket;
    MetaStepFacts(b, c, index, a);
    assert RecordsHonest(t);
    EmptyStaysFirst(s, t, index, a);
  }

  lemma EmptyStaysFirst(s: Served, t: Served, index: nat, a: Applied)
    requires Sound(s) && WellFormed(t.bucket) && MetaStep(s.bucket, t.bucket, index, a)
    requires 1 <= index <= |t.history| && t.history[index - 1] == a
    requires t.history == s.history || (t.history == s.history + [a] && index == |t.history|)
    ensures EmptyIsFirst(t)
  {
    hide MetaStep, WellFormed, EarlyAccounted, AnnouncedHonest, Known, StartsStored;
    MetaStepFacts(s.bucket, t.bucket, index, a);
    forall i: nat, j: nat | Recorded(t.bucket, j) && RecordedSet(t.bucket, j) == {} && i < j - 1 && i < |t.history|
      ensures !t.history[i].PreviousApplied?
    {
      if Recorded(s.bucket, j) {
        assert t.history[i] == s.history[i];
      } else {
        assert t.history[i] == s.history[i];
        assert forall k: nat :: !Recorded(s.bucket, k);
        assert forall k :: 0 <= k < |s.history| ==> !s.history[k].PreviousApplied?;
      }
    }
  }

  lemma HistoryGrows(s: Served, t: Served, a: Applied)
    requires Sound(s) && Listed(s, a) && ApplyStep(s, t, a)
    ensures HistoryHonest(t) && EarlyAccounted(t)
  {
    hide MetaStep, WellFormed, EmptyIsFirst, StartsStored, AnnouncedHonest;
    var n, b, c := |s.history|, s.bucket, t.bucket;
    MetaStepFacts(b, c, n + 1, a);
    forall i | 0 <= i < |t.history| && t.history[i].PreviousApplied?
      ensures ListsAll(t.history[..i], t.history[i].previous) && exists j: nat :: Recorded(c, j)
    {
      if i < n {
        assert t.history[..i] == s.history[..i] && s.history[i] == t.history[i];
        var j: nat :| Recorded(b, j);
        assert Recorded(c, j);
      } else {
        assert t.history[..i] == s.history;
      }
    }
    assert forall i: nat :: BeforeAllRecorded(c, i) ==> BeforeAllRecorded(b, i);
    if a.GtidApplied? && BeforeAllRecorded(b, n + 1) {
      assert forall j: nat :: !Recorded(b, j);
    }
  }

  /** Applying an entry for the first time keeps the metadata sound exactly when no purge has overtaken it. */
  lemma ApplySoundIff(s: Served, t: Served, a: Applied)
    requires Sound(s) && Listed(s, a) && ApplyStep(s, t, a)
    ensures Sound(t) <==> InTime(s, a)
  {
    HistoryGrows(s, t, a);
    hide Listed, MetaStep, WellFormed, HistoryHonest, EarlyAccounted, AnnouncedHonest, Known;
    AnnouncedKeeps(s, t, |s.history| + 1, a);
    hide Sound;
    RecordKeeps(s, t, |s.history| + 1, a);
  }

  /** Applying an entry again after a restart keeps the metadata sound. */
  lemma ReplayKeeps(s: Served, t: Served)
    requires Sound(s) && ReplayStep(s, t)
    ensures Sound(t)
  {
    hide MetaStep, WellFormed, Known, AnnouncedHonest;
    var a := s.history[s.applied];
    AnnouncedKeeps(s, t, s.applied + 1, a);
    MetaStepFacts(s.bucket, t.bucket, s.applied + 1, a);
    assert forall i: nat :: BeforeAllRecorded(t.bucket, i) ==> BeforeAllRecorded(s.bucket, i);
    assert HistoryHonest(t) && EarlyAccounted(t);
    RecordKeeps(s, t, s.applied + 1, a);
  }

  lemma RestartKeeps(s: Served, t: Served)
    requires Sound(s) && RestartStep(s, t)
    ensures Sound(t)
  {
    hide WellFormed, ListsAll;
    assert AnnouncedHonest(t);
  }

  /** An empty set counts as equal to every recorded set, so it is only ever recorded first. */
  lemma EmptyEqualsAll(b: Bucket, previous: GtidSet)
    requires forall j: nat :: Recorded(b, j) ==> !EqualTo(RecordedSet(b, j), previous)
    ensures previous == {} ==> forall j: nat :: !Recorded(b, j)
  {
  }

  /** Some recorded set lies beyond the new first index, and the first such one can be merged. */
  ghost predicate Mergeable(b: Bucket, firstIndex: nat)
  {
    exists j: nat :: FirstBeyond(b, firstIndex, j) && (RecordedSet(b, j) == {} || OneServer(RecordedSet(b, j)))
  }

  lemma MergeKeeps(s: Served, t: Served, j: nat)
    requires Sound(s) && s.first <= t.first && t.history == s.history && t.applied == s.applied
    requires FirstBeyond(s.bucket, t.first, j) && OneServer(RecordedSet(s.bucket, j))
    requires t.bucket == AfterPurge(s.bucket, RecordedSet(s.bucket, j), t.first)
    ensures Sound(t)
    ensures forall i: nat :: i + 1 < j && t.history[i].GtidApplied? ==> t.history[i].gtid in SetAt(t.bucket, Purged)
  {
    var gtids := RecordedSet(s.bucket, j);
    var b, c := s.bucket, t.bucket;
    assert forall i: nat :: Recorded(c, i) <==> Recorded(b, i) && t.first <= i;
    assert Recorded(c, j);
    assert forall i: nat :: Recorded(c, i) ==> RecordedSet(c, i) == RecordedSet(b, i);
    assert SetAt(c, Purged) == SetAt(b, Purged) + gtids;
    assert s.history[j - 1] == PreviousApplied(gtids);
    forall i: nat | i + 1 < j && s.history[i].GtidApplied? ensures s.history[i].gtid in gtids {
      assert s.history[..j - 1][i] == s.history[i];
    }
    assert HistoryHonest(t) && EarlyAccounted(t);
    assert AnnouncedHonest(t) by { AnnouncedPurge(s, t, gtids); }
  }

  lemma AnnouncedPurge(s: Served, t: Served, gtids: GtidSet)
    requires WellFormed(s.bucket) && AnnouncedHonest(s) && t.history == s.history
    requires t.bucket == AfterPurge(s.bucket, gtids, t.first)
    ensures AnnouncedHonest(t)
  {
    forall j: nat ensures AnnouncedAt(t.bucket, t.history, j) {
      assert AnnouncedAt(s.bucket, s.history, j);
    }
  }

  /** gtid_purged never shrinks. */
  lemma PurgedGrows(s: Served, t: Served)
    requires WellFormed(s.bucket) && PurgeStep(s, t)
    ensures WellFormed(t.bucket) && SetAt(s.bucket, Purged) <= SetAt(t.bucket, Purged)
  {
  }

  /**
   A purge leaves the metadata sound exactly when a recorded set that can be merged lies
   beyond the new first index, or no recorded set lies below it.
   */
  lemma PurgeSoundIff(s: Served, t: Served)
    requires Sound(s) && PurgeStep(s, t)
    ensures Sound(t) <==> Mergeable(s.bucket, t.first) || forall j: nat :: Recorded(s.bucket, j) ==> t.first <= j
  {
    if exists j: nat :: FirstBeyond(s.bucket, t.first, j) && OneServer(RecordedSet(s.bucket, j)) {
      var j: nat :| FirstBeyond(s.bucket, t.first, j) && OneServer(RecordedSet(s.bucket, j)) &&
        t.bucket == AfterPurge(s.bucket, RecordedSet(s.bucket, j), t.first);
      MergeKeeps(s, t, j);
    } else {
      assert t.bucket == s.bucket;
      if j: nat :| FirstBeyond(s.bucket, t.first, j) && RecordedSet(s.bucket, j) == {} {
        assert forall i: nat :: Recorded(s.bucket, i) ==> j <= i;
      }
    }
  }

  /** Cutting across segments leaves the first index, and keeps the metadata sound. */
  lemma CutKeeps(s: Served, t: Served)
    requires Sound(s) && PurgeStep(s, t) && t.first == s.first
    ensures Sound(t)
  {
    hide HistoryHonest, RecordsHonest, EmptyIsFirst, EarlyAccounted, Purges;
    PurgeSoundIff(s, t);
  }

  /** Some set beyond the first index would add to gtid_purged. */
  ghost predicate AddsToPurged(b: Bucket, firstIndex: nat)
    requires WellFormed(b)
  {
    exists j: nat :: FirstBeyond(b, firstIndex, j) && OneServer(RecordedSet(b, j)) &&
        !(RecordedSet(b, j) <= SetAt(b, Purged))
  }

  /** A cut removes no applied entry, yet gtid_purged stays what it was only if the next recorded set adds nothing. */
  lemma CutPurgesIff(s: Served, t: Served)
    requires Sound(s) && PurgeStep(s, t) && t.first == s.first
    ensures WellFormed(t.bucket) &&
            (SetAt(t.bucket, Purged) == SetAt(s.bucket, Purged) <==> !AddsToPurged(s.bucket, s.first))
  {
    if j: nat :| FirstBeyond(s.bucket, s.first, j) && OneServer(RecordedSet(s.bucket, j)) {
      assert t.bucket == AfterPurge(s.bucket, RecordedSet(s.bucket, j), s.first);
      assert SetAt(t.bucket, Purged) == SetAt(s.bucket, Purged) + RecordedSet(s.bucket, j);
    }
  }

  /** After such a cut a replica that lacks any transaction before that set is refused, although all of it is stored. */
  lemma CutRefuses(s: Served, t: Served, j: nat, i: nat, executed: GtidSet, slave: GtidSet)
    requires Sound(s) && PurgeStep(s, t) && t.first == s.first
    requires FirstBeyond(s.bucket, s.first, j) && OneServer(RecordedSet(s.bucket, j))
    requires s.first <= i + 1 < j && s.history[i].GtidApplied? && s.history[i].gtid !in slave
    ensures WellFormed(t.bucket) && CheckGtidSet(executed, SetAt(t.bucket, Purged), slave).Err?
  {
    assert t.bucket == AfterPurge(s.bucket, RecordedSet(s.bucket, j), s.first);
    MergeKeeps(s, t, j);
  }

  /** Two files: an empty one, one transaction, and the set that lists it. */
  function TwoFiles(g: Gtid): Served
  {
    Served([PreviousApplied({}), GtidApplied(g), PreviousApplied({g})], 3, 1,
           map[PreGtids(1) := Set({}), PreGtids(3) := Set({g})])
  }

  lemma TwoFilesSound(g: Gtid)
    ensures Sound(TwoFiles(g)) && FirstBeyond(TwoFiles(g).bucket, 1, 3) && RecordedSet(TwoFiles(g).bucket, 3) == {g}
  {
    var s := TwoFiles(g);
    var b := s.bucket;
    assert Recorded(b, 1) && Recorded(b, 3) && forall j: nat :: Recorded(b, j) ==> j == 1 || j == 3;
    assert ListsAll(s.history[..0], {}) && ListsAll(s.history[..2], {g});
    assert HistoryHonest(s) && RecordsHonest(s) && EmptyIsFirst(s);
    assert AnnouncedHonest(s) && EarlyAccounted(s);
  }

  /** A cut can refuse a replica that was welcome before it. */
  lemma CutCanRefuse(g: Gtid)
    ensures
      var s := TwoFiles(g);
      var t := s.(bucket := AfterPurge(s.bucket, {g}, 1));
      && Sound(s) && PurgeStep(s, t) && WellFormed(t.bucket)
      && CheckGtidSet({g}, SetAt(s.bucket, Purged), {}).Ok? && CheckGtidSet({g}, SetAt(t.bucket, Purged), {}).Err?
  {
    TwoFilesSound(g);
    hide Sound, FirstBeyond;
    var s := TwoFiles(g);
    var t := s.(bucket := AfterPurge(s.bucket, {g}, 1));
    assert OneServer({g});
    assert SetAt(t.bucket, Purged) == {g};
  }

  /** Sound metadata covers every purged transaction. */
  lemma PurgedCovered(s: Served, i: nat)
    requires Sound(s) && i + 1 < s.first && i < |s.history| && s.history[i].GtidApplied?
    ensures s.history[i].gtid in SetAt(s.bucket, Purged)
  {
    assert BeforeAllRecorded(s.bucket, i + 1);
  }

  /** Dropping the only recorded position strands it below the first index. */
  lemma PurgeCanStrand(g: Gtid)
    ensures
      var b: Bucket := map[PreGtids(1) := Set({})];
      var s := Served([PreviousApplied({}), GtidApplied(g)], 2, 1, b);
      var t := s.(first := 3);
      Sound(s) && PurgeStep(s, t) && !Sound(t)
  {
    var b: Bucket := map[PreGtids(1) := Set({})];
    var s := Served([PreviousApplied({}), GtidApplied(g)], 2, 1, b);
    var t := s.(first := 3);
    assert Recorded(b, 1);
    assert forall j: nat :: Recorded(b, j) ==> j == 1;
    assert forall j: nat :: !FirstBeyond(b, 3, j);
  }

  // ---- what precedes a dump ---------------------------------------------------------

  /** The last format description among the first n applied entries. */
  function LastFormat(history: seq<Applied>, n: nat): Option<seq<byte>>
    requires n <= |history|
  {
    if n == 0 then None
    else if history[n - 1].FormatApplied? then Some(history[n - 1].raw)
    else LastFormat(history, n - 1)
  }

  /** The file name of the last rotation among the first n applied entries. */
  function LastRotation(history: seq<Applied>, n: nat): Option<string>
    requires n <= |history|
  {
    if n == 0 then None
    else if history[n - 1].RotateApplied? then Some(history[n - 1].name)
    else LastRotation(history, n - 1)
  }

  /** The file name of the first rotation behind the first n applied entries. */
  function NextRotation(history: seq<Applied>, n: nat): Option<string>
    requires n <= |history|
    decreases |history| - n
  {
    if n == |history| then None
    else if history[n].RotateApplied? then Some(history[n].name)
    else NextRotation(history, n + 1)
  }

  /** How many applied entries have an index below the start. */
  function Preceding(history: seq<Applied>, start: nat): (n: nat)
    ensures n <= |history|
  {
    if start == 0 then 0 else if start - 1 <= |history| then start - 1 else |history|
  }

  lemma {:induction false} FormatStored(s: Served, n: nat, start: nat)
    requires Sound(s) && n <= |s.history| && n < start
    requires forall j: nat :: HasFde(s.bucket, j) && j < start ==> j <= n
    ensures match LastFormat(s.history, n)
            case None => forall j: nat :: HasFde(s.bucket, j) ==> start <= j
            case Some(raw) => exists i: nat :: LastFdeBelow(s.bucket, start, i) && s.bucket[Fde(i)].bytes == raw
    decreases n
  {
    hide WellFormed, HistoryHonest, RecordsHonest, EmptyIsFirst, EarlyAccounted, StartsStored;
    assert forall j: nat :: AnnouncedAt(s.bucket, s.history, j);
    assert n > 0 ==> AnnouncedAt(s.bucket, s.history, n);
    if n == 0 {
      assert AnnouncedAt(s.bucket, s.history, 0);
    } else if s.history[n - 1].FormatApplied? {
      assert LastFdeBelow(s.bucket, start, n);
    } else {
      FormatStored(s, n - 1, start);
    }
  }

  /** The format description sent before a dump is the last one applied below its start. */
  lemma FormatFromHistory(s: Served, start: nat)
    requires Sound(s)
    ensures match LastFormat(s.history, Preceding(s.history, start))
            case None => forall j: nat :: HasFde(s.bucket, j) ==> start <= j
            case Some(raw) => exists i: nat :: LastFdeBelow(s.bucket, start, i) && s.bucket[Fde(i)].bytes == raw
  {
    var n := Preceding(s.history, start);
    forall j: nat | HasFde(s.bucket, j) && j < start ensures j <= n {
      assert AnnouncedAt(s.bucket, s.history, j);
    }
    if start > 0 {
      FormatStored(s, n, start);
    }
  }

  lemma {:induction false} RotationStored(s: Served, n: nat, start: nat)
    requires Sound(s) && n <= |s.history| && n < start
    requires forall j: nat :: HasName(s.bucket, j) && j < start ==> j <= n
    ensures match LastRotation(s.history, n)
            case None => forall j: nat :: HasName(s.bucket, j) ==> start <= j
            case Some(name) =>
              exists i: nat :: LastNameBelow(s.bucket, start, i) && s.bucket[NextBinlog(i)].text == name
    decreases n
  {
    hide WellFormed, HistoryHonest, RecordsHonest, EmptyIsFirst, EarlyAccounted, StartsStored;
    assert n > 0 ==> AnnouncedAt(s.bucket, s.history, n);
    if n == 0 {
      assert AnnouncedAt(s.bucket, s.history, 0);
    } else if s.history[n - 1].RotateApplied? {
      assert LastNameBelow(s.bucket, start, n);
    } else {
      RotationStored(s, n - 1, start);
    }
  }

  lemma {:induction false} NextRotationStored(s: Served, n: nat, start: nat)
    requires Sound(s) && n <= |s.history| && (start <= n + 1 || n == |s.history|)
    requires forall j: nat :: HasName(s.bucket, j) && start <= j ==> n < j
    ensures match NextRotation(s.history, n)
            case None => forall j: nat :: HasName(s.bucket, j) ==> j < start
            case Some(name) =>
              exists i: nat :: FirstNameFrom(s.bucket, start, i) && s.bucket[NextBinlog(i)].text == name
    decreases |s.history| - n
  {
    hide WellFormed, HistoryHonest, RecordsHonest, EmptyIsFirst, EarlyAccounted, StartsStored;
    assert AnnouncedAt(s.bucket, s.history, n + 1);
    if n == |s.history| {
      forall j: nat | HasName(s.bucket, j) ensures j < start {
        assert AnnouncedAt(s.bucket, s.history, j);
      }
    } else if s.history[n].RotateApplied? {
      assert FirstNameFrom(s.bucket, start, n + 1);
    } else {
      NextRotationStored(s, n + 1, start);
    }
  }

  /** The file name sent before a dump, as the rotations tell it. */
  function FileFrom(history: seq<Applied>, start: nat): Result<string>
  {
    var n := Preceding(history, start);
    var last, next := LastRotation(history, n), NextRotation(history, n);
    if last.Some? && last.value != "" then Ok(last.value)
    else if next.Some? then PreviousLogName(next.value)
    else Err(ErrKeyNotFound)
  }

  lemma FileFromHistory(s: Served, start: nat, r: Result<string>)
    requires Sound(s)
    requires forall i: nat :: LastNameBelow(s.bucket, start, i) && s.bucket[NextBinlog(i)].text != "" ==>
               r == Ok(s.bucket[NextBinlog(i)].text)
    requires forall i: nat :: NoneAnnounced(s.bucket, start) && FirstNameFrom(s.bucket, start, i) ==>
               r == PreviousLogName(s.bucket[NextBinlog(i)].text)
    requires NoneAnnounced(s.bucket, start) && (forall j: nat :: HasName(s.bucket, j) ==> j < start) ==>
             r == Err(ErrKeyNotFound)
    ensures r == FileFrom(s.history, start)
  {
    var n := Preceding(s.history, start);
    forall j: nat | HasName(s.bucket, j) ensures (j < start ==> j <= n) && (start <= j ==> n < j) {
      assert AnnouncedAt(s.bucket, s.history, j);
    }
    if start > 0 { RotationStored(s, n, start); }
    NextRotationStored(s, n, start);
    hide Sound, PreviousLogName;
  }

  // ---- runs -------------------------------------------------------------------------

  ghost predicate Step(s: Served, t: Served)
    requires WellFormed(s.bucket)
  {
    || (exists a :: Listed(s, a) && InTime(s, a) && ApplyStep(s, t, a))
    || RestartStep(s, t)
    || ReplayStep(s, t)
    || (PurgeStep(s, t) &&
        (Mergeable(s.bucket, t.first) || forall j: nat :: Recorded(s.bucket, j) ==> t.first <= j))
  }

  ghost predicate StepAt(run: seq<Served>, i: nat)
    requires i + 1 < |run|
  {
    WellFormed(run[i].bucket) && Step(run[i], run[i + 1])
  }

  ghost predicate IsRun(run: seq<Served>)
  {
    run != [] && run[0] == NOTHING_SERVED && forall i :: 0 <= i < |run| - 1 ==> StepAt(run, i)
  }

  lemma {:induction false} RunSound(run: seq<Served>, n: nat)
    requires IsRun(run) && n < |run|
    ensures Sound(run[n])
    decreases n
  {
    hide Sound, Listed, InTime, ApplyStep, RestartStep, ReplayStep, PurgeStep, Mergeable;
    if n == 0 {
      StartSound();
    } else {
      RunSound(run, n - 1);
      var s, t := run[n - 1], run[n];
      assert StepAt(run, n - 1);
      if a :| Listed(s, a) && InTime(s, a) && ApplyStep(s, t, a) {
        ApplySoundIff(s, t, a);
      } else if RestartStep(s, t) {
        RestartKeeps(s, t);
      } else if ReplayStep(s, t) {
        ReplayKeeps(s, t);
      } else {
        PurgeSoundIff(s, t);
      }
    }
  }

  /** The stored entries up to the applied index are those of the history from the first index on. */
  ghost predicate Stores(s: Served, log: seq<Entry>)
  {
    && AllDecodable(log) && Contiguous(log)
    && (log != [] ==> log[0].index == s.first >= 1)
    && |log| == (if s.first <= s.applied then s.applied + 1 - s.first else 0)
    && s.applied <= |s.history|
    && forall k :: 0 <= k < |log| ==>
         (EntryMark(log[k]).GtidMark? <==> s.history[s.first - 1 + k].GtidApplied?) &&
         (EntryMark(log[k]).GtidMark? ==> s.history[s.first - 1 + k].gtid == EntryMark(log[k]).gtid)
  }

  lemma HonestFromSound(s: Served, log: seq<Entry>)
    requires Sound(s) && Stores(s, log)
    ensures Honest(s.bucket, log) && EarlyPurged(s.bucket, log)
  {
    hide EntryMark, Decodable;
    forall k: nat | k < |log| && EntryMark(log[k]).GtidMark? &&
        (forall j: nat :: Recorded(s.bucket, j) ==> log[k].index < j)
      ensures EntryMark(log[k]).gtid in SetAt(s.bucket, Purged)
    {
      var i := s.first - 1 + k;
      assert log[k].index == i + 1;
      assert BeforeAllRecorded(s.bucket, i + 1);
    }
  }

  lemma DumpFromSound(s: Served, log: seq<Entry>, slave: GtidSet, start: nat, k: nat, q: nat)
    requires Sound(s) && Stores(s, log) && SetAt(s.bucket, Purged) <= slave && StartFor(s.bucket, slave, start)
    requires k <= q < |log|
    requires EntryMark(log[k]).GtidMark? && EntryMark(log[k]).gtid !in slave && InGroupOf(log, k, q)
    ensures var a := start - s.first;
            0 <= a <= q && AllDecodable(log[a..]) && q - a in Positions(log[a..], slave)
  {
    hide EntryMark, Decodable, Positions, Honest, EarlyPurged;
    HonestFromSound(s, log);
    assert s.first <= start;
    hide HistoryHonest, RecordsHonest, EmptyIsFirst, EarlyAccounted, StartsStored;
    StartsBefore(s.bucket, log, slave, start, k);
    hide StartFor;
    DumpMissesNothing(s.bucket, log, slave, start, |log|, k, q);
    assert log[start - s.first..|log|] == log[start - s.first..];
  }

  /**
   In every run, for every replica that passes the check: the dump start is still stored, and
   every event of an applied, stored transaction that the replica lacks is sent.
   */
  lemma DumpsComplete(run: seq<Served>, n: nat, log: seq<Entry>, slave: GtidSet, start: nat, k: nat, q: nat)
    requires IsRun(run) && n < |run| && Stores(run[n], log)
    requires WellFormed(run[n].bucket) && SetAt(run[n].bucket, Purged) <= slave
    requires StartFor(run[n].bucket, slave, start)
    requires k <= q < |log|
    requires EntryMark(log[k]).GtidMark? && EntryMark(log[k]).gtid !in slave && InGroupOf(log, k, q)
    ensures var a := start - run[n].first;
            0 <= a <= q && AllDecodable(log[a..]) && q - a in Positions(log[a..], slave)
  {
    hide IsRun, Sound, Stores, StartFor, InGroupOf, EntryMark, Decodable, Positions, WellFormed;
    RunSound(run, n);
    DumpFromSound(run[n], log, slave, start, k, q);
  }
}
