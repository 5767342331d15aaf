/** Applying committed raft entries (server/apply.go). */
module Appliers {
  import opened Bytes
  import opened Gtids
  import opened Messages
  import opened RecordLog
  import opened StorageErrors
  import opened TrxBoundaries
  import opened Keys
  import opened MetaStores
  import opened BinlogEvents
  import opened BinlogProgresses
  import opened ServedLogs
  import opened CrashReplay
  import Membership

  const ENTRY_CONF_CHANGE := 1

  const NODE_ATTRIBUTES_TYPE: byte := 2
  const SYNCER_ARGS_TYPE: byte := 3
  const MASTER_INFO_TYPE: byte := 4
  const MASTER_GTID_PURGED_TYPE: byte := 5

  /**
   Library decoders: query text, the set of a previous-GTIDs event, the set of a purged message,
   a membership change, a node's attributes; and whether syncer arguments and master information
   decode at all.
   */
  datatype Decoders = Decoders(
    queryOf: QueryDecoder,
    previousOf: seq<byte> -> Option<GtidSet>,
    masterOf: seq<byte> -> Option<GtidSet>,
    changeOf: seq<byte> -> Option<Membership.ConfChange>,
    attributesOf: seq<byte> -> Option<Membership.Attributes>,
    isSyncerArgs: seq<byte> -> bool,
    isMasterInfo: seq<byte> -> bool)

  predicate NeedApply(eventType: nat)
  {
    eventType == GTID_EVENT || eventType == FORMAT_DESCRIPTION_EVENT ||
    eventType == ROTATE_EVENT || eventType == PREVIOUS_GTIDS_EVENT
  }

  predicate Divided(ev: BinlogEvent)
  {
    ev.dividedCount != 0 && ev.dividedSeqNum != 0
  }

  /** How the syncer builds events: the type repeats the one in the header. */
  predicate WellMade(ev: BinlogEvent)
  {
    !Divided(ev) && HEADER <= |RawOf(ev)| ==> ev.etype == RawOf(ev)[4]
  }

  /** What an event, or any part of a divided one, leaves in the metadata; None for a failure. */
  function EffectOf(ev: BinlogEvent, dec: Decoders): Option<Applied>
  {
    var raw := RawOf(ev);
    if !NeedApply(ev.etype) then Some(OtherApplied)
    else if ev.etype == FORMAT_DESCRIPTION_EVENT then Some(FormatApplied(raw))
    else if |raw| < HEADER + CHECKSUM then None
    else if ev.etype == GTID_EVENT then
      if |raw| < HEADER + GTID_BODY + CHECKSUM || GtidOf(raw).None? then None
      else Some(GtidApplied(GtidOf(raw).value))
    else if ev.etype == ROTATE_EVENT then
      if |BodyOf(raw)| < 8 then None else Some(RotateApplied(Chars(BodyOf(raw)[8..])))
    else
      var previous := dec.previousOf(BodyOf(raw));
      if previous.None? then None else Some(PreviousApplied(previous.value))
  }

  /** A later part of a divided event is no step for the parser, but is applied to the metadata like the first. */
  function CommandOfEvent(ev: BinlogEvent, dec: Decoders): Option<Command>
  {
    var boundary, effect := BoundaryOfRaw(RawOf(ev), dec.queryOf), EffectOf(ev, dec);
    if effect.None? then None
    else if Divided(ev) then Some(if effect.value.GtidApplied? then GtidOnly(effect.value.gtid) else Unrelated)
    else if boundary.None? then None
    else Some(Binlog(Event(boundary.value, if effect.value.GtidApplied? then Some(effect.value.gtid) else None)))
  }

  /** An accepted event is well formed: only a GTID event carries a GTID. */
  lemma CommandWellFormed(ev: BinlogEvent, dec: Decoders)
    requires WellMade(ev) && CommandOfEvent(ev, dec).Some? && CommandOfEvent(ev, dec).value.Binlog?
    ensures WellFormedEvent(CommandOfEvent(ev, dec).value.event)
  {
    hide GtidOf, FromLittleEndian, QueryBoundary;
  }

  /**
   The checkpoint of an entry is stored before its metadata.  An event with metadata makes a
   checkpoint exactly when it is no GTID event and finds a GTID dangling; only then can a crash
   between the two writes lose the metadata, since otherwise the entry is applied again.
   */
  lemma CheckpointFirstIff(n: Node, ev: BinlogEvent, dec: Decoders, save: bool)
    requires WellMade(ev) && !Divided(ev) && NeedApply(ev.etype) && CommandOfEvent(ev, dec).Some?
    ensures var c := CommandOfEvent(ev, dec).value;
            && c.Binlog?
            && (Completes(n.progress, c.event.boundary) <==> ev.etype != GTID_EVENT && Dangling(n.progress))
            && (!(ev.etype != GTID_EVENT && Dangling(n.progress)) ==>
                  var m := ApplyCommand(n, c, save); m.storedIndex == n.storedIndex && m.storedSet == n.storedSet)
  {
    hide GtidOf, FromLittleEndian, QueryBoundary;
  }

  lemma DistinctSame(b: Bucket, c: Bucket)
    requires Distinct(b)
    requires forall j: nat ::
               (PreGtids(j) in b <==> PreGtids(j) in c) && (PreGtids(j) in b ==> b[PreGtids(j)] == c[PreGtids(j)])
    ensures Distinct(c)
  {
    assert forall i: nat :: Recorded(c, i) ==> Recorded(b, i) && RecordedSet(c, i) == RecordedSet(b, i);
  }

  lemma MetaStepAfter(b: Bucket, c: Bucket, d: Bucket, index: nat, a: Applied)
    requires WellFormed(b) && WellFormed(c) && SameMeta(b, c) && MetaStep(c, d, index, a)
    ensures MetaStep(b, d, index, a)
  {
    hide EqualTo, WellFormed, WithMaster;
    if a.PreviousApplied? {
      hide MetaStep;
      PreviousAfter(b, c, d, index, a.previous);
    }
  }

  lemma SameKnown(b: Bucket, c: Bucket, previous: GtidSet)
    requires SameMeta(b, c)
    ensures (exists j: nat :: Recorded(b, j) && EqualTo(RecordedSet(b, j), previous)) <==>
            (exists j: nat :: Recorded(c, j) && EqualTo(RecordedSet(c, j), previous))
  {
    hide EqualTo;
    assert forall j: nat :: Recorded(b, j) <==> Recorded(c, j);
    assert forall j: nat :: Recorded(b, j) ==> RecordedSet(b, j) == RecordedSet(c, j);
  }

  lemma PreviousAfter(b: Bucket, c: Bucket, d: Bucket, index: nat, previous: GtidSet)
    requires WellFormed(b) && WellFormed(c) && SameMeta(b, c) && MetaStep(c, d, index, PreviousApplied(previous))
    ensures MetaStep(b, d, index, PreviousApplied(previous))
  {
    hide EqualTo, WellFormed;
    SameKnown(b, c, previous);
    var mid :| Records(c, mid, index, previous) && SameMeta(mid, d);
    var known := exists j: nat :: Recorded(b, j) && EqualTo(RecordedSet(b, j), previous);
    var mid' := if known then b else b[PreGtids(index) := Set(previous)];
    assert Records(b, mid', index, previous);
    assert SameMeta(mid', d);
  }

  lemma MetaStepNothing(b: Bucket, c: Bucket, index: nat)
    requires WellFormed(b) && SameMeta(b, c)
    ensures MetaStep(b, c, index, OtherApplied)
  {
  }

  /** The membership change in a configuration entry; None when it does not decode. */
  function ChangeOf(e: Entry, dec: Decoders): Option<Membership.ConfChange>
  {
    dec.changeOf(if e.data.Some? then e.data.value else [])
  }

  function CommandOf(e: Entry, dec: Decoders): Option<Command>
  {
    if e.etype == ENTRY_CONF_CHANGE then (if ChangeOf(e, dec).None? then None else Some(Unrelated))
    else if e.etype != ENTRY_NORMAL then None
    else if e.data.None? || e.data.value == [] then Some(Unrelated)
    else
      var kind, body := e.data.value[0], e.data.value[1..];
      if kind == BINLOG_EVENT_TYPE then
        (match EventOf(e) case None => None case Some(ev) => CommandOfEvent(ev, dec))
      else if kind == MASTER_GTID_PURGED_TYPE then
        (match dec.masterOf(body)
         case None => None
         case Some(gtids) => if gtids == {} || OneServer(gtids) then Some(MasterPurged(gtids)) else None)
      else if kind == NODE_ATTRIBUTES_TYPE && dec.attributesOf(body).Some? then Some(Unrelated)
      else if kind == SYNCER_ARGS_TYPE && dec.isSyncerArgs(body) then Some(Unrelated)
      else if kind == MASTER_INFO_TYPE && dec.isMasterInfo(body) then Some(Unrelated)
      else None
  }

  /** What an applied entry means to the metadata. */
  function AppliedOf(e: Entry, dec: Decoders): Applied
    requires CommandOf(e, dec).Some?
  {
    var c := CommandOf(e, dec).value;
    if c.MasterPurged? then MasterApplied(c.gtids)
    else if IsBinlogEvent(e) then EffectOf(EventOf(e).value, dec).value
    else OtherApplied
  }

  lemma AppliedOfBinlog(e: Entry, dec: Decoders)
    requires IsBinlogEvent(e) && CommandOf(e, dec).Some?
    ensures EventOf(e).Some? && CommandOf(e, dec) == CommandOfEvent(EventOf(e).value, dec)
    ensures AppliedOf(e, dec) == EffectOf(EventOf(e).value, dec).value
  {
    hide EffectOf, BoundaryOfRaw, EventOf;
  }

  predicate WellMadeEntry(e: Entry)
  {
    IsBinlogEvent(e) && EventOf(e).Some? ==> WellMade(EventOf(e).value)
  }

  /** What an entry says about the cluster: a configuration change, or a node's attributes. */
  function UpdateIn(e: Entry, dec: Decoders): Option<Membership.Update>
  {
    if e.etype == ENTRY_CONF_CHANGE then
      (match ChangeOf(e, dec) case None => None case Some(cc) => Some(Membership.Configure(cc)))
    else if e.etype == ENTRY_NORMAL && e.data.Some? && |e.data.value| != 0 &&
        e.data.value[0] == NODE_ATTRIBUTES_TYPE then
      (match dec.attributesOf(e.data.value[1..]) case None => None case Some(a) => Some(Membership.Describe(a)))
    else None
  }

  function ClusterAfter(c: Membership.Cluster, e: Entry, dec: Decoders): Membership.Cluster
  {
    var u := UpdateIn(e, dec);
    if u.Some? then Membership.Updated(c, u.value) else c
  }

  /** The entry ends the process because of the cluster it meets. */
  predicate HaltsIn(c: Membership.Cluster, e: Entry, dec: Decoders)
  {
    UpdateIn(e, dec).Some? && Membership.Halts(c, UpdateIn(e, dec).value)
  }

  /** The entry can be applied: it decodes, and suits the cluster. */
  predicate Applicable(c: Membership.Cluster, e: Entry, dec: Decoders)
  {
    CommandOf(e, dec).Some? && !HaltsIn(c, e, dec)
  }

  predicate RemovesSelf(c: Membership.Cluster, e: Entry, dec: Decoders, id: Membership.Id)
  {
    var u := UpdateIn(e, dec);
    && u.Some? && u.value.Configure? && Membership.Change(c, u.value.cc).Applied?
    && u.value.cc.kind.RemoveNode? && u.value.cc.nodeID == id
  }

  function ClusterAfterAll(c: Membership.Cluster, es: seq<Entry>, dec: Decoders): Membership.Cluster
  {
    if es == [] then c else ClusterAfter(ClusterAfterAll(c, es[..|es| - 1], dec), es[|es| - 1], dec)
  }

  /** The updates among the entries, in order. */
  function Updates(es: seq<Entry>, dec: Decoders): seq<Membership.Update>
  {
    if es == [] then []
    else
      var n := |es| - 1;
      Updates(es[..n], dec) + if UpdateIn(es[n], dec).Some? then [UpdateIn(es[n], dec).value] else []
  }

  /** Applying entries is a run of their changes and attribute updates in the membership model. */
  lemma {:induction false} UpdatesRun(c: Membership.Cluster, es: seq<Entry>, dec: Decoders)
    ensures ClusterAfterAll(c, es, dec) == Membership.UpdatedAll(c, Updates(es, dec))
  {
    hide UpdateIn, Membership.Updated;
    if es != [] {
      var n := |es| - 1;
      UpdatesRun(c, es[..n], dec);
      if UpdateIn(es[n], dec).Some? {
        Membership.UpdatedSnoc(c, Updates(es[..n], dec), UpdateIn(es[n], dec).value);
      } else {
        assert Updates(es, dec) == Updates(es[..n], dec);
      }
    }
  }

  predicate ApplicableAt(c: Membership.Cluster, es: seq<Entry>, i: nat, dec: Decoders)
    requires i < |es|
  {
    Applicable(ClusterAfterAll(c, es[..i], dec), es[i], dec)
  }

  /** Every entry can be applied when its turn comes. */
  predicate AllApplicable(c: Membership.Cluster, es: seq<Entry>, dec: Decoders)
  {
    forall i :: 0 <= i < |es| ==> ApplicableAt(c, es, i, dec)
  }

  /** Entries that say nothing about the cluster can be applied exactly when they decode. */
  lemma ApplicableWithoutUpdates(c: Membership.Cluster, es: seq<Entry>, dec: Decoders)
    requires forall i :: 0 <= i < |es| ==> UpdateIn(es[i], dec).None?
    ensures AllApplicable(c, es, dec) <==> AllCommands(es, dec)
  {
    hide UpdateIn, CommandOf, ClusterAfterAll;
    assert forall i :: 0 <= i < |es| ==> (ApplicableAt(c, es, i, dec) <==> CommandOf(es[i], dec).Some?);
  }

  predicate StopsAt(c: Membership.Cluster, es: seq<Entry>, i: nat, dec: Decoders, id: Membership.Id)
    requires i < |es|
  {
    RemovesSelf(ClusterAfterAll(c, es[..i], dec), es[i], dec, id)
  }

  /** Some entry removes the node itself. */
  predicate Stops(c: Membership.Cluster, es: seq<Entry>, dec: Decoders, id: Membership.Id)
  {
    exists i :: 0 <= i < |es| && StopsAt(c, es, i, dec, id)
  }

  lemma ClusterOneMore(c: Membership.Cluster, es: seq<Entry>, i: nat, dec: Decoders, id: Membership.Id)
    requires i < |es|
    ensures ClusterAfterAll(c, es[..i + 1], dec) == ClusterAfter(ClusterAfterAll(c, es[..i], dec), es[i], dec)
    ensures Stops(c, es[..i + 1], dec, id) <==> Stops(c, es[..i], dec, id) || StopsAt(c, es, i, dec, id)
    ensures AllApplicable(c, es[..i + 1], dec) <==> AllApplicable(c, es[..i], dec) && ApplicableAt(c, es, i, dec)
  {
    hide RemovesSelf, ClusterAfter, Applicable;
    var more, front := es[..i + 1], es[..i];
    assert more[..i] == front;
    forall k | 0 <= k <= i ensures more[..k] == es[..k] && (k < i ==> front[..k] == es[..k]) {
    }
    assert forall k :: 0 <= k <= i ==> (StopsAt(c, more, k, dec, id) <==> StopsAt(c, es, k, dec, id));
    assert forall k :: 0 <= k < i ==> (StopsAt(c, front, k, dec, id) <==> StopsAt(c, es, k, dec, id));
    assert forall k :: 0 <= k <= i ==> (ApplicableAt(c, more, k, dec) <==> ApplicableAt(c, es, k, dec));
    assert forall k :: 0 <= k < i ==> (ApplicableAt(c, front, k, dec) <==> ApplicableAt(c, es, k, dec));
  }

  /** Applied entries announce exactly the format descriptions (type 15) and the rotations (type 4). */
  lemma AppliedAnnounces(e: Entry, dec: Decoders)
    requires CommandOf(e, dec).Some?
    ensures AppliedOf(e, dec).FormatApplied? <==> IsBinlogEvent(e) && EventOf(e).Some? && EventOf(e).value.etype == 15
    ensures AppliedOf(e, dec).FormatApplied? ==> AppliedOf(e, dec).raw == RawOf(EventOf(e).value)
    ensures AppliedOf(e, dec).RotateApplied? <==> IsBinlogEvent(e) && EventOf(e).Some? && EventOf(e).value.etype == 4
    ensures AppliedOf(e, dec).RotateApplied? ==>
              var raw := RawOf(EventOf(e).value);
              && 31 <= |raw| && |AppliedOf(e, dec).name| == |raw| - 31
              && forall i :: 27 <= i < |raw| - 4 ==> AppliedOf(e, dec).name[i - 27] == raw[i] as char
  {
    hide GtidOf, BoundaryOfRaw, OneServer, ParseEvent;
  }

  /** What applying made of an entry is what the dump filter sees in it. */
  lemma AppliedMark(e: Entry, dec: Decoders)
    requires WellMadeEntry(e) && CommandOf(e, dec).Some?
    ensures Decodable(e)
    ensures AppliedOf(e, dec).GtidApplied? <==> EntryMark(e).GtidMark?
    ensures AppliedOf(e, dec).GtidApplied? ==> EntryMark(e).gtid == AppliedOf(e, dec).gtid
  {
    hide GtidOf, BoundaryOfRaw, OneServer, ParseEvent;
  }

  /** What an entry is taken for: by its type, and a normal one by the first byte of its data. */
  lemma EntryKinds(e: Entry, kind: byte, body: seq<byte>, dec: Decoders)
    ensures e.etype == 1 ==>
            (CommandOf(e, dec).Some? <==> dec.changeOf(if e.data.Some? then e.data.value else []).Some?)
    ensures e.etype != 0 && e.etype != 1 ==> CommandOf(e, dec) == None
    ensures e.etype == 0 && (e.data == None || e.data == Some([])) ==> CommandOf(e, dec) == Some(Unrelated)
    ensures e.etype == 0 && e.data == Some([kind] + body) ==>
              CommandOf(e, dec) ==
              if kind == 1
              then (match ParseEvent(NEW_EVENT, body) case None => None case Some(ev) => CommandOfEvent(ev, dec))
              else if kind == 2 then (if dec.attributesOf(body).Some? then Some(Unrelated) else None)
              else if kind == 3 then (if dec.isSyncerArgs(body) then Some(Unrelated) else None)
              else if kind == 4 then (if dec.isMasterInfo(body) then Some(Unrelated) else None)
              else if kind == 5 && dec.masterOf(body).Some? then
                var gtids := dec.masterOf(body).value;
                if gtids == {} || OneServer(gtids) then Some(MasterPurged(gtids)) else None
              else None
  {
    hide CommandOfEvent, ParseEvent, OneServer;
    assert ([kind] + body)[1..] == body;
  }

  /** A run of commands, each with the choice whether to store its progress. */
  function ApplyCommands(n: Node, cs: seq<Command>, saves: seq<bool>): Node
    requires |cs| == |saves|
  {
    if cs == [] then n
    else
      var k := |cs| - 1;
      ApplyCommand(ApplyCommands(n, cs[..k], saves[..k]), cs[k], saves[k])
  }

  /** A run of commands is the same run in the crash model. */
  lemma {:induction false} CommandsRun(log: seq<Command>, n: Node, k: nat, saves: seq<bool>)
    requires n.applied + k <= |log| && |saves| == k
    ensures var m := Execute(log, n, Nexts(saves));
            m == ApplyCommands(n, log[n.applied..n.applied + k], saves) && m.applied == n.applied + k
    decreases k
  {
    hide ApplyCommand;
    var cs := log[n.applied..n.applied + k];
    if k > 0 {
      CommandsRun(log, n, k - 1, saves[..k - 1]);
      assert cs[..k - 1] == log[n.applied..n.applied + (k - 1)];
      assert Nexts(saves) == Nexts(saves[..k - 1]) + [ApplyOne(saves[k - 1])];
      ExecuteConcat(log, n, Nexts(saves[..k - 1]), [ApplyOne(saves[k - 1])]);
      var m := Execute(log, n, Nexts(saves[..k - 1]));
      assert Execute(log, m, [ApplyOne(saves[k - 1])]) == ApplyNext(log, m, saves[k - 1]);
      AppliedGrows(m, log[m.applied], saves[k - 1]);
    }
  }

  lemma AppliedGrows(n: Node, c: Command, save: bool)
    ensures ApplyCommand(n, c, save).applied == n.applied + 1
  {
  }

  function Nexts(saves: seq<bool>): seq<Action>
  {
    seq(|saves|, i requires 0 <= i < |saves| => ApplyOne(saves[i]))
  }

  /** The entries of a batch that are not applied yet; batches may overlap. */
  function Unapplied(batch: seq<Entry>, applied: nat): seq<Entry>
    requires batch != [] ==> batch[0].index <= applied + 1
  {
    if batch != [] && applied + 1 - batch[0].index < |batch| then batch[applied + 1 - batch[0].index..] else []
  }

  predicate AllCommands(es: seq<Entry>, dec: Decoders)
  {
    forall i :: 0 <= i < |es| ==> CommandOf(es[i], dec).Some?
  }

  function Commands(es: seq<Entry>, dec: Decoders): seq<Command>
    requires AllCommands(es, dec)
  {
    seq(|es|, i requires 0 <= i < |es| => CommandOf(es[i], dec).value)
  }

  /** The first i entries of a batch have been applied, each with its choice to save. */
  ghost predicate Done(before: Node, es: seq<Entry>, i: nat, saves: seq<bool>, now: Node,
                       log: seq<Entry>, trace: seq<Entry>, dec: Decoders)
  {
    && i <= |es| && |saves| == i && AllCommands(es[..i], dec)
    && now == ApplyCommands(before, Commands(es[..i], dec), saves)
    && trace == log + es[..i]
  }

  lemma DoneNone(before: Node, es: seq<Entry>, log: seq<Entry>, dec: Decoders)
    ensures Done(before, es, 0, [], before, log, log, dec)
  {
    assert log + es[..0] == log;
  }

  lemma DoneOne(before: Node, es: seq<Entry>, i: nat, saves: seq<bool>, saved: bool, now: Node,
                log: seq<Entry>, trace: seq<Entry>, dec: Decoders)
    requires i < |es| && Done(before, es, i, saves, now, log, trace, dec) && CommandOf(es[i], dec).Some?
    ensures Done(before, es, i + 1, saves + [saved], ApplyCommand(now, CommandOf(es[i], dec).value, saved),
                 log, trace + [es[i]], dec)
  {
    hide CommandOf, ApplyCommand;
    var front, more := es[..i], es[..i + 1];
    assert more == front + [es[i]];
    assert Commands(more, dec)[..i] == Commands(front, dec);
    assert (saves + [saved])[..i] == saves;
    ConcatAssoc(log, front, [es[i]]);
  }

  lemma DoneAll(before: Node, es: seq<Entry>, saves: seq<bool>, now: Node,
                log: seq<Entry>, trace: seq<Entry>, dec: Decoders)
    requires Done(before, es, |es|, saves, now, log, trace, dec)
    ensures AllCommands(es, dec) && |saves| == |es|
    ensures now == ApplyCommands(before, Commands(es, dec), saves) && trace == log + es
  {
    assert es[..|es|] == es;
  }

  predicate AllWellMade(es: seq<Entry>)
  {
    forall i :: 0 <= i < |es| ==> WellMadeEntry(es[i]) && es[i].index < TWO_64
  }

  /** Where a transaction completes, the stored applied index is at most ten thousand entries behind. */
  ghost predicate Lags(e: Entry, before: Progress, stored: nat, dec: Decoders)
    requires CommandOf(e, dec).Some?
  {
    var c := CommandOf(e, dec).value;
    c.Binlog? && Completes(before, c.event.boundary) ==> e.index - stored <= 10000
  }

  class Server {
    const store: MetaStore
    const progress: BinlogProgress
    const dec: Decoders
    const cluster: Membership.RaftCluster
    const id: Membership.Id
    var appliedIndex: nat
    /** The furthest index ever applied, also before a restart. */
    ghost var furthest: nat
    /** Every entry applied since the start, in order. */
    ghost var trace: seq<Entry>

    ghost predicate Valid()
      reads this, progress, store, cluster, cluster.store
    {
      && progress.store == store && cluster.Valid()
      && WellFormed(store.bucket) && Distinct(store.bucket)
      && progress.persistentAppliedIndex <= appliedIndex
      && progress.persistentAppliedIndex <= AppliedIndex(store.bucket)
    }

    ghost function State(): Node
      requires WellFormed(store.bucket)
      reads this, progress, progress.parser, store
    {
      Node(progress.Value(), AppliedIndex(store.bucket), SetAt(store.bucket, Executed), appliedIndex, furthest)
    }

    /** A start or restart: progress and the applied index come from the store. */
    constructor (store: MetaStore, dec: Decoders, cluster: Membership.RaftCluster, id: Membership.Id,
                 ghost furthest: nat)
      requires WellFormed(store.bucket) && Distinct(store.bucket) && cluster.Valid()
      ensures Valid() && this.store == store && this.dec == dec && this.cluster == cluster && this.id == id
      ensures trace == [] && fresh(progress) && fresh(progress.parser)
      ensures State() == Node(Start(SetAt(store.bucket, Executed)), AppliedIndex(store.bucket),
                              SetAt(store.bucket, Executed), AppliedIndex(store.bucket), furthest)
    {
      this.store := store;
      this.dec := dec;
      this.cluster := cluster;
      this.id := id;
      progress := new BinlogProgress(store);
      appliedIndex := AppliedIndex(store.bucket);
      this.furthest := furthest;
      trace := [];
    }

    /** The metadata side of one event. */
    method ApplyBinlogEvent(ev: BinlogEvent, raftIndex: nat) returns (r: Result<()>)
      requires WellFormed(store.bucket) && Distinct(store.bucket) && raftIndex < TWO_64 && NeedApply(ev.etype)
      modifies progress`currentGtid, store
      ensures WellFormed(store.bucket) && Distinct(store.bucket)
      ensures r.Ok? <==> EffectOf(ev, dec).Some?
      ensures r.Ok? ==>
                && progress.currentGtid == (if EffectOf(ev, dec).value.GtidApplied?
                                            then Some(EffectOf(ev, dec).value.gtid) else old(progress.currentGtid))
                && MetaStep(old(store.bucket), store.bucket, raftIndex, EffectOf(ev, dec).value)
                && (forall k: Key :: k.Executed? || k.ApplyIndex? ==>
                      (k in store.bucket <==> k in old(store.bucket)) &&
                      (k in store.bucket ==> store.bucket[k] == old(store.bucket)[k]))
      ensures r.Ok? && ev.etype == FORMAT_DESCRIPTION_EVENT ==>
                store.bucket == old(store.bucket)[Fde(raftIndex) := Raw(RawOf(ev))]
      ensures r.Ok? && ev.etype == ROTATE_EVENT ==>
                && HEADER + 8 + CHECKSUM <= |RawOf(ev)|
                && store.bucket == old(store.bucket)[NextBinlog(raftIndex) :=
                                     Text(Chars(RawOf(ev)[HEADER + 8..|RawOf(ev)| - CHECKSUM]))]
      ensures r.Ok? && ev.etype == GTID_EVENT ==> store.bucket == old(store.bucket)
    {
      hide EqualTo, GtidOf;
      var raw := RawOf(ev);
      if ev.etype == FORMAT_DESCRIPTION_EVENT {
        DistinctSame(store.bucket, store.bucket[Fde(raftIndex) := Raw(raw)]);
        store.bucket := store.bucket[Fde(raftIndex) := Raw(raw)];
        return Ok(());
      }
      if |raw| < HEADER + CHECKSUM {
        return Err(Fatal);
      }
      var body := BodyOf(raw);
      if ev.etype == GTID_EVENT {
        if |body| < GTID_BODY {
          return Err(Fatal);
        }
        var gtid := GtidOf(raw);
        if gtid.None? {
          return Err(Fatal);
        }
        progress.currentGtid := gtid;
      } else if ev.etype == ROTATE_EVENT {
        if |body| < 8 {
          return Err(Fatal);
        }
        DistinctSame(store.bucket, store.bucket[NextBinlog(raftIndex) := Text(Chars(body[8..]))]);
        store.bucket := store.bucket[NextBinlog(raftIndex) := Text(Chars(body[8..]))];
      } else {
        var previous := dec.previousOf(body);
        if previous.None? {
          return Err(Fatal);
        }
        ghost var before := store.bucket;
        store.SetPreviousGtidSet(raftIndex, previous.value);
        assert Records(before, store.bucket, raftIndex, previous.value) && SameMeta(store.bucket, store.bucket);
      }
      r := Ok(());
    }

    /** The progress side of one event; a later part of a divided event has none. */
    method UpdateProgress(ev: BinlogEvent, raftIndex: nat, due: bool) returns (r: Result<()>, ghost saved: bool)
      requires Valid() && raftIndex == appliedIndex + 1
      modifies progress, progress.parser, store
      ensures progress.parser == old(progress.parser) && WellFormed(store.bucket)
      ensures saved == (raftIndex - old(progress.persistentAppliedIndex) > 10000 || due)
      ensures r.Ok? <==> Divided(ev) || BoundaryOfRaw(RawOf(ev), dec.queryOf).Some?
      ensures r.Ok? ==>
                && Distinct(store.bucket) && SameMeta(old(store.bucket), store.bucket)
                && progress.persistentAppliedIndex <= raftIndex
                && progress.persistentAppliedIndex <= AppliedIndex(store.bucket)
      ensures r.Ok? && Divided(ev) ==> progress.Value() == old(progress.Value()) && store.bucket == old(store.bucket)
      ensures r.Ok? && !Divided(ev) ==>
                var p, b := old(progress.Value()), BoundaryOfRaw(RawOf(ev), dec.queryOf).value;
                && progress.Value() == Observe(p, b)
                && (if Completes(p, b) && saved
                    then AppliedIndex(store.bucket) == raftIndex &&
                        SetAt(store.bucket, Executed) == progress.executedGtidSet
                    else AppliedIndex(store.bucket) == old(AppliedIndex(store.bucket)) &&
                         SetAt(store.bucket, Executed) == old(SetAt(store.bucket, Executed)))
                && (Completes(p, b) ==> raftIndex - AppliedIndex(store.bucket) <= 10000)
    {
      hide Distinct, BoundaryOfRaw, Observe, Completes;
      saved := raftIndex - progress.persistentAppliedIndex > PERSISTENT_COUNT || due;
      r := Ok(());
      if ev.dividedCount == 0 || (ev.dividedCount != 0 && ev.dividedSeqNum == 0) {
        r := progress.UpdateProcess(raftIndex, RawOf(ev), dec.queryOf, due);
        if r.Err? {
          return;
        }
        DistinctSame(old(store.bucket), store.bucket);
      }
    }

    /** One binlog event: progress first, then the metadata. */
    method ApplyMySQLBinlogEvent(ev: BinlogEvent, raftIndex: nat, due: bool) returns (r: Result<()>, ghost saved: bool)
      requires Valid() && raftIndex == appliedIndex + 1 < TWO_64 && WellMade(ev)
      modifies progress, progress.parser, store
      ensures progress.parser == old(progress.parser)
      ensures r.Ok? <==> CommandOfEvent(ev, dec).Some?
      ensures r.Ok? ==>
                && WellFormed(store.bucket) && Distinct(store.bucket)
                && progress.persistentAppliedIndex <= raftIndex
                && progress.persistentAppliedIndex <= AppliedIndex(store.bucket)
                && State().(applied := raftIndex,
                     furthest := ApplyCommand(old(State()), CommandOfEvent(ev, dec).value, saved).furthest)
                   == ApplyCommand(old(State()), CommandOfEvent(ev, dec).value, saved)
                && MetaStep(old(store.bucket), store.bucket, raftIndex, EffectOf(ev, dec).value)
      ensures saved == (raftIndex - old(progress.persistentAppliedIndex) > 10000 || due)
      ensures r.Ok? && CommandOfEvent(ev, dec).value.Binlog? &&
              Completes(old(progress.Value()), CommandOfEvent(ev, dec).value.event.boundary) ==>
                raftIndex - AppliedIndex(store.bucket) <= 10000
    {
      hide MetaStep, Distinct, BoundaryOfRaw, EffectOf, Observe, Completes, WellMade, WellFormed;
      r, saved := UpdateProgress(ev, raftIndex, due);
      if r.Err? {
        return;
      }
      ghost var between := store.bucket;
      MetaStepNothing(old(store.bucket), between, raftIndex);
      EffectOfOther(ev);
      if NeedApply(ev.etype) {
        r := ApplyBinlogEvent(ev, raftIndex);
        if r.Ok? { MetaStepAfter(old(store.bucket), between, store.bucket, raftIndex, EffectOf(ev, dec).value); }
      } else {
        r := Ok(());
      }
    }

    lemma EffectOfOther(ev: BinlogEvent)
      ensures !NeedApply(ev.etype) ==> EffectOf(ev, dec) == Some(OtherApplied)
    {
    }

    /** The master's purged set, applied on every node when a syncer starts. */
    method ApplyMasterGtidPurged(gtids: GtidSet) returns (r: Result<()>)
      requires Valid()
      modifies progress, store
      ensures fresh(progress.parser)
      ensures r.Ok? <==> gtids == {} || OneServer(gtids)
      ensures r.Ok? ==>
                && WellFormed(store.bucket) && Distinct(store.bucket)
                && progress.persistentAppliedIndex == 0
                && progress.Value() == Reset(old(progress.Value()), gtids)
                && progress.executedGtidSet == old(progress.executedGtidSet) + gtids
                && progress.currentGtid == None && progress.lastSaveGtid == old(progress.lastSaveGtid)
                && progress.parser.currentState == Outside
                && MetaStep(old(store.bucket), store.bucket, appliedIndex + 1, MasterApplied(gtids))
                && AppliedIndex(store.bucket) == old(AppliedIndex(store.bucket))
                && SetAt(store.bucket, Executed) ==
                     (if gtids == {} then old(SetAt(store.bucket, Executed)) else progress.executedGtidSet)
    {
      var purged := store.GetGtidSet(Purged);
      ghost var before := store.bucket;
      store.bucket := store.bucket[Purged := Set(WithMaster(purged, gtids))];
      assert Distinct(store.bucket) by {
        assert forall i: nat :: Recorded(store.bucket, i) ==>
            Recorded(before, i) && RecordedSet(store.bucket, i) == RecordedSet(before, i);
      }
      ghost var between := store.bucket;
      r := progress.ResetTo(gtids);
      DistinctSame(between, store.bucket);
    }

    /** One committed entry. */
    method ApplyEntry(e: Entry, due: bool) returns (r: Result<()>, removedSelf: bool, ghost saved: bool)
      requires Valid() && e.index == appliedIndex + 1 < TWO_64 && WellMadeEntry(e)
      modifies this, progress, progress.parser, store, cluster, cluster.store
      ensures progress.parser == old(progress.parser) || fresh(progress.parser)
      ensures r.Ok? <==> Applicable(old(cluster.Value()), e, dec)
      ensures r.Ok? ==>
                && Valid() && appliedIndex == e.index && trace == old(trace) + [e]
                && State() == ApplyCommand(old(State()), CommandOf(e, dec).value, saved)
                && MetaStep(old(store.bucket), store.bucket, e.index, AppliedOf(e, dec))
                && cluster.Value() == ClusterAfter(old(cluster.Value()), e, dec)
                && removedSelf == RemovesSelf(old(cluster.Value()), e, dec, id)
      ensures r.Ok? ==> Lags(e, old(progress.Value()), AppliedIndex(store.bucket), dec)
    {
      hide CommandOfEvent, EffectOf, OneServer, MetaStep, EventOf, Divided;
      hide Membership.Updated, Membership.Halts, Membership.Change;
      saved, removedSelf := false, false;
      r := Ok(());
      MetaStepNothing(store.bucket, store.bucket, e.index);
      if e.etype == ENTRY_NORMAL {
        r, saved := ApplyEntryNormal(e, due);
        if r.Err? {
          return;
        }
      } else if e.etype == ENTRY_CONF_CHANGE {
        r, removedSelf := ApplyConfEntry(e);
        if r.Err? {
          return;
        }
      } else {
        return Err(Fatal), false, false;
      }
      appliedIndex := e.index;
      furthest := if furthest < e.index then e.index else furthest;
      trace := trace + [e];
    }

    method ApplyConfEntry(e: Entry) returns (r: Result<()>, removedSelf: bool)
      requires cluster.Valid() && e.etype == ENTRY_CONF_CHANGE
      modifies cluster, cluster.store
      ensures r.Ok? <==> Applicable(old(cluster.Value()), e, dec)
      ensures cluster.Valid() && cluster.Value() == ClusterAfter(old(cluster.Value()), e, dec)
      ensures r.Ok? ==> removedSelf == RemovesSelf(old(cluster.Value()), e, dec, id)
    {
      hide Membership.Change, Membership.Sound;
      var cc := ChangeOf(e, dec);
      if cc.None? {
        return Err(Fatal), false;
      }
      var error;
      removedSelf, error := cluster.ApplyConfChange(cc.value, id);
      r := if error == Some(Membership.Fatal) then Err(Fatal) else Ok(());
    }

    /** The attributes of a node; unknown ids and messages that do not decode are fatal. */
    method ApplyNodeAttributes(data: seq<byte>) returns (r: Result<()>)
      requires cluster.Valid()
      modifies cluster, cluster.store
      ensures cluster.Valid()
      ensures var a := dec.attributesOf(data);
              && (r.Ok? <==> a.Some? && !Membership.Halts(old(cluster.Value()), Membership.Describe(a.value)))
              && (r.Ok? ==> cluster.Value() == Membership.Described(old(cluster.Value()), a.value))
    {
      hide Membership.Sound, Membership.Halts, Membership.Described;
      var a := dec.attributesOf(data);
      if a.None? {
        return Err(Fatal);
      }
      var ok := cluster.UpdateAttributes(a.value);
      r := if ok then Ok(()) else Err(Fatal);
    }

    /** The data of a normal entry says what to apply. */
    method ApplyEntryNormal(e: Entry, due: bool) returns (r: Result<()>, ghost saved: bool)
      requires Valid() && e.index == appliedIndex + 1 < TWO_64 && WellMadeEntry(e) && e.etype == ENTRY_NORMAL
      modifies progress, progress.parser, store, cluster, cluster.store
      ensures progress.parser == old(progress.parser) || fresh(progress.parser)
      ensures r.Ok? <==> Applicable(old(cluster.Value()), e, dec)
      ensures r.Ok? ==>
                && WellFormed(store.bucket) && Distinct(store.bucket)
                && progress.persistentAppliedIndex <= e.index
                && progress.persistentAppliedIndex <= AppliedIndex(store.bucket)
                && State().(applied := e.index,
                     furthest := ApplyCommand(old(State()), CommandOf(e, dec).value, saved).furthest)
                   == ApplyCommand(old(State()), CommandOf(e, dec).value, saved)
                && MetaStep(old(store.bucket), store.bucket, e.index, AppliedOf(e, dec))
                && cluster.Valid() && cluster.Value() == ClusterAfter(old(cluster.Value()), e, dec)
      ensures r.Ok? ==> Lags(e, old(progress.Value()), AppliedIndex(store.bucket), dec)
    {
      hide CommandOfEvent, EffectOf, OneServer, MetaStep, EventOf, Divided;
      hide Membership.Sound, Membership.Halts, Membership.Described;
      saved := false;
      r := Ok(());
      MetaStepNothing(store.bucket, store.bucket, e.index);
      if e.data.None? || |e.data.value| == 0 {
        return;
      }
      var kind, body := e.data.value[0], e.data.value[1..];
      if kind == BINLOG_EVENT_TYPE {
        var ev := EventOf(e);
        if ev.None? {
          return Err(Fatal), false;
        }
        r, saved := ApplyMySQLBinlogEvent(ev.value, e.index, due);
        if r.Ok? { AppliedOfBinlog(e, dec); }
      } else if kind == NODE_ATTRIBUTES_TYPE {
        r := ApplyNodeAttributes(body);
      } else if kind == MASTER_GTID_PURGED_TYPE {
        var gtids := dec.masterOf(body);
        if gtids.None? {
          return Err(Fatal), false;
        }
        r := ApplyMasterGtidPurged(gtids.value);
      } else if !(kind == SYNCER_ARGS_TYPE && dec.isSyncerArgs(body)) &&
          !(kind == MASTER_INFO_TYPE && dec.isMasterInfo(body)) {
        return Err(Fatal), false;
      }
    }

    /** The entries of a batch, in order. `clock` says when a save is due. */
    method Apply(es: seq<Entry>, clock: nat -> bool) returns (r: Result<()>, shouldStop: bool, ghost saves: seq<bool>)
      requires Valid() && Contiguous(es) && AllWellMade(es)
      requires es != [] ==> es[0].index == appliedIndex + 1
      modifies this, progress, progress.parser, store, cluster, cluster.store
      ensures progress.parser == old(progress.parser) || fresh(progress.parser)
      ensures r.Ok? <==> AllApplicable(old(cluster.Value()), es, dec)
      ensures r.Ok? ==> AllCommands(es, dec)
      ensures r.Ok? ==>
                && Valid() && appliedIndex == old(appliedIndex) + |es| && trace == old(trace) + es
                && |saves| == |es| && State() == ApplyCommands(old(State()), Commands(es, dec), saves)
      ensures r.Ok? ==>
                && cluster.Value() == ClusterAfterAll(old(cluster.Value()), es, dec)
                && shouldStop == Stops(old(cluster.Value()), es, dec, id)
    {
      hide CommandOf, ApplyCommand, WellMadeEntry, WellFormed, Distinct, MetaStep, Done, ClusterAfter,
           ClusterAfterAll, RemovesSelf, Stops;
      hide AllApplicable, HaltsIn;
      r, shouldStop, saves := Ok(()), false, [];
      ghost var before, log, c := State(), trace, cluster.Value();
      DoneNone(before, es, log, dec);
      ClusterNone(c, es, dec, id);
      var i := 0;
      while i < |es|
        invariant 0 <= i <= |es| && r.Ok? && Valid()
        invariant progress.parser == old(progress.parser) || fresh(progress.parser)
        invariant appliedIndex == old(appliedIndex) + i
        invariant Done(before, es, i, saves, State(), log, trace, dec)
        invariant cluster.Value() == ClusterAfterAll(c, es[..i], dec) && shouldStop == Stops(c, es[..i], dec, id)
        invariant AllApplicable(c, es[..i], dec)
      {
        ghost var saved;
        var removedSelf;
        ghost var now, so := State(), trace;
        ClusterOneMore(c, es, i, dec, id);
        r, removedSelf, saved := ApplyEntry(es[i], clock(es[i].index));
        if r.Err? {
          NotAllApplicable(c, es, i, dec);
          return;
        }
        DoneOne(before, es, i, saves, saved, now, log, so, dec);
        saves := saves + [saved];
        shouldStop := shouldStop || removedSelf;
        i := i + 1;
      }
      DoneAll(before, es, saves, State(), log, trace, dec);
      assert es[..|es|] == es;
    }

    /** A committed batch, which may start before the applied index but not beyond the next one. */
    method ApplyEntries(batch: seq<Entry>, clock: nat -> bool)
      returns (r: Result<()>, stop: bool, ghost saves: seq<bool>)
      requires Valid() && Contiguous(batch) && AllWellMade(batch)
      modifies this, progress, progress.parser, store, cluster, cluster.store
      ensures progress.parser == old(progress.parser) || fresh(progress.parser)
      ensures batch != [] && batch[0].index > old(appliedIndex) + 1 ==> r == Err(Fatal)
      ensures batch == [] || batch[0].index <= old(appliedIndex) + 1 ==>
                var es := Unapplied(batch, old(appliedIndex));
                && (r.Ok? <==> AllApplicable(old(cluster.Value()), es, dec))
                && (r.Ok? ==>
                      && AllCommands(es, dec) && Valid()
                      && appliedIndex == old(appliedIndex) + |es| && trace == old(trace) + es
                      && |saves| == |es| && State() == ApplyCommands(old(State()), Commands(es, dec), saves)
                      && cluster.Value() == ClusterAfterAll(old(cluster.Value()), es, dec)
                      && stop == Stops(old(cluster.Value()), es, dec, id))
    {
      hide CommandOf, ApplyCommand, WellMadeEntry, WellFormed, Distinct, ClusterAfter, RemovesSelf, StopsAt, HaltsIn;
      saves := [];
      if |batch| == 0 {
        return Ok(()), false, [];
      }
      if batch[0].index > appliedIndex + 1 {
        return Err(Fatal), false, [];
      }
      var es := [];
      if appliedIndex + 1 - batch[0].index < |batch| {
        es := batch[appliedIndex + 1 - batch[0].index..];
      }
      if |es| == 0 {
        return Ok(()), false, [];
      }
      r, stop, saves := Apply(es, clock);
    }
  }

  lemma ClusterNone(c: Membership.Cluster, es: seq<Entry>, dec: Decoders, id: Membership.Id)
    ensures ClusterAfterAll(c, es[..0], dec) == c && !Stops(c, es[..0], dec, id) && AllApplicable(c, es[..0], dec)
  {
  }

  lemma NotAllApplicable(c: Membership.Cluster, es: seq<Entry>, i: nat, dec: Decoders)
    requires i < |es| && !ApplicableAt(c, es, i, dec)
    ensures !AllApplicable(c, es, dec)
  {
    hide Applicable;
  }

  function Chars(bytes: seq<byte>): string
  {
    seq(|bytes|, i requires 0 <= i < |bytes| => bytes[i] as char)
  }
}
