/**
 Which transactions count as executed (server/binlog_progress.go and the event branch of
 server/apply.go).
 */
module BinlogProgresses {
  import opened Bytes
  import opened Gtids
  import opened TrxBoundaries
  import opened Keys
  import opened MetaStores
  import opened StorageErrors
  import opened BinlogEvents

  // ---- Progress as a value ---------------------------------------------------------

  datatype Progress = Progress(state: State, current: Option<Gtid>, lastSave: Option<Gtid>, executed: GtidSet)

  /**
   A binlog event as progress sees it: its boundary and, for a GTID event that is not anonymous,
   its GTID.
   */
  datatype Event = Event(boundary: Boundary, gtid: Option<Gtid>)

  predicate WellFormedEvent(e: Event) {
    e.gtid.Some? ==> e.boundary == GtidEvent
  }

  function Start(executed: GtidSet): Progress {
    Progress(Outside, None, None, executed)
  }

  predicate Completes(p: Progress, b: Boundary) {
    Accepts(p.state, b) && Next(p.state, b) == Outside && p.current.Some? && p.lastSave != p.current
  }

  /** The effect of updateProcess. */
  function Observe(p: Progress, b: Boundary): Progress {
    if !Accepts(p.state, b) then p.(state := Outside, current := None)
    else if Completes(p, b) then
      Progress(Outside, p.current, p.current, p.executed + {p.current.value})
    else p.(state := Next(p.state, b))
  }

  /** The effect of applying one event. */
  function Advance(p: Progress, e: Event): Progress {
    var q := Observe(p, e.boundary);
    if e.gtid.Some? then q.(current := e.gtid) else q
  }

  /** Outside any transaction with a GTID that has not been counted. */
  predicate Dangling(p: Progress) {
    p.state == Outside && p.current.Some? && p.lastSave != p.current
  }

  /** Only a refused GTID event leaves a GTID dangling. */
  lemma DanglingIff(p: Progress, e: Event)
    requires WellFormedEvent(e)
    ensures Dangling(Advance(p, e)) <==> e.gtid.Some? && !Accepts(p.state, e.boundary) && e.gtid != p.lastSave
  {
  }

  function AdvanceAll(p: Progress, es: seq<Event>): Progress
    decreases |es|
  {
    if es == [] then p else AdvanceAll(Advance(p, es[0]), es[1..])
  }

  /** The effect of a reset with the GTIDs that the master has purged. */
  function Reset(p: Progress, gtids: GtidSet): Progress {
    Progress(Outside, None, p.lastSave, p.executed + gtids)
  }

  lemma {:induction false} AdvanceConcat(p: Progress, a: seq<Event>, b: seq<Event>)
    ensures AdvanceAll(p, a + b) == AdvanceAll(AdvanceAll(p, a), b)
    decreases |a|
  {
    if a == [] {
      assert a + b == b;
    } else {
      assert (a + b)[1..] == a[1..] + b;
      AdvanceConcat(Advance(p, a[0]), a[1..], b);
    }
  }

  /** A refused event never leaves the parser in its error state. */
  lemma {:induction false} NeverFailed(p: Progress, es: seq<Event>)
    requires p.state != Failed
    ensures AdvanceAll(p, es).state != Failed
    decreases |es|
  {
    if es != [] {
      NeverFailed(Advance(p, es[0]), es[1..]);
    }
  }

  // ---- The object ------------------------------------------------------------------

  const PERSISTENT_COUNT := 10000

  class BinlogProgress {
    var currentGtid: Option<Gtid>
    var lastSaveGtid: Option<Gtid>
    var executedGtidSet: GtidSet
    var parser: TransactionBoundaryParser
    var persistentAppliedIndex: nat
    const store: MetaStore

    ghost function Value(): Progress
      reads this, parser
    {
      Progress(parser.currentState, currentGtid, lastSaveGtid, executedGtidSet)
    }

    constructor (store: MetaStore)
      requires WellFormed(store.bucket)
      ensures this.store == store && fresh(parser)
      ensures Value() == Start(SetAt(store.bucket, Executed))
      ensures persistentAppliedIndex == 0
    {
      var s := store.GetGtidSet(Executed);
      this.store := store;
      parser := new TransactionBoundaryParser();
      currentGtid, lastSaveGtid, executedGtidSet, persistentAppliedIndex := None, None, s, 0;
    }

    method ResetTo(gtids: GtidSet) returns (r: Result<()>)
      requires WellFormed(store.bucket)
      modifies this, store
      ensures fresh(parser) && persistentAppliedIndex == 0
      ensures r.Ok? <==> gtids == {} || OneServer(gtids)
      ensures r.Ok? ==> Value() == Reset(old(Value()), gtids)
      ensures r.Ok? && gtids != {} ==> store.bucket == old(store.bucket)[Executed := Set(executedGtidSet)]
      ensures r.Err? || gtids == {} ==> store.bucket == old(store.bucket)
      ensures WellFormed(store.bucket)
    {
      parser := new TransactionBoundaryParser();
      currentGtid := None;
      persistentAppliedIndex := 0;
      if gtids != {} {
        var updated := Update(executedGtidSet, gtids);
        if updated.None? {
          return Err(Fatal);
        }
        executedGtidSet := updated.value;
        store.bucket := store.bucket[Executed := Set(executedGtidSet)];
      }
      r := Ok(());
    }

    /** `due` stands for the clock: four seconds have passed since the last save. */
    method UpdateProcess(raftIndex: nat, raw: seq<byte>, queryOf: QueryDecoder, due: bool) returns (r: Result<()>)
      requires WellFormed(store.bucket)
      requires persistentAppliedIndex <= raftIndex
      modifies this, parser, store
      ensures parser == old(parser) && WellFormed(store.bucket)
      ensures r.Ok? <==> BoundaryOfRaw(raw, queryOf).Some?
      ensures r.Ok? ==>
        var b := BoundaryOfRaw(raw, queryOf).value;
        && Value() == Observe(old(Value()), b)
        && (if Completes(old(Value()), b) && (raftIndex - old(persistentAppliedIndex) > PERSISTENT_COUNT || due)
            then persistentAppliedIndex == raftIndex && store.bucket ==
              old(store.bucket)[Executed := Set(executedGtidSet)][ApplyIndex := Number(raftIndex)]
            else persistentAppliedIndex == old(persistentAppliedIndex) && store.bucket == old(store.bucket))
      ensures r.Err? ==> Value() == old(Value()) && store.bucket == old(store.bucket)
    {
      if |raw| < HEADER {
        return Err(Fatal);
      }
      var h := HeaderOf(raw);
      if h.eventSize < HEADER || |raw| - HEADER != h.eventSize - HEADER || |raw| - HEADER < CHECKSUM {
        return Err(Fatal);
      }
      var boundary := BoundaryOf(h.eventType, h.flags, queryOf(BodyOf(raw)));
      if boundary.None? {
        return Err(Fatal);
      }
      var ok := parser.UpdateState(boundary.value);
      if !ok {
        parser.Reset();
        currentGtid := None;
        return Ok(());
      }
      if parser.IsNotInsideTransaction() && currentGtid.Some? && lastSaveGtid != currentGtid {
        OneGtid(currentGtid.value);
        var updated := Update(executedGtidSet, {currentGtid.value});
        executedGtidSet := updated.value;
        lastSaveGtid := currentGtid;
        if raftIndex - persistentAppliedIndex > PERSISTENT_COUNT || due {
          store.SetBinlogProgress(raftIndex, executedGtidSet);
          persistentAppliedIndex := raftIndex;
        }
      }
      r := Ok(());
    }
  }
}
