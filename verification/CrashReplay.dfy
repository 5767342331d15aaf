/**
 Crash transparency of the executed set: a node may stop at any point, load the stored (applied
 index, executed set) pair and replay the log from there.
 */
module CrashReplay {
  import opened Bytes
  import opened Gtids
  import opened TrxBoundaries
  import opened BinlogProgresses
  import opened ExecutedSets

  /** What a raft log entry means to progress. */
  datatype Command =
    | Binlog(event: Event)
    | GtidOnly(gtid: Gtid)
    | MasterPurged(gtids: GtidSet)
    | Unrelated

  predicate WellFormedLog(log: seq<Command>) {
    forall i :: 0 <= i < |log| && log[i].Binlog? ==> WellFormedEvent(log[i].event)
  }

  function Apply(p: Progress, c: Command): Progress {
    match c
    case Binlog(e) => Advance(p, e)
    case GtidOnly(g) => p.(current := Some(g))
    case MasterPurged(gtids) => Reset(p, gtids)
    case Unrelated => p
  }

  /** The uninterrupted run over the first n entries. */
  function Reference(log: seq<Command>, initial: GtidSet, n: nat): Progress
    requires n <= |log|
  {
    if n == 0 then Start(initial) else Apply(Reference(log, initial, n - 1), log[n - 1])
  }

  /**
   A node: its progress in memory, the stored pair, how far it has applied the log, and how far
   it ever had.
   */
  datatype Node = Node(
    progress: Progress, storedIndex: nat, storedSet: GtidSet, applied: nat, furthest: nat)

  /**
   A node applies the next entry, storing its progress if a transaction completes and the clock
   or the counter asks for it; or it crashes.
   */
  datatype Action = ApplyOne(save: bool) | Crash

  function Init(initial: GtidSet): Node {
    Node(Start(initial), 0, initial, 0, 0)
  }

  function ApplyCommand(n: Node, c: Command, save: bool): Node {
    var p := Apply(n.progress, c);
    var i := n.applied + 1;
    var checkpoint := c.Binlog? && Completes(n.progress, c.event.boundary) && save;
    Node(
      p,
      if checkpoint then i else n.storedIndex,
      if checkpoint || (c.MasterPurged? && c.gtids != {}) then p.executed else n.storedSet,
      i,
      if n.furthest < i then i else n.furthest)
  }

  function ApplyNext(log: seq<Command>, n: Node, save: bool): Node
    requires n.applied < |log|
  {
    ApplyCommand(n, log[n.applied], save)
  }

  function Act(log: seq<Command>, n: Node, a: Action): Node {
    match a
    case Crash => n.(progress := Start(n.storedSet), applied := n.storedIndex)
    case ApplyOne(save) => if n.applied < |log| then ApplyNext(log, n, save) else n
  }

  function Execute(log: seq<Command>, n: Node, actions: seq<Action>): Node
    decreases |actions|
  {
    if actions == [] then n else Execute(log, Act(log, n, actions[0]), actions[1..])
  }

  // ---- The invariant ---------------------------------------------------------------

  predicate Settled(p: Progress) {
    p.current.None? || p.lastSave == p.current
  }

  /** Two progresses that agree on everything the future depends on. */
  predicate Similar(p: Progress, r: Progress) {
    && p.state == r.state
    && (p.current == r.current || (Settled(p) && Settled(r)))
    && Consistent(p) && Consistent(r)
    && r.executed <= p.executed
  }

  ghost predicate Inv(log: seq<Command>, initial: GtidSet, n: Node) {
    && n.storedIndex <= n.applied <= n.furthest <= |log|
    && Similar(n.progress, Reference(log, initial, n.applied))
    && Similar(Start(n.storedSet), Reference(log, initial, n.storedIndex))
    && n.progress.executed <= Reference(log, initial, n.furthest).executed
    && n.storedSet <= Reference(log, initial, n.furthest).executed
  }

  lemma {:induction false} ReferenceGrows(log: seq<Command>, initial: GtidSet, i: nat, j: nat)
    requires i <= j <= |log|
    ensures Reference(log, initial, i).executed <= Reference(log, initial, j).executed
    decreases j
  {
    if i < j {
      ReferenceGrows(log, initial, i, j - 1);
    }
  }

  /**
   One entry keeps two progresses similar, and whatever the first one adds the second one has as
   well.
   */
  lemma SimilarStep(p: Progress, r: Progress, c: Command)
    requires Similar(p, r)
    requires c.Binlog? ==> WellFormedEvent(c.event)
    ensures Similar(Apply(p, c), Apply(r, c))
    ensures Apply(p, c).executed <= p.executed + Apply(r, c).executed
    ensures c.Binlog? && Completes(p, c.event.boundary) ==>
      Apply(r, c).state == Outside && Settled(Apply(r, c)) && Settled(Apply(p, c))
  {
  }

  lemma NextKeeps(log: seq<Command>, initial: GtidSet, n: Node, save: bool)
    requires WellFormedLog(log) && Inv(log, initial, n) && n.applied < |log|
    ensures Inv(log, initial, ApplyNext(log, n, save))
  {
    var c, i := log[n.applied], n.applied + 1;
    var m := ApplyNext(log, n, save);
    var r, r' := Reference(log, initial, n.applied), Reference(log, initial, i);
    assert r' == Apply(r, c);
    SimilarStep(n.progress, r, c);
    hide Apply, Completes, Reference;
    ReferenceGrows(log, initial, i, m.furthest);
    ReferenceGrows(log, initial, n.furthest, m.furthest);
    ReferenceGrows(log, initial, n.storedIndex, i);
    hide Similar;
    assert Similar(Start(m.storedSet), Reference(log, initial, m.storedIndex)) by {
      StoredSimilar(log, initial, n, save);
    }
  }

  lemma StoredSimilar(log: seq<Command>, initial: GtidSet, n: Node, save: bool)
    requires WellFormedLog(log) && Inv(log, initial, n) && n.applied < |log|
    ensures
      var m := ApplyNext(log, n, save);
      m.storedIndex <= |log| && Similar(Start(m.storedSet), Reference(log, initial, m.storedIndex))
  {
    var c, i := log[n.applied], n.applied + 1;
    var r := Reference(log, initial, n.applied);
    assert Reference(log, initial, i) == Apply(r, c);
    SimilarStep(n.progress, r, c);
    ReferenceGrows(log, initial, n.storedIndex, i);
  }

  lemma {:induction false} InvAlways(log: seq<Command>, initial: GtidSet, n: Node, actions: seq<Action>)
    requires WellFormedLog(log) && Inv(log, initial, n)
    ensures Inv(log, initial, Execute(log, n, actions))
    decreases |actions|
  {
    if actions != [] {
      var a := actions[0];
      if a.ApplyOne? && n.applied < |log| {
        NextKeeps(log, initial, n, a.save);
      }
      InvAlways(log, initial, Act(log, n, a), actions[1..]);
    }
  }

  /**
   Over every log, every choice of checkpoints and every sequence of crashes, a node that has
   caught up with the furthest entry it ever applied has exactly the executed set of the
   uninterrupted run.
   */
  lemma CrashTransparent(log: seq<Command>, initial: GtidSet, actions: seq<Action>)
    requires WellFormedLog(log)
    ensures var n := Execute(log, Init(initial), actions);
      && n.applied <= n.furthest <= |log|
      && Reference(log, initial, n.applied).executed <= n.progress.executed
      && n.progress.executed <= Reference(log, initial, n.furthest).executed
      && (n.applied == n.furthest ==>
        n.progress.executed == Reference(log, initial, n.applied).executed)
  {
    assert Inv(log, initial, Init(initial));
    InvAlways(log, initial, Init(initial), actions);
  }

  /** Replaying the rest of the log after any history. */
  function Replays(n: nat, save: bool): (r: seq<Action>)
    ensures |r| == n
  {
    seq(n, _ => ApplyOne(save))
  }

  lemma {:induction false} ReplayReachesEnd(log: seq<Command>, n: Node, k: nat, save: bool)
    requires n.applied <= |log| && n.furthest <= |log| && n.applied + k == |log|
    ensures var m := Execute(log, n, Replays(k, save)); m.applied == |log| && (k > 0 ==> m.furthest == |log|)
    ensures k == 0 ==> Execute(log, n, Replays(k, save)) == n
    decreases k
  {
    if k > 0 {
      assert Replays(k, save)[1..] == Replays(k - 1, save);
      ReplayReachesEnd(log, ApplyNext(log, n, save), k - 1, save);
    }
  }

  lemma {:induction false} ExecuteConcat(log: seq<Command>, n: Node, a: seq<Action>, b: seq<Action>)
    ensures Execute(log, n, a + b) == Execute(log, Execute(log, n, a), b)
    decreases |a|
  {
    if a == [] {
      assert a + b == b;
    } else {
      assert (a + b)[1..] == a[1..] + b;
      ExecuteConcat(log, Act(log, n, a[0]), a[1..], b);
    }
  }

  /**
   Whatever happened before, a restart followed by a replay of the rest of the log ends with the
   executed set of the uninterrupted run.
   */
  lemma RestartAndReplay(log: seq<Command>, initial: GtidSet, actions: seq<Action>, save: bool)
    requires WellFormedLog(log)
    ensures var n := Execute(log, Init(initial), actions + [Crash]);
      && n.applied <= |log|
      && Execute(log, n, Replays(|log| - n.applied, save)).progress.executed
          == Reference(log, initial, |log|).executed
  {
    hide Execute, Reference, Replays, WellFormedLog;
    var before := actions + [Crash];
    CrashTransparent(log, initial, before);
    var n := Execute(log, Init(initial), before);
    var k := |log| - n.applied;
    ReplayReachesEnd(log, n, k, save);
    ExecuteConcat(log, Init(initial), before, Replays(k, save));
    CrashTransparent(log, initial, before + Replays(k, save));
  }
}
