/**
 The raft loop, the apply loop and the purger together (raft/raft.go, server/apply.go): what
 is applied is a prefix of what raft committed, and what is applied stays in the log.
 */
module AppliedPrefix {
  import opened Messages
  import opened RecordLog
  import opened RaftNodes
  import opened Appliers

  datatype System = System(
    log: seq<Entry>,          // stored entries
    base: nat,                // applied index at the start
    committed: seq<Entry>,    // everything raft has reported committed beyond base
    queue: seq<seq<Entry>>,   // committed batches on their way to the apply loop
    applying: seq<Entry>,     // rest of the batch being applied
    applied: nat,             // applied index
    trace: seq<Entry>)        // everything applied since the start, in order

  // ---- the log by index -------------------------------------------------------------

  predicate Holds(log: seq<Entry>, i: nat)
  {
    log != [] && log[0].index <= i < log[0].index + |log|
  }

  function At(log: seq<Entry>, i: nat): Entry
    requires Holds(log, i)
  {
    log[i - log[0].index]
  }

  function CommitIndex(s: System): nat
  {
    s.base + |s.committed|
  }

  // ---- steps ------------------------------------------------------------------------

  /** The part of a committed batch that raft reports for the first time. */
  function News(comm: seq<Entry>, commit: nat): seq<Entry>
    requires comm != [] ==> comm[0].index <= commit + 1
  {
    Unapplied(comm, commit)
  }

  /** An entry of a batch is the committed entry of its index, or from before the start. */
  predicate Known(e: Entry, base: nat, committed: seq<Entry>)
  {
    e.index <= base || (e.index <= base + |committed| && committed[e.index - base - 1] == e)
  }

  predicate AllKnown(es: seq<Entry>, base: nat, committed: seq<Entry>)
  {
    forall i :: 0 <= i < |es| ==> Known(es[i], base, committed)
  }

  /**
   What raft promises of a ready batch: new entries start inside the log or right behind it and
   never at a committed index; committed entries continue the committed sequence, agree with it
   where they overlap it, and are in the log once the new entries are.
   */
  ghost predicate RaftPromise(s: System, ents: seq<Entry>, comm: seq<Entry>)
  {
    && Acceptable(s.log, ents)
    && (ents != [] ==> CommitIndex(s) < ents[0].index)
    && Contiguous(comm) && (comm != [] ==> comm[0].index <= CommitIndex(s) + 1)
    && AllKnown(comm, s.base, s.committed + News(comm, CommitIndex(s)))
    && forall i :: 0 <= i < |News(comm, CommitIndex(s))| ==>
         var e := News(comm, CommitIndex(s))[i];
         Holds(Appended(s.log, ents), e.index) && At(Appended(s.log, ents), e.index) == e
  }

  /** A ready batch: entries are stored before the committed ones are queued. */
  ghost predicate ReadyStep(s: System, t: System, ents: seq<Entry>, comm: seq<Entry>)
  {
    && RaftPromise(s, ents, comm)
    && t == s.(log := Appended(s.log, ents),
               committed := s.committed + News(comm, CommitIndex(s)),
               queue := s.queue + [comm])
  }

  /** The apply loop takes the next batch and drops what is applied already. */
  ghost predicate TakeStep(s: System, t: System)
  {
    && s.applying == [] && s.queue != []
    && (s.queue[0] != [] ==> s.queue[0][0].index <= s.applied + 1)
    && t == s.(queue := s.queue[1..], applying := Unapplied(s.queue[0], s.applied))
  }

  ghost predicate ApplyStep(s: System, t: System)
  {
    && s.applying != []
    && t == s.(applying := s.applying[1..], applied := s.applying[0].index, trace := s.trace + [s.applying[0]])
  }

  /** The oldest segments go; the last one stays. */
  ghost predicate PurgeStep(s: System, t: System, n: nat)
  {
    n < |s.log| && t == s.(log := s.log[n..])
  }

  ghost predicate Step(s: System, t: System)
  {
    || (exists ents, comm :: ReadyStep(s, t, ents, comm))
    || TakeStep(s, t)
    || ApplyStep(s, t)
    || (exists n :: PurgeStep(s, t, n))
  }

  // ---- the invariant ----------------------------------------------------------------

  function Reach(es: seq<Entry>, from: nat): nat
  {
    if es == [] || es[|es| - 1].index < from then from else es[|es| - 1].index
  }

  /** Each queued batch continues from what the ones before it reach, and the last reaches the commit index. */
  ghost predicate Continues(queue: seq<seq<Entry>>, from: nat, s: System)
  {
    if queue == [] then from == CommitIndex(s)
    else
      && Contiguous(queue[0]) && AllKnown(queue[0], s.base, s.committed)
      && (queue[0] != [] ==> queue[0][0].index <= from + 1)
      && Continues(queue[1..], Reach(queue[0], from), s)
  }

  ghost predicate LogSound(s: System)
  {
    && Contiguous(s.log)
    && (s.log == [] ==> CommitIndex(s) == 0)
    && (s.log != [] ==> CommitIndex(s) < s.log[0].index + |s.log|)
    && (forall i :: 0 <= i < |s.committed| ==> s.committed[i].index == s.base + 1 + i)
    && (forall i :: 0 <= i < |s.committed| && s.log != [] && s.log[0].index <= s.base + 1 + i ==>
          At(s.log, s.base + 1 + i) == s.committed[i])
  }

  ghost predicate ApplySound(s: System)
  {
    && s.base <= s.applied <= CommitIndex(s)
    && s.trace == s.committed[..s.applied - s.base]
    && s.applied + |s.applying| <= CommitIndex(s)
    && s.applying == s.committed[s.applied - s.base..s.applied - s.base + |s.applying|]
    && Continues(s.queue, s.applied + |s.applying|, s)
  }

  ghost predicate Inv(s: System)
  {
    LogSound(s) && ApplySound(s)
  }

  /** A start: nothing queued, and the applied index is inside the stored log. */
  ghost predicate Init(s: System)
  {
    && Contiguous(s.log)
    && s.base == s.applied && s.committed == [] && s.queue == [] && s.applying == [] && s.trace == []
    && (if s.log == [] then s.base == 0 else s.base < s.log[0].index + |s.log|)
  }

  // ---- preservation -----------------------------------------------------------------

  lemma AppendedKeeps(log: seq<Entry>, ents: seq<Entry>, i: nat)
    requires Contiguous(log) && Acceptable(log, ents) && Holds(log, i)
    requires ents != [] ==> i < ents[0].index
    ensures Holds(Appended(log, ents), i) && At(Appended(log, ents), i) == At(log, i)
  {
    if ents != [] {
      var kept := Below(log, ents[0].index);
      assert kept == log[..ents[0].index - log[0].index];
    }
  }

  lemma NewsContinue(s: System, comm: seq<Entry>)
    requires Contiguous(comm) && (comm != [] ==> comm[0].index <= CommitIndex(s) + 1)
    ensures var news := News(comm, CommitIndex(s));
            && (forall i :: 0 <= i < |news| ==> news[i].index == CommitIndex(s) + 1 + i)
            && Reach(comm, CommitIndex(s)) == CommitIndex(s) + |news|
  {
  }

  lemma CommittedAt(s: System, t: System, ents: seq<Entry>, comm: seq<Entry>, i: nat)
    requires LogSound(s) && ReadyStep(s, t, ents, comm) && i < |t.committed|
    ensures t.committed[i].index == t.base + 1 + i
    ensures t.log != [] && t.log[0].index <= t.base + 1 + i ==>
              Holds(t.log, t.base + 1 + i) && At(t.log, t.base + 1 + i) == t.committed[i]
  {
    hide AllKnown, Acceptable, Appended, Reach;
    var news := News(comm, CommitIndex(s));
    NewsContinue(s, comm);
    hide News;
    if i >= |s.committed| {
      assert t.committed[i] == news[i - |s.committed|];
    } else if t.log != [] && t.log[0].index <= t.base + 1 + i {
      OldCommitted(s, t, ents, i);
    }
  }

  lemma ReadyKeepsLog(s: System, t: System, ents: seq<Entry>, comm: seq<Entry>)
    requires LogSound(s) && ReadyStep(s, t, ents, comm)
    ensures LogSound(t)
  {
    assert Contiguous(t.log) by { AppendedContiguous(s.log, ents); }
    hide ReadyStep, Contiguous;
    forall i | 0 <= i < |t.committed|
      ensures t.committed[i].index == t.base + 1 + i
      ensures t.log != [] && t.log[0].index <= t.base + 1 + i ==>
                Holds(t.log, t.base + 1 + i) && At(t.log, t.base + 1 + i) == t.committed[i]
    {
      CommittedAt(s, t, ents, comm, i);
    }
    LastCovered(s, t, ents, comm);
  }

  lemma OldCommitted(s: System, t: System, ents: seq<Entry>, i: nat)
    requires LogSound(s) && Acceptable(s.log, ents) && (ents != [] ==> CommitIndex(s) < ents[0].index)
    requires t.log == Appended(s.log, ents) && t.log != []
    requires i < |s.committed| && t.log[0].index <= s.base + 1 + i
    ensures Holds(t.log, s.base + 1 + i) && At(t.log, s.base + 1 + i) == s.committed[i]
  {
    AppendedContiguous(s.log, ents);
    assert s.log != [];
    assert t.log[0].index >= s.log[0].index;
    AppendedKeeps(s.log, ents, s.base + 1 + i);
  }

  lemma LastCovered(s: System, t: System, ents: seq<Entry>, comm: seq<Entry>)
    requires LogSound(s) && ReadyStep(s, t, ents, comm)
    ensures if t.log == [] then CommitIndex(t) == 0 else CommitIndex(t) < t.log[0].index + |t.log|
  {
    hide AllKnown;
    var news := News(comm, CommitIndex(s));
    NewsContinue(s, comm);
    if news != [] {
      assert Holds(t.log, news[|news| - 1].index);
    } else if s.log != [] {
      AppendedContiguous(s.log, ents);
      if CommitIndex(s) >= s.log[0].index {
        AppendedKeeps(s.log, ents, CommitIndex(s));
      }
    }
  }

  lemma {:induction false} ContinuesGrows(queue: seq<seq<Entry>>, from: nat, s: System, t: System, comm: seq<Entry>)
    requires Continues(queue, from, s)
    requires t.base == s.base && Contiguous(comm) && (comm != [] ==> comm[0].index <= CommitIndex(s) + 1)
    requires t.committed == s.committed + News(comm, CommitIndex(s)) && AllKnown(comm, t.base, t.committed)
    ensures Continues(queue + [comm], from, t)
    decreases |queue|
  {
    var more := queue + [comm];
    NewsContinue(s, comm);
    if queue == [] {
      assert more[0] == comm && more[1..] == [];
    } else {
      assert more[0] == queue[0] && more[1..] == queue[1..] + [comm];
      assert AllKnown(queue[0], t.base, t.committed);
      ContinuesGrows(queue[1..], Reach(queue[0], from), s, t, comm);
    }
  }

  lemma ReadyKeeps(s: System, t: System, ents: seq<Entry>, comm: seq<Entry>)
    requires Inv(s) && ReadyStep(s, t, ents, comm)
    ensures Inv(t)
  {
    hide LogSound, Continues, Acceptable, Appended, Contiguous, AllKnown, Holds;
    ReadyKeepsLog(s, t, ents, comm);
    ContinuesGrows(s.queue, s.applied + |s.applying|, s, t, comm);
    var a, b := s.applied - s.base, s.applied - s.base + |s.applying|;
    assert t.committed[..a] == s.committed[..a];
    assert t.committed[a..b] == s.committed[a..b];
  }

  /** The committed entries beyond a point, from a batch whose entries are all known. */
  lemma UnappliedIsCommitted(s: System, batch: seq<Entry>)
    requires s.base <= s.applied <= CommitIndex(s)
    requires Contiguous(batch) && AllKnown(batch, s.base, s.committed)
    requires batch != [] ==> batch[0].index <= s.applied + 1
    ensures var es := Unapplied(batch, s.applied);
            && s.applied + |es| <= CommitIndex(s)
            && es == s.committed[s.applied - s.base..s.applied - s.base + |es|]
            && Reach(batch, s.applied) == s.applied + |es|
  {
    var es := Unapplied(batch, s.applied);
    if es != [] {
      var d := s.applied + 1 - batch[0].index;
      assert es == batch[d..];
      assert batch[|batch| - 1].index == s.applied + |es|;
      assert Known(batch[|batch| - 1], s.base, s.committed);
      forall i | 0 <= i < |es| ensures es[i] == s.committed[s.applied - s.base + i] {
        assert es[i] == batch[d + i] && batch[d + i].index == s.applied + 1 + i;
        assert Known(batch[d + i], s.base, s.committed);
      }
    }
  }

  lemma TakeKeeps(s: System, t: System)
    requires Inv(s) && TakeStep(s, t)
    ensures Inv(t)
  {
    hide LogSound, Contiguous, AllKnown;
    UnappliedIsCommitted(s, s.queue[0]);
    assert Continues(s.queue[1..], Reach(s.queue[0], s.applied), s);
    hide Unapplied, Reach, Continues;
    ContinuesSame(t.queue, t.applied + |t.applying|, s, t);
    LogSame(s, t);
  }

  lemma LogSame(s: System, t: System)
    requires LogSound(s) && t.log == s.log && t.base == s.base && t.committed == s.committed
    ensures LogSound(t)
  {
  }

  lemma {:induction false} ContinuesSame(queue: seq<seq<Entry>>, from: nat, s: System, t: System)
    requires s.base == t.base && s.committed == t.committed && Continues(queue, from, s)
    ensures Continues(queue, from, t)
    decreases |queue|
  {
    if queue != [] {
      ContinuesSame(queue[1..], Reach(queue[0], from), s, t);
    }
  }

  lemma ApplyKeeps(s: System, t: System)
    requires Inv(s) && ApplyStep(s, t)
    ensures Inv(t)
    ensures t.applied == s.applied + 1
  {
    hide Continues;
    var a := s.applied - s.base;
    assert s.committed[a].index == s.applied + 1;
    hide LogSound;
    LogSame(s, t);
    ContinuesSame(t.queue, s.applied + |s.applying|, s, t);
    assert s.applying[0] == s.committed[a];
    assert t.trace == s.committed[..a + 1];
    assert s.committed[a..a + |s.applying|][1..] == s.committed[a + 1..a + |s.applying|];
  }

  lemma PurgeKeepsLog(s: System, t: System, n: nat)
    requires LogSound(s) && PurgeStep(s, t, n)
    ensures LogSound(t)
  {
    assert t.log[0].index == s.log[0].index + n;
    assert forall i :: 0 <= i < |t.log| ==> t.log[i] == s.log[n + i];
  }

  lemma PurgeKeeps(s: System, t: System, n: nat)
    requires Inv(s) && PurgeStep(s, t, n)
    ensures Inv(t)
  {
    hide LogSound, Continues;
    PurgeKeepsLog(s, t, n);
    ContinuesSame(t.queue, s.applied + |s.applying|, s, t);
  }

  lemma StepKeeps(s: System, t: System)
    requires Inv(s) && Step(s, t)
    ensures Inv(t)
  {
    hide Inv, RaftPromise;
    if ents, comm :| ReadyStep(s, t, ents, comm) {
      ReadyKeeps(s, t, ents, comm);
    } else if n :| PurgeStep(s, t, n) {
      PurgeKeeps(s, t, n);
    } else if TakeStep(s, t) {
      TakeKeeps(s, t);
    } else {
      ApplyKeeps(s, t);
    }
  }

  // ---- runs -------------------------------------------------------------------------

  ghost predicate StepAt(run: seq<System>, i: nat)
    requires i + 1 < |run|
  {
    Step(run[i], run[i + 1])
  }

  ghost predicate IsRun(run: seq<System>)
  {
    run != [] && Init(run[0]) && forall i :: 0 <= i < |run| - 1 ==> StepAt(run, i)
  }

  lemma InitInv(s: System)
    requires Init(s)
    ensures Inv(s)
  {
  }

  lemma RunStarts(run: seq<System>)
    requires IsRun(run)
    ensures Inv(run[0])
  {
    InitInv(run[0]);
  }

  lemma RunSteps(run: seq<System>, n: nat)
    requires IsRun(run) && n + 1 < |run|
    ensures Step(run[n], run[n + 1])
  {
    hide Step;
    assert StepAt(run, n);
  }

  lemma {:induction false} RunInv(run: seq<System>, n: nat)
    requires IsRun(run) && n < |run|
    ensures Inv(run[n])
    decreases n
  {
    hide Inv, Step, IsRun;
    if n == 0 {
      RunStarts(run);
    } else {
      RunInv(run, n - 1);
      RunSteps(run, n - 1);
      StepKeeps(run[n - 1], run[n]);
    }
  }

  /**
   In every reachable state: what was applied is exactly the committed entries up to the applied
   index, each once and in order; the applied index is inside the stored log; every applied
   entry that is not purged is in the log; and the next batch never starts beyond the next index.
   */
  lemma AppliedIsCommittedPrefix(run: seq<System>, n: nat)
    requires IsRun(run) && n < |run|
    ensures var s := run[n];
            && s.base <= s.applied <= CommitIndex(s)
            && s.trace == s.committed[..s.applied - s.base]
            && (forall i :: 0 <= i < |s.trace| ==> s.trace[i].index == s.base + 1 + i)
            && (s.log == [] ==> s.applied == 0)
            && (s.log != [] ==> s.applied <= s.log[0].index + |s.log| - 1)
            && (forall i :: 0 <= i < |s.trace| && s.log != [] && s.log[0].index <= s.trace[i].index ==>
                  Holds(s.log, s.trace[i].index) && At(s.log, s.trace[i].index) == s.trace[i])
            && (s.applying == [] && s.queue != [] && s.queue[0] != [] ==> s.queue[0][0].index <= s.applied + 1)
  {
    RunInv(run, n);
    hide IsRun;
  }

  lemma StepStable(s: System, t: System, i: nat)
    requires Inv(s) && Step(s, t)
    requires i <= s.applied && Holds(s.log, i) && t.log != [] && t.log[0].index <= i
    ensures Holds(t.log, i) && At(t.log, i) == At(s.log, i)
    ensures s.applied <= t.applied
  {
    hide Continues;
    if ents, comm :| ReadyStep(s, t, ents, comm) {
      hide AllKnown, News, Appended;
      AppendedKeeps(s.log, ents, i);
    } else if n :| PurgeStep(s, t, n) {
      assert t.log[0].index == s.log[0].index + n;
    } else if ApplyStep(s, t) {
      assert s.applying[0] == s.committed[s.applied - s.base];
    }
  }

  lemma StepFirst(s: System, t: System)
    requires Inv(s) && Step(s, t) && s.log != []
    ensures t.log != [] && s.log[0].index <= t.log[0].index
  {
    hide Continues;
    if ents, comm :| ReadyStep(s, t, ents, comm) {
      hide AllKnown, News;
      AppendedContiguous(s.log, ents);
    } else if n :| PurgeStep(s, t, n) {
      assert t.log[0].index == s.log[0].index + n;
    }
  }

  /** An entry that was applied, and so could be read by a dump, never changes until it is purged. */
  lemma {:induction false} AppliedNeverChanges(run: seq<System>, m: nat, n: nat, i: nat)
    requires IsRun(run) && m <= n < |run|
    requires i <= run[m].applied && Holds(run[m].log, i) && run[n].log != [] && run[n].log[0].index <= i
    ensures Holds(run[n].log, i) && At(run[n].log, i) == At(run[m].log, i) && i <= run[n].applied
    decreases n
  {
    hide Inv, Step, IsRun;
    if m < n {
      LogStays(run, m, n - 1);
      RunInv(run, n - 1);
      RunSteps(run, n - 1);
      StepFirst(run[n - 1], run[n]);
      AppliedNeverChanges(run, m, n - 1, i);
      StepStable(run[n - 1], run[n], i);
    }
  }

  lemma {:induction false} LogStays(run: seq<System>, m: nat, n: nat)
    requires IsRun(run) && m <= n < |run| && run[m].log != []
    ensures run[n].log != []
    decreases n
  {
    hide Inv, Step, IsRun;
    if m < n {
      LogStays(run, m, n - 1);
      RunInv(run, n - 1);
      RunSteps(run, n - 1);
      StepFirst(run[n - 1], run[n]);
    }
  }
}
