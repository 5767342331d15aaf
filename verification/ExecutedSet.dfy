/** Exactness of the executed set over streams of GTID-headed groups. */
module ExecutedSets {
  import opened Bytes
  import opened Gtids
  import opened TrxBoundaries
  import opened BinlogProgresses

  /** A GTID event and the boundaries that follow it up to the next GTID event. */
  datatype Item = Item(gtid: Gtid, body: seq<Boundary>)

  function Header(g: Gtid): Event {
    Event(GtidEvent, Some(g))
  }

  function Plain(bs: seq<Boundary>): (r: seq<Event>)
    ensures |r| == |bs|
  {
    if bs == [] then [] else [Event(bs[0], None)] + Plain(bs[1..])
  }

  function EventsOf(it: Item): seq<Event> {
    [Header(it.gtid)] + Plain(it.body)
  }

  function Stream(items: seq<Item>): seq<Event> {
    if items == [] then [] else EventsOf(items[0]) + Stream(items[1..])
  }

  ghost predicate Complete(it: Item) {
    Group([GtidEvent] + Strip(it.body))
  }

  ghost predicate CutShort(it: Item) {
    exists w :: Whole(w) && [GtidEvent] + Strip(it.body) < w
  }

  /** What may directly follow the GTID event of a group that is sent again. */
  predicate Resumes(it: Item) {
    it.body == [] || it.body[0] in {BeginTrx, PreStatement, Statement, Incident}
  }

  ghost predicate FollowsGrammar(it: Item) {
    Complete(it) || CutShort(it)
  }

  /** Groups follow the grammar; a group may be cut short if the next one resumes. */
  ghost predicate Lawful(items: seq<Item>) {
    items != [] ==>
      && FollowsGrammar(items[0])
      && (|items| > 1 && !Complete(items[0]) ==> Resumes(items[1]))
      && Lawful(items[1..])
  }

  ghost function Completed(items: seq<Item>): GtidSet {
    if items == [] then {}
    else (if Complete(items[0]) then {items[0].gtid} else {}) + Completed(items[1..])
  }

  // ---- One group -------------------------------------------------------------------

  /** The parser is outside a transaction after some event of the sequence. */
  predicate Visits(s: State, bs: seq<Boundary>)
    decreases |bs|
  {
    bs != [] && (Next(s, bs[0]) == Outside || Visits(Next(s, bs[0]), bs[1..]))
  }

  predicate Consistent(p: Progress) {
    p.lastSave.Some? ==> p.lastSave.value in p.executed
  }

  lemma {:induction false} BodyRun(p: Progress, bs: seq<Boundary>)
    requires p.current.Some? && Consistent(p)
    requires Run(p.state, bs).Some?
    ensures var q := AdvanceAll(p, Plain(bs));
      && q.state == Run(p.state, bs).value
      && q.current == p.current
      && Consistent(q)
      && q.executed == p.executed + (if Visits(p.state, bs) then {p.current.value} else {})
      && (Visits(p.state, bs) ==> q.lastSave == q.current)
      && (p.lastSave == p.current ==> q.lastSave == q.current)
    decreases |bs|
  {
    if bs != [] {
      var e := Plain(bs)[0];
      assert Plain(bs)[1..] == Plain(bs[1..]);
      BodyRun(Advance(p, e), bs[1..]);
    }
  }

  lemma {:induction false} EndVisits(s: State, bs: seq<Boundary>)
    requires s != Outside && Run(s, bs) == Some(Outside)
    ensures Visits(s, bs)
    decreases |bs|
  {
    if Next(s, bs[0]) != Outside {
      EndVisits(Next(s, bs[0]), bs[1..]);
    }
  }

  lemma {:induction false} VisitsStripped(s: State, bs: seq<Boundary>)
    requires s != Outside
    ensures Visits(s, bs) == Visits(s, Strip(bs))
    decreases |bs|
  {
    if bs != [] {
      var s' := Next(s, bs[0]);
      if bs[0] != Ignore {
        assert Strip(bs)[0] == bs[0] && Strip(bs)[1..] == Strip(bs[1..]);
      }
      if s' != Outside {
        VisitsStripped(s', bs[1..]);
      }
    }
  }

  lemma {:induction false} PrefixInside(w: seq<Boundary>, j: nat, m: nat, s: State)
    requires Whole(w) && j <= m < |w| && Open(w[..j], s)
    ensures Run(s, w[j..m]).Some? && !Visits(s, w[j..m])
    decreases m - j
  {
    if j < m {
      WholeStep(w, j, s);
      OpenGrows(w[..j], s, w[j]);
      assert w[..j] + [w[j]] == w[..j + 1];
      PrefixInside(w, j + 1, m, Next(s, w[j]));
      assert w[j..m][0] == w[j] && w[j..m][1..] == w[j + 1..m];
    }
  }

  lemma CompleteVisits(it: Item)
    requires Complete(it)
    ensures Run(AfterGtid, it.body) == Some(Outside) && Visits(AfterGtid, it.body)
  {
    var g := [GtidEvent] + Strip(it.body);
    GroupRuns(g);
    assert g[1..] == Strip(it.body);
    assert Run(Outside, g) == Run(AfterGtid, Strip(it.body));
    RunStripped(AfterGtid, it.body);
    EndVisits(AfterGtid, it.body);
  }

  lemma CutShortInside(it: Item)
    requires CutShort(it)
    ensures Run(AfterGtid, it.body).Some? && !Visits(AfterGtid, it.body)
  {
    var g := [GtidEvent] + Strip(it.body);
    var w :| Whole(w) && g < w;
    assert w[0] == g[0] && w[..1] == [GtidEvent];
    PrefixInside(w, 1, |g|, AfterGtid);
    assert w[1..|g|] == Strip(it.body);
    RunStripped(AfterGtid, it.body);
    VisitsStripped(AfterGtid, it.body);
  }

  /** After its GTID event, a group adds its GTID exactly when it completes. */
  lemma GroupBody(p: Progress, it: Item)
    requires p.state == AfterGtid && p.current == Some(it.gtid) && Consistent(p)
    requires FollowsGrammar(it)
    ensures var q := AdvanceAll(p, Plain(it.body));
      && Consistent(q)
      && q.executed == p.executed + (if Complete(it) then {it.gtid} else {})
      && (Complete(it) ==> q.state == Outside && q.lastSave == q.current)
  {
    if Complete(it) { CompleteVisits(it); } else { CutShortInside(it); }
    BodyRun(p, it.body);
  }

  /** A resumed group behaves as if its GTID event had been accepted. */
  lemma ResumedBody(p: Progress, it: Item)
    requires p.state == Outside && p.current.Some? && Resumes(it)
    ensures it.body != [] ==>
      AdvanceAll(p, Plain(it.body)) == AdvanceAll(p.(state := AfterGtid), Plain(it.body))
  {
    if it.body != [] {
      var e := Plain(it.body)[0];
      assert Advance(p, e) == Advance(p.(state := AfterGtid), e);
    }
  }

  /**
   Where the stream may be when a group starts: settled outside, or anywhere if the previous
   group was cut short.
   */
  predicate Ready(p: Progress) {
    p.state == Outside && (p.current.None? || p.lastSave == p.current)
  }

  lemma HeaderOnlyIsCutShort(g: Gtid)
    ensures !Complete(Item(g, []))
  {
    var w := [GtidEvent] + Strip([]);
    assert w == [GtidEvent];
  }

  lemma GroupStep(p: Progress, it: Item)
    requires Consistent(p)
    requires FollowsGrammar(it)
    requires p.state == Outside || Resumes(it)
    ensures var q := AdvanceAll(p, EventsOf(it));
      && Consistent(q)
      && q.executed == p.executed + (if Complete(it) then {it.gtid} else {})
      && (Complete(it) ==> Ready(q))
  {
    var q := Advance(p, Header(it.gtid));
    assert EventsOf(it)[1..] == Plain(it.body);
    GroupBody(q.(state := AfterGtid), it);
    if p.state != Outside {
      ResumedBody(q, it);
      if it.body == [] { HeaderOnlyIsCutShort(it.gtid); }
    }
  }

  // ---- The stream ------------------------------------------------------------------

  lemma {:induction false} ExactOverGroups(p: Progress, items: seq<Item>)
    requires Consistent(p) && Lawful(items)
    requires Ready(p) || (items != [] ==> Resumes(items[0]))
    ensures AdvanceAll(p, Stream(items)).executed == p.executed + Completed(items)
    decreases |items|
  {
    hide Complete, CutShort, Resumes, EventsOf;
    if items != [] {
      GroupStep(p, items[0]);
      AdvanceConcat(p, EventsOf(items[0]), Stream(items[1..]));
      ExactOverGroups(AdvanceAll(p, EventsOf(items[0])), items[1..]);
    }
  }

  /** The first k events of a stream, as groups. */
  function Truncate(items: seq<Item>, k: nat): seq<Item> {
    if items == [] || k == 0 then []
    else
      var it := items[0];
      if k > |it.body| then [it] + Truncate(items[1..], k - 1 - |it.body|)
      else [Item(it.gtid, it.body[..k - 1])]
  }

  lemma {:induction false} PlainPrefix(bs: seq<Boundary>, k: nat)
    requires k <= |bs|
    ensures Plain(bs[..k]) == Plain(bs)[..k]
  {
    if k > 0 {
      PlainPrefix(bs[1..], k - 1);
      assert bs[..k][1..] == bs[1..][..k - 1];
    }
  }

  lemma {:induction false} TruncateIsPrefix(items: seq<Item>, k: nat)
    requires k <= |Stream(items)|
    ensures Stream(Truncate(items, k)) == Stream(items)[..k]
    decreases |items|
  {
    if items != [] && k > 0 {
      var it, rest := items[0], items[1..];
      var t := Truncate(items, k);
      if k > |it.body| {
        TruncateIsPrefix(rest, k - 1 - |it.body|);
        assert t[0] == it && t[1..] == Truncate(rest, k - 1 - |it.body|);
      } else {
        PlainPrefix(it.body, k - 1);
        assert Stream(t[1..]) == [];
      }
    }
  }

  lemma PrefixFollowsGrammar(it: Item, k: nat)
    requires FollowsGrammar(it) && k <= |it.body|
    ensures FollowsGrammar(Item(it.gtid, it.body[..k]))
  {
    hide Whole;
    var g, p := [GtidEvent] + Strip(it.body), [GtidEvent] + Strip(it.body[..k]);
    StripConcat(it.body[..k], it.body[k..]);
    assert it.body[..k] + it.body[k..] == it.body;
    assert p <= g;
    if p == g {
      assert Group(g) || exists w :: Whole(w) && g < w;
    } else {
      var w := g;
      if CutShort(it) {
        w :| Whole(w) && g < w;
      } else if CutOff(g) {
        w :| Whole(w) && g[..|g| - 1] < w;
      }
      assert Whole(w) && p < w;
    }
  }

  lemma {:induction false} TruncateLawful(items: seq<Item>, k: nat)
    requires Lawful(items)
    ensures Lawful(Truncate(items, k))
    decreases |items|
  {
    hide FollowsGrammar, Complete;
    if items != [] && k > 0 {
      var it, rest := items[0], items[1..];
      if k > |it.body| {
        TruncateLawful(rest, k - 1 - |it.body|);
        assert Truncate(items, k)[1..] == Truncate(rest, k - 1 - |it.body|);
      } else {
        PrefixFollowsGrammar(it, k - 1);
      }
    }
  }

  lemma {:induction false} IgnoresKeep(p: Progress, n: nat)
    requires Ready(p)
    ensures AdvanceAll(p, Plain(seq(n, _ => Ignore))) == p
  {
    var bs := seq(n, _ => Ignore);
    if n > 0 {
      assert bs[1..] == seq(n - 1, _ => Ignore);
      assert Plain(bs)[1..] == Plain(bs[1..]);
      IgnoresKeep(p, n - 1);
    }
  }

  /**
   On every prefix of a lawful stream, the executed set is the initial one plus exactly the
   GTIDs of the groups completed so far.
   */
  lemma ExecutedSetExact(p: Progress, lead: nat, items: seq<Item>, k: nat)
    requires Consistent(p) && Ready(p) && Lawful(items) && k <= |Stream(items)|
    ensures AdvanceAll(p, Plain(seq(lead, _ => Ignore)) + Stream(items)[..k]).executed
      == p.executed + Completed(Truncate(items, k))
  {
    IgnoresKeep(p, lead);
    AdvanceConcat(p, Plain(seq(lead, _ => Ignore)), Stream(items)[..k]);
    TruncateIsPrefix(items, k);
    TruncateLawful(items, k);
    ExactOverGroups(p, Truncate(items, k));
  }

  // ---- Groups sent again -----------------------------------------------------------

  ghost predicate ExactAfterCut(p: Progress, it: Item) {
    forall k :: 0 <= k <= |it.body| ==> ExactAt(p, it, k)
  }

  ghost predicate ExactAt(p: Progress, it: Item, k: nat)
    requires k <= |it.body|
  {
    var part := Item(it.gtid, it.body[..k]);
    AdvanceAll(p, EventsOf(part)).executed == p.executed + (if Complete(part) then {it.gtid} else {})
  }

  /**
   After a group was cut short, the next one is tracked exactly if and only if nothing but a
   BEGIN, a statement, a pre-statement or an incident directly follows its GTID event.
   */
  lemma ExactAfterCutIff(p: Progress, it: Item)
    requires p.state.AfterGtid? || p.state.InDdl? || p.state.InDml?
    requires Consistent(p) && FollowsGrammar(it) && it.gtid !in p.executed
    ensures ExactAfterCut(p, it) <==> Resumes(it)
  {
    if Resumes(it) {
      forall k | 0 <= k <= |it.body| ensures ExactAt(p, it, k) {
        PrefixFollowsGrammar(it, k);
        GroupStep(p, Item(it.gtid, it.body[..k]));
      }
    } else {
      NotResumed(p, it);
    }
  }

  lemma TwoEvents(p: Progress, it: Item, b: Boundary)
    requires it.body == [b]
    ensures AdvanceAll(p, EventsOf(it)) == Advance(Advance(p, Header(it.gtid)), Event(b, None))
  {
    var h, e := Header(it.gtid), Event(b, None);
    assert Plain([b]) == [e];
    assert EventsOf(it) == [h] + [e];
    AdvanceConcat(p, [h], [e]);
  }

  /**
   An ignorable event after the GTID event counts the GTID too early, and an XA rollback loses
   it.
   */
  lemma NotResumed(p: Progress, it: Item)
    requires p.state.AfterGtid? || p.state.InDdl? || p.state.InDml?
    requires Consistent(p) && FollowsGrammar(it) && it.gtid !in p.executed
    requires !Resumes(it)
    ensures !ExactAt(p, it, 1)
  {
    var part := Item(it.gtid, it.body[..1]);
    var b := it.body[0];
    assert part.body == [b];
    if Complete(it) { CompleteVisits(it); } else { CutShortInside(it); }
    assert b == Ignore || b == EndXaTrx;
    TwoEvents(p, part, b);
    if b == Ignore {
      assert Strip(part.body) == [];
      HeaderOnlyIsCutShort(it.gtid);
    } else {
      assert [GtidEvent] + Strip(part.body) == [GtidEvent, EndXaTrx];
    }
  }
}
