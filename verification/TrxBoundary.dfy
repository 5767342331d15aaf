/**
 The transaction boundary parser: which sequences of binlog events form complete transactions
 (mysql/trx_boundary_parser.go).
 */
module TrxBoundaries {
  import opened Bytes

  datatype Boundary =
    | GtidEvent | BeginTrx | EndTrx | EndXaTrx | PreStatement | Statement | Incident | Ignore | Unsupported

  datatype State = Outside | AfterGtid | InDdl | InDml | Failed

  // ---- Classifying one event -------------------------------------------------------

  /** Event type codes of the replication protocol. */
  const QUERY_EVENT := 2
  const XID_EVENT := 16
  const INCIDENT_EVENT := 26
  const GTID_EVENT := 33
  const ANONYMOUS_GTID_EVENT := 34
  const XA_PREPARE_LOG_EVENT := 38

  /** INTVAR, RAND and USER_VAR. */
  const PRE_STATEMENT_EVENTS: set<nat> := {5, 13, 14}

  /**
   APPEND_BLOCK, BEGIN_LOAD_QUERY, EXECUTE_LOAD_QUERY, TABLE_MAP, the row events of all three
   versions, ROWS_QUERY and VIEW_CHANGE.
   */
  const STATEMENT_EVENTS: set<nat> := {9, 17, 18, 19, 20, 21, 22, 23, 24, 25, 29, 30, 31, 32, 37}

  /**
   START_V3, STOP, ROTATE, LOAD, SLAVE, CREATE_FILE, EXEC_LOAD, DELETE_FILE, NEW_LOAD,
   FORMAT_DESCRIPTION, HEARTBEAT, PREVIOUS_GTIDS and TRANSACTION_CONTEXT.
   */
  const IGNORED_EVENTS: set<nat> := {1, 3, 4, 6, 7, 8, 10, 11, 12, 15, 27, 35, 36}

  const LOG_EVENT_IGNORABLE_F := 0x80

  /**
   Upper case as far as the compared key words can tell: besides a-z, only dotless i and long s
   have an ASCII upper case.
   */
  function Upper(c: char): char {
    if 'a' <= c <= 'z' then c - 'a' + 'A'
    else if c == '\U{0131}' then 'I'
    else if c == '\U{017F}' then 'S'
    else c
  }

  function ToUpper(s: string): (r: string)
    ensures |r| == |s|
    ensures forall i :: 0 <= i < |s| ==> r[i] == Upper(s[i])
  {
    if s == "" then "" else [Upper(s[0])] + ToUpper(s[1..])
  }

  function QueryBoundary(query: string): Boundary {
    var q := ToUpper(query);
    if q == "BEGIN" || q == "XA START" then BeginTrx
    else if "ROLLBACK" <= q || "ROLLBACK TO " <= q then EndTrx
    else if "XA ROLLBACK" <= q then EndXaTrx
    else Statement
  }

  /** `query` is the text of a query event, or None when its body does not decode. */
  function BoundaryOf(eventType: nat, flags: nat, query: Option<string>): (b: Option<Boundary>)
    ensures b.None? <==> eventType == QUERY_EVENT && query.None?
    ensures b == Some(GtidEvent) <==> eventType == GTID_EVENT || eventType == ANONYMOUS_GTID_EVENT
  {
    if eventType == GTID_EVENT || eventType == ANONYMOUS_GTID_EVENT then Some(GtidEvent)
    else if eventType == QUERY_EVENT then
      if query.None? then None else Some(QueryBoundary(query.value))
    else if eventType == XID_EVENT || eventType == XA_PREPARE_LOG_EVENT then Some(EndTrx)
    else if eventType in PRE_STATEMENT_EVENTS then Some(PreStatement)
    else if eventType in STATEMENT_EVENTS then Some(Statement)
    else if eventType == INCIDENT_EVENT then Some(Incident)
    else if eventType in IGNORED_EVENTS then Some(Ignore)
    else if flags == LOG_EVENT_IGNORABLE_F then Some(Ignore)
    else Some(Unsupported)
  }

  /** The case of a query's letters does not matter. */
  lemma CaseDoesNotMatter(a: string, b: string)
    requires |a| == |b| && forall i :: 0 <= i < |a| ==> Upper(a[i]) == Upper(b[i])
    ensures QueryBoundary(a) == QueryBoundary(b)
  {
    assert ToUpper(a) == ToUpper(b);
  }

  // ---- The automaton ---------------------------------------------------------------

  predicate Accepts(s: State, b: Boundary) {
    match b
    case GtidEvent => s.Outside?
    case BeginTrx => s.Outside? || s.AfterGtid?
    case EndTrx => s.InDml?
    case EndXaTrx => s.InDml? || s.AfterGtid?
    case PreStatement => !s.Failed?
    case Statement => !s.Failed?
    case Incident => true
    case Ignore => true
    case Unsupported => false
  }

  /** The state assigned by an update, accepted or not. */
  function Next(s: State, b: Boundary): State {
    match b
    case GtidEvent => AfterGtid
    case BeginTrx => InDml
    case EndTrx => Outside
    case EndXaTrx => Outside
    case PreStatement => if s.InDml? then InDml else if s.Failed? then Outside else InDdl
    case Statement => if s.InDml? then InDml else Outside
    case Incident => Outside
    case Ignore => s
    case Unsupported => Failed
  }

  class TransactionBoundaryParser {
    var currentState: State

    constructor ()
      ensures currentState == Outside
    {
      currentState := Outside;
    }

    method Reset()
      modifies this
      ensures currentState == Outside
    {
      currentState := Outside;
    }

    predicate IsNotInsideTransaction()
      reads this
    {
      currentState == Outside
    }

    method UpdateState(boundary: Boundary) returns (ok: bool)
      modifies this
      ensures ok == Accepts(old(currentState), boundary)
      ensures currentState == Next(old(currentState), boundary)
    {
      var newState := Outside;
      ok := true;
      match boundary {
        case GtidEvent =>
          newState := AfterGtid;
          match currentState {
            case AfterGtid | InDdl | InDml | Failed => ok := false;
            case Outside =>
          }
        case BeginTrx =>
          newState := InDml;
          match currentState {
            case InDdl | InDml | Failed => ok := false;
            case Outside | AfterGtid =>
          }
        case EndTrx =>
          newState := Outside;
          match currentState {
            case Outside | AfterGtid | InDdl | Failed => ok := false;
            case InDml =>
          }
        case EndXaTrx =>
          newState := Outside;
          match currentState {
            case Outside | InDdl | Failed => ok := false;
            case InDml | AfterGtid =>
          }
        case Statement =>
          match currentState {
            case Outside | AfterGtid | InDdl => newState := Outside;
            case InDml => newState := currentState;
            case Failed => ok := false;
          }
        case PreStatement =>
          match currentState {
            case Outside | AfterGtid => newState := InDdl;
            case InDdl | InDml => newState := currentState;
            case Failed => ok := false;
          }
        case Incident =>
          newState := Outside;
        case Ignore =>
          newState := currentState;
        case Unsupported =>
          newState := Failed;
          ok := false;
      }
      currentState := newState;
    }
  }

  /** The state after a whole sequence, or None as soon as one event is refused. */
  function Run(s: State, bs: seq<Boundary>): Option<State>
    decreases |bs|
  {
    if bs == [] then Some(s)
    else if !Accepts(s, bs[0]) then None
    else Run(Next(s, bs[0]), bs[1..])
  }

  lemma {:induction false} RunConcat(s: State, a: seq<Boundary>, b: seq<Boundary>)
    ensures Run(s, a + b) == if Run(s, a).None? then None else Run(Run(s, a).value, b)
    decreases |a|
  {
    if a == [] {
      assert a + b == b;
    } else {
      assert (a + b)[1..] == a[1..] + b;
      if Accepts(s, a[0]) {
        RunConcat(Next(s, a[0]), a[1..], b);
      }
    }
  }

  lemma RunSnoc(s: State, a: seq<Boundary>, b: Boundary)
    requires Run(s, a).Some?
    ensures Run(s, a + [b]) ==
      if Accepts(Run(s, a).value, b) then Some(Next(Run(s, a).value, b)) else None
  {
    RunConcat(s, a, [b]);
  }

  /** The sequence without its ignorable events. */
  function Strip(bs: seq<Boundary>): (r: seq<Boundary>)
    ensures Ignore !in r
  {
    if bs == [] then []
    else if bs[0] == Ignore then Strip(bs[1..])
    else [bs[0]] + Strip(bs[1..])
  }

  lemma {:induction false} StripConcat(a: seq<Boundary>, b: seq<Boundary>)
    ensures Strip(a + b) == Strip(a) + Strip(b)
  {
    if a == [] {
      assert a + b == b;
    } else {
      assert (a + b)[1..] == a[1..] + b;
      StripConcat(a[1..], b);
    }
  }

  lemma {:induction false} RunStripped(s: State, bs: seq<Boundary>)
    ensures Run(s, bs) == Run(s, Strip(bs))
    decreases |bs|
  {
    if bs != [] {
      var s' := Next(s, bs[0]);
      RunStripped(s', bs[1..]);
      if bs[0] != Ignore {
        assert Strip(bs)[1..] == Strip(bs[1..]);
      }
    }
  }

  // ---- The grammar -----------------------------------------------------------------

  function Body(g: seq<Boundary>): seq<Boundary> {
    if g != [] && g[0] == GtidEvent then g[1..] else g
  }

  predicate Pres(b: seq<Boundary>) {
    forall i :: 0 <= i < |b| ==> b[i] == PreStatement
  }

  predicate Inner(b: seq<Boundary>) {
    forall i :: 0 <= i < |b| ==> b[i] == Statement || b[i] == PreStatement
  }

  /** PreStatement* Statement */
  predicate DdlBody(b: seq<Boundary>) {
    b != [] && b[|b| - 1] == Statement && Pres(b[..|b| - 1])
  }

  /** Begin (Statement | PreStatement)* (EndTrx | EndXaTrx) */
  predicate DmlBody(b: seq<Boundary>) {
    && |b| >= 2
    && b[0] == BeginTrx
    && (b[|b| - 1] == EndTrx || b[|b| - 1] == EndXaTrx)
    && Inner(b[1..|b| - 1])
  }

  /** A complete transaction. */
  predicate Whole(g: seq<Boundary>) {
    DdlBody(Body(g)) || DmlBody(Body(g)) || g == [GtidEvent, EndXaTrx]
  }

  /** A transaction that an incident cuts short. */
  ghost predicate CutOff(g: seq<Boundary>) {
    g != [] && g[|g| - 1] == Incident && exists w :: Whole(w) && g[..|g| - 1] < w
  }

  ghost predicate Group(g: seq<Boundary>) {
    Whole(g) || CutOff(g)
  }

  ghost predicate AllGroups(gs: seq<seq<Boundary>>) {
    forall i :: 0 <= i < |gs| ==> Group(gs[i])
  }

  function Flatten(gs: seq<seq<Boundary>>): seq<Boundary> {
    if gs == [] then [] else gs[0] + Flatten(gs[1..])
  }

  /** What the parser has seen of the group it is in. */
  predicate Open(p: seq<Boundary>, s: State) {
    match s
    case Outside => p == []
    case AfterGtid => p == [GtidEvent]
    case InDdl => Body(p) != [] && Pres(Body(p))
    case InDml => Body(p) != [] && Body(p)[0] == BeginTrx && Inner(Body(p)[1..])
    case Failed => false
  }

  lemma OpenGrows(p: seq<Boundary>, s: State, b: Boundary)
    requires Open(p, s) && Accepts(s, b) && b != Ignore && b != Incident
    ensures if Next(s, b) == Outside then Whole(p + [b]) else Open(p + [b], Next(s, b))
  {
    var q := p + [b];
    if p != [] {
      assert Body(q) == Body(p) + [b];
      assert Body(q)[..|Body(q)| - 1] == Body(p);
      if s.InDml? {
        assert Body(q)[1..] == Body(p)[1..] + [b];
        assert Body(q)[1..|Body(q)| - 1] == Body(p)[1..];
      }
    } else {
      assert q == [b];
    }
  }

  /** Whatever is open can be completed. */
  lemma OpenIsPrefix(p: seq<Boundary>, s: State) returns (w: seq<Boundary>)
    requires Open(p, s)
    ensures Whole(w) && p < w
  {
    var b := if s.InDml? then EndTrx else Statement;
    OpenGrows(p, s, b);
    w := p + [b];
  }

  lemma Advances(p: seq<Boundary>, s: State, b: Boundary)
    requires Open(p, s) && Accepts(s, b) && b != Ignore
    ensures if Next(s, b) == Outside then Group(p + [b]) else Open(p + [b], Next(s, b))
  {
    if b == Incident {
      var w := OpenIsPrefix(p, s);
      assert (p + [b])[..|p|] == p;
    } else {
      OpenGrows(p, s, b);
    }
  }

  lemma {:induction false} SplitIntoGroups(p: seq<Boundary>, s: State, rest: seq<Boundary>)
    returns (gs: seq<seq<Boundary>>)
    requires Open(p, s)
    requires Ignore !in rest
    requires Run(s, rest) == Some(Outside)
    ensures AllGroups(gs)
    ensures Flatten(gs) == p + rest
    decreases |rest|
  {
    assert Open([], Outside);
    assert s == Outside ==> p == [];
    hide Open, Group;
    if rest == [] {
      gs := [];
    } else {
      var q, s' := p + [rest[0]], Next(s, rest[0]);
      Advances(p, s, rest[0]);
      assert p + rest == q + rest[1..];
      if s' == Outside {
        var tail := SplitIntoGroups([], Outside, rest[1..]);
        gs := [q] + tail;
        assert Flatten(gs) == q + rest[1..] by {
          assert gs[1..] == tail && [] + rest[1..] == rest[1..];
        }
      } else {
        gs := SplitIntoGroups(q, s', rest[1..]);
      }
    }
  }

  /** One event of a complete group: it keeps the group open, and only the last one closes it. */
  lemma WholeStep(w: seq<Boundary>, k: nat, s: State)
    requires Whole(w) && k < |w|
    requires Open(w[..k], s)
    ensures Accepts(s, w[k])
    ensures Next(s, w[k]) == Outside <==> k + 1 == |w|
    ensures w[k] != Ignore && w[k] != Incident
  {
    var d := |w| - |Body(w)|;
    if k >= d {
      assert w[k] == Body(w)[k - d];
      if k > d {
        assert Body(w[..k]) == Body(w)[..k - d];
        if DdlBody(Body(w)) {
          assert Body(w)[..|Body(w)| - 1][k - d - 1] == PreStatement;
          if k + 1 < |w| { assert Body(w)[..|Body(w)| - 1][k - d] == PreStatement; }
        } else if DmlBody(Body(w)) && k + 1 < |w| {
          assert Body(w)[1..|Body(w)| - 1][k - d - 1] == w[k];
        }
      }
    }
  }

  lemma {:induction false} WholePrefix(w: seq<Boundary>, k: nat) returns (s: State)
    requires Whole(w) && k < |w|
    ensures Open(w[..k], s)
    ensures Run(Outside, w[..k]) == Some(s)
    decreases k
  {
    if k == 0 {
      s := Outside;
    } else {
      var s0 := WholePrefix(w, k - 1);
      WholeStep(w, k - 1, s0);
      s := Next(s0, w[k - 1]);
      assert w[..k] == w[..k - 1] + [w[k - 1]];
      RunSnoc(Outside, w[..k - 1], w[k - 1]);
      OpenGrows(w[..k - 1], s0, w[k - 1]);
    }
  }

  lemma GroupRuns(g: seq<Boundary>)
    requires Group(g)
    ensures Run(Outside, g) == Some(Outside)
  {
    var n := |g| - 1;
    var w := g;
    if !Whole(g) {
      w :| Whole(w) && g[..n] < w;
    }
    var s := WholePrefix(w, n);
    assert w[..n] == g[..n];
    assert g == g[..n] + [g[n]];
    RunSnoc(Outside, g[..n], g[n]);
    if Whole(g) {
      WholeStep(g, n, s);
    }
  }

  lemma {:induction false} GroupsRun(gs: seq<seq<Boundary>>)
    requires AllGroups(gs)
    ensures Run(Outside, Flatten(gs)) == Some(Outside)
  {
    if gs != [] {
      GroupRuns(gs[0]);
      GroupsRun(gs[1..]);
      RunConcat(Outside, gs[0], Flatten(gs[1..]));
    }
  }

  /**
   The language of the parser: ignorable events aside, it accepts a sequence and ends outside a
   transaction exactly when the sequence is made of complete transactions and transactions cut
   off by an incident.
   */
  lemma ParserLanguage(bs: seq<Boundary>)
    ensures Run(Outside, bs) == Some(Outside)
      <==> exists gs :: AllGroups(gs) && Flatten(gs) == Strip(bs)
  {
    RunStripped(Outside, bs);
    if Run(Outside, bs) == Some(Outside) {
      var gs := SplitIntoGroups([], Outside, Strip(bs));
      assert [] + Strip(bs) == Strip(bs);
    }
    if gs :| AllGroups(gs) && Flatten(gs) == Strip(bs) {
      GroupsRun(gs);
    }
  }
}
