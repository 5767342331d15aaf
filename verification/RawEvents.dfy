/**
 The bytes of binlog events: what the header, the body, a GTID and a query say, and what whole
 transactions given as bytes do to the executed set and to the dump filter.  Type codes and
 offsets are written out here as the replication protocol has them.
 */
module RawEvents {
  import opened Bytes
  import opened Gtids
  import opened Messages
  import opened TrxBoundaries
  import opened BinlogEvents
  import opened BinlogProgresses
  import opened ExecutedSets
  import opened CrashReplay
  import opened BinlogServers
  import opened ServedLogs
  import opened Appliers

  // ---- layout -----------------------------------------------------------------------

  datatype RawEvent = RawEvent(
    timestamp: seq<byte>, eventType: byte, serverId: seq<byte>, size: nat, logPos: seq<byte>, flags: nat,
    body: seq<byte>, checksum: seq<byte>)

  ghost predicate Shaped(e: RawEvent)
  {
    && |e.timestamp| == 4 && |e.serverId| == 4 && |e.logPos| == 4 && |e.checksum| == 4
    && e.size < TWO_32 && e.flags < 0x1_0000
  }

  /** The header announces the size the event has. */
  ghost predicate Proper(e: RawEvent)
  {
    Shaped(e) && e.size == 19 + |e.body| + 4
  }

  function HeaderBytes(e: RawEvent): seq<byte>
  {
    e.timestamp + [e.eventType] + e.serverId + LittleEndian(e.size, 4) + e.logPos + LittleEndian(e.flags, 2)
  }

  function BytesOf(e: RawEvent): seq<byte>
  {
    HeaderBytes(e) + e.body + e.checksum
  }

  function Whole(e: RawEvent): BinlogEvent
  {
    BinlogEvent(e.eventType, 0, 0, 0, Some(BytesOf(e)), [])
  }

  lemma ShortNumbers(n: nat)
    ensures n < 0x1_0000 ==> FromLittleEndian(LittleEndian(n, 2)) == n
    ensures n < TWO_32 ==> FromLittleEndian(LittleEndian(n, 4)) == n
    ensures n < TWO_64 ==> FromLittleEndian(LittleEndian(n, 8)) == n
  {
    Pow2Values();
    Pow2Step7(0);
    Pow2Step7(7);
    assert Pow2(16) == 2 * Pow2(15) == 4 * Pow2(14);
    hide LittleEndian, FromLittleEndian, Pow2;
    if n < 0x1_0000 { LittleEndianRoundTrip(n, 2); }
    if n < TWO_32 { LittleEndianRoundTrip(n, 4); }
    if n < TWO_64 { LittleEndianRoundTrip(n, 8); }
  }

  /**
   The type is byte 4, the size bytes 9 to 12, the flags bytes 17 and 18; the body lies between
   header and checksum.
   */
  lemma HeaderLaw(e: RawEvent)
    requires Shaped(e)
    ensures |BytesOf(e)| == 19 + |e.body| + 4
    ensures HeaderOf(BytesOf(e)) == Header(e.eventType, e.size, e.flags)
    ensures BodyOf(BytesOf(e)) == e.body
  {
    hide LittleEndian, FromLittleEndian;
    var raw := BytesOf(e);
    ShortNumbers(e.size);
    ShortNumbers(e.flags);
    assert raw[9..13] == LittleEndian(e.size, 4);
    assert raw[17..19] == LittleEndian(e.flags, 2);
    assert raw[19..|raw| - 4] == e.body;
  }

  /** A GTID event: a flag, sixteen bytes of server id, eight of the number, the rest. */
  lemma GtidLayout(h: seq<byte>, f: byte, sid: seq<byte>, gno: nat, t: seq<byte>, c: seq<byte>)
    requires |h| == 19 && |sid| == 16 && gno < TWO_64 && |c| == 4
    ensures var raw := h + [f] + sid + LittleEndian(gno, 8) + t + c;
            && HEADER + GTID_BODY + CHECKSUM <= |raw|
            && GtidOf(raw) == if gno < TWO_63 - 1 then Some(Gtid(sid, gno)) else None
  {
    hide LittleEndian, FromLittleEndian;
    var raw := h + [f] + sid + LittleEndian(gno, 8) + t + c;
    ShortNumbers(gno);
    assert BodyOf(raw) == [f] + sid + LittleEndian(gno, 8) + t;
    assert BodyOf(raw)[1..17] == sid;
    assert BodyOf(raw)[17..25] == LittleEndian(gno, 8);
  }

  /** The event is a GTID event for this GTID. */
  ghost predicate Opens(e: RawEvent, g: Gtid)
  {
    && Proper(e) && e.eventType == 33 && |g.sid| == 16 && g.gno < TWO_63 - 1
    && exists f: byte, t :: e.body == [f] + g.sid + LittleEndian(g.gno, 8) + t
  }

  lemma OpensLaw(e: RawEvent, g: Gtid)
    requires Opens(e, g)
    ensures HEADER + GTID_BODY + CHECKSUM <= |BytesOf(e)| && GtidOf(BytesOf(e)) == Some(g)
  {
    hide LittleEndian, GtidOf;
    var f: byte, t :| e.body == [f] + g.sid + LittleEndian(g.gno, 8) + t;
    HeaderLaw(e);
    var h := HeaderBytes(e);
    assert |h| == 19;
    hide HeaderBytes, HeaderOf, BodyOf;
    GtidLayout(h, f, g.sid, g.gno, t, e.checksum);
    Regroup(h, [f], g.sid, LittleEndian(g.gno, 8), t);
  }

  lemma Regroup(a: seq<byte>, b: seq<byte>, c: seq<byte>, d: seq<byte>, e: seq<byte>)
    ensures a + (b + c + d + e) == a + b + c + d + e
  {
  }

  // ---- queries ----------------------------------------------------------------------

  /** The letter in either case; two more letters have an ASCII upper case. */
  predicate SameLetter(x: char, c: char)
  {
    || x == c
    || ('A' <= c <= 'Z' && x as int == c as int + 32)
    || (c == 'I' && x == '\U{0131}')
    || (c == 'S' && x == '\U{017F}')
  }

  predicate Spells(text: string, word: string)
  {
    |text| == |word| && forall i :: 0 <= i < |word| ==> SameLetter(text[i], word[i])
  }

  predicate SpellsFirst(text: string, word: string)
  {
    |word| <= |text| && Spells(text[..|word|], word)
  }

  predicate Begins(text: string)
  {
    Spells(text, "BEGIN") || Spells(text, "XA START")
  }

  predicate RollsBack(text: string)
  {
    SpellsFirst(text, "ROLLBACK")
  }

  predicate RollsBackXa(text: string)
  {
    SpellsFirst(text, "XA ROLLBACK")
  }

  /** A word of capital letters and spaces. */
  predicate Capital(word: string)
  {
    forall i :: 0 <= i < |word| ==> word[i] == ' ' || 'A' <= word[i] <= 'Z'
  }

  lemma UpperMeans(text: string, word: string)
    requires Capital(word)
    ensures ToUpper(text) == word <==> Spells(text, word)
  {
    forall x: char, c: char | c == ' ' || 'A' <= c <= 'Z' ensures Upper(x) == c <==> SameLetter(x, c) {
    }
  }

  lemma UpperPrefixMeans(text: string, word: string)
    requires Capital(word)
    ensures word <= ToUpper(text) <==> SpellsFirst(text, word)
  {
    if |word| <= |text| {
      UpperMeans(text[..|word|], word);
      assert ToUpper(text)[..|word|] == ToUpper(text[..|word|]);
    }
  }

  /** Queries are told apart by their text up to case. */
  lemma QueryLaw(text: string)
    ensures QueryBoundary(text) ==
            if Begins(text) then BeginTrx
            else if RollsBack(text) then EndTrx
            else if RollsBackXa(text) then EndXaTrx
            else Statement
  {
    UpperMeans(text, "BEGIN");
    UpperMeans(text, "XA START");
    UpperPrefixMeans(text, "ROLLBACK");
    UpperPrefixMeans(text, "ROLLBACK TO ");
    UpperPrefixMeans(text, "XA ROLLBACK");
    hide ToUpper, Spells;
    if SpellsFirst(text, "ROLLBACK TO ") { ShorterPrefix(text); }
  }

  lemma ShorterPrefix(text: string)
    requires SpellsFirst(text, "ROLLBACK TO ")
    ensures SpellsFirst(text, "ROLLBACK")
  {
    assert forall i :: 0 <= i < 8 ==> "ROLLBACK"[i] == "ROLLBACK TO "[i];
  }

  // ---- one event --------------------------------------------------------------------

  /** TABLE_MAP and the row events of all three versions. */
  predicate RowType(t: nat)
  {
    19 <= t <= 25 || 30 <= t <= 32
  }

  /** Those, APPEND_BLOCK, BEGIN_LOAD_QUERY, EXECUTE_LOAD_QUERY, ROWS_QUERY and VIEW_CHANGE. */
  predicate StatementType(t: nat)
  {
    RowType(t) || t == 9 || t == 17 || t == 18 || t == 29 || t == 37
  }

  /** INTVAR, RAND and USER_VAR. */
  predicate PreStatementType(t: nat)
  {
    t == 5 || t == 13 || t == 14
  }

  /**
   START_V3, STOP, ROTATE, LOAD, SLAVE, CREATE_FILE, EXEC_LOAD, DELETE_FILE, NEW_LOAD,
   FORMAT_DESCRIPTION, HEARTBEAT, PREVIOUS_GTIDS and TRANSACTION_CONTEXT.
   */
  predicate IgnoredType(t: nat)
  {
    t == 1 || t == 3 || t == 4 || 6 <= t <= 8 || 10 <= t <= 12 || t == 15 || t == 27 || t == 35 || t == 36
  }

  /** UNKNOWN, IGNORABLE and whatever lies beyond XA_PREPARE_LOG. */
  predicate UnknownType(t: nat)
  {
    t == 0 || t == 28 || t > 38
  }

  /** What the parser takes an event of each type for. */
  lemma TypeLaw(t: nat, flags: nat, query: Option<string>)
    ensures t == 33 || t == 34 ==> BoundaryOf(t, flags, query) == Some(GtidEvent)
    ensures t == 2 && query.Some? ==> BoundaryOf(t, flags, query) == Some(QueryBoundary(query.value))
    ensures t == 16 || t == 38 ==> BoundaryOf(t, flags, query) == Some(EndTrx)
    ensures StatementType(t) ==> BoundaryOf(t, flags, query) == Some(Statement)
    ensures PreStatementType(t) ==> BoundaryOf(t, flags, query) == Some(PreStatement)
    ensures t == 26 ==> BoundaryOf(t, flags, query) == Some(Incident)
    ensures IgnoredType(t) || (UnknownType(t) && flags == 0x80) ==> BoundaryOf(t, flags, query) == Some(Ignore)
    ensures UnknownType(t) && flags != 0x80 ==> BoundaryOf(t, flags, query) == Some(Unsupported)
  {
    hide QueryBoundary;
  }

  /** A transaction ends here: its GTID is counted, unless it is the one counted last. */
  function Counted(p: Progress): Progress
  {
    if p.current.Some? && p.lastSave != p.current
    then Progress(Outside, p.current, p.current, p.executed + {p.current.value})
    else p.(state := Outside)
  }

  /** The event does not belong here: the transaction is forgotten. */
  function Forgotten(p: Progress): Progress
  {
    p.(state := Outside, current := None)
  }

  /** Which events can be applied at all. */
  lemma DecodesIff(e: RawEvent, dec: Decoders)
    requires Proper(e)
    ensures CommandOfEvent(Whole(e), dec).Some? <==>
              && (e.eventType == 2 ==> dec.queryOf(e.body).Some?)
              && (e.eventType == 33 ==> 25 <= |e.body| && GtidOf(BytesOf(e)).Some?)
              && (e.eventType == 4 ==> 8 <= |e.body|)
              && (e.eventType == 35 ==> dec.previousOf(e.body).Some?)
    ensures CommandOfEvent(Whole(e), dec).Some? ==> CommandOfEvent(Whole(e), dec).value.Binlog?
  {
    HeaderLaw(e);
    hide BytesOf, HeaderOf, BodyOf, GtidOf, QueryBoundary;
  }

  /** Progress after an event given as bytes. */
  function After(p: Progress, e: RawEvent, dec: Decoders): Progress
    requires CommandOfEvent(Whole(e), dec).Some?
  {
    Apply(p, CommandOfEvent(Whole(e), dec).value)
  }

  lemma AfterIs(p: Progress, e: RawEvent, dec: Decoders)
    requires Proper(e) && CommandOfEvent(Whole(e), dec).Some?
    ensures BoundaryOf(e.eventType, e.flags, dec.queryOf(e.body)).Some?
    ensures var q := Observe(p, BoundaryOf(e.eventType, e.flags, dec.queryOf(e.body)).value);
            After(p, e, dec) ==
            if e.eventType == 33 then q.(current := GtidOf(BytesOf(e))) else q
  {
    HeaderLaw(e);
    DecodesIff(e, dec);
    hide BytesOf, HeaderOf, BodyOf, GtidOf, QueryBoundary, BoundaryOf, Observe;
  }

  /** A GTID event opens a transaction from outside; elsewhere the old one is forgotten. */
  lemma GtidEventLaw(p: Progress, e: RawEvent, g: Gtid, dec: Decoders)
    requires Opens(e, g)
    ensures CommandOfEvent(Whole(e), dec).Some?
    ensures After(p, e, dec) ==
            (if p.state == Outside then p.(state := AfterGtid) else Forgotten(p)).(current := Some(g))
  {
    OpensLaw(e, g);
    HeaderLaw(e);
    hide GtidOf, BytesOf, BoundaryOf;
    TypeLaw(e.eventType, e.flags, dec.queryOf(e.body));
    DecodesIff(e, dec);
    AfterIs(p, e, dec);
  }

  lemma AnonymousLaw(p: Progress, e: RawEvent, dec: Decoders)
    requires Proper(e) && e.eventType == 34
    ensures CommandOfEvent(Whole(e), dec).Some?
    ensures After(p, e, dec) == if p.state == Outside then p.(state := AfterGtid) else Forgotten(p)
  {
    hide GtidOf, BytesOf, BoundaryOf;
    TypeLaw(e.eventType, e.flags, dec.queryOf(e.body));
    DecodesIff(e, dec);
    AfterIs(p, e, dec);
  }

  /** The event is a query event with this text. */
  ghost predicate Queries(e: RawEvent, text: string, dec: Decoders)
  {
    Proper(e) && e.eventType == 2 && dec.queryOf(e.body) == Some(text)
  }

  lemma QueryEventLaw(p: Progress, e: RawEvent, text: string, dec: Decoders)
    requires Queries(e, text, dec)
    ensures CommandOfEvent(Whole(e), dec).Some?
    ensures After(p, e, dec) ==
            if Begins(text)
            then (if p.state == Outside || p.state == AfterGtid then p.(state := InDml) else Forgotten(p))
            else if RollsBack(text) then (if p.state == InDml then Counted(p) else Forgotten(p))
            else if RollsBackXa(text)
            then (if p.state == InDml || p.state == AfterGtid then Counted(p) else Forgotten(p))
            else if p.state == Failed then Forgotten(p)
            else if p.state == InDml then p
            else Counted(p)
  {
    QueryLaw(text);
    hide GtidOf, BytesOf, BoundaryOf, QueryBoundary, Begins, RollsBack, RollsBackXa;
    TypeLaw(e.eventType, e.flags, dec.queryOf(e.body));
    DecodesIff(e, dec);
    AfterIs(p, e, dec);
  }

  /** XID and XA_PREPARE_LOG end a transaction that was begun. */
  lemma EndLaw(p: Progress, e: RawEvent, dec: Decoders)
    requires Proper(e) && (e.eventType == 16 || e.eventType == 38)
    ensures CommandOfEvent(Whole(e), dec).Some?
    ensures After(p, e, dec) == if p.state == InDml then Counted(p) else Forgotten(p)
  {
    hide GtidOf, BytesOf, BoundaryOf;
    TypeLaw(e.eventType, e.flags, dec.queryOf(e.body));
    DecodesIff(e, dec);
    AfterIs(p, e, dec);
  }

  /** Statements go on inside a transaction that was begun, and are one by themselves elsewhere. */
  lemma StatementLaw(p: Progress, e: RawEvent, dec: Decoders)
    requires Proper(e) && StatementType(e.eventType)
    ensures CommandOfEvent(Whole(e), dec).Some?
    ensures After(p, e, dec) ==
            if p.state == Failed then Forgotten(p) else if p.state == InDml then p else Counted(p)
  {
    hide GtidOf, BytesOf, BoundaryOf;
    TypeLaw(e.eventType, e.flags, dec.queryOf(e.body));
    DecodesIff(e, dec);
    AfterIs(p, e, dec);
  }

  /** What prepares a statement does not end anything. */
  lemma PreStatementLaw(p: Progress, e: RawEvent, dec: Decoders)
    requires Proper(e) && PreStatementType(e.eventType)
    ensures CommandOfEvent(Whole(e), dec).Some?
    ensures After(p, e, dec) ==
            if p.state == Failed then Forgotten(p) else if p.state == InDml then p else p.(state := InDdl)
  {
    hide GtidOf, BytesOf, BoundaryOf;
    TypeLaw(e.eventType, e.flags, dec.queryOf(e.body));
    DecodesIff(e, dec);
    AfterIs(p, e, dec);
  }

  lemma IncidentLaw(p: Progress, e: RawEvent, dec: Decoders)
    requires Proper(e) && e.eventType == 26
    ensures CommandOfEvent(Whole(e), dec).Some?
    ensures After(p, e, dec) == Counted(p)
  {
    hide GtidOf, BytesOf, BoundaryOf;
    TypeLaw(e.eventType, e.flags, dec.queryOf(e.body));
    DecodesIff(e, dec);
    AfterIs(p, e, dec);
  }

  /** Ignored events, and unknown ones with the ignorable flag alone, change nothing, but a dangling GTID is counted. */
  lemma IgnoredLaw(p: Progress, e: RawEvent, dec: Decoders)
    requires Proper(e) && (IgnoredType(e.eventType) || (UnknownType(e.eventType) && e.flags == 0x80))
    requires CommandOfEvent(Whole(e), dec).Some?
    ensures After(p, e, dec) == if p.state == Outside then Counted(p) else p
  {
    hide GtidOf, BytesOf, BoundaryOf;
    TypeLaw(e.eventType, e.flags, dec.queryOf(e.body));
    DecodesIff(e, dec);
    AfterIs(p, e, dec);
  }

  lemma UnknownLaw(p: Progress, e: RawEvent, dec: Decoders)
    requires Proper(e) && UnknownType(e.eventType) && e.flags != 0x80
    ensures CommandOfEvent(Whole(e), dec).Some?
    ensures After(p, e, dec) == Forgotten(p)
  {
    hide GtidOf, BytesOf, BoundaryOf;
    TypeLaw(e.eventType, e.flags, dec.queryOf(e.body));
    DecodesIff(e, dec);
    AfterIs(p, e, dec);
  }

  // ---- whole transactions -----------------------------------------------------------

  predicate AllApply(es: seq<RawEvent>, dec: Decoders)
  {
    forall i :: 0 <= i < |es| ==> CommandOfEvent(Whole(es[i]), dec).Some?
  }

  function AfterAll(p: Progress, es: seq<RawEvent>, dec: Decoders): Progress
    requires AllApply(es, dec)
  {
    if es == [] then p else After(AfterAll(p, es[..|es| - 1], dec), es[|es| - 1], dec)
  }

  /** The events count exactly this GTID, and only the last one does. */
  ghost predicate CountsAtEnd(p: Progress, es: seq<RawEvent>, g: Gtid, dec: Decoders)
  {
    && es != [] && AllApply(es, dec)
    && (forall k :: 0 <= k < |es| ==> AllApply(es[..k], dec) && AfterAll(p, es[..k], dec).executed == p.executed)
    && AfterAll(p, es, dec).executed == p.executed + {g}
    && AfterAll(p, es, dec).state == Outside
  }

  /** The first events leave the progress as it was, except for the state. */
  ghost predicate Inside(p: Progress, es: seq<RawEvent>, g: Gtid, state: State, dec: Decoders)
  {
    && AllApply(es, dec)
    && (forall k :: 0 <= k <= |es| ==> AllApply(es[..k], dec) && AfterAll(p, es[..k], dec).executed == p.executed)
    && AfterAll(p, es, dec) == p.(state := state, current := Some(g))
  }

  lemma AfterSnoc(p: Progress, es: seq<RawEvent>, e: RawEvent, dec: Decoders)
    requires AllApply(es, dec) && CommandOfEvent(Whole(e), dec).Some?
    ensures AllApply(es + [e], dec) && AfterAll(p, es + [e], dec) == After(AfterAll(p, es, dec), e, dec)
  {
    hide CommandOfEvent, After;
    assert (es + [e])[..|es|] == es;
  }

  lemma InsideSnoc(p: Progress, es: seq<RawEvent>, e: RawEvent, g: Gtid, state: State, next: State, dec: Decoders)
    requires Inside(p, es, g, state, dec) && CommandOfEvent(Whole(e), dec).Some?
    requires After(p.(state := state, current := Some(g)), e, dec) == p.(state := next, current := Some(g))
    ensures Inside(p, es + [e], g, next, dec)
  {
    hide CommandOfEvent, After;
    AfterSnoc(p, es, e, dec);
    var all := es + [e];
    forall k | 0 <= k <= |all| ensures AllApply(all[..k], dec) && AfterAll(p, all[..k], dec).executed == p.executed {
      if k <= |es| { assert all[..k] == es[..k]; } else { assert all[..k] == all; }
    }
  }

  /** An event that ends the transaction counts its GTID. */
  lemma EndSnoc(p: Progress, es: seq<RawEvent>, e: RawEvent, g: Gtid, state: State, dec: Decoders)
    requires Inside(p, es, g, state, dec) && CommandOfEvent(Whole(e), dec).Some? && Consistent(p)
    requires var q := p.(state := state, current := Some(g)); After(q, e, dec) == Counted(q)
    ensures CountsAtEnd(p, es + [e], g, dec)
  {
    hide CommandOfEvent, After;
    AfterSnoc(p, es, e, dec);
    var all := es + [e];
    forall k | 0 <= k < |all| ensures AllApply(all[..k], dec) && AfterAll(p, all[..k], dec).executed == p.executed {
      assert all[..k] == es[..k];
    }
  }

  lemma InsideGtid(p: Progress, e: RawEvent, g: Gtid, dec: Decoders)
    requires p.state == Outside && Opens(e, g)
    ensures Inside(p, [e], g, AfterGtid, dec)
  {
    GtidEventLaw(p, e, g, dec);
    hide CommandOfEvent, After, Opens;
    AfterSnoc(p, [], e, dec);
    assert [] + [e] == [e];
    forall k | 0 <= k <= 1 ensures AllApply([e][..k], dec) && AfterAll(p, [e][..k], dec).executed == p.executed {
      if k == 1 { assert [e][..k] == [e]; }
    }
  }

  lemma {:induction false} InsideRows(p: Progress, es: seq<RawEvent>, rows: seq<RawEvent>, g: Gtid, dec: Decoders)
    requires Inside(p, es, g, InDml, dec)
    requires forall i :: 0 <= i < |rows| ==> Proper(rows[i]) && StatementType(rows[i].eventType)
    ensures Inside(p, es + rows, g, InDml, dec)
    decreases |rows|
  {
    hide Inside;
    if rows == [] {
      assert es + rows == es;
    } else {
      var n := |rows| - 1;
      InsideRows(p, es, rows[..n], g, dec);
      StatementLaw(p.(state := InDml, current := Some(g)), rows[n], dec);
      InsideSnoc(p, es + rows[..n], rows[n], g, InDml, InDml, dec);
      assert es + rows == es + rows[..n] + [rows[n]];
    }
  }

  /** An event that ends a transaction that was begun: XID, XA_PREPARE_LOG or a ROLLBACK query. */
  ghost predicate Ends(e: RawEvent, dec: Decoders)
  {
    || (Proper(e) && (e.eventType == 16 || e.eventType == 38))
    || exists text :: Queries(e, text, dec) && !Begins(text) && RollsBack(text)
  }

  /**
   A transaction of rows: a GTID event, a query that spells BEGIN, any number of table maps, row
   events and other statements, and an end.  Its GTID is counted, and only at the end.
   */
  lemma RowTransaction(p: Progress, gtid: RawEvent, begin: RawEvent, rows: seq<RawEvent>, end: RawEvent,
                       g: Gtid, text: string, dec: Decoders)
    requires p.state == Outside && Consistent(p)
    requires Opens(gtid, g) && Queries(begin, text, dec) && Begins(text) && Ends(end, dec)
    requires forall i :: 0 <= i < |rows| ==> Proper(rows[i]) && StatementType(rows[i].eventType)
    ensures CountsAtEnd(p, [gtid, begin] + rows + [end], g, dec)
  {
    hide Inside, Opens, Begins, RollsBack, CountsAtEnd;
    var q := p.(state := InDml, current := Some(g));
    InsideGtid(p, gtid, g, dec);
    QueryEventLaw(p.(state := AfterGtid, current := Some(g)), begin, text, dec);
    InsideSnoc(p, [gtid], begin, g, AfterGtid, InDml, dec);
    assert [gtid] + [begin] == [gtid, begin];
    InsideRows(p, [gtid, begin], rows, g, dec);
    if Proper(end) && (end.eventType == 16 || end.eventType == 38) {
      EndLaw(q, end, dec);
    } else {
      var t :| Queries(end, t, dec) && !Begins(t) && RollsBack(t);
      QueryEventLaw(q, end, t, dec);
    }
    EndSnoc(p, [gtid, begin] + rows, end, g, InDml, dec);
  }

  lemma {:induction false} InsidePre(p: Progress, es: seq<RawEvent>, pre: seq<RawEvent>, g: Gtid, state: State,
                                     dec: Decoders)
    requires Inside(p, es, g, state, dec) && (state == AfterGtid || state == InDdl)
    requires forall i :: 0 <= i < |pre| ==> Proper(pre[i]) && PreStatementType(pre[i].eventType)
    ensures Inside(p, es + pre, g, if pre == [] then state else InDdl, dec)
    decreases |pre|
  {
    hide Inside;
    if pre == [] {
      assert es + pre == es;
    } else {
      var n := |pre| - 1;
      InsidePre(p, es, pre[..n], g, state, dec);
      var now := if pre[..n] == [] then state else InDdl;
      PreStatementLaw(p.(state := now, current := Some(g)), pre[n], dec);
      InsideSnoc(p, es + pre[..n], pre[n], g, now, InDdl, dec);
      assert es + pre == es + pre[..n] + [pre[n]];
    }
  }

  /** An ordinary statement: a statement event, or a query that neither begins nor rolls back. */
  ghost predicate Ordinary(e: RawEvent, dec: Decoders)
  {
    || (Proper(e) && StatementType(e.eventType))
    || exists text :: Queries(e, text, dec) && !Begins(text) && !RollsBack(text) && !RollsBackXa(text)
  }

  /** A statement by itself, as DDL is, with what prepares it: counted at the statement. */
  lemma StatementTransaction(p: Progress, gtid: RawEvent, pre: seq<RawEvent>, statement: RawEvent, g: Gtid,
                             dec: Decoders)
    requires p.state == Outside && Consistent(p) && Opens(gtid, g) && Ordinary(statement, dec)
    requires forall i :: 0 <= i < |pre| ==> Proper(pre[i]) && PreStatementType(pre[i].eventType)
    ensures CountsAtEnd(p, [gtid] + pre + [statement], g, dec)
  {
    hide Inside, Opens, Begins, RollsBack, RollsBackXa, CountsAtEnd;
    InsideGtid(p, gtid, g, dec);
    InsidePre(p, [gtid], pre, g, AfterGtid, dec);
    var state := if pre == [] then AfterGtid else InDdl;
    var q := p.(state := state, current := Some(g));
    if Proper(statement) && StatementType(statement.eventType) {
      StatementLaw(q, statement, dec);
    } else {
      var t :| Queries(statement, t, dec) && !Begins(t) && !RollsBack(t) && !RollsBackXa(t);
      QueryEventLaw(q, statement, t, dec);
    }
    EndSnoc(p, [gtid] + pre, statement, g, state, dec);
  }

  /** XA ROLLBACK or an incident right behind the GTID event. */
  lemma ShortTransaction(p: Progress, gtid: RawEvent, end: RawEvent, g: Gtid, dec: Decoders)
    requires p.state == Outside && Consistent(p) && Opens(gtid, g)
    requires (Proper(end) && end.eventType == 26) ||
             exists text :: Queries(end, text, dec) && !Begins(text) && !RollsBack(text) && RollsBackXa(text)
    ensures CountsAtEnd(p, [gtid, end], g, dec)
  {
    hide Inside, Opens, Begins, RollsBack, RollsBackXa, CountsAtEnd;
    InsideGtid(p, gtid, g, dec);
    var q := p.(state := AfterGtid, current := Some(g));
    if Proper(end) && end.eventType == 26 {
      IncidentLaw(q, end, dec);
    } else {
      var t :| Queries(end, t, dec) && !Begins(t) && !RollsBack(t) && RollsBackXa(t);
      QueryEventLaw(q, end, t, dec);
    }
    EndSnoc(p, [gtid], end, g, AfterGtid, dec);
    assert [gtid] + [end] == [gtid, end];
  }

  // ---- applying and filtering -------------------------------------------------------

  /** The GTID in the bytes is the one that is applied, and the one the filter compares. */
  lemma GtidApplies(e: RawEvent, g: Gtid, dec: Decoders)
    requires Opens(e, g)
    ensures EffectOf(Whole(e), dec) == Some(GtidApplied(g))
    ensures Sliceable(Whole(e)) && MarkOf(Whole(e)) == GtidMark(g)
  {
    OpensLaw(e, g);
    hide GtidOf, BytesOf;
  }

  /** An entry that carries the event. */
  ghost predicate CarriesRaw(entry: Entry, e: RawEvent)
  {
    IsBinlogEvent(entry) && EventOf(entry) == Some(Whole(e))
  }

  /** A group is sent if and only if the slave lacks the GTID in the bytes of its first event. */
  lemma GroupLaw(es: seq<Entry>, slave: GtidSet, k: nat, q: nat, e: RawEvent, g: Gtid)
    requires AllDecodable(es) && k < |es| && CarriesRaw(es[k], e) && Opens(e, g) && InGroupOf(es, k, q)
    ensures q in Positions(es, slave) <==> g !in slave
  {
    MarkOfRaw(es[k], e, g);
    hide Opens, Decodable, EntryMark, Positions, Sent, Matches, IsBinlogEvent;
    SentExactly(es, slave);
    assert LatestMark(es, q, k);
    if InExcludedGroup(es, q, slave) {
      var m :| 0 <= m <= q && LatestMark(es, q, m) &&
        (EntryMark(es[m]).BadGtidMark? || (EntryMark(es[m]).GtidMark? && EntryMark(es[m]).gtid in slave));
      assert m == k;
    }
  }

  lemma MarkOfRaw(entry: Entry, e: RawEvent, g: Gtid)
    requires CarriesRaw(entry, e) && Opens(e, g)
    ensures Decodable(entry) && EntryMark(entry) == GtidMark(g)
  {
    OpensLaw(e, g);
    hide GtidOf, BytesOf, Opens;
  }

  ghost predicate Rotates(entry: Entry)
  {
    IsBinlogEvent(entry) && EventOf(entry).Some? && EventOf(entry).value.etype == 4
  }

  lemma RotatesMark(entry: Entry)
    requires Decodable(entry) && Rotates(entry)
    ensures EntryMark(entry) == RotateMark
  {
    hide ParseEvent;
  }

  /** A rotation (type 4) is always sent, and so is what follows it up to the next GTID event. */
  lemma RotateLaw(es: seq<Entry>, slave: GtidSet, k: nat, q: nat)
    requires AllDecodable(es) && k < |es| && Rotates(es[k]) && InGroupOf(es, k, q)
    ensures q in Positions(es, slave)
  {
    hide Decodable, EntryMark, Positions, Sent, Matches, IsBinlogEvent, EventOf, Rotates;
    RotatesMark(es[k]);
    SentExactly(es, slave);
    if InExcludedGroup(es, q, slave) {
      var m :| 0 <= m <= q && LatestMark(es, q, m) &&
        (EntryMark(es[m]).BadGtidMark? || (EntryMark(es[m]).GtidMark? && EntryMark(es[m]).gtid in slave));
      assert false;
    }
  }

  /** Only GTID events (type 33) and rotations (type 4) are marks. */
  lemma MarksOnly(ev: BinlogEvent)
    requires Sliceable(ev)
    ensures MarkOf(ev) == NoMark <==> ev.etype != 33 && ev.etype != 4
  {
    hide GtidOf;
  }
}
