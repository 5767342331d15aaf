/**
 Sets of global transaction identifiers. A GTID is a server id and a transaction number;
 interval lists are kept as the sets they denote.
 */
module Gtids {
  import opened Bytes

  datatype Gtid = Gtid(sid: seq<byte>, gno: nat)

  type GtidSet = set<Gtid>

  function Sids(s: GtidSet): set<seq<byte>> {
    set g | g in s :: g.sid
  }

  function Restrict(s: GtidSet, sids: set<seq<byte>>): GtidSet {
    set g | g in s && g.sid in sids
  }

  /**
   The library's equality test of a stored set against a new one. It walks the servers of the
   new set only, so it is not symmetric.
   */
  predicate EqualTo(stored: GtidSet, incoming: GtidSet) {
    forall sid :: sid in Sids(incoming) ==> Restrict(stored, {sid}) == Restrict(incoming, {sid})
  }

  lemma EqualToMeans(stored: GtidSet, incoming: GtidSet)
    ensures EqualTo(stored, incoming) <==> incoming == Restrict(stored, Sids(incoming))
  {
    if EqualTo(stored, incoming) {
      forall g ensures g in incoming <==> g in Restrict(stored, Sids(incoming)) {
        if g.sid in Sids(incoming) {
          assert g in incoming <==> g in Restrict(incoming, {g.sid});
          assert g in stored <==> g in Restrict(stored, {g.sid});
        } else {
          assert g !in incoming;
        }
      }
    }
    if incoming == Restrict(stored, Sids(incoming)) {
      forall sid | sid in Sids(incoming)
        ensures Restrict(stored, {sid}) == Restrict(incoming, {sid})
      {
        forall g ensures g in Restrict(stored, {sid}) <==> g in Restrict(incoming, {sid}) {}
      }
    }
  }

  /** Text of a set with exactly one server, the only text that Update parses. */
  predicate OneServer(s: GtidSet) {
    s != {} && forall a, b :: a in s && b in s ==> a.sid == b.sid
  }

  /** Adding a set given as text: None is a parse error. */
  function Update(s: GtidSet, more: GtidSet): (r: Option<GtidSet>)
    ensures r.Some? <==> OneServer(more)
    ensures r.Some? ==> s <= r.value && more <= r.value && forall g :: g in r.value ==> g in s || g in more
  {
    if OneServer(more) then Some(s + more) else None
  }

  lemma OneGtid(g: Gtid)
    ensures OneServer({g})
  {
  }
}
