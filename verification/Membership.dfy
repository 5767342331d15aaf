/** The membership state machine (raft/membership/cluster.go, and its use in server/apply.go). */
module Membership {
  import opened Bytes

  type Id = nat

  datatype Member = Member(id: Id, name: string, adminURLs: seq<string>, peerURLs: seq<string>)

  /** The part of a cluster that is saved as one value. */
  datatype Cluster = Cluster(members: map<Id, Member>, removed: set<Id>)

  datatype ChangeType = AddNode | RemoveNode | UpdateNode

  /** A committed change: the node it names and the member in its context. */
  datatype ConfChange = ConfChange(kind: ChangeType, nodeID: Id, member: Member)

  /** What a node says about itself: its name and where it is administered. */
  datatype Attributes = Attributes(id: Id, name: string, adminURLs: seq<string>)

  /** An entry that is about the cluster. */
  datatype Update = Configure(cc: ConfChange) | Describe(attributes: Attributes)

  datatype ConfError = ErrIDRemoved | ErrIDExists | ErrIDNotFound | ErrPeerURLexists | Fatal

  datatype Outcome = Applied(cluster: Cluster) | Rejected(error: ConfError)

  // ---- the change as a function -----------------------------------------------------

  predicate Shares(a: Member, b: Member)
  {
    exists u :: u in a.peerURLs && u in b.peerURLs
  }

  /** Some member other than `except` has one of the new member's peer URLs. */
  predicate Clashes(c: Cluster, m: Member, except: Option<Id>)
  {
    exists id :: id in c.members && Some(c.members[id].id) != except && Shares(c.members[id], m)
  }

  function Validate(c: Cluster, cc: ConfChange): Option<ConfError>
  {
    if cc.nodeID in c.removed then Some(ErrIDRemoved)
    else match cc.kind
      case AddNode =>
        if cc.nodeID in c.members then Some(ErrIDExists)
        else if Clashes(c, cc.member, None) then Some(ErrPeerURLexists)
        else None
      case RemoveNode => if cc.nodeID !in c.members then Some(ErrIDNotFound) else None
      case UpdateNode =>
        if cc.nodeID !in c.members then Some(ErrIDNotFound)
        else if Clashes(c, cc.member, Some(cc.nodeID)) then Some(ErrPeerURLexists)
        else None
  }

  function Change(c: Cluster, cc: ConfChange): Outcome
  {
    if Validate(c, cc).Some? then Rejected(Validate(c, cc).value)
    else match cc.kind
      case AddNode =>
        if cc.nodeID != cc.member.id then Rejected(Fatal)
        else Applied(c.(members := c.members[cc.nodeID := cc.member]))
      case RemoveNode => Applied(Cluster(c.members - {cc.nodeID}, c.removed + {cc.nodeID}))
      case UpdateNode =>
        if cc.nodeID != cc.member.id then Rejected(Fatal)
        else Applied(c.(members := c.members[cc.nodeID := c.members[cc.nodeID].(peerURLs := cc.member.peerURLs)]))
  }

  function After(c: Cluster, cc: ConfChange): Cluster
  {
    match Change(c, cc) case Applied(d) => d case Rejected(_) => c
  }

  /** The attributes of a member; those of any other id are skipped. */
  function Described(c: Cluster, a: Attributes): Cluster
  {
    if a.id !in c.members then c
    else c.(members := c.members[a.id := c.members[a.id].(name := a.name, adminURLs := a.adminURLs)])
  }

  function Updated(c: Cluster, u: Update): Cluster
  {
    match u
    case Configure(cc) => After(c, cc)
    case Describe(a) => Described(c, a)
  }

  /** The process ends: a change that names another member than it carries, or attributes of an id never seen. */
  predicate Halts(c: Cluster, u: Update)
  {
    match u
    case Configure(cc) => Change(c, cc) == Rejected(Fatal)
    case Describe(a) => a.id !in c.members && a.id !in c.removed
  }

  function UpdatedAll(c: Cluster, us: seq<Update>): Cluster
    decreases |us|
  {
    if us == [] then c else UpdatedAll(Updated(c, us[0]), us[1..])
  }

  lemma {:induction false} UpdatedSnoc(c: Cluster, us: seq<Update>, u: Update)
    ensures UpdatedAll(c, us + [u]) == Updated(UpdatedAll(c, us), u)
    decreases |us|
  {
    hide Updated;
    if us == [] {
      assert [u][1..] == [];
    } else {
      UpdatedSnoc(Updated(c, us[0]), us[1..], u);
      assert (us + [u])[1..] == us[1..] + [u];
    }
  }

  // ---- what every run keeps ---------------------------------------------------------

  ghost predicate Sound(c: Cluster)
  {
    && (forall id :: id in c.members ==> c.members[id].id == id && id !in c.removed)
    && (forall a, b :: a in c.members && b in c.members && a != b ==> !Shares(c.members[a], c.members[b]))
  }

  lemma ChangeKeeps(c: Cluster, cc: ConfChange)
    requires Sound(c)
    ensures Sound(After(c, cc)) && c.removed <= After(c, cc).removed
    ensures forall id :: id in c.members && id !in After(c, cc).members ==> id in After(c, cc).removed
  {
    var d := After(c, cc);
    forall a, b | a in d.members && b in d.members && a != b
      ensures !Shares(d.members[a], d.members[b])
    {
      if d != c && a == cc.nodeID {
        NoClash(c, cc, b);
      } else if d != c && b == cc.nodeID {
        NoClash(c, cc, a);
      }
    }
  }

  lemma NoClash(c: Cluster, cc: ConfChange, other: Id)
    requires Sound(c) && Change(c, cc).Applied? && !cc.kind.RemoveNode?
    requires other in c.members && other != cc.nodeID
    ensures !Shares(c.members[other], cc.member)
  {
  }

  /** Attributes change no id and no peer URL. */
  lemma DescribedKeeps(c: Cluster, a: Attributes)
    requires Sound(c)
    ensures var d := Described(c, a); Sound(d) && d.removed == c.removed && d.members.Keys == c.members.Keys
  {
    var d := Described(c, a);
    forall x, y | x in d.members && y in d.members && x != y ensures !Shares(d.members[x], d.members[y]) {
      assert !Shares(c.members[x], c.members[y]);
    }
  }

  lemma UpdateKeeps(c: Cluster, u: Update)
    requires Sound(c)
    ensures Sound(Updated(c, u)) && c.removed <= Updated(c, u).removed
    ensures forall id :: id in c.members && id !in Updated(c, u).members ==> id in Updated(c, u).removed
  {
    hide Sound, After, Described;
    match u
    case Configure(cc) => ChangeKeeps(c, cc);
    case Describe(a) => DescribedKeeps(c, a);
  }

  /**
   Over every run of changes and attribute updates: members and removed ids stay disjoint,
   distinct members never share a peer URL, and an id that was removed, or was a member and is
   one no more, is never a member again.
   */
  lemma {:induction false} RunKeeps(c: Cluster, us: seq<Update>)
    requires Sound(c)
    ensures Sound(UpdatedAll(c, us)) && c.removed <= UpdatedAll(c, us).removed
    ensures forall id :: id in c.removed ==> id !in UpdatedAll(c, us).members
    ensures forall id :: id in c.members && id !in UpdatedAll(c, us).members ==> id in UpdatedAll(c, us).removed
    decreases |us|
  {
    if us != [] {
      UpdateKeeps(c, us[0]);
      hide Sound, Updated;
      RunKeeps(Updated(c, us[0]), us[1..]);
      assert UpdatedAll(c, us) == UpdatedAll(Updated(c, us[0]), us[1..]);
      RunDisjoint(c, us);
    }
  }

  lemma RunDisjoint(c: Cluster, us: seq<Update>)
    requires Sound(UpdatedAll(c, us)) && c.removed <= UpdatedAll(c, us).removed
    ensures forall id :: id in c.removed ==> id !in UpdatedAll(c, us).members
  {
    hide UpdatedAll;
  }

  /** Once a removal is applied, the id is gone for the rest of the run, and its attributes halt nobody. */
  lemma RemovedForGood(c: Cluster, cc: ConfChange, later: seq<Update>)
    requires Sound(c) && cc.kind.RemoveNode? && Change(c, cc).Applied?
    ensures var d := UpdatedAll(After(c, cc), later);
            && cc.nodeID !in d.members
            && forall a: Attributes :: a.id == cc.nodeID ==> !Halts(d, Describe(a)) && Described(d, a) == d
  {
    ChangeKeeps(c, cc);
    hide Sound, Change;
    RunKeeps(After(c, cc), later);
    assert cc.nodeID in After(c, cc).removed;
  }

  // ---- what a change does, in full --------------------------------------------------

  /** No peer URL of the member is one of another member. */
  ghost predicate FreeURLs(c: Cluster, m: Member, self: Id)
  {
    forall id, u :: id in c.members && id != self && u in m.peerURLs ==> u !in c.members[id].peerURLs
  }

  /**
   When a change succeeds: its id was never removed, and an added one is new, a removed or changed
   one is a member; an added or changed member has the id and brings no peer URL of another.
   */
  ghost predicate Succeeds(c: Cluster, cc: ConfChange)
  {
    && cc.nodeID !in c.removed
    && (cc.nodeID in c.members <==> !cc.kind.AddNode?)
    && (!cc.kind.RemoveNode? ==> cc.member.id == cc.nodeID && FreeURLs(c, cc.member, cc.nodeID))
  }

  /** What a successful change leaves. */
  ghost predicate Effect(c: Cluster, cc: ConfChange, d: Cluster)
  {
    && (forall id :: id != cc.nodeID ==> (id in d.members <==> id in c.members))
    && (forall id :: id in c.members && id != cc.nodeID ==> d.members[id] == c.members[id])
    && d.removed == (if cc.kind.RemoveNode? then c.removed + {cc.nodeID} else c.removed)
    && (cc.nodeID in d.members <==> !cc.kind.RemoveNode?)
    && (cc.kind.AddNode? ==> d.members[cc.nodeID] == cc.member)
    && (cc.kind.UpdateNode? ==>
          && cc.nodeID in c.members
          && d.members[cc.nodeID].peerURLs == cc.member.peerURLs
          && d.members[cc.nodeID].id == c.members[cc.nodeID].id
          && d.members[cc.nodeID].name == c.members[cc.nodeID].name
          && d.members[cc.nodeID].adminURLs == c.members[cc.nodeID].adminURLs)
  }

  lemma ClashesMeans(c: Cluster, m: Member, except: Option<Id>)
    requires Sound(c)
    ensures except.None? ==>
            (Clashes(c, m, except) <==>
                exists id, u :: id in c.members && u in m.peerURLs && u in c.members[id].peerURLs)
    ensures except.Some? ==> (Clashes(c, m, except) <==> !FreeURLs(c, m, except.value))
  {
    if Clashes(c, m, except) {
      var id :| id in c.members && Some(c.members[id].id) != except && Shares(c.members[id], m);
      var u :| u in c.members[id].peerURLs && u in m.peerURLs;
    }
    if id, u :| id in c.members && Some(id) != except && u in m.peerURLs && u in c.members[id].peerURLs {
      assert Shares(c.members[id], m);
    }
  }

  /** The change function does that, and nothing when the change does not succeed. */
  lemma ChangeExact(c: Cluster, cc: ConfChange)
    requires Sound(c)
    ensures Change(c, cc).Applied? <==> Succeeds(c, cc)
    ensures if Succeeds(c, cc) then Effect(c, cc, After(c, cc)) else After(c, cc) == c
  {
    hide Sound, Clashes;
    if cc.kind.AddNode? {
      ClashesMeans(c, cc.member, None);
    } else if cc.kind.UpdateNode? {
      ClashesMeans(c, cc.member, Some(cc.nodeID));
    }
  }

  /** Which error a change is rejected with. */
  lemma ErrorsExact(c: Cluster, cc: ConfChange)
    requires Sound(c)
    ensures Validate(c, cc) == Some(ErrIDRemoved) <==> cc.nodeID in c.removed
    ensures Validate(c, cc) == Some(ErrIDExists) <==>
              cc.nodeID !in c.removed && cc.kind.AddNode? && cc.nodeID in c.members
    ensures Validate(c, cc) == Some(ErrIDNotFound) <==>
              cc.nodeID !in c.removed && !cc.kind.AddNode? && cc.nodeID !in c.members
    ensures Validate(c, cc) == Some(ErrPeerURLexists) <==>
              && cc.nodeID !in c.removed && !cc.kind.RemoveNode?
              && (cc.nodeID in c.members <==> cc.kind.UpdateNode?) && !FreeURLs(c, cc.member, cc.nodeID)
  {
    hide Sound, Clashes;
    if cc.kind.AddNode? {
      ClashesMeans(c, cc.member, None);
    } else if cc.kind.UpdateNode? {
      ClashesMeans(c, cc.member, Some(cc.nodeID));
    }
  }

  /** Update i of a run is a change of one kind for the id, and succeeds on the cluster it meets. */
  ghost predicate SucceedsAt(c: Cluster, us: seq<Update>, i: nat, kind: ChangeType, id: Id)
    requires i < |us|
  {
    us[i].Configure? && us[i].cc.kind == kind && us[i].cc.nodeID == id && Succeeds(UpdatedAll(c, us[..i]), us[i].cc)
  }

  ghost predicate SomeSucceeds(c: Cluster, us: seq<Update>, kind: ChangeType, id: Id)
  {
    exists i :: 0 <= i < |us| && SucceedsAt(c, us, i, kind, id)
  }

  lemma SomeSnoc(c: Cluster, us: seq<Update>, u: Update, kind: ChangeType, id: Id)
    ensures SomeSucceeds(c, us + [u], kind, id) <==>
              || SomeSucceeds(c, us, kind, id)
              || (u.Configure? && u.cc.kind == kind && u.cc.nodeID == id && Succeeds(UpdatedAll(c, us), u.cc))
  {
    hide Succeeds, UpdatedAll;
    var all := us + [u];
    assert all[..|us|] == us;
    forall i | 0 <= i < |us| ensures SucceedsAt(c, all, i, kind, id) <==> SucceedsAt(c, us, i, kind, id) {
      assert all[..i] == us[..i];
    }
    if u.Configure? && u.cc.kind == kind && u.cc.nodeID == id && Succeeds(UpdatedAll(c, us), u.cc) {
      assert SucceedsAt(c, all, |us|, kind, id);
    }
    if i :| 0 <= i < |us| && SucceedsAt(c, us, i, kind, id) {
      assert SucceedsAt(c, all, i, kind, id);
    }
  }

  /** What one update does to whether an id is a member or a removed one. */
  lemma MembershipStep(c: Cluster, u: Update, id: Id)
    requires Sound(c)
    ensures var d := Updated(c, u);
            var adds := u.Configure? && u.cc.kind.AddNode? && u.cc.nodeID == id && Succeeds(c, u.cc);
            var removes := u.Configure? && u.cc.kind.RemoveNode? && u.cc.nodeID == id && Succeeds(c, u.cc);
            && (id in d.members <==> (id in c.members || adds) && !removes)
            && (id in d.removed <==> id in c.removed || removes)
            && (adds ==> id !in c.removed)
  {
    match u
    case Configure(cc) =>
      hide Change, Validate, Sound, FreeURLs;
      ChangeExact(c, cc);
    case Describe(a) =>
  }

  /**
   An id is a member after a run if and only if it was one before or an accepted change added it,
   and no accepted change removed it; it is a removed one if and only if it was one before or an
   accepted change removed it.
   */
  lemma {:induction false} MembersOfRun(c: Cluster, us: seq<Update>, id: Id)
    requires Sound(c)
    ensures var d := UpdatedAll(c, us);
            && (id in d.members <==>
                 (id in c.members || SomeSucceeds(c, us, AddNode, id)) && !SomeSucceeds(c, us, RemoveNode, id))
            && (id in d.removed <==> id in c.removed || SomeSucceeds(c, us, RemoveNode, id))
  {
    hide Succeeds, Updated, Sound;
    if us != [] {
      var n := |us| - 1;
      var front, u := us[..n], us[n];
      assert us == front + [u];
      MembersOfRun(c, front, id);
      UpdatedSnoc(c, front, u);
      SomeSnoc(c, front, u, AddNode, id);
      SomeSnoc(c, front, u, RemoveNode, id);
      RunKeeps(c, front);
      MembershipStep(UpdatedAll(c, front), u, id);
      MemberNotRemoved(c, id);
      MemberNotRemoved(UpdatedAll(c, front), id);
    }
  }

  lemma MemberNotRemoved(c: Cluster, id: Id)
    requires Sound(c)
    ensures id in c.members ==> id !in c.removed
  {
  }

  // ---- counting ---------------------------------------------------------------------

  function Started(members: map<Id, Member>, ids: set<Id>): set<Id>
  {
    set id | id in ids && id in members && members[id].name != ""
  }

  lemma StartedGrows(members: map<Id, Member>, ids: set<Id>, id: Id)
    requires id !in ids && id in members
    ensures |ids + {id}| == |ids| + 1
    ensures |Started(members, ids + {id})| == |Started(members, ids)| + if members[id].name != "" then 1 else 0
  {
    var more := Started(members, ids + {id});
    if members[id].name != "" {
      assert more == Started(members, ids) + {id};
    } else {
      assert more == Started(members, ids);
    }
  }

  /** The keys visited so far, without the one that is skipped. */
  ghost function Counted(keys: set<Id>, todo: set<Id>, skipped: Id): set<Id>
  {
    keys - todo - {skipped}
  }

  lemma CountStep(members: map<Id, Member>, todo: set<Id>, k: Id, skipped: Id)
    requires k in todo && todo <= members.Keys
    ensures var before, after := Counted(members.Keys, todo, skipped), Counted(members.Keys, todo - {k}, skipped);
            && |after| == |before| + (if k == skipped then 0 else 1)
            && |Started(members, after)| == |Started(members, before)| +
                 (if k == skipped || members[k].name == "" then 0 else 1)
  {
    var before, after := Counted(members.Keys, todo, skipped), Counted(members.Keys, todo - {k}, skipped);
    if k == skipped {
      assert after == before;
    } else {
      assert after == before + {k};
      StartedGrows(members, before, k);
    }
  }

  lemma CountEnds(members: map<Id, Member>, skipped: Id)
    ensures Counted(members.Keys, members.Keys, skipped) == {} && Started(members, {}) == {}
    ensures Counted(members.Keys, {}, skipped) == members.Keys - {skipped}
  {
  }

  lemma NoneStarted(members: map<Id, Member>)
    ensures Started(members, {}) == {}
  {
  }

  // ---- the object -------------------------------------------------------------------

  class ClusterStore {
    var saved: Option<Cluster>

    constructor ()
      ensures saved == None
    {
      saved := None;
    }
  }

  class RaftCluster {
    const store: ClusterStore
    var membersMap: map<Id, Member>
    var removedMap: set<Id>

    ghost function Value(): Cluster
      reads this
    {
      Cluster(membersMap, removedMap)
    }

    /** The stored copy, which validation reads, is the cluster in memory. */
    ghost predicate Valid()
      reads this, store
    {
      Sound(Value()) && store.saved == Some(Value())
    }

    constructor (store: ClusterStore, c: Cluster)
      requires Sound(c) && store.saved == Some(c)
      ensures Valid() && this.store == store && Value() == c
    {
      this.store := store;
      membersMap, removedMap := c.members, c.removed;
    }

    method SaveToStorage()
      modifies store
      ensures store.saved == Some(Value())
    {
      store.saved := Some(Cluster(membersMap, removedMap));
    }

    /** Every peer URL of the stored members, except those of one id. */
    static method PeerURLs(members: map<Id, Member>, except: Option<Id>) returns (urls: set<string>)
      ensures forall u :: u in urls <==>
                exists id :: id in members && Some(members[id].id) != except && u in members[id].peerURLs
    {
      urls := {};
      var todo := members.Keys;
      while todo != {}
        invariant todo <= members.Keys
        invariant forall u :: u in urls <==>
                    exists id :: id in members && id !in todo && Some(members[id].id) != except &&
                        u in members[id].peerURLs
      {
        var id :| id in todo;
        if Some(members[id].id) != except {
          urls := urls + set u | u in members[id].peerURLs;
        }
        todo := todo - {id};
      }
    }

    method ValidateConfigurationChange(cc: ConfChange) returns (r: Option<ConfError>)
      ensures r == Validate(if store.saved.Some? then store.saved.value else Cluster(map[], {}), cc)
    {
      var stored := if store.saved.Some? then store.saved.value else Cluster(map[], {});
      if cc.nodeID in stored.removed {
        return Some(ErrIDRemoved);
      }
      match cc.kind {
        case AddNode =>
          if cc.nodeID in stored.members {
            return Some(ErrIDExists);
          }
          var urls := PeerURLs(stored.members, None);
          ClashMeans(stored, cc.member, None, urls);
          if exists u :: u in cc.member.peerURLs && u in urls {
            return Some(ErrPeerURLexists);
          }
        case RemoveNode =>
          if cc.nodeID !in stored.members {
            return Some(ErrIDNotFound);
          }
        case UpdateNode =>
          if cc.nodeID !in stored.members {
            return Some(ErrIDNotFound);
          }
          var urls := PeerURLs(stored.members, Some(cc.nodeID));
          ClashMeans(stored, cc.member, Some(cc.nodeID), urls);
          if exists u :: u in cc.member.peerURLs && u in urls {
            return Some(ErrPeerURLexists);
          }
      }
      r := None;
    }

    lemma ClashMeans(c: Cluster, m: Member, except: Option<Id>, urls: set<string>)
      requires forall u :: u in urls <==>
                 exists id :: id in c.members && Some(c.members[id].id) != except && u in c.members[id].peerURLs
      ensures Clashes(c, m, except) <==> exists u :: u in m.peerURLs && u in urls
    {
      if Clashes(c, m, except) {
        var id :| id in c.members && Some(c.members[id].id) != except && Shares(c.members[id], m);
        var u :| u in c.members[id].peerURLs && u in m.peerURLs;
        assert u in urls;
      }
      if u :| u in m.peerURLs && u in urls {
        var id :| id in c.members && Some(c.members[id].id) != except && u in c.members[id].peerURLs;
        assert Shares(c.members[id], m);
      }
    }

    method AddMember(m: Member)
      modifies this, store
      ensures membersMap == old(membersMap)[m.id := m] && removedMap == old(removedMap)
      ensures store.saved == Some(Value())
    {
      membersMap := membersMap[m.id := m];
      SaveToStorage();
    }

    method RemoveMember(id: Id)
      modifies this, store
      ensures membersMap == old(membersMap) - {id} && removedMap == old(removedMap) + {id}
      ensures store.saved == Some(Value())
    {
      membersMap := membersMap - {id};
      removedMap := removedMap + {id};
      SaveToStorage();
    }

    method UpdateRaftAttributes(id: Id, peerURLs: seq<string>)
      requires id in membersMap
      modifies this, store
      ensures membersMap == old(membersMap)[id := old(membersMap)[id].(peerURLs := peerURLs)]
      ensures removedMap == old(removedMap) && store.saved == Some(Value())
    {
      membersMap := membersMap[id := membersMap[id].(peerURLs := peerURLs)];
      SaveToStorage();
    }

    /** Name and admin URLs of a member; a removed id is skipped, an unknown one is a panic. */
    method UpdateAttributes(a: Attributes) returns (ok: bool)
      requires Valid()
      modifies this, store
      ensures Valid() && Value() == Described(old(Value()), a)
      ensures removedMap == old(removedMap) && membersMap.Keys == old(membersMap).Keys
      ensures forall id :: id in membersMap && id != a.id ==> membersMap[id] == old(membersMap)[id]
      ensures a.id in membersMap ==>
                && membersMap[a.id].name == a.name && membersMap[a.id].adminURLs == a.adminURLs
                && membersMap[a.id].id == old(membersMap)[a.id].id
                && membersMap[a.id].peerURLs == old(membersMap)[a.id].peerURLs
      ensures ok <==> !Halts(old(Value()), Describe(a))
      ensures ok <==> a.id in membersMap || a.id in removedMap
    {
      DescribedKeeps(Value(), a);
      hide Sound;
      if a.id in membersMap {
        membersMap := membersMap[a.id := membersMap[a.id].(name := a.name, adminURLs := a.adminURLs)];
        SaveToStorage();
        return true;
      }
      ok := a.id in removedMap;
    }

    /** A committed change: validated against the stored copy, then applied to both copies. */
    method ApplyConfChange(cc: ConfChange, self: Id) returns (removedSelf: bool, error: Option<ConfError>)
      requires Valid()
      modifies this, store
      ensures Valid() && Value() == After(old(Value()), cc)
      ensures match Change(old(Value()), cc)
              case Applied(_) => error == None && (removedSelf <==> cc.kind.RemoveNode? && cc.nodeID == self)
              case Rejected(e) => error == Some(e) && !removedSelf
      ensures error == None <==> Succeeds(old(Value()), cc)
      ensures if error == None then Effect(old(Value()), cc, Value()) else Value() == old(Value())
    {
      ChangeExact(Value(), cc);
      hide Validate, Succeeds, Effect;
      removedSelf := false;
      ChangeKeeps(Value(), cc);
      error := ValidateConfigurationChange(cc);
      if error.Some? {
        return;
      }
      hide Sound;
      match cc.kind {
        case AddNode =>
          if cc.nodeID != cc.member.id {
            return false, Some(Fatal);
          }
          AddMember(cc.member);
        case RemoveNode =>
          RemoveMember(cc.nodeID);
          if cc.nodeID == self {
            return true, None;
          }
        case UpdateNode =>
          if cc.nodeID != cc.member.id {
            return false, Some(Fatal);
          }
          assert cc.nodeID in membersMap by { UpdateTargets(Value(), cc); }
          UpdateRaftAttributes(cc.member.id, cc.member.peerURLs);
      }
    }

    lemma UpdateTargets(c: Cluster, cc: ConfChange)
      requires cc.kind.UpdateNode? && Validate(c, cc) == None
      ensures cc.nodeID in c.members
    {
    }

    /** The members, and those that have a name. */
    method CountMembers() returns (nmembers: nat, nstarted: nat)
      ensures nmembers == |membersMap| && nstarted == |Started(membersMap, membersMap.Keys)|
    {
      nmembers, nstarted := 0, 0;
      var todo := membersMap.Keys;
      ghost var done: set<Id> := {};
      NoneStarted(membersMap);
      hide Started;
      while todo != {}
        invariant todo + done == membersMap.Keys && todo !! done
        invariant nmembers == |done| && nstarted == |Started(membersMap, done)|
      {
        var id :| id in todo;
        StartedGrows(membersMap, done, id);
        if membersMap[id].name != "" {
          nstarted := nstarted + 1;
        }
        nmembers := nmembers + 1;
        todo, done := todo - {id}, done + {id};
      }
      assert done == membersMap.Keys && |membersMap| == |membersMap.Keys|;
    }

    /** Whether the started members are a majority of the cluster with one more member. */
    method IsReadyToAddNewMember() returns (ok: bool)
      ensures var started := set id | id in membersMap && membersMap[id].name != "";
              ok <==> (|started| == 1 && |membersMap| == 1) || 2 * |started| > |membersMap| + 1
    {
      var nmembers, nstarted := CountMembers();
      nmembers := nmembers + 1;
      ghost var started := set id | id in membersMap && membersMap[id].name != "";
      assert Started(membersMap, membersMap.Keys) == started;
      if nstarted == 1 && nmembers == 2 {
        return true;
      }
      var nquorum := nmembers / 2 + 1;
      ok := !(nstarted < nquorum);
    }

    /** Whether the started members that stay are a majority of the cluster without the removed one. */
    method IsReadyToRemoveMember(id: Id) returns (ok: bool)
      requires Valid()
      ensures var stay := membersMap.Keys - {id};
              var started := set k | k in stay && membersMap[k].name != "";
              ok <==> 2 * |started| > |stay|
    {
      var nmembers, nstarted := 0, 0;
      var members := membersMap;
      assert forall k :: k in members ==> members[k].id == k;
      ghost var stay := membersMap.Keys - {id};
      ghost var started := set k | k in stay && membersMap[k].name != "";
      assert Started(members, stay) == started;
      hide Started, Sound, Counted;
      CountEnds(members, id);
      var todo := members.Keys;
      while todo != {}
        invariant todo <= members.Keys
        invariant nmembers == |Counted(members.Keys, todo, id)|
        invariant nstarted == |Started(members, Counted(members.Keys, todo, id))|
      {
        var k :| k in todo;
        CountStep(members, todo, k, id);
        if members[k].id != id {
          if members[k].name != "" {
            nstarted := nstarted + 1;
          }
          nmembers := nmembers + 1;
        }
        todo := todo - {k};
      }
      var nquorum := nmembers / 2 + 1;
      ok := !(nstarted < nquorum);
    }
  }
}
