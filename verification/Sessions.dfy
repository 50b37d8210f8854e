/** Session records and the policy that bounds how many are kept: the specification of the store. */
module Sessions {
  import opened Results
  import opened Wire
  import opened Frames
  import opened ReplayWindow
  import opened Lists

  const MAX_MESSAGES_PER_KEY := 0x1_0000_0000
  const MAX_COUNTER := 0x7FFF_FFFF_FFFF_FFFF

  /** A device or session identifier, as its bytes. */
  datatype Name = Name(raw: Bytes)

  datatype Session = Session(
    peerId: Name, sessionId: Name, role: Role, sendKey: Bytes, receiveKey: Bytes,
    transferPort: int, manifestPort: int, confirmed: bool, createdAt: real, lastActivity: real,
    nextSendCounter: int, sentCount: int, window: WindowState)
  {
    predicate CanAllocate() {
      sentCount < MAX_MESSAGES_PER_KEY && nextSendCounter <= MAX_COUNTER
    }

    predicate CanSend(now: real, maxLifetime: real) {
      confirmed && now - createdAt <= maxLifetime && CanAllocate()
    }

    /** The state after one counter was handed out. */
    function Allocated(): Session {
      this.(nextSendCounter := nextSendCounter + 1, sentCount := sentCount + 1)
    }
  }

  datatype Config = Config(
    maxPerPeer: int, maxUnconfirmedPerPeer: int, globalCap: int,
    maxKeyLifetime: real, idleConfirmed: real, idleUnconfirmed: real)

  /** The recorded sessions in the order they were recorded. */
  datatype Registry = Registry(order: seq<Name>, sessions: map<Name, Session>)

  ghost predicate WellFormed(r: Registry) {
    && NoDup(r.order)
    && (forall sid :: sid in r.order <==> sid in r.sessions)
    && (forall sid :: sid in r.sessions ==> r.sessions[sid].sessionId == sid && |sid.raw| == SESSION_ID_SIZE)
  }

  // ----- selection and removal -----

  function InPeer(sessions: map<Name, Session>, peer: Name): Name -> bool {
    sid => sid in sessions && sessions[sid].peerId == peer
  }

  function Unconfirmed(sessions: map<Name, Session>): Name -> bool {
    sid => sid in sessions && !sessions[sid].confirmed
  }

  function PeerIds(r: Registry, peer: Name): seq<Name> {
    Filter(r.order, InPeer(r.sessions, peer))
  }

  function UnconfirmedIds(r: Registry, peer: Name): seq<Name> {
    Filter(PeerIds(r, peer), Unconfirmed(r.sessions))
  }

  /** The registry with only the sessions named by `keep`. */
  function Restrict(r: Registry, keep: set<Name>): Registry {
    Registry(Filter(r.order, InSet(keep)), map sid | sid in r.sessions && sid in keep :: r.sessions[sid])
  }

  function Remove(r: Registry, sid: Name): Registry {
    Restrict(r, r.sessions.Keys - {sid})
  }

  predicate Expired(c: Config, s: Session, now: real) {
    || now - s.createdAt > c.maxKeyLifetime
    || now - s.lastActivity > (if s.confirmed then c.idleConfirmed else c.idleUnconfirmed)
  }

  function Live(c: Config, r: Registry, now: real): set<Name> {
    set sid | sid in r.sessions && !Expired(c, r.sessions[sid], now)
  }

  function Stale(c: Config, sessions: map<Name, Session>, now: real): Name -> bool {
    sid => sid in sessions && Expired(c, sessions[sid], now)
  }

  function Age(s: Session): real {
    if s.confirmed then s.lastActivity else s.createdAt
  }

  /** Scanning `ids` in order, the first oldest-created unconfirmed session, or the first least
      recently used confirmed one. */
  function Pick(ids: seq<Name>, sessions: map<Name, Session>, confirmed: bool): (v: Option<Name>)
    ensures v.Some? ==> v.value in ids && v.value in sessions && sessions[v.value].confirmed == confirmed
    ensures v.Some? ==> forall sid :: sid in ids && sid in sessions && sessions[sid].confirmed == confirmed
                          ==> Age(sessions[v.value]) <= Age(sessions[sid])
    ensures v.None? ==> forall sid :: sid in ids && sid in sessions ==> sessions[sid].confirmed != confirmed
  {
    assert ids[..|ids|] == ids;
    PickTo(ids, sessions, confirmed, |ids|)
  }

  function PickTo(ids: seq<Name>, sessions: map<Name, Session>, confirmed: bool, k: nat): (v: Option<Name>)
    requires k <= |ids|
    ensures v.Some? ==> v.value in ids && v.value in sessions && sessions[v.value].confirmed == confirmed
    ensures v.Some? ==> forall i :: 0 <= i < k && ids[i] in sessions && sessions[ids[i]].confirmed == confirmed
                          ==> Age(sessions[v.value]) <= Age(sessions[ids[i]])
    ensures v.None? ==> forall i :: 0 <= i < k && ids[i] in sessions ==> sessions[ids[i]].confirmed != confirmed
  {
    if k == 0 then None else
      var best := PickTo(ids, sessions, confirmed, k - 1);
      var sid := ids[k - 1];
      if sid !in sessions || sessions[sid].confirmed != confirmed then best
      else if best.None? || Age(sessions[sid]) < Age(sessions[best.value]) then Some(sid)
      else best
  }

  // ----- cap enforcement -----

  datatype Scope = OnePeer(peer: Name) | Everyone

  function Ids(r: Registry, scope: Scope): seq<Name> {
    if scope.Everyone? then r.order else PeerIds(r, scope.peer)
  }

  /** An unconfirmed session if there is one, otherwise a confirmed one. */
  function Victim(ids: seq<Name>, sessions: map<Name, Session>): Option<Name> {
    var v := Pick(ids, sessions, false);
    if v.Some? then v else Pick(ids, sessions, true)
  }

  function DropUnconfirmed(r: Registry, peer: Name, cap: int): Registry
    decreases r.sessions.Keys
  {
    var ids := UnconfirmedIds(r, peer);
    var v := Pick(ids, r.sessions, false);
    if |ids| < cap || v.None? then r else DropUnconfirmed(Remove(r, v.value), peer, cap)
  }

  function Shrink(r: Registry, scope: Scope, cap: int): Registry
    decreases r.sessions.Keys
  {
    var ids := Ids(r, scope);
    var v := Victim(ids, r.sessions);
    if |ids| < cap || v.None? then r else Shrink(Remove(r, v.value), scope, cap)
  }

  lemma DropStep(r: Registry, peer: Name, cap: int)
    requires |UnconfirmedIds(r, peer)| >= cap
    ensures var v := Pick(UnconfirmedIds(r, peer), r.sessions, false);
            DropUnconfirmed(r, peer, cap) == if v.None? then r else DropUnconfirmed(Remove(r, v.value), peer, cap)
  {}

  lemma ShrinkStep(r: Registry, scope: Scope, cap: int)
    requires |Ids(r, scope)| >= cap
    ensures var v := Victim(Ids(r, scope), r.sessions);
            Shrink(r, scope, cap) == if v.None? then r else Shrink(Remove(r, v.value), scope, cap)
  {}

  datatype StoreError = WrongLength | Collision | NothingToEvict

  /** Everything `put` evicts before it records a session of `peer`. */
  function MakeRoom(c: Config, r: Registry, peer: Name, now: real): Registry {
    var pruned := Restrict(r, Live(c, r, now));
    var calmed := DropUnconfirmed(pruned, peer, c.maxUnconfirmedPerPeer);
    Shrink(Shrink(calmed, OnePeer(peer), c.maxPerPeer), Everyone, c.globalCap)
  }

  function Put(c: Config, r: Registry, s: Session, now: real): (Registry, Option<StoreError>) {
    if |s.sessionId.raw| != SESSION_ID_SIZE then (r, Some(WrongLength))
    else if s.sessionId in r.sessions then (r, Some(Collision))
    else
      var room := MakeRoom(c, r, s.peerId, now);
      if |room.order| >= c.globalCap then (room, Some(NothingToEvict))
      else (Registry(room.order + [s.sessionId], room.sessions[s.sessionId := s]), None)
  }

  function RemovePeer(r: Registry, peer: Name): Registry {
    Restrict(r, set sid | sid in r.sessions && r.sessions[sid].peerId != peer)
  }

  /** A peer's list holds exactly that peer's sessions. */
  lemma PeerMembers(r: Registry, p: Name)
    requires WellFormed(r)
    ensures forall sid :: sid in PeerIds(r, p) <==> sid in r.sessions && r.sessions[sid].peerId == p
  {
    FilterMembers(r.order, InPeer(r.sessions, p));
  }

  // ----- properties of restriction -----

  lemma RestrictWellFormed(r: Registry, keep: set<Name>)
    requires WellFormed(r)
    ensures WellFormed(Restrict(r, keep))
    ensures Restrict(r, keep).sessions.Keys == r.sessions.Keys * keep
  {
    FilterNoDup(r.order, InSet(keep));
    FilterMembers(r.order, InSet(keep));
  }

  /** Every index over the restricted registry is the old index with the removed ids filtered out. */
  lemma RestrictIds(r: Registry, keep: set<Name>, peer: Name)
    requires WellFormed(r)
    ensures PeerIds(Restrict(r, keep), peer) == Filter(PeerIds(r, peer), InSet(keep))
    ensures UnconfirmedIds(Restrict(r, keep), peer) == Filter(UnconfirmedIds(r, peer), InSet(keep))
  {
    var r' := Restrict(r, keep);
    assert PeerIds(r', peer) == Filter(PeerIds(r, peer), InSet(keep)) by {
      FilterMembers(r.order, InSet(keep));
      FilterCongruent(r'.order, InPeer(r'.sessions, peer), InPeer(r.sessions, peer));
      FilterCommute(r.order, InSet(keep), InPeer(r.sessions, peer));
    }
    FilterMembers(r'.order, InPeer(r'.sessions, peer));
    FilterMembers(r.order, InSet(keep));
    FilterCongruent(PeerIds(r', peer), Unconfirmed(r'.sessions), Unconfirmed(r.sessions));
    FilterCommute(PeerIds(r, peer), InSet(keep), Unconfirmed(r.sessions));
  }

  lemma RemoveShape(r: Registry, sid: Name)
    requires WellFormed(r)
    ensures Remove(r, sid) == Registry(Filter(r.order, Other(sid)), r.sessions - {sid})
    ensures WellFormed(Remove(r, sid))
  {
    FilterCongruent(r.order, Other(sid), InSet(r.sessions.Keys - {sid}));
    RestrictWellFormed(r, r.sessions.Keys - {sid});
  }

  /** Removing one session takes its id out of its own peer's list only. */
  lemma RemoveIds(r: Registry, sid: Name, p: Name)
    requires WellFormed(r) && sid in r.sessions
    ensures PeerIds(Remove(r, sid), p)
            == if p == r.sessions[sid].peerId then Filter(PeerIds(r, p), Other(sid)) else PeerIds(r, p)
  {
    var keep := r.sessions.Keys - {sid};
    RestrictIds(r, keep, p);
    PeerMembers(r, p);
    if p == r.sessions[sid].peerId {
      FilterCongruent(PeerIds(r, p), Other(sid), InSet(keep));
    } else {
      FilterAll(PeerIds(r, p), InSet(keep));
    }
  }

  lemma RemoveAbsent(r: Registry, sid: Name)
    requires WellFormed(r) && sid !in r.sessions
    ensures Remove(r, sid) == r && r.sessions - {sid} == r.sessions
  {
    FilterAll(r.order, InSet(r.sessions.Keys - {sid}));
  }

  // ----- the per-peer index -----

  function Peers(r: Registry): set<Name> {
    set sid | sid in r.sessions :: r.sessions[sid].peerId
  }

  /** Each peer that has a session, with its sessions in recording order. */
  function ByPeer(r: Registry): map<Name, seq<Name>> {
    map p | p in Peers(r) :: PeerIds(r, p)
  }

  lemma PeersHaveIds(r: Registry, p: Name)
    requires WellFormed(r)
    ensures p in Peers(r) <==> PeerIds(r, p) != []
  {
    PeerMembers(r, p);
    if PeerIds(r, p) != [] {
      assert PeerIds(r, p)[0] in PeerIds(r, p);
    }
  }

  /** The index with one session of `peer` taken out; an emptied list disappears. */
  function Unindex(byPeer: map<Name, seq<Name>>, peer: Name, sid: Name): map<Name, seq<Name>> {
    if peer !in byPeer then byPeer else
      var ids := Filter(byPeer[peer], Other(sid));
      if ids == [] then byPeer - {peer} else byPeer[peer := ids]
  }

  lemma UnindexAt(r: Registry, sid: Name, p: Name, index: map<Name, seq<Name>>)
    requires WellFormed(r) && sid in r.sessions
    requires index == Unindex(ByPeer(r), r.sessions[sid].peerId, sid)
    ensures p in index <==> p in ByPeer(Remove(r, sid))
    ensures p in index ==> index[p] == ByPeer(Remove(r, sid))[p]
  {
    var q, r' := r.sessions[sid].peerId, Remove(r, sid);
    assert PeerIds(r', p) == if p == q then Filter(PeerIds(r, p), Other(sid)) else PeerIds(r, p) by {
      RemoveIds(r, sid, p);
    }
    RemoveShape(r, sid);
    IndexLookup(r, p);
    IndexLookup(r', p);
    UnindexLookup(ByPeer(r), q, sid, p);
  }

  /** What the index says of one peer. */
  lemma IndexLookup(r: Registry, p: Name)
    requires WellFormed(r)
    ensures p in ByPeer(r) <==> PeerIds(r, p) != []
    ensures p in ByPeer(r) ==> ByPeer(r)[p] == PeerIds(r, p)
  {
    PeersHaveIds(r, p);
  }

  lemma UnindexLookup(byPeer: map<Name, seq<Name>>, q: Name, sid: Name, p: Name)
    ensures var index := Unindex(byPeer, q, sid);
            && (p in index <==> p in byPeer && (p == q ==> Filter(byPeer[p], Other(sid)) != []))
            && (p in index ==> index[p] == if p == q then Filter(byPeer[p], Other(sid)) else byPeer[p])
  {}

  lemma UnindexAgrees(r: Registry, sid: Name)
    requires WellFormed(r) && sid in r.sessions
    ensures Unindex(ByPeer(r), r.sessions[sid].peerId, sid) == ByPeer(Remove(r, sid))
  {
    var index, now := Unindex(ByPeer(r), r.sessions[sid].peerId, sid), ByPeer(Remove(r, sid));
    forall p ensures (p in index <==> p in now) && (p in index ==> index[p] == now[p]) {
      UnindexAt(r, sid, p, index);
    }
    SameIndex(index, now);
  }

  lemma SameIndex(m: map<Name, seq<Name>>, n: map<Name, seq<Name>>)
    requires forall p :: (p in m <==> p in n) && (p in m ==> m[p] == n[p])
    ensures m == n
  {}

  lemma RestrictTwice(r: Registry, k: set<Name>, l: set<Name>)
    requires WellFormed(r)
    ensures Restrict(Restrict(r, k), l) == Restrict(r, k * l)
  {
    FilterFilter(r.order, InSet(k), InSet(l));
    FilterCongruent(r.order, Both(InSet(k), InSet(l)), InSet(k * l));
  }

  ghost function Named(ids: seq<Name>, k: nat): set<Name>
    requires k <= |ids|
  {
    set i | 0 <= i < k :: ids[i]
  }

  lemma RemoveOneMore(r: Registry, ids: seq<Name>, i: nat)
    requires WellFormed(r) && i < |ids|
    ensures Remove(Restrict(r, r.sessions.Keys - Named(ids, i)), ids[i])
            == Restrict(r, r.sessions.Keys - Named(ids, i + 1))
  {
    var k := r.sessions.Keys - Named(ids, i);
    RestrictWellFormed(r, k);
    RestrictTwice(r, k, Restrict(r, k).sessions.Keys - {ids[i]});
    assert Named(ids, i + 1) == Named(ids, i) + {ids[i]};
    assert k * (Restrict(r, k).sessions.Keys - {ids[i]}) == r.sessions.Keys - Named(ids, i + 1);
  }

  /** `r'` is `r` with some sessions removed and everything else untouched. */
  ghost predicate Below(r': Registry, r: Registry) {
    r' == Restrict(r, r'.sessions.Keys) && r'.sessions.Keys <= r.sessions.Keys
  }

  lemma BelowSelf(r: Registry)
    requires WellFormed(r)
    ensures Below(r, r)
  {
    FilterAll(r.order, InSet(r.sessions.Keys));
  }

  lemma BelowTransitive(a: Registry, b: Registry, c: Registry)
    requires WellFormed(c) && Below(b, c) && Below(a, b)
    ensures Below(a, c)
  {
    RestrictTwice(c, b.sessions.Keys, a.sessions.Keys);
    assert b.sessions.Keys * a.sessions.Keys == a.sessions.Keys;
  }

  lemma RestrictBelow(r: Registry, keep: set<Name>)
    requires WellFormed(r)
    ensures WellFormed(Restrict(r, keep)) && Below(Restrict(r, keep), r)
  {
    RestrictWellFormed(r, keep);
    FilterCongruent(r.order, InSet(keep), InSet(r.sessions.Keys * keep));
  }

  // ----- what cap enforcement evicts -----

  /** Which sessions a cap's scope covers. */
  predicate Covers(scope: Scope, s: Session) {
    scope.Everyone? || s.peerId == scope.peer
  }

  /** Only sessions in scope go; a confirmed one goes only if no unconfirmed one in scope survives;
      and within each kind whatever goes is at least as old as whatever stays. */
  ghost predicate FairEviction(r: Registry, r': Registry, scope: Scope) {
    && (forall sid :: sid in r.sessions && sid !in r'.sessions ==> Covers(scope, r.sessions[sid]))
    && (forall gone, kept :: gone in r.sessions && gone !in r'.sessions && kept in r'.sessions
                             && Covers(scope, r'.sessions[kept])
                             ==> && (r.sessions[gone].confirmed ==> r'.sessions[kept].confirmed)
                                 && (r.sessions[gone].confirmed == r'.sessions[kept].confirmed
                                     ==> Age(r.sessions[gone]) <= Age(r'.sessions[kept])))
  }

  lemma ScopeMembers(r: Registry, scope: Scope)
    requires WellFormed(r)
    ensures forall sid :: sid in Ids(r, scope) <==> sid in r.sessions && Covers(scope, r.sessions[sid])
  {
    if scope.OnePeer? {
      PeerMembers(r, scope.peer);
    }
  }

  lemma VictimIsFair(r: Registry, scope: Scope)
    requires WellFormed(r) && Victim(Ids(r, scope), r.sessions).Some?
    ensures FairEviction(r, Remove(r, Victim(Ids(r, scope), r.sessions).value), scope)
  {
    ScopeMembers(r, scope);
  }

  lemma FairTransitive(r: Registry, mid: Registry, r': Registry, scope: Scope)
    requires Below(mid, r) && Below(r', mid)
    requires FairEviction(r, mid, scope) && FairEviction(mid, r', scope)
    ensures FairEviction(r, r', scope)
  {
    forall gone, kept | gone in r.sessions && gone !in r'.sessions && kept in r'.sessions
                        && Covers(scope, r'.sessions[kept])
      ensures r.sessions[gone].confirmed ==> r'.sessions[kept].confirmed
      ensures r.sessions[gone].confirmed == r'.sessions[kept].confirmed
              ==> Age(r.sessions[gone]) <= Age(r'.sessions[kept])
    {
      assert kept in mid.sessions && mid.sessions[kept] == r'.sessions[kept];
      if gone in mid.sessions {
        assert mid.sessions[gone] == r.sessions[gone];
      }
    }
  }

  /** A non-empty scope always offers a victim. */
  lemma VictimExists(r: Registry, scope: Scope)
    requires WellFormed(r) && Ids(r, scope) != []
    ensures Victim(Ids(r, scope), r.sessions).Some?
  {
    ScopeMembers(r, scope);
    assert Ids(r, scope)[0] in Ids(r, scope);
  }

  lemma {:induction false} ShrinkIsFair(r: Registry, scope: Scope, cap: int)
    requires WellFormed(r)
    ensures WellFormed(Shrink(r, scope, cap)) && Below(Shrink(r, scope, cap), r)
    ensures FairEviction(r, Shrink(r, scope, cap), scope)
    ensures |Ids(Shrink(r, scope, cap), scope)| < cap || Ids(Shrink(r, scope, cap), scope) == []
    decreases r.sessions.Keys
  {
    var ids := Ids(r, scope);
    var v := Victim(ids, r.sessions);
    if |ids| < cap || v.None? {
      BelowSelf(r);
      if ids != [] {
        VictimExists(r, scope);
      }
    } else {
      var once := Remove(r, v.value);
      RestrictBelow(r, r.sessions.Keys - {v.value});
      VictimIsFair(r, scope);
      ShrinkIsFair(once, scope, cap);
      var r' := Shrink(once, scope, cap);
      BelowTransitive(r', once, r);
      FairTransitive(r, once, r', scope);
    }
  }

  lemma UnconfirmedMember(r: Registry, peer: Name, sid: Name)
    requires WellFormed(r)
    ensures sid in UnconfirmedIds(r, peer)
            <==> sid in r.sessions && r.sessions[sid].peerId == peer && !r.sessions[sid].confirmed
  {
    PeerMembers(r, peer);
    InFilter(PeerIds(r, peer), Unconfirmed(r.sessions), sid);
  }

  lemma UnconfirmedVictim(r: Registry, peer: Name, v: Name)
    requires WellFormed(r) && Pick(UnconfirmedIds(r, peer), r.sessions, false) == Some(v)
    ensures !r.sessions[v].confirmed && FairEviction(r, Remove(r, v), OnePeer(peer))
  {
    var r' := Remove(r, v);
    UnconfirmedMember(r, peer, v);
    forall kept | kept in r'.sessions && Covers(OnePeer(peer), r'.sessions[kept]) && !r'.sessions[kept].confirmed
      ensures Age(r.sessions[v]) <= Age(r'.sessions[kept])
    {
      UnconfirmedMember(r, peer, kept);
    }
  }

  lemma {:induction false} DropUnconfirmedIsFair(r: Registry, peer: Name, cap: int, r': Registry)
    requires WellFormed(r) && r' == DropUnconfirmed(r, peer, cap)
    ensures WellFormed(r') && Below(r', r) && FairEviction(r, r', OnePeer(peer))
    ensures forall sid :: sid in r.sessions && sid !in r'.sessions ==> !r.sessions[sid].confirmed
    ensures |UnconfirmedIds(r', peer)| < cap || UnconfirmedIds(r', peer) == []
    decreases r.sessions.Keys
  {
    var ids := UnconfirmedIds(r, peer);
    var v := Pick(ids, r.sessions, false);
    if |ids| < cap || v.None? {
      BelowSelf(r);
      if ids != [] && v.None? {
        UnconfirmedMember(r, peer, ids[0]);
      }
    } else {
      var once := Remove(r, v.value);
      RestrictBelow(r, r.sessions.Keys - {v.value});
      DropUnconfirmedIsFair(once, peer, cap, r');
      DropThenMore(r, peer, v.value, r');
    }
  }

  lemma DropThenMore(r: Registry, peer: Name, v: Name, r': Registry)
    requires WellFormed(r) && Pick(UnconfirmedIds(r, peer), r.sessions, false) == Some(v)
    requires Below(r', Remove(r, v)) && FairEviction(Remove(r, v), r', OnePeer(peer))
    requires forall sid :: sid in Remove(r, v).sessions && sid !in r'.sessions ==> !Remove(r, v).sessions[sid].confirmed
    ensures Below(r', r) && FairEviction(r, r', OnePeer(peer))
    ensures forall sid :: sid in r.sessions && sid !in r'.sessions ==> !r.sessions[sid].confirmed
  {
    var once := Remove(r, v);
    RestrictBelow(r, r.sessions.Keys - {v});
    UnconfirmedVictim(r, peer, v);
    BelowTransitive(r', once, r);
    FairTransitive(r, once, r', OnePeer(peer));
  }
}
