/** The session caps, over every sequence of store operations. */
module SessionCaps {
  import opened Results
  import opened Frames
  import opened Lists
  import opened Sessions

  ghost predicate Positive(c: Config) {
    c.maxPerPeer > 0 && c.maxUnconfirmedPerPeer > 0 && c.globalCap > 0
  }

  ghost predicate WithinCaps(c: Config, r: Registry) {
    && |r.order| <= c.globalCap
    && (forall p :: |PeerIds(r, p)| <= c.maxPerPeer)
    && (forall p :: |UnconfirmedIds(r, p)| <= c.maxUnconfirmedPerPeer)
  }

  lemma BelowCounts(r': Registry, r: Registry, peer: Name)
    requires WellFormed(r) && Below(r', r)
    ensures |r'.order| <= |r.order| && |PeerIds(r', peer)| <= |PeerIds(r, peer)|
    ensures |UnconfirmedIds(r', peer)| <= |UnconfirmedIds(r, peer)|
  {
    RestrictIds(r, r'.sessions.Keys, peer);
    FilterShorter(r.order, InSet(r'.sessions.Keys));
    FilterShorter(PeerIds(r, peer), InSet(r'.sessions.Keys));
    FilterShorter(UnconfirmedIds(r, peer), InSet(r'.sessions.Keys));
  }

  lemma BelowWithinCaps(c: Config, r': Registry, r: Registry)
    requires WellFormed(r) && Below(r', r) && WithinCaps(c, r)
    ensures WithinCaps(c, r')
  {
    forall p ensures |PeerIds(r', p)| <= c.maxPerPeer && |UnconfirmedIds(r', p)| <= c.maxUnconfirmedPerPeer {
      BelowCounts(r', r, p);
    }
    BelowCounts(r', r, Name([]));
  }

  /** The three eviction stages of `put` after expiry: the peer's unconfirmed sessions, the peer's
      sessions, all sessions. */
  lemma Stages(c: Config, r: Registry, peer: Name, now: real)
    returns (pruned: Registry, calmed: Registry, fitted: Registry, room: Registry)
    requires WellFormed(r)
    ensures room == MakeRoom(c, r, peer, now) && pruned == Restrict(r, Live(c, r, now))
    ensures WellFormed(pruned) && WellFormed(calmed) && WellFormed(fitted) && WellFormed(room)
    ensures Below(pruned, r) && Below(calmed, pruned) && Below(fitted, calmed) && Below(room, fitted)
    ensures forall sid :: sid in pruned.sessions && sid !in calmed.sessions ==> !pruned.sessions[sid].confirmed
    ensures FairEviction(calmed, fitted, OnePeer(peer)) && FairEviction(fitted, room, Everyone)
    ensures |UnconfirmedIds(calmed, peer)| < c.maxUnconfirmedPerPeer || UnconfirmedIds(calmed, peer) == []
    ensures |PeerIds(fitted, peer)| < c.maxPerPeer || PeerIds(fitted, peer) == []
    ensures |room.order| < c.globalCap || room.order == []
  {
    pruned := Restrict(r, Live(c, r, now));
    RestrictBelow(r, Live(c, r, now));
    calmed := DropUnconfirmed(pruned, peer, c.maxUnconfirmedPerPeer);
    DropUnconfirmedIsFair(pruned, peer, c.maxUnconfirmedPerPeer, calmed);
    fitted := Shrink(calmed, OnePeer(peer), c.maxPerPeer);
    ShrinkIsFair(calmed, OnePeer(peer), c.maxPerPeer);
    room := Shrink(fitted, Everyone, c.globalCap);
    ShrinkIsFair(fitted, Everyone, c.globalCap);
  }

  /** What `put` has cleared away by the time it records the session. */
  lemma RoomIsMade(c: Config, r: Registry, peer: Name, now: real, room: Registry)
    requires WellFormed(r) && room == MakeRoom(c, r, peer, now)
    ensures WellFormed(room) && Below(room, r)
    ensures |PeerIds(room, peer)| < c.maxPerPeer || PeerIds(room, peer) == []
    ensures |UnconfirmedIds(room, peer)| < c.maxUnconfirmedPerPeer || UnconfirmedIds(room, peer) == []
    ensures |room.order| < c.globalCap || room.order == []
    ensures forall sid | sid in room.sessions ::
              && now - room.sessions[sid].createdAt <= c.maxKeyLifetime
              && now - room.sessions[sid].lastActivity
                 <= (if room.sessions[sid].confirmed then c.idleConfirmed else c.idleUnconfirmed)
  {
    var pruned, calmed, fitted, _ := Stages(c, r, peer, now);
    BelowTransitive(room, fitted, calmed);
    BelowTransitive(room, calmed, pruned);
    BelowTransitive(room, pruned, r);
    BelowCounts(room, fitted, peer);
    BelowCounts(room, calmed, peer);
  }

  /** A live confirmed session makes way only when no unconfirmed session is left: none of the
      peer's own for the per-peer cap, none at all for the global cap. */
  lemma ConfirmedGoesLast(c: Config, r: Registry, peer: Name, now: real, gone: Name, kept: Name)
    requires WellFormed(r) && gone in r.sessions && gone !in MakeRoom(c, r, peer, now).sessions
    requires r.sessions[gone].confirmed && !Expired(c, r.sessions[gone], now)
    requires kept in r.sessions && kept in MakeRoom(c, r, peer, now).sessions && !r.sessions[kept].confirmed
    ensures r.sessions[gone].peerId == peer && r.sessions[kept].peerId != peer
  {
    var pruned, calmed, fitted, room := Stages(c, r, peer, now);
    assert gone in pruned.sessions && gone in calmed.sessions;
    assert kept in fitted.sessions && kept in calmed.sessions;
    assert room.sessions[kept] == fitted.sessions[kept] == calmed.sessions[kept] == r.sessions[kept];
    assert gone !in fitted.sessions;
    assert calmed.sessions[gone] == r.sessions[gone];
    assert Covers(OnePeer(peer), calmed.sessions[gone]);
  }

  function Confirmed(sessions: map<Name, Session>): Name -> bool {
    sid => sid in sessions && sessions[sid].confirmed
  }

  function ConfirmedIds(r: Registry, scope: Scope): seq<Name> {
    Filter(Ids(r, scope), Confirmed(r.sessions))
  }

  ghost predicate SparesConfirmed(r: Registry, r': Registry) {
    forall sid :: sid in r.sessions && r.sessions[sid].confirmed ==> sid in r'.sessions
  }

  lemma RestrictConfirmed(r: Registry, r': Registry, scope: Scope)
    requires WellFormed(r) && Below(r', r)
    ensures ConfirmedIds(r', scope) == Filter(ConfirmedIds(r, scope), InSet(r'.sessions.Keys))
  {
    var keep := r'.sessions.Keys;
    if scope.OnePeer? {
      RestrictIds(r, keep, scope.peer);
    }
    assert Ids(r', scope) == Filter(Ids(r, scope), InSet(keep));
    FilterMembers(Ids(r, scope), InSet(keep));
    FilterCongruent(Ids(r', scope), Confirmed(r'.sessions), Confirmed(r.sessions));
    FilterCommute(Ids(r, scope), InSet(keep), Confirmed(r.sessions));
  }

  lemma SparedCount(r: Registry, r': Registry, scope: Scope)
    requires WellFormed(r) && Below(r', r) && SparesConfirmed(r, r')
    ensures ConfirmedIds(r', scope) == ConfirmedIds(r, scope)
  {
    RestrictConfirmed(r, r', scope);
    FilterMembers(Ids(r, scope), Confirmed(r.sessions));
    FilterAll(ConfirmedIds(r, scope), InSet(r'.sessions.Keys));
  }

  lemma {:induction false} FewConfirmedAreSpared(r: Registry, scope: Scope, cap: int)
    requires WellFormed(r) && |ConfirmedIds(r, scope)| < cap
    ensures SparesConfirmed(r, Shrink(r, scope, cap))
    decreases r.sessions.Keys
  {
    var ids := Ids(r, scope);
    var v := Victim(ids, r.sessions);
    if |ids| >= cap && v.Some? {
      if r.sessions[v.value].confirmed {
        ScopeMembers(r, scope);
        FilterAll(ids, Confirmed(r.sessions));
      } else {
        var once := Remove(r, v.value);
        RestrictBelow(r, r.sessions.Keys - {v.value});
        SparedCount(r, once, scope);
        FewConfirmedAreSpared(once, scope, cap);
      }
    }
  }

  /** A cap displaces confirmed sessions exactly when they alone already fill it. */
  lemma ConfirmedDisplacedExactly(r: Registry, scope: Scope, cap: int)
    requires WellFormed(r) && cap > 0
    ensures SparesConfirmed(r, Shrink(r, scope, cap)) <==> |ConfirmedIds(r, scope)| < cap
  {
    var r' := Shrink(r, scope, cap);
    ShrinkIsFair(r, scope, cap);
    if |ConfirmedIds(r, scope)| < cap {
      FewConfirmedAreSpared(r, scope, cap);
    } else if SparesConfirmed(r, r') {
      SparedCount(r, r', scope);
      FilterShorter(Ids(r', scope), Confirmed(r'.sessions));
    }
  }

  /** "No session to evict" is reported exactly when the configured global cap admits no session at all. */
  lemma EvictionErrorExactly(c: Config, r: Registry, s: Session, now: real)
    requires WellFormed(r)
    ensures Put(c, r, s, now).1 == Some(NothingToEvict)
            <==> |s.sessionId.raw| == SESSION_ID_SIZE && s.sessionId !in r.sessions && c.globalCap <= 0
  {
    RoomIsMade(c, r, s.peerId, now, MakeRoom(c, r, s.peerId, now));
  }

  ghost predicate Inserted(r: Registry, s: Session, r': Registry) {
    && WellFormed(r) && s.sessionId !in r.sessions && |s.sessionId.raw| == SESSION_ID_SIZE
    && r' == Registry(r.order + [s.sessionId], r.sessions[s.sessionId := s])
  }

  lemma InsertWellFormed(r: Registry, s: Session, r': Registry)
    requires Inserted(r, s, r')
    ensures WellFormed(r')
  {
    NoDupAppend(r.order, s.sessionId);
  }

  lemma InsertAt(r: Registry, s: Session, r': Registry, p: Name)
    requires Inserted(r, s, r')
    ensures PeerIds(r', p) == if p == s.peerId then PeerIds(r, p) + [s.sessionId] else PeerIds(r, p)
    ensures |UnconfirmedIds(r', p)| <= |UnconfirmedIds(r, p)| + (if p == s.peerId then 1 else 0)
  {
    var sid := s.sessionId;
    FilterAppend(r.order, sid, InPeer(r'.sessions, p));
    FilterCongruent(r.order, InPeer(r'.sessions, p), InPeer(r.sessions, p));
    PeerMembers(r, p);
    FilterAppend(PeerIds(r, p), sid, Unconfirmed(r'.sessions));
    FilterCongruent(PeerIds(r, p), Unconfirmed(r'.sessions), Unconfirmed(r.sessions));
  }

  /** The per-peer index with one more session of `peer`, unless it lists it already. */
  function Index(byPeer: map<Name, seq<Name>>, peer: Name, sid: Name): map<Name, seq<Name>> {
    var ids := if peer in byPeer then byPeer[peer] else [];
    byPeer[peer := if sid in ids then ids else ids + [sid]]
  }

  lemma IndexAt(r: Registry, s: Session, r': Registry, p: Name)
    requires Inserted(r, s, r')
    ensures p in Index(ByPeer(r), s.peerId, s.sessionId) <==> p in ByPeer(r')
    ensures p in ByPeer(r') ==> Index(ByPeer(r), s.peerId, s.sessionId)[p] == ByPeer(r')[p]
  {
    assert p in ByPeer(r) <==> PeerIds(r, p) != [] by { PeersHaveIds(r, p); }
    assert p in ByPeer(r') <==> PeerIds(r', p) != [] by { InsertWellFormed(r, s, r'); PeersHaveIds(r', p); }
    assert PeerIds(r', p) == if p == s.peerId then PeerIds(r, p) + [s.sessionId] else PeerIds(r, p) by {
      InsertAt(r, s, r', p);
    }
    assert s.sessionId !in PeerIds(r, p) by { PeerMembers(r, p); }
  }

  lemma IndexInserted(r: Registry, s: Session, r': Registry)
    requires Inserted(r, s, r')
    ensures Index(ByPeer(r), s.peerId, s.sessionId) == ByPeer(r')
  {
    var index, index' := Index(ByPeer(r), s.peerId, s.sessionId), ByPeer(r');
    forall p ensures (p in index <==> p in index') && (p in index' ==> index[p] == index'[p]) {
      IndexAt(r, s, r', p);
    }
  }

  lemma UpdateKeepsIndex(r: Registry, sid: Name, s: Session)
    requires WellFormed(r) && sid in r.sessions && SameIdentity(r.sessions[sid], s)
    ensures WellFormed(r.(sessions := r.sessions[sid := s]))
            && ByPeer(r.(sessions := r.sessions[sid := s])) == ByPeer(r)
  {
    var r' := r.(sessions := r.sessions[sid := s]);
    forall p ensures PeerIds(r', p) == PeerIds(r, p) && (p in Peers(r') <==> p in Peers(r)) {
      FilterCongruent(r.order, InPeer(r'.sessions, p), InPeer(r.sessions, p));
      PeersHaveIds(r, p);
      PeersHaveIds(r', p);
    }
  }

  lemma PutKeepsCaps(c: Config, r: Registry, s: Session, now: real)
    requires Positive(c) && WellFormed(r) && WithinCaps(c, r)
    ensures WellFormed(Put(c, r, s, now).0) && WithinCaps(c, Put(c, r, s, now).0)
  {
    var room := MakeRoom(c, r, s.peerId, now);
    var r' := Put(c, r, s, now).0;
    if |s.sessionId.raw| == SESSION_ID_SIZE && s.sessionId !in r.sessions {
      RoomIsMade(c, r, s.peerId, now, room);
      BelowWithinCaps(c, room, r);
      assert |room.order| < c.globalCap;
      InsertWellFormed(room, s, r');
      forall p ensures |PeerIds(r', p)| <= c.maxPerPeer && |UnconfirmedIds(r', p)| <= c.maxUnconfirmedPerPeer {
        InsertAt(room, s, r', p);
        assert |UnconfirmedIds(room, p)| <= c.maxUnconfirmedPerPeer;
        assert |PeerIds(room, p)| <= c.maxPerPeer;
      }
    }
  }

  /** Everything that can happen to the registry. `Update` is any change a send or a receive makes
      to one session's record: identity stays, confirmation is never withdrawn. */
  datatype Op =
    | Record(s: Session, now: real)
    | Update(sid: Name, s: Session)
    | Prune(now: real)
    | Untrust(peer: Name)

  predicate SameIdentity(before: Session, after: Session) {
    && after.peerId == before.peerId && after.sessionId == before.sessionId
    && (before.confirmed ==> after.confirmed)
  }

  function Apply(c: Config, r: Registry, op: Op): Registry {
    match op
    case Record(s, now) => Put(c, r, s, now).0
    case Update(sid, s) =>
      if sid in r.sessions && SameIdentity(r.sessions[sid], s) then r.(sessions := r.sessions[sid := s]) else r
    case Prune(now) => Restrict(r, Live(c, r, now))
    case Untrust(peer) => RemovePeer(r, peer)
  }

  function Run(c: Config, ops: seq<Op>): Registry
    decreases |ops|
  {
    if ops == [] then Registry([], map[]) else Apply(c, Run(c, ops[..|ops| - 1]), ops[|ops| - 1])
  }

  lemma UpdateKeepsCaps(c: Config, r: Registry, sid: Name, s: Session)
    requires WellFormed(r) && WithinCaps(c, r) && sid in r.sessions && SameIdentity(r.sessions[sid], s)
    ensures WellFormed(r.(sessions := r.sessions[sid := s])) && WithinCaps(c, r.(sessions := r.sessions[sid := s]))
  {
    var r' := r.(sessions := r.sessions[sid := s]);
    forall p ensures PeerIds(r', p) == PeerIds(r, p) && |UnconfirmedIds(r', p)| <= |UnconfirmedIds(r, p)| {
      FilterCongruent(r.order, InPeer(r'.sessions, p), InPeer(r.sessions, p));
      var ids := PeerIds(r, p);
      FilterFilter(ids, Unconfirmed(r.sessions), Unconfirmed(r'.sessions));
      FilterCongruent(ids, Both(Unconfirmed(r.sessions), Unconfirmed(r'.sessions)), Unconfirmed(r'.sessions));
      FilterShorter(Filter(ids, Unconfirmed(r.sessions)), Unconfirmed(r'.sessions));
    }
  }

  /** In every reachable state the per-peer, unconfirmed and global caps hold. */
  lemma {:induction false} CapsAlwaysHold(c: Config, ops: seq<Op>)
    requires Positive(c)
    ensures WellFormed(Run(c, ops)) && WithinCaps(c, Run(c, ops))
  {
    if ops != [] {
      var r := Run(c, ops[..|ops| - 1]);
      CapsAlwaysHold(c, ops[..|ops| - 1]);
      match ops[|ops| - 1]
      case Record(s, now) => PutKeepsCaps(c, r, s, now);
      case Update(sid, s) => if sid in r.sessions && SameIdentity(r.sessions[sid], s) { UpdateKeepsCaps(c, r, sid, s); }
      case Prune(now) => RestrictBelow(r, Live(c, r, now)); BelowWithinCaps(c, Restrict(r, Live(c, r, now)), r);
      case Untrust(peer) =>
        RestrictBelow(r, set sid | sid in r.sessions && r.sessions[sid].peerId != peer);
        BelowWithinCaps(c, RemovePeer(r, peer), r);
    }
  }

  /** Untrusting a peer removes all of its sessions and none of any other peer's. */
  lemma UntrustIsExact(r: Registry, peer: Name, other: Name)
    requires WellFormed(r)
    ensures PeerIds(RemovePeer(r, peer), other) == if other == peer then [] else PeerIds(r, other)
  {
    var keep := set sid | sid in r.sessions && r.sessions[sid].peerId != peer;
    RestrictIds(r, keep, other);
    PeerMembers(r, other);
    if other != peer {
      FilterAll(PeerIds(r, other), InSet(keep));
    } else {
      FilterMembers(PeerIds(r, peer), InSet(keep));
      assert forall sid :: sid !in Filter(PeerIds(r, peer), InSet(keep));
    }
  }
}
