/** The session registry as the program keeps it: a primary map, a per-peer index, and eviction loops. */
module SessionStore {
  import opened Results
  import opened Wire
  import opened Frames
  import opened ReplayWindow
  import opened Lists
  import opened Sessions
  import SessionCaps
  import opened SessionPolicy

  const DEFAULT_REPLAY_WINDOW_SIZE := 128

  class PeerSession {
    const peerId: Name
    const sessionId: Name
    const role: Role
    const sendKey: Bytes
    const receiveKey: Bytes
    const transferPort: int
    const manifestPort: int
    const createdAt: real
    const receiveWindow: AntiReplayWindow
    var confirmed: bool
    var lastActivity: real
    var nextSendCounter: int
    var sentCount: int

    ghost function View(): Session
      reads this, receiveWindow
    {
      Session(peerId, sessionId, role, sendKey, receiveKey, transferPort, manifestPort, confirmed, createdAt,
              lastActivity, nextSendCounter, sentCount, receiveWindow.View())
    }

    constructor (peerId: Name, sessionId: Name, role: Role, sendKey: Bytes, receiveKey: Bytes,
                 transferPort: int, manifestPort: int, confirmed: bool, now: real)
      ensures View() == Session(peerId, sessionId, role, sendKey, receiveKey, transferPort, manifestPort, confirmed,
                                now, now, 1, 0, Fresh(DEFAULT_REPLAY_WINDOW_SIZE))
      ensures fresh(receiveWindow) && fresh(receiveWindow.bits) && receiveWindow.Valid()
    {
      this.peerId, this.sessionId, this.role := peerId, sessionId, role;
      this.sendKey, this.receiveKey := sendKey, receiveKey;
      this.transferPort, this.manifestPort := transferPort, manifestPort;
      this.confirmed, createdAt, lastActivity := confirmed, now, now;
      nextSendCounter, sentCount := 1, 0;
      receiveWindow := new AntiReplayWindow(DEFAULT_REPLAY_WINDOW_SIZE);
    }

    method MarkActive(now: real)
      modifies this`lastActivity
      ensures View() == old(View()).(lastActivity := now)
    {
      lastActivity := now;
    }

    /** Hands out the next counter, or nothing once the key is used up. */
    method AllocateCounter() returns (counter: Option<int>)
      modifies this`nextSendCounter, this`sentCount
      ensures counter.Some? <==> old(sentCount) < 0x1_0000_0000 && old(nextSendCounter) <= 0x7FFF_FFFF_FFFF_FFFF
      ensures counter.Some? ==> nextSendCounter == old(nextSendCounter) + 1 && sentCount == old(sentCount) + 1
      ensures counter.Some? <==> old(View()).CanAllocate()
      ensures counter.Some? ==> counter.value == old(nextSendCounter) && View() == old(View()).Allocated()
      ensures counter.None? ==> View() == old(View())
    {
      if sentCount >= MAX_MESSAGES_PER_KEY || nextSendCounter > MAX_COUNTER { return None; }
      counter := Some(nextSendCounter);
      nextSendCounter := nextSendCounter + 1;
      sentCount := sentCount + 1;
    }

    method CanSend(now: real, maxLifetime: real) returns (ok: bool)
      ensures ok <==> && confirmed && now - createdAt <= maxLifetime
                      && sentCount < 0x1_0000_0000 && nextSendCounter <= 0x7FFF_FFFF_FFFF_FFFF
      ensures ok <==> View().CanSend(now, maxLifetime)
    {
      if !confirmed { return false; }
      if now - createdAt > maxLifetime { return false; }
      ok := !(sentCount >= MAX_MESSAGES_PER_KEY || nextSendCounter > MAX_COUNTER);
    }
  }

  /** The values of a map of session objects. */
  ghost function Snap(m: map<Name, PeerSession>): map<Name, Session>
    reads m.Values, set s | s in m.Values :: s.receiveWindow
  {
    map sid | sid in m :: m[sid].View()
  }

  lemma SnapMinus(m: map<Name, PeerSession>, sid: Name)
    ensures Snap(m - {sid}) == Snap(m) - {sid}
  {}

  lemma SnapPlus(m: map<Name, PeerSession>, sid: Name, s: PeerSession)
    ensures Snap(m[sid := s]) == Snap(m)[sid := s.View()]
  {}

  /** Every object of `a` is the object `b` holds under the same id. */
  ghost predicate Within(a: map<Name, PeerSession>, b: map<Name, PeerSession>) {
    forall sid :: sid in a ==> sid in b && a[sid] == b[sid]
  }

  class Store {
    const config: Config
    var byId: map<Name, PeerSession>
    var order: seq<Name>              // the insertion order of byId
    var byPeer: map<Name, seq<Name>>

    ghost function View(): Registry
      reads this, byId.Values, set s | s in byId.Values :: s.receiveWindow
    {
      Registry(order, Snap(byId))
    }

    ghost predicate Valid()
      reads this, byId.Values, set s | s in byId.Values :: s.receiveWindow
    {
      WellFormed(View()) && byPeer == ByPeer(View())
    }

    constructor (config: Config)
      ensures Valid() && this.config == config && View() == Registry([], map[])
    {
      this.config := config;
      byId, order, byPeer := map[], [], map[];
    }

    // ----- removal -----

    method Remove(sid: Name)
      requires Valid()
      modifies this
      ensures Valid()
      ensures View() == Sessions.Remove(old(View()), sid)
      ensures byId == old(byId) - {sid}
    {
      if sid in byId {
        RemovePresent(sid);
      } else {
        RemoveAbsent(View(), sid);
        assert byId - {sid} == byId;
      }
    }

    method RemovePresent(sid: Name)
      requires Valid() && sid in byId
      modifies this
      ensures Valid()
      ensures View() == Sessions.Remove(old(View()), sid)
      ensures byId == old(byId) - {sid}
    {
      ghost var r := View();
      var peer := byId[sid].peerId;
      ghost var r' := Registry(Filter(order, Other(sid)), r.sessions - {sid});
      assert r' == Sessions.Remove(r, sid) && WellFormed(r') by { RemoveShape(r, sid); }
      assert Unindex(byPeer, peer, sid) == ByPeer(r') by { UnindexAgrees(r, sid); }
      SnapMinus(byId, sid);
      Assign(byId - {sid}, Filter(order, Other(sid)), Unindex(byPeer, peer, sid));
    }

    /** Replaces the tables; the session objects themselves are untouched. */
    method Assign(newById: map<Name, PeerSession>, newOrder: seq<Name>, newByPeer: map<Name, seq<Name>>)
      modifies this
      ensures byId == newById && order == newOrder && byPeer == newByPeer
      ensures Snap(byId) == old(Snap(newById))
    {
      byId, order, byPeer := newById, newOrder, newByPeer;
    }

    /** Removes every listed session. */
    method RemoveAll(ids: seq<Name>)
      requires Valid()
      modifies this
      ensures Valid()
      ensures View() == Restrict(old(View()), old(View()).sessions.Keys - Named(ids, |ids|))
      ensures Within(byId, old(byId))
    {
      ghost var r := View();
      BelowSelf(r);
      assert r.sessions.Keys - Named(ids, 0) == r.sessions.Keys;
      for i := 0 to |ids|
        invariant Valid() && Within(byId, old(byId))
        invariant View() == Restrict(r, r.sessions.Keys - Named(ids, i))
      {
        RemoveOneMore(r, ids, i);
        Remove(ids[i]);
      }
    }

    /** Evicts the oldest-created unconfirmed candidate, or the least recently used confirmed one. */
    method Evict(ids: seq<Name>, wantConfirmed: bool) returns (done: bool)
      requires Valid()
      modifies this
      ensures Valid() && Within(byId, old(byId))
      ensures var v := Pick(ids, old(View()).sessions, wantConfirmed);
              done == v.Some? && View() == if v.Some? then Sessions.Remove(old(View()), v.value) else old(View())
    {
      var best: Option<Name> := None;
      ghost var sessions := View().sessions;
      for i := 0 to |ids|
        invariant best == PickTo(ids, sessions, wantConfirmed, i)
        invariant best.Some? ==> best.value in byId
      {
        var sid := ids[i];
        if sid in byId && byId[sid].confirmed == wantConfirmed {
          assert sessions[sid] == byId[sid].View();
          var age := if wantConfirmed then byId[sid].lastActivity else byId[sid].createdAt;
          if best.None? {
            best := Some(sid);
          } else {
            assert sessions[best.value] == byId[best.value].View();
            var bestAge := if wantConfirmed then byId[best.value].lastActivity else byId[best.value].createdAt;
            if age < bestAge { best := Some(sid); }
          }
        }
      }
      if best.None? { return false; }
      Remove(best.value);
      done := true;
    }

    method SelectUnconfirmed(peer: Name) returns (ids: seq<Name>)
      requires Valid()
      ensures ids == UnconfirmedIds(View(), peer)
      ensures Valid() && View() == old(View())
    {
      ghost var r := View();
      PeersHaveIds(r, peer);
      var all := if peer in byPeer then byPeer[peer] else [];
      PeerMembers(r, peer);
      ids := [];
      for i := 0 to |all|
        invariant ids == FilterTo(all, Unconfirmed(r.sessions), i)
      {
        assert all[i] in all;
        assert r.sessions[all[i]] == byId[all[i]].View();
        if !byId[all[i]].confirmed { ids := ids + [all[i]]; }
      }
    }

    method EnforcePeerCaps(peer: Name)
      requires Valid()
      modifies this
      ensures Valid() && Within(byId, old(byId))
      ensures View() == Shrink(DropUnconfirmed(old(View()), peer, config.maxUnconfirmedPerPeer),
                               OnePeer(peer), config.maxPerPeer)
    {
      DropExtraUnconfirmed(peer);
      ShrinkPeer(peer);
    }

    method DropExtraUnconfirmed(peer: Name)
      requires Valid()
      modifies this
      ensures Valid() && Within(byId, old(byId))
      ensures View() == DropUnconfirmed(old(View()), peer, config.maxUnconfirmedPerPeer)
    {
      ghost var goal := DropUnconfirmed(View(), peer, config.maxUnconfirmedPerPeer);
      var unconfirmed := SelectUnconfirmed(peer);
      while |unconfirmed| >= config.maxUnconfirmedPerPeer
        invariant Valid() && Within(byId, old(byId))
        invariant unconfirmed == UnconfirmedIds(View(), peer)
        invariant DropUnconfirmed(View(), peer, config.maxUnconfirmedPerPeer) == goal
        decreases View().sessions.Keys
      {
        DropStep(View(), peer, config.maxUnconfirmedPerPeer);
        var done := Evict(unconfirmed, false);
        if !done { break; }
        unconfirmed := SelectUnconfirmed(peer);
      }
    }

    method ShrinkPeer(peer: Name)
      requires Valid()
      modifies this
      ensures Valid() && Within(byId, old(byId))
      ensures View() == Shrink(old(View()), OnePeer(peer), config.maxPerPeer)
    {
      ghost var goal := Shrink(View(), OnePeer(peer), config.maxPerPeer);
      var ids := IdsOfPeer(peer);
      while |ids| >= config.maxPerPeer
        invariant Valid() && Within(byId, old(byId))
        invariant ids == PeerIds(View(), peer)
        invariant Shrink(View(), OnePeer(peer), config.maxPerPeer) == goal
        decreases View().sessions.Keys
      {
        ShrinkStep(View(), OnePeer(peer), config.maxPerPeer);
        var done := EvictOne(ids);
        if !done { break; }
        ids := IdsOfPeer(peer);
      }
    }

    /** An unconfirmed candidate if there is one, otherwise a confirmed one. */
    method EvictOne(ids: seq<Name>) returns (done: bool)
      requires Valid()
      modifies this
      ensures Valid() && Within(byId, old(byId))
      ensures var v := Victim(ids, old(View()).sessions);
              done == v.Some? && View() == if v.Some? then Sessions.Remove(old(View()), v.value) else old(View())
    {
      done := Evict(ids, false);
      if !done {
        done := Evict(ids, true);
      }
    }

    method IdsOfPeer(peer: Name) returns (ids: seq<Name>)
      requires Valid()
      ensures ids == PeerIds(View(), peer)
      ensures Valid() && View() == old(View())
    {
      PeersHaveIds(View(), peer);
      ids := if peer in byPeer then byPeer[peer] else [];
    }

    /** Returns false where the program raises "no session to evict". */
    method EnforceGlobalCap() returns (ok: bool)
      requires Valid()
      modifies this
      ensures Valid() && Within(byId, old(byId))
      ensures View() == Shrink(old(View()), Everyone, config.globalCap)
      ensures ok <==> |order| < config.globalCap
    {
      ghost var goal := Shrink(View(), Everyone, config.globalCap);
      while |order| >= config.globalCap
        invariant Valid() && Within(byId, old(byId))
        invariant Shrink(View(), Everyone, config.globalCap) == goal
        decreases View().sessions.Keys
      {
        ShrinkStep(View(), Everyone, config.globalCap);
        var done := EvictOne(order);
        if !done { return false; }
      }
      ok := true;
    }

    // ----- maintenance -----

    method ExpiredIds(now: real) returns (ids: seq<Name>)
      requires Valid()
      ensures ids == Filter(View().order, Stale(config, View().sessions, now))
      ensures Valid() && View() == old(View())
    {
      ghost var r := View();
      ids := [];
      for i := 0 to |order|
        invariant ids == FilterTo(order, Stale(config, r.sessions, now), i)
      {
        assert order[i] in r.order && r.sessions[order[i]] == byId[order[i]].View();
        var sess := byId[order[i]];
        var idle := if sess.confirmed then config.idleConfirmed else config.idleUnconfirmed;
        if now - sess.createdAt > config.maxKeyLifetime || now - sess.lastActivity > idle {
          ids := ids + [order[i]];
        }
      }
    }

    /** Removes exactly the expired sessions and reports how many there were. */
    method PruneExpired(now: real) returns (count: nat)
      requires Valid()
      modifies this
      ensures Valid() && Within(byId, old(byId))
      ensures View() == Restrict(old(View()), Live(config, old(View()), now))
      ensures forall sid :: sid in View().sessions <==> Surviving(config, old(View()), sid, now)
      ensures count == |Filter(old(View()).order, Stale(config, old(View()).sessions, now))|
    {
      ghost var r := View();
      var ids := ExpiredIds(now);
      FilterMembers(r.order, Stale(config, r.sessions, now));
      assert r.sessions.Keys - Named(ids, |ids|) == Live(config, r, now);
      RemoveAll(ids);
      count := |ids|;
      forall sid ensures sid in View().sessions <==> Surviving(config, r, sid, now) {
        PruningKeepsExactly(config, r, sid, now);
      }
    }

    /** Removes all sessions of one peer and reports how many there were. */
    method RemoveByPeer(peer: Name) returns (count: nat)
      requires Valid()
      modifies this
      ensures Valid() && Within(byId, old(byId))
      ensures View() == RemovePeer(old(View()), peer)
      ensures count == |PeerIds(old(View()), peer)|
    {
      ghost var r := View();
      var ids := IdsOfPeer(peer);
      PeerMembers(r, peer);
      assert r.sessions.Keys - Named(ids, |ids|) == set sid | sid in r.sessions && r.sessions[sid].peerId != peer;
      RemoveAll(ids);
      count := |ids|;
    }

    // ----- recording -----

    /** Records a session after making room for it, or refuses. */
    method Put(session: PeerSession, now: real) returns (error: Option<StoreError>)
      requires Valid()
      modifies this
      ensures Valid()
      ensures (View(), error) == Sessions.Put(config, old(View()), session.View(), now)
      ensures Within(byId, if error.None? then old(byId)[session.sessionId := session] else old(byId))
    {
      ghost var s := session.View();
      if |session.sessionId.raw| != SESSION_ID_SIZE { return Some(WrongLength); }
      if session.sessionId in byId { return Some(Collision); }
      var ok := Prepare(session.peerId, now);
      assert session.View() == s;
      if !ok { return Some(NothingToEvict); }
      Record(session);
      error := None;
    }

    method Prepare(peer: Name, now: real) returns (ok: bool)
      requires Valid()
      modifies this
      ensures Valid() && Within(byId, old(byId))
      ensures View() == MakeRoom(config, old(View()), peer, now)
      ensures ok <==> |order| < config.globalCap
    {
      var _ := PruneExpired(now);
      EnforcePeerCaps(peer);
      ok := EnforceGlobalCap();
    }

    method Record(session: PeerSession)
      requires Valid() && session.sessionId !in byId && |session.sessionId.raw| == SESSION_ID_SIZE
      modifies this
      ensures Valid() && byId == old(byId)[session.sessionId := session]
      ensures View() == Registry(old(order) + [session.sessionId],
                                 old(View()).sessions[session.sessionId := session.View()])
    {
      ghost var r, s := View(), session.View();
      var sid, peer := session.sessionId, session.peerId;
      ghost var r' := Registry(order + [sid], r.sessions[sid := s]);
      assert WellFormed(r') by { SessionCaps.InsertWellFormed(r, s, r'); }
      assert SessionCaps.Index(byPeer, peer, sid) == ByPeer(r') by { SessionCaps.IndexInserted(r, s, r'); }
      SnapPlus(byId, sid, session);
      Assign(byId[sid := session], order + [sid], SessionCaps.Index(byPeer, peer, sid));
    }

    // ----- lookup -----

    method GetBySessionId(sid: Name) returns (found: Option<PeerSession>)
      requires Valid()
      ensures found.Some? <==> sid in View().sessions
      ensures found.Some? ==> sid in byId && found.value == byId[sid] && found.value.View() == View().sessions[sid]
    {
      found := if sid in byId then Some(byId[sid]) else None;
    }

    /** The most recently used session that may still be sent under; it can always hand out a counter. */
    method GetSendSession(peer: Name, now: real) returns (best: Option<PeerSession>)
      requires Valid()
      ensures best.None? ==> forall sid :: sid in View().sessions && View().sessions[sid].peerId == peer
                               ==> !View().sessions[sid].CanSend(now, config.maxKeyLifetime)
      ensures best.Some? ==> && best.value in byId.Values && best.value.peerId == peer
                             && best.value.View().CanSend(now, config.maxKeyLifetime)
                             && best.value.View().CanAllocate()
                             && best.value.confirmed && now - best.value.createdAt <= config.maxKeyLifetime
      ensures best.Some? ==> forall sid :: sid in View().sessions && View().sessions[sid].peerId == peer
                               && View().sessions[sid].CanSend(now, config.maxKeyLifetime)
                               ==> View().sessions[sid].lastActivity <= best.value.lastActivity
    {
      ghost var r := View();
      ghost var at := Name([]);
      PeerMembers(r, peer);
      var ids := IdsOfPeer(peer);
      best := None;
      for i := 0 to |ids|
        invariant best.Some? ==> at in byId && byId[at] == best.value && at in PeerIds(r, peer)
        invariant best.Some? ==> r.sessions[at].CanSend(now, config.maxKeyLifetime)
        invariant forall j :: 0 <= j < i && r.sessions[ids[j]].CanSend(now, config.maxKeyLifetime)
                    ==> best.Some? && r.sessions[ids[j]].lastActivity <= r.sessions[at].lastActivity
      {
        assert ids[i] in ids;
        var sess := byId[ids[i]];
        assert sess.View() == r.sessions[ids[i]];
        var usable := sess.CanSend(now, config.maxKeyLifetime);
        if usable && (best.None? || best.value.lastActivity < sess.lastActivity) {
          best, at := Some(sess), ids[i];
        }
      }
    }

    method Confirm(sid: Name)
      requires Valid()
      modifies byId.Values
      ensures Valid() && unchanged(this)
      ensures var r := old(View());
              View() == if sid !in byId then r
                        else r.(sessions := r.sessions[sid := r.sessions[sid].(confirmed := true)])
    {
      if sid in byId {
        ghost var r := View();
        byId[sid].confirmed := true;
        ghost var r' := r.(sessions := r.sessions[sid := r.sessions[sid].(confirmed := true)]);
        assert Snap(byId) == r'.sessions;
        SessionCaps.UpdateKeepsIndex(r, sid, r'.sessions[sid]);
      }
    }
  }
}
