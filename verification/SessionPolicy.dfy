/** The store's policy in the records' own fields: who expires, who is evicted, and what a put leaves. */
module SessionPolicy {
  import opened Results
  import opened Frames
  import opened Lists
  import opened Sessions
  import opened SessionCaps

  function Least(x: int, y: int): int {
    if x < y then x else y
  }

  // ----- expiry -----

  /** Recorded, its key not too old, and not idle for longer than its confirmation allows. */
  predicate Surviving(c: Config, r: Registry, sid: Name, now: real) {
    && sid in r.sessions && now - r.sessions[sid].createdAt <= c.maxKeyLifetime
    && now - r.sessions[sid].lastActivity <= (if r.sessions[sid].confirmed then c.idleConfirmed else c.idleUnconfirmed)
  }

  lemma PruningKeepsExactly(c: Config, r: Registry, sid: Name, now: real)
    requires WellFormed(r)
    ensures sid in Restrict(r, Live(c, r, now)).sessions <==> Surviving(c, r, sid, now)
    ensures Surviving(c, r, sid, now) ==> Restrict(r, Live(c, r, now)).sessions[sid] == r.sessions[sid]
  {}

  // ----- who is evicted -----

  /** Of two sessions in scope of which one goes and one stays: the one that goes is unconfirmed or the other is
      confirmed too; of two confirmed ones it was used no later, of two unconfirmed ones created no later. */
  ghost predicate GoesBefore(gone: Session, kept: Session) {
    && (gone.confirmed ==> kept.confirmed)
    && (gone.confirmed && kept.confirmed ==> gone.lastActivity <= kept.lastActivity)
    && (!gone.confirmed && !kept.confirmed ==> gone.createdAt <= kept.createdAt)
  }

  lemma EvictionInOrder(r: Registry, scope: Scope, cap: int, gone: Name, kept: Name)
    requires WellFormed(r) && gone in r.sessions && gone !in Shrink(r, scope, cap).sessions
    requires kept in Shrink(r, scope, cap).sessions && Covers(scope, Shrink(r, scope, cap).sessions[kept])
    ensures Covers(scope, r.sessions[gone]) && kept in r.sessions && GoesBefore(r.sessions[gone], r.sessions[kept])
  {
    ShrinkIsFair(r, scope, cap);
  }

  lemma DroppingInOrder(r: Registry, peer: Name, cap: int, gone: Name, kept: Name)
    requires WellFormed(r) && gone in r.sessions && gone !in DropUnconfirmed(r, peer, cap).sessions
    requires kept in r.sessions && kept in DropUnconfirmed(r, peer, cap).sessions
    requires r.sessions[kept].peerId == peer && !r.sessions[kept].confirmed
    ensures r.sessions[gone].peerId == peer && !r.sessions[gone].confirmed
    ensures r.sessions[gone].createdAt <= r.sessions[kept].createdAt
  {
    DropUnconfirmedIsFair(r, peer, cap, DropUnconfirmed(r, peer, cap));
  }

  function Since(s: Session): real {
    if s.confirmed then s.lastActivity else s.createdAt
  }

  /** Among equals the victim is the first in the list. */
  lemma {:induction false} PickIsFirst(ids: seq<Name>, sessions: map<Name, Session>, confirmed: bool, k: nat)
    returns (i: nat)
    requires k <= |ids| && PickTo(ids, sessions, confirmed, k).Some?
    ensures i < k && PickTo(ids, sessions, confirmed, k) == Some(ids[i])
    ensures forall j | 0 <= j < i && ids[j] in sessions && sessions[ids[j]].confirmed == confirmed ::
              Since(sessions[ids[i]]) < Since(sessions[ids[j]])
  {
    if PickTo(ids, sessions, confirmed, k - 1) == PickTo(ids, sessions, confirmed, k)
       && PickTo(ids, sessions, confirmed, k - 1).Some? {
      i := PickIsFirst(ids, sessions, confirmed, k - 1);
    } else {
      i := k - 1;
    }
  }

  // ----- and no more than needed -----

  lemma OneFewer(r: Registry, scope: Scope, v: Name)
    requires WellFormed(r) && v in Ids(r, scope)
    ensures |Ids(Remove(r, v), scope)| == |Ids(r, scope)| - 1
  {
    ScopeMembers(r, scope);
    RemoveShape(r, v);
    if scope.OnePeer? {
      RemoveIds(r, v, scope.peer);
      FilterNoDup(r.order, InPeer(r.sessions, scope.peer));
    }
    FilterOut(Ids(r, scope), v);
  }

  /** An eviction loop leaves exactly the smaller of what was in scope and one fewer than its cap. */
  lemma {:induction false} ShrinkKeepsExactly(r: Registry, scope: Scope, cap: int)
    requires WellFormed(r) && cap > 0
    ensures |Ids(Shrink(r, scope, cap), scope)| == Least(|Ids(r, scope)|, cap - 1)
    decreases r.sessions.Keys
  {
    if |Ids(r, scope)| >= cap {
      VictimExists(r, scope);
      var v := Victim(Ids(r, scope), r.sessions).value;
      OneFewer(r, scope, v);
      ScopeMembers(r, scope);
      RestrictWellFormed(r, r.sessions.Keys - {v});
      ShrinkKeepsExactly(Remove(r, v), scope, cap);
      ShrinkStep(r, scope, cap);
    }
  }

  lemma OneUnconfirmedFewer(r: Registry, peer: Name, v: Name)
    requires WellFormed(r) && v in UnconfirmedIds(r, peer)
    ensures |UnconfirmedIds(Remove(r, v), peer)| == |UnconfirmedIds(r, peer)| - 1
  {
    var ids, keep := UnconfirmedIds(r, peer), r.sessions.Keys - {v};
    UnconfirmedMember(r, peer, v);
    RestrictIds(r, keep, peer);
    FilterMembers(PeerIds(r, peer), Unconfirmed(r.sessions));
    FilterCongruent(ids, InSet(keep), Other(v));
    FilterNoDup(r.order, InPeer(r.sessions, peer));
    FilterNoDup(PeerIds(r, peer), Unconfirmed(r.sessions));
    FilterOut(ids, v);
  }

  lemma {:induction false} DropKeepsExactly(r: Registry, peer: Name, cap: int)
    requires WellFormed(r) && cap > 0
    ensures |UnconfirmedIds(DropUnconfirmed(r, peer, cap), peer)| == Least(|UnconfirmedIds(r, peer)|, cap - 1)
    decreases r.sessions.Keys
  {
    var ids := UnconfirmedIds(r, peer);
    if |ids| >= cap {
      UnconfirmedMember(r, peer, ids[0]);
      var v := Pick(ids, r.sessions, false).value;
      OneUnconfirmedFewer(r, peer, v);
      UnconfirmedMember(r, peer, v);
      RestrictWellFormed(r, r.sessions.Keys - {v});
      DropKeepsExactly(Remove(r, v), peer, cap);
      DropStep(r, peer, cap);
    }
  }

  // ----- what a put leaves -----

  /** A put is refused for a wrong length, for an id in use, or when no session may be stored at all, and then
      and only then; the first two refusals change nothing. */
  lemma PutRefusesExactly(c: Config, r: Registry, s: Session, now: real)
    requires WellFormed(r)
    ensures var (r', error) := Put(c, r, s, now);
            && (error == Some(WrongLength) <==> |s.sessionId.raw| != 8)
            && (error == Some(Collision) <==> |s.sessionId.raw| == 8 && s.sessionId in r.sessions)
            && (error == Some(NothingToEvict) <==>
                |s.sessionId.raw| == 8 && s.sessionId !in r.sessions && c.globalCap <= 0)
            && (|s.sessionId.raw| != 8 || s.sessionId in r.sessions ==> r' == r)
  {
    EvictionErrorExactly(c, r, s, now);
  }

  /** A put that is not refused records the session last and as it is; every other session left is one that
      survived pruning, as it was. */
  lemma PutRecords(c: Config, r: Registry, s: Session, now: real)
    requires WellFormed(r) && Put(c, r, s, now).1.None?
    ensures var r' := Put(c, r, s, now).0;
            && s.sessionId in r'.sessions && r'.sessions[s.sessionId] == s
            && r'.order != [] && r'.order[|r'.order| - 1] == s.sessionId
            && forall sid | sid in r'.sessions && sid != s.sessionId ::
                 Surviving(c, r, sid, now) && r'.sessions[sid] == r.sessions[sid]
  {
    RoomIsMade(c, r, s.peerId, now, MakeRoom(c, r, s.peerId, now));
  }

  /** With room under all three caps a put removes nothing but what has expired. */
  lemma PutEvictsOnlyForRoom(c: Config, r: Registry, s: Session, now: real, sid: Name)
    requires WellFormed(r) && Put(c, r, s, now).1.None?
    requires var pruned := Restrict(r, Live(c, r, now));
             && |UnconfirmedIds(pruned, s.peerId)| < c.maxUnconfirmedPerPeer
             && |PeerIds(pruned, s.peerId)| < c.maxPerPeer && |pruned.order| < c.globalCap
    ensures sid in Put(c, r, s, now).0.sessions <==> sid == s.sessionId || Surviving(c, r, sid, now)
  {
    PruningKeepsExactly(c, r, sid, now);
  }
}
