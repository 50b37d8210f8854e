/** What new sessions can do to confirmed ones: when `put` displaces them, and how few a flood leaves. */
module SessionFlood {
  import opened Results
  import opened Frames
  import opened ReplayWindow
  import opened Lists
  import opened Sessions
  import opened SessionCaps
  import opened SessionPolicy

  /** The confirmed sessions in scope that have not expired. */
  function LiveConfirmed(c: Config, r: Registry, scope: Scope, now: real): seq<Name> {
    ConfirmedIds(Restrict(r, Live(c, r, now)), scope)
  }

  ghost predicate SparesLive(c: Config, r: Registry, r': Registry, now: real) {
    forall sid | sid in r.sessions && r.sessions[sid].confirmed && !Expired(c, r.sessions[sid], now) ::
      sid in r'.sessions
  }

  // ----- when a put displaces a confirmed session -----

  /** The per-peer caps alone. */
  function PeerRoom(c: Config, r: Registry, peer: Name): Registry {
    Shrink(DropUnconfirmed(r, peer, c.maxUnconfirmedPerPeer), OnePeer(peer), c.maxPerPeer)
  }

  lemma PeerRoomSparesExactly(c: Config, r: Registry, peer: Name)
    requires Positive(c) && WellFormed(r)
    ensures WellFormed(PeerRoom(c, r, peer)) && Below(PeerRoom(c, r, peer), r)
    ensures SparesConfirmed(r, PeerRoom(c, r, peer)) <==> |ConfirmedIds(r, OnePeer(peer))| < c.maxPerPeer
  {
    var calmed := DropUnconfirmed(r, peer, c.maxUnconfirmedPerPeer);
    DropUnconfirmedIsFair(r, peer, c.maxUnconfirmedPerPeer, calmed);
    SparedCount(r, calmed, OnePeer(peer));
    ShrinkIsFair(calmed, OnePeer(peer), c.maxPerPeer);
    BelowTransitive(PeerRoom(c, r, peer), calmed, r);
    ConfirmedDisplacedExactly(calmed, OnePeer(peer), c.maxPerPeer);
    SparesInTurn(r, calmed, PeerRoom(c, r, peer));
  }

  lemma SparesInTurn(r: Registry, mid: Registry, r': Registry)
    requires WellFormed(r) && Below(mid, r) && Below(r', mid)
    ensures SparesConfirmed(r, r') <==> SparesConfirmed(r, mid) && SparesConfirmed(mid, r')
  {}

  lemma RoomSparesExactly(c: Config, r: Registry, peer: Name, now: real)
    requires Positive(c) && WellFormed(r)
    ensures SparesLive(c, r, MakeRoom(c, r, peer, now), now)
       <==> && |LiveConfirmed(c, r, OnePeer(peer), now)| < c.maxPerPeer
            && |LiveConfirmed(c, r, Everyone, now)| < c.globalCap
  {
    var pruned := Restrict(r, Live(c, r, now));
    RestrictBelow(r, Live(c, r, now));
    var fitted := PeerRoom(c, pruned, peer);
    PeerRoomSparesExactly(c, pruned, peer);
    var room := Shrink(fitted, Everyone, c.globalCap);
    ShrinkIsFair(fitted, Everyone, c.globalCap);
    ConfirmedDisplacedExactly(fitted, Everyone, c.globalCap);
    if SparesConfirmed(pruned, fitted) {
      SparedCount(pruned, fitted, Everyone);
    }
    SparesInTurn(pruned, fitted, room);
    SparesPruned(c, r, room, now);
  }

  lemma SparesPruned(c: Config, r: Registry, r': Registry, now: real)
    ensures SparesLive(c, r, r', now) <==> SparesConfirmed(Restrict(r, Live(c, r, now)), r')
  {}

  /** A put leaves every live confirmed session in place exactly when the peer's own and all of them together
      leave room under their caps. */
  lemma PutDisplacesExactly(c: Config, r: Registry, s: Session, now: real)
    requires Positive(c) && WellFormed(r) && |s.sessionId.raw| == SESSION_ID_SIZE && s.sessionId !in r.sessions
    ensures SparesLive(c, r, Put(c, r, s, now).0, now)
       <==> && |LiveConfirmed(c, r, OnePeer(s.peerId), now)| < c.maxPerPeer
            && |LiveConfirmed(c, r, Everyone, now)| < c.globalCap
  {
    RoomSparesExactly(c, r, s.peerId, now);
  }

  // ----- how many a flood leaves -----

  lemma RemoveConfirmed(r: Registry, scope: Scope, v: Name)
    requires WellFormed(r) && v in ConfirmedIds(r, scope)
    ensures |ConfirmedIds(Remove(r, v), scope)| == |ConfirmedIds(r, scope)| - 1
  {
    var ids, keep := ConfirmedIds(r, scope), r.sessions.Keys - {v};
    RestrictBelow(r, keep);
    RestrictConfirmed(r, Remove(r, v), scope);
    ScopeMembers(r, scope);
    FilterMembers(Ids(r, scope), Confirmed(r.sessions));
    RestrictWellFormed(r, keep);
    FilterCongruent(ids, InSet(Remove(r, v).sessions.Keys), Other(v));
    if scope.OnePeer? { FilterNoDup(r.order, InPeer(r.sessions, scope.peer)); }
    FilterNoDup(Ids(r, scope), Confirmed(r.sessions));
    FilterOut(ids, v);
  }

  /** One eviction takes a confirmed session only from a scope that holds nothing else. */
  lemma VictimCount(r: Registry, scope: Scope, v: Name)
    requires WellFormed(r) && Victim(Ids(r, scope), r.sessions) == Some(v)
    ensures v in r.sessions
    ensures r.sessions[v].confirmed ==> |ConfirmedIds(r, scope)| == |Ids(r, scope)|
    ensures |ConfirmedIds(Remove(r, v), scope)| == |ConfirmedIds(r, scope)| - if r.sessions[v].confirmed then 1 else 0
  {
    ScopeMembers(r, scope);
    if r.sessions[v].confirmed {
      FilterAll(Ids(r, scope), Confirmed(r.sessions));
      RemoveConfirmed(r, scope, v);
    } else {
      RestrictBelow(r, r.sessions.Keys - {v});
      SparedCount(r, Remove(r, v), scope);
    }
  }

  /** An eviction loop leaves as many confirmed sessions as there were, or one fewer than its cap. */
  lemma {:induction false} ShrinkLeavesExactly(r: Registry, scope: Scope, cap: int)
    requires WellFormed(r) && cap > 0
    ensures |ConfirmedIds(Shrink(r, scope, cap), scope)| == Least(|ConfirmedIds(r, scope)|, cap - 1)
    decreases r.sessions.Keys
  {
    FilterShorter(Ids(r, scope), Confirmed(r.sessions));
    if |Ids(r, scope)| >= cap {
      VictimExists(r, scope);
      var v := Victim(Ids(r, scope), r.sessions).value;
      VictimCount(r, scope, v);
      RestrictWellFormed(r, r.sessions.Keys - {v});
      ShrinkLeavesExactly(Remove(r, v), scope, cap);
      ShrinkStep(r, scope, cap);
    }
  }

  /** Removing sessions of one peer leaves every other peer's confirmed ones. */
  lemma OtherPeersConfirmed(r: Registry, r': Registry, peer: Name, q: Name)
    requires WellFormed(r) && Below(r', r) && q != peer
    requires forall sid :: sid in r.sessions && sid !in r'.sessions ==> r.sessions[sid].peerId == peer
    ensures ConfirmedIds(r', OnePeer(q)) == ConfirmedIds(r, OnePeer(q))
  {
    RestrictConfirmed(r, r', OnePeer(q));
    FilterMembers(PeerIds(r, q), Confirmed(r.sessions));
    PeerMembers(r, q);
    FilterAll(ConfirmedIds(r, OnePeer(q)), InSet(r'.sessions.Keys));
  }

  lemma PeerRoomLeavesExactly(c: Config, r: Registry, peer: Name, q: Name)
    requires Positive(c) && WellFormed(r)
    ensures WellFormed(PeerRoom(c, r, peer)) && Below(PeerRoom(c, r, peer), r)
    ensures |ConfirmedIds(PeerRoom(c, r, peer), OnePeer(q))|
         == if q == peer then Least(|ConfirmedIds(r, OnePeer(q))|, c.maxPerPeer - 1) else |ConfirmedIds(r, OnePeer(q))|
  {
    var calmed := DropUnconfirmed(r, peer, c.maxUnconfirmedPerPeer);
    DropUnconfirmedIsFair(r, peer, c.maxUnconfirmedPerPeer, calmed);
    SparedCount(r, calmed, OnePeer(q));
    ShrinkIsFair(calmed, OnePeer(peer), c.maxPerPeer);
    BelowTransitive(PeerRoom(c, r, peer), calmed, r);
    if q == peer {
      ShrinkLeavesExactly(calmed, OnePeer(peer), c.maxPerPeer);
    } else {
      OtherPeersConfirmed(calmed, PeerRoom(c, r, peer), peer, q);
    }
  }

  lemma InsertUnconfirmed(r: Registry, s: Session, r': Registry, scope: Scope)
    requires Inserted(r, s, r') && !s.confirmed
    ensures ConfirmedIds(r', scope) == ConfirmedIds(r, scope)
  {
    if scope.OnePeer? {
      InsertAt(r, s, r', scope.peer);
    }
    ScopeMembers(r, scope);
    FilterAppend(Ids(r, scope), s.sessionId, Confirmed(r'.sessions));
    FilterCongruent(Ids(r, scope), Confirmed(r'.sessions), Confirmed(r.sessions));
  }

  lemma FewerConfirmed(r: Registry, r': Registry, scope: Scope)
    requires WellFormed(r) && Below(r', r)
    ensures |ConfirmedIds(r', scope)| <= |ConfirmedIds(r, scope)|
  {
    RestrictConfirmed(r, r', scope);
    FilterShorter(ConfirmedIds(r, scope), InSet(r'.sessions.Keys));
  }

  predicate Recordable(r: Registry, s: Session) {
    |s.sessionId.raw| == SESSION_ID_SIZE && s.sessionId !in r.sessions
  }

  /** The global loop takes nothing confirmed while the confirmed sessions alone leave room. */
  lemma GlobalLoopSpares(r: Registry, cap: int, q: Name)
    requires WellFormed(r) && |ConfirmedIds(r, Everyone)| < cap
    ensures ConfirmedIds(Shrink(r, Everyone, cap), OnePeer(q)) == ConfirmedIds(r, OnePeer(q))
  {
    ShrinkIsFair(r, Everyone, cap);
    ConfirmedDisplacedExactly(r, Everyone, cap);
    SparedCount(r, Shrink(r, Everyone, cap), OnePeer(q));
  }

  /** A put of an unconfirmed session, while the live confirmed ones leave room under the global cap: the peer
      keeps its live confirmed sessions up to one fewer than its cap, and every other peer all of them. */
  lemma PutLeavesExactly(c: Config, r: Registry, s: Session, now: real, q: Name)
    requires Positive(c) && WellFormed(r) && !s.confirmed && Recordable(r, s)
    requires |LiveConfirmed(c, r, Everyone, now)| < c.globalCap
    ensures var live := |LiveConfirmed(c, r, OnePeer(q), now)|;
            |ConfirmedIds(Put(c, r, s, now).0, OnePeer(q))|
            == if q == s.peerId then Least(live, c.maxPerPeer - 1) else live
  {
    var pruned := Restrict(r, Live(c, r, now));
    RestrictBelow(r, Live(c, r, now));
    PeerRoomLeavesExactly(c, pruned, s.peerId, q);
    var fitted := PeerRoom(c, pruned, s.peerId);
    FewerConfirmed(pruned, fitted, Everyone);
    GlobalLoopSpares(fitted, c.globalCap, q);
    var room := MakeRoom(c, r, s.peerId, now);
    RoomIsMade(c, r, s.peerId, now, room);
    InsertUnconfirmed(room, s, Put(c, r, s, now).0, OnePeer(q));
  }

  /** Such a put adds no confirmed session and changes none. */
  lemma PutAddsNoneConfirmed(c: Config, r: Registry, s: Session, now: real)
    requires Positive(c) && WellFormed(r) && !s.confirmed
    ensures |ConfirmedIds(Put(c, r, s, now).0, Everyone)| <= |ConfirmedIds(r, Everyone)|
    ensures NoneConfirmedAdded(r, Put(c, r, s, now).0)
  {
    if Recordable(r, s) {
      var room := MakeRoom(c, r, s.peerId, now);
      RoomIsMade(c, r, s.peerId, now, room);
      FewerConfirmed(r, room, Everyone);
      InsertUnconfirmed(room, s, Put(c, r, s, now).0, Everyone);
    }
  }

  ghost predicate NoneConfirmedAdded(r: Registry, r': Registry) {
    forall sid :: sid in r'.sessions && r'.sessions[sid].confirmed ==>
      sid in r.sessions && r'.sessions[sid] == r.sessions[sid]
  }

  datatype Arrival = Arrival(s: Session, now: real)

  /** The store after the first `k` of a list of puts. */
  function AfterPuts(c: Config, r: Registry, puts: seq<Arrival>, k: nat): Registry
    requires k <= |puts|
  {
    if k == 0 then r else Put(c, AfterPuts(c, r, puts, k - 1), puts[k - 1].s, puts[k - 1].now).0
  }

  /** Among the first `k` puts there is one of `q` that is not refused. */
  predicate Hit(c: Config, r: Registry, puts: seq<Arrival>, k: nat, q: Name)
    requires k <= |puts|
  {
    k > 0 && (|| Hit(c, r, puts, k - 1, q)
              || (puts[k - 1].s.peerId == q && Recordable(AfterPuts(c, r, puts, k - 1), puts[k - 1].s)))
  }

  ghost predicate NoneExpired(c: Config, r: Registry, now: real, q: Name) {
    forall sid | sid in r.sessions && r.sessions[sid].peerId == q && r.sessions[sid].confirmed ::
      !Expired(c, r.sessions[sid], now)
  }

  /** Only unconfirmed sessions arrive, from any peers and in any number, and none of the confirmed sessions `q`
      has at the start expires meanwhile. */
  ghost predicate Flood(c: Config, r: Registry, puts: seq<Arrival>, q: Name) {
    forall j | 0 <= j < |puts| :: !puts[j].s.confirmed && NoneExpired(c, r, puts[j].now, q)
  }

  lemma AllStillLive(c: Config, r: Registry, now: real, q: Name)
    requires WellFormed(r) && NoneExpired(c, r, now, q)
    ensures LiveConfirmed(c, r, OnePeer(q), now) == ConfirmedIds(r, OnePeer(q))
  {
    var live := Live(c, r, now);
    RestrictBelow(r, live);
    RestrictConfirmed(r, Restrict(r, live), OnePeer(q));
    FilterMembers(PeerIds(r, q), Confirmed(r.sessions));
    PeerMembers(r, q);
    RestrictWellFormed(r, live);
    FilterAll(ConfirmedIds(r, OnePeer(q)), InSet(Restrict(r, live).sessions.Keys));
  }

  /** What a flood keeps: no confirmed session is new. */
  lemma {:induction false} FloodAddsNoneConfirmed(c: Config, r: Registry, puts: seq<Arrival>, k: nat)
    requires Positive(c) && WellFormed(r) && k <= |puts| && forall j :: 0 <= j < k ==> !puts[j].s.confirmed
    ensures WellFormed(AfterPuts(c, r, puts, k)) && NoneConfirmedAdded(r, AfterPuts(c, r, puts, k))
    ensures |ConfirmedIds(AfterPuts(c, r, puts, k), Everyone)| <= |ConfirmedIds(r, Everyone)|
  {
    if k > 0 {
      FloodAddsNoneConfirmed(c, r, puts, k - 1);
      var before, p := AfterPuts(c, r, puts, k - 1), puts[k - 1];
      PutStaysWellFormed(c, before, p.s, p.now);
      PutAddsNoneConfirmed(c, before, p.s, p.now);
    }
  }

  /** One more put of a flood, seen from `q`. */
  lemma FloodStep(c: Config, r: Registry, before: Registry, p: Arrival, q: Name)
    requires Positive(c) && WellFormed(before) && NoneConfirmedAdded(r, before) && !p.s.confirmed
    requires |ConfirmedIds(before, Everyone)| < c.globalCap && NoneExpired(c, r, p.now, q)
    ensures var n := |ConfirmedIds(before, OnePeer(q))|;
            |ConfirmedIds(Put(c, before, p.s, p.now).0, OnePeer(q))|
            == if p.s.peerId == q && Recordable(before, p.s) then Least(n, c.maxPerPeer - 1) else n
  {
    if Recordable(before, p.s) {
      assert NoneExpired(c, before, p.now, q);
      AllStillLive(c, before, p.now, q);
      RestrictBelow(before, Live(c, before, p.now));
      FewerConfirmed(before, Restrict(before, Live(c, before, p.now)), Everyone);
      PutLeavesExactly(c, before, p.s, p.now, q);
    }
  }

  /** However long the flood and whatever it fills the store to: a peer keeps all its confirmed sessions until a
      put of its own succeeds, and from then on exactly as many as there were or one fewer than its cap. So at
      most one of those a full peer holds is lost. */
  lemma {:induction false} FloodLeavesConfirmed(c: Config, r: Registry, puts: seq<Arrival>, k: nat, q: Name)
    requires Positive(c) && WellFormed(r) && k <= |puts| && Flood(c, r, puts, q)
    requires |ConfirmedIds(r, Everyone)| < c.globalCap
    ensures var n := |ConfirmedIds(r, OnePeer(q))|;
            |ConfirmedIds(AfterPuts(c, r, puts, k), OnePeer(q))|
            == if Hit(c, r, puts, k, q) then Least(n, c.maxPerPeer - 1) else n
  {
    if k > 0 {
      FloodLeavesConfirmed(c, r, puts, k - 1, q);
      FloodAddsNoneConfirmed(c, r, puts, k - 1);
      FloodStep(c, r, AfterPuts(c, r, puts, k - 1), puts[k - 1], q);
    }
  }

  lemma PutStaysWellFormed(c: Config, r: Registry, s: Session, now: real)
    requires Positive(c) && WellFormed(r)
    ensures WellFormed(Put(c, r, s, now).0)
  {
    if |s.sessionId.raw| == SESSION_ID_SIZE && s.sessionId !in r.sessions {
      var room := MakeRoom(c, r, s.peerId, now);
      RoomIsMade(c, r, s.peerId, now, room);
      InsertWellFormed(room, s, Put(c, r, s, now).0);
    }
  }

  // ----- a store in which a hello displaces a confirmed session -----

  function Id(k: nat): Name
    requires k < 256
  {
    Name([k, 0, 0, 0, 0, 0, 0, 0])
  }

  function NewSession(p: Name, k: nat, confirmed: bool): Session
    requires k < 256
  {
    Session(p, Id(k), Initiator, [], [], 1, 1, confirmed, 0.0, 0.0, 1, 0, Fresh(128))
  }

  /** `n` handshakes this device initiated with one peer. */
  function Handshakes(p: Name, n: nat): seq<Op>
    requires n <= 256
  {
    seq(n, k requires 0 <= k < n => Record(NewSession(p, k, true), 0.0))
  }

  ghost predicate Durable(c: Config) {
    c.maxKeyLifetime >= 0.0 && c.idleConfirmed >= 0.0
  }

  /** Nothing but confirmed sessions of one peer, none of them expired. */
  ghost predicate AllConfirmed(c: Config, r: Registry, p: Name, n: nat) {
    && WellFormed(r) && |r.order| == n
    && (forall sid :: sid in r.sessions ==>
          r.sessions[sid].confirmed && r.sessions[sid].peerId == p && !Expired(c, r.sessions[sid], 0.0))
    && (forall k :: n <= k < 256 ==> Id(k) !in r.sessions)
  }

  lemma AllConfirmedIds(c: Config, r: Registry, p: Name, n: nat)
    requires AllConfirmed(c, r, p, n)
    ensures Restrict(r, Live(c, r, 0.0)) == r && PeerIds(r, p) == r.order && UnconfirmedIds(r, p) == []
    ensures ConfirmedIds(r, OnePeer(p)) == r.order && ConfirmedIds(r, Everyone) == r.order
  {
    FilterAll(r.order, InSet(Live(c, r, 0.0)));
    FilterAll(r.order, InPeer(r.sessions, p));
    FilterAll(r.order, Confirmed(r.sessions));
    if UnconfirmedIds(r, p) != [] {
      UnconfirmedMember(r, p, UnconfirmedIds(r, p)[0]);
    }
  }

  lemma OneMoreConfirmed(c: Config, r: Registry, p: Name, n: nat)
    requires Positive(c) && Durable(c) && AllConfirmed(c, r, p, n) && n < c.maxPerPeer && n < c.globalCap && n < 256
    ensures AllConfirmed(c, Put(c, r, NewSession(p, n, true), 0.0).0, p, n + 1)
  {
    var s := NewSession(p, n, true);
    assert MakeRoom(c, r, p, 0.0) == r by { AllConfirmedIds(c, r, p, n); }
    var r' := Put(c, r, s, 0.0).0;
    assert Inserted(r, s, r');
    InsertWellFormed(r, s, r');
    forall k | n + 1 <= k < 256 ensures Id(k) !in r'.sessions {
      assert Id(k).raw[0] != Id(n).raw[0];
    }
  }

  lemma {:induction false} PeerFillsUp(c: Config, p: Name, n: nat)
    requires Positive(c) && Durable(c) && n <= c.maxPerPeer && n <= c.globalCap && n <= 256
    ensures AllConfirmed(c, Run(c, Handshakes(p, n)), p, n)
  {
    if n > 0 {
      var ops := Handshakes(p, n);
      assert ops[..n - 1] == Handshakes(p, n - 1) && ops[n - 1] == Record(NewSession(p, n - 1, true), 0.0);
      PeerFillsUp(c, p, n - 1);
      OneMoreConfirmed(c, Run(c, Handshakes(p, n - 1)), p, n - 1);
    }
  }

  /** From the empty store, with any caps a configuration would have: once a peer holds its full number of
      confirmed sessions, one unconfirmed session of that peer displaces a live confirmed one. */
  lemma HelloDisplacesConfirmed(c: Config, p: Name)
    requires Positive(c) && Durable(c) && c.maxPerPeer <= c.globalCap && c.maxPerPeer < 256
    ensures var r := Run(c, Handshakes(p, c.maxPerPeer));
            && (forall sid :: sid in r.sessions ==> r.sessions[sid].confirmed && !Expired(c, r.sessions[sid], 0.0))
            && !SparesLive(c, r, Put(c, r, NewSession(p, c.maxPerPeer, false), 0.0).0, 0.0)
  {
    var n := c.maxPerPeer;
    PeerFillsUp(c, p, n);
    var r := Run(c, Handshakes(p, n));
    AllConfirmedIds(c, r, p, n);
    PutDisplacesExactly(c, r, NewSession(p, n, false), 0.0);
  }
}
