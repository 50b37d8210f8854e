/** Sealing and opening wire frames as the program does it, over session objects. */
module SecureChannel {
  import opened Results
  import opened Wire
  import opened Frames
  import opened Packets
  import opened Sessions
  import opened SessionStore
  import opened ChannelSpec
  import SessionCaps

  /** `owner` assigns the session's window and its bitmask to the session. */
  ghost predicate Owns(owner: map<object, Name>, sid: Name, s: PeerSession)
    reads s.receiveWindow
  {
    && s.receiveWindow in owner && owner[s.receiveWindow] == sid
    && s.receiveWindow.bits in owner && owner[s.receiveWindow.bits] == sid
  }

  /** Steps (f) and (g) of the receive order: the only state a frame can change, and only together. */
  method Admit(session: PeerSession, counter: int, now: real) returns (ok: bool)
    requires session.receiveWindow.Valid()
    modifies session, session.receiveWindow, session.receiveWindow.bits
    ensures session.receiveWindow.Valid()
    ensures session.receiveWindow.bits == old(session.receiveWindow.bits) || fresh(session.receiveWindow.bits)
    ensures ok <==> old(session.View()).window.WouldAccept(counter)
    ensures session.View() == if ok then Admitted(old(session.View()), counter, now) else old(session.View())
  {
    ok := session.receiveWindow.Accept(counter);
    if !ok { return; }
    if session.role.Responder? {
      session.confirmed := true;
    }
    session.MarkActive(now);
  }

  /** Admitting a frame under one session leaves every other session, window and bitmask alone.
      `owner` names, for every window and bitmask, the one session it belongs to. */
  method AdmitAmong(m: map<Name, PeerSession>, sid: Name, counter: int, now: real, ghost owner: map<object, Name>)
    returns (ghost owner': map<object, Name>)
    requires sid in m && m[sid].View().window.WouldAccept(counter)
    requires forall a :: a in m ==> m[a].receiveWindow.Valid() && m[a].sessionId == a
    requires forall a :: a in m ==> Owns(owner, a, m[a])
    modifies m[sid], m[sid].receiveWindow, m[sid].receiveWindow.bits
    ensures forall a :: a in m ==> m[a].receiveWindow.Valid()
    ensures forall a :: a in m ==> Owns(owner', a, m[a])
    ensures forall a :: a in m ==>
              m[a].View() == if a == sid then Admitted(old(m[a].View()), counter, now) else old(m[a].View())
  {
    var ok := Admit(m[sid], counter, now);
    assert ok;
    owner' := owner[m[sid].receiveWindow.bits := sid];
    forall a | a in m && a != sid
      ensures m[a].View() == old(m[a].View()) && m[a].receiveWindow.Valid()
      ensures m[a].receiveWindow.bits == old(m[a].receiveWindow.bits)
    {
      assert Owns(owner, a, m[a]) && m[a] != m[sid];
    }
  }

  /** A frame that passes every check changes its own session and no other. */
  lemma OpenPassed(suite: Suite, own: Name, sessions: map<Name, Session>, frame: Bytes, nowMs: int, maxSkewMs: int,
                   now: real)
    requires SplitFrame(frame).Ok?
    requires var (h, e) := SplitFrame(frame).value;
             && h.version == FRAME_VERSION && Name(h.sessionId) in sessions
             && Verify(suite, own, sessions[Name(h.sessionId)], h, e, nowMs, maxSkewMs).Ok?
    ensures var (h, e) := SplitFrame(frame).value;
            var sid, counter := Name(h.sessionId), NonceCounter(e.nonce);
            ChannelSpec.Open(suite, own, sessions, frame, nowMs, maxSkewMs, now)
            == (sessions[sid := Admitted(sessions[sid], counter, now)],
                Ok(Opened(sid, counter, Verify(suite, own, sessions[sid], h, e, nowMs, maxSkewMs).value)))
  {}

  lemma KeyedById(store: Store)
    requires store.Valid()
    ensures forall a :: a in store.byId ==> store.byId[a].sessionId == a
  {
    forall a | a in store.byId ensures store.byId[a].sessionId == a {
      assert store.View().sessions[a].sessionId == a;
    }
  }

  class Channel {
    const own: Name
    const suite: Suite
    const store: Store
    const maxSkewMs: int

    constructor (own: Name, suite: Suite, store: Store, maxSkewMs: int)
      ensures this.own == own && this.suite == suite && this.store == store && this.maxSkewMs == maxSkewMs
    {
      this.own, this.suite, this.store, this.maxSkewMs := own, suite, store, maxSkewMs;
    }

    method Seal(session: PeerSession, packetType: int, payload: Payload, nowMs: int, now: real)
      returns (r: Result<Bytes, ChannelError>)
      modifies session
      ensures (session.View(), r) == ChannelSpec.Seal(suite, own, old(session.View()), packetType, payload, nowMs, now)
    {
      var counter := session.AllocateCounter();
      if counter.None? { return Err(CounterExhausted); }
      var framed := EncodePacket(suite.codec, Packet(NewHeader(packetType, counter.value, nowMs), payload));
      if framed.Err? { return Err(BadPacket(framed.error)); }
      var direction := OutgoingDirection(session.role);
      var nonce := DeriveNonce(direction, counter.value);
      if nonce.Err? { return Err(BadFrame(nonce.error)); }
      var header := FrameHeader(FRAME_VERSION, direction, packetType, session.sessionId.raw);
      var aad := BuildAad(header, own.raw, session.peerId.raw);
      if aad.Err? { return Err(BadFrame(aad.error)); }
      var encrypted := suite.encrypt(framed.value, session.sendKey, nonce.value, aad.value);
      session.MarkActive(now);
      var frame := EncodeFrame(header, Encrypted(encrypted.ciphertext, nonce.value, encrypted.tag));
      r := if frame.Err? then Err(BadFrame(frame.error)) else Ok(frame.value);
    }

    method Open(frame: Bytes, nowMs: int, now: real, ghost owner: map<object, Name>)
      returns (r: Result<Opened, ChannelError>, ghost owner': map<object, Name>)
      requires store.Valid()
      requires forall a :: a in store.byId ==> store.byId[a].receiveWindow.Valid()
      requires forall a :: a in store.byId ==> Owns(owner, a, store.byId[a])
      modifies store.byId.Values
      modifies set s | s in store.byId.Values :: s.receiveWindow
      modifies set s | s in store.byId.Values :: s.receiveWindow.bits
      ensures store.Valid() && unchanged(store)
      ensures forall a :: a in store.byId ==> store.byId[a].receiveWindow.Valid()
      ensures forall a :: a in store.byId ==> Owns(owner', a, store.byId[a])
      ensures (store.View().sessions, r)
              == ChannelSpec.Open(suite, own, old(store.View()).sessions, frame, nowMs, maxSkewMs, now)
      ensures r.Err? ==> store.View() == old(store.View())
    {
      var parts := SplitFrame(frame);
      if parts.Err? { return Err(BadFrame(parts.error)), owner; }
      var (h, e) := parts.value;
      if h.version != FRAME_VERSION { return Err(UnsupportedVersion), owner; }
      var sid := Name(h.sessionId);
      if sid !in store.byId { return Err(UnknownSession), owner; }
      var session := store.byId[sid];
      var checked := Check(session, h, e, nowMs);
      if checked.Err? { return Err(checked.error), owner; }
      OpenPassed(suite, own, store.View().sessions, frame, nowMs, maxSkewMs, now);
      owner' := Commit(sid, NonceCounter(e.nonce), now, owner);
      r := Ok(Opened(sid, NonceCounter(e.nonce), checked.value));
    }

    /** The pre-filters, authentication and inner checks, in the program's order. */
    method Check(session: PeerSession, h: FrameHeader, e: Encrypted, nowMs: int)
      returns (r: Result<Packet, ChannelError>)
      requires session.receiveWindow.Valid() && |e.nonce| == NONCE_SIZE
      ensures r == Verify(suite, own, session.View(), h, e, nowMs, maxSkewMs)
    {
      if h.direction != IncomingDirection(session.role) { return Err(DirectionMismatch); }
      var plausible := session.receiveWindow.WouldAccept(NonceCounter(e.nonce));
      if !plausible { return Err(ReplayRejected); }
      var aad := BuildAad(h, session.peerId.raw, own.raw);
      if aad.Err? { return Err(BadFrame(aad.error)); }
      var framed := suite.decrypt(e, session.receiveKey, aad.value);
      if framed.None? { return Err(AuthenticationFailed); }
      var packet := DecodePacket(suite.codec, framed.value);
      if packet.Err? { return Err(BadPacket(packet.error)); }
      var expected := DeriveNonce(h.direction, packet.value.header.messageId);
      if expected.Err? { return Err(BadFrame(expected.error)); }
      if e.nonce != expected.value { return Err(NonceMismatch); }
      if packet.value.header.packetType != h.packetType { return Err(PacketTypeMismatch); }
      if !WithinSkew(packet.value.header.timestamp, nowMs, maxSkewMs) { return Err(TimestampSkew); }
      r := Ok(packet.value);
    }

    method Commit(sid: Name, counter: int, now: real, ghost owner: map<object, Name>)
      returns (ghost owner': map<object, Name>)
      requires store.Valid() && sid in store.byId && store.byId[sid].View().window.WouldAccept(counter)
      requires forall a :: a in store.byId ==> store.byId[a].receiveWindow.Valid()
      requires forall a :: a in store.byId ==> Owns(owner, a, store.byId[a])
      modifies store.byId[sid], store.byId[sid].receiveWindow, store.byId[sid].receiveWindow.bits
      ensures store.Valid() && unchanged(store)
      ensures forall a :: a in store.byId ==> store.byId[a].receiveWindow.Valid()
      ensures forall a :: a in store.byId ==> Owns(owner', a, store.byId[a])
      ensures store.View().sessions
              == old(store.View()).sessions[sid := Admitted(old(store.View()).sessions[sid], counter, now)]
    {
      ghost var r := store.View();
      ghost var r' := r.(sessions := r.sessions[sid := Admitted(r.sessions[sid], counter, now)]);
      assert WellFormed(r') && store.byPeer == ByPeer(r') by {
        SessionCaps.UpdateKeepsIndex(r, sid, Admitted(r.sessions[sid], counter, now));
      }
      KeyedById(store);
      owner' := AdmitInStore(sid, counter, now, owner);
      assert store.View() == r';
    }

    /** The window was asked before authentication and nothing changed since, so it cannot refuse now. */
    method AdmitInStore(sid: Name, counter: int, now: real, ghost owner: map<object, Name>)
      returns (ghost owner': map<object, Name>)
      requires sid in store.byId && store.byId[sid].View().window.WouldAccept(counter)
      requires forall a :: a in store.byId ==> store.byId[a].receiveWindow.Valid() && store.byId[a].sessionId == a
      requires forall a :: a in store.byId ==> Owns(owner, a, store.byId[a])
      modifies store.byId[sid], store.byId[sid].receiveWindow, store.byId[sid].receiveWindow.bits
      ensures unchanged(store)
      ensures forall a :: a in store.byId ==> store.byId[a].receiveWindow.Valid()
      ensures forall a :: a in store.byId ==> Owns(owner', a, store.byId[a])
      ensures Snap(store.byId)
              == old(Snap(store.byId))[sid := Admitted(old(store.byId[sid].View()), counter, now)]
    {
      owner' := AdmitAmong(store.byId, sid, counter, now, owner);
    }
  }
}
