/** Sealed frames open, and no nonce is ever used twice under a key. */
module ChannelProperties {
  import opened Results
  import opened Wire
  import opened Frames
  import opened Packets
  import opened ReplayWindow
  import opened Sessions
  import opened ChannelSpec

  /** What the channel expects of the cipher: decryption undoes encryption, tags have their fixed size. */
  ghost predicate LawfulSuite(suite: Suite) {
    && Lawful(suite.codec)
    && (forall p, k, n, a :: |suite.encrypt(p, k, n, a).tag| == TAG_SIZE)
    && (forall p, k, n, a :: suite.decrypt(suite.encrypt(p, k, n, a).(nonce := n), k, a) == Some(p))
  }

  /** The two ends of one session: mirrored identities, opposite roles, the sender's key at the receiver. */
  ghost predicate Ends(sender: Name, s: Session, receiver: Name, t: Session) {
    && s.sessionId == t.sessionId && |s.sessionId.raw| == SESSION_ID_SIZE
    && s.peerId == receiver && t.peerId == sender
    && s.role != t.role && t.receiveKey == s.sendKey
  }

  /** Every sealed frame opens at the other end, with its type and payload, as long as the window
      has room for its counter and the clocks agree. */
  lemma SealedFrameOpens(suite: Suite, sender: Name, s: Session, receiver: Name, table: map<Name, Session>,
                         packetType: int, payload: Payload, sentMs: int, nowMs: int, maxSkewMs: int, now: real)
    requires LawfulSuite(suite) && s.sessionId in table && Ends(sender, s, receiver, table[s.sessionId])
    requires Seal(suite, sender, s, packetType, payload, sentMs, now).1.Ok?
    requires table[s.sessionId].window.WouldAccept(s.nextSendCounter) && WithinSkew(sentMs, nowMs, maxSkewMs)
    ensures var frame := Seal(suite, sender, s, packetType, payload, sentMs, now).1.value;
            var packet := Packet(NewHeader(packetType, s.nextSendCounter, sentMs), payload);
            Open(suite, receiver, table, frame, nowMs, maxSkewMs, now).1
            == Ok(Opened(s.sessionId, s.nextSendCounter, packet.(header := Stamped(suite.codec, packet))))
  {
    var t := table[s.sessionId];
    var packet := Packet(NewHeader(packetType, s.nextSendCounter, sentMs), payload);
    var c := Prepare(suite, sender, s, s.nextSendCounter, packetType, payload, sentMs).value;
    var h := OutHeader(s, packetType);
    var e := Encipher(suite, c).(nonce := c.nonce);
    SplitInvertsEncode(h, e);
    NonceCarriesCounter(h.direction, s.nextSendCounter);
    DecodeInvertsEncode(suite.codec, packet);
    assert Verify(suite, receiver, t, h, e, nowMs, maxSkewMs)
           == Ok(packet.(header := Stamped(suite.codec, packet)));
  }

  /** Everything a frame must satisfy, in no particular order. */
  ghost predicate Passes(suite: Suite, own: Name, table: map<Name, Session>, frame: Bytes, nowMs: int, maxSkewMs: int) {
    && |frame| >= MIN_FRAME_SIZE
    && var (h, e) := SplitFrame(frame).value;
    && h.version == FRAME_VERSION && Name(h.sessionId) in table
    && var s := table[Name(h.sessionId)];
    && h.direction == IncomingDirection(s.role) && s.window.WouldAccept(NonceCounter(e.nonce))
    && var aad := BuildAad(h, s.peerId.raw, own.raw);
    && aad.Ok?
    && var plaintext := suite.decrypt(e, s.receiveKey, aad.value);
    && plaintext.Some?
    && var packet := DecodePacket(suite.codec, plaintext.value);
    && packet.Ok? && packet.value.header.packetType == h.packetType
    && DeriveNonce(h.direction, packet.value.header.messageId) == Ok(e.nonce)
    && -maxSkewMs <= packet.value.header.timestamp - nowMs <= maxSkewMs
  }

  /** A frame opens exactly when it passes everything; then the counter it is remembered by is its inner message
      id and its clock is within the allowed skew. A frame that does not open changes no session. */
  lemma OpenSucceedsExactly(suite: Suite, own: Name, table: map<Name, Session>, frame: Bytes,
                            nowMs: int, maxSkewMs: int, now: real)
    ensures var (table', r) := Open(suite, own, table, frame, nowMs, maxSkewMs, now);
            && (r.Ok? <==> Passes(suite, own, table, frame, nowMs, maxSkewMs))
            && (r.Err? ==> table' == table)
            && (r.Ok? ==> && r.value.counter == r.value.packet.header.messageId
                          && r.value.sessionId in table' && r.value.counter in table'[r.value.sessionId].window.accepted
                          && table' == table[r.value.sessionId := table'[r.value.sessionId]])
  {
    var r := Open(suite, own, table, frame, nowMs, maxSkewMs, now).1;
    if r.Ok? {
      var (h, e) := SplitFrame(frame).value;
      NonceCarriesCounter(h.direction, r.value.packet.header.messageId);
    }
  }

  /** What opening a frame does to its session, field by field: a responder's session becomes confirmed, activity is
      now, the counter is remembered and raises the highest one it exceeds; nothing else moves. */
  lemma OpenChangesExactly(suite: Suite, own: Name, table: map<Name, Session>, frame: Bytes,
                           nowMs: int, maxSkewMs: int, now: real)
    requires Open(suite, own, table, frame, nowMs, maxSkewMs, now).1.Ok?
    ensures var (table', r) := Open(suite, own, table, frame, nowMs, maxSkewMs, now);
            var sid, counter := r.value.sessionId, r.value.counter;
            && sid in table && sid in table'
            && var s, s' := table[sid], table'[sid];
            && (s'.confirmed <==> s.confirmed || s.role == Responder) && s'.lastActivity == now
            && s'.window.accepted == s.window.accepted + {counter} && counter !in s.window.accepted
            && s'.window.highest == (if counter > s.window.highest then counter else s.window.highest)
            && s'.window.size == s.window.size
            && s'.peerId == s.peerId && s'.sessionId == s.sessionId && s'.role == s.role
            && s'.sendKey == s.sendKey && s'.receiveKey == s.receiveKey
            && s'.transferPort == s.transferPort && s'.manifestPort == s.manifestPort && s'.createdAt == s.createdAt
            && s'.nextSendCounter == s.nextSendCounter && s'.sentCount == s.sentCount
  {}

  /** So a responder that has opened a frame can answer, within its key's lifetime and with counters left. */
  lemma OpeningLetsResponderSend(suite: Suite, own: Name, table: map<Name, Session>, frame: Bytes,
                                 nowMs: int, maxSkewMs: int, now: real, maxLifetime: real)
    requires var r := Open(suite, own, table, frame, nowMs, maxSkewMs, now).1;
             r.Ok? && r.value.sessionId in table && table[r.value.sessionId].role == Responder
    ensures var (table', r) := Open(suite, own, table, frame, nowMs, maxSkewMs, now);
            var s := table[r.value.sessionId];
            && r.value.sessionId in table'
            && (table'[r.value.sessionId].CanSend(now, maxLifetime)
                <==> now - s.createdAt <= maxLifetime && s.sentCount < 0x1_0000_0000
                     && s.nextSendCounter <= 0x7FFF_FFFF_FFFF_FFFF)
  {
    OpenChangesExactly(suite, own, table, frame, nowMs, maxSkewMs, now);
  }

  /** What sealing does to its session, field by field: a counter is spent whenever one is left, activity is now
      when a frame could be built; nothing else moves. */
  lemma SealChangesExactly(suite: Suite, own: Name, s: Session, packetType: int, payload: Payload, sentMs: int,
                           now: real)
    ensures var (s', r) := Seal(suite, own, s, packetType, payload, sentMs, now);
            var left := s.sentCount < 0x1_0000_0000 && s.nextSendCounter <= 0x7FFF_FFFF_FFFF_FFFF;
            && (r == Err(CounterExhausted) <==> !left)
            && s'.nextSendCounter == s.nextSendCounter + (if left then 1 else 0)
            && s'.sentCount == s.sentCount + (if left then 1 else 0)
            && s'.lastActivity == (if left && Prepare(suite, own, s, s.nextSendCounter, packetType, payload, sentMs).Ok?
                                   then now else s.lastActivity)
            && s'.window == s.window && s'.confirmed == s.confirmed && s'.createdAt == s.createdAt
            && s'.peerId == s.peerId && s'.sessionId == s.sessionId && s'.role == s.role
            && s'.sendKey == s.sendKey && s'.receiveKey == s.receiveKey
            && s'.transferPort == s.transferPort && s'.manifestPort == s.manifestPort
  {}

  /** What a sealed frame shows on the wire. */
  lemma SealedFrameLayout(suite: Suite, own: Name, s: Session, packetType: int, payload: Payload, sentMs: int,
                          now: real)
    requires LawfulSuite(suite) && Seal(suite, own, s, packetType, payload, sentMs, now).1.Ok?
    ensures var f := Seal(suite, own, s, packetType, payload, sentMs, now).1.value;
            && |f| >= MIN_FRAME_SIZE && f[0] == 2 && f[1] == (if s.role == Initiator then 0 else 1)
            && f[2] == packetType && f[3..11] == s.sessionId.raw && f[11] == f[1]
            && FromBe(f[12..20]) == s.nextSendCounter && f[20..23] == [0, 0, 0]
  {
    var c := Prepare(suite, own, s, s.nextSendCounter, packetType, payload, sentMs).value;
    var h := OutHeader(s, packetType);
    FrameLayout(h, Encipher(suite, c).(nonce := c.nonce));
    NonceLayout(h.direction, s.nextSendCounter);
    var f := Seal(suite, own, s, packetType, payload, sentMs, now).1.value;
    NonceSlices(f);
  }

  lemma NonceSlices(f: Bytes)
    requires |f| >= 23
    ensures f[11..23][0] == f[11] && f[11..23][1..9] == f[12..20] && f[11..23][9..12] == f[20..23]
  {
    SliceOfSlice(f, 11, 23, 1, 9);
    SliceOfSlice(f, 11, 23, 9, 12);
  }

  lemma SliceOfSlice<T>(s: seq<T>, a: nat, b: nat, i: nat, j: nat)
    requires i <= j && a + j <= b <= |s|
    ensures s[a..b][i..j] == s[a + i..a + j]
  {
    var x, y := s[a..b][i..j], s[a + i..a + j];
    assert |x| == |y| && forall k :: 0 <= k < |x| ==> x[k] == y[k];
  }

  /** The pre-filters never ask the cipher: what they refuse, they refuse alike whatever it would say. */
  lemma PreFiltersPrecedeCipher(suite: Suite, other: Suite, own: Name, table: map<Name, Session>, frame: Bytes,
                                nowMs: int, maxSkewMs: int, now: real)
    requires |frame| < MIN_FRAME_SIZE
             || var (h, e) := SplitFrame(frame).value;
                || h.version != 2 || Name(h.sessionId) !in table
                || h.direction == OutgoingDirection(table[Name(h.sessionId)].role)
                || !table[Name(h.sessionId)].window.WouldAccept(NonceCounter(e.nonce))
    ensures var r := Open(suite, own, table, frame, nowMs, maxSkewMs, now).1;
            r.Err? && r == Open(other, own, table, frame, nowMs, maxSkewMs, now).1
  {}

  /** Which error each refusal reports: the first thing that is wrong, in the order of the receive pipeline. */
  lemma OpenReportsFirstFault(suite: Suite, own: Name, table: map<Name, Session>, frame: Bytes,
                              nowMs: int, maxSkewMs: int, now: real)
    requires |frame| >= MIN_FRAME_SIZE
    ensures var r := Open(suite, own, table, frame, nowMs, maxSkewMs, now).1;
            var (h, e) := SplitFrame(frame).value;
            && (r == Err(UnsupportedVersion) <==> h.version != 2)
            && (r == Err(UnknownSession) <==> h.version == 2 && Name(h.sessionId) !in table)
            && (h.version == 2 && Name(h.sessionId) in table ==>
                var s := table[Name(h.sessionId)];
                var aad := BuildAad(h, s.peerId.raw, own.raw);
                var expected := if s.role == Initiator then 1 else 0;
                var plausible := h.direction == expected && s.window.WouldAccept(NonceCounter(e.nonce));
                && (r == Err(DirectionMismatch) <==> h.direction != expected)
                && (r == Err(ReplayRejected) <==> h.direction == expected && !plausible)
                && (r == Err(AuthenticationFailed) <==>
                    plausible && aad.Ok? && suite.decrypt(e, s.receiveKey, aad.value).None?)
                && (plausible && aad.Ok? && suite.decrypt(e, s.receiveKey, aad.value).Some? ==>
                    var p := DecodePacket(suite.codec, suite.decrypt(e, s.receiveKey, aad.value).value);
                    && (p.Err? ==> r == Err(BadPacket(p.error)))
                    && (p.Ok? ==>
                        var nonce := DeriveNonce(h.direction, p.value.header.messageId);
                        && (nonce.Err? ==> r == Err(BadFrame(nonce.error)))
                        && (r == Err(NonceMismatch) <==> nonce.Ok? && nonce.value != e.nonce)
                        && (r == Err(PacketTypeMismatch) <==>
                            nonce == Ok(e.nonce) && p.value.header.packetType != h.packetType)
                        && (r == Err(TimestampSkew) <==>
                            nonce == Ok(e.nonce) && p.value.header.packetType == h.packetType
                            && !(-maxSkewMs <= p.value.header.timestamp - nowMs <= maxSkewMs)))))
  {}

  /** Recording one session id a second time forgets what was accepted: with the same keys and a fresh window,
      a frame opened before opens once more, exactly while its counter lies in the fresh window. */
  lemma RecordedAgainOpensAgain(suite: Suite, own: Name, table: map<Name, Session>, frame: Bytes,
                                nowMs: int, maxSkewMs: int, now: real, again: Session)
    requires var r := Open(suite, own, table, frame, nowMs, maxSkewMs, now).1;
             && r.Ok?
             && var s := table[r.value.sessionId];
                again.peerId == s.peerId && again.role == s.role && again.receiveKey == s.receiveKey
    requires again.window == Fresh(again.window.size)
    ensures var o := Open(suite, own, table, frame, nowMs, maxSkewMs, now).1.value;
            Open(suite, own, table[o.sessionId := again], frame, nowMs, maxSkewMs, now).1 == Ok(o)
            <==> 1 <= o.counter <= again.window.size
  {}

  /** The session after `k` attempts to take a counter from it. */
  function AfterAttempts(s: Session, k: nat): Session {
    if k == 0 then s
    else
      var p := AfterAttempts(s, k - 1);
      if p.CanAllocate() then p.Allocated() else p
  }

  ghost predicate Unused(s: Session) {
    s.nextSendCounter == 1 && s.sentCount == 0
  }

  /** Attempt number `k` (from zero) yields counter `k + 1`, up to the per-key limit and never after it. */
  lemma {:induction false} CountersAreConsecutive(s: Session, k: nat)
    requires Unused(s)
    ensures var p := AfterAttempts(s, k);
            && p.CanAllocate() == (k < MAX_MESSAGES_PER_KEY)
            && (k <= MAX_MESSAGES_PER_KEY ==> p.nextSendCounter == k + 1 && p.sentCount == k)
            && (k > MAX_MESSAGES_PER_KEY ==> p == AfterAttempts(s, k - 1))
            && p.role == s.role
  {
    if k > 0 {
      CountersAreConsecutive(s, k - 1);
    }
  }

  /** Over any run of two sessions' sends, two nonces coincide only for one direction and one attempt. */
  lemma NoncesNeverRepeat(s: Session, t: Session, i: nat, j: nat)
    requires Unused(s) && Unused(t)
    requires AfterAttempts(s, i).CanAllocate() && AfterAttempts(t, j).CanAllocate()
    ensures var a := DeriveNonce(OutgoingDirection(s.role), AfterAttempts(s, i).nextSendCounter);
            var b := DeriveNonce(OutgoingDirection(t.role), AfterAttempts(t, j).nextSendCounter);
            a.Ok? && b.Ok? && |a.value| == NONCE_SIZE && (a == b <==> s.role == t.role && i == j)
  {
    CountersAreConsecutive(s, i);
    CountersAreConsecutive(t, j);
    var a, b := AfterAttempts(s, i).nextSendCounter, AfterAttempts(t, j).nextSendCounter;
    if DeriveNonce(OutgoingDirection(s.role), a) == DeriveNonce(OutgoingDirection(t.role), b) {
      NonceInjective(OutgoingDirection(s.role), a, OutgoingDirection(t.role), b);
    }
  }
}
