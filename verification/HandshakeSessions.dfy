/** From a completed handshake to the two sessions, and to the first frame under them. */
module HandshakeSessions {
  import opened Results
  import opened Wire
  import opened Frames
  import opened Packets
  import opened ReplayWindow
  import opened Sessions
  import opened ChannelSpec
  import opened ChannelProperties
  import opened Delivery
  import opened HandshakeSpec

  /** How the terms of the handshake become bytes: device ids, session ids and keys. */
  datatype Bytewise = Bytewise(id: string -> Name, sid: Master -> Name, key: SessionKey -> Bytes)

  ghost predicate WellSized(b: Bytewise) {
    forall m :: |b.sid(m).raw| == SESSION_ID_SIZE
  }

  /** The session a device records: confirmed at once by the initiator, unconfirmed by the responder. */
  function SessionOf(b: Bytewise, o: Outcome, now: real): Session {
    Session(b.id(o.peerId), b.sid(o.master), o.role, b.key(o.sendKey), b.key(o.receiveKey),
            o.peerTransferPort, o.peerManifestPort, o.role.Initiator?, now, now, 1, 0, Fresh(128))
  }

  /** The sessions two devices record after their handshake are the two ends of one session, in both directions. */
  lemma HandshakeMakesEnds(bw: Bytewise, a: Device, b: Device, atA: Outcome, atB: Outcome, t: real, u: real)
    requires WellSized(bw) && Counterparts(a, b, atA, atB)
    ensures var s, s' := SessionOf(bw, atA, t), SessionOf(bw, atB, u);
            && Ends(bw.id(a.id), s, bw.id(b.id), s') && Ends(bw.id(b.id), s', bw.id(a.id), s)
            && FreshSession(s) && FreshSession(s') && s.confirmed && !s'.confirmed
            && s.transferPort == b.transferPort && s.manifestPort == b.manifestPort
            && s'.transferPort == a.transferPort && s'.manifestPort == a.manifestPort
  {}

  /** After an honest exchange the initiator's first frame opens at the responder; it confirms the responder's
      session, which can then be sent under while its keys live. */
  lemma FirstFrameConfirms(bw: Bytewise, suite: Suite, a: Device, b: Device, x: Secret, y: Secret, nA: nat, nB: nat,
                           trustA: TrustStore, trustB: TrustStore, halfOpenB: int,
                           packetType: int, payload: Payload, sentMs: int, nowMs: int, maxSkewMs: int,
                           now: real, maxLifetime: real)
    requires WellSized(bw) && LawfulSuite(suite) && WithinSkew(sentMs, nowMs, maxSkewMs) && maxLifetime >= 0.0
    requires FaithfulRun(a, b, x, y, nA, nB, trustA, trustB, halfOpenB).Some?
    requires var atA := FaithfulRun(a, b, x, y, nA, nB, trustA, trustB, halfOpenB).value.0;
             Seal(suite, bw.id(a.id), SessionOf(bw, atA, now), packetType, payload, sentMs, now).1.Ok?
    ensures var (atA, atB) := FaithfulRun(a, b, x, y, nA, nB, trustA, trustB, halfOpenB).value;
            var s, s' := SessionOf(bw, atA, now), SessionOf(bw, atB, now);
            var frame := Seal(suite, bw.id(a.id), s, packetType, payload, sentMs, now).1.value;
            var (table, r) := Open(suite, bw.id(b.id), map[s'.sessionId := s'], frame, nowMs, maxSkewMs, now);
            && r.Ok? && r.value.packet.payload == payload && r.value.packet.header.packetType == packetType
            && !s'.CanSend(now, maxLifetime)
            && s'.sessionId in table && table[s'.sessionId].CanSend(now, maxLifetime)
  {
    HonestExchangeCompletes(a, b, x, y, nA, nB, trustA, trustB, halfOpenB);
    var (atA, atB) := FaithfulRun(a, b, x, y, nA, nB, trustA, trustB, halfOpenB).value;
    HandshakeMakesEnds(bw, a, b, atA, atB, now, now);
    var s, s' := SessionOf(bw, atA, now), SessionOf(bw, atB, now);
    var table := map[s'.sessionId := s'];
    SealedFrameOpens(suite, bw.id(a.id), s, bw.id(b.id), table, packetType, payload, sentMs, nowMs, maxSkewMs, now);
    var frame := Seal(suite, bw.id(a.id), s, packetType, payload, sentMs, now).1.value;
    OpenChangesExactly(suite, bw.id(b.id), table, frame, nowMs, maxSkewMs, now);
  }
}
