/** Sealing and opening wire frames, as functions of the session records. */
module ChannelSpec {
  import opened Results
  import opened Wire
  import opened Frames
  import opened Packets
  import opened Sessions

  /** The cipher and the payload serializer, as parameters: `encrypt(plaintext, key, nonce, aad)`. */
  datatype Suite = Suite(
    codec: Codec,
    encrypt: (Bytes, Bytes, Bytes, Bytes) -> Encrypted,
    decrypt: (Encrypted, Bytes, Bytes) -> Option<Bytes>)

  datatype ChannelError =
    | BadFrame(frameError: FrameError)
    | BadPacket(packetError: PacketError)
    | UnsupportedVersion | UnknownSession | DirectionMismatch | ReplayRejected | AuthenticationFailed
    | NonceMismatch | PacketTypeMismatch | TimestampSkew | CounterExhausted

  // ----- sealing -----

  function NewHeader(packetType: int, messageId: int, nowMs: int): PacketHeader {
    PacketHeader(CURRENT_VERSION, packetType, 0, messageId, 0, nowMs, 0)
  }

  function OutHeader(s: Session, packetType: int): FrameHeader {
    FrameHeader(FRAME_VERSION, OutgoingDirection(s.role), packetType, s.sessionId.raw)
  }

  /** What goes into the cipher for one outgoing message. */
  datatype CipherInput = CipherInput(plaintext: Bytes, key: Bytes, nonce: Bytes, aad: Bytes)

  function Prepare(suite: Suite, own: Name, s: Session, counter: int, packetType: int, payload: Payload, nowMs: int)
    : Result<CipherInput, ChannelError>
  {
    var plaintext := EncodePacket(suite.codec, Packet(NewHeader(packetType, counter, nowMs), payload));
    var nonce := DeriveNonce(OutgoingDirection(s.role), counter);
    var aad := BuildAad(OutHeader(s, packetType), own.raw, s.peerId.raw);
    if plaintext.Err? then Err(BadPacket(plaintext.error))
    else if nonce.Err? then Err(BadFrame(nonce.error))
    else if aad.Err? then Err(BadFrame(aad.error))
    else Ok(CipherInput(plaintext.value, s.sendKey, nonce.value, aad.value))
  }

  function Encipher(suite: Suite, c: CipherInput): Encrypted {
    suite.encrypt(c.plaintext, c.key, c.nonce, c.aad)
  }

  function FrameOf(suite: Suite, s: Session, packetType: int, c: CipherInput): Result<Bytes, ChannelError> {
    var e := Encipher(suite, c);
    var frame := EncodeFrame(OutHeader(s, packetType), e.(nonce := c.nonce));
    if frame.Err? then Err(BadFrame(frame.error)) else Ok(frame.value)
  }

  /** The session after sealing, and the frame. A counter is spent even when encoding then fails. */
  function Seal(suite: Suite, own: Name, s: Session, packetType: int, payload: Payload, nowMs: int, now: real)
    : (Session, Result<Bytes, ChannelError>)
  {
    if !s.CanAllocate() then (s, Err(CounterExhausted))
    else
      var c := Prepare(suite, own, s, s.nextSendCounter, packetType, payload, nowMs);
      if c.Err? then (s.Allocated(), Err(c.error))
      else (s.Allocated().(lastActivity := now), FrameOf(suite, s, packetType, c.value))
  }

  // ----- opening -----

  /** Every check between the session lookup and the replay window's final word. None of them changes anything. */
  function Verify(suite: Suite, own: Name, s: Session, h: FrameHeader, e: Encrypted, nowMs: int, maxSkewMs: int)
    : Result<Packet, ChannelError>
    requires |e.nonce| == NONCE_SIZE
  {
    if h.direction != IncomingDirection(s.role) then Err(DirectionMismatch)
    else if !s.window.WouldAccept(NonceCounter(e.nonce)) then Err(ReplayRejected)
    else
      var aad := BuildAad(h, s.peerId.raw, own.raw);
      if aad.Err? then Err(BadFrame(aad.error))
      else
        var plaintext := suite.decrypt(e, s.receiveKey, aad.value);
        if plaintext.None? then Err(AuthenticationFailed)
        else
          var packet := DecodePacket(suite.codec, plaintext.value);
          if packet.Err? then Err(BadPacket(packet.error))
          else
            var expected := DeriveNonce(h.direction, packet.value.header.messageId);
            if expected.Err? then Err(BadFrame(expected.error))
            else if e.nonce != expected.value then Err(NonceMismatch)
            else if packet.value.header.packetType != h.packetType then Err(PacketTypeMismatch)
            else if !WithinSkew(packet.value.header.timestamp, nowMs, maxSkewMs) then Err(TimestampSkew)
            else Ok(packet.value)
  }

  /** The session after a frame with `counter` was let in. */
  function Admitted(s: Session, counter: int, now: real): Session {
    s.(window := s.window.Accept(counter), confirmed := s.confirmed || s.role.Responder?, lastActivity := now)
  }

  datatype Opened = Opened(sessionId: Name, counter: int, packet: Packet)

  /** Opening a frame either changes nothing and fails, or admits its counter under one session. */
  function Open(suite: Suite, own: Name, sessions: map<Name, Session>, frame: Bytes, nowMs: int, maxSkewMs: int,
                now: real)
    : (map<Name, Session>, Result<Opened, ChannelError>)
  {
    var parts := SplitFrame(frame);
    if parts.Err? then (sessions, Err(BadFrame(parts.error)))
    else
      var (h, e) := parts.value;
      var sid := Name(h.sessionId);
      if h.version != FRAME_VERSION then (sessions, Err(UnsupportedVersion))
      else if sid !in sessions then (sessions, Err(UnknownSession))
      else
        var checked := Verify(suite, own, sessions[sid], h, e, nowMs, maxSkewMs);
        if checked.Err? then (sessions, Err(checked.error))
        else
          var counter := NonceCounter(e.nonce);
          (sessions[sid := Admitted(sessions[sid], counter, now)], Ok(Opened(sid, counter, checked.value)))
  }
}
