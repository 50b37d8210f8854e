/** The plaintext wire frame, the deterministic nonce and the associated data. */
module Frames {
  import opened Results
  import opened Wire

  const FRAME_VERSION := 2
  const INITIATOR_TO_RESPONDER := 0
  const RESPONDER_TO_INITIATOR := 1
  const SESSION_ID_SIZE := 8
  const FRAME_HEADER_SIZE := 11
  const NONCE_SIZE := 12
  const TAG_SIZE := 16
  const MIN_FRAME_SIZE := FRAME_HEADER_SIZE + NONCE_SIZE + TAG_SIZE

  datatype Role = Initiator | Responder

  function OutgoingDirection(role: Role): int {
    if role.Initiator? then INITIATOR_TO_RESPONDER else RESPONDER_TO_INITIATOR
  }

  function IncomingDirection(role: Role): int {
    OutgoingDirection(if role.Initiator? then Responder else Initiator)
  }

  /** Initiators send with direction 0 and receive with 1, responders the other way round. */
  lemma DirectionsAreFixed(role: Role)
    ensures OutgoingDirection(role) == (if role == Initiator then 0 else 1)
    ensures IncomingDirection(role) == (if role == Initiator then 1 else 0)
  {}

  datatype FrameError = WrongFieldLength | FrameTooShort | InvalidDirection | CounterNotPositive | FieldTooLarge

  datatype FrameHeader = FrameHeader(version: int, direction: int, packetType: int, sessionId: Bytes)

  datatype Encrypted = Encrypted(ciphertext: Bytes, nonce: Bytes, tag: Bytes)

  /** Header, nonce, ciphertext, tag; the three header integers are masked to one byte. */
  function EncodeFrame(h: FrameHeader, e: Encrypted): Result<Bytes, FrameError> {
    if |e.nonce| != NONCE_SIZE || |e.tag| != TAG_SIZE || |h.sessionId| != SESSION_ID_SIZE then Err(WrongFieldLength)
    else Ok([h.version % 256, h.direction % 256, h.packetType % 256] + h.sessionId + e.nonce + e.ciphertext + e.tag)
  }

  function SplitFrame(data: Bytes): Result<(FrameHeader, Encrypted), FrameError> {
    if |data| < MIN_FRAME_SIZE then Err(FrameTooShort)
    else
      Ok((FrameHeader(data[0], data[1], data[2], data[3..11]),
          Encrypted(data[23..|data| - TAG_SIZE], data[11..23], data[|data| - TAG_SIZE..])))
  }

  /** The byte layout of a frame: version, direction, type, session id, nonce, ciphertext, tag. */
  lemma FrameLayout(h: FrameHeader, e: Encrypted)
    requires ByteFields(h)
    ensures EncodeFrame(h, e).Ok? <==> |h.sessionId| == 8 && |e.nonce| == 12 && |e.tag| == 16
    ensures EncodeFrame(h, e).Ok? ==>
              var d := EncodeFrame(h, e).value;
              && |d| == 39 + |e.ciphertext| && d[0] == h.version && d[1] == h.direction && d[2] == h.packetType
              && d[3..11] == h.sessionId && d[11..23] == e.nonce
              && d[23..|d| - 16] == e.ciphertext && d[|d| - 16..] == e.tag
  {
    if EncodeFrame(h, e).Ok? {
      SplitInvertsEncode(h, e);
    }
  }

  ghost predicate ByteFields(h: FrameHeader) {
    0 <= h.version < 256 && 0 <= h.direction < 256 && 0 <= h.packetType < 256
  }

  /** Splitting undoes encoding for every header whose integers fit a byte. */
  lemma SplitInvertsEncode(h: FrameHeader, e: Encrypted)
    requires ByteFields(h) && EncodeFrame(h, e).Ok?
    ensures SplitFrame(EncodeFrame(h, e).value) == Ok((h, e))
  {
    var head := [h.version % 256, h.direction % 256, h.packetType % 256];
    var data := EncodeFrame(h, e).value;
    var n := |data|;
    assert data[..3] == head;
    assert data[0] == h.version && data[1] == h.direction && data[2] == h.packetType;
    assert data[3..11] == h.sessionId;
    assert data[11..23] == e.nonce;
    assert data[23..n - TAG_SIZE] == e.ciphertext;
    assert data[n - TAG_SIZE..] == e.tag;
  }

  /** Encoding undoes splitting: every string of at least the minimum size is a frame, and of one frame only. */
  lemma EncodeInvertsSplit(data: Bytes)
    ensures SplitFrame(data).Ok? <==> |data| >= MIN_FRAME_SIZE
    ensures SplitFrame(data).Ok? ==>
              var (h, e) := SplitFrame(data).value; ByteFields(h) && EncodeFrame(h, e) == Ok(data)
  {
    if |data| >= MIN_FRAME_SIZE {
      var n := |data|;
      assert data == data[..3] + data[3..11] + data[11..23] + data[23..n - TAG_SIZE] + data[n - TAG_SIZE..];
      assert data[..3] == [data[0], data[1], data[2]];
    }
  }

  /** direction(1), counter(8), three zero bytes. */
  function DeriveNonce(direction: int, counter: int): (r: Result<Bytes, FrameError>)
    ensures r.Ok? ==> |r.value| == NONCE_SIZE
    ensures r.Ok? <==> direction in {INITIATOR_TO_RESPONDER, RESPONDER_TO_INITIATOR} && 1 <= counter < Pow256(8)
  {
    if direction != INITIATOR_TO_RESPONDER && direction != RESPONDER_TO_INITIATOR then Err(InvalidDirection)
    else if counter <= 0 then Err(CounterNotPositive)
    else if counter >= Pow256(8) then Err(FieldTooLarge)
    else Ok([direction] + Be(counter, 8) + [0, 0, 0])
  }

  /** The counter a receiver reads back out of a nonce. */
  function NonceCounter(nonce: Bytes): nat
    requires |nonce| == NONCE_SIZE
  {
    FromBe(nonce[1..9])
  }

  lemma NonceCarriesCounter(direction: int, counter: int)
    requires DeriveNonce(direction, counter).Ok?
    ensures NonceCounter(DeriveNonce(direction, counter).value) == counter
    ensures DeriveNonce(direction, counter).value[0] == direction
  {
    assert DeriveNonce(direction, counter).value[1..9] == Be(counter, 8);
    FromBeInvertsBe(counter, 8);
  }

  lemma NonceLayout(direction: int, counter: int)
    requires DeriveNonce(direction, counter).Ok?
    ensures var n := DeriveNonce(direction, counter).value;
            n[0] == direction && FromBe(n[1..9]) == counter && n[9..12] == [0, 0, 0]
  {
    NonceCarriesCounter(direction, counter);
  }

  /** Two nonces agree only for the same direction and the same counter. */
  lemma NonceInjective(d1: int, c1: int, d2: int, c2: int)
    requires DeriveNonce(d1, c1).Ok? && DeriveNonce(d2, c2).Ok?
    requires DeriveNonce(d1, c1) == DeriveNonce(d2, c2)
    ensures d1 == d2 && c1 == c2
  {
    NonceCarriesCounter(d1, c1);
    NonceCarriesCounter(d2, c2);
  }

  /** Everything a frame's authentication tag binds besides the ciphertext. */
  function BuildAad(h: FrameHeader, sender: Bytes, receiver: Bytes): Result<Bytes, FrameError> {
    if |sender| > MAX_PREFIXED || |receiver| > MAX_PREFIXED then Err(FieldTooLarge)
    else Ok([h.version % 256, h.direction % 256, h.packetType % 256] + h.sessionId
            + LengthPrefixed(sender) + LengthPrefixed(receiver))
  }

  /** The associated data determines every field it was built from. */
  lemma AadInjective(h1: FrameHeader, s1: Bytes, r1: Bytes, h2: FrameHeader, s2: Bytes, r2: Bytes)
    requires BuildAad(h1, s1, r1).Ok? && BuildAad(h1, s1, r1) == BuildAad(h2, s2, r2)
    requires |h1.sessionId| == SESSION_ID_SIZE && |h2.sessionId| == SESSION_ID_SIZE
    requires ByteFields(h1) && ByteFields(h2)
    ensures h1 == h2 && s1 == s2 && r1 == r2
  {
    var head1 := [h1.version % 256, h1.direction % 256, h1.packetType % 256];
    var head2 := [h2.version % 256, h2.direction % 256, h2.packetType % 256];
    var tail1 := LengthPrefixed(s1) + LengthPrefixed(r1);
    var tail2 := LengthPrefixed(s2) + LengthPrefixed(r2);
    assert BuildAad(h1, s1, r1).value == head1 + (h1.sessionId + tail1);
    assert BuildAad(h2, s2, r2).value == head2 + (h2.sessionId + tail2);
    SplitEqual(head1, h1.sessionId + tail1, head2, h2.sessionId + tail2);
    assert head1[0] == head2[0] && head1[1] == head2[1] && head1[2] == head2[2];
    SplitEqual(h1.sessionId, tail1, h2.sessionId, tail2);
    PrefixedFieldUnique(s1, LengthPrefixed(r1), s2, LengthPrefixed(r2));
    assert LengthPrefixed(r1) + [] == LengthPrefixed(r2) + [];
    PrefixedFieldUnique(r1, [], r2, []);
  }

  /** The byte layout of the associated data: the frame header, then sender and receiver, each behind its length.
      It exists for every header and every pair of names short enough to prefix. */
  lemma AadLayout(h: FrameHeader, sender: Bytes, receiver: Bytes)
    requires ByteFields(h) && |h.sessionId| == SESSION_ID_SIZE
    ensures BuildAad(h, sender, receiver).Ok? <==> |sender| <= 65535 && |receiver| <= 65535
    ensures BuildAad(h, sender, receiver).Ok? ==>
              var d, n := BuildAad(h, sender, receiver).value, |sender|;
              && |d| == 15 + n + |receiver| && d[0] == h.version && d[1] == h.direction && d[2] == h.packetType
              && d[3..11] == h.sessionId && FromBe(d[11..13]) == n && d[13..13 + n] == sender
              && FromBe(d[13 + n..15 + n]) == |receiver| && d[15 + n..] == receiver
  {
    if BuildAad(h, sender, receiver).Ok? {
      var d, n := BuildAad(h, sender, receiver).value, |sender|;
      FromBeInvertsBe(n, 2);
      FromBeInvertsBe(|receiver|, 2);
      assert d[3..11] == h.sessionId && d[11..13] == Be(n, 2) && d[13..13 + n] == sender;
      assert d[13 + n..15 + n] == Be(|receiver|, 2) && d[15 + n..] == receiver;
    }
  }

  function Abs(x: int): int {
    if x < 0 then -x else x
  }

  predicate WithinSkew(timestampMs: int, nowMs: int, maxSkewMs: int) {
    Abs(nowMs - timestampMs) <= maxSkewMs
  }
}
