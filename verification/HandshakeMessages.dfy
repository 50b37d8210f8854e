/** The four handshake messages on the wire. */
module HandshakeMessages {
  import opened Results
  import opened Wire

  const HANDSHAKE_VERSION := 3
  const MSG_HELLO: Byte := 1
  const MSG_REPLY: Byte := 2
  const MSG_CONFIRM: Byte := 3
  const MSG_FINAL: Byte := 4
  const STATUS_ACCEPT := 0
  const STATUS_REJECT := 1
  const MAX_DEVICE_ID_BYTES := 64
  const KEY_SIZE := 32
  const SIGNATURE_SIZE := 64
  const MAC_SIZE := 32

  datatype MessageError = UnsupportedVersion | Malformed | Invalid | LowOrderPoint

  /** Checks on content the model leaves open: which byte strings are device-id text, and which
      X25519 keys are degenerate. */
  datatype Checks = Checks(idText: Bytes -> bool, lowOrder: set<Bytes>)

  /** The fields HELLO and the REPLY body share. Device ids are their UTF-8 bytes. */
  datatype Intro = Intro(
    eph: Bytes, nonce: Bytes, deviceId: Bytes, identityKey: Bytes, transferPort: int, manifestPort: int)

  datatype Reply = Reply(intro: Intro, sig: Bytes, mac: Bytes, body: Bytes)
  datatype Confirm = Confirm(sig: Bytes, mac: Bytes)
  datatype Final = Final(status: int, mac: Bytes)

  predicate ValidPort(p: int) {
    1 <= p <= 65535
  }

  predicate ValidId(k: Checks, id: Bytes) {
    1 <= |id| <= MAX_DEVICE_ID_BYTES && k.idText(id)
  }

  predicate ValidIntro(k: Checks, m: Intro) {
    && |m.eph| == KEY_SIZE && |m.nonce| == KEY_SIZE && |m.identityKey| == KEY_SIZE
    && ValidPort(m.transferPort) && ValidPort(m.manifestPort) && ValidId(k, m.deviceId)
  }

  // ----- encoders -----

  function EncodeIntro(k: Checks, msgType: Byte, version: int, m: Intro): Result<Bytes, MessageError> {
    if version != HANDSHAKE_VERSION then Err(UnsupportedVersion)
    else if !ValidIntro(k, m) then Err(Invalid)
    else Ok([version, msgType] + m.eph + m.nonce + Be(|m.deviceId|, 2) + m.deviceId + m.identityKey
            + Be(m.transferPort, 2) + Be(m.manifestPort, 2))
  }

  function EncodeHello(k: Checks, version: int, m: Intro): Result<Bytes, MessageError> {
    EncodeIntro(k, MSG_HELLO, version, m)
  }

  function EncodeReplyBody(k: Checks, version: int, m: Intro): Result<Bytes, MessageError> {
    EncodeIntro(k, MSG_REPLY, version, m)
  }

  function EncodeReply(k: Checks, version: int, m: Intro, sig: Bytes, mac: Bytes): Result<Bytes, MessageError> {
    if |sig| != SIGNATURE_SIZE || |mac| != MAC_SIZE then Err(Invalid)
    else
      var body := EncodeReplyBody(k, version, m);
      if body.Err? then body else Ok(body.value + sig + mac)
  }

  function EncodeConfirm(version: int, m: Confirm): Result<Bytes, MessageError> {
    if version != HANDSHAKE_VERSION then Err(UnsupportedVersion)
    else if |m.sig| != SIGNATURE_SIZE || |m.mac| != MAC_SIZE then Err(Invalid)
    else Ok([version, MSG_CONFIRM] + m.sig + m.mac)
  }

  function EncodeFinal(version: int, m: Final): Result<Bytes, MessageError> {
    if version != HANDSHAKE_VERSION then Err(UnsupportedVersion)
    else if m.status != STATUS_ACCEPT && m.status != STATUS_REJECT then Err(Invalid)
    else if |m.mac| != MAC_SIZE then Err(Invalid)
    else Ok([version, MSG_FINAL, m.status] + m.mac)
  }

  // ----- decoders -----

  predicate Headed(data: Bytes, msgType: Byte) {
    |data| >= 2 && data[0] == HANDSHAKE_VERSION && data[1] == msgType
  }

  function HeaderError(data: Bytes): MessageError {
    if |data| >= 2 && data[0] != HANDSHAKE_VERSION then UnsupportedVersion else Malformed
  }

  /** The shared fields and the offset just behind them; ports and key are checked later. */
  function ParseIntro(k: Checks, data: Bytes, msgType: Byte): Result<(Intro, nat), MessageError> {
    if !Headed(data, msgType) then Err(HeaderError(data))
    else if |data| < 68 then Err(Malformed)
    else
      var n := FromBe(data[66..68]);
      if !(1 <= n <= MAX_DEVICE_ID_BYTES) then Err(Invalid)
      else if |data| < 68 + n then Err(Malformed)
      else if !k.idText(data[68..68 + n]) then Err(Invalid)
      else if |data| < 104 + n then Err(Malformed)
      else Ok((Intro(data[2..34], data[34..66], data[68..68 + n], data[68 + n..100 + n],
                     FromBe(data[100 + n..102 + n]), FromBe(data[102 + n..104 + n])), 104 + n))
  }

  function CheckIntro<T>(k: Checks, m: Intro, ok: T): Result<T, MessageError> {
    if !ValidPort(m.transferPort) || !ValidPort(m.manifestPort) then Err(Invalid)
    else if m.eph in k.lowOrder then Err(LowOrderPoint)
    else Ok(ok)
  }

  function DecodeHello(k: Checks, data: Bytes): Result<Intro, MessageError> {
    var p := ParseIntro(k, data, MSG_HELLO);
    if p.Err? then Err(p.error)
    else if p.value.1 != |data| then Err(Malformed)
    else CheckIntro(k, p.value.0, p.value.0)
  }

  function DecodeReply(k: Checks, data: Bytes): Result<Reply, MessageError> {
    var p := ParseIntro(k, data, MSG_REPLY);
    if p.Err? then Err(p.error)
    else
      var (m, end) := p.value;
      if end + SIGNATURE_SIZE + MAC_SIZE != |data| then Err(Malformed)
      else CheckIntro(k, m, Reply(m, data[end..end + SIGNATURE_SIZE], data[end + SIGNATURE_SIZE..], data[..end]))
  }

  function DecodeConfirm(data: Bytes): Result<Confirm, MessageError> {
    if !Headed(data, MSG_CONFIRM) then Err(HeaderError(data))
    else if |data| != 2 + SIGNATURE_SIZE + MAC_SIZE then Err(Malformed)
    else Ok(Confirm(data[2..66], data[66..]))
  }

  function DecodeFinal(data: Bytes): Result<Final, MessageError> {
    if !Headed(data, MSG_FINAL) then Err(HeaderError(data))
    else if |data| < 3 then Err(Malformed)
    else if data[2] != STATUS_ACCEPT && data[2] != STATUS_REJECT then Err(Invalid)
    else if |data| != 3 + MAC_SIZE then Err(Malformed)
    else Ok(Final(data[2], data[3..]))
  }

  // ----- the codec is a bijection -----

  lemma ParseInvertsEncode(k: Checks, msgType: Byte, m: Intro, rest: Bytes)
    requires ValidIntro(k, m)
    ensures var enc := EncodeIntro(k, msgType, HANDSHAKE_VERSION, m).value;
            ParseIntro(k, enc + rest, msgType) == Ok((m, |enc|))
  {
    var enc := EncodeIntro(k, msgType, HANDSHAKE_VERSION, m).value;
    var d, n := enc + rest, |m.deviceId|;
    assert d[0] == HANDSHAKE_VERSION && d[1] == msgType;
    assert d[2..34] == m.eph;
    assert d[34..66] == m.nonce;
    assert d[66..68] == Be(n, 2);
    assert d[68..68 + n] == m.deviceId;
    assert d[68 + n..100 + n] == m.identityKey;
    assert d[100 + n..102 + n] == Be(m.transferPort, 2);
    assert d[102 + n..104 + n] == Be(m.manifestPort, 2);
    FromBeInvertsBe(n, 2);
    FromBeInvertsBe(m.transferPort, 2);
    FromBeInvertsBe(m.manifestPort, 2);
  }

  lemma Pieces(data: Bytes, n: nat)
    requires 104 + n <= |data|
    ensures data[..104 + n] == [data[0], data[1]] + data[2..34] + data[34..66] + data[66..68] + data[68..68 + n]
                               + data[68 + n..100 + n] + data[100 + n..102 + n] + data[102 + n..104 + n]
  {
    assert data[..68] == [data[0], data[1]] + data[2..34] + data[34..66] + data[66..68];
    assert data[..100 + n] == data[..68] + data[68..68 + n] + data[68 + n..100 + n];
    assert data[..104 + n] == data[..100 + n] + data[100 + n..102 + n] + data[102 + n..104 + n];
  }

  lemma EncodeInvertsParse(k: Checks, data: Bytes, msgType: Byte, m: Intro, end: nat)
    requires ParseIntro(k, data, msgType) == Ok((m, end))
    requires ValidPort(m.transferPort) && ValidPort(m.manifestPort)
    ensures end <= |data| && EncodeIntro(k, msgType, HANDSHAKE_VERSION, m) == Ok(data[..end])
  {
    var n := FromBe(data[66..68]);
    BeInvertsFromBe(data[66..68]);
    BeInvertsFromBe(data[100 + n..102 + n]);
    BeInvertsFromBe(data[102 + n..104 + n]);
    Pieces(data, n);
  }

  /** A HELLO decodes to the fields it was encoded from, unless its ephemeral key is degenerate. */
  lemma HelloRoundTrip(k: Checks, m: Intro)
    requires EncodeHello(k, HANDSHAKE_VERSION, m).Ok?
    ensures DecodeHello(k, EncodeHello(k, HANDSHAKE_VERSION, m).value)
            == if m.eph in k.lowOrder then Err(LowOrderPoint) else Ok(m)
  {
    ParseInvertsEncode(k, MSG_HELLO, m, []);
    var enc := EncodeHello(k, HANDSHAKE_VERSION, m).value;
    assert enc + [] == enc;
  }

  lemma HelloCanonical(k: Checks, data: Bytes)
    requires DecodeHello(k, data).Ok?
    ensures EncodeHello(k, HANDSHAKE_VERSION, DecodeHello(k, data).value) == Ok(data)
  {
    var (m, end) := ParseIntro(k, data, MSG_HELLO).value;
    EncodeInvertsParse(k, data, MSG_HELLO, m, end);
    assert data[..end] == data;
  }

  /** A REPLY decodes to its fields, and its `body` is byte for byte what the responder hashed. */
  lemma ReplyRoundTrip(k: Checks, m: Intro, sig: Bytes, mac: Bytes)
    requires EncodeReply(k, HANDSHAKE_VERSION, m, sig, mac).Ok?
    ensures DecodeReply(k, EncodeReply(k, HANDSHAKE_VERSION, m, sig, mac).value)
            == if m.eph in k.lowOrder then Err(LowOrderPoint)
               else Ok(Reply(m, sig, mac, EncodeReplyBody(k, HANDSHAKE_VERSION, m).value))
  {
    var body := EncodeReplyBody(k, HANDSHAKE_VERSION, m).value;
    ParseInvertsEncode(k, MSG_REPLY, m, sig + mac);
    var data := EncodeReply(k, HANDSHAKE_VERSION, m, sig, mac).value;
    assert data == body + (sig + mac);
    assert data[..|body|] == body;
    assert data[|body|..|body| + SIGNATURE_SIZE] == sig;
    assert data[|body| + SIGNATURE_SIZE..] == mac;
  }

  lemma ReplyCanonical(k: Checks, data: Bytes)
    requires DecodeReply(k, data).Ok?
    ensures var r := DecodeReply(k, data).value;
            && EncodeReply(k, HANDSHAKE_VERSION, r.intro, r.sig, r.mac) == Ok(data)
            && EncodeReplyBody(k, HANDSHAKE_VERSION, r.intro) == Ok(r.body)
  {
    var (m, end) := ParseIntro(k, data, MSG_REPLY).value;
    EncodeInvertsParse(k, data, MSG_REPLY, m, end);
    assert data == data[..end] + data[end..end + SIGNATURE_SIZE] + data[end + SIGNATURE_SIZE..];
  }

  lemma ConfirmBijection(m: Confirm, data: Bytes)
    ensures EncodeConfirm(HANDSHAKE_VERSION, m).Ok? ==>
              DecodeConfirm(EncodeConfirm(HANDSHAKE_VERSION, m).value) == Ok(m)
    ensures DecodeConfirm(data).Ok? ==> EncodeConfirm(HANDSHAKE_VERSION, DecodeConfirm(data).value) == Ok(data)
  {
    if EncodeConfirm(HANDSHAKE_VERSION, m).Ok? {
      var d := EncodeConfirm(HANDSHAKE_VERSION, m).value;
      assert d[2..66] == m.sig && d[66..] == m.mac;
    }
    if DecodeConfirm(data).Ok? {
      assert data == [data[0], data[1]] + data[2..66] + data[66..];
    }
  }

  lemma FinalBijection(m: Final, data: Bytes)
    ensures EncodeFinal(HANDSHAKE_VERSION, m).Ok? ==> DecodeFinal(EncodeFinal(HANDSHAKE_VERSION, m).value) == Ok(m)
    ensures DecodeFinal(data).Ok? ==> EncodeFinal(HANDSHAKE_VERSION, DecodeFinal(data).value) == Ok(data)
  {
    if EncodeFinal(HANDSHAKE_VERSION, m).Ok? {
      assert EncodeFinal(HANDSHAKE_VERSION, m).value[3..] == m.mac;
    }
    if DecodeFinal(data).Ok? {
      assert data == [data[0], data[1], data[2]] + data[3..];
    }
  }

  /** The decoder of message `t` accepts. */
  predicate Accepts(k: Checks, data: Bytes, t: int) {
    match t
    case 1 => DecodeHello(k, data).Ok?
    case 2 => DecodeReply(k, data).Ok?
    case 3 => DecodeConfirm(data).Ok?
    case _ => DecodeFinal(data).Ok?
  }

  /** The kinds of message a byte string is accepted as. */
  function AcceptedAs(k: Checks, data: Bytes): set<int> {
    set t | 1 <= t <= 4 && Accepts(k, data, t)
  }

  lemma TypeByteDecides(k: Checks, data: Bytes, t: int)
    requires 1 <= t <= 4 && Accepts(k, data, t)
    ensures |data| >= 2 && data[1] == t
  {}

  /** No byte string is accepted by two decoders. */
  lemma OneDecoderAtMost(k: Checks, data: Bytes)
    ensures |AcceptedAs(k, data)| <= 1
  {
    if AcceptedAs(k, data) != {} {
      var one := if |data| >= 2 then data[1] as int else 0;
      forall t | t in AcceptedAs(k, data) ensures t in {one} { TypeByteDecides(k, data, t); }
      AtMostOne(AcceptedAs(k, data), one);
    }
  }

  lemma AtMostOne<T(!new)>(kinds: set<T>, one: T)
    requires forall t :: t in kinds ==> t in {one}
    ensures |kinds| <= 1
  {
    if kinds != {} {
      assert one in kinds;
      assert kinds == {one};
    }
  }

  // ----- layout and acceptance -----

  /** What a HELLO or the body of a REPLY may carry, and where each field stands. */
  lemma IntroLayout(k: Checks, msgType: Byte, version: int, m: Intro)
    ensures EncodeIntro(k, msgType, version, m).Ok?
       <==> && version == 3 && |m.eph| == 32 && |m.nonce| == 32 && |m.identityKey| == 32
            && 1 <= m.transferPort <= 65535 && 1 <= m.manifestPort <= 65535
            && 1 <= |m.deviceId| <= 64 && k.idText(m.deviceId)
    ensures EncodeIntro(k, msgType, version, m).Ok? ==>
              var d, n := EncodeIntro(k, msgType, version, m).value, |m.deviceId|;
              && |d| == 104 + n && d[0] == 3 && d[1] == msgType && d[2..34] == m.eph && d[34..66] == m.nonce
              && FromBe(d[66..68]) == n && d[68..68 + n] == m.deviceId && d[68 + n..100 + n] == m.identityKey
              && FromBe(d[100 + n..102 + n]) == m.transferPort && FromBe(d[102 + n..104 + n]) == m.manifestPort
  {
    if version == HANDSHAKE_VERSION && ValidIntro(k, m) {
      ParseInvertsEncode(k, msgType, m, []);
      var d := EncodeIntro(k, msgType, version, m).value;
      assert d + [] == d;
    }
  }

  /** A byte string is accepted as a HELLO exactly when it encodes one with a key that is not degenerate. */
  lemma HelloAcceptedExactly(k: Checks, data: Bytes)
    ensures DecodeHello(k, data).Ok? <==> exists m :: EncodeHello(k, 3, m) == Ok(data) && m.eph !in k.lowOrder
  {
    if DecodeHello(k, data).Ok? {
      HelloCanonical(k, data);
    }
    if m :| EncodeHello(k, 3, m) == Ok(data) && m.eph !in k.lowOrder {
      HelloRoundTrip(k, m);
    }
  }

  /** And as a REPLY exactly when it is the body of one with such a key, then a signature and a MAC. */
  lemma ReplyAcceptedExactly(k: Checks, data: Bytes)
    ensures DecodeReply(k, data).Ok?
       <==> exists m, sig, mac :: EncodeReply(k, 3, m, sig, mac) == Ok(data) && m.eph !in k.lowOrder
    ensures DecodeReply(k, data).Ok? ==>
              var r := DecodeReply(k, data).value;
              |r.sig| == 64 && |r.mac| == 32 && data == r.body + r.sig + r.mac
  {
    if DecodeReply(k, data).Ok? {
      ReplyCanonical(k, data);
    }
    if m, sig, mac :| EncodeReply(k, 3, m, sig, mac) == Ok(data) && m.eph !in k.lowOrder {
      ReplyRoundTrip(k, m, sig, mac);
    }
  }

  /** The last two messages have fixed sizes. */
  lemma ConfirmAndFinalExactly(data: Bytes)
    ensures DecodeConfirm(data).Ok? <==> |data| == 98 && data[..2] == [3, 3]
    ensures DecodeConfirm(data).Ok? ==> DecodeConfirm(data).value == Confirm(data[2..66], data[66..98])
    ensures DecodeFinal(data).Ok? <==> |data| == 35 && (data[..3] == [3, 4, 0] || data[..3] == [3, 4, 1])
    ensures DecodeFinal(data).Ok? ==> DecodeFinal(data).value == Final(data[2], data[3..35])
  {
    if |data| == 98 {
      assert data[66..98] == data[66..];
      assert data[..2] == [data[0], data[1]];
    }
    if |data| == 35 {
      assert data[3..35] == data[3..];
      assert data[..3] == [data[0], data[1], data[2]];
    }
  }
}
