/** The inner packet: a 32-byte header followed by the serialized payload. */
module Packets {
  import opened Results
  import opened Wire

  const MAGIC := 0x53594E43
  const HEADER_SIZE := 32
  const CURRENT_VERSION := 2

  /** A payload dictionary; its serialization is a parameter of the model. */
  datatype Payload = Payload(fields: map<string, Bytes>)

  /** The serializer and checksum the packet layer is built on. */
  datatype Codec = Codec(pack: Payload -> Bytes, unpack: Bytes -> Option<Payload>, crc32: Bytes -> nat)

  /** What the packet layer expects of them: unpacking undoes packing, and a checksum fits four bytes. */
  ghost predicate Lawful(c: Codec) {
    && (forall p :: c.unpack(c.pack(p)) == Some(p))
    && (forall b :: c.crc32(b) < Pow256(4))
  }

  predicate KnownType(t: int) {
    t in {0x01, 0x02, 0x03, 0x10, 0x11, 0x12, 0x20, 0x21, 0xF0, 0xFF}
  }

  datatype PacketHeader = PacketHeader(
    version: int, packetType: int, flags: int, messageId: int, payloadLength: int, timestamp: int, crc32: int)

  datatype Packet = Packet(header: PacketHeader, payload: Payload)

  datatype PacketError = FieldOutOfRange | BadHeaderSize | BadMagic | UnknownType | BadLength | BadChecksum | BadPayload

  predicate Fits(h: PacketHeader) {
    && 0 <= h.version < 256 && KnownType(h.packetType) && 0 <= h.flags < Pow256(2)
    && 0 <= h.messageId < Pow256(8) && 0 <= h.payloadLength < Pow256(4)
    && 0 <= h.timestamp < Pow256(8) && 0 <= h.crc32 < Pow256(4)
  }

  function PackHeader(h: PacketHeader): (r: Result<Bytes, PacketError>)
    ensures r.Ok? ==> |r.value| == HEADER_SIZE
  {
    if !Fits(h) then Err(FieldOutOfRange)
    else Ok(Be(MAGIC, 4) + [h.version, h.packetType] + Be(h.flags, 2) + Be(h.messageId, 8)
            + Be(h.payloadLength, 4) + Be(h.timestamp, 8) + Be(h.crc32, 4))
  }

  function UnpackHeader(data: Bytes): Result<PacketHeader, PacketError> {
    if |data| != HEADER_SIZE then Err(BadHeaderSize)
    else if FromBe(data[0..4]) != MAGIC then Err(BadMagic)
    else if !KnownType(data[5]) then Err(UnknownType)
    else Ok(PacketHeader(data[4], data[5], FromBe(data[6..8]), FromBe(data[8..16]), FromBe(data[16..20]),
                         FromBe(data[20..28]), FromBe(data[28..32])))
  }

  lemma UnpackInvertsPack(h: PacketHeader)
    requires Fits(h)
    ensures UnpackHeader(PackHeader(h).value) == Ok(h)
  {
    var d := PackHeader(h).value;
    assert d[0..4] == Be(MAGIC, 4);
    assert d[4] == h.version && d[5] == h.packetType;
    assert d[6..8] == Be(h.flags, 2);
    assert d[8..16] == Be(h.messageId, 8);
    assert d[16..20] == Be(h.payloadLength, 4);
    assert d[20..28] == Be(h.timestamp, 8);
    assert d[28..32] == Be(h.crc32, 4);
    FromBeInvertsBe(MAGIC, 4);
    FromBeInvertsBe(h.flags, 2);
    FromBeInvertsBe(h.messageId, 8);
    FromBeInvertsBe(h.payloadLength, 4);
    FromBeInvertsBe(h.timestamp, 8);
    FromBeInvertsBe(h.crc32, 4);
  }

  /** Which headers can be written, and where each field stands. */
  lemma HeaderLayout(h: PacketHeader)
    ensures PackHeader(h).Ok?
       <==> && 0 <= h.version < 0x100 && KnownType(h.packetType) && 0 <= h.flags < 0x10000
            && 0 <= h.messageId < 0x1_0000_0000_0000_0000 && 0 <= h.payloadLength < 0x1_0000_0000
            && 0 <= h.timestamp < 0x1_0000_0000_0000_0000 && 0 <= h.crc32 < 0x1_0000_0000
    ensures PackHeader(h).Ok? ==>
              var d := PackHeader(h).value;
              && |d| == 32 && d[..4] == [0x53, 0x59, 0x4E, 0x43] && d[4] == h.version && d[5] == h.packetType
              && FromBe(d[6..8]) == h.flags && FromBe(d[8..16]) == h.messageId
              && FromBe(d[16..20]) == h.payloadLength && FromBe(d[20..28]) == h.timestamp
              && FromBe(d[28..32]) == h.crc32
  {
    Powers();
    if Fits(h) {
      UnpackInvertsPack(h);
      MagicBytes();
      assert PackHeader(h).value[..4] == Be(MAGIC, 4);
    }
  }

  lemma Powers()
    ensures Pow256(2) == 0x10000 && Pow256(4) == 0x1_0000_0000 && Pow256(8) == 0x1_0000_0000_0000_0000
  {
    assert Pow256(1) == 256 && Pow256(2) == 0x10000 && Pow256(3) == 0x100_0000 && Pow256(4) == 0x1_0000_0000;
    assert Pow256(5) == 0x100_0000_0000 && Pow256(6) == 0x1_0000_0000_0000;
  }

  lemma MagicBytes()
    ensures MAGIC < Pow256(4) && Be(MAGIC, 4) == [0x53, 0x59, 0x4E, 0x43]
  {
    Powers();
    assert Be(0x53, 1) == [0x53];
    assert Be(0x5359, 2) == [0x53, 0x59];
    assert Be(0x53594E, 3) == [0x53, 0x59, 0x4E];
  }

  lemma PackInvertsUnpack(data: Bytes)
    requires UnpackHeader(data).Ok?
    ensures PackHeader(UnpackHeader(data).value) == Ok(data)
  {
    BeInvertsFromBe(data[0..4]);
    BeInvertsFromBe(data[6..8]);
    BeInvertsFromBe(data[8..16]);
    BeInvertsFromBe(data[16..20]);
    BeInvertsFromBe(data[20..28]);
    BeInvertsFromBe(data[28..32]);
    assert data == data[0..4] + [data[4], data[5]] + data[6..8] + data[8..16] + data[16..20] + data[20..28]
           + data[28..32];
  }

  /** The header as it goes out: length and checksum are recomputed from the payload. */
  function Stamped(c: Codec, p: Packet): PacketHeader {
    p.header.(payloadLength := |c.pack(p.payload)|, crc32 := c.crc32(c.pack(p.payload)))
  }

  function EncodePacket(c: Codec, p: Packet): Result<Bytes, PacketError> {
    var header := PackHeader(Stamped(c, p));
    if header.Err? then Err(header.error) else Ok(header.value + c.pack(p.payload))
  }

  /** Bytes after the announced payload are ignored, as in the program. */
  function DecodePacket(c: Codec, data: Bytes): Result<Packet, PacketError> {
    if |data| < HEADER_SIZE then Err(BadHeaderSize)
    else
      var header := UnpackHeader(data[..HEADER_SIZE]);
      if header.Err? then Err(header.error)
      else
        var h := header.value;
        if |data| < HEADER_SIZE + h.payloadLength then Err(BadLength)
        else
          var body := data[HEADER_SIZE..HEADER_SIZE + h.payloadLength];
          if c.crc32(body) != h.crc32 then Err(BadChecksum)
          else if c.unpack(body).None? then Err(BadPayload)
          else Ok(Packet(h, c.unpack(body).value))
  }

  /** Decoding returns the payload that was encoded, under the stamped header. */
  lemma DecodeInvertsEncode(c: Codec, p: Packet)
    requires Lawful(c) && EncodePacket(c, p).Ok?
    ensures DecodePacket(c, EncodePacket(c, p).value) == Ok(Packet(Stamped(c, p), p.payload))
  {
    var h := Stamped(c, p);
    var data := EncodePacket(c, p).value;
    UnpackInvertsPack(h);
    assert data[..HEADER_SIZE] == PackHeader(h).value;
    assert data[HEADER_SIZE..HEADER_SIZE + h.payloadLength] == c.pack(p.payload);
    assert c.unpack(c.pack(p.payload)) == Some(p.payload);
  }

  /** Exactly these byte strings decode: the packed header of some packet, a payload as long as announced with its
      checksum, and anything behind it. */
  lemma DecodesExactly(c: Codec, data: Bytes, p: Packet)
    ensures DecodePacket(c, data) == Ok(p)
       <==> && PackHeader(p.header).Ok? && |data| >= 32 + p.header.payloadLength
            && data[..32] == PackHeader(p.header).value
            && var body := data[32..32 + p.header.payloadLength];
               c.crc32(body) == p.header.crc32 && c.unpack(body) == Some(p.payload)
  {
    if DecodePacket(c, data) == Ok(p) {
      PackInvertsUnpack(data[..HEADER_SIZE]);
    }
    if PackHeader(p.header).Ok? {
      UnpackInvertsPack(p.header);
    }
  }

  /** A packet can be encoded exactly when its type is known and every field, with the payload's real length and
      checksum, fits its place; the serialized payload follows the header. */
  lemma EncodesExactly(c: Codec, p: Packet)
    requires Lawful(c)
    ensures var h := p.header;
            EncodePacket(c, p).Ok?
            <==> && 0 <= h.version < 0x100 && KnownType(h.packetType) && 0 <= h.flags < 0x10000
                 && 0 <= h.messageId < 0x1_0000_0000_0000_0000 && |c.pack(p.payload)| < 0x1_0000_0000
                 && 0 <= h.timestamp < 0x1_0000_0000_0000_0000
    ensures EncodePacket(c, p).Ok? ==>
              var d, h, body := EncodePacket(c, p).value, p.header, c.pack(p.payload);
              && d[32..] == body
              && PackHeader(h.(payloadLength := |body|, crc32 := c.crc32(body))) == Ok(d[..32])
  {
    Powers();
  }
}
