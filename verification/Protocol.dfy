/**
  Wire formats shared by the phone and the PC: the 24-octet frame header and the 88-octet
  canonical signed message. The specification is big-endian concatenation; the C++ code reaches
  it by swapping every integer and copying a packed struct, the Dart code by an offset writer.
  */
module Protocol {
  import opened Bytes

  const PROTOCOL_MAGIC: U16 := 0x4D55
  const PROTOCOL_MAJOR_VERSION: Byte := 1
  const PROTOCOL_MINOR_VERSION: Byte := 0
  const MAX_PAYLOAD_SIZE := 4096
  const FRAME_HEADER_SIZE := 24
  const CANONICAL_SIGNED_MESSAGE_SIZE := 88
  const SIGNED_MESSAGE_VERSION: U16 := 0x0100
  const AUTH_RESPONSE: U16 := 0x0022

  type Identity = s: Octets | |s| == 16 witness seq(16, _ => 0)
  type Nonce = s: Octets | |s| == 32 witness seq(32, _ => 0)

  predicate IsValidMessageType(opcode: U16) {
    opcode in {0x0001, 0x0002, 0x0010, 0x0011, 0x0012, 0x0013,
               0x0020, 0x0021, 0x0022, 0x0023, 0x0024, 0x0030, 0x0031,
               0x0040, 0x0041, 0x0050, 0x0051, 0x00E0, 0x00E1, 0x00FF}
  }

  function Swap16(v: U16): U16 {
    WordSizes(); ValueBound(LittleEndian(v, 2)); Swap(v, 2)
  }

  function Swap32(v: U32): U32 {
    WordSizes(); ValueBound(LittleEndian(v, 4)); Swap(v, 4)
  }

  function Swap64(v: U64): U64 {
    WordSizes(); ValueBound(LittleEndian(v, 8)); Swap(v, 8)
  }

  function Load16(s: Octets): U16
    requires |s| == 2
  {
    WordSizes(); LoadMirrors(s); ValueBound(Reversed(s)); LoadLittleEndian(s)
  }

  function Load32(s: Octets): U32
    requires |s| == 4
  {
    WordSizes(); LoadMirrors(s); ValueBound(Reversed(s)); LoadLittleEndian(s)
  }

  function Load64(s: Octets): U64
    requires |s| == 8
  {
    WordSizes(); LoadMirrors(s); ValueBound(Reversed(s)); LoadLittleEndian(s)
  }

  // ---------------------------------------------------------------------------
  // Frame header
  // ---------------------------------------------------------------------------

  datatype FrameHeader = FrameHeader(
    magic: U16, major: Byte, minor: Byte, messageType: U16, reserved: U16,
    messageId: U32, payloadLength: U32, sequenceNumber: U64)

  const DEFAULT_HEADER := FrameHeader(PROTOCOL_MAGIC, PROTOCOL_MAJOR_VERSION, PROTOCOL_MINOR_VERSION, 0, 0, 0, 0, 0)

  predicate AcceptableHeader(h: FrameHeader) {
    && h.magic == PROTOCOL_MAGIC
    && h.major == PROTOCOL_MAJOR_VERSION
    && h.payloadLength <= MAX_PAYLOAD_SIZE
    && IsValidMessageType(h.messageType)
  }

  /** Network order of a header. */
  function EncodeHeader(h: FrameHeader): (s: Octets)
    ensures |s| == FRAME_HEADER_SIZE
  {
    BigEndian(h.magic, 2) + [h.major, h.minor] + BigEndian(h.messageType, 2) + BigEndian(h.reserved, 2)
    + BigEndian(h.messageId, 4) + BigEndian(h.payloadLength, 4) + BigEndian(h.sequenceNumber, 8)
  }

  function ReadHeader(s: Octets): FrameHeader
    requires |s| >= FRAME_HEADER_SIZE
  {
    FrameHeader(ReadU16(s[..2]), s[2], s[3], ReadU16(s[4..6]), ReadU16(s[6..8]),
                ReadU32(s[8..12]), ReadU32(s[12..16]), ReadU64(s[16..24]))
  }

  /** What the receiver makes of the first octets of its buffer. */
  function DecodeHeader(s: Octets): Option<FrameHeader> {
    if |s| < FRAME_HEADER_SIZE then None
    else if AcceptableHeader(ReadHeader(s)) then Some(ReadHeader(s))
    else None
  }

  /** The opcodes of the protocol, all below 256. */
  predicate KnownOpcode(b: Byte) {
    || 0x01 <= b <= 0x02 || 0x10 <= b <= 0x13 || 0x20 <= b <= 0x24 || 0x30 <= b <= 0x31
    || 0x40 <= b <= 0x41 || 0x50 <= b <= 0x51 || 0xE0 <= b <= 0xE1 || b == 0xFF
  }

  lemma {:induction false} TwoOctets(s: Octets)
    requires |s| == 2
    ensures Value(s) == 256 * (s[0] as int) + s[1] as int
  {
    assert s[..1] == [s[0]];
    assert Value([s[0]]) == 256 * Value([]) + s[0] as int by { assert [s[0]][..0] == []; }
  }

  /** Octet by octet: which headers are accepted, and what is read from them. */
  lemma {:induction false} HeaderAcceptedExactly(s: Octets, h: FrameHeader)
    ensures DecodeHeader(s) == Some(h) <==>
            && |s| >= 24 && s[0] == 0x4D && s[1] == 0x55 && s[2] == 1 && s[4] == 0 && KnownOpcode(s[5])
            && Value(s[12..16]) <= 4096
            && h.magic == 0x4D55 && h.major == 1 && h.minor == s[3] && h.messageType == s[5]
            && h.reserved == Value(s[6..8]) && h.messageId == Value(s[8..12])
            && h.payloadLength == Value(s[12..16]) && h.sequenceNumber == Value(s[16..24])
  {
    hide Value;
    if |s| >= FRAME_HEADER_SIZE {
      TwoOctets(s[..2]);
      TwoOctets(s[4..6]);
    }
  }

  /** Reading back a printed header gives the header, whatever follows it. */
  lemma {:induction false} HeaderReadsBack(h: FrameHeader, tail: Octets)
    ensures ReadHeader(EncodeHeader(h) + tail) == h
  {
    var s := EncodeHeader(h) + tail;
    assert s[..2] == BigEndian(h.magic, 2);
    assert s[4..6] == BigEndian(h.messageType, 2);
    assert s[6..8] == BigEndian(h.reserved, 2);
    assert s[8..12] == BigEndian(h.messageId, 4);
    assert s[12..16] == BigEndian(h.payloadLength, 4);
    assert s[16..24] == BigEndian(h.sequenceNumber, 8);
    FieldRoundTrip(h.magic, 2);
    FieldRoundTrip(h.messageType, 2);
    FieldRoundTrip(h.reserved, 2);
    FieldRoundTrip(h.messageId, 4);
    FieldRoundTrip(h.payloadLength, 4);
    FieldRoundTrip(h.sequenceNumber, 8);
  }

  /** Printing a header that was read restores the octets it was read from. */
  lemma {:induction false} HeaderReprints(s: Octets)
    requires |s| >= FRAME_HEADER_SIZE
    ensures EncodeHeader(ReadHeader(s)) == s[..FRAME_HEADER_SIZE]
  {
    BigEndianOfValue(s[..2]);
    BigEndianOfValue(s[4..6]);
    BigEndianOfValue(s[6..8]);
    BigEndianOfValue(s[8..12]);
    BigEndianOfValue(s[12..16]);
    BigEndianOfValue(s[16..24]);
  }

  /** memcpy of a packed header on a little-endian host. */
  function HeaderImage(h: FrameHeader): (s: Octets)
    ensures |s| == FRAME_HEADER_SIZE
  {
    LittleEndian(h.magic, 2) + [h.major, h.minor] + LittleEndian(h.messageType, 2) + LittleEndian(h.reserved, 2)
    + LittleEndian(h.messageId, 4) + LittleEndian(h.payloadLength, 4) + LittleEndian(h.sequenceNumber, 8)
  }

  function LoadHeaderImage(s: Octets): FrameHeader
    requires |s| >= FRAME_HEADER_SIZE
  {
    FrameHeader(Load16(s[..2]), s[2], s[3], Load16(s[4..6]), Load16(s[6..8]),
                Load32(s[8..12]), Load32(s[12..16]), Load64(s[16..24]))
  }

  method SerializeFrameHeader(header: FrameHeader) returns (buf: Octets)
    ensures buf == EncodeHeader(header)
  {
    var net := DEFAULT_HEADER;
    net := net.(magic := Swap16(header.magic));
    net := net.(major := header.major);
    net := net.(minor := header.minor);
    net := net.(messageType := Swap16(header.messageType));
    net := net.(reserved := Swap16(header.reserved));
    net := net.(messageId := Swap32(header.messageId));
    net := net.(payloadLength := Swap32(header.payloadLength));
    net := net.(sequenceNumber := Swap64(header.sequenceNumber));
    buf := HeaderImage(net);
    StoreSwapped(header.magic, 2);
    StoreSwapped(header.messageType, 2);
    StoreSwapped(header.reserved, 2);
    StoreSwapped(header.messageId, 4);
    StoreSwapped(header.payloadLength, 4);
    StoreSwapped(header.sequenceNumber, 8);
  }

  method DeserializeFrameHeader(data: Octets) returns (result: Option<FrameHeader>)
    ensures result == DecodeHeader(data)
  {
    if |data| < FRAME_HEADER_SIZE {
      return None;
    }
    var net := LoadHeaderImage(data);
    var h := DEFAULT_HEADER;
    h := h.(magic := Swap16(net.magic));
    h := h.(major := net.major);
    h := h.(minor := net.minor);
    h := h.(messageType := Swap16(net.messageType));
    h := h.(reserved := Swap16(net.reserved));
    h := h.(messageId := Swap32(net.messageId));
    h := h.(payloadLength := Swap32(net.payloadLength));
    h := h.(sequenceNumber := Swap64(net.sequenceNumber));
    LoadSwapped(data[..2]);
    LoadSwapped(data[4..6]);
    LoadSwapped(data[6..8]);
    LoadSwapped(data[8..12]);
    LoadSwapped(data[12..16]);
    LoadSwapped(data[16..24]);
    assert h == ReadHeader(data);
    if h.magic != PROTOCOL_MAGIC || h.major != PROTOCOL_MAJOR_VERSION || h.payloadLength > MAX_PAYLOAD_SIZE
       || !IsValidMessageType(h.messageType) {
      return None;
    }
    return Some(h);
  }

  // ---------------------------------------------------------------------------
  // Canonical signed message
  // ---------------------------------------------------------------------------

  datatype SignedMessage = SignedMessage(
    version: U16, server: Identity, device: Identity, operation: U16,
    requestId: U32, sessionId: U64, nonce: Nonce, timestamp: U64)

  const DEFAULT_MESSAGE :=
    SignedMessage(SIGNED_MESSAGE_VERSION, seq(16, _ => 0), seq(16, _ => 0), 0, 0, 0, seq(32, _ => 0), 0)

  predicate AcceptableMessage(m: SignedMessage) {
    m.version == SIGNED_MESSAGE_VERSION && IsValidMessageType(m.operation)
  }

  /** The 88 octets that are signed. */
  function Canonical(m: SignedMessage): (s: Octets)
    ensures |s| == CANONICAL_SIGNED_MESSAGE_SIZE
  {
    BigEndian(m.version, 2) + m.server + m.device + BigEndian(m.operation, 2)
    + BigEndian(m.requestId, 4) + BigEndian(m.sessionId, 8) + m.nonce + BigEndian(m.timestamp, 8)
  }

  function ReadMessage(s: Octets): SignedMessage
    requires |s| == CANONICAL_SIGNED_MESSAGE_SIZE
  {
    SignedMessage(ReadU16(s[..2]), s[2..18], s[18..34], ReadU16(s[34..36]),
                  ReadU32(s[36..40]), ReadU64(s[40..48]), s[48..80], ReadU64(s[80..88]))
  }

  function DecodeMessage(s: Octets): Option<SignedMessage> {
    if |s| != CANONICAL_SIGNED_MESSAGE_SIZE then None
    else if AcceptableMessage(ReadMessage(s)) then Some(ReadMessage(s))
    else None
  }

  /** Octet by octet: which messages are accepted, and what is read from them. */
  lemma {:induction false} MessageAcceptedExactly(s: Octets, m: SignedMessage)
    ensures DecodeMessage(s) == Some(m) <==>
            && |s| == 88 && s[0] == 1 && s[1] == 0 && s[34] == 0 && KnownOpcode(s[35])
            && m.version == 0x0100 && m.server == s[2..18] && m.device == s[18..34] && m.operation == s[35]
            && m.requestId == Value(s[36..40]) && m.sessionId == Value(s[40..48])
            && m.nonce == s[48..80] && m.timestamp == Value(s[80..88])
  {
    hide Value;
    if |s| == CANONICAL_SIGNED_MESSAGE_SIZE {
      TwoOctets(s[..2]);
      TwoOctets(s[34..36]);
    }
  }

  lemma {:induction false} MessageReadsBack(m: SignedMessage)
    ensures ReadMessage(Canonical(m)) == m
  {
    var s := Canonical(m);
    assert s[..2] == BigEndian(m.version, 2);
    assert s[2..18] == m.server;
    assert s[18..34] == m.device;
    assert s[34..36] == BigEndian(m.operation, 2);
    assert s[36..40] == BigEndian(m.requestId, 4);
    assert s[40..48] == BigEndian(m.sessionId, 8);
    assert s[48..80] == m.nonce;
    assert s[80..88] == BigEndian(m.timestamp, 8);
    FieldRoundTrip(m.version, 2);
    FieldRoundTrip(m.operation, 2);
    FieldRoundTrip(m.requestId, 4);
    FieldRoundTrip(m.sessionId, 8);
    FieldRoundTrip(m.timestamp, 8);
  }

  lemma {:induction false} MessageReprints(s: Octets)
    requires |s| == CANONICAL_SIGNED_MESSAGE_SIZE
    ensures Canonical(ReadMessage(s)) == s
  {
    hide BigEndian, Value;
    BigEndianOfValue(s[..2]);
    BigEndianOfValue(s[34..36]);
    BigEndianOfValue(s[36..40]);
    BigEndianOfValue(s[40..48]);
    BigEndianOfValue(s[80..88]);
  }

  /**
    The verifier re-serializes the parsed message and checks the signature over that. For every
    accepted buffer these are the octets that were received; and the accepted buffers are exactly
    the canonical forms of acceptable messages.
    */
  lemma {:induction false} VerifiedBytesAreTransmittedBytes(s: Octets)
    ensures forall m :: DecodeMessage(s) == Some(m) ==> Canonical(m) == s
    ensures DecodeMessage(s).Some? <==> exists m :: AcceptableMessage(m) && Canonical(m) == s
    ensures forall m :: AcceptableMessage(m) ==> DecodeMessage(Canonical(m)) == Some(m)
  {
    if |s| == CANONICAL_SIGNED_MESSAGE_SIZE {
      MessageReprints(s);
    }
    forall m: SignedMessage
      ensures ReadMessage(Canonical(m)) == m
    {
      MessageReadsBack(m);
    }
  }

  function MessageImage(m: SignedMessage): (s: Octets)
    ensures |s| == CANONICAL_SIGNED_MESSAGE_SIZE
  {
    LittleEndian(m.version, 2) + m.server + m.device + LittleEndian(m.operation, 2)
    + LittleEndian(m.requestId, 4) + LittleEndian(m.sessionId, 8) + m.nonce + LittleEndian(m.timestamp, 8)
  }

  function LoadMessageImage(s: Octets): SignedMessage
    requires |s| == CANONICAL_SIGNED_MESSAGE_SIZE
  {
    SignedMessage(Load16(s[..2]), s[2..18], s[18..34], Load16(s[34..36]),
                  Load32(s[36..40]), Load64(s[40..48]), s[48..80], Load64(s[80..88]))
  }

  method SerializeSignedMessage(msg: SignedMessage) returns (buf: Octets)
    ensures buf == Canonical(msg)
  {
    var net := DEFAULT_MESSAGE;
    net := net.(version := Swap16(msg.version));
    net := net.(server := msg.server);
    net := net.(device := msg.device);
    net := net.(operation := Swap16(msg.operation));
    net := net.(requestId := Swap32(msg.requestId));
    net := net.(sessionId := Swap64(msg.sessionId));
    net := net.(nonce := msg.nonce);
    net := net.(timestamp := Swap64(msg.timestamp));
    buf := MessageImage(net);
    StoreSwapped(msg.version, 2);
    StoreSwapped(msg.operation, 2);
    StoreSwapped(msg.requestId, 4);
    StoreSwapped(msg.sessionId, 8);
    StoreSwapped(msg.timestamp, 8);
  }

  method DeserializeSignedMessage(data: Octets) returns (result: Option<SignedMessage>)
    ensures result == DecodeMessage(data)
  {
    if |data| != CANONICAL_SIGNED_MESSAGE_SIZE {
      return None;
    }
    var net := LoadMessageImage(data);
    var msg := DEFAULT_MESSAGE;
    msg := msg.(version := Swap16(net.version));
    msg := msg.(server := net.server);
    msg := msg.(device := net.device);
    msg := msg.(operation := Swap16(net.operation));
    msg := msg.(requestId := Swap32(net.requestId));
    msg := msg.(sessionId := Swap64(net.sessionId));
    msg := msg.(nonce := net.nonce);
    msg := msg.(timestamp := Swap64(net.timestamp));
    LoadSwapped(data[..2]);
    LoadSwapped(data[34..36]);
    LoadSwapped(data[36..40]);
    LoadSwapped(data[40..48]);
    LoadSwapped(data[80..88]);
    assert msg == ReadMessage(data);
    if msg.version != SIGNED_MESSAGE_VERSION || !IsValidMessageType(msg.operation) {
      return None;
    }
    return Some(msg);
  }

  // ---------------------------------------------------------------------------
  // The phone's serializer
  // ---------------------------------------------------------------------------

  const MAX_DART_INT: U64 := 0x7FFF_FFFF_FFFF_FFFF

  /** Dart's BigInt.toInt() clamps to the signed 64-bit range. */
  function ToDartInt(v: U64): U64 {
    if v <= MAX_DART_INT then v else MAX_DART_INT
  }

  /** What the phone's writer puts in the buffer: the two 64-bit fields pass through toInt(). */
  function PhoneView(m: SignedMessage): SignedMessage {
    m.(sessionId := ToDartInt(m.sessionId), timestamp := ToDartInt(m.timestamp))
  }

  /** ByteData.setUint8 repeated over a field. */
  method CopyField(bd: array<Byte>, offset: nat, field: Octets)
    requires offset + |field| <= bd.Length
    modifies bd
    ensures bd[..] == old(bd[..offset]) + field + old(bd[offset + |field|..])
  {
    for i := 0 to |field|
      invariant bd[..] == old(bd[..offset]) + field[..i] + old(bd[offset + i..])
    {
      bd[offset + i] := field[i];
    }
  }

  /** The offset writer: produces the canonical octets of what the phone holds. */
  method ToCanonicalBytes(m: SignedMessage) returns (bytes: Octets)
    ensures bytes == Canonical(PhoneView(m))
  {
    var bd := new Byte[88](_ => 0);
    var offset := 0;
    CopyField(bd, offset, BigEndian(m.version, 2));
    offset := offset + 2;
    CopyField(bd, offset, m.server);
    offset := offset + 16;
    assert bd[..offset] == BigEndian(m.version, 2) + m.server;
    CopyField(bd, offset, m.device);
    offset := offset + 16;
    CopyField(bd, offset, BigEndian(m.operation, 2));
    offset := offset + 2;
    assert bd[..offset] == BigEndian(m.version, 2) + m.server + m.device + BigEndian(m.operation, 2);
    CopyField(bd, offset, BigEndian(m.requestId, 4));
    offset := offset + 4;
    CopyField(bd, offset, BigEndian(ToDartInt(m.sessionId), 8));
    offset := offset + 8;
    assert bd[..offset] == BigEndian(m.version, 2) + m.server + m.device + BigEndian(m.operation, 2)
                           + BigEndian(m.requestId, 4) + BigEndian(ToDartInt(m.sessionId), 8);
    CopyField(bd, offset, m.nonce);
    offset := offset + 32;
    CopyField(bd, offset, BigEndian(ToDartInt(m.timestamp), 8));
    offset := offset + 8;
    bytes := bd[..];
  }

  /**
    The two serializers agree exactly on messages whose 64-bit fields are below 2^63. Of any other
    the PC reads the phone's octets as the same message with 2^63 - 1 in the field that is not.
    */
  lemma {:induction false} SerializersAgree(m: SignedMessage)
    ensures Canonical(PhoneView(m)) == Canonical(m)
            <==> m.sessionId < 0x8000_0000_0000_0000 && m.timestamp < 0x8000_0000_0000_0000
    ensures var sent := ReadMessage(Canonical(PhoneView(m)));
            && sent.(sessionId := m.sessionId, timestamp := m.timestamp) == m
            && sent.sessionId == (if m.sessionId < 0x8000_0000_0000_0000 then m.sessionId else 0x7FFF_FFFF_FFFF_FFFF)
            && sent.timestamp == (if m.timestamp < 0x8000_0000_0000_0000 then m.timestamp else 0x7FFF_FFFF_FFFF_FFFF)
  {
    MessageReadsBack(m);
    MessageReadsBack(PhoneView(m));
  }
}
