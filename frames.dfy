/** The complete byte layout of every frame this client writes: CONNECT
    (section 3.1), PUBLISH with QoS 1 (section 3.3), SUBSCRIBE (section 3.8),
    PINGREQ (section 3.12), PUBACK (section 3.4) and DISCONNECT (section 3.14).
    MQTTClient.cpp and MQTTSocket.cpp lay these out identically; both are
    proved against the functions below. */
module Frames {
  import opened Wire

  /** What `sendConnectPacket` / `sendConnectRequest` take from the session:
      a `NULL` user name or password is `None`. */
  datatype ConnectConfig = ConnectConfig(
    clientId: seq<byte>,
    username: Option<seq<byte>>,
    password: Option<seq<byte>>,
    keepAlive: uint16)

  /** The protocol name "MQTT" (section 3.1.2.1). */
  const ProtocolName: seq<byte> := [0x4D, 0x51, 0x54, 0x54]

  /** Protocol level 4 is MQTT 3.1.1 (section 3.1.2.2). */
  const ProtocolLevel: byte := 4

  /** Connect flags (section 3.1.2.3): clean session always, then the user
      name and password bits. */
  function ConnectFlags(hasUsername: bool, hasPassword: bool): byte
  {
    2 + (if hasUsername then 128 else 0) + (if hasPassword then 64 else 0)
  }

  function OptionalLength(s: Option<seq<byte>>): nat
  {
    if s.Some? then 2 + |s.value| else 0
  }

  function OptionalString(s: Option<seq<byte>>): seq<byte>
  {
    if s.Some? then LengthString(s.value) else []
  }

  /** `packetlength` as `sendConnectPacket` computes it from `strlen`. */
  function ConnectLength(c: ConnectConfig): nat
  {
    2 + 4 + 1 + 1 + 2 + 2 + |c.clientId| + OptionalLength(c.username) + OptionalLength(c.password)
  }

  function ConnectBody(c: ConnectConfig): seq<byte>
  {
    LengthString(ProtocolName) + [ProtocolLevel, ConnectFlags(c.username.Some?, c.password.Some?)]
    + EncodeShort(c.keepAlive) + LengthString(c.clientId)
    + OptionalString(c.username) + OptionalString(c.password)
  }

  function ConnectFrame(c: ConnectConfig): seq<byte>
  {
    [ControlByte(1, 0)] + EncodeLength(ConnectLength(c)) + ConnectBody(c)
  }

  /** PUBLISH flags (section 3.3.1): QoS 1 always, DUP on a retransmission,
      RETAIN as requested. */
  function PublishFlags(retain: bool, duplicate: bool): byte
  {
    2 + (if duplicate then 8 else 0) + (if retain then 1 else 0)
  }

  /** `packetlength` of a QoS-1 PUBLISH: topic with its prefix, packet id, payload. */
  function PublishLength(topic: seq<byte>, payload: seq<byte>): nat
  {
    2 + |topic| + 2 + |payload|
  }

  function PublishBody(topic: seq<byte>, payload: seq<byte>, packetId: uint16): seq<byte>
  {
    LengthString(topic) + EncodeShort(packetId) + payload
  }

  function PublishFrame(topic: seq<byte>, payload: seq<byte>, flags: byte, packetId: uint16): seq<byte>
    requires flags < 16
  {
    [ControlByte(3, flags)] + EncodeLength(PublishLength(topic, payload)) + PublishBody(topic, payload, packetId)
  }

  function SubscribeLength(filter: seq<byte>): nat
  {
    2 + 2 + |filter| + 1
  }

  function SubscribeBody(packetId: uint16, filter: seq<byte>, qos: byte): seq<byte>
  {
    EncodeShort(packetId) + LengthString(filter) + [qos]
  }

  /** SUBSCRIBE carries the fixed flags 0b0010 (section 3.8.1). */
  function SubscribeFrame(packetId: uint16, filter: seq<byte>, qos: byte): seq<byte>
  {
    [ControlByte(8, 2)] + EncodeLength(SubscribeLength(filter)) + SubscribeBody(packetId, filter, qos)
  }

  function PingRequestFrame(): seq<byte>
  {
    [ControlByte(12, 0)] + EncodeLength(0)
  }

  function PublishAckFrame(packetId: uint16): seq<byte>
  {
    [ControlByte(4, 0)] + EncodeLength(2) + EncodeShort(packetId)
  }

  function DisconnectFrame(): seq<byte>
  {
    [ControlByte(14, 0)] + EncodeLength(0)
  }

  /** The fixed header and variable header of a CONNECT. */
  function ConnectHeader(c: ConnectConfig): seq<byte>
  {
    [ControlByte(1, 0)] + EncodeLength(ConnectLength(c)) + LengthString(ProtocolName)
    + [ProtocolLevel] + [ConnectFlags(c.username.Some?, c.password.Some?)] + EncodeShort(c.keepAlive)
  }

  /** The payload of a CONNECT: client id, then the credentials given. */
  function ConnectPayload(c: ConnectConfig): seq<byte>
  {
    LengthString(c.clientId) + OptionalString(c.username) + OptionalString(c.password)
  }

  /** The CONNECT frame is its header followed by its payload. */
  lemma ConnectFrameSplit(c: ConnectConfig)
    ensures ConnectFrame(c) == ConnectHeader(c) + ConnectPayload(c)
  {
    var v := LengthString(ProtocolName) + [ProtocolLevel, ConnectFlags(c.username.Some?, c.password.Some?)]
             + EncodeShort(c.keepAlive);
    assert ConnectBody(c) == v + ConnectPayload(c);
  }

  lemma AppendAssoc(a: seq<byte>, b: seq<byte>, c: seq<byte>)
    ensures a + b + c == a + (b + c)
  {
  }

  /** The header is what the first six writes of `sendConnectPacket` add
      to `base`, in order. */
  lemma ConnectHeaderParts(c: ConnectConfig, base: seq<byte>, header: seq<byte>, w1: seq<byte>, w2: seq<byte>,
                           w3: seq<byte>, w4: seq<byte>)
    requires header == base + [ControlByte(1, 0)] + EncodeLength(ConnectLength(c))
    requires w1 == header + LengthString(ProtocolName)
    requires w2 == w1 + [ProtocolLevel]
    requires w3 == w2 + [ConnectFlags(c.username.Some?, c.password.Some?)]
    requires w4 == w3 + EncodeShort(c.keepAlive)
    ensures w4 == base + ConnectHeader(c)
  {
  }

  /** The payload is what the remaining writes add, in order. */
  lemma ConnectPayloadParts(c: ConnectConfig, base: seq<byte>, w1: seq<byte>, w2: seq<byte>, w3: seq<byte>)
    requires w1 == base + LengthString(c.clientId)
    requires w2 == w1 + OptionalString(c.username)
    requires w3 == w2 + OptionalString(c.password)
    ensures w3 == base + ConnectPayload(c)
  {
  }

  /** The SUBSCRIBE frame is what `sendSubscribeRequest` writes, in order. */
  lemma SubscribeFrameParts(packetId: uint16, filter: seq<byte>, qos: byte,
                            base: seq<byte>, header: seq<byte>, w1: seq<byte>, w2: seq<byte>, w3: seq<byte>)
    requires header == base + [ControlByte(8, 2)] + EncodeLength(SubscribeLength(filter))
    requires w1 == header + EncodeShort(packetId)
    requires w2 == w1 + LengthString(filter)
    requires w3 == w2 + [qos]
    ensures w3 == base + SubscribeFrame(packetId, filter, qos)
  {
    var h0 := [ControlByte(8, 2)];
    var h := h0 + EncodeLength(SubscribeLength(filter));
    AppendAssoc(base, h0, EncodeLength(SubscribeLength(filter)));
    var f1 := h + EncodeShort(packetId);
    AppendAssoc(base, h, EncodeShort(packetId));
    var f2 := f1 + LengthString(filter);
    AppendAssoc(base, f1, LengthString(filter));
    AppendAssoc(base, f2, [qos]);
    AppendAssoc(h, EncodeShort(packetId), LengthString(filter));
    AppendAssoc(h, EncodeShort(packetId) + LengthString(filter), [qos]);
  }

  /** The PUBLISH frame is what `sendPublishRequest` / `sendPublishPacket`
      write, in order. */
  lemma PublishFrameParts(topic: seq<byte>, payload: seq<byte>, flags: byte, packetId: uint16,
                          base: seq<byte>, header: seq<byte>, w1: seq<byte>, w2: seq<byte>, w3: seq<byte>)
    requires flags < 16
    requires header == base + [ControlByte(3, flags)] + EncodeLength(PublishLength(topic, payload))
    requires w1 == header + LengthString(topic)
    requires w2 == w1 + EncodeShort(packetId)
    requires w3 == w2 + payload
    ensures w3 == base + PublishFrame(topic, payload, flags, packetId)
  {
    var h0 := [ControlByte(3, flags)];
    var h := h0 + EncodeLength(PublishLength(topic, payload));
    AppendAssoc(base, h0, EncodeLength(PublishLength(topic, payload)));
    var f1 := h + LengthString(topic);
    AppendAssoc(base, h, LengthString(topic));
    var f2 := f1 + EncodeShort(packetId);
    AppendAssoc(base, f1, EncodeShort(packetId));
    AppendAssoc(base, f2, payload);
    AppendAssoc(h, LengthString(topic), EncodeShort(packetId));
    AppendAssoc(h, LengthString(topic) + EncodeShort(packetId), payload);
  }

  /** Section 3.1.2.3: bit 1 (clean session) is always set, bit 0 (reserved)
      never, bit 7 exactly when a user name is given, bit 6 exactly when a
      password is given, and neither will nor its QoS/retain bits are used. */
  lemma ConnectFlagsBits(hasUsername: bool, hasPassword: bool)
    ensures ConnectFlags(hasUsername, hasPassword) % 2 == 0
    ensures ConnectFlags(hasUsername, hasPassword) / 2 % 2 == 1
    ensures ConnectFlags(hasUsername, hasPassword) / 4 % 16 == 0
    ensures (ConnectFlags(hasUsername, hasPassword) / 64 % 2 == 1) == hasPassword
    ensures (ConnectFlags(hasUsername, hasPassword) / 128 == 1) == hasUsername
  {
  }

  /** Section 3.3.1: the QoS field (bits 1-2) is 1, bit 3 is DUP, bit 0 is RETAIN. */
  lemma PublishFlagsBits(retain: bool, duplicate: bool)
    ensures PublishFlags(retain, duplicate) < 16
    ensures PublishFlags(retain, duplicate) / 2 % 4 == 1
    ensures (PublishFlags(retain, duplicate) / 8 == 1) == duplicate
    ensures (PublishFlags(retain, duplicate) % 2 == 1) == retain
  {
  }

  /** Distinct flag arguments give distinct flags: the frame says which
      combination was meant. */
  lemma PublishFlagsInjective(r1: bool, d1: bool, r2: bool, d2: bool)
    requires PublishFlags(r1, d1) == PublishFlags(r2, d2)
    ensures r1 == r2 && d1 == d2
  {
    PublishFlagsBits(r1, d1);
    PublishFlagsBits(r2, d2);
  }

  /** The Remaining Length written in a CONNECT counts exactly the bytes that
      follow it, as long as every string fits its 16-bit prefix. */
  lemma ConnectLengthMatchesBody(c: ConnectConfig)
    requires |c.clientId| <= MaxStringLength
    requires c.username.Some? ==> |c.username.value| <= MaxStringLength
    requires c.password.Some? ==> |c.password.value| <= MaxStringLength
    ensures |ConnectBody(c)| == ConnectLength(c)
    ensures ConnectFrame(c)[0] == 0x10
    ensures |ConnectFrame(c)| == 1 + |EncodeLength(ConnectLength(c))| + ConnectLength(c)
  {
    LengthStringSize(ProtocolName);
    LengthStringSize(c.clientId);
    if c.username.Some? { LengthStringSize(c.username.value); }
    if c.password.Some? { LengthStringSize(c.password.value); }
  }

  /** The same for PUBLISH; with an over-long topic the topic field is
      dropped but still counted, so the declared length overstates the body. */
  lemma PublishLengthMatchesBody(topic: seq<byte>, payload: seq<byte>, packetId: uint16)
    ensures |topic| <= MaxStringLength ==> |PublishBody(topic, payload, packetId)| == PublishLength(topic, payload)
    ensures |topic| > MaxStringLength ==> |PublishBody(topic, payload, packetId)| + 2 + |topic| == PublishLength(topic, payload)
  {
    LengthStringSize(topic);
  }

  lemma SubscribeLengthMatchesBody(packetId: uint16, filter: seq<byte>, qos: byte)
    requires |filter| <= MaxStringLength
    ensures |SubscribeBody(packetId, filter, qos)| == SubscribeLength(filter)
  {
    LengthStringSize(filter);
  }

  lemma FixedFrames(packetId: uint16)
    ensures PingRequestFrame() == [0xC0, 0x00]
    ensures DisconnectFrame() == [0xE0, 0x00]
    ensures PublishAckFrame(packetId) == [0x40, 0x02, packetId / 256, packetId % 256]
  {
  }
}
