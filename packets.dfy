/** The frames `MQTTSocket::receive` can hand back (MQTTSocket.h). Each C++
    class under `Packet` is one constructor here; its `const` fields are the
    constructor's fields, so every getter returns exactly what the packet was
    built with and nothing can change it afterwards. */
module Packets {
  import opened Wire

  datatype Packet =
    | ConnectAcknowledgement(flags: byte, kind: byte, sessionPresent: byte, returnCode: byte)
    | PublishNotification(flags: byte, kind: byte, topic: seq<byte>, packetId: uint16, payload: seq<byte>)
    | SubscribeAcknowledgement(flags: byte, kind: byte, packetId: uint16, returnCode: byte)
    | PublishAcknowledgement(flags: byte, kind: byte, packetId: uint16)
    | PingResponse(flags: byte, kind: byte)
  {
    /** Return code 0 means accepted (section 3.2.2.3). */
    predicate IsConnectionAccepted()
      requires ConnectAcknowledgement?
    {
      returnCode == 0
    }

    /** 0x80 is the only SUBACK failure code (section 3.9.3). */
    predicate IsSubscriptionAccepted()
      requires SubscribeAcknowledgement?
    {
      returnCode != 0x80
    }

    predicate HasPacketId(p: uint16)
      requires SubscribeAcknowledgement? || PublishAcknowledgement?
    {
      p == packetId
    }

    /** `isDuplicate` as written: `getFlags() & 8 > 0` parses as
        `getFlags() & (8 > 0)`, that is `getFlags() & 1`, the RETAIN bit. */
    predicate IsDuplicate()
      requires PublishNotification?
    {
      flags % 2 == 1
    }

    /** What `isDuplicate` is meant to test: the DUP bit, bit 3 of the flags
        (section 3.3.1.1). */
    predicate IsDuplicateFlag()
      requires PublishNotification?
    {
      flags / 8 % 2 == 1
    }
  }

  /** The two bits of the flags nibble are independent: as written,
      `isDuplicate` answers for RETAIN and ignores DUP. */
  lemma IsDuplicateTestsRetainBit(f: byte, topic: seq<byte>, id: uint16, payload: seq<byte>)
    requires f < 16
    ensures PublishNotification(f, 3, topic, id, payload).IsDuplicate() == (f % 2 == 1)
    ensures PublishNotification(0x0A, 3, topic, id, payload).IsDuplicateFlag()
    ensures !PublishNotification(0x0A, 3, topic, id, payload).IsDuplicate()
    ensures PublishNotification(0x03, 3, topic, id, payload).IsDuplicate()
    ensures !PublishNotification(0x03, 3, topic, id, payload).IsDuplicateFlag()
  {
  }
}
