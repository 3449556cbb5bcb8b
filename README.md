# MQTT client for Arduino, modelled in Dafny

This project models the core of a small MQTT 3.1.1 client written in C++
for Arduino boards. The client has two parts.

- `MQTTClient` runs one session over a `Client` transport. It sends CONNECT
  and checks the CONNACK. It keeps the QoS-1 publishes that have no PUBACK
  yet in a singly linked list of `PublishPacket` nodes. On each step it
  either reads four bytes of acknowledgement, drops a publish that was sent
  `TRY_TIME` (10) times, or resends the head and rotates it to the back.
- `MQTTSocket` assembles each frame in a 256-byte write buffer and sends it
  on `flush`. It latches write and read errors, numbers its own publishes
  and subscriptions, and turns incoming frames into `Packet` values:
  CONNACK, PUBLISH, PUBACK, SUBACK and PINGRESP.

The model follows the code's own form:

- Pure encoders and decoders are functions with lemmas: `Wire`, `Frames`,
  `SocketRead` and `Session`.
- The queue is a sequence of values with lemmas about enqueue, remove,
  rotate and the retry count (`PendingQueue`).
- The linked list is a class of nodes (`PublishList.PublishPacket`).
  `MQTTClient` keeps a ghost sequence of nodes and a ghost queue of values.
  Its invariant `Valid` ties the `head`/`next`/`tail` links to them. Every
  list method is proved to turn the queue into the matching `PendingQueue`
  function of the old queue.
- The socket is a class over an `array<byte>` write buffer (`Socket`). Its
  read methods are proved to compute the `SocketRead` functions.

The main results:

- Every frame the client writes has an exact byte layout, in `Frames`.
- `readPacketLength` inverts `writePacketLength` for every length.
- `receive` turns a PUBLISH or a PUBACK as the encoders write it back into
  the same packet, and decodes CONNACK, SUBACK and PINGRESP from the layouts
  of MQTT 3.1.1. It skips every other frame exactly, including the CONNECT,
  SUBSCRIBE, PINGREQ and DISCONNECT the client sends, for which there is no
  `Packet`.
- One step of `transmitPublishPackets` is determined by `StepAction`,
  `StepQueue`, `StepOutput` and `StepDelay`. Every step keeps packet ids
  unique and try counts bounded.
- The retransmission order is round robin: after `n` rotations item `n` is
  the head, and a full round gives the queue back.

Transport effects are parameters:

- A `Client` write failure is a `linkFails` flag given to each flush.
- `client->connect(host, port)` is a `reachable` flag.
- The bytes the transport will deliver are a field set by the constructor.
- The static `MQTTClient::current` is the field of a `Registry` object
  that all clients share.

## Model

| member | source | states |
|---|---|---|
| Wire.ControlByteSplits | Src/MQTT_Client_Example/MQTTClient.cpp:367-369 | `type << 4 \| flags` keeps type and flags apart: the high nibble gives back the type and the low nibble the flags |
| Wire.ShortRoundTrip | Src/MQTT_Client_Example/MQTTClient.cpp:399-402 | `writeShort` emits two bytes, high byte first, and reading them big-endian gives the value back |
| Wire.EncodeLengthShape | Src/MQTT_Client_Example/MQTTClient.cpp:371-384 | the length encoding is never empty, every byte but the last has the continuation bit, and the last does not |
| Wire.EncodeLength | Src/MQTT_Client_Example/MQTTSocket.cpp:113-126 | reference definition of `writePacketLength`: seven value bits per byte, least significant group first, bit 7 on every byte followed by another (shape, size and inverse in `EncodeLengthShape`, `EncodeLengthSize` and `NextLengthOf`) |
| Wire.EncodeLengthSize | Src/MQTT_Client_Example/MQTTSocket.cpp:113-126 | the encoding takes at most k+1 bytes exactly when the value is below 128^(k+1) |
| Wire.EncodeLengthFitsFourBytes | Src/MQTT_Client_Example/MQTTSocket.cpp:113-126 | at most four bytes exactly for lengths up to 268435455, the limit of section 2.2.3 of MQTT 3.1.1 |
| Wire.EncodeLengthExamples | Src/MQTT_Client_Example/MQTTSocket.cpp:113-126 | the boundary values of the Remaining Length table in section 2.2.3 encode as the standard lists them |
| Wire.LengthStringSize | Src/MQTT_Client_Example/MQTTSocket.cpp:128-135 | a string of at most 65535 bytes is written with a two-byte prefix; a longer one writes nothing |
| Packets.IsDuplicateTestsRetainBit | Src/MQTT_Client_Example/MQTTSocket.h:58 | as written, `isDuplicate` is exactly the RETAIN bit: flags 0x0A (DUP set) give false and flags 0x03 (DUP clear) give true |
| Packets.Packet.IsConnectionAccepted | Src/MQTT_Client_Example/MQTTSocket.h:44 | a CONNACK is accepted exactly when its return code is 0, as section 3.2.2.3 of MQTT 3.1.1 defines |
| Packets.Packet.IsSubscriptionAccepted | Src/MQTT_Client_Example/MQTTSocket.h:73 | a SUBACK is accepted unless its return code is 0x80, the failure code of section 3.9.3 |
| Packets.Packet.HasPacketId | Src/MQTT_Client_Example/MQTTSocket.h:72-84 | a SUBACK or PUBACK answers exactly the request whose id it carries |
| Packets.Packet.IsDuplicate | Src/MQTT_Client_Example/MQTTSocket.h:58 | `isDuplicate` as written, which by C++ precedence tests bit 0 (RETAIN); see "## Findings" |
| Packets.Packet.IsDuplicateFlag | Src/MQTT_Client_Example/MQTTSocket.h:58 | the intended test: the DUP bit, bit 3 of the flags (section 3.3.1.1) |
| Frames.ConnectFrameSplit | Src/MQTT_Client_Example/MQTTClient.cpp:233-279 | the CONNECT frame is its fixed and variable header followed by its payload |
| Frames.ConnectHeaderParts | Src/MQTT_Client_Example/MQTTSocket.cpp:35-40 | the first six writes of a CONNECT, in source order, append exactly the header |
| Frames.ConnectPayloadParts | Src/MQTT_Client_Example/MQTTSocket.cpp:41-45 | the client id and then each credential given append exactly the payload |
| Frames.SubscribeFrameParts | Src/MQTT_Client_Example/MQTTSocket.cpp:58-62 | the writes of `sendSubscribeRequest`, in order, append exactly the SUBSCRIBE frame |
| Frames.PublishFrameParts | Src/MQTT_Client_Example/MQTTSocket.cpp:82-86 | the writes of `sendPublishRequest`, in order, append exactly the PUBLISH frame |
| Frames.ConnectFlagsBits | Src/MQTT_Client_Example/MQTTClient.cpp:252-256 | the connect flags always have clean session, never the reserved bit, will or its QoS/retain; bit 7 is set exactly with a user name and bit 6 exactly with a password |
| Frames.PublishFlagsBits | Src/MQTT_Client_Example/MQTTClient.cpp:316-320 | the PUBLISH flags have QoS 1, DUP exactly for a duplicate, RETAIN exactly when asked, and fit the low nibble |
| Frames.PublishFlagsInjective | Src/MQTT_Client_Example/MQTTSocket.cpp:69-79 | different retain/duplicate requests give different flags |
| Frames.ConnectLengthMatchesBody | Src/MQTT_Client_Example/MQTTSocket.cpp:23-27 | when every string fits its prefix, the computed `packetlength` equals the number of bytes that follow it, and the frame starts with 0x10 |
| Frames.PublishLengthMatchesBody | Src/MQTT_Client_Example/MQTTClient.cpp:315 | the PUBLISH `packetlength` counts the body exactly when the topic fits; an over-long topic is counted but not written |
| Frames.SubscribeLengthMatchesBody | Src/MQTT_Client_Example/MQTTSocket.cpp:57 | the SUBSCRIBE `packetlength` counts the body exactly |
| Frames.FixedFrames | Src/MQTT_Client_Example/MQTTSocket.cpp:92-107 | PINGREQ is C0 00, DISCONNECT is E0 00, and PUBACK is 40 02 followed by the id, high byte first |
| PendingQueue.MaxId | Src/MQTT_Client_Example/MQTTClient.cpp:134-143 | the scan result is at least 1, is at least every pending id, and is 1 or one of the ids |
| PendingQueue.NewId | Src/MQTT_Client_Example/MQTTClient.cpp:134-146 | reference definition of the id `enqueuePublishPacket` assigns: 1 for an empty list, otherwise the largest pending id plus one as a `uint16_t` (freshness in `NewIdFresh`, the wrap in `NewIdWraps`) |
| PendingQueue.Enqueued | Src/MQTT_Client_Example/MQTTClient.cpp:148-151 | reference definition of `enqueuePublishPacket` on the queue: the new publish in front, untried (shape in `EnqueuedShape`) |
| PendingQueue.EnqueuedShape | Src/MQTT_Client_Example/MQTTClient.cpp:148-153 | the queue grows by one; the new untried item with the new id is the head, and the old items follow in order |
| PendingQueue.NewIdFresh | Src/MQTT_Client_Example/MQTTClient.cpp:134-148 | below 65535 the new id is non-zero, differs from every pending id, and is the largest plus one |
| PendingQueue.NewIdOfEmpty | Src/MQTT_Client_Example/MQTTClient.cpp:134 | an empty list numbers from 1 |
| PendingQueue.NewIdWraps | Src/MQTT_Client_Example/MQTTClient.cpp:145 | with id 65535 pending the `uint16_t` increment wraps and the new publish gets id 0; while it is pending the next one gets 0 too, so ids are no longer unique |
| PendingQueue.EnqueuedKeepsInvariants | Src/MQTT_Client_Example/MQTTClient.cpp:132-156 | enqueueing keeps ids unique and try counts bounded, given the largest id is below 65535 |
| PendingQueue.LeastFree | Src/MQTT_Client_Example/MQTTClient.cpp:134-146 | the smallest id from `c` on that no pending publish carries, with every id between `c` and it taken; 0 only when every id from `c` to 65535 is taken |
| PendingQueue.FreshId | Src/MQTT_Client_Example/MQTTClient.cpp:134-146 | the corrected id: the old one while it does not wrap, else the smallest free one (`FreshIdFresh`) |
| PendingQueue.EnqueuedFresh | Src/MQTT_Client_Example/MQTTClient.cpp:148-151 | `enqueuePublishPacket` with the corrected id |
| PendingQueue.FreshIdFresh | Src/MQTT_Client_Example/MQTTClient.cpp:134-146 | with fewer than 65535 publishes pending the corrected id is non-zero and carried by none of them, and equals the old id whenever that does not wrap |
| PendingQueue.EnqueuedFreshKeepsInvariants | Src/MQTT_Client_Example/MQTTClient.cpp:132-156 | the corrected enqueue keeps ids unique and non-zero and try counts bounded, needing only that an id is left |
| PendingQueue.Removed | Src/MQTT_Client_Example/MQTTClient.cpp:199-221 | reference definition of `removePublishPacket` on the queue: the first item with the id is taken out, if any (`RemovedAbsent`, `RemovedPresent`) |
| PendingQueue.IndexOf | Src/MQTT_Client_Example/MQTTClient.cpp:204-220 | the scan stops at the first item with the id, or at the end when none has it |
| PendingQueue.RemovedAbsent | Src/MQTT_Client_Example/MQTTClient.cpp:204-221 | removing an id nobody carries changes nothing |
| PendingQueue.RemovedPresent | Src/MQTT_Client_Example/MQTTClient.cpp:205-215 | exactly the first item with the id goes: the items before and after keep their order, and the multiset loses that one item |
| PendingQueue.IndexOfFirst | Src/MQTT_Client_Example/MQTTClient.cpp:204-205 | the scan finds the first matching position and no later one |
| PendingQueue.RemovedHead | Src/MQTT_Client_Example/MQTTClient.cpp:175-178 | removing the head's id drops exactly the head |
| PendingQueue.RemovedUnique | Src/MQTT_Client_Example/MQTTClient.cpp:345-346 | with unique ids, the acknowledged id is gone afterwards and ids stay unique |
| PendingQueue.RemovedBounded | Src/MQTT_Client_Example/MQTTClient.cpp:199-221 | removal keeps every try count within `TRY_TIME` |
| PendingQueue.RemovedItems | Src/MQTT_Client_Example/MQTTClient.cpp:206-210 | after removal, items before the removed one stay in place and items after it move up by one |
| PendingQueue.Rotated | Src/MQTT_Client_Example/MQTTClient.cpp:223-231 | reference definition of `rotatePublishPackets` on the queue: the head moves to the back when there are two or more items (`RotatedShape`) |
| PendingQueue.RotatedShape | Src/MQTT_Client_Example/MQTTClient.cpp:223-231 | with fewer than two items nothing moves; otherwise the head goes to the tail and the rest move up; the items as a multiset are the same |
| PendingQueue.RotatedTimes | Src/MQTT_Client_Example/MQTTClient.cpp:187 | repeated rotation keeps the length |
| PendingQueue.RotatedTimesShape | Src/MQTT_Client_Example/MQTTClient.cpp:184-191 | n rotations of a queue of two or more items turn it into its suffix from n followed by its prefix up to n |
| PendingQueue.RotatedFullRound | Src/MQTT_Client_Example/MQTTClient.cpp:184-191 | round robin: after n rotations item n is the head, and a full round gives the queue back |
| PendingQueue.RotatedKeepsInvariants | Src/MQTT_Client_Example/MQTTClient.cpp:223-231 | rotation keeps ids unique and try counts bounded |
| PendingQueue.Bumped | Src/MQTT_Client_Example/MQTTClient.cpp:186 | reference definition of `head->trycount++` on the queue (`BumpedKeepsInvariants`) |
| PendingQueue.BumpedKeepsInvariants | Src/MQTT_Client_Example/MQTTClient.cpp:186 | counting a send raises only the head's count by one, keeps the ids, and keeps the bound because only items below `TRY_TIME` are sent |
| Session.ByteAt | Src/MQTT_Client_Example/MQTTClient.cpp:430-432 | `readByte` returns the byte when one is waiting; when none is, the -1 from `read` turns into 255 |
| Session.Remaining | Src/MQTT_Client_Example/MQTTClient.cpp:430-440 | n reads consume n bytes, or all of them when fewer are waiting |
| Session.RemainingReads | Src/MQTT_Client_Example/MQTTClient.cpp:290-293 | reads taken one after another see the input at consecutive positions |
| Session.ShortAtPresent | Src/MQTT_Client_Example/MQTTClient.cpp:434-440 | when both bytes are there, `readShort` gives their big-endian value |
| Session.ShortAtShort | Src/MQTT_Client_Example/MQTTClient.cpp:434-440 | when only the first byte is there, the -1 of the second read subtracts one modulo 2^16 |
| Session.ConnAckAcceptedIff | Src/MQTT_Client_Example/MQTTClient.cpp:290-297 | a CONNACK is accepted exactly when four bytes are there and they read 20 02 xx 00; a missing byte reads as 255 and fails |
| Session.PubAckOfFrame | Src/MQTT_Client_Example/MQTTClient.cpp:341-345 | a PUBACK as the server sends it passes the header test and yields its id, whatever follows it |
| Session.StepAction | Src/MQTT_Client_Example/MQTTClient.cpp:163-197 | the step does nothing unless connected, current and non-empty; it reads an acknowledgement when four bytes are waiting, drops an exhausted head next, and only otherwise resends |
| Session.StepDelay | Src/MQTT_Client_Example/MQTTClient.cpp:170-188 | the next step comes 100 ms after an acknowledgement or a discard and `INTERVAL_TO_RETRY` after a resend; it is not scheduled after a skip or a failed send |
| Session.StepQueue | Src/MQTT_Client_Example/MQTTClient.cpp:163-197 | reference definition of the queue after one step: the acknowledged id removed when the four bytes are a PUBACK, the exhausted head removed, the sent head counted and rotated, otherwise unchanged (`StepKeepsInvariants`, `StepQueueMoves`, `AckRemovesAcknowledged`) |
| Session.StepOutput | Src/MQTT_Client_Example/MQTTClient.cpp:163-197 | reference definition of what one step writes: the head frame on a resend, DISCONNECT after a bad acknowledgement, nothing otherwise |
| Session.StepStops | Src/MQTT_Client_Example/MQTTClient.cpp:163-197 | the step ends the session exactly after a bad acknowledgement or a failed send |
| Session.HeadFrame | Src/MQTT_Client_Example/MQTTClient.cpp:312-336 | reference definition of the frame `sendHeadPublishPacket` writes for the head (`HeadFrameFlags`) |
| Session.StepKeepsInvariants | Src/MQTT_Client_Example/MQTTClient.cpp:163-197 | every branch of the step keeps ids unique and try counts bounded |
| Session.StepQueueMoves | Src/MQTT_Client_Example/MQTTClient.cpp:175-191 | a successful resend moves the counted head to the back and the rest up; a discard drops exactly the head |
| Session.AckRemovesAcknowledged | Src/MQTT_Client_Example/MQTTClient.cpp:338-351 | with unique ids, a PUBACK for a pending id removes exactly that item: the length drops by one, the items before and after it keep their order, and the multiset loses that one item; no item with the id is left, and an id nobody carries leaves the queue as it was |
| Session.HeadFrameFlags | Src/MQTT_Client_Example/MQTTClient.cpp:316-323 | the head is sent as PUBLISH with QoS 1, DUP exactly when it was sent before, and RETAIN as queued |
| SocketRead.FailedReadsNothing | Src/MQTT_Client_Example/MQTTSocket.cpp:264 | once the read error is latched, every read gives 0 and consumes nothing |
| SocketRead.NegativeReadLatches | Src/MQTT_Client_Example/MQTTSocket.cpp:266-272 | a negative transport result latches the error and reads 0 from then on |
| SocketRead.FailedReceivesNothing | Src/MQTT_Client_Example/MQTTSocket.cpp:176-254 | with the error latched, `receive` returns no packet and leaves the input alone |
| SocketRead.NextByte | Src/MQTT_Client_Example/MQTTSocket.cpp:263-275 | reference definition of `readByte`: 0 without reading once failed, 0 and the latch on a failed read, else the byte read (`NextByteOf`, `NegativeReadLatches`) |
| SocketRead.NextShort | Src/MQTT_Client_Example/MQTTSocket.cpp:277-283 | reference definition of `readShort`: the first byte read is the high byte (`NextShortOf`) |
| SocketRead.NextBytes | Src/MQTT_Client_Example/MQTTSocket.cpp:285-297 | reference definition of `readString(n)`: n successive reads (`NextBytesOf`, `FailedReadsNothing`) |
| SocketRead.NextLength | Src/MQTT_Client_Example/MQTTSocket.cpp:299-312 | reference definition of `readPacketLength` (`NextLengthOf`) |
| SocketRead.Received | Src/MQTT_Client_Example/MQTTSocket.cpp:176-254 | reference definition of `receive` (`ReceivePublish`, `ReceivePublishAcknowledgement`, `ReceiveSkips`, `ReceivedMatchesHeader`) |
| SocketRead.ReceivedBody | Src/MQTT_Client_Example/MQTTSocket.cpp:182-253 | reference definition of the switch of `receive` once the header is read |
| SocketRead.NextBytesOf | Src/MQTT_Client_Example/MQTTSocket.cpp:285-297 | `readString` gives back bytes that are there, and leaves what follows |
| SocketRead.NextShortOf | Src/MQTT_Client_Example/MQTTSocket.cpp:277-283 | `readShort` inverts `writeShort` |
| SocketRead.NextLengthFromOf | Src/MQTT_Client_Example/MQTTSocket.cpp:303-309 | from any accumulated length and multiplier, the loop adds the encoded value times the multiplier and stops right after the encoding |
| SocketRead.NextLengthFromStep | Src/MQTT_Client_Example/MQTTSocket.cpp:304-306 | a digit with the continuation bit adds its value times the multiplier and moves on with the multiplier times 128 |
| SocketRead.NextLengthFromLast | Src/MQTT_Client_Example/MQTTSocket.cpp:308 | a digit without the continuation bit ends the loop |
| SocketRead.NextLengthOf | Src/MQTT_Client_Example/MQTTSocket.cpp:299-312 | `readPacketLength` is the exact inverse of `writePacketLength`, for every length and whatever follows |
| SocketRead.ReadsHeader | Src/MQTT_Client_Example/MQTTSocket.cpp:177-180 | the fixed header of a frame as the encoders write it reads back as the control byte and the length |
| SocketRead.ReceivePublish | Src/MQTT_Client_Example/MQTTSocket.cpp:195-217 | a QoS-1 PUBLISH as written by the senders is received with the same flags, topic, packet id and payload, and what follows is untouched |
| SocketRead.ReceivedDuplicate | Src/MQTT_Client_Example/MQTTSocket.h:58 | for a PUBLISH sent with given RETAIN and DUP, the corrected `isDuplicate` reports DUP, and the test as written reports RETAIN |
| SocketRead.ReceivedPublishBody | Src/MQTT_Client_Example/MQTTSocket.cpp:197-210 | the PUBLISH body reads as topic, packet id and then the rest of the Remaining Length as payload |
| SocketRead.NextByteOf | Src/MQTT_Client_Example/MQTTSocket.cpp:263-275 | a byte that is there is read as itself |
| SocketRead.ReceiveConnectAcknowledgement | Src/MQTT_Client_Example/MQTTSocket.cpp:184-194 | a CONNACK frame decodes to its flags, session-present byte and return code |
| SocketRead.ReceivePublishAcknowledgement | Src/MQTT_Client_Example/MQTTSocket.cpp:218-227 | the PUBACK that `sendPublishAcknowledgement` writes decodes to an acknowledgement with the same id |
| SocketRead.ReceiveSubscribeAcknowledgement | Src/MQTT_Client_Example/MQTTSocket.cpp:229-239 | a SUBACK frame decodes to its packet id and return code |
| SocketRead.ReceivedSubscribeAcknowledgementBody | Src/MQTT_Client_Example/MQTTSocket.cpp:231-235 | the SUBACK body reads as packet id and then return code |
| SocketRead.ReceivePingResponse | Src/MQTT_Client_Example/MQTTSocket.cpp:240-245 | a PINGRESP of length 0 decodes to a ping response |
| SocketRead.ReceiveSkips | Src/MQTT_Client_Example/MQTTSocket.cpp:246-253 | a frame of an unknown kind, or of a known kind with the wrong length, is consumed exactly, header and body, and yields no packet |
| SocketRead.SkippedHeader | Src/MQTT_Client_Example/MQTTSocket.cpp:182-253 | once the header marks a frame to be skipped, `receive` drains its length and returns nothing |
| SocketRead.ReceivedMatchesHeader | Src/MQTT_Client_Example/MQTTSocket.cpp:176-253 | for any input, a packet comes back only when its reads succeeded and the header is one of the five kind and length pairs `receive` knows, and it carries the kind and flags of the control byte; every other header yields no packet |
| Socket.NextPacketId | Src/MQTT_Client_Example/MQTTSocket.cpp:53-55 | the next packet id is never 0: it is the old one plus one, and 65535 is followed by 1 |
| Socket.MQTTSocket.constructor | Src/MQTT_Client_Example/MQTTSocket.h:114 | a new socket has packet id 0, an empty buffer and no error latched |
| Socket.MQTTSocket.GetPacketId | Src/MQTT_Client_Example/MQTTSocket.h:123 | the id of the last subscription or first-sent publish |
| Socket.MQTTSocket.IsWriteComplete | Src/MQTT_Client_Example/MQTTSocket.h:124 | true exactly while no write error is latched |
| Socket.MQTTSocket.IsReadComplete | Src/MQTT_Client_Example/MQTTSocket.h:125 | true exactly while no read error is latched |
| Socket.MQTTSocket.WriteByte | Src/MQTT_Client_Example/MQTTSocket.cpp:148-155 | with an error latched nothing happens; otherwise the byte is stored while there is room and dropped when the buffer is full |
| Socket.MQTTSocket.WriteString | Src/MQTT_Client_Example/MQTTSocket.cpp:137-141 | the bytes are offered one by one, in order |
| Socket.MQTTSocket.WriteShort | Src/MQTT_Client_Example/MQTTSocket.cpp:143-146 | the value is written high byte first |
| Socket.MQTTSocket.WriteLengthString | Src/MQTT_Client_Example/MQTTSocket.cpp:128-135 | the string is written with its length prefix, or nothing when it is longer than 65535 bytes |
| Socket.MQTTSocket.WritePacketLength | Src/MQTT_Client_Example/MQTTSocket.cpp:113-126 | the loop writes exactly the Remaining Length encoding of the value |
| Socket.MQTTSocket.WriteTypeFlags | Src/MQTT_Client_Example/MQTTSocket.cpp:109-111 | one control byte holding type and flags |
| Socket.MQTTSocket.Flush | Src/MQTT_Client_Example/MQTTSocket.cpp:157-170 | a latched error sends nothing; a full buffer latches an error and sends nothing; otherwise the buffer goes out and the error is what the transport reports; the buffer is empty afterwards |
| Socket.MQTTSocket.WriteConnectRequest | Src/MQTT_Client_Example/MQTTSocket.cpp:35-45 | the writes of `sendConnectRequest` buffer exactly the CONNECT frame |
| Socket.MQTTSocket.WriteConnectHeader | Src/MQTT_Client_Example/MQTTSocket.cpp:35-40 | the type, length, protocol name, level, flags and keep-alive buffer exactly the CONNECT header |
| Socket.MQTTSocket.WriteConnectPayload | Src/MQTT_Client_Example/MQTTSocket.cpp:41-45 | the client id and the credentials given buffer exactly the CONNECT payload |
| Socket.MQTTSocket.SendConnectRequest | Src/MQTT_Client_Example/MQTTSocket.cpp:22-50 | the CONNECT frame reaches the transport only when no error was latched and it fits the buffer; the result reports that and the transport's verdict |
| Socket.MQTTSocket.WriteSubscribeRequest | Src/MQTT_Client_Example/MQTTSocket.cpp:57-62 | the writes buffer exactly the SUBSCRIBE frame for the current packet id |
| Socket.MQTTSocket.SendSubscribeRequest | Src/MQTT_Client_Example/MQTTSocket.cpp:52-66 | takes the next non-zero packet id, then transmits the SUBSCRIBE frame for it, with the same outcome rule |
| Socket.MQTTSocket.WritePublishRequest | Src/MQTT_Client_Example/MQTTSocket.cpp:81-86 | the writes buffer exactly the PUBLISH frame with the given flags and the current packet id |
| Socket.MQTTSocket.SendPublishRequest | Src/MQTT_Client_Example/MQTTSocket.cpp:68-90 | a duplicate reuses the packet id and sets DUP, a first attempt takes the next id; the PUBLISH frame is transmitted with the same outcome rule |
| Socket.MQTTSocket.SendPingRequest | Src/MQTT_Client_Example/MQTTSocket.cpp:92-98 | transmits PINGREQ with the same outcome rule |
| Socket.MQTTSocket.SendPublishAcknowledgement | Src/MQTT_Client_Example/MQTTSocket.cpp:100-107 | transmits the PUBACK for the id with the same outcome rule |
| Socket.MQTTSocket.Close | Src/MQTT_Client_Example/MQTTSocket.cpp:256-261 | both error latches and the packet-id counter are cleared |
| Socket.MQTTSocket.ReadByte | Src/MQTT_Client_Example/MQTTSocket.cpp:263-275 | computes `NextByte`: 0 once failed, 0 and a latched error for a failed read, the low eight bits otherwise |
| Socket.MQTTSocket.ReadShort | Src/MQTT_Client_Example/MQTTSocket.cpp:277-283 | computes `NextShort`, the inverse of `writeShort` (`NextShortOf`) |
| Socket.MQTTSocket.ReadString | Src/MQTT_Client_Example/MQTTSocket.cpp:285-297 | the loop computes `NextBytes`: len successive reads, in order |
| Socket.MQTTSocket.ReadPacketLength | Src/MQTT_Client_Example/MQTTSocket.cpp:299-312 | the loop computes `NextLength`, the inverse of the length encoding (`NextLengthOf`) |
| Socket.MQTTSocket.Drain | Src/MQTT_Client_Example/MQTTSocket.cpp:248-251 | the loop consumes exactly `length` reads |
| Socket.MQTTSocket.Receive | Src/MQTT_Client_Example/MQTTSocket.cpp:176-254 | computes `Received`: a PUBLISH or PUBACK as the encoders write it comes back as the same packet, a CONNACK, SUBACK or PINGRESP in its standard layout decodes to its packet, and any other frame, including those the client itself sends, is skipped exactly |
| Socket.MQTTSocket.ReceiveBody | Src/MQTT_Client_Example/MQTTSocket.cpp:182-253 | the switch on the type after the header computes `ReceivedBody` |
| Socket.MQTTSocket.ReceivePublishBody | Src/MQTT_Client_Example/MQTTSocket.cpp:195-217 | the PUBLISH branch reads the topic, the packet id when QoS is not 0, and the payload; a failed read drains and yields nothing |
| PublishList.PublishPacket.constructor | Src/MQTT_Client_Example/MQTTClient.cpp:105-111 | a new node holds the retain flag, topic and payload and has no successor |
| PublishList.PublishPacket.Link | Src/MQTT_Client_Example/MQTTClient.cpp:148-150 | the node gets its id, no tries, and the old head as its successor |
| PublishList.ChainCons | Src/MQTT_Client_Example/MQTTClient.cpp:150-151 | a node linked to the old head, in front of a well-linked list, gives a well-linked list |
| PublishList.HoldsCons | Src/MQTT_Client_Example/MQTTClient.cpp:148-151 | the new front node holds the new item, and the rest hold the old items |
| PublishList.DistinctCons | Src/MQTT_Client_Example/MQTTClient.cpp:150-151 | a node not in the list, put in front, keeps the nodes distinct |
| PublishList.ChainWithout | Src/MQTT_Client_Example/MQTTClient.cpp:206 | bypassing node i from its predecessor leaves a well-linked list without it |
| PublishList.HoldsWithout | Src/MQTT_Client_Example/MQTTClient.cpp:206-213 | the other nodes still hold the other items in order |
| PublishList.DistinctWithout | Src/MQTT_Client_Example/MQTTClient.cpp:206-213 | the remaining nodes are distinct and were all in the list |
| PublishList.ChainRotated | Src/MQTT_Client_Example/MQTTClient.cpp:227-230 | after relinking, the old head is last, with no successor, and the other links are as before |
| PublishList.HoldsRotated | Src/MQTT_Client_Example/MQTTClient.cpp:227-230 | the rotated nodes hold the rotated items |
| PublishList.DistinctRotated | Src/MQTT_Client_Example/MQTTClient.cpp:227-230 | rotation keeps the nodes distinct |
| Client.Registry.constructor | Src/MQTT_Client_Example/MQTTClient.cpp:24 | `current` starts out null |
| Client.MQTTClient.constructor | Src/MQTT_Client_Example/MQTTClient.cpp:26-38 | a new client is not connected, has an empty list and keeps the connect settings it was given |
| Client.MQTTClient.WriteByte | Src/MQTT_Client_Example/MQTTClient.cpp:404-406 | the byte is appended to what the transport was given |
| Client.MQTTClient.WriteString | Src/MQTT_Client_Example/MQTTClient.cpp:395-397 | the bytes are appended in order |
| Client.MQTTClient.WriteShort | Src/MQTT_Client_Example/MQTTClient.cpp:399-402 | the value is appended high byte first |
| Client.MQTTClient.WriteLengthString | Src/MQTT_Client_Example/MQTTClient.cpp:386-393 | the string is appended with its length prefix, or nothing when it is longer than 65535 bytes |
| Client.MQTTClient.WriteTypeFlags | Src/MQTT_Client_Example/MQTTClient.cpp:367-369 | one control byte holding type and flags |
| Client.MQTTClient.WritePacketLength | Src/MQTT_Client_Example/MQTTClient.cpp:371-384 | the loop appends exactly the Remaining Length encoding of the value |
| Client.MQTTClient.Flush | Src/MQTT_Client_Example/MQTTClient.cpp:408-410 | a transport failure raises the write-error flag, which stays up |
| Client.MQTTClient.GetWriteError | Src/MQTT_Client_Example/MQTTClient.cpp:412-414 | the transport's sticky write-error flag |
| Client.MQTTClient.Available | Src/MQTT_Client_Example/MQTTClient.cpp:416-418 | the number of bytes the transport still holds, which the step compares with 4 |
| Client.MQTTClient.Read | Src/MQTT_Client_Example/MQTTClient.cpp:430-432 | `client->read()` returns the next byte, or -1 when none is waiting |
| Client.MQTTClient.ReadByte | Src/MQTT_Client_Example/MQTTClient.cpp:430-432 | the read as a `uint8_t`, consuming one byte |
| Client.MQTTClient.ReadShort | Src/MQTT_Client_Example/MQTTClient.cpp:434-440 | two reads combined as `readShort` does in 16 bits, consuming two bytes |
| Client.MQTTClient.Stop | Src/MQTT_Client_Example/MQTTClient.cpp:420-428 | the session is down and `current` is null; a connected transport is stopped and its write error cleared |
| Client.MQTTClient.SendConnectPacket | Src/MQTT_Client_Example/MQTTClient.cpp:233-279 | writes exactly the CONNECT frame for the stored settings; succeeds exactly when no write error is raised |
| Client.MQTTClient.WriteConnectPacket | Src/MQTT_Client_Example/MQTTClient.cpp:259-273 | the writes, in source order, append exactly the CONNECT frame |
| Client.MQTTClient.WriteConnectHeader | Src/MQTT_Client_Example/MQTTClient.cpp:259-266 | the type, length, protocol name, level, flags and keep-alive append exactly the CONNECT header |
| Client.MQTTClient.WriteConnectPayload | Src/MQTT_Client_Example/MQTTClient.cpp:269-273 | the client id and the credentials given append exactly the CONNECT payload |
| Client.MQTTClient.ConnectPacketLength | Src/MQTT_Client_Example/MQTTClient.cpp:246-250 | the computed length is 12 plus the client id plus two bytes and the length of each credential given; it is the length the frame declares |
| Client.MQTTClient.ConnectFlagsByte | Src/MQTT_Client_Example/MQTTClient.cpp:252-256 | clean session set, reserved bit clear, bit 7 exactly with a user name, bit 6 exactly with a password |
| Client.MQTTClient.SendHeadPublishPacket | Src/MQTT_Client_Example/MQTTClient.cpp:312-336 | writes exactly the PUBLISH frame of the head, with DUP once it was tried; succeeds exactly when no write error is raised |
| Client.MQTTClient.SendDisconnectPacket | Src/MQTT_Client_Example/MQTTClient.cpp:357-365 | writes exactly the DISCONNECT frame |
| Client.MQTTClient.PublishAcknowledged | Src/MQTT_Client_Example/MQTTClient.cpp:99-101 | true exactly when nothing waits for a PUBACK |
| Client.MQTTClient.LargestPacketId | Src/MQTT_Client_Example/MQTTClient.cpp:134-143 | the scan over the list finds the largest pending id, and at least 1 |
| Client.MQTTClient.EnqueuePublishPacket | Src/MQTT_Client_Example/MQTTClient.cpp:132-156 | the packet becomes the head with the next id and no tries; the old nodes follow; the tail stays unless the list was empty |
| Client.MQTTClient.LinkFront | Src/MQTT_Client_Example/MQTTClient.cpp:148-153 | linking in front keeps the list well formed and puts the new item before the old ones |
| Client.MQTTClient.RemovePublishPacket | Src/MQTT_Client_Example/MQTTClient.cpp:199-221 | the list afterwards holds `Removed` of the old queue, with head and tail fixed |
| Client.MQTTClient.FindPublishPacket | Src/MQTT_Client_Example/MQTTClient.cpp:201-220 | the scan stops at the first node with the id, with its predecessor, or runs off the end |
| Client.MQTTClient.Unlink | Src/MQTT_Client_Example/MQTTClient.cpp:206-210 | the node at position i leaves the list; every other node and item keeps its order |
| Client.MQTTClient.RotatePublishPackets | Src/MQTT_Client_Example/MQTTClient.cpp:223-231 | with two or more nodes the head becomes the tail; the queue becomes `Rotated` of the old one |
| Client.MQTTClient.CountHeadTry | Src/MQTT_Client_Example/MQTTClient.cpp:186 | the head's count goes up by one and nothing else changes |
| Client.MQTTClient.Connected | Src/MQTT_Client_Example/MQTTClient.cpp:95-97 | reports whether a CONNACK accepted the session |
| Client.MQTTClient.Publish | Src/MQTT_Client_Example/MQTTClient.cpp:103-124 | a fresh node with the request is queued in front with the next id; the client becomes current and `isACKconnected` is cleared |
| Client.MQTTClient.Disconnect | Src/MQTT_Client_Example/MQTTClient.cpp:126-130 | a DISCONNECT is written only while connected; then the session stops |
| Client.MQTTClient.Connect | Src/MQTT_Client_Example/MQTTClient.cpp:62-93 | nothing happens while another client is current or the host is unreachable; otherwise CONNECT is sent, and success makes this client current while failure stops the transport |
| Client.MQTTClient.ReceiveConnectAcknowledgementPacket | Src/MQTT_Client_Example/MQTTClient.cpp:287-310 | four bytes are read; an accepted CONNACK brings the session up, anything else stops it |
| Client.MQTTClient.ReceivePublishAcknowledgementPacket | Src/MQTT_Client_Example/MQTTClient.cpp:338-355 | four bytes are read; a PUBACK header removes the id it carries, anything else disconnects |
| Client.MQTTClient.HandlePublishAcknowledgement | Src/MQTT_Client_Example/MQTTClient.cpp:345-354 | the header test decides between removing the id and disconnecting |
| Client.MQTTClient.ReadPublishAcknowledgement | Src/MQTT_Client_Example/MQTTClient.cpp:341-343 | two bytes and a short are read |
| Client.MQTTClient.ResendHead | Src/MQTT_Client_Example/MQTTClient.cpp:184-195 | the head's frame is written; on success it is counted and rotated to the back, on failure the session stops and the queue is kept |
| Client.MQTTClient.CountAndRotate | Src/MQTT_Client_Example/MQTTClient.cpp:186-187 | the head is counted once more and moved to the back |
| Client.MQTTClient.TransmitPublishPackets | Src/MQTT_Client_Example/MQTTClient.cpp:163-197 | one step takes the branch `StepAction` gives; leaves the queue `StepQueue` and the output `StepOutput` describe; returns the delay `StepDelay` gives; stops the session exactly as `StepStops` says |
| Client.MQTTClient.AcknowledgementStep | Src/MQTT_Client_Example/MQTTClient.cpp:167-173 | the acknowledgement branch, stated in the terms of the step functions |
| Client.MQTTClient.DiscardStep | Src/MQTT_Client_Example/MQTTClient.cpp:175-182 | removing the exhausted head's id drops exactly the head |
| Client.MQTTClient.ResendStep | Src/MQTT_Client_Example/MQTTClient.cpp:184-195 | the resend branch, stated in the terms of the step functions |
| Client.MQTTClient.Teardown | Src/MQTT_Client_Example/MQTTClient.cpp:40-60 | the destructor's walk empties the list, and `current` is cleared only if it was this client |

## Left out

- The cooperative scheduler (`CooperativeMultitasking`, `transmitPublishPacketsAfter`, the `ifThen`/`after`/`onlyOneOf` tasks of `connect` and `publish`) is left out. `TransmitPublishPackets` returns the delay it would schedule, and `Connect` leaves reading the CONNACK to a separate call.
- The 10-second CONNACK timeout is left out, because it is a scheduler task.
- Serial logging and `user_debug.cpp` are left out; they only print.
- `MQTTTopic`, the subscription code that is commented out, and its buffers are not part of this model.
- Host and port are left out; the outcome of `client->connect` is the `reachable` flag.
- `MQTTSocket::connect` and `canReadSocket` are left out; they only forward to the transport.
- Client.MQTTClient.Publish: does not model a failed allocation (the `false` branch), since Dafny's `new` cannot fail.
- `strdup`, `free` and `delete` are left out. Removed nodes are only unlinked, and the destructor's walk frees nothing.
- The C strings are byte sequences, so a NUL byte inside a topic or payload and `strlen` are not modelled.
- Topic pointer aliasing is left out: `publish` stores the caller's topic pointer without copying it, and the model copies the value.
- The `size_t` and `int` widths of lengths are left out. Lengths are unbounded naturals, so `writePacketLength` on an overflowed value is not modelled.
- Socket.MQTTSocket.Receive: requires `PublishFits`, so a PUBLISH whose Remaining Length is smaller than its topic plus header is not modelled. There the `size_t` subtraction `length - topiclength - 4` wraps and `readString` would attempt a huge allocation.
- PendingQueue.EnqueuedKeepsInvariants: assumes the largest pending id is below 65535. At 65535 the id wraps to 0 (`NewIdWraps`, see "## Findings"), and the list invariant `Valid` does not claim unique ids. The class keeps the id as the source computes it; `EnqueuedFresh` is the corrected value-level enqueue.
- Client.MQTTClient.TransmitPublishPackets: a failed send stops the session without counting the try, as in the source; the model does not add a bound on such attempts.
- Client.MQTTClient.constructor: says nothing about `isACKconnected`, which the source leaves uninitialised.
- `Client`'s byte-level transport behaviour (buffering, partial writes, `clearWriteError` while not connected) is reduced to an output sequence and a sticky write-error flag.

## Findings

| source | as written | input that shows it | evidently intended | confidence | as-written member | corrected member |
|---|---|---|---|---|---|---|
| Src/MQTT_Client_Example/MQTTSocket.h:58 | `getFlags() & 8 > 0` parses as `getFlags() & (8 > 0)`, which tests bit 0 (RETAIN) | a PUBLISH with flags 0x0A (DUP set, RETAIN clear) gives `isDuplicate() == false`; flags 0x03 gives true | `(getFlags() & 8) > 0`, the DUP bit of section 3.3.1.1 of MQTT 3.1.1 | high, not executed | Packets.Packet.IsDuplicate, Packets.IsDuplicateTestsRetainBit | Packets.Packet.IsDuplicateFlag, SocketRead.ReceivedDuplicate |
| Src/MQTT_Client_Example/MQTTClient.cpp:134-146 | `packetid++` on the largest pending id, a `uint16_t`, wraps from 65535 to 0 | with id 65535 pending, the next publish gets id 0, and while both are pending the one after gets 0 again | a non-zero id that no pending publish carries, as the comment on line 134 and section 2.3.1 of MQTT 3.1.1 ask | medium, not executed: needs 65535 publishes without the queue ever emptying | PendingQueue.NewIdWraps | PendingQueue.FreshId, PendingQueue.FreshIdFresh, PendingQueue.EnqueuedFreshKeepsInvariants |
