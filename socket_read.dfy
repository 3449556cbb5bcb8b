/** The read side of MQTTSocket.cpp as functions of the transport's input:
    `readByte` with its latched read error, `readShort`, `readString`,
    `readPacketLength`, the drain loop and `receive`. The methods of
    `Socket.MQTTSocket` are proved to compute exactly these. */
module SocketRead {
  import opened Wire
  import opened Packets
  import Frames

  /** What the transport will still deliver, one `client->read()` result per
      element (a negative element is a failed read), and the socket's
      `readerror` latch. Reading past the end fails like a negative element. */
  datatype ReadState = ReadState(input: seq<int>, failed: bool)

  /** A stream that has not failed. */
  function Good(s: seq<int>): ReadState
  {
    ReadState(s, false)
  }

  /** `readByte`: once failed, 0 without reading; a failed read latches the
      error and yields 0; a good read yields its low eight bits. */
  function NextByte(st: ReadState): (byte, ReadState)
  {
    if st.failed then (0, st)
    else if st.input == [] then (0, ReadState([], true))
    else if st.input[0] < 0 then (0, ReadState(st.input[1..], true))
    else (st.input[0] % 256, ReadState(st.input[1..], false))
  }

  /** `readShort`: the first byte read is the high byte. */
  function NextShort(st: ReadState): (uint16, ReadState)
  {
    var (hi, st1) := NextByte(st);
    var (lo, st2) := NextByte(st1);
    (ShortValue(hi, lo), st2)
  }

  /** `readString(n)`: n successive `readByte` results. */
  function NextBytes(st: ReadState, n: nat): (seq<byte>, ReadState)
    decreases n
  {
    if n == 0 then ([], st)
    else
      var (b, st1) := NextByte(st);
      var (rest, st2) := NextBytes(st1, n - 1);
      ([b] + rest, st2)
  }

  /** One read, then the other `n - 1`. */
  lemma NextBytesStep(st: ReadState, n: nat)
    requires n > 0
    ensures NextBytes(st, n).0 == [NextByte(st).0] + NextBytes(NextByte(st).1, n - 1).0
    ensures NextBytes(st, n).1 == NextBytes(NextByte(st).1, n - 1).1
  {
  }

  /** The loop of `readPacketLength` from a point where `len` has been
      accumulated and the next digit is worth `multiplier`. */
  function NextLengthFrom(st: ReadState, len: nat, multiplier: nat): (nat, ReadState)
    decreases |st.input|
  {
    var (digit, st1) := NextByte(st);
    var len1 := len + (digit % 128) * multiplier;
    if digit < 128 then (len1, st1) else NextLengthFrom(st1, len1, multiplier * 128)
  }

  /** `readPacketLength`. */
  function NextLength(st: ReadState): (nat, ReadState)
  {
    NextLengthFrom(st, 0, 1)
  }

  /** The drain loop at the end of `receive`: `length` reads whose results are dropped. */
  function Drained(st: ReadState, length: nat): ReadState
  {
    NextBytes(st, length).1
  }

  /** `(flags & 6) > 0`: the QoS field of a PUBLISH is not 0. */
  predicate HasQos(flags: byte)
  {
    flags / 2 % 4 != 0
  }

  /** How many bytes of a PUBLISH body precede the payload: topic length
      prefix, plus the packet id when QoS is not 0. */
  function PublishHeaderSize(flags: byte): nat
  {
    if HasQos(flags) then 4 else 2
  }

  /** The size_t subtraction `length - topiclength - 4` (or `- 2`) in the
      PUBLISH branch of `receive` does not wrap: the model covers only such
      input. */
  predicate PublishFits(st: ReadState)
  {
    var (first, st1) := NextByte(st);
    var (length, st2) := NextLength(st1);
    BodyFits(FlagsOf(first), KindOf(first), length, st2)
  }

  /** The same condition once the header is read. */
  predicate BodyFits(flags: byte, kind: nat, length: nat, st: ReadState)
  {
    kind == 3 ==> length >= NextShort(st).0 + PublishHeaderSize(flags)
  }

  /** `receive`: one frame, or `None` after draining `length` bytes. */
  function Received(st: ReadState): (Option<Packet>, ReadState)
    requires PublishFits(st)
  {
    var (first, st1) := NextByte(st);
    var (length, st2) := NextLength(st1);
    ReceivedBody(FlagsOf(first), KindOf(first), length, st2)
  }

  /** `receive` after the control byte and the Remaining Length. */
  function ReceivedBody(flags: byte, kind: nat, length: nat, st2: ReadState): (Option<Packet>, ReadState)
    requires BodyFits(flags, kind, length, st2)
  {
    if kind == 2 && length == 2 then
      var (sessionPresent, st3) := NextByte(st2);
      var (returnCode, st4) := NextByte(st3);
      if !st4.failed then (Some(ConnectAcknowledgement(flags, kind, sessionPresent, returnCode)), st4)
      else (None, Drained(st4, length))
    else if kind == 3 then
      var (topicLength, st3) := NextShort(st2);
      var (topic, st4) := NextBytes(st3, topicLength);
      if HasQos(flags) then
        var (packetId, st5) := NextShort(st4);
        var (payload, st6) := NextBytes(st5, length - topicLength - 4);
        if !st6.failed then (Some(PublishNotification(flags, kind, topic, packetId, payload)), st6)
        else (None, Drained(st6, length))
      else
        var (payload, st5) := NextBytes(st4, length - topicLength - 2);
        if !st5.failed then (Some(PublishNotification(flags, kind, topic, 0, payload)), st5)
        else (None, Drained(st5, length))
    else if kind == 4 && length == 2 then
      var (packetId, st3) := NextShort(st2);
      if !st3.failed then (Some(PublishAcknowledgement(flags, kind, packetId)), st3)
      else (None, Drained(st3, length))
    else if kind == 9 && length == 3 then
      var (packetId, st3) := NextShort(st2);
      var (returnCode, st4) := NextByte(st3);
      if !st4.failed then (Some(SubscribeAcknowledgement(flags, kind, packetId, returnCode)), st4)
      else (None, Drained(st4, length))
    else if kind == 13 && length == 0 && !st2.failed then (Some(PingResponse(flags, kind)), st2)
    else (None, Drained(st2, length))
  }

  /** `receive` reads the header and goes on with the rest. */
  lemma ReceivedHeader(st: ReadState, first: byte, st1: ReadState, length: nat, st2: ReadState)
    requires NextByte(st) == (first, st1) && NextLength(st1) == (length, st2)
    ensures PublishFits(st) == BodyFits(FlagsOf(first), KindOf(first), length, st2)
    ensures PublishFits(st) ==> Received(st) == ReceivedBody(FlagsOf(first), KindOf(first), length, st2)
  {
  }

  /** The frame kinds and lengths `receive` does not turn into a packet. */
  predicate Skipped(kind: nat, length: nat)
  {
    kind != 3 && !(kind == 2 && length == 2) && !(kind == 4 && length == 2)
    && !(kind == 9 && length == 3) && !(kind == 13 && length == 0)
  }

  // ---------------------------------------------------------------------
  // The read error latch

  function Zeros(n: nat): seq<byte>
  {
    if n == 0 then [] else [0] + Zeros(n - 1)
  }

  /** Once `readerror` is set every read yields 0 and consumes nothing. */
  lemma {:induction false} FailedReadsNothing(s: seq<int>, n: nat)
    ensures NextBytes(ReadState(s, true), n) == (Zeros(n), ReadState(s, true))
    decreases n
  {
    if n > 0 {
      FailedReadsNothing(s, n - 1);
    }
  }

  /** A negative transport result latches the error, after which nothing
      more is consumed. */
  lemma NegativeReadLatches(v: int, s: seq<int>, n: nat)
    requires v < 0
    ensures NextByte(Good([v] + s)) == (0, ReadState(s, true))
    ensures NextBytes(Good([v] + s), n + 1) == (Zeros(n + 1), ReadState(s, true))
  {
    FailedReadsNothing(s, n);
  }

  /** With the error already latched, `receive` produces nothing and leaves
      the input alone. */
  lemma FailedReceivesNothing(s: seq<int>)
    ensures PublishFits(ReadState(s, true))
    ensures Received(ReadState(s, true)) == (None, ReadState(s, true))
  {
    FailedReadsNothing(s, 0);
  }

  // ---------------------------------------------------------------------
  // Reading back what the encoders write

  lemma {:induction false} NextBytesOf(bs: seq<byte>, rest: seq<int>)
    ensures NextBytes(Good(bs + rest), |bs|) == (bs, Good(rest))
    decreases |bs|
  {
    if bs == [] {
      assert bs + rest == rest;
    } else {
      assert (bs + rest)[1..] == bs[1..] + rest;
      NextBytesOf(bs[1..], rest);
      assert [bs[0]] + bs[1..] == bs;
    }
  }

  /** `readShort` inverts `writeShort`. */
  lemma NextShortOf(v: uint16, rest: seq<int>)
    ensures NextShort(Good(EncodeShort(v) + rest)) == (v, Good(rest))
  {
    var s := EncodeShort(v) + rest;
  }

  lemma {:induction false} NextLengthFromOf(n: nat, rest: seq<int>, len: nat, multiplier: nat)
    ensures NextLengthFrom(Good(EncodeLength(n) + rest), len, multiplier) == (len + n * multiplier, Good(rest))
    decreases n
  {
    if n / 128 > 0 {
      var len1: nat, m1: nat := len + (n % 128) * multiplier, multiplier * 128;
      DigitSplit(n, len, multiplier);
      assert len1 + (n / 128) * m1 == len + n * multiplier;
      NextLengthFromStep(n, rest, len, multiplier);
      NextLengthFromOf(n / 128, rest, len1, m1);
    } else {
      NextLengthFromLast(n, rest, len, multiplier);
    }
  }

  /** A digit with the continuation bit adds its value and moves on. */
  lemma NextLengthFromStep(n: nat, rest: seq<int>, len: nat, multiplier: nat)
    requires n / 128 > 0
    ensures NextLengthFrom(Good(EncodeLength(n) + rest), len, multiplier)
         == NextLengthFrom(Good(EncodeLength(n / 128) + rest), len + (n % 128) * multiplier, multiplier * 128)
  {
    var digit := n % 128 + 128;
    var tail := EncodeLength(n / 128) + rest;
    assert EncodeLength(n) + rest == [digit] + tail;
    assert ([digit] + tail)[1..] == tail;
    assert NextByte(Good([digit] + tail)) == (digit, Good(tail));
    assert digit % 128 == n % 128;
  }

  /** The last digit ends the loop. */
  lemma NextLengthFromLast(n: nat, rest: seq<int>, len: nat, multiplier: nat)
    requires n / 128 == 0
    ensures NextLengthFrom(Good(EncodeLength(n) + rest), len, multiplier) == (len + n * multiplier, Good(rest))
  {
  }

  lemma DigitSplit(n: nat, len: nat, multiplier: nat)
    ensures len + (n % 128) * multiplier + (n / 128) * (multiplier * 128) == len + n * multiplier
  {
    var q, r := n / 128, n % 128;
    assert n == q * 128 + r;
    assert q * (multiplier * 128) == (q * 128) * multiplier;
    assert (q * 128 + r) * multiplier == (q * 128) * multiplier + r * multiplier;
  }

  /** Section 2.2.3: `readPacketLength` is the exact inverse of
      `writePacketLength`, for every length and whatever follows it. */
  lemma NextLengthOf(n: nat, rest: seq<int>)
    ensures NextLength(Good(EncodeLength(n) + rest)) == (n, Good(rest))
  {
    NextLengthFromOf(n, rest, 0, 1);
  }

  // ---------------------------------------------------------------------
  // `receive` on well-formed frames

  /** Reading the fixed header of a frame as the encoders write it: the
      control byte, then the Remaining Length. */
  lemma ReadsHeader(first: byte, length: nat, body: seq<int>)
    ensures NextByte(Good([first] + (EncodeLength(length) + body))) == (first, Good(EncodeLength(length) + body))
    ensures NextLength(Good(EncodeLength(length) + body)) == (length, Good(body))
  {
    NextLengthOf(length, body);
  }

  /** A QoS-1 PUBLISH as `sendPublishRequest` / `sendHeadPublishPacket`
      writes it comes back with the same flags, topic, packet id and payload,
      and nothing after the frame is touched. */
  lemma ReceivePublish(topic: seq<byte>, payload: seq<byte>, flags: byte, packetId: uint16, rest: seq<int>)
    requires flags < 16 && HasQos(flags)
    requires |topic| <= MaxStringLength
    ensures PublishFits(Good(Frames.PublishFrame(topic, payload, flags, packetId) + rest))
    ensures Received(Good(Frames.PublishFrame(topic, payload, flags, packetId) + rest))
         == (Some(PublishNotification(flags, 3, topic, packetId, payload)), Good(rest))
  {
    var c := ControlByte(3, flags);
    var length := Frames.PublishLength(topic, payload);
    var r1 := EncodeShort(|topic|) + (topic + (EncodeShort(packetId) + (payload + rest)));
    var s := Frames.PublishFrame(topic, payload, flags, packetId) + rest;
    PublishFrameSplits(topic, payload, flags, packetId, rest);
    ReadsHeader(c, length, r1);
    ControlByteSplits(3, flags);
    ReceivedHeader(Good(s), c, Good(EncodeLength(length) + r1), length, Good(r1));
    ReceivedPublishBody(topic, payload, flags, packetId, rest);
  }

  /** The PUBLISH frame with what follows it, cut where `receive` reads. */
  lemma PublishFrameSplits(topic: seq<byte>, payload: seq<byte>, flags: byte, packetId: uint16, rest: seq<int>)
    requires flags < 16 && |topic| <= MaxStringLength
    ensures Frames.PublishFrame(topic, payload, flags, packetId) + rest
         == [ControlByte(3, flags)] + (EncodeLength(Frames.PublishLength(topic, payload))
            + (EncodeShort(|topic|) + (topic + (EncodeShort(packetId) + (payload + rest)))))
  {
    Regroup([ControlByte(3, flags)], EncodeLength(Frames.PublishLength(topic, payload)),
            EncodeShort(|topic|), topic, EncodeShort(packetId), payload, rest);
  }

  /** The regrouping of a frame `a + b + (c + d + e + f)` followed by
      `g` into the reads taken one after the other. */
  lemma Regroup(a: seq<int>, b: seq<int>, c: seq<int>, d: seq<int>, e: seq<int>, f: seq<int>, g: seq<int>)
    ensures a + b + (c + d + e + f) + g == a + (b + (c + (d + (e + (f + g)))))
  {
    assert c + d + e + f == c + (d + (e + f));
    assert a + b + (c + (d + (e + f))) + g == a + (b + (c + (d + (e + f)) + g));
    assert c + (d + (e + f)) + g == c + (d + (e + (f + g)));
  }

  /** What `isDuplicate` answers for a PUBLISH as this client sends it:
      the test as written reports the RETAIN bit, the corrected test the
      DUP bit that was set. */
  lemma ReceivedDuplicate(topic: seq<byte>, payload: seq<byte>, retain: bool, duplicate: bool, packetId: uint16,
                          rest: seq<int>)
    requires |topic| <= MaxStringLength
    ensures PublishFits(Good(Frames.PublishFrame(topic, payload, Frames.PublishFlags(retain, duplicate), packetId) + rest))
    ensures var p := Received(Good(Frames.PublishFrame(topic, payload, Frames.PublishFlags(retain, duplicate), packetId) + rest)).0;
            p.Some? && p.value.PublishNotification?
            && p.value.IsDuplicateFlag() == duplicate
            && p.value.IsDuplicate() == retain
  {
    var flags := Frames.PublishFlags(retain, duplicate);
    ReceivePublish(topic, payload, flags, packetId, rest);
    Frames.PublishFlagsBits(retain, duplicate);
    DuplicateFlags(flags, retain, duplicate, topic, packetId, payload);
  }

  /** Both tests on a flags nibble whose DUP and RETAIN bits are known. */
  lemma DuplicateFlags(flags: byte, retain: bool, duplicate: bool, topic: seq<byte>, packetId: uint16,
                       payload: seq<byte>)
    requires (flags / 8 == 1) == duplicate && (flags % 2 == 1) == retain && flags < 16
    ensures PublishNotification(flags, 3, topic, packetId, payload).IsDuplicateFlag() == duplicate
    ensures PublishNotification(flags, 3, topic, packetId, payload).IsDuplicate() == retain
  {
  }

  /** The body of that PUBLISH: topic, packet id, then the payload, whose
      length is what remains of the Remaining Length. */
  lemma ReceivedPublishBody(topic: seq<byte>, payload: seq<byte>, flags: byte, packetId: uint16, rest: seq<int>)
    requires HasQos(flags) && |topic| <= MaxStringLength
    ensures var r1 := EncodeShort(|topic|) + (topic + (EncodeShort(packetId) + (payload + rest)));
            BodyFits(flags, 3, Frames.PublishLength(topic, payload), Good(r1))
            && ReceivedBody(flags, 3, Frames.PublishLength(topic, payload), Good(r1))
               == (Some(PublishNotification(flags, 3, topic, packetId, payload)), Good(rest))
  {
    var r4 := payload + rest;
    var r3 := EncodeShort(packetId) + r4;
    var r2 := topic + r3;
    NextShortOf(|topic|, r2);
    NextBytesOf(topic, r3);
    NextShortOf(packetId, r4);
    NextBytesOf(payload, rest);
  }

  /** A byte that is there is read as itself. */
  lemma NextByteOf(b: byte, rest: seq<int>)
    ensures NextByte(Good([b] + rest)) == (b, Good(rest))
  {
  }

  lemma ReceiveConnectAcknowledgement(flags: byte, sessionPresent: byte, returnCode: byte, rest: seq<int>)
    requires flags < 16
    ensures PublishFits(Good([ControlByte(2, flags), 2, sessionPresent, returnCode] + rest))
    ensures Received(Good([ControlByte(2, flags), 2, sessionPresent, returnCode] + rest))
         == (Some(ConnectAcknowledgement(flags, 2, sessionPresent, returnCode)), Good(rest))
  {
    var c := ControlByte(2, flags);
    var s := [c, 2, sessionPresent, returnCode] + rest;
    var r2 := [returnCode] + rest;
    var r1 := [sessionPresent] + r2;
    assert s == [c] + (EncodeLength(2) + r1);
    ReadsHeader(c, 2, r1);
    ControlByteSplits(2, flags);
    ReceivedHeader(Good(s), c, Good(EncodeLength(2) + r1), 2, Good(r1));
    NextByteOf(sessionPresent, r2);
    NextByteOf(returnCode, rest);
  }

  /** The PUBACK `sendPublishAcknowledgement` writes decodes to an
      acknowledgement carrying exactly its packet id. */
  lemma ReceivePublishAcknowledgement(packetId: uint16, rest: seq<int>)
    ensures PublishFits(Good(Frames.PublishAckFrame(packetId) + rest))
    ensures Received(Good(Frames.PublishAckFrame(packetId) + rest))
         == (Some(PublishAcknowledgement(0, 4, packetId)), Good(rest))
  {
    var c := ControlByte(4, 0);
    var s := Frames.PublishAckFrame(packetId) + rest;
    var r1 := EncodeShort(packetId) + rest;
    assert s == [c] + (EncodeLength(2) + r1);
    ReadsHeader(c, 2, r1);
    ControlByteSplits(4, 0);
    ReceivedHeader(Good(s), c, Good(EncodeLength(2) + r1), 2, Good(r1));
    NextShortOf(packetId, rest);
  }

  lemma ReceiveSubscribeAcknowledgement(flags: byte, packetId: uint16, returnCode: byte, rest: seq<int>)
    requires flags < 16
    ensures PublishFits(Good([ControlByte(9, flags), 3] + EncodeShort(packetId) + [returnCode] + rest))
    ensures Received(Good([ControlByte(9, flags), 3] + EncodeShort(packetId) + [returnCode] + rest))
         == (Some(SubscribeAcknowledgement(flags, 9, packetId, returnCode)), Good(rest))
  {
    var c := ControlByte(9, flags);
    var s := [c, 3] + EncodeShort(packetId) + [returnCode] + rest;
    var r2 := [returnCode] + rest;
    var r1 := EncodeShort(packetId) + r2;
    assert s == [c] + (EncodeLength(3) + r1);
    ReadsHeader(c, 3, r1);
    ControlByteSplits(9, flags);
    ReceivedHeader(Good(s), c, Good(EncodeLength(3) + r1), 3, Good(r1));
    ReceivedSubscribeAcknowledgementBody(flags, packetId, returnCode, rest);
  }

  lemma ReceivedSubscribeAcknowledgementBody(flags: byte, packetId: uint16, returnCode: byte, rest: seq<int>)
    ensures ReceivedBody(flags, 9, 3, Good(EncodeShort(packetId) + ([returnCode] + rest)))
         == (Some(SubscribeAcknowledgement(flags, 9, packetId, returnCode)), Good(rest))
  {
    NextShortOf(packetId, [returnCode] + rest);
    NextByteOf(returnCode, rest);
  }

  lemma ReceivePingResponse(flags: byte, rest: seq<int>)
    requires flags < 16
    ensures PublishFits(Good([ControlByte(13, flags), 0] + rest))
    ensures Received(Good([ControlByte(13, flags), 0] + rest)) == (Some(PingResponse(flags, 13)), Good(rest))
  {
    var c := ControlByte(13, flags);
    var s := [c, 0] + rest;
    assert s == [c] + (EncodeLength(0) + rest);
    ReadsHeader(c, 0, rest);
    ControlByteSplits(13, flags);
    ReceivedHeader(Good(s), c, Good(EncodeLength(0) + rest), 0, Good(rest));
  }

  /** The lenient skip: a frame of any other kind, or of a known kind with
      the wrong length, is consumed exactly, header and body, and yields no
      packet, so the next frame starts where it should. */
  lemma {:induction false} ReceiveSkips(first: byte, body: seq<byte>, rest: seq<int>)
    requires Skipped(KindOf(first), |body|)
    ensures PublishFits(Good([first] + EncodeLength(|body|) + body + rest))
    ensures Received(Good([first] + EncodeLength(|body|) + body + rest)) == (None, Good(rest))
  {
    var s := [first] + EncodeLength(|body|) + body + rest;
    var tail := EncodeLength(|body|) + (body + rest);
    assert s == [first] + tail;
    assert NextByte(Good(s)) == (first, Good(tail));
    NextLengthOf(|body|, body + rest);
    NextBytesOf(body, rest);
    assert Drained(Good(body + rest), |body|) == Good(rest);
    SkippedHeader(Good(s), first, Good(tail), |body|, Good(body + rest));
  }

  /** What `receive` does once the header says the frame is to be skipped. */
  lemma SkippedHeader(st: ReadState, first: byte, st1: ReadState, length: nat, st2: ReadState)
    requires NextByte(st) == (first, st1) && NextLength(st1) == (length, st2)
    requires Skipped(KindOf(first), length)
    ensures PublishFits(st)
    ensures Received(st) == (None, Drained(st2, length))
  {
  }

  /** Whatever the input, `receive` hands back a packet only when its reads
      succeeded and the header is one of the five kind and length pairs it
      knows; the packet then carries the kind and flags of the control
      byte. Every other header yields no packet. */
  lemma ReceivedMatchesHeader(st: ReadState)
    requires PublishFits(st)
    ensures var (first, st1) := NextByte(st);
            var (length, st2) := NextLength(st1);
            var (p, st3) := Received(st);
            (p.Some? ==> !st3.failed && !Skipped(KindOf(first), length)
                         && p.value.kind == KindOf(first) && p.value.flags == FlagsOf(first))
            && (Skipped(KindOf(first), length) ==> p.None?)
  {
  }
}
