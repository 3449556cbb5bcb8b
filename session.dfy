/** The decisions MQTTClient.cpp takes about its session, as values: how its
    four-byte acknowledgement reads turn transport bytes into header fields,
    when a CONNACK or PUBACK is accepted, which branch one step of
    `transmitPublishPackets` takes and what that does to the queue. */
module Session {
  import opened Wire
  import opened PendingQueue
  import Frames

  /** What the step leaves scheduled: another `transmitPublishPackets`
      after `delay` milliseconds, or nothing. */
  datatype Next = Idle | After(delay: nat)

  /** The branch of `transmitPublishPackets`. */
  datatype Action = Skip | ProcessAck | Discard | Resend

  // ---------------------------------------------------------------------
  // Reading through `Client::read`

  /** `client->read()` at position `i` of the pending input: the byte, or
      -1 when nothing is there. */
  function ReadAt(input: seq<byte>, i: nat): int
  {
    if i < |input| then input[i] else -1
  }

  /** The `uint8_t` that `readByte` makes of it: -1 becomes 255. */
  function ByteAt(input: seq<byte>, i: nat): (b: byte)
    ensures i < |input| ==> b == input[i]
    ensures i >= |input| ==> b == 255
  {
    ReadAt(input, i) % 256
  }

  /** `readShort`: the first read stored as `uint16_t`, shifted left by
      eight within 16 bits, then the second read added, again as
      `uint16_t`. */
  function ShortAt(input: seq<byte>, i: nat): uint16
  {
    ((ReadAt(input, i) % 0x1_0000) * 256 % 0x1_0000 + ReadAt(input, i + 1)) % 0x1_0000
  }

  /** What is left of the input after `n` reads. */
  function Remaining(input: seq<byte>, n: nat): (r: seq<byte>)
    ensures |r| == if n < |input| then |input| - n else 0
  {
    if n < |input| then input[n..] else []
  }

  /** Reading on from what is left after `k` reads is reading from
      position `k` of the original input. */
  lemma RemainingReads(input: seq<byte>, k: nat, j: nat)
    ensures ReadAt(Remaining(input, k), j) == ReadAt(input, k + j)
    ensures Remaining(Remaining(input, k), j) == Remaining(input, k + j)
  {
  }

  /** Two bytes that are really there read as their big-endian value. */
  lemma ShortAtPresent(input: seq<byte>, i: nat)
    requires i + 1 < |input|
    ensures ShortAt(input, i) == ShortValue(input[i], input[i + 1])
  {
    var hi: int := input[i];
    assert hi % 0x1_0000 == hi;
    assert hi * 256 % 0x1_0000 == hi * 256;
  }

  /** A missing second byte subtracts one instead of adding a digit. */
  lemma ShortAtShort(input: seq<byte>, i: nat)
    requires i + 1 == |input|
    ensures ShortAt(input, i) == (input[i] as int * 256 + 0xFFFF) % 0x1_0000
  {
    var hi: int := input[i];
    assert hi % 0x1_0000 == hi;
    assert hi * 256 % 0x1_0000 == hi * 256;
  }

  // ---------------------------------------------------------------------
  // Acknowledgements

  /** The test of `receiveConnectAcknowledgementPacket` on the four bytes
      it reads: type 2 with flags 0, length 2, return code 0; the
      session-present byte is ignored. */
  predicate ConnAckAccepted(input: seq<byte>)
  {
    ByteAt(input, 0) == 2 * 16 && ByteAt(input, 1) == 2 && ByteAt(input, 3) == 0
  }

  /** A CONNACK is accepted exactly when four bytes were there and they read
      0x20, 0x02, anything, 0x00: a missing byte reads as 255 and fails. */
  lemma ConnAckAcceptedIff(input: seq<byte>)
    ensures ConnAckAccepted(input) <==>
              |input| >= 4 && input[0] == 0x20 && input[1] == 0x02 && input[3] == 0x00
  {
  }

  /** The test of `receivePublishAcknowledgementPacket` on its first two
      bytes: type 4 with flags 0 and length 2. */
  predicate PubAckHeader(input: seq<byte>)
  {
    ByteAt(input, 0) == 4 * 16 && ByteAt(input, 1) == 2
  }

  /** The packet id that acknowledgement carries. */
  function PubAckId(input: seq<byte>): uint16
  {
    ShortAt(input, 2)
  }

  /** The step reads an acknowledgement only with four bytes available, so
      the header test and the id are those of the real bytes, and a PUBACK
      as the server sends it is recognised with its id. */
  lemma PubAckOfFrame(input: seq<byte>, id: uint16, rest: seq<byte>)
    requires input == Frames.PublishAckFrame(id) + rest
    ensures PubAckHeader(input)
    ensures PubAckId(input) == id
  {
    assert input[..4] == [0x40, 0x02, id / 256, id % 256];
    ShortAtPresent(input, 2);
  }

  // ---------------------------------------------------------------------
  // One step of the publish loop

  /** The branch `transmitPublishPackets` takes: nothing unless connected,
      current and with something queued; then an acknowledgement is read
      first, an exhausted head is dropped next, and only otherwise the head
      is sent again. */
  function StepAction(connected: bool, isCurrent: bool, q: seq<Pending>, available: nat): (a: Action)
    ensures a == Skip <==> !(connected && isCurrent && q != [])
    ensures a == ProcessAck ==> available >= 4
    ensures a == Discard ==> available < 4 && q[0].tries >= TryTime
    ensures a == Resend ==> available < 4 && q[0].tries < TryTime
  {
    if !(connected && isCurrent && q != []) then Skip
    else if available >= 4 then ProcessAck
    else if q[0].tries >= TryTime then Discard
    else Resend
  }

  /** The delay each branch schedules when it completes. */
  function StepDelay(a: Action, sendOk: bool): (n: Next)
    ensures n.After? <==> (a == ProcessAck || a == Discard || (a == Resend && sendOk))
    ensures n.After? && a == Resend ==> n.delay == IntervalToRetry
    ensures n.After? && a != Resend ==> n.delay == RecheckInterval
  {
    match a
    case Skip => Idle
    case ProcessAck => After(RecheckInterval)
    case Discard => After(RecheckInterval)
    case Resend => if sendOk then After(IntervalToRetry) else Idle
  }

  /** The queue after the step: the acknowledged id removed (only if the
      header is a PUBACK), the exhausted head removed, or the sent head
      counted and moved to the back. A failed send leaves the queue alone. */
  function StepQueue(a: Action, q: seq<Pending>, input: seq<byte>, sendOk: bool): seq<Pending>
    requires a == Discard || a == Resend ==> q != []
    requires a == Resend ==> q[0].tries < TryTime
  {
    match a
    case Skip => q
    case ProcessAck => if PubAckHeader(input) then Removed(q, PubAckId(input)) else q
    case Discard => Removed(q, q[0].id)
    case Resend => if sendOk then Rotated(Bumped(q)) else q
  }

  /** What the step writes to the transport: the head frame on a resend, a
      DISCONNECT when the four bytes read are not a PUBACK, else nothing. */
  function StepOutput(a: Action, q: seq<Pending>, input: seq<byte>): seq<byte>
    requires a == Resend ==> q != []
  {
    match a
    case Skip => []
    case ProcessAck => if PubAckHeader(input) then [] else Frames.DisconnectFrame()
    case Discard => []
    case Resend => HeadFrame(q[0])
  }

  /** Whether the step ends the session: a bad acknowledgement disconnects,
      a failed send stops. */
  predicate StepStops(a: Action, input: seq<byte>, sendOk: bool)
  {
    (a == ProcessAck && !PubAckHeader(input)) || (a == Resend && !sendOk)
  }

  /** The frame the step sends for the head: `sendHeadPublishPacket` sets DUP
      once the head has been sent before. */
  function HeadFrame(p: Pending): seq<byte>
  {
    Frames.PublishFrame(p.topic, p.payload, Frames.PublishFlags(p.retain, p.tries > 0), p.id)
  }

  /** Every step keeps both queue invariants: ids stay unique and no item
      is counted past `TRY_TIME` sends. */
  lemma StepKeepsInvariants(connected: bool, isCurrent: bool, q: seq<Pending>, input: seq<byte>, sendOk: bool)
    requires Bounded(q) && IdsUnique(q)
    ensures var a := StepAction(connected, isCurrent, q, |input|);
            Bounded(StepQueue(a, q, input, sendOk)) && IdsUnique(StepQueue(a, q, input, sendOk))
  {
    var a := StepAction(connected, isCurrent, q, |input|);
    match a
    case Skip =>
    case ProcessAck =>
      RemovedBounded(q, PubAckId(input));
      RemovedUnique(q, PubAckId(input));
    case Discard =>
      RemovedBounded(q, q[0].id);
      RemovedUnique(q, q[0].id);
    case Resend =>
      BumpedKeepsInvariants(q);
      RotatedKeepsInvariants(Bumped(q));
  }

  /** A successful resend moves the head, counted once more, to the back
      and the rest of the queue up; a discard drops exactly the head. */
  lemma StepQueueMoves(q: seq<Pending>, input: seq<byte>)
    requires |q| >= 2 && |input| < 4
    ensures q[0].tries < TryTime ==>
              var r := StepQueue(Resend, q, input, true);
              r[..|q| - 1] == q[1..] && r[|q| - 1] == q[0].(tries := q[0].tries + 1)
    ensures q[0].tries >= TryTime ==> StepQueue(Discard, q, input, true) == q[1..]
  {
    if q[0].tries < TryTime {
      RotatedShape(Bumped(q));
    } else {
      RemovedHead(q);
    }
  }

  /** An acknowledgement for an id that is pending removes that item and
      only it, keeping the order of the others; an acknowledgement for an id
      nobody carries changes nothing. */
  lemma AckRemovesAcknowledged(q: seq<Pending>, id: uint16, rest: seq<byte>)
    requires IdsUnique(q)
    ensures var r := StepQueue(ProcessAck, q, Frames.PublishAckFrame(id) + rest, true);
            forall i :: 0 <= i < |r| ==> r[i].id != id
    ensures var r := StepQueue(ProcessAck, q, Frames.PublishAckFrame(id) + rest, true);
            var k := IndexOf(q, id);
            id in Ids(q) ==>
              k < |q| && q[k].id == id && |r| == |q| - 1
              && r[..k] == q[..k] && r[k..] == q[k + 1..]
              && multiset(r) + multiset{q[k]} == multiset(q)
    ensures id !in Ids(q) ==> StepQueue(ProcessAck, q, Frames.PublishAckFrame(id) + rest, true) == q
  {
    var input := Frames.PublishAckFrame(id) + rest;
    PubAckOfFrame(input, id, rest);
    RemovedUnique(q, id);
    var k := IndexOf(q, id);
    if id in Ids(q) {
      var j :| 0 <= j < |q| && Ids(q)[j] == id;
      assert q[j].id == id;
      assert k < |q|;
      RemovedPresent(q, id, k);
    } else {
      assert forall i :: 0 <= i < |q| ==> q[i].id != id by {
        forall i | 0 <= i < |q| ensures q[i].id != id {
          assert Ids(q)[i] == q[i].id;
        }
      }
      RemovedAbsent(q, id);
    }
  }

  /** The head frame's flags: QoS 1, DUP exactly on a retransmission,
      RETAIN as requested. */
  lemma HeadFrameFlags(p: Pending)
    ensures HeadFrame(p)[0] == 0x30 + 2 + (if p.tries > 0 then 8 else 0) + (if p.retain then 1 else 0)
  {
  }
}
