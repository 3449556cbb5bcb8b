/** MQTTClient.cpp: a session over a `Client` transport that keeps its
    unacknowledged QoS-1 publishes in a singly linked list of
    `PublishPacket` nodes and retransmits them round robin. */
module Client {
  import opened Wire
  import opened PendingQueue
  import opened Session
  import Frames
  import opened PublishList

  /** The storage of the static `MQTTClient::current`, shared by every
      client. */
  class Registry {
    var current: MQTTClient?

    constructor ()
      ensures current == null
    {
      current := null;
    }
  }

  class MQTTClient {
    const registry: Registry
    /** Client id, user name, password and keep-alive, as the constructor
        copies them. */
    const config: Frames.ConnectConfig

    var isconnected: bool
    var isACKconnected: bool
    var head: PublishPacket?
    var tail: PublishPacket?

    /** The `Client` transport: whether it is connected, the bytes it has
        received and not yet handed out, the bytes written to it, and its
        write-error flag. */
    var linked: bool
    var input: seq<byte>
    var output: seq<byte>
    var writeError: bool

    /** The list from `head` to `tail`, node by node, and what the nodes hold. */
    ghost var nodes: seq<PublishPacket>
    ghost var queue: seq<Pending>

    ghost predicate Valid()
      reads this`head, this`tail, this`nodes, this`queue, nodes
    {
      ListValid(head, tail, nodes, queue)
    }

    /** `MQTTClient(...)`: not connected and nothing queued. The transport
        starts with the bytes `incoming`. `isACKconnected` is left
        uninitialised, as in the source. */
    constructor (registry: Registry, config: Frames.ConnectConfig, incoming: seq<byte>)
      ensures Valid() && queue == []
      ensures this.registry == registry && this.config == config
      ensures !isconnected && !linked && !writeError
      ensures input == incoming && output == []
    {
      this.registry := registry;
      this.config := config;
      isconnected := false;
      head := null;
      tail := null;
      linked := false;
      input := incoming;
      output := [];
      writeError := false;
      nodes := [];
      queue := [];
    }

    // -------------------------------------------------------------------
    // Transport

    method WriteByte(value: byte)
      modifies this`output
      ensures output == old(output) + [value]
    {
      output := output + [value];
    }

    /** `writeString`: one `client->write` of the whole buffer. */
    method WriteString(value: seq<byte>)
      modifies this`output
      ensures output == old(output) + value
    {
      output := output + value;
    }

    method WriteShort(value: uint16)
      modifies this`output
      ensures output == old(output) + EncodeShort(value)
    {
      WriteByte(value / 256);
      WriteByte(value % 256);
    }

    /** `writeLengthString`: nothing for a string longer than 65535 bytes. */
    method WriteLengthString(value: seq<byte>)
      modifies this`output
      ensures output == old(output) + LengthString(value)
    {
      if |value| > MaxStringLength {
        return;
      }
      WriteShort(|value|);
      WriteString(value);
    }

    method WriteTypeFlags(kind: nat, flags: nat)
      requires kind < 16 && flags < 16
      modifies this`output
      ensures output == old(output) + [ControlByte(kind, flags)]
    {
      WriteByte(ControlByte(kind, flags));
    }

    /** `writePacketLength`: seven bits per byte, continuation bit on all
        but the last. */
    method WritePacketLength(len: nat)
      modifies this`output
      ensures output == old(output) + EncodeLength(len)
    {
      var value := len;
      ghost var done: seq<byte> := [];
      while true
        invariant done + EncodeLength(value) == EncodeLength(len)
        invariant output == old(output) + done
        decreases value
      {
        ghost var before := value;
        var digit := value % 128;
        value := value / 128;
        if value > 0 {
          WriteByte(digit + 128);
          assert EncodeLength(before) == [digit + 128] + EncodeLength(value);
          assert (done + [digit + 128]) + EncodeLength(value) == done + EncodeLength(before);
          done := done + [digit + 128];
        } else {
          WriteByte(digit);
          assert EncodeLength(before) == [digit];
          done := done + [digit];
          break;
        }
      }
    }

    /** `flush`: the transport reports a failure (`linkFails`) by raising
        its write-error flag, which stays up until `stop` clears it. */
    method Flush(linkFails: bool)
      modifies this`writeError
      ensures writeError == (old(writeError) || linkFails)
    {
      if linkFails {
        writeError := true;
      }
    }

    function GetWriteError(): bool
      reads this
    {
      writeError
    }

    function Available(): nat
      reads this
    {
      |input|
    }

    /** `client->read()`: the next byte, or -1 when none is waiting. */
    method Read() returns (value: int)
      modifies this`input
      ensures value == ReadAt(old(input), 0)
      ensures input == Remaining(old(input), 1)
    {
      if input == [] {
        return -1;
      }
      value := input[0];
      input := input[1..];
    }

    method ReadByte() returns (value: byte)
      modifies this`input
      ensures value == ByteAt(old(input), 0)
      ensures input == Remaining(old(input), 1)
    {
      var v := Read();
      value := v % 256;
    }

    method ReadShort() returns (value: uint16)
      modifies this`input
      ensures value == ShortAt(old(input), 0)
      ensures input == Remaining(old(input), 2)
    {
      var hi := Read();
      value := hi % 0x1_0000;
      value := value * 256 % 0x1_0000;
      var lo := Read();
      value := (value + lo) % 0x1_0000;
    }

    /** `stop`: a connected transport is stopped and its write error
        cleared; the session is marked disconnected and `current` cleared,
        whichever client it pointed to. */
    method Stop()
      modifies this`linked, this`writeError, this`isconnected, registry`current
      ensures !isconnected && !linked && registry.current == null
      ensures writeError == (old(writeError) && !old(linked))
    {
      if linked {
        linked := false;
        writeError := false;
      }
      isconnected := false;
      registry.current := null;
    }

    // -------------------------------------------------------------------
    // Frames

    /** `sendConnectPacket`. */
    method SendConnectPacket(linkFails: bool) returns (ok: bool)
      modifies this`output, this`writeError
      ensures output == old(output) + Frames.ConnectFrame(config)
      ensures writeError == (old(writeError) || linkFails)
      ensures ok == !writeError
    {
      WriteConnectPacket();
      Flush(linkFails);
      ok := !GetWriteError();
    }

    /** The writes of `sendConnectPacket`: the remaining length and the
        connect flags computed as the source does, then the fields in order. */
    method WriteConnectPacket()
      modifies this`output
      ensures output == old(output) + Frames.ConnectFrame(config)
    {
      ghost var w0 := output;
      WriteConnectHeader();
      ghost var w1 := output;
      WriteConnectPayload();
      Frames.ConnectFrameSplit(config);
      Frames.AppendAssoc(w0, Frames.ConnectHeader(config), Frames.ConnectPayload(config));
    }

    /** The fixed and variable header of the CONNECT. */
    method WriteConnectHeader()
      modifies this`output
      ensures output == old(output) + Frames.ConnectHeader(config)
    {
      var packetlength := ConnectPacketLength();
      var connectflags := ConnectFlagsByte();
      ghost var w0 := output;
      WriteTypeFlags(1, 0);
      WritePacketLength(packetlength);
      ghost var header := output;
      WriteLengthString(Frames.ProtocolName);
      ghost var w1 := output;
      WriteByte(Frames.ProtocolLevel);
      ghost var w2 := output;
      WriteByte(connectflags);
      ghost var w3 := output;
      WriteShort(config.keepAlive);
      Frames.ConnectHeaderParts(config, w0, header, w1, w2, w3, output);
    }

    /** The payload of the CONNECT: client id, then the credentials given. */
    method WriteConnectPayload()
      modifies this`output
      ensures output == old(output) + Frames.ConnectPayload(config)
    {
      ghost var w0 := output;
      WriteLengthString(config.clientId);
      ghost var w1 := output;
      if config.username.Some? {
        WriteLengthString(config.username.value);
      }
      ghost var w2 := output;
      if config.password.Some? {
        WriteLengthString(config.password.value);
      }
      Frames.ConnectPayloadParts(config, w0, w1, w2, output);
    }

    /** `packetlength` of `sendConnectPacket`: the fixed part, the client
        id, and two bytes plus the length of each credential given. */
    method ConnectPacketLength() returns (packetlength: nat)
      ensures packetlength == 12 + |config.clientId|
                              + (if config.username.Some? then 2 + |config.username.value| else 0)
                              + (if config.password.Some? then 2 + |config.password.value| else 0)
      ensures packetlength == Frames.ConnectLength(config)
    {
      packetlength := 2 + 4 + 1 + 1 + 2 + 2 + |config.clientId|;
      if config.username.Some? {
        packetlength := packetlength + 2 + |config.username.value|;
      }
      if config.password.Some? {
        packetlength := packetlength + 2 + |config.password.value|;
      }
    }

    /** `connectflags` of `sendConnectPacket`: clean session, then the user
        name and password bits. */
    method ConnectFlagsByte() returns (connectflags: byte)
      ensures connectflags == Frames.ConnectFlags(config.username.Some?, config.password.Some?)
      ensures connectflags % 4 == 2
      ensures (connectflags / 128 == 1) == config.username.Some?
      ensures (connectflags / 64 % 2 == 1) == config.password.Some?
    {
      connectflags := 2;
      if config.username.Some? {
        connectflags := connectflags + 128;
      }
      if config.password.Some? {
        connectflags := connectflags + 64;
      }
    }

    /** `sendHeadPublishPacket`: QoS 1, DUP once the head was tried,
        RETAIN as queued. */
    method SendHeadPublishPacket(linkFails: bool) returns (ok: bool)
      requires Valid() && head != null
      modifies this`output, this`writeError
      ensures output == old(output) + HeadFrame(queue[0])
      ensures writeError == (old(writeError) || linkFails)
      ensures ok == !writeError
    {
      var packetlength := 2 + |head.topicname| + 2 + |head.payload|;
      var flags: byte := 2;
      if head.trycount > 0 {
        flags := flags + 8;
      }
      if head.retain {
        flags := flags + 1;
      }
      assert head.Item() == queue[0];
      assert flags == Frames.PublishFlags(head.retain, head.trycount > 0);
      ghost var w0 := output;
      WriteTypeFlags(3, flags);
      WritePacketLength(packetlength);
      ghost var header := output;
      WriteLengthString(head.topicname);
      ghost var w1 := output;
      WriteShort(head.packetid);
      ghost var w2 := output;
      WriteString(head.payload);
      Frames.PublishFrameParts(head.topicname, head.payload, flags, head.packetid, w0, header, w1, w2, output);
      Flush(linkFails);
      ok := !GetWriteError();
    }

    /** `sendDisconnectPacket`. */
    method SendDisconnectPacket(linkFails: bool)
      modifies this`output, this`writeError
      ensures output == old(output) + Frames.DisconnectFrame()
      ensures writeError == (old(writeError) || linkFails)
    {
      WriteTypeFlags(14, 0);
      WritePacketLength(0);
      Flush(linkFails);
    }

    // -------------------------------------------------------------------
    // The publish list

    /** `publishAcknowledged`: nothing is waiting for a PUBACK. */
    function PublishAcknowledged(): (r: bool)
      requires Valid()
      reads this`head, this`tail, this`nodes, this`queue, nodes
      ensures r <==> queue == []
    {
      head == null
    }

    /** The scan of `enqueuePublishPacket`: the largest id in the list,
        and at least 1. */
    method LargestPacketId() returns (packetid: uint16)
      requires Valid() && head != null
      ensures packetid == MaxId(queue)
    {
      packetid := 1;
      var p := head;
      ghost var i := 0;
      while p != null
        invariant 0 <= i <= |nodes|
        invariant p == if i < |nodes| then nodes[i] else null
        invariant packetid == MaxId(queue[..i])
        decreases |nodes| - i
      {
        assert queue[..i + 1][..i] == queue[..i];
        assert nodes[i].Item() == queue[i];
        if p.packetid > packetid {
          packetid := p.packetid;
        }
        p := p.next;
        i := i + 1;
      }
      assert queue[..|queue|] == queue;
    }

    /** `enqueuePublishPacket`: links the packet in front with the next id
        and no tries. */
    method EnqueuePublishPacket(packet: PublishPacket)
      requires Valid() && packet !in nodes
      modifies this`head, this`tail, this`nodes, this`queue, packet`packetid, packet`trycount, packet`next
      ensures Valid()
      ensures queue == Enqueued(old(queue), packet.retain, packet.topicname, packet.payload)
      ensures nodes == [packet] + old(nodes)
      ensures old(nodes) != [] ==> tail == old(tail)
    {
      var packetid: uint16 := 1;
      if head != null {
        packetid := LargestPacketId();
        packetid := (packetid + 1) % 0x1_0000;
      }
      assert packetid == NewId(queue);
      LinkFront(packet, packetid);
    }

    /** The linking step of `enqueuePublishPacket`, once the id is chosen. */
    method LinkFront(packet: PublishPacket, packetid: uint16)
      requires Valid() && packet !in nodes
      modifies this`head, this`tail, this`nodes, this`queue, packet`packetid, packet`trycount, packet`next
      ensures Valid()
      ensures queue == [Pending(packet.retain, packet.topicname, packet.payload, packetid, 0)] + old(queue)
      ensures nodes == [packet] + old(nodes)
      ensures old(nodes) != [] ==> tail == old(tail)
    {
      ghost var item := Pending(packet.retain, packet.topicname, packet.payload, packetid, 0);
      packet.Link(packetid, head);
      head := packet;
      if tail == null {
        tail := head;
      }
      assert packet.Item() == item;
      ChainCons(packet, nodes);
      HoldsCons(packet, item, nodes, queue);
      DistinctCons(packet, nodes);
      Track([packet] + nodes, [item] + queue);
    }

    /** Points the ghost view at the list the links now form. */
    ghost method Track(ns: seq<PublishPacket>, q: seq<Pending>)
      requires Ends(head, tail, ns) && Chain(ns) && Distinct(ns) && Holds(ns, q) && Bounded(q)
      modifies this`nodes, this`queue
      ensures nodes == ns && queue == q
      ensures Valid()
    {
      nodes := ns;
      queue := q;
    }

    /** `removePublishPacket`: unlinks the first node with the id, fixing
        `head` and `tail` when it was one of them; an id nobody carries
        changes nothing. */
    method RemovePublishPacket(packetid: uint16)
      requires Valid()
      modifies this`head, this`tail, this`nodes, this`queue, nodes`next
      ensures Valid()
      ensures queue == Removed(old(queue), packetid)
    {
      var last, packet, i := FindPublishPacket(packetid);
      if packet != null {
        Unlink(last, packet, i);
      }
    }

    /** The scan of `removePublishPacket`: it stops at the first node with
        the id, with `last` its predecessor, or runs off the end. */
    method FindPublishPacket(packetid: uint16) returns (last: PublishPacket?, packet: PublishPacket?, ghost i: nat)
      requires Valid()
      ensures i == IndexOf(queue, packetid)
      ensures packet == if i < |nodes| then nodes[i] else null
      ensures i < |nodes| ==> last == if i == 0 then null else nodes[i - 1]
    {
      last := null;
      packet := head;
      i := 0;
      while packet != null
        invariant 0 <= i <= |nodes|
        invariant packet == if i < |nodes| then nodes[i] else null
        invariant last == if i == 0 then null else nodes[i - 1]
        invariant forall j :: 0 <= j < i ==> queue[j].id != packetid
        decreases |nodes| - i
      {
        assert nodes[i].Item() == queue[i];
        if packet.packetid == packetid {
          IndexOfFirst(queue, packetid, i);
          return;
        }
        last := packet;
        packet := packet.next;
        i := i + 1;
      }
      RemovedAbsent(queue, packetid);
    }

    /** The unlinking step of `removePublishPacket` for the node at
        position `i`, whose predecessor is `last`. */
    method Unlink(last: PublishPacket?, packet: PublishPacket, ghost i: nat)
      requires Valid() && i < |nodes| && packet == nodes[i]
      requires last == if i == 0 then null else nodes[i - 1]
      modifies this`head, this`tail, this`nodes, this`queue, (if last == null then {} else {last})`next
      ensures Valid()
      ensures nodes == old(nodes[..i] + nodes[i + 1..])
      ensures queue == old(queue[..i] + queue[i + 1..])
    {
      ghost var ns := nodes;
      ghost var q := queue;
      if last != null {
        last.next := packet.next;
      }
      if packet == head {
        head := packet.next;
      }
      if packet == tail {
        tail := last;
      }
      ChainWithout(ns, i);
      HoldsWithout(ns, q, i);
      DistinctWithout(ns, i);
      Track(ns[..i] + ns[i + 1..], q[..i] + q[i + 1..]);
    }

    /** `rotatePublishPackets`: with two or more nodes the head becomes
        the tail. */
    method RotatePublishPackets()
      requires Valid()
      modifies this`head, this`tail, this`nodes, this`queue, nodes`next
      ensures Valid()
      ensures queue == Rotated(old(queue))
      ensures nodes == if |old(nodes)| < 2 then old(nodes) else old(nodes[1..] + [nodes[0]])
    {
      if head == null || head == tail {
        return;
      }
      ghost var ns := nodes;
      ghost var q := queue;
      tail.next := head;
      tail := head;
      head := head.next;
      tail.next := null;
      ChainRotated(ns);
      HoldsRotated(ns, q);
      DistinctRotated(ns);
      Track(ns[1..] + [ns[0]], q[1..] + [q[0]]);
    }

    /** `head->trycount++`. */
    method CountHeadTry()
      requires Valid() && head != null && head.trycount < TryTime
      modifies this`queue, head`trycount
      ensures Valid()
      ensures old(queue) != [] && old(queue[0].tries) < TryTime
      ensures queue == Bumped(old(queue))
    {
      assert head.Item() == queue[0];
      head.trycount := head.trycount + 1;
      queue := Bumped(queue);
    }

    // -------------------------------------------------------------------
    // Session

    /** `connected`: whether a CONNACK accepted the session. */
    function Connected(): (r: bool)
      reads this`isconnected
      ensures r == isconnected
    {
      isconnected
    }

    /** `publish`: a new node with the retain flag, topic and payload is
        queued in front with the next id, this client becomes `current`,
        and `isACKconnected` is cleared so that the retransmission waits
        for it. */
    method Publish(retain: bool, topic: seq<byte>, payload: seq<byte>) returns (ok: bool)
      requires Valid()
      modifies this`head, this`tail, this`nodes, this`queue, this`isACKconnected, registry`current
      ensures Valid() && ok
      ensures queue == Enqueued(old(queue), retain, topic, payload)
      ensures |nodes| == |old(nodes)| + 1 && fresh(nodes[0]) && nodes[1..] == old(nodes)
      ensures registry.current == this && !isACKconnected
    {
      var packet := new PublishPacket(retain, topic, payload);
      registry.current := this;
      EnqueuePublishPacket(packet);
      isACKconnected := false;
      return true;
    }

    /** `disconnect`: a DISCONNECT only while the session is up, then `stop`. */
    method Disconnect(linkFails: bool)
      modifies this`output, this`writeError, this`linked, this`isconnected, registry`current
      ensures output == old(output) + (if old(isconnected) then Frames.DisconnectFrame() else [])
      ensures !isconnected && !linked && registry.current == null
      ensures writeError == ((old(writeError) || (old(isconnected) && linkFails)) && !old(linked))
    {
      if isconnected {
        SendDisconnectPacket(linkFails);
      }
      Stop();
    }

    /** `connect`: only while no client is current; `reachable` is the
        outcome of `client->connect(host, port)`. A sent CONNECT makes this
        client current (the session is up only once the CONNACK is read);
        a failed one stops the transport again. */
    method Connect(reachable: bool, linkFails: bool) returns (ok: bool)
      modifies this`linked, this`output, this`writeError, this`isconnected, registry`current
      ensures old(registry.current) != null || !reachable ==>
                !ok && output == old(output) && linked == old(linked) && writeError == old(writeError)
                && isconnected == old(isconnected) && registry.current == old(registry.current)
      ensures old(registry.current) == null && reachable ==>
                output == old(output) + Frames.ConnectFrame(config) && ok == !(old(writeError) || linkFails)
      ensures old(registry.current) == null && reachable && ok ==>
                linked && registry.current == this && isconnected == old(isconnected) && !writeError
      ensures old(registry.current) == null && reachable && !ok ==>
                !linked && !writeError && !isconnected && registry.current == null
    {
      if registry.current == null {
        if reachable {
          linked := true;
          var sent := SendConnectPacket(linkFails);
          if sent {
            registry.current := this;
            return true;
          }
          Stop();
        }
      }
      return false;
    }

    /** `receiveConnectAcknowledgementPacket`: four reads; type 2 with flags
        0, length 2 and return code 0 bring the session up, anything else
        stops it. */
    method ReceiveConnectAcknowledgementPacket()
      modifies this`input, this`isconnected, this`isACKconnected, this`linked, this`writeError, registry`current
      ensures input == Remaining(old(input), 4)
      ensures ConnAckAccepted(old(input)) ==>
                isconnected && isACKconnected && linked == old(linked) && writeError == old(writeError)
                && registry.current == old(registry.current)
      ensures !ConnAckAccepted(old(input)) ==>
                !isconnected && !linked && registry.current == null && writeError == (old(writeError) && !old(linked))
    {
      ghost var bytes := input;
      var typeflags := ReadByte();
      var packetlength := ReadByte();
      RemainingReads(bytes, 1, 0);
      RemainingReads(bytes, 1, 1);
      var sessionpresent := ReadByte();
      RemainingReads(bytes, 2, 0);
      RemainingReads(bytes, 2, 1);
      var returncode := ReadByte();
      RemainingReads(bytes, 3, 0);
      RemainingReads(bytes, 3, 1);
      if typeflags == 2 * 16 && packetlength == 2 {
        if returncode == 0 {
          isconnected := true;
          isACKconnected := true;
          return;
        }
      }
      Stop();
    }

    /** `receivePublishAcknowledgementPacket`: four reads; a PUBACK header
        removes the id it carries, anything else disconnects. */
    method ReceivePublishAcknowledgementPacket(linkFails: bool)
      requires Valid()
      modifies this`input, this`head, this`tail, this`nodes, this`queue, nodes`next
      modifies this`output, this`writeError, this`linked, this`isconnected, registry`current
      ensures Valid()
      ensures input == Remaining(old(input), 4)
      ensures PubAckHeader(old(input)) ==>
                queue == Removed(old(queue), PubAckId(old(input))) && output == old(output)
                && isconnected == old(isconnected) && linked == old(linked) && writeError == old(writeError)
                && registry.current == old(registry.current)
      ensures !PubAckHeader(old(input)) ==>
                queue == old(queue) && output == old(output) + (if old(isconnected) then Frames.DisconnectFrame() else [])
                && !isconnected && !linked && registry.current == null
                && writeError == ((old(writeError) || (old(isconnected) && linkFails)) && !old(linked))
    {
      var typeflags, packetlength, packetid := ReadPublishAcknowledgement();
      HandlePublishAcknowledgement(typeflags, packetlength, packetid, linkFails);
    }

    /** The test of `receivePublishAcknowledgementPacket` on what it read. */
    method HandlePublishAcknowledgement(typeflags: byte, packetlength: byte, packetid: uint16, linkFails: bool)
      requires Valid()
      modifies this`head, this`tail, this`nodes, this`queue, nodes`next
      modifies this`output, this`writeError, this`linked, this`isconnected, registry`current
      ensures Valid()
      ensures typeflags == 4 * 16 && packetlength == 2 ==>
                queue == Removed(old(queue), packetid) && output == old(output)
                && isconnected == old(isconnected) && linked == old(linked) && writeError == old(writeError)
                && registry.current == old(registry.current)
      ensures !(typeflags == 4 * 16 && packetlength == 2) ==>
                queue == old(queue) && output == old(output) + (if old(isconnected) then Frames.DisconnectFrame() else [])
                && !isconnected && !linked && registry.current == null
                && writeError == ((old(writeError) || (old(isconnected) && linkFails)) && !old(linked))
    {
      if typeflags == 4 * 16 && packetlength == 2 {
        RemovePublishPacket(packetid);
        return;
      }
      Disconnect(linkFails);
    }

    /** The reads of `receivePublishAcknowledgementPacket`: two bytes and
        a short. */
    method ReadPublishAcknowledgement() returns (typeflags: byte, packetlength: byte, packetid: uint16)
      modifies this`input
      ensures typeflags == ByteAt(old(input), 0) && packetlength == ByteAt(old(input), 1)
      ensures packetid == PubAckId(old(input))
      ensures input == Remaining(old(input), 4)
    {
      ghost var bytes := input;
      typeflags := ReadByte();
      packetlength := ReadByte();
      RemainingReads(bytes, 1, 0);
      RemainingReads(bytes, 1, 1);
      packetid := ReadShort();
      RemainingReads(bytes, 2, 0);
      RemainingReads(bytes, 2, 1);
      RemainingReads(bytes, 2, 2);
    }

    /** The resend branch of `transmitPublishPackets`: a sent head is
        counted and rotated to the back, a failed send stops the session. */
    method ResendHead(linkFails: bool) returns (ok: bool)
      requires Valid() && head != null && head.trycount < TryTime
      modifies this`head, this`tail, this`nodes, this`queue, nodes`next, nodes`trycount
      modifies this`output, this`writeError, this`linked, this`isconnected, registry`current
      ensures Valid()
      ensures old(queue) != [] && old(queue[0].tries) < TryTime
      ensures output == old(output) + HeadFrame(old(queue[0]))
      ensures ok == !(old(writeError) || linkFails)
      ensures ok ==> queue == Rotated(Bumped(old(queue))) && writeError == old(writeError)
                     && isconnected == old(isconnected) && linked == old(linked) && registry.current == old(registry.current)
      ensures !ok ==> queue == old(queue) && !isconnected && !linked && registry.current == null
                      && writeError == !old(linked)
    {
      assert head.Item() == queue[0];
      ok := SendHeadPublishPacket(linkFails);
      assert Valid();
      if ok {
        CountAndRotate();
        return;
      }
      Stop();
      assert Valid();
    }

    /** After a successful send: `head->trycount++`, then
        `rotatePublishPackets`. */
    method CountAndRotate()
      requires Valid() && head != null && head.trycount < TryTime
      modifies this`head, this`tail, this`nodes, this`queue, nodes`next, nodes`trycount
      ensures Valid()
      ensures old(queue) != [] && old(queue[0].tries) < TryTime
      ensures queue == Rotated(Bumped(old(queue)))
    {
      ghost var q0 := queue;
      CountHeadTry();
      ghost var q1 := queue;
      assert q1 == Bumped(q0);
      RotatePublishPackets();
    }

    /** `transmitPublishPackets`, one step: the branch is `StepAction`, the
        queue afterwards `StepQueue`, the bytes written `StepOutput`, and
        the delay returned is the next `transmitPublishPacketsAfter`. */
    method TransmitPublishPackets(linkFails: bool) returns (next: Next, ghost a: Action)
      requires Valid()
      modifies this`input, this`head, this`tail, this`nodes, this`queue, nodes`next, nodes`trycount
      modifies this`output, this`writeError, this`linked, this`isconnected, registry`current
      ensures a == StepAction(old(isconnected), old(registry.current) == this, old(queue), |old(input)|)
      ensures next == StepDelay(a, !(old(writeError) || linkFails))
      ensures Valid()
      ensures queue == StepQueue(a, old(queue), old(input), !(old(writeError) || linkFails))
      ensures output == old(output) + StepOutput(a, old(queue), old(input))
      ensures input == if a == ProcessAck then Remaining(old(input), 4) else old(input)
      ensures !StepStops(a, old(input), !(old(writeError) || linkFails)) ==>
                isconnected == old(isconnected) && linked == old(linked) && writeError == old(writeError)
                && registry.current == old(registry.current)
      ensures StepStops(a, old(input), !(old(writeError) || linkFails)) ==>
                !isconnected && !linked && registry.current == null
                && writeError == ((old(writeError) || linkFails) && !old(linked))
    {
      a := StepAction(isconnected, registry.current == this, queue, |input|);
      if isconnected && registry.current == this && head != null {
        if Available() >= 4 {
          assert a == ProcessAck;
          AcknowledgementStep(linkFails);
          return After(RecheckInterval), a;
        }
        assert head.Item() == queue[0];
        if head.trycount >= TryTime {
          assert a == Discard;
          DiscardStep();
          return After(RecheckInterval), a;
        }
        assert a == Resend;
        var sent := ResendStep(linkFails);
        if sent {
          return After(IntervalToRetry), a;
        }
      }
      return Idle, a;
    }

    /** The acknowledgement branch of `transmitPublishPackets`, in the
        terms of `StepQueue`, `StepOutput` and `StepStops`. */
    method AcknowledgementStep(linkFails: bool)
      requires Valid() && isconnected && |input| >= 4
      modifies this`input, this`head, this`tail, this`nodes, this`queue, nodes`next
      modifies this`output, this`writeError, this`linked, this`isconnected, registry`current
      ensures Valid()
      ensures queue == StepQueue(ProcessAck, old(queue), old(input), !(old(writeError) || linkFails))
      ensures output == old(output) + StepOutput(ProcessAck, old(queue), old(input))
      ensures input == Remaining(old(input), 4)
      ensures !StepStops(ProcessAck, old(input), !(old(writeError) || linkFails)) ==>
                isconnected == old(isconnected) && linked == old(linked) && writeError == old(writeError)
                && registry.current == old(registry.current)
      ensures StepStops(ProcessAck, old(input), !(old(writeError) || linkFails)) ==>
                !isconnected && !linked && registry.current == null
                && writeError == ((old(writeError) || linkFails) && !old(linked))
    {
      ReceivePublishAcknowledgementPacket(linkFails);
    }

    /** The discard branch of `transmitPublishPackets`: the head's id is
        removed, which drops the head; nothing is written. */
    method DiscardStep()
      requires Valid() && head != null && head.trycount >= TryTime
      modifies this`head, this`tail, this`nodes, this`queue, nodes`next
      ensures Valid()
      ensures old(queue) != [] && old(queue[0].tries) >= TryTime
      ensures queue == Removed(old(queue), old(queue[0].id)) == old(queue[1..])
    {
      assert head.Item() == queue[0];
      RemovedHead(queue);
      RemovePublishPacket(head.packetid);
    }

    /** The resend branch of `transmitPublishPackets`, in the terms of
        `StepQueue`, `StepOutput` and `StepStops`. */
    method ResendStep(linkFails: bool) returns (ok: bool)
      requires Valid() && head != null && head.trycount < TryTime
      modifies this`head, this`tail, this`nodes, this`queue, nodes`next, nodes`trycount
      modifies this`output, this`writeError, this`linked, this`isconnected, registry`current
      ensures ok == !(old(writeError) || linkFails)
      ensures Valid()
      ensures queue == StepQueue(Resend, old(queue), old(input), ok)
      ensures output == old(output) + StepOutput(Resend, old(queue), old(input))
      ensures ok ==> isconnected == old(isconnected) && linked == old(linked) && writeError == old(writeError)
                     && registry.current == old(registry.current)
      ensures !ok ==> !isconnected && !linked && registry.current == null && writeError == !old(linked)
    {
      assert head.Item() == queue[0];
      ok := ResendHead(linkFails);
    }

    /** `~MQTTClient`: walks the list to its end, then clears `tail`, and
        `current` if it is this client. */
    method Teardown()
      requires Valid()
      modifies this`head, this`tail, this`nodes, this`queue, registry`current
      ensures Valid() && queue == [] && head == null && tail == null
      ensures registry.current == if old(registry.current) == this then null else old(registry.current)
    {
      ghost var i := 0;
      while head != null
        invariant 0 <= i <= |nodes| && Chain(nodes)
        invariant head == if i < |nodes| then nodes[i] else null
        modifies this`head
        decreases |nodes| - i
      {
        var successor := head.next;
        head := successor;
        i := i + 1;
      }
      tail := null;
      Track([], []);
      if registry.current == this {
        registry.current := null;
      }
    }
  }
}
