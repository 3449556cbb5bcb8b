/** MQTTSocket.cpp: a socket that assembles each frame in a 256-byte write
    buffer, sends it on `flush`, latches write and read errors, numbers
    its own publishes and subscriptions, and decodes incoming frames. */
module Socket {
  import opened Wire
  import opened Packets
  import opened SocketRead
  import Frames

  /** `sizeof writebuffer`. */
  const BufferSize: nat := 256

  /** The packet-id step of `sendPublishRequest` / `sendSubscribeRequest`:
      `packetid++` as a uint16, then 0 is replaced by 1 (section 2.3.1). */
  function NextPacketId(p: uint16): (r: uint16)
    ensures r != 0
    ensures p < 65535 ==> r == p + 1
    ensures p == 65535 ==> r == 1
  {
    if (p + 1) % 0x1_0000 == 0 then 1 else (p + 1) % 0x1_0000
  }

  /** What the buffer holds after the bytes `s` were offered to `writeByte`:
      everything past the capacity is dropped. */
  function Capped(s: seq<byte>): seq<byte>
  {
    if |s| <= BufferSize then s else s[..BufferSize]
  }

  class MQTTSocket {
    var packetid: uint16
    var writebuffer: array<byte>
    var writebufferlength: nat
    var readerror: bool
    var writeerror: bool

    /** The transport's side: what `client->read()` will return, one
        element per call (negative for a failed read), and every byte handed
        to `client->write`. */
    var input: seq<int>
    var sent: seq<byte>

    /** Every byte offered to `writeByte` since the last `flush`, including
        the ones the full buffer dropped. */
    ghost var written: seq<byte>

    /** The buffer is a prefix of what was written; a latched write error
        means nothing is pending. */
    ghost predicate Valid()
      reads this, writebuffer
    {
      writebuffer.Length == BufferSize
      && writebufferlength <= BufferSize
      && writebuffer[..writebufferlength] == Capped(written)
      && (writeerror ==> written == [])
    }

    /** Between two public operations the buffer is empty. */
    ghost predicate Idle()
      reads this, writebuffer
    {
      Valid() && written == []
    }

    function Stream(): ReadState
      reads this
    {
      ReadState(input, readerror)
    }

    /** `MQTTSocket(Client*)`: packet id 0, empty buffer, no error latched. */
    constructor (incoming: seq<int>)
      ensures Idle() && fresh(writebuffer)
      ensures packetid == 0 && writebufferlength == 0 && !writeerror && !readerror
      ensures input == incoming && sent == []
    {
      packetid := 0;
      writebuffer := new byte[BufferSize];
      writebufferlength := 0;
      writeerror := false;
      readerror := false;
      input := incoming;
      sent := [];
      written := [];
    }

    function GetPacketId(): uint16
      reads this
    {
      packetid
    }

    function IsWriteComplete(): bool
      reads this
    {
      !writeerror
    }

    function IsReadComplete(): bool
      reads this
    {
      !readerror
    }

    // -------------------------------------------------------------------
    // Writing

    /** `writeByte`: nothing once an error is latched; otherwise the byte is
        stored while there is room and silently dropped when there is not. */
    method WriteByte(value: byte)
      requires Valid()
      modifies this`writebufferlength, this`written, writebuffer
      ensures Valid()
      ensures writeerror ==> written == old(written)
      ensures !writeerror ==> written == old(written) + [value]
      ensures writebufferlength == if writeerror || old(writebufferlength) == BufferSize
                                   then old(writebufferlength) else old(writebufferlength) + 1
    {
      if writeerror {
        return;
      }
      if writebufferlength < writebuffer.Length {
        writebuffer[writebufferlength] := value;
        writebufferlength := writebufferlength + 1;
      }
      assert |old(written)| >= BufferSize ==> (old(written) + [value])[..BufferSize] == old(written)[..BufferSize];
      written := written + [value];
    }

    /** `writeString`: the bytes one by one. */
    method WriteString(value: seq<byte>)
      requires Valid()
      modifies this`writebufferlength, this`written, writebuffer
      ensures Valid()
      ensures writeerror ==> written == old(written)
      ensures !writeerror ==> written == old(written) + value
    {
      for i := 0 to |value|
        invariant Valid()
        invariant written == if writeerror then old(written) else old(written) + value[..i]
      {
        WriteByte(value[i]);
        assert value[..i + 1] == value[..i] + [value[i]];
        Frames.AppendAssoc(old(written), value[..i], [value[i]]);
      }
      assert value[..|value|] == value;
    }

    /** `writeShort`: high byte first. */
    method WriteShort(value: uint16)
      requires Valid()
      modifies this`writebufferlength, this`written, writebuffer
      ensures Valid()
      ensures writeerror ==> written == old(written)
      ensures !writeerror ==> written == old(written) + EncodeShort(value)
    {
      WriteByte(value / 256);
      WriteByte(value % 256);
    }

    /** `writeLengthString`: drops a string longer than 65535 bytes. */
    method WriteLengthString(value: seq<byte>)
      requires Valid()
      modifies this`writebufferlength, this`written, writebuffer
      ensures Valid()
      ensures writeerror ==> written == old(written)
      ensures !writeerror ==> written == old(written) + LengthString(value)
    {
      if |value| > MaxStringLength {
        return;
      }
      ghost var w0 := written;
      WriteShort(|value|);
      ghost var w1 := written;
      WriteString(value);
      assert !writeerror ==> written == w1 + value && w1 == w0 + EncodeShort(|value|);
      assert !writeerror ==> written == w0 + (EncodeShort(|value|) + value);
    }

    /** `writePacketLength`: seven bits at a time, continuation bit on all
        but the last byte. */
    method WritePacketLength(len: nat)
      requires Valid()
      modifies this`writebufferlength, this`written, writebuffer
      ensures Valid()
      ensures writeerror ==> written == old(written)
      ensures !writeerror ==> written == old(written) + EncodeLength(len)
    {
      var value := len;
      ghost var done: seq<byte> := [];
      while true
        invariant Valid()
        invariant done + EncodeLength(value) == EncodeLength(len)
        invariant writeerror ==> written == old(written)
        invariant !writeerror ==> written == old(written) + done
        decreases value
      {
        ghost var before := value;
        var digit := value % 128;
        value := value / 128;
        if value > 0 {
          WriteByte(digit + 128);
          assert EncodeLength(before) == [digit + 128] + EncodeLength(value);
          Frames.AppendAssoc(done, [digit + 128], EncodeLength(value));
          Frames.AppendAssoc(old(written), done, [digit + 128]);
          done := done + [digit + 128];
        } else {
          WriteByte(digit);
          assert EncodeLength(before) == [digit];
          Frames.AppendAssoc(old(written), done, [digit]);
          done := done + [digit];
          break;
        }
      }
    }

    /** `writeTypeFlags`: the control byte `type << 4 | flags`. */
    method WriteTypeFlags(kind: nat, flags: nat)
      requires Valid() && kind < 16 && flags < 16
      modifies this`writebufferlength, this`written, writebuffer
      ensures Valid()
      ensures writeerror ==> written == old(written)
      ensures !writeerror ==> written == old(written) + [ControlByte(kind, flags)]
    {
      WriteByte(ControlByte(kind, flags));
    }

    /** `flush`: with an error latched, nothing; a full buffer latches an
        error instead of sending; otherwise the buffer goes to the transport
        and the error flag is whatever the transport reports
        (`transportFails`). The buffer is empty afterwards. */
    method Flush(transportFails: bool)
      requires Valid()
      modifies this`writebufferlength, this`written, this`writeerror, this`sent
      ensures Idle() && writebufferlength == 0
      ensures old(writeerror) ==> writeerror && sent == old(sent)
      ensures !old(writeerror) && |old(written)| < BufferSize ==>
                sent == old(sent) + old(written) && writeerror == transportFails
      ensures !old(writeerror) && |old(written)| >= BufferSize ==> writeerror && sent == old(sent)
    {
      if writeerror {
        return;
      }
      if writebufferlength < writebuffer.Length {
        sent := sent + writebuffer[..writebufferlength];
        writeerror := transportFails;
      } else {
        writeerror := true;
      }
      writebufferlength := 0;
      written := [];
    }

    /** The outcome every sender promises for its frame: the frame reaches
        the transport only when no error was latched and it fits the
        buffer, and the result reports that and the transport's verdict. */
    twostate predicate Transmitted(frame: seq<byte>, transportFails: bool, ok: bool)
      reads this
    {
      && ok == (!old(writeerror) && |frame| < BufferSize && !transportFails)
      && writeerror == !ok
      && sent == old(sent) + (if !old(writeerror) && |frame| < BufferSize then frame else [])
    }

    /** The writes of `sendConnectRequest`, into an empty buffer. */
    method WriteConnectRequest(c: Frames.ConnectConfig)
      requires Idle()
      modifies this`writebufferlength, this`written, writebuffer
      ensures Valid()
      ensures writeerror ==> written == []
      ensures !writeerror ==> written == Frames.ConnectFrame(c)
    {
      WriteConnectHeader(c);
      WriteConnectPayload(c);
      if !writeerror {
        Frames.ConnectFrameSplit(c);
      }
    }

    /** The fixed and variable header of the CONNECT. */
    method WriteConnectHeader(c: Frames.ConnectConfig)
      requires Valid()
      modifies this`writebufferlength, this`written, writebuffer
      ensures Valid()
      ensures writeerror ==> written == old(written)
      ensures !writeerror ==> written == old(written) + Frames.ConnectHeader(c)
    {
      var connectflags := Frames.ConnectFlags(c.username.Some?, c.password.Some?);
      ghost var w0 := written;
      WriteTypeFlags(1, 0);
      WritePacketLength(Frames.ConnectLength(c));
      ghost var header := written;
      WriteLengthString(Frames.ProtocolName);
      ghost var w1 := written;
      WriteByte(Frames.ProtocolLevel);
      ghost var w2 := written;
      WriteByte(connectflags);
      ghost var w3 := written;
      WriteShort(c.keepAlive);
      if !writeerror {
        Frames.ConnectHeaderParts(c, w0, header, w1, w2, w3, written);
      }
    }

    /** The payload of the CONNECT: client id, then the credentials given. */
    method WriteConnectPayload(c: Frames.ConnectConfig)
      requires Valid()
      modifies this`writebufferlength, this`written, writebuffer
      ensures Valid()
      ensures writeerror ==> written == old(written)
      ensures !writeerror ==> written == old(written) + Frames.ConnectPayload(c)
    {
      ghost var w0 := written;
      WriteLengthString(c.clientId);
      ghost var w1 := written;
      if c.username.Some? {
        WriteLengthString(c.username.value);
      }
      ghost var w2 := written;
      if c.password.Some? {
        WriteLengthString(c.password.value);
      }
      if !writeerror {
        Frames.ConnectPayloadParts(c, w0, w1, w2, written);
      }
    }

    /** `sendConnectRequest`. */
    method SendConnectRequest(c: Frames.ConnectConfig, transportFails: bool) returns (ok: bool)
      requires Idle()
      modifies this`writebufferlength, this`written, this`writeerror, this`sent, writebuffer
      ensures Idle()
      ensures Transmitted(Frames.ConnectFrame(c), transportFails, ok)
    {
      WriteConnectRequest(c);
      Flush(transportFails);
      ok := IsWriteComplete();
    }

    /** The writes of `sendSubscribeRequest`. */
    method WriteSubscribeRequest(filter: seq<byte>, qos: byte)
      requires Idle()
      modifies this`writebufferlength, this`written, writebuffer
      ensures Valid()
      ensures writeerror ==> written == []
      ensures !writeerror ==> written == Frames.SubscribeFrame(packetid, filter, qos)
    {
      ghost var w0 := written;
      WriteTypeFlags(8, 2);
      WritePacketLength(Frames.SubscribeLength(filter));
      ghost var header := written;
      WriteShort(packetid);
      ghost var w1 := written;
      WriteLengthString(filter);
      ghost var w2 := written;
      WriteByte(qos);
      if !writeerror {
        Frames.SubscribeFrameParts(packetid, filter, qos, w0, header, w1, w2, written);
      }
    }

    /** `sendSubscribeRequest`: takes the next packet id first. */
    method SendSubscribeRequest(filter: seq<byte>, qos: byte, transportFails: bool) returns (ok: bool)
      requires Idle()
      modifies this`writebufferlength, this`written, this`writeerror, this`sent, this`packetid, writebuffer
      ensures Idle()
      ensures packetid == NextPacketId(old(packetid))
      ensures Transmitted(Frames.SubscribeFrame(packetid, filter, qos), transportFails, ok)
    {
      packetid := NextPacketId(packetid);
      WriteSubscribeRequest(filter, qos);
      Flush(transportFails);
      ok := IsWriteComplete();
    }

    /** The writes of `sendPublishRequest` once the flags and the packet id
        are settled. */
    method WritePublishRequest(topic: seq<byte>, payload: seq<byte>, flags: byte)
      requires Idle() && flags < 16
      modifies this`writebufferlength, this`written, writebuffer
      ensures Valid()
      ensures writeerror ==> written == []
      ensures !writeerror ==> written == Frames.PublishFrame(topic, payload, flags, packetid)
    {
      ghost var w0 := written;
      WriteTypeFlags(3, flags);
      WritePacketLength(Frames.PublishLength(topic, payload));
      ghost var header := written;
      WriteLengthString(topic);
      ghost var w1 := written;
      WriteShort(packetid);
      ghost var w2 := written;
      WriteString(payload);
      if !writeerror {
        Frames.PublishFrameParts(topic, payload, flags, packetid, w0, header, w1, w2, written);
      }
    }

    /** `sendPublishRequest`: QoS 1; a duplicate reuses the current packet
        id and sets DUP, a first attempt takes the next id. */
    method SendPublishRequest(topic: seq<byte>, payload: seq<byte>, retain: bool, duplicate: bool, transportFails: bool)
      returns (ok: bool)
      requires Idle()
      modifies this`writebufferlength, this`written, this`writeerror, this`sent, this`packetid, writebuffer
      ensures Idle()
      ensures packetid == if duplicate then old(packetid) else NextPacketId(old(packetid))
      ensures Transmitted(Frames.PublishFrame(topic, payload, Frames.PublishFlags(retain, duplicate), packetid),
                          transportFails, ok)
    {
      var flags := 2;
      if retain {
        flags := flags + 1;
      }
      if duplicate {
        flags := flags + 8;
      } else {
        packetid := NextPacketId(packetid);
      }
      assert flags == Frames.PublishFlags(retain, duplicate);
      WritePublishRequest(topic, payload, flags);
      Flush(transportFails);
      ok := IsWriteComplete();
    }

    method SendPingRequest(transportFails: bool) returns (ok: bool)
      requires Idle()
      modifies this`writebufferlength, this`written, this`writeerror, this`sent, writebuffer
      ensures Idle()
      ensures Transmitted(Frames.PingRequestFrame(), transportFails, ok)
    {
      WriteTypeFlags(12, 0);
      WritePacketLength(0);
      Flush(transportFails);
      ok := IsWriteComplete();
    }

    method SendPublishAcknowledgement(id: uint16, transportFails: bool) returns (ok: bool)
      requires Idle()
      modifies this`writebufferlength, this`written, this`writeerror, this`sent, writebuffer
      ensures Idle()
      ensures Transmitted(Frames.PublishAckFrame(id), transportFails, ok)
    {
      WriteTypeFlags(4, 0);
      WritePacketLength(2);
      WriteShort(id);
      Flush(transportFails);
      ok := IsWriteComplete();
    }

    /** `close`: clears both latches and the packet-id counter. */
    method Close()
      modifies this`writeerror, this`readerror, this`packetid
      ensures !writeerror && !readerror && packetid == 0
    {
      writeerror := false;
      readerror := false;
      packetid := 0;
    }

    // -------------------------------------------------------------------
    // Reading

    /** `readByte`. */
    method ReadByte() returns (b: byte)
      modifies this`input, this`readerror
      ensures (b, Stream()) == NextByte(old(Stream()))
    {
      if readerror {
        return 0;
      }
      if input == [] {
        readerror := true;
        return 0;
      }
      var i := input[0];
      input := input[1..];
      if i < 0 {
        readerror := true;
        return 0;
      }
      return i % 256;
    }

    /** `readShort`. */
    method ReadShort() returns (value: uint16)
      modifies this`input, this`readerror
      ensures (value, Stream()) == NextShort(old(Stream()))
    {
      var hi := ReadByte();
      var lo := ReadByte();
      value := ShortValue(hi, lo);
    }

    /** `readString(len)`: a fresh buffer of `len` bytes filled from the input. */
    method ReadString(len: nat) returns (s: seq<byte>)
      modifies this`input, this`readerror
      ensures s == NextBytes(old(Stream()), len).0
      ensures Stream() == NextBytes(old(Stream()), len).1
    {
      var str := new byte[len];
      ghost var goal := NextBytes(Stream(), len);
      assert str[..0] + goal.0 == goal.0;
      for i := 0 to len
        invariant goal.0 == str[..i] + NextBytes(Stream(), len - i).0
        invariant goal.1 == NextBytes(Stream(), len - i).1
      {
        ghost var before := Stream();
        ghost var prefix := str[..i];
        var b := ReadByte();
        str[i] := b;
        ghost var rest := NextBytes(Stream(), len - i - 1);
        NextBytesStep(before, len - i);
        assert str[..i + 1] == prefix + [b];
        Frames.AppendAssoc(prefix, [b], rest.0);
      }
      assert str[..len] == str[..];
      s := str[..];
    }

    /** `readPacketLength`: digits until one without the continuation bit. */
    method ReadPacketLength() returns (len: nat)
      modifies this`input, this`readerror
      ensures (len, Stream()) == NextLength(old(Stream()))
    {
      len := 0;
      var multiplier: nat := 1;
      while true
        invariant NextLengthFrom(Stream(), len, multiplier) == NextLength(old(Stream()))
        decreases |input|
      {
        ghost var before := Stream();
        var digit := ReadByte();
        len := len + (digit % 128) * multiplier;
        multiplier := multiplier * 128;
        if digit < 128 {
          break;
        }
      }
    }

    /** The drain loop of `receive`. */
    method Drain(length: nat)
      modifies this`input, this`readerror
      ensures Stream() == Drained(old(Stream()), length)
    {
      var remaining := length;
      while remaining > 0
        invariant Drained(Stream(), remaining) == Drained(old(Stream()), length)
      {
        var _ := ReadByte();
        remaining := remaining - 1;
      }
    }

    /** `receive`: decodes one frame, or drains it and returns `None`. */
    method Receive() returns (p: Option<Packet>)
      requires PublishFits(Stream())
      modifies this`input, this`readerror
      ensures (p, Stream()) == Received(old(Stream()))
    {
      ghost var st := Stream();
      var first := ReadByte();
      ghost var afterFirst := Stream();
      var length := ReadPacketLength();
      ReceivedHeader(st, first, afterFirst, length, Stream());
      p := ReceiveBody(FlagsOf(first), KindOf(first), length);
    }

    /** The part of `receive` after the fixed header. */
    method ReceiveBody(flags: byte, kind: nat, length: nat) returns (p: Option<Packet>)
      requires BodyFits(flags, kind, length, Stream())
      modifies this`input, this`readerror
      ensures (p, Stream()) == ReceivedBody(flags, kind, length, old(Stream()))
    {
      if kind == 2 {
        if length == 2 {
          var sessionpresent := ReadByte();
          var returncode := ReadByte();
          if IsReadComplete() {
            return Some(ConnectAcknowledgement(flags, kind, sessionpresent, returncode));
          }
        }
      } else if kind == 3 {
        p := ReceivePublishBody(flags, length);
        return;
      } else if kind == 4 {
        if length == 2 {
          var packetid := ReadShort();
          if IsReadComplete() {
            return Some(PublishAcknowledgement(flags, kind, packetid));
          }
        }
      } else if kind == 9 {
        if length == 3 {
          var packetid := ReadShort();
          var returncode := ReadByte();
          if IsReadComplete() {
            return Some(SubscribeAcknowledgement(flags, kind, packetid, returncode));
          }
        }
      } else if kind == 13 {
        if length == 0 && IsReadComplete() {
          return Some(PingResponse(flags, kind));
        }
      }
      Drain(length);
      return None;
    }

    /** The PUBLISH branch of `receive`: topic, packet id when QoS is not 0,
        and the rest of the frame as payload. */
    method ReceivePublishBody(flags: byte, length: nat) returns (p: Option<Packet>)
      requires BodyFits(flags, 3, length, Stream())
      modifies this`input, this`readerror
      ensures (p, Stream()) == ReceivedBody(flags, 3, length, old(Stream()))
    {
      var topiclength := ReadShort();
      var topic := ReadString(topiclength);
      var packetid: uint16 := 0;
      var payload: seq<byte>;
      if HasQos(flags) {
        packetid := ReadShort();
        payload := ReadString(length - topiclength - 4);
      } else {
        payload := ReadString(length - topiclength - 2);
      }
      if IsReadComplete() {
        return Some(PublishNotification(flags, 3, topic, packetid, payload));
      }
      Drain(length);
      return None;
    }
  }
}
