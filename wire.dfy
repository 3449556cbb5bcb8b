/** Byte-level building blocks of the MQTT 3.1.1 wire format shared by the
    session (MQTTClient.cpp) and the socket (MQTTSocket.cpp): the control byte
    (section 2.2.1), big-endian 16-bit integers (section 1.5.2),
    length-prefixed strings (section 1.5.3) and the Remaining Length
    varint (section 2.2.3). */
module Wire {

  /** An unsigned 8-bit value (`uint8_t`). */
  type byte = x: int | 0 <= x < 0x100

  /** An unsigned 16-bit value (`uint16_t`). */
  type uint16 = x: int | 0 <= x < 0x1_0000

  datatype Option<+T> = None | Some(value: T)

  /** Longest string a 16-bit length prefix can describe. */
  const MaxStringLength: nat := 65535

  /** Largest Remaining Length that fits the four bytes MQTT allows. */
  const MaxRemainingLength: nat := 0x0FFF_FFFF

  /** `type << 4 | flags`: packet type in the high nibble, flags in the low one. */
  function ControlByte(kind: nat, flags: nat): byte
    requires kind < 16 && flags < 16
  {
    kind * 16 + flags
  }

  /** The packet type held in a control byte (`firstbyte >> 4`). */
  function KindOf(b: byte): byte { b / 16 }

  /** The flags held in a control byte (`firstbyte & 15`). */
  function FlagsOf(b: byte): byte { b % 16 }

  /** `writeShort`: high byte first. */
  function EncodeShort(v: uint16): seq<byte>
  {
    [v / 256, v % 256]
  }

  /** The value a big-endian pair of bytes denotes (`readShort` on two good reads). */
  function ShortValue(hi: byte, lo: byte): uint16
  {
    hi * 256 + lo
  }

  /** `writePacketLength`: seven value bits per byte, least significant group
      first, bit 7 set on every byte that is followed by another. */
  function EncodeLength(n: nat): seq<byte>
    decreases n
  {
    if n / 128 > 0 then [n % 128 + 128] + EncodeLength(n / 128) else [n % 128]
  }

  /** `writeLengthString`: nothing at all when the string is too long,
      otherwise its length as a short followed by its raw bytes. */
  function LengthString(s: seq<byte>): seq<byte>
  {
    if |s| > MaxStringLength then [] else EncodeShort(|s|) + s
  }

  lemma ControlByteSplits(kind: nat, flags: nat)
    requires kind < 16 && flags < 16
    ensures KindOf(ControlByte(kind, flags)) == kind
    ensures FlagsOf(ControlByte(kind, flags)) == flags
  {
  }

  lemma ShortRoundTrip(v: uint16)
    ensures |EncodeShort(v)| == 2
    ensures ShortValue(EncodeShort(v)[0], EncodeShort(v)[1]) == v
  {
  }

  /** Every byte but the last carries the continuation bit; the last does not. */
  lemma {:induction false} EncodeLengthShape(n: nat)
    ensures |EncodeLength(n)| >= 1
    ensures EncodeLength(n)[|EncodeLength(n)| - 1] < 128
    ensures forall i :: 0 <= i < |EncodeLength(n)| - 1 ==> EncodeLength(n)[i] >= 128
    decreases n
  {
    if n / 128 > 0 {
      EncodeLengthShape(n / 128);
    }
  }

  /** One byte per started group of seven bits. */
  lemma {:induction false} EncodeLengthSize(n: nat, k: nat)
    ensures |EncodeLength(n)| <= k + 1 <==> n < Pow128(k + 1)
    decreases n
  {
    if n / 128 > 0 {
      assert |EncodeLength(n)| == 1 + |EncodeLength(n / 128)|;
      assert Pow128(k + 1) == 128 * Pow128(k);
      if k == 0 {
        assert |EncodeLength(n)| >= 2 by { EncodeLengthShape(n / 128); }
      } else {
        EncodeLengthSize(n / 128, k - 1);
        DivBelow(n, Pow128(k));
      }
    } else {
      Pow128Positive(k);
    }
  }

  /** Section 2.2.3: values up to 2^28 - 1 take at most four bytes, and
      every larger value takes more. */
  lemma EncodeLengthFitsFourBytes(n: nat)
    ensures |EncodeLength(n)| <= 4 <==> n <= MaxRemainingLength
  {
    EncodeLengthSize(n, 3);
  }

  lemma EncodeLengthExamples()
    ensures EncodeLength(0) == [0x00]
    ensures EncodeLength(127) == [0x7F]
    ensures EncodeLength(128) == [0x80, 0x01]
    ensures EncodeLength(16383) == [0xFF, 0x7F]
    ensures EncodeLength(16384) == [0x80, 0x80, 0x01]
    ensures EncodeLength(2097151) == [0xFF, 0xFF, 0x7F]
    ensures EncodeLength(268435455) == [0xFF, 0xFF, 0xFF, 0x7F]
  {
  }

  lemma LengthStringSize(s: seq<byte>)
    ensures |s| <= MaxStringLength ==> |LengthString(s)| == 2 + |s|
    ensures |s| > MaxStringLength ==> LengthString(s) == []
  {
  }

  function Pow128(k: nat): nat
  {
    if k == 0 then 1 else 128 * Pow128(k - 1)
  }

  lemma {:induction false} Pow128Positive(k: nat)
    ensures Pow128(k) >= 1
  {
    if k > 0 {
      Pow128Positive(k - 1);
    }
  }

  lemma DivBelow(n: nat, p: nat)
    ensures n / 128 < p <==> n < 128 * p
  {
    var q, r := n / 128, n % 128;
    assert n == 128 * q + r;
    if q < p {
      assert q + 1 <= p;
      assert 128 * (q + 1) <= 128 * p;
    } else {
      assert 128 * q >= 128 * p;
    }
  }
}
