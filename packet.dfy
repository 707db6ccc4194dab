/**
 * The 26-byte wire record and the bit packing used to put it on the air.
 *
 *   offset  0..3   senderId      uint32, big-endian
 *   offset  4..7   amountPaise   uint32, big-endian
 *   offset  8..11  timestampSec  uint32, big-endian
 *   offset 12..13  nonce         uint16, big-endian
 *   offset 14..21  signature     8 raw bytes
 *   offset 22..25  never written, so zero
 */
module Packet {
  import opened Wrappers
  import opened Encoding
  import opened ByteArrays

  const PacketSize: nat := 26
  const SignatureSize: nat := 8
  /** Where the signature starts; the bytes before it are the signed payload. */
  const SignatureOffset: nat := 14

  datatype Fields = Fields(senderId: Uint32, amountPaise: Uint32, timestampSec: Uint32, nonce: Uint16)

  datatype ParsedPacket = ParsedPacket(fields: Fields, signature: seq<Byte>)

  datatype ParseError = InvalidPacketLength

  /** The 14 bytes the DataView setters write for the four fields. */
  function FieldBytes(f: Fields): (r: seq<Byte>)
    ensures |r| == SignatureOffset
  {
    Uint32Be(f.senderId) + Uint32Be(f.amountPaise) + Uint32Be(f.timestampSec) + Uint16Be(f.nonce)
  }

  /** The packet `buildPacket` returns: the fields, the signature copied in at
      offset 14, and the zeros of the fresh buffer after it. A signature longer
      than 12 bytes makes `packet.set` throw, so it is excluded. */
  function EncodePacket(f: Fields, signature: seq<Byte>): (r: seq<Byte>)
    requires |signature| <= PacketSize - SignatureOffset
    ensures |r| == PacketSize
  {
    FieldBytes(f) + signature + ZeroBytes(PacketSize - SignatureOffset - |signature|)
  }

  method BuildPacket(f: Fields, signature: seq<Byte>) returns (packet: array<Byte>)
    requires |signature| <= PacketSize - SignatureOffset
    ensures fresh(packet)
    ensures packet[..] == EncodePacket(f, signature)
  {
    packet := new Byte[PacketSize](_ => 0);
    ghost var s0 := packet[..];
    SetUint32(packet, 0, f.senderId);
    ghost var s1 := packet[..];
    SetUint32(packet, 4, f.amountPaise);
    ghost var s2 := packet[..];
    SetUint32(packet, 8, f.timestampSec);
    ghost var s3 := packet[..];
    SetUint16(packet, 12, f.nonce);
    ghost var s4 := packet[..];
    assert s0 == ZeroBytes(PacketSize);
    WriteFields(f, PacketSize, s0, s1, s2, s3, s4);
    SetBytes(packet, signature, SignatureOffset);
    WriteAfter(s4, packet[..], FieldBytes(f), PacketSize - SignatureOffset, signature);
  }

  /** The four DataView writes at offsets 0, 4, 8 and 12 into a zeroed buffer
      of `n` bytes leave the field bytes followed by the remaining zeros. */
  lemma WriteFields(f: Fields, n: nat, s0: seq<Byte>, s1: seq<Byte>, s2: seq<Byte>, s3: seq<Byte>, s4: seq<Byte>)
    requires n >= SignatureOffset && s0 == ZeroBytes(n)
    requires s1 == s0[..0] + Uint32Be(f.senderId) + s0[0 + 4..]
    requires s2 == s1[..4] + Uint32Be(f.amountPaise) + s1[4 + 4..]
    requires s3 == s2[..8] + Uint32Be(f.timestampSec) + s2[8 + 4..]
    requires s4 == s3[..12] + Uint16Be(f.nonce) + s3[12 + 2..]
    ensures s4 == FieldBytes(f) + ZeroBytes(n - SignatureOffset)
  {
    var w1 := Uint32Be(f.senderId);
    assert s0 == [] + ZeroBytes(n);
    WriteAfter(s0, s1, [], n, w1);
    assert s1 == w1 + ZeroBytes(n - 4);
    var w2 := w1 + Uint32Be(f.amountPaise);
    WriteAfter(s1, s2, w1, n - 4, Uint32Be(f.amountPaise));
    var w3 := w2 + Uint32Be(f.timestampSec);
    WriteAfter(s2, s3, w2, n - 8, Uint32Be(f.timestampSec));
    WriteAfter(s3, s4, w3, n - 12, Uint16Be(f.nonce));
  }

  /** The byte layout of a built packet, offset by offset. */
  lemma EncodePacketLayout(f: Fields, signature: seq<Byte>)
    requires |signature| == SignatureSize
    ensures var p := EncodePacket(f, signature);
      && p[0..4] == [f.senderId / 0x100_0000 % 256, f.senderId / 0x1_0000 % 256, f.senderId / 0x100 % 256, f.senderId % 256]
      && p[4..8] == [f.amountPaise / 0x100_0000 % 256, f.amountPaise / 0x1_0000 % 256, f.amountPaise / 0x100 % 256, f.amountPaise % 256]
      && p[8..12] == [f.timestampSec / 0x100_0000 % 256, f.timestampSec / 0x1_0000 % 256, f.timestampSec / 0x100 % 256, f.timestampSec % 256]
      && p[12..14] == [f.nonce / 0x100 % 256, f.nonce % 256]
      && p[14..22] == signature
      && p[22..26] == [0, 0, 0, 0]
  {
    Uint32BeIsBigEndian(f.senderId);
    Uint32BeIsBigEndian(f.amountPaise);
    Uint32BeIsBigEndian(f.timestampSec);
    Uint16BeIsBigEndian(f.nonce);
    var p := EncodePacket(f, signature);
    assert p[0..4] == Uint32Be(f.senderId);
    assert p[4..8] == Uint32Be(f.amountPaise);
    assert p[8..12] == Uint32Be(f.timestampSec);
    assert p[12..14] == Uint16Be(f.nonce);
  }

  function ParsePacket(packet: seq<Byte>): (r: Result<ParsedPacket, ParseError>)
    ensures r.Failure? <==> |packet| != PacketSize
  {
    if |packet| != PacketSize then Failure(InvalidPacketLength)
    else
      var fields := Fields(GetUint32(packet, 0), GetUint32(packet, 4), GetUint32(packet, 8), GetUint16(packet, 12));
      Success(ParsedPacket(fields, packet[SignatureOffset..SignatureOffset + SignatureSize]))
  }

  /** A parsed packet carries the 8 bytes at offsets 14..21 as its signature,
      and fields whose encoding is exactly bytes 0..13. */
  lemma ParsePacketReads(packet: seq<Byte>)
    requires |packet| == PacketSize
    ensures ParsePacket(packet).Success?
    ensures var p := ParsePacket(packet).value;
      && |p.signature| == SignatureSize
      && p.signature == packet[14..22]
      && FieldBytes(p.fields) == packet[..14]
  {
    Uint32BeOfGetUint32(packet, 0);
    Uint32BeOfGetUint32(packet, 4);
    Uint32BeOfGetUint32(packet, 8);
    Uint16BeOfGetUint16(packet, 12);
    assert packet[..14] == packet[0..4] + packet[4..8] + packet[8..12] + packet[12..14];
  }

  /** Bytes 22..25 have no influence on the parse. */
  lemma ParseIgnoresPadding(p: seq<Byte>, q: seq<Byte>)
    requires |p| == PacketSize && |q| == PacketSize
    requires p[..22] == q[..22]
    ensures ParsePacket(p) == ParsePacket(q)
  {
    assert p[0..4] == p[..22][0..4] == q[0..4];
    assert p[4..8] == p[..22][4..8] == q[4..8];
    assert p[8..12] == p[..22][8..12] == q[8..12];
    assert p[12..14] == p[..22][12..14] == q[12..14];
    assert p[14..22] == p[..22][14..22] == q[14..22];
  }

  /** Parsing a built packet gives back the fields and the signature. */
  lemma ParseBuild(f: Fields, signature: seq<Byte>)
    requires |signature| == SignatureSize
    ensures ParsePacket(EncodePacket(f, signature)) == Success(ParsedPacket(f, signature))
  {
    var p := EncodePacket(f, signature);
    assert p[0..4] == Uint32Be(f.senderId);
    assert p[4..8] == Uint32Be(f.amountPaise);
    assert p[8..12] == Uint32Be(f.timestampSec);
    assert p[12..14] == Uint16Be(f.nonce);
    assert p[14..22] == signature;
    GetUint32OfUint32Be(p, 0, f.senderId);
    GetUint32OfUint32Be(p, 4, f.amountPaise);
    GetUint32OfUint32Be(p, 8, f.timestampSec);
    GetUint16OfUint16Be(p, 12, f.nonce);
  }

  /** Every 26-byte packet whose last four bytes are zero is the one built
      from its own parse. */
  lemma BuildParse(packet: seq<Byte>)
    requires |packet| == PacketSize
    requires packet[22..] == ZeroBytes(4)
    ensures ParsePacket(packet).Success?
    ensures EncodePacket(ParsePacket(packet).value.fields, ParsePacket(packet).value.signature) == packet
  {
    ParsePacketReads(packet);
    assert packet == packet[..14] + packet[14..22] + packet[22..];
  }

  // ---------------------------------------------------------------------------
  // Bit packing

  /** The eight bits of a byte, most significant first. */
  function ByteBits(b: Byte): (r: seq<Bit>)
    ensures |r| == 8
  {
    Digits(b, 2, 8)
  }

  /** `bytesToBits`: eight bits per byte, most significant bit first. */
  function BitsOf(bytes: seq<Byte>): (r: seq<Bit>)
    ensures |r| == 8 * |bytes|
  {
    if bytes == [] then [] else ByteBits(bytes[0]) + BitsOf(bytes[1..])
  }

  /** `bitsToBytes`: one byte per whole group of eight bits; trailing bits are dropped. */
  function BytesOf(bits: seq<Bit>): (r: seq<Byte>)
    ensures |r| == |bits| / 8
  {
    if |bits| < 8 then []
    else
      ValueBound(bits[..8], 2);
      assert Pow(2, 8) == 256;
      [Value(bits[..8], 2)] + BytesOf(bits[8..])
  }

  lemma {:induction false} BitsOfAppend(a: seq<Byte>, b: seq<Byte>)
    ensures BitsOf(a + b) == BitsOf(a) + BitsOf(b)
  {
    if a != [] {
      assert (a + b)[1..] == a[1..] + b;
      BitsOfAppend(a[1..], b);
    } else {
      assert a + b == b;
    }
  }

  /** Element 8i+j of the bit string is bit 7-j of byte i. */
  lemma {:induction false} BitsOfAt(bytes: seq<Byte>, i: nat, j: nat)
    requires i < |bytes| && j < 8
    ensures BitsOf(bytes)[8 * i + j] == bytes[i] / Pow(2, 7 - j) % 2
  {
    if i == 0 {
      DigitAt(bytes[0], 2, 8, j);
    } else {
      BitsOfAt(bytes[1..], i - 1, j);
    }
  }

  /** Byte i of the result is the value of bits 8i..8i+7. */
  lemma {:induction false} BytesOfAt(bits: seq<Bit>, i: nat)
    requires i < |bits| / 8
    ensures BytesOf(bits)[i] == Value(bits[8 * i..8 * i + 8], 2)
  {
    if i > 0 {
      var j, rest := i - 1, bits[8..];
      BytesOfAt(rest, j);
      assert 8 * i == 8 * j + 8;
      var mine, theirs := bits[8 * i..8 * i + 8], rest[8 * j..8 * j + 8];
      assert theirs == mine by {
        forall k | 0 <= k < 8
          ensures theirs[k] == mine[k]
        {
          assert rest[8 * j + k] == bits[8 * i + k];
        }
      }
      assert BytesOf(bits)[i] == BytesOf(rest)[j];
    }
  }

  /** Bits after the last whole byte have no effect. */
  lemma {:induction false} BytesOfIgnoresTail(bits: seq<Bit>, tail: seq<Bit>)
    requires |bits| % 8 == 0 && |tail| < 8
    ensures BytesOf(bits + tail) == BytesOf(bits)
  {
    if |bits| == 0 {
      assert bits + tail == tail;
    } else {
      assert (bits + tail)[..8] == bits[..8];
      assert (bits + tail)[8..] == bits[8..] + tail;
      BytesOfIgnoresTail(bits[8..], tail);
    }
  }

  /** Packing reads back a byte that was unpacked in front of any bits. */
  lemma BytesOfByteBits(b: Byte, tail: seq<Bit>)
    ensures BytesOf(ByteBits(b) + tail) == [b] + BytesOf(tail)
  {
    var bits := ByteBits(b) + tail;
    assert bits[..8] == ByteBits(b);
    assert bits[8..] == tail;
    ValueOfDigits(b, 2, 8);
    assert Pow(2, 8) == 256;
  }

  lemma {:induction false} BytesOfBitsOf(bytes: seq<Byte>)
    ensures BytesOf(BitsOf(bytes)) == bytes
  {
    if bytes != [] {
      BytesOfByteBits(bytes[0], BitsOf(bytes[1..]));
      BytesOfBitsOf(bytes[1..]);
      assert bytes == [bytes[0]] + bytes[1..];
    }
  }

  lemma {:induction false} BitsOfBytesOf(bits: seq<Bit>)
    ensures BitsOf(BytesOf(bits)) == bits[..8 * (|bits| / 8)]
  {
    if |bits| >= 8 {
      var bytes := BytesOf(bits);
      assert bytes[1..] == BytesOf(bits[8..]);
      DigitsOfValue(bits[..8], 2);
      BitsOfBytesOf(bits[8..]);
      assert bits[..8 * (|bits| / 8)] == bits[..8] + bits[8..][..8 * ((|bits| - 8) / 8)];
    }
  }

  method BytesToBits(bytes: seq<Byte>) returns (output: seq<Bit>)
    ensures output == BitsOf(bytes)
  {
    output := [];
    var i := 0;
    while i < |bytes|
      invariant 0 <= i <= |bytes|
      invariant output == BitsOf(bytes[..i])
    {
      var value := bytes[i];
      var bit := 7;
      while bit >= 0
        invariant -1 <= bit <= 7
        invariant output == BitsOf(bytes[..i]) + ByteBits(value)[..7 - bit]
      {
        DigitAt(value, 2, 8, 7 - bit);
        assert ByteBits(value)[..8 - bit] == ByteBits(value)[..7 - bit] + [ByteBits(value)[7 - bit]];
        // the bit of weight 2^bit
        output := output + [value / Pow(2, bit) % 2];
        bit := bit - 1;
      }
      assert bytes[..i + 1] == bytes[..i] + [value];
      BitsOfAppend(bytes[..i], [value]);
      i := i + 1;
    }
    assert bytes[..i] == bytes;
  }

  method BitsToBytes(bits: seq<Bit>) returns (output: array<Byte>)
    ensures fresh(output)
    ensures output[..] == BytesOf(bits)
  {
    var byteCount := |bits| / 8;
    output := new Byte[byteCount](_ => 0);
    var i := 0;
    while i < byteCount
      invariant 0 <= i <= byteCount
      invariant forall k :: 0 <= k < i ==> output[k] == Value(bits[8 * k..8 * k + 8], 2)
    {
      var value: nat := 0;
      var bit := 0;
      while bit < 8
        invariant 0 <= bit <= 8
        invariant value == Value(bits[i * 8..i * 8 + bit], 2)
      {
        assert bits[i * 8..i * 8 + bit + 1][..bit] == bits[i * 8..i * 8 + bit];
        // shift left and bring in the next bit; value stays below 256
        value := value * 2 + bits[i * 8 + bit];
        bit := bit + 1;
      }
      ValueBound(bits[i * 8..i * 8 + 8], 2);
      assert Pow(2, 8) == 256;
      output[i] := value;
      i := i + 1;
    }
    forall k | 0 <= k < byteCount
      ensures output[k] == BytesOf(bits)[k]
    {
      BytesOfAt(bits, k);
    }
  }
}
