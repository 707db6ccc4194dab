/**
 * The packet logic of the app component: building the signed payload and the
 * transmitted bit frame on the send side, and validating a received packet.
 * The clock `Date.now()` is the parameter `now` (in whole seconds).
 */
module App {
  import opened Wrappers
  import opened Encoding
  import opened ByteArrays
  import opened Packet
  import Signer

  const Preamble: seq<Bit> := [1, 0, 1, 0, 1, 0, 1, 0]
  const MaxPacketAgeSec: nat := 10

  /** The parse error propagates unchanged out of `validatePacket`. */
  datatype Rejection = Malformed(cause: ParseError) | InvalidSignature | StaleTimestamp

  /** `buildPayload`: the 14 signed bytes, written by the DataView setters. */
  method BuildPayload(f: Fields) returns (payload: array<Byte>)
    ensures fresh(payload)
    ensures payload[..] == FieldBytes(f)
  {
    payload := new Byte[SignatureOffset](_ => 0);
    ghost var s0 := payload[..];
    SetUint32(payload, 0, f.senderId);
    ghost var s1 := payload[..];
    SetUint32(payload, 4, f.amountPaise);
    ghost var s2 := payload[..];
    SetUint32(payload, 8, f.timestampSec);
    ghost var s3 := payload[..];
    SetUint16(payload, 12, f.nonce);
    assert s0 == ZeroBytes(SignatureOffset);
    WriteFields(f, SignatureOffset, s0, s1, s2, s3, payload[..]);
    assert FieldBytes(f) + ZeroBytes(0) == FieldBytes(f);
  }

  /** The payload is exactly the first 14 bytes of the packet built from the
      same fields, whatever the signature. */
  lemma PayloadIsPacketPrefix(f: Fields, signature: seq<Byte>)
    requires |signature| == SignatureSize
    ensures FieldBytes(f) == EncodePacket(f, signature)[..SignatureOffset]
    ensures ParsePacket(EncodePacket(f, signature)).value.fields == f
  {
    ParseBuild(f, signature);
  }

  /** senderId 42, amountPaise 12500, timestampSec 1700000000, nonce 7. */
  lemma PayloadExample()
    ensures FieldBytes(Fields(42, 12500, 1700000000, 7))
         == [0x00, 0x00, 0x00, 0x2A, 0x00, 0x00, 0x30, 0xD4, 0x65, 0x53, 0xF1, 0x00, 0x00, 0x07]
  {
    ExampleFieldBytes();
  }

  /** The big-endian bytes of each example field on its own. */
  lemma ExampleFieldBytes()
    ensures Uint32Be(42) == [0x00, 0x00, 0x00, 0x2A]
    ensures Uint32Be(12500) == [0x00, 0x00, 0x30, 0xD4]
    ensures Uint32Be(1700000000) == [0x65, 0x53, 0xF1, 0x00]
    ensures Uint16Be(7) == [0x00, 0x07]
  {
    Uint32BeIsBigEndian(42);
    Uint32BeIsBigEndian(12500);
    Uint32BeIsBigEndian(1700000000);
    Uint16BeIsBigEndian(7);
  }

  function Abs(x: int): nat
  {
    if x < 0 then -x else x
  }

  /** The freshness window: at most 10 seconds either way, both ends included. */
  predicate IsFresh(timestampSec: int, now: int)
  {
    Abs(now - timestampSec) <= MaxPacketAgeSec
  }

  lemma FreshnessWindow(t: int, now: int)
    ensures IsFresh(t, now) <==> t - MaxPacketAgeSec <= now <= t + MaxPacketAgeSec
    ensures IsFresh(t, t) && IsFresh(t, t - 10) && IsFresh(t, t + 10)
    ensures !IsFresh(t, t + 11) && !IsFresh(t, t - 11)
  {
  }

  /** What `validatePacket` resolves to (Success) or rejects with (Failure). */
  function Validation(h: Signer.Sha256, packet: seq<Byte>, now: int): Result<Fields, Rejection>
  {
    match ParsePacket(packet)
    case Failure(e) => Failure(Malformed(e))
    case Success(p) =>
      if p.signature != Signer.ExpectedSignature(h, packet[..SignatureOffset]) then Failure(InvalidSignature)
      else if Abs(now - p.fields.timestampSec) > MaxPacketAgeSec then Failure(StaleTimestamp)
      else Success(p.fields)
  }

  method ValidatePacket(h: Signer.Sha256, packet: array<Byte>, now: int) returns (r: Result<Fields, Rejection>)
    ensures r == Validation(h, packet[..], now)
  {
    var parsed := ParsePacket(packet[..]);
    if parsed.Failure? {
      return Failure(Malformed(parsed.error));
    }
    var payload := packet[..SignatureOffset];
    var isValid := Signer.VerifySignature(h, payload, parsed.value.signature);
    if !isValid {
      return Failure(InvalidSignature);
    }
    if Abs(now - parsed.value.fields.timestampSec) > MaxPacketAgeSec {
      return Failure(StaleTimestamp);
    }
    return Success(parsed.value.fields);
  }

  /** The checks run in a fixed order, each stated on the raw bytes: length,
      then the signature over bytes 0..13, then the freshness of the timestamp
      at bytes 8..11. */
  lemma ValidationOrder(h: Signer.Sha256, packet: seq<Byte>, now: int)
    ensures |packet| != PacketSize ==> Validation(h, packet, now) == Failure(Malformed(InvalidPacketLength))
    ensures |packet| == PacketSize && packet[14..22] != Signer.ExpectedSignature(h, packet[..14])
            ==> Validation(h, packet, now) == Failure(InvalidSignature)
    ensures |packet| == PacketSize && packet[14..22] == Signer.ExpectedSignature(h, packet[..14])
            && !IsFresh(GetUint32(packet, 8), now)
            ==> Validation(h, packet, now) == Failure(StaleTimestamp)
  {
    if |packet| == PacketSize {
      ParsePacketReads(packet);
    }
  }

  /** A packet is accepted exactly when it is 26 bytes long, carries the right
      signature for its first 14 bytes and is fresh; the accepted fields are
      those bytes 0..13 encode, and the signature is not part of the result. */
  lemma ValidationAccepts(h: Signer.Sha256, packet: seq<Byte>, now: int)
    ensures Validation(h, packet, now).Success?
        <==> |packet| == PacketSize
             && packet[14..22] == Signer.ExpectedSignature(h, packet[..14])
             && IsFresh(GetUint32(packet, 8), now)
    ensures Validation(h, packet, now).Success?
        ==> FieldBytes(Validation(h, packet, now).value) == packet[..14]
  {
    if |packet| == PacketSize {
      ParsePacketReads(packet);
    }
  }

  /** The packet the sender builds for `f`: fields, then their signature. */
  function SignedPacket(h: Signer.Sha256, f: Fields): (p: seq<Byte>)
    ensures |p| == PacketSize
  {
    EncodePacket(f, Signer.ExpectedSignature(h, FieldBytes(f)))
  }

  /** A packet signed with the shared secret is accepted while it is fresh,
      and gives back its own fields. */
  lemma AcceptsSignedPacket(h: Signer.Sha256, f: Fields, now: int)
    requires IsFresh(f.timestampSec, now)
    ensures Validation(h, SignedPacket(h, f), now) == Success(f)
  {
    var sig := Signer.ExpectedSignature(h, FieldBytes(f));
    ParseBuild(f, sig);
    PayloadIsPacketPrefix(f, sig);
  }

  /** Changing any one signature byte of a signed packet makes it fail the
      signature check, whatever the clock says. */
  lemma RejectsTamperedSignature(h: Signer.Sha256, f: Fields, now: int, k: nat, b: Byte)
    requires SignatureOffset <= k < SignatureOffset + SignatureSize
    requires b != SignedPacket(h, f)[k]
    ensures Validation(h, SignedPacket(h, f)[k := b], now) == Failure(InvalidSignature)
  {
    var p := SignedPacket(h, f);
    var q := p[k := b];
    var sig := Signer.ExpectedSignature(h, FieldBytes(f));
    assert p[..14] == FieldBytes(f);
    assert q[..14] == p[..14];
    assert p[14..22] == sig;
    ParsePacketReads(q);
    assert q[14..22][k - 14] == b != sig[k - 14];
  }

  /** The bits handed to the modem: the preamble, then the packet MSB-first. */
  function Frame(packet: seq<Byte>): (bits: seq<Bit>)
    ensures |bits| == |Preamble| + 8 * |packet|
  {
    Preamble + BitsOf(packet)
  }

  /** The packet steps of `handleSend`: payload, signature, packet, bit frame.
      The amount conversion, clock and random nonce are the fields `f`. */
  method PrepareFrame(h: Signer.Sha256, f: Fields) returns (bits: seq<Bit>)
    ensures |bits| == 8 + 8 * PacketSize
    ensures bits[..8] == Preamble
    ensures bits == Frame(SignedPacket(h, f))
  {
    var payload := BuildPayload(f);
    var signature := Signer.SignData(h, payload[..]);
    var packet := BuildPacket(f, signature);
    var packetBits := BytesToBits(packet[..]);
    bits := Preamble + packetBits;
  }
}
