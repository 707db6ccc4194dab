/**
 * Keyed-digest signing: the signature of a payload is the first 8 bytes of
 * SHA-256(payload ++ the bytes of the shared secret).
 *
 * SHA-256 itself (FIPS 180-4) is not modelled: every operation takes the
 * digest as a parameter `h`, any total function from bytes to 32 bytes.
 */
module Signer {
  import opened Encoding
  import opened ByteArrays

  const SignatureSize: nat := 8
  const DigestSize: nat := 32
  const SecretKey: string := "ECHOPAY_DEMO_SECRET"

  /** `new TextEncoder().encode(SecretKey)`: the key is ASCII, so its UTF-8
      bytes are its character codes. */
  const SecretBytes: seq<Byte> := [69, 67, 72, 79, 80, 65, 89, 95, 68, 69, 77, 79, 95, 83, 69, 67, 82, 69, 84]

  /** A stand-in for `crypto.subtle.digest('SHA-256', ·)`. */
  type Sha256 = h: seq<Byte> -> seq<Byte> | forall m :: |h(m)| == DigestSize
    witness (m: seq<Byte>) => ZeroBytes(32)

  lemma SecretBytesEncodeKey()
    ensures |SecretBytes| == |SecretKey|
    ensures forall i :: 0 <= i < |SecretKey| ==> SecretBytes[i] == SecretKey[i] as int
  {
  }

  method ConcatBytes(a: seq<Byte>, b: seq<Byte>) returns (output: array<Byte>)
    ensures fresh(output)
    ensures output[..] == a + b
  {
    output := new Byte[|a| + |b|](_ => 0);
    SetBytes(output, a, 0);
    SetBytes(output, b, |a|);
  }

  /** The signature `signData` computes for `payload`. */
  function ExpectedSignature(h: Sha256, payload: seq<Byte>): (sig: seq<Byte>)
    ensures |sig| == SignatureSize
  {
    h(payload + SecretBytes)[..SignatureSize]
  }

  method SignData(h: Sha256, payload: seq<Byte>) returns (signature: seq<Byte>)
    ensures |signature| == SignatureSize
    ensures signature == h(payload + SecretBytes)[..SignatureSize]
  {
    var data := ConcatBytes(payload, SecretBytes);
    var hash := h(data[..]);
    signature := hash[..SignatureSize];
  }

  /** Recomputes the signature and compares it byte by byte, stopping at the
      first difference. */
  method VerifySignature(h: Sha256, payload: seq<Byte>, signature: seq<Byte>) returns (valid: bool)
    ensures |signature| != SignatureSize ==> !valid
    ensures valid <==> |signature| == SignatureSize
                       && forall i :: 0 <= i < SignatureSize ==> signature[i] == ExpectedSignature(h, payload)[i]
    ensures valid <==> signature == ExpectedSignature(h, payload)
  {
    var expected := SignData(h, payload);
    if |expected| != |signature| {
      return false;
    }
    var i := 0;
    while i < |expected|
      invariant 0 <= i <= |expected|
      invariant forall k :: 0 <= k < i ==> expected[k] == signature[k]
    {
      if expected[i] != signature[i] {
        return false;
      }
      i := i + 1;
    }
    return true;
  }

  /** Changing any one byte of the right signature yields a wrong one. */
  lemma TamperedSignatureDiffers(h: Sha256, payload: seq<Byte>, i: nat, b: Byte)
    requires i < SignatureSize && b != ExpectedSignature(h, payload)[i]
    ensures ExpectedSignature(h, payload)[i := b] != ExpectedSignature(h, payload)
  {
    assert ExpectedSignature(h, payload)[i := b][i] == b;
  }
}
