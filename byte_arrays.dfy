/**
 * The JavaScript built-ins the codec writes bytes with, over a byte array
 * standing for a Uint8Array: `TypedArray.prototype.set` and the big-endian
 * `DataView` setters.
 */
module ByteArrays {
  import opened Encoding

  type Uint32 = x: nat | x < 0x1_0000_0000
  type Uint16 = x: nat | x < 0x1_0000

  /** `n` zero bytes: the contents of a freshly allocated Uint8Array. */
  function ZeroBytes(n: nat): (r: seq<Byte>)
    ensures |r| == n && forall i :: 0 <= i < n ==> r[i] == 0
  {
    Zeros(n)
  }

  /** The four bytes `DataView.setUint32` writes for `x`, most significant first. */
  function Uint32Be(x: Uint32): (r: seq<Byte>)
    ensures |r| == 4
  {
    Digits(x, 256, 4)
  }

  /** The two bytes `DataView.setUint16` writes for `x`, most significant first. */
  function Uint16Be(x: Uint16): (r: seq<Byte>)
    ensures |r| == 2
  {
    Digits(x, 256, 2)
  }

  /** What `DataView.getUint32` reads at `offset`. */
  function GetUint32(s: seq<Byte>, offset: nat): (r: Uint32)
    requires offset + 4 <= |s|
  {
    ValueBound(s[offset..offset + 4], 256);
    assert Pow(256, 4) == 0x1_0000_0000;
    Value(s[offset..offset + 4], 256)
  }

  /** What `DataView.getUint16` reads at `offset`. */
  function GetUint16(s: seq<Byte>, offset: nat): (r: Uint16)
    requires offset + 2 <= |s|
  {
    ValueBound(s[offset..offset + 2], 256);
    Value(s[offset..offset + 2], 256)
  }

  /** The byte at position k of the big-endian encoding is x shifted right by
      8 * (3 - k) bits and masked to 8 bits. */
  lemma Uint32BeIsBigEndian(x: Uint32)
    ensures Uint32Be(x) == [x / 0x100_0000 % 256, x / 0x1_0000 % 256, x / 0x100 % 256, x % 256]
  {
    DigitAt(x, 256, 4, 0);
    DigitAt(x, 256, 4, 1);
    DigitAt(x, 256, 4, 2);
    DigitAt(x, 256, 4, 3);
  }

  lemma Uint16BeIsBigEndian(x: Uint16)
    ensures Uint16Be(x) == [x / 0x100 % 256, x % 256]
  {
    DigitAt(x, 256, 2, 0);
    DigitAt(x, 256, 2, 1);
  }

  /** `getUint32` reads back what `setUint32` wrote ... */
  lemma GetUint32OfUint32Be(s: seq<Byte>, offset: nat, x: Uint32)
    requires offset + 4 <= |s| && s[offset..offset + 4] == Uint32Be(x)
    ensures GetUint32(s, offset) == x
  {
    ValueOfDigits(x, 256, 4);
  }

  /** ... and any four bytes are what `setUint32` writes for the value `getUint32` reads. */
  lemma Uint32BeOfGetUint32(s: seq<Byte>, offset: nat)
    requires offset + 4 <= |s|
    ensures Uint32Be(GetUint32(s, offset)) == s[offset..offset + 4]
  {
    DigitsOfValue(s[offset..offset + 4], 256);
  }

  lemma GetUint16OfUint16Be(s: seq<Byte>, offset: nat, x: Uint16)
    requires offset + 2 <= |s| && s[offset..offset + 2] == Uint16Be(x)
    ensures GetUint16(s, offset) == x
  {
    ValueOfDigits(x, 256, 2);
  }

  lemma Uint16BeOfGetUint16(s: seq<Byte>, offset: nat)
    requires offset + 2 <= |s|
    ensures Uint16Be(GetUint16(s, offset)) == s[offset..offset + 2]
  {
    DigitsOfValue(s[offset..offset + 2], 256);
  }

  /** Writing `y` just after the bytes already `written`, into a buffer whose
      remainder is still zero, extends what is written by `y`. */
  lemma WriteAfter(before: seq<Byte>, after: seq<Byte>, written: seq<Byte>, n: nat, y: seq<Byte>)
    requires |y| <= n && before == written + ZeroBytes(n)
    requires after == before[..|written|] + y + before[|written| + |y|..]
    ensures after == written + y + ZeroBytes(n - |y|)
  {
    assert before[..|written|] == written;
    assert before[|written| + |y|..] == ZeroBytes(n - |y|);
  }

  /** `target.set(source, offset)`: copies `source` into `target` from `offset` on. */
  method SetBytes(target: array<Byte>, source: seq<Byte>, offset: nat)
    requires offset + |source| <= target.Length
    modifies target
    ensures target[..] == old(target[..])[..offset] + source + old(target[..])[offset + |source|..]
  {
    forall k | 0 <= k < |source| {
      target[offset + k] := source[k];
    }
  }

  /** `new DataView(target.buffer).setUint32(offset, x)`. */
  method SetUint32(target: array<Byte>, offset: nat, x: Uint32)
    requires offset + 4 <= target.Length
    modifies target
    ensures target[..] == old(target[..])[..offset] + Uint32Be(x) + old(target[..])[offset + 4..]
  {
    SetBytes(target, Uint32Be(x), offset);
  }

  /** `new DataView(target.buffer).setUint16(offset, x)`. */
  method SetUint16(target: array<Byte>, offset: nat, x: Uint16)
    requires offset + 2 <= target.Length
    modifies target
    ensures target[..] == old(target[..])[..offset] + Uint16Be(x) + old(target[..])[offset + 2..]
  {
    SetBytes(target, Uint16Be(x), offset);
  }
}
