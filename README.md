# EchoPay packet core in Dafny

EchoPay moves a payment between two browsers over sound. The sender packs
four fields into a 26-byte packet: sender id, amount in paise, timestamp in
seconds and a random nonce. It signs the first 14 bytes with a keyed digest
and plays the preamble `10101010` followed by the packet's bits. The
receiver's decoder hands each classified bit to a callback. That callback
keeps a rolling bit buffer, finds the first preamble with a whole packet
after it, and packs those bits back into bytes. It then stops listening
and validates the packet: length first, then the signature, then a
10-second freshness window.

This project models that core and proves what it promises:

- the byte layout of the packet;
- that `parsePacket` inverts `buildPacket` and the other way round;
- that the bit packing and unpacking round-trip;
- the byte-by-byte signature check;
- the order and exact conditions of the validation checks;
- the rolling-buffer callback, as a class whose buffer the methods update in place;
- end to end: a signed frame heard after any run of silence is emitted
  whole and accepted while fresh.

Modules, one concept each:

- `Encoding`: numbers as fixed-length digit strings, most significant first. Base 256 gives the big-endian fields; base 2 gives MSB-first bits.
- `ByteArrays`: `TypedArray.prototype.set` and the `DataView` big-endian setters and getters over a byte array.
- `Packet`: `src/packet.js`.
- `Signer`: `src/signer.js`.
- `App`: `buildPayload`, `validatePacket` and the packet steps of `handleSend` in `src/App.jsx`.
- `Listener`: the `onBit` callback of `startListening`, and the buffer reset of `stopListening`, in `src/App.jsx`.

Parameters stand in for what the core receives from outside:

- SHA-256 is the parameter `h`: any total function from bytes to 32 bytes.
- The clock `Math.floor(Date.now() / 1000)` is the parameter `now`.
- The outcome of the microphone permission prompt is the parameter `micGranted`.

## Model

| member | source | states |
|---|---|---|
| Packet.BuildPacket | src/packet.js:4-13 | returns a fresh 26-byte array holding the four fields big-endian at offsets 0, 4, 8 and 12, the signature from offset 14, and zeros after it |
| Packet.WriteFields | src/packet.js:5-10 | the four DataView writes at offsets 0, 4, 8 and 12 into a zeroed buffer leave exactly the 14 field bytes followed by the untouched zeros |
| Packet.EncodePacketLayout | src/packet.js:4-13 | byte by byte, with an 8-byte signature: bytes 0..3 are `senderId >> 24, >> 16, >> 8, & 255`, and likewise for the other fields; bytes 14..21 are the signature; bytes 22..25 are zero |
| Packet.ParsePacket | src/packet.js:15-18 | parsing fails with the length error exactly when the input is not 26 bytes long |
| Packet.ParsePacketReads | src/packet.js:19-25 | on 26 bytes, parsing succeeds; the fields are the big-endian reads at offsets 0, 4, 8 and 12; the signature is bytes 14..21, 8 bytes long |
| Packet.ParseIgnoresPadding | src/packet.js:15-26 | two 26-byte packets that agree on bytes 0..21 parse to the same result, so bytes 22..25 are never read |
| Packet.ParseBuild | src/packet.js:4-26 | parsing a built packet with an 8-byte signature gives back the same fields and signature |
| Packet.BuildParse | src/packet.js:4-26 | a 26-byte packet whose last four bytes are zero is rebuilt exactly from what parsing it returns |
| Packet.BytesToBits | src/packet.js:28-37 | the output is the bit string `BitsOf(bytes)`: eight bits per byte, most significant bit first |
| Packet.BitsOfAt | src/packet.js:30-34 | bit `8i + j` of the output is `(bytes[i] >> (7 - j)) & 1` |
| Packet.BitsOfAppend | src/packet.js:30-35 | unpacking a concatenation is the concatenation of the unpackings |
| Packet.BitsToBytes | src/packet.js:39-50 | returns a fresh array of `floor(|bits| / 8)` bytes whose contents are `BytesOf(bits)` |
| Packet.BytesOfAt | src/packet.js:42-47 | byte `i` of the output is the number whose binary digits, most significant first, are bits `8i..8i+7` |
| Packet.BytesOfIgnoresTail | src/packet.js:40-42 | fewer than 8 bits after the last whole byte do not change the output |
| Packet.BytesOfByteBits | src/packet.js:28-50 | packing reads back a byte that was unpacked in front of any further bits |
| Packet.BytesOfBitsOf | src/packet.js:28-50 | packing the unpacked bits of any bytes gives back those bytes |
| Packet.BitsOfBytesOf | src/packet.js:28-50 | unpacking the packed bits gives back the bits up to the last whole byte |
| ByteArrays.SetBytes | src/signer.js:6-7 | `target.set(source, offset)`: the source overwrites positions `offset..offset+|source|-1` and nothing else changes |
| ByteArrays.SetUint32 | src/packet.js:7-9 | `setUint32` writes the four big-endian bytes of the value at the offset and nothing else changes |
| ByteArrays.SetUint16 | src/packet.js:10 | `setUint16` writes the two big-endian bytes of the value at the offset and nothing else changes |
| ByteArrays.Uint32BeIsBigEndian | src/packet.js:7-9 | the four bytes written are `x >> 24 & 255`, `x >> 16 & 255`, `x >> 8 & 255` and `x & 255`, in that order |
| ByteArrays.Uint16BeIsBigEndian | src/packet.js:10 | the two bytes written are `x >> 8 & 255` and `x & 255` |
| ByteArrays.GetUint32OfUint32Be | src/packet.js:20-22 | `getUint32` reads back the value `setUint32` wrote at the same offset |
| ByteArrays.Uint32BeOfGetUint32 | src/packet.js:20-22 | any four bytes are exactly what `setUint32` writes for the value `getUint32` reads from them |
| ByteArrays.GetUint16OfUint16Be | src/packet.js:23 | `getUint16` reads back the value `setUint16` wrote |
| ByteArrays.Uint16BeOfGetUint16 | src/packet.js:23 | any two bytes are exactly what `setUint16` writes for the value `getUint16` reads from them |
| Signer.SecretBytesEncodeKey | src/signer.js:12 | the key bytes are the character codes of `ECHOPAY_DEMO_SECRET`, one per character |
| Signer.ConcatBytes | src/signer.js:4-9 | returns a fresh array holding `a` followed by `b` |
| Signer.ExpectedSignature | src/signer.js:11-16 | the signature of a payload is 8 bytes long |
| Signer.SignData | src/signer.js:11-16 | the signature is the first 8 bytes of the digest of the payload followed by the key bytes |
| Signer.VerifySignature | src/signer.js:18-35 | a signature of the wrong length is rejected; the result is true exactly when every one of the 8 bytes equals the recomputed signature's byte, which is exactly equality with the recomputed signature |
| Signer.TamperedSignatureDiffers | src/signer.js:27-32 | changing any one byte of the right signature makes it wrong |
| App.BuildPayload | src/App.jsx:35-43 | returns a fresh 14-byte array holding the four fields big-endian, the same bytes the packet carries at offsets 0..13 |
| App.PayloadIsPacketPrefix | src/App.jsx:108-116 | the payload that is signed is the first 14 bytes of the packet built from the same fields, whatever the signature, and those bytes parse back to the fields |
| App.PayloadExample | src/App.jsx:35-43 | senderId 42, amountPaise 12500, timestampSec 1700000000, nonce 7 give the payload `00 00 00 2A 00 00 30 D4 65 53 F1 00 00 07` |
| App.ExampleFieldBytes | src/App.jsx:38-41 | the big-endian bytes of each of those four field values |
| App.FreshnessWindow | src/App.jsx:52-55 | a timestamp is fresh exactly when `now` is within 10 seconds of it on either side, both ends included; 11 seconds either way is stale |
| App.ValidatePacket | src/App.jsx:45-57 | the result is `Validation(h, packet, now)`: length error, then bad signature, then stale timestamp, else the four fields |
| App.ValidationOrder | src/App.jsx:45-55 | on raw bytes: a length other than 26 gives the length error; otherwise a signature at 14..21 that differs from the signature of bytes 0..13 gives the signature error; otherwise a stale timestamp at bytes 8..11 gives the staleness error |
| App.ValidationAccepts | src/App.jsx:45-57 | a packet is accepted exactly when it is 26 bytes long, its signature is right and its timestamp is fresh; the accepted fields are what bytes 0..13 encode |
| App.SignedPacket | src/App.jsx:108-116 | the packet the sender builds is 26 bytes long |
| App.AcceptsSignedPacket | src/App.jsx:106-116 | a packet signed with the shared key is accepted while fresh and yields its own fields |
| App.RejectsTamperedSignature | src/App.jsx:47-51 | changing any one signature byte of a signed packet makes validation fail on the signature, whatever the clock says |
| App.Frame | src/App.jsx:118 | the transmitted frame has 8 preamble bits plus 8 bits per packet byte |
| App.PrepareFrame | src/App.jsx:106-118 | the sent bits are 216 long, start with the preamble, and are the preamble followed by the bits of the signed packet |
| Listener.FirstPreamble | src/App.jsx:151-155 | a found offset is the lowest one at or after the start where the preamble occurs and a whole frame fits; if none is found, no such offset exists |
| Listener.Listener.constructor | src/App.jsx:70 | the bit buffer starts empty and nothing is listening |
| Listener.Listener.StartListening | src/App.jsx:139-186 | already listening: nothing changes; otherwise listening starts exactly when the microphone was granted; the buffer is never cleared here |
| Listener.Listener.StopListening | src/App.jsx:130-137 | the buffer is emptied and listening stops |
| Listener.Listener.OnBit | src/App.jsx:146-180 | the new buffer and the candidate are those `Receive` gives, and the buffer never exceeds 432 bits; a candidate comes as a fresh byte array and stops listening; otherwise the listening state is unchanged |
| Listener.ReceiveWaits | src/App.jsx:147-150 | below 216 buffered bits, the bit is only appended and nothing is emitted |
| Listener.ReceiveTakesFirstMatch | src/App.jsx:151-160 | with a preamble at the lowest offset `i` that has a whole frame after it, the candidate is the 208 bits after that preamble, packed into 26 bytes, and the buffer is emptied |
| Listener.ReceiveWithoutMatch | src/App.jsx:177-179 | without a preamble in reach nothing is emitted, and the buffer keeps the newest bits: all of them up to 432, else the newest 432 |
| Listener.ReceiveBounded | src/App.jsx:177-179 | after any call the buffer holds at most 432 bits |
| Listener.SilentBitWaits | src/App.jsx:146-180 | a zero bit on a buffer of zeros emits nothing; it is kept, and the oldest bit is dropped once the buffer is full |
| Listener.ListenSilence | src/App.jsx:146-180 | any run of zero bits only accumulates, up to 432 bits |
| Listener.FrameBitWaits | src/App.jsx:146-180 | each frame bit but the last, after silence, emits nothing and is kept |
| Listener.FrameBitMatches | src/App.jsx:146-180 | the last frame bit completes the only window holding a preamble, and the emitted candidate is exactly the framed packet |
| Listener.ListenFrame | src/App.jsx:146-180 | from any point inside a frame that follows silence, the rest of the frame makes the callback emit exactly the framed packet, on its last bit |
| Listener.SilenceThenFrame | src/App.jsx:146-180 | any run of silence and then a frame makes a listener that starts empty emit exactly the framed packet; the bits after it are not read |
| Listener.SendThenReceive | src/App.jsx:106-180 | end to end: the bits sent for `f`, heard after silence, yield the signed packet, which validation accepts while fresh and turns back into `f` |
| Listener.ListenCollects | src/App.jsx:147-150 | while the buffer stays below 216 bits, feeding bits only appends them |
| Listener.FirstWindowCompletes | src/App.jsx:149-160 | the 216th bit fed to an empty listener completes the first window; if that window opens with the preamble, its 208 packet bits are emitted and the buffer is emptied |
| Listener.FirstWindowWins | src/App.jsx:146-180 | a listener that starts empty emits the first 216 bits of a stream as soon as they arrive, if they open with the preamble, whatever follows |
| Listener.NoiseShiftsFrame | src/App.jsx:151-160 | the noise bits `1 0` just before a frame make the callback emit the frame shifted by two bits, which differs from the sent packet whenever its first byte is below 128 |
| Listener.NoiseLosesSentFrame | src/App.jsx:106-160 | so the frame sent for a sender id below 2^31, after noise ending in `1 0`, is never emitted; some other 26 bytes are |

## Left out

- `src/encoder.js` and `src/decoder.js`: audio synthesis, the FFT bit classifier, timers and floating point. The decoder's output is taken as an arbitrary stream of 0/1 bits fed to the callback.
- SHA-256 (FIPS 180-4) itself: `crypto.subtle.digest` is the parameter `h`, so the proofs hold for every digest function.
- The debug `console.log` calls in `verifySignature`.
- React state, `localStorage` accounts and balances, and the float arithmetic of `handleSend`: `parseFloat`, `Math.round(amount * 100)`, and the balance updates after sending and after a validated packet. The amount in paise is a field value.
- `crypto.getRandomValues` for the nonce and `Date.now()`: both arrive as field values or as the parameter `now`.
- The `instanceof Uint8Array` test in `parsePacket`: every packet the core hands it comes from `bitsToBytes`. The model's packets are byte sequences, and only the length test is modelled.
- `ByteArrays.SetUint32`, `ByteArrays.SetUint16`: do not model the ToUint32/ToUint16 wrap-around of out-of-range numbers. The fields are typed as 32- and 16-bit unsigned values, which every caller supplies.
- `Packet.BuildPacket`: requires the signature to fit in the 12 bytes after offset 14. A longer one makes `packet.set` throw a RangeError, which is not modelled. Every caller passes the 8 bytes `signData` returns.
- `Listener.Listener.StopListening`: is one synchronous step. In the source, `stopListening` awaits the decoder's `stop()` before it clears the buffer and resets the state. The callback does not await it, so bits arriving in between are not modelled.
- `Listener.Listener.StartListening`: models only the outcome of the microphone request, and the callback is taken as installed once it succeeds. It does not model clearing the error text or the received payment.
- `Listener.Listener.OnBit`: the candidate is returned rather than passed to `validatePacket` asynchronously. Validation is `App.ValidatePacket`, applied to that candidate. The UI and balance updates that follow it are left out.

## Notes

- The design description of the protocol gives `65 69 78 00` as the timestamp bytes for 1700000000. `setUint32` writes `65 53 F1 00` (0x6553F100 = 1700000000), and the model follows the code (`App.PayloadExample`).
- The guard `packetBits.length < PACKET_SIZE * 8` in the callback can never fire. The loop bound already keeps a whole frame inside the buffer; `Listener.Listener.OnBit` asserts this.
- The preamble `10101010` overlaps itself. Noise ending in `1 0` just before a frame completes a preamble two bits early. The callback then emits the frame shifted by two bits, stops listening, and the sent packet is lost (`Listener.NoiseShiftsFrame`, `Listener.NoiseLosesSentFrame`). The end-to-end lemmas are therefore stated for silence (zero bits) before the frame.
