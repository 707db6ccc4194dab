/**
 * The receive-side frame synchroniser: the `onBit` callback the decoder calls
 * with every classified bit, over the shared bit buffer that `stopListening`
 * clears.
 *
 * `Receive` states what one call does to the buffer and what candidate packet
 * it emits; `Listen` feeds a whole bit stream through it, stopping at the
 * first candidate as the app does.
 */
module Listener {
  import opened Wrappers
  import opened Encoding
  import opened Packet
  import opened App
  import Signer

  /** `PREAMBLE_BITS.length + PACKET_SIZE * 8`: one whole frame. */
  const NeededBits: nat := 8 + PacketSize * 8
  /** The buffer is cut back to this many bits when no frame is found. */
  const MaxBufferBits: nat := 2 * NeededBits

  predicate PreambleAt(buf: seq<Bit>, i: nat)
  {
    i + |Preamble| <= |buf| && buf[i..i + |Preamble|] == Preamble
  }

  /** The lowest start offset at or after `from` where the preamble occurs
      and a whole frame fits in the buffer. */
  function FirstPreamble(buf: seq<Bit>, from: nat): (r: Option<nat>)
    ensures r.Some? ==> from <= r.value && r.value + NeededBits <= |buf| && PreambleAt(buf, r.value)
    ensures r.Some? ==> forall k :: from <= k < r.value ==> !PreambleAt(buf, k)
    ensures r.None? ==> forall k :: from <= k && k + NeededBits <= |buf| ==> !PreambleAt(buf, k)
    decreases |buf| - from
  {
    if from + NeededBits > |buf| then None
    else if PreambleAt(buf, from) then Some(from)
    else FirstPreamble(buf, from + 1)
  }

  /** The newest `MaxBufferBits` bits. */
  function Trim(buf: seq<Bit>): seq<Bit>
  {
    if |buf| > MaxBufferBits then buf[|buf| - MaxBufferBits..] else buf
  }

  datatype Reception = Reception(candidate: Option<seq<Byte>>, buffer: seq<Bit>)

  /** One `onBit(bit)` call on a buffer holding `buffer`. */
  function Receive(buffer: seq<Bit>, bit: Bit): Reception
  {
    var buf := buffer + [bit];
    if |buf| < NeededBits then Reception(None, buf)
    else match FirstPreamble(buf, 0)
      case Some(i) => Reception(Some(BytesOf(buf[i + |Preamble|..i + NeededBits])), [])
      case None => Reception(None, Trim(buf))
  }

  class Listener {
    /** `bitBufferRef.current` */
    var buffer: seq<Bit>
    /** Whether the decoder is running (`decoderRef.current` is set). */
    var listening: bool

    constructor ()
      ensures buffer == [] && !listening
    {
      buffer := [];
      listening := false;
    }

    /** `startListening`; `micGranted` is the outcome of asking for the
        microphone. The buffer is not cleared here. */
    method StartListening(micGranted: bool)
      modifies this
      ensures listening == (old(listening) || micGranted)
      ensures buffer == old(buffer)
    {
      if listening {
        return;
      }
      if micGranted {
        listening := true;
      }
    }

    /** `stopListening`, taken as one synchronous step. */
    method StopListening()
      modifies this
      ensures buffer == [] && !listening
    {
      listening := false;
      buffer := [];
    }

    method OnBit(bit: Bit) returns (candidate: Option<array<Byte>>)
      modifies this
      ensures buffer == Receive(old(buffer), bit).buffer
      ensures |buffer| <= MaxBufferBits
      ensures candidate.None? <==> Receive(old(buffer), bit).candidate.None?
      ensures candidate.Some? ==>
        fresh(candidate.value) && candidate.value[..] == Receive(old(buffer), bit).candidate.value && !listening
      ensures candidate.None? ==> listening == old(listening)
    {
      buffer := buffer + [bit];
      if |buffer| < NeededBits {
        return None;
      }
      ghost var buf := buffer;
      var i := 0;
      while i <= |buffer| - NeededBits
        invariant buffer == buf
        invariant 0 <= i <= |buffer| - NeededBits + 1
        invariant FirstPreamble(buf, 0) == FirstPreamble(buf, i)
      {
        // the eight bits from i on equal the preamble, bit for bit
        var matched := buffer[i..i + |Preamble|] == Preamble;
        if matched {
          var packetStart := i + |Preamble|;
          var packetBits := buffer[packetStart..packetStart + PacketSize * 8];
          // the loop bound keeps a whole frame in view, so a slice shorter
          // than a packet cannot occur here
          assert |packetBits| == PacketSize * 8;
          var packet := BitsToBytes(packetBits);
          StopListening();
          return Some(packet);
        }
        i := i + 1;
      }
      if |buffer| > MaxBufferBits {
        buffer := buffer[|buffer| - MaxBufferBits..];
      }
      return None;
    }
  }

  // ---------------------------------------------------------------------------
  // Properties of one call

  /** Below a whole frame's worth of bits the bit is only appended. */
  lemma ReceiveWaits(buffer: seq<Bit>, bit: Bit)
    requires |buffer| + 1 < NeededBits
    ensures Receive(buffer, bit) == Reception(None, buffer + [bit])
  {
  }

  /** A candidate comes from the lowest preamble offset with a whole frame
      after it: it is the 208 bits after that preamble as 26 bytes, and the
      buffer is emptied so that occurrence is never emitted again. */
  lemma ReceiveTakesFirstMatch(buffer: seq<Bit>, bit: Bit, i: nat)
    requires var buf := buffer + [bit];
      i + NeededBits <= |buf| && PreambleAt(buf, i)
      && forall k :: 0 <= k < i ==> !PreambleAt(buf, k)
    ensures var buf := buffer + [bit];
      Receive(buffer, bit) == Reception(Some(BytesOf(buf[i + 8..i + NeededBits])), [])
    ensures |Receive(buffer, bit).candidate.value| == PacketSize
  {
  }

  /** Without a preamble in reach, the buffer keeps its newest bits: at most
      432, a suffix of the buffer with the new bit appended, and all of it
      when it fits. */
  lemma ReceiveWithoutMatch(buffer: seq<Bit>, bit: Bit)
    requires forall k: nat :: k + NeededBits <= |buffer| + 1 ==> !PreambleAt(buffer + [bit], k)
    ensures var buf := buffer + [bit]; var r := Receive(buffer, bit);
      && r.candidate == None
      && |r.buffer| == (if |buf| <= MaxBufferBits then |buf| else MaxBufferBits)
      && r.buffer == buf[|buf| - |r.buffer|..]
  {
  }

  /** After any call the buffer holds at most 432 bits. */
  lemma ReceiveBounded(buffer: seq<Bit>, bit: Bit)
    ensures |Receive(buffer, bit).buffer| <= MaxBufferBits
  {
  }

  // ---------------------------------------------------------------------------
  // Feeding a bit stream

  datatype Outcome =
    | Heard(packet: seq<Byte>, unread: seq<Bit>)   // a candidate; the bits after it are never fed
    | Waiting(buffer: seq<Bit>)                    // no candidate yet

  /** Feeds `bits` one by one until the first candidate. */
  function Listen(buffer: seq<Bit>, bits: seq<Bit>): Outcome
    decreases |bits|
  {
    if bits == [] then Waiting(buffer)
    else
      var r := Receive(buffer, bits[0]);
      if r.candidate.Some? then Heard(r.candidate.value, bits[1..])
      else Listen(r.buffer, bits[1..])
  }

  function Min(a: nat, b: nat): nat
  {
    if a < b then a else b
  }

  /** A preamble starts with a 1, so none starts inside a run of zeros. */
  lemma NoPreambleInSilence(buf: seq<Bit>, k: nat)
    requires k <= |buf| && forall i :: 0 <= i < k ==> buf[i] == 0
    ensures forall i: nat :: i < k ==> !PreambleAt(buf, i)
  {
    forall i: nat | i < k
      ensures !PreambleAt(buf, i)
    {
      if i + |Preamble| <= |buf| {
        assert buf[i..i + |Preamble|][0] == buf[i];
      }
    }
  }

  /** A silent bit (a 0) never completes a preamble; it is kept, and the
      oldest bit is trimmed once the buffer is full. */
  lemma SilentBitWaits(k: nat)
    requires k <= MaxBufferBits
    ensures Receive(Zeros(k), 0) == Reception(None, Zeros(Min(k + 1, MaxBufferBits)))
  {
    var buf := Zeros(k) + [0];
    assert buf == Zeros(k + 1);
    NoPreambleInSilence(buf, |buf|);
    ReceiveWithoutMatch(Zeros(k), 0);
  }

  /** Silence only accumulates, up to the trim length. */
  lemma {:induction false} ListenSilence(k: nat, m: nat, rest: seq<Bit>)
    requires k <= MaxBufferBits
    ensures Listen(Zeros(k), Zeros(m) + rest) == Listen(Zeros(Min(k + m, MaxBufferBits)), rest)
    decreases m
  {
    var bits := Zeros(m) + rest;
    if m > 0 {
      SilentBitWaits(k);
      assert bits[0] == 0;
      assert bits[1..] == Zeros(m - 1) + rest;
      ListenSilence(Min(k + 1, MaxBufferBits), m - 1, rest);
    } else {
      assert bits == rest;
    }
  }

  /** A frame bit other than the last, after `k` silent bits and the frame
      bits before it: no window that fits starts outside the silence, so the
      bit is kept and at most one silent bit is trimmed. */
  lemma FrameBitWaits(k: nat, j: nat, packet: seq<Byte>)
    requires |packet| == PacketSize
    requires j + 1 < NeededBits && k + j <= MaxBufferBits
    ensures var frame := Frame(packet);
      Receive(Zeros(k) + frame[..j], frame[j])
        == Reception(None, Zeros(if k + j + 1 > MaxBufferBits then k - 1 else k) + frame[..j + 1])
  {
    var frame := Frame(packet);
    var buf := Zeros(k) + frame[..j] + [frame[j]];
    assert buf == Zeros(k) + frame[..j + 1];
    NoPreambleInSilence(buf, k);
    ReceiveWithoutMatch(Zeros(k) + frame[..j], frame[j]);
    if |buf| > MaxBufferBits {
      assert buf[1..] == Zeros(k - 1) + frame[..j + 1];
    }
  }

  /** The last frame bit completes the only window that holds a preamble. */
  lemma FrameBitMatches(k: nat, packet: seq<Byte>)
    requires |packet| == PacketSize
    requires k + NeededBits - 1 <= MaxBufferBits
    ensures var frame := Frame(packet);
      Receive(Zeros(k) + frame[..NeededBits - 1], frame[NeededBits - 1]) == Reception(Some(packet), [])
  {
    var frame := Frame(packet);
    var buf := Zeros(k) + frame[..NeededBits - 1] + [frame[NeededBits - 1]];
    assert buf == Zeros(k) + frame;
    NoPreambleInSilence(buf, k);
    assert buf[k..k + |Preamble|] == Preamble;
    ReceiveTakesFirstMatch(Zeros(k) + frame[..NeededBits - 1], frame[NeededBits - 1], k);
    assert buf[k + 8..k + NeededBits] == BitsOf(packet);
    BytesOfBitsOf(packet);
  }

  /** With `k` silent bits then the first `j` bits of a frame in the buffer,
      the remaining frame bits produce exactly the framed packet, on the last
      of them. */
  lemma {:induction false} ListenFrame(k: nat, j: nat, packet: seq<Byte>, after: seq<Bit>)
    requires |packet| == PacketSize
    requires j < NeededBits && k + j <= MaxBufferBits
    ensures var frame := Frame(packet);
      Listen(Zeros(k) + frame[..j], frame[j..] + after) == Heard(packet, after)
    decreases NeededBits - j
  {
    var frame := Frame(packet);
    var bits := frame[j..] + after;
    assert bits[0] == frame[j];
    if j + 1 < NeededBits {
      FrameBitWaits(k, j, packet);
      assert bits[1..] == frame[j + 1..] + after;
      ListenFrame(if k + j + 1 > MaxBufferBits then k - 1 else k, j + 1, packet, after);
    } else {
      FrameBitMatches(k, packet);
      assert bits[1..] == after;
    }
  }

  /** Any run of silence, then a frame, makes a listener that starts empty
      emit exactly the framed packet, on the frame's last bit; the bits after
      it are left unread. */
  lemma SilenceThenFrame(m: nat, packet: seq<Byte>, after: seq<Bit>)
    requires |packet| == PacketSize
    ensures Listen([], Zeros(m) + Frame(packet) + after) == Heard(packet, after)
  {
    assert Zeros(0) == [];
    assert Zeros(m) + Frame(packet) + after == Zeros(m) + (Frame(packet) + after);
    ListenSilence(0, m, Frame(packet) + after);
    var k := Min(m, MaxBufferBits);
    assert Zeros(k) + Frame(packet)[..0] == Zeros(k);
    assert Frame(packet)[0..] == Frame(packet);
    ListenFrame(k, 0, packet, after);
  }

  /** End to end: what the sender transmits for `f`, heard after silence by a
      listener that starts empty, is accepted while fresh and yields `f`. */
  lemma SendThenReceive(h: Signer.Sha256, f: Fields, m: nat, now: int)
    requires IsFresh(f.timestampSec, now)
    ensures Listen([], Zeros(m) + Frame(SignedPacket(h, f))) == Heard(SignedPacket(h, f), [])
    ensures Validation(h, SignedPacket(h, f), now) == Success(f)
  {
    assert Zeros(m) + Frame(SignedPacket(h, f)) == Zeros(m) + Frame(SignedPacket(h, f)) + [];
    SilenceThenFrame(m, SignedPacket(h, f), []);
    AcceptsSignedPacket(h, f, now);
  }

  // ---------------------------------------------------------------------------
  // A frame after noise

  /** While the buffer stays below a whole frame, bits are only collected. */
  lemma {:induction false} ListenCollects(buffer: seq<Bit>, bits: seq<Bit>, rest: seq<Bit>)
    requires |buffer| + |bits| < NeededBits
    ensures Listen(buffer, bits + rest) == Listen(buffer + bits, rest)
    decreases |bits|
  {
    if bits == [] {
      assert bits + rest == rest;
      assert buffer + bits == buffer;
    } else {
      ReceiveWaits(buffer, bits[0]);
      assert (bits + rest)[1..] == bits[1..] + rest;
      ListenCollects(buffer + [bits[0]], bits[1..], rest);
      assert buffer + [bits[0]] + bits[1..] == buffer + bits;
    }
  }

  /** A listener that starts empty takes the stream's first 216 bits as its
      first window: if they open with the preamble, they are emitted, whatever
      follows them. */
  lemma FirstWindowWins(s: seq<Bit>)
    requires |s| >= NeededBits && PreambleAt(s, 0)
    ensures Listen([], s) == Heard(BytesOf(s[8..NeededBits]), s[NeededBits..])
  {
    var n := NeededBits - 1;
    assert [] + s[..n] == s[..n];
    assert s[..n] + s[n..] == s;
    ListenCollects([], s[..n], s[n..]);
    FirstWindowCompletes(s);
    assert s[n..][0] == s[n];
    assert s[n..][1..] == s[NeededBits..];
  }

  /** The 216th bit completes the first window. */
  lemma FirstWindowCompletes(s: seq<Bit>)
    requires |s| >= NeededBits && PreambleAt(s, 0)
    ensures Receive(s[..NeededBits - 1], s[NeededBits - 1]) == Reception(Some(BytesOf(s[8..NeededBits])), [])
  {
    var n := NeededBits - 1;
    var buf := s[..n] + [s[n]];
    assert buf == s[..NeededBits];
    assert buf[0..8] == s[0..8];
    ReceiveTakesFirstMatch(s[..n], s[n], 0);
    assert buf[8..NeededBits] == s[8..NeededBits];
  }

  /** A byte whose leading bit is 1 is at least 128. */
  lemma LeadingOne(d: seq<Bit>)
    requires |d| == 8 && d[0] == 1
    ensures Value(d, 2) >= 128
  {
    DigitsOfValue(d, 2);
    DigitAt(Value(d, 2), 2, 8, 0);
    assert Pow(2, 7) == 128;
  }

  /** The preamble overlaps itself: two noise bits `1 0` just before a frame
      complete a preamble two bits early. The listener then emits the frame
      shifted by two bits, which is not the sent packet whenever that packet's
      first byte is below 128 (a sender id below 2^31), and it stops
      listening before the real frame ends. */
  lemma NoiseShiftsFrame(packet: seq<Byte>)
    requires |packet| == PacketSize && packet[0] < 128
    ensures var s := [1, 0] + Frame(packet);
      && Listen([], s) == Heard(BytesOf(s[8..NeededBits]), s[NeededBits..])
      && BytesOf(s[8..NeededBits]) != packet
  {
    var s := [1, 0] + Frame(packet);
    assert s[0..8] == Preamble;
    FirstWindowWins(s);
    var window := s[8..NeededBits];
    BytesOfAt(window, 0);
    assert window[0..8] == s[8..16];
    assert s[8] == Frame(packet)[6] == 1;
    LeadingOne(s[8..16]);
  }

  /** So a sent frame for a sender id below 2^31 that follows noise ending
      in `1 0` is lost: the listener emits some other 26 bytes instead. */
  lemma NoiseLosesSentFrame(h: Signer.Sha256, f: Fields)
    requires f.senderId < 0x8000_0000
    ensures Listen([], [1, 0] + Frame(SignedPacket(h, f))).Heard?
    ensures Listen([], [1, 0] + Frame(SignedPacket(h, f))).packet != SignedPacket(h, f)
  {
    var p := SignedPacket(h, f);
    EncodePacketLayout(f, Signer.ExpectedSignature(h, FieldBytes(f)));
    assert p[0] == p[0..4][0] == f.senderId / 0x100_0000 % 256;
    NoiseShiftsFrame(p);
  }
}
