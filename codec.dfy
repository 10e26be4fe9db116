/**
 * The peer-to-peer message protocol: how a payload of any length becomes
 * frames of at most MaxMessageSize payload bytes with a one-byte tag, and how
 * a receiver turns the frames of one peer back into payloads.
 *
 * The encoder and the decoder are stated here as functions on values; the
 * room (module Rooms) runs them in place on its scratch array and on each
 * peer's reassembly buffer, and its methods are proved against these.
 */
module MessageCodec {
  import opened Optional

  type byte = x: int | 0 <= x < 256

  type Bytes = seq<byte>

  /** Largest payload carried by one frame. */
  const MaxMessageSize: nat := 16000

  /** The frame tags. */
  const MultiPartStart: byte := 1
  const MultiPartContinuation: byte := 2
  const SinglePart: byte := 3
  const SinglePartGzipped: byte := 4

  /** 2^32: the length field of a start frame is an unsigned 32-bit number. */
  const U32Modulus: nat := 0x1_0000_0000

  /**
   * The compression capability the room is handed. Its codec is not part of
   * this model; all the protocol relies on is RoundTrips.
   */
  datatype Gzip = Gzip(encode: Bytes -> Bytes, decode: Bytes -> Bytes)

  ghost predicate RoundTrips(g: Gzip)
  {
    forall x :: g.decode(g.encode(x)) == x
  }

  // ---------------------------------------------------------------------
  // Unsigned 32-bit big-endian numbers
  // ---------------------------------------------------------------------

  /** The value of the first four bytes of b, most significant first. */
  function ReadU32(b: Bytes): (n: nat)
    requires |b| >= 4
    ensures n < U32Modulus
  {
    (b[0] as int) * 16777216 + (b[1] as int) * 65536 + (b[2] as int) * 256 + (b[3] as int)
  }

  /** The four big-endian bytes of n. */
  function U32BE(n: nat): (b: Bytes)
    requires n < U32Modulus
    ensures |b| == 4
  {
    var a := n / 256;
    var b := a / 256;
    [b / 256, b % 256, a % 256, n % 256]
  }

  /** Division by 256 with a remainder in range is unique. */
  lemma DivMod256(n: int, q: int, r: int)
    requires n == 256 * q + r && 0 <= r < 256
    ensures n / 256 == q && n % 256 == r
  {
  }

  lemma U32RoundTrip(n: nat)
    requires n < U32Modulus
    ensures ReadU32(U32BE(n)) == n
  {
    var a := n / 256;
    var b := a / 256;
    assert n == 256 * a + n % 256;
    assert a == 256 * b + a % 256;
    assert b == 256 * (b / 256) + b % 256;
  }

  lemma U32RoundTripBytes(x: Bytes)
    requires |x| == 4
    ensures U32BE(ReadU32(x)) == x
  {
    var n := ReadU32(x);
    var b := (x[0] as int) * 256 + (x[1] as int);
    var a := b * 256 + (x[2] as int);
    DivMod256(n, a, x[3]);
    DivMod256(a, b, x[2]);
    DivMod256(b, x[0], x[1]);
  }

  // ---------------------------------------------------------------------
  // Encoding
  // ---------------------------------------------------------------------

  function Min(a: nat, b: nat): nat
  {
    if a < b then a else b
  }

  /** True when the frames of data are the fragments of its compressed form. */
  predicate Fragmented(g: Gzip, data: Bytes)
  {
    |data| > MaxMessageSize && |g.encode(data)| > MaxMessageSize
  }

  /**
   * The first frame of a fragmented payload z: the start tag, the length of z
   * as DataView.setUint32 writes it (its low 32 bits, big-endian), then the
   * first MaxMessageSize bytes of z.
   */
  function StartFrame(z: Bytes): Bytes
    requires |z| > MaxMessageSize
  {
    [MultiPartStart] + U32BE(|z| % U32Modulus) + z[..MaxMessageSize]
  }

  /** What a frame carries after its tag. */
  function Body(frame: Bytes): Bytes
    requires |frame| >= 1
  {
    frame[1..]
  }

  /** The bodies of a sequence of frames, concatenated in order. */
  function Bodies(frames: seq<Bytes>): Bytes
    requires forall i :: 0 <= i < |frames| ==> |frames[i]| >= 1
  {
    if frames == [] then [] else Body(frames[0]) + Bodies(frames[1..])
  }

  /** A continuation frame: its tag and between 1 and MaxMessageSize bytes. */
  predicate IsContinuation(frame: Bytes)
  {
    2 <= |frame| <= MaxMessageSize + 1 && frame[0] == MultiPartContinuation
  }

  /**
   * The continuation frames that carry rest, MaxMessageSize bytes at a time
   * (the last one shorter).
   */
  function Continuations(rest: Bytes): seq<Bytes>
    decreases |rest|
  {
    if |rest| == 0 then []
    else
      var n := Min(|rest|, MaxMessageSize);
      [[MultiPartContinuation] + rest[..n]] + Continuations(rest[n..])
  }

  /**
   * Every continuation frame carries its tag and between 1 and
   * MaxMessageSize bytes, and their bodies, in order, give back rest.
   */
  lemma {:induction false} ContinuationsCarry(rest: Bytes)
    ensures forall i :: 0 <= i < |Continuations(rest)| ==> IsContinuation(Continuations(rest)[i])
    ensures forall i :: 0 <= i < |Continuations(rest)| ==> |Continuations(rest)[i]| >= 2
    ensures Bodies(Continuations(rest)) == rest
    decreases |rest|
  {
    if |rest| > 0 {
      var n := Min(|rest|, MaxMessageSize);
      var frames := Continuations(rest);
      ContinuationsCarry(rest[n..]);
      assert frames[1..] == Continuations(rest[n..]);
      assert frames[0][1..] == rest[..n];
      assert rest == rest[..n] + rest[n..];
    }
  }

  /** The first continuation frame carries the first MaxMessageSize bytes, or all of them. */
  lemma ContinuationsUnfold(rest: Bytes)
    requires |rest| > 0
    ensures var n := Min(|rest|, MaxMessageSize);
      Continuations(rest) == [[MultiPartContinuation] + rest[..n]] + Continuations(rest[n..])
  {
  }

  /**
   * The bytes that travel for a payload: the payload itself when it fits one
   * frame, otherwise its compressed form.
   */
  function Wire(g: Gzip, data: Bytes): Bytes
  {
    if |data| <= MaxMessageSize then data else g.encode(data)
  }

  /** The tag of the single frame a payload travels in when Wire(g, data) fits one frame. */
  function SingleTag(data: Bytes): byte
  {
    if |data| <= MaxMessageSize then SinglePart else SinglePartGzipped
  }

  /** The frames the room sends, in order, for one payload. */
  function Frames(g: Gzip, data: Bytes): seq<Bytes>
  {
    var z := Wire(g, data);
    if |z| <= MaxMessageSize then [[SingleTag(data)] + z]
    else [StartFrame(z)] + Continuations(z[MaxMessageSize..])
  }

  /** How many frames it takes to carry `size` bytes at MaxMessageSize a frame. */
  function FrameCount(size: nat): nat
  {
    (size + MaxMessageSize - 1) / MaxMessageSize
  }

  lemma {:induction false} ContinuationCount(rest: Bytes)
    ensures |Continuations(rest)| == FrameCount(|rest|)
    decreases |rest|
  {
    if |rest| > 0 {
      var n := Min(|rest|, MaxMessageSize);
      ContinuationCount(rest[n..]);
      assert |Continuations(rest)| == 1 + |Continuations(rest[n..])|;
    }
  }

  /**
   * A payload of at most MaxMessageSize bytes travels as exactly one frame:
   * the single-part tag, then the payload verbatim.
   */
  lemma SmallPayloadIsOneFrame(g: Gzip, data: Bytes)
    requires |data| <= MaxMessageSize
    ensures Frames(g, data) == [[SinglePart] + data]
    ensures Body(Frames(g, data)[0]) == data
  {
  }

  /**
   * A larger payload whose compressed form fits one frame travels as exactly
   * one frame: the gzipped tag, then the compressed bytes; it is never
   * fragmented.
   */
  lemma CompressiblePayloadIsOneFrame(g: Gzip, data: Bytes)
    requires |data| > MaxMessageSize && |g.encode(data)| <= MaxMessageSize
    ensures Frames(g, data) == [[SinglePartGzipped] + g.encode(data)]
    ensures !Fragmented(g, data)
  {
  }

  /**
   * The layout of a fragmented payload: a start frame of exactly
   * MaxMessageSize + 5 bytes holding the compressed length and the first
   * MaxMessageSize compressed bytes, then continuation frames only, one frame
   * per MaxMessageSize compressed bytes (the last one possibly shorter), whose
   * bodies after the start frame's bytes give back the compressed form.
   */
  lemma {:induction false} FragmentLayout(g: Gzip, data: Bytes)
    requires Fragmented(g, data)
    ensures var frames, z := Frames(g, data), g.encode(data);
      && |frames| == FrameCount(|z|)
      && |frames[0]| == MaxMessageSize + 5
      && frames[0][0] == MultiPartStart
      && ReadU32(frames[0][1..5]) == |z| % U32Modulus
      && (forall i :: 1 <= i < |frames| ==> IsContinuation(frames[i]))
      && frames[0][5..] + Bodies(frames[1..]) == z
  {
    var frames, z := Frames(g, data), g.encode(data);
    var rest := z[MaxMessageSize..];
    ContinuationCount(rest);
    ContinuationsCarry(rest);
    assert |frames| == 1 + FrameCount(|rest|);
    assert frames[1..] == Continuations(rest);
    assert frames[0][1..5] == U32BE(|z| % U32Modulus);
    U32RoundTrip(|z| % U32Modulus);
    assert frames[0][5..] == z[..MaxMessageSize];
    assert z == z[..MaxMessageSize] + rest;
  }

  /** Every frame is nonempty, carries a known tag and fits the channel's frame size. */
  lemma EveryFrameFits(g: Gzip, data: Bytes)
    ensures forall f :: f in Frames(g, data) ==>
      1 <= |f| <= MaxMessageSize + 5 && 1 <= f[0] <= 4
  {
    if Fragmented(g, data) {
      ContinuationsCarry(g.encode(data)[MaxMessageSize..]);
    }
  }

  // ---------------------------------------------------------------------
  // Decoding
  // ---------------------------------------------------------------------

  /**
   * A peer's reassembly state: the buffer allocated by the last start frame
   * and the offset where the next multi-part bytes go.
   */
  datatype Reassembly = Reassembly(data: Bytes, offset: nat)

  /** No reassembly in progress: an empty buffer and offset 0. */
  const Idle := Reassembly([], 0)

  /**
   * The effect of one frame: the new reassembly state, the payload handed to
   * the application (if any), and whether the handler raised a range error.
   */
  datatype Received = Received(state: Reassembly, message: Option<Bytes>, fault: bool)

  function Zeros(n: nat): (z: Bytes)
    ensures |z| == n && forall i :: 0 <= i < n ==> z[i] == 0
  {
    seq(n, _ => 0)
  }

  /**
   * A multi-part chunk: copied into the buffer at the current offset (a range
   * error if it does not fit), the offset advances by its length, and once
   * the offset equals the buffer length the whole buffer is decompressed and
   * delivered and the state goes back to Idle.
   */
  function MultipartReceived(g: Gzip, r: Reassembly, chunk: Bytes): (res: Received)
    ensures res.fault <==> r.offset + |chunk| > |r.data|
    ensures res.message.Some? <==> !res.fault && r.offset + |chunk| == |r.data|
    ensures res.fault ==> res.state == r && res.message == None
    ensures !res.fault && res.message == None ==>
      && res.state.offset == r.offset + |chunk| < |res.state.data| == |r.data|
      && res.state.data[r.offset..res.state.offset] == chunk
    ensures !res.fault && res.message == None ==>
      && res.state.data[..r.offset] == r.data[..r.offset]
      && res.state.data[res.state.offset..] == r.data[res.state.offset..]
    ensures !res.fault && res.message.Some? ==>
      && res.state == Idle
      && res.message.value == g.decode(r.data[..r.offset] + chunk + r.data[r.offset + |chunk|..])
  {
    if r.offset + |chunk| > |r.data| then Received(r, None, true)
    else
      var data := r.data[..r.offset] + chunk + r.data[r.offset + |chunk|..];
      var offset := r.offset + |chunk|;
      assert data[r.offset..offset] == chunk;
      if offset == |data| then Received(Idle, Some(g.decode(data)), false)
      else Received(Reassembly(data, offset), None, false)
  }

  /**
   * What the data-channel message handler does with one frame from a peer
   * that is still registered. Empty frames and unknown tags change nothing;
   * a start frame too short to hold its length raises a range error before
   * anything changes; a start frame allocates a fresh zeroed buffer of the
   * declared length but keeps the current offset.
   */
  function Receive(g: Gzip, r: Reassembly, frame: Bytes): Received
  {
    if |frame| == 0 then Received(r, None, false)
    else if frame[0] == SinglePart then Received(r, Some(frame[1..]), false)
    else if frame[0] == SinglePartGzipped then Received(r, Some(g.decode(frame[1..])), false)
    else if frame[0] == MultiPartStart then
      if |frame| < 5 then Received(r, None, true)
      else MultipartReceived(g, Reassembly(Zeros(ReadU32(frame[1..5])), r.offset), frame[5..])
    else if frame[0] == MultiPartContinuation then MultipartReceived(g, r, frame[1..])
    else Received(r, None, false)
  }

  /** The outcome of a sequence of frames from one peer, fed in order. */
  datatype Fed = Fed(state: Reassembly, messages: seq<Bytes>, faulted: bool)

  function MessageSeq(m: Option<Bytes>): seq<Bytes>
  {
    if m.Some? then [m.value] else []
  }

  function Feed(g: Gzip, r: Reassembly, frames: seq<Bytes>): Fed
    decreases |frames|
  {
    if frames == [] then Fed(r, [], false)
    else
      var first := Receive(g, r, frames[0]);
      var later := Feed(g, first.state, frames[1..]);
      Fed(later.state, MessageSeq(first.message) + later.messages, first.fault || later.faulted)
  }

  /** True when the offset lies within the buffer. */
  predicate InBounds(r: Reassembly)
  {
    r.offset <= |r.data|
  }

  /**
   * A frame that is handled without error leaves the offset within the
   * buffer; a payload comes out of a multi-part frame only together with a
   * reset to Idle.
   */
  lemma ReceiveKeepsOffsetInBounds(g: Gzip, r: Reassembly, frame: Bytes)
    requires InBounds(r)
    ensures var res := Receive(g, r, frame);
      && (!res.fault ==> InBounds(res.state))
      && (|frame| > 0 && frame[0] in {MultiPartStart, MultiPartContinuation} && res.message.Some? ==> res.state == Idle)
  {
  }

  /**
   * A start frame that arrives while an earlier reassembly is unfinished
   * (offset k > 0) does not start at offset 0: its bytes land at k, behind k
   * zero bytes, or, when they do not fit, the handler raises a range error and
   * leaves the offset past the new buffer's end.
   */
  lemma StartAfterIncomplete(g: Gzip, r: Reassembly, z: Bytes)
    requires r.offset > 0
    requires MaxMessageSize < |z| < U32Modulus
    ensures var res := Receive(g, r, StartFrame(z));
      && (r.offset + MaxMessageSize > |z| ==> res.fault && res.state == Reassembly(Zeros(|z|), r.offset))
      && (r.offset > |z| ==> !InBounds(res.state))
      && (r.offset + MaxMessageSize < |z| ==>
            && !res.fault && res.message == None
            && res.state.offset == r.offset + MaxMessageSize
            && res.state.data[..r.offset] == Zeros(r.offset)
            && res.state.data[r.offset..res.state.offset] == z[..MaxMessageSize])
  {
    var frame := StartFrame(z);
    assert frame[1..5] == U32BE(|z|);
    U32RoundTrip(|z|);
    assert frame[5..] == z[..MaxMessageSize];
  }

  /** The state of a peer that has received the first `offset` bytes of z. */
  function Partial(z: Bytes, offset: nat): Reassembly
    requires offset <= |z|
  {
    Reassembly(z[..offset] + Zeros(|z| - offset), offset)
  }

  /**
   * Writing the next n bytes of z into a peer that holds its first `offset`
   * bytes: either the peer now holds offset + n bytes of z, or z is complete
   * and its decompression is delivered.
   */
  lemma PartialWrite(g: Gzip, z: Bytes, offset: nat, n: nat)
    requires 0 < n && offset + n <= |z|
    ensures MultipartReceived(g, Partial(z, offset), z[offset..offset + n])
         == if offset + n == |z| then Received(Idle, Some(g.decode(z)), false)
            else Received(Partial(z, offset + n), None, false)
  {
    var r := Partial(z, offset);
    var written := r.data[..offset] + z[offset..offset + n] + r.data[offset + n..];
    assert written == z[..offset + n] + Zeros(|z| - (offset + n)) by {
      assert |written| == |z|;
      forall i | 0 <= i < |z|
        ensures written[i] == (z[..offset + n] + Zeros(|z| - (offset + n)))[i]
      {
        if i < offset {
        } else if i < offset + n {
        } else {
        }
      }
    }
    if offset + n == |z| {
      assert z[..offset + n] + Zeros(|z| - (offset + n)) == z;
    }
  }

  /**
   * The continuation frames that carry z[offset..], fed to a peer that holds
   * the first `offset` bytes of z, deliver the decompression of z exactly
   * once and leave the peer Idle.
   */
  lemma {:induction false} ContinuationsReassemble(g: Gzip, z: Bytes, offset: nat)
    requires 0 < offset < |z|
    ensures Feed(g, Partial(z, offset), Continuations(z[offset..])) == Fed(Idle, [g.decode(z)], false)
    decreases |z| - offset
  {
    var rest := z[offset..];
    var n := Min(|rest|, MaxMessageSize);
    var frames := Continuations(rest);
    assert frames[0] == [MultiPartContinuation] + rest[..n];
    assert frames[1..] == Continuations(rest[n..]);
    assert frames[0][1..] == z[offset..offset + n];
    PartialWrite(g, z, offset, n);
    var first := Receive(g, Partial(z, offset), frames[0]);
    if offset + n == |z| {
      assert frames[1..] == [];
      assert first == Received(Idle, Some(g.decode(z)), false);
    } else {
      assert first == Received(Partial(z, offset + n), None, false);
      assert rest[n..] == z[offset + n..];
      ContinuationsReassemble(g, z, offset + n);
    }
  }

  /**
   * Round trip: the frames produced for a payload x, fed in order to a peer
   * with no reassembly in progress, deliver exactly x, exactly once, without
   * error, given that decompression undoes compression and that the
   * compressed length fits the 32-bit length field. A single frame leaves the
   * reassembly state alone; a fragmented payload leaves the peer Idle.
   */
  lemma {:induction false} RoundTrip(g: Gzip, r: Reassembly, x: Bytes)
    requires RoundTrips(g)
    requires r.offset == 0
    requires |x| > MaxMessageSize ==> |g.encode(x)| < U32Modulus
    ensures var fed := Feed(g, r, Frames(g, x));
      && fed.messages == [x]
      && !fed.faulted
      && fed.state == (if Fragmented(g, x) then Idle else r)
  {
    var frames := Frames(g, x);
    if |x| <= MaxMessageSize {
      assert frames[0][1..] == x;
      assert frames[1..] == [];
    } else if |g.encode(x)| <= MaxMessageSize {
      assert frames[0][1..] == g.encode(x);
      assert frames[1..] == [];
    } else {
      var z := g.encode(x);
      StartFrameReceived(g, r, z);
      assert frames[1..] == Continuations(z[MaxMessageSize..]);
      ContinuationsReassemble(g, z, MaxMessageSize);
    }
  }

  /**
   * A start frame received with no reassembly in progress allocates a buffer
   * of the compressed length and holds its first MaxMessageSize bytes.
   */
  lemma StartFrameReceived(g: Gzip, r: Reassembly, z: Bytes)
    requires r.offset == 0
    requires MaxMessageSize < |z| < U32Modulus
    ensures Receive(g, r, StartFrame(z)) == Received(Partial(z, MaxMessageSize), None, false)
  {
    var start := StartFrame(z);
    assert start[1..5] == U32BE(|z|);
    U32RoundTrip(|z|);
    assert start[5..] == z[..MaxMessageSize];
    assert Reassembly(Zeros(|z|), 0) == Partial(z, 0);
    PartialWrite(g, z, 0, MaxMessageSize);
  }
}
