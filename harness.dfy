/**
 * The repository's round-trip tests and fuzz target, stated over the model:
 * the buffers they allocate are big enough, the payload comes back, and the
 * tests' payloads have the frames the format prescribes.
 */
module Harness {
  import opened Types
  import opened Sizing
  import opened Frame
  import Encoder
  import Decoder

  /**
   * Encodes `data` into a buffer of `EncodeBuffer(|data|)` bytes, decodes the
   * frame into a buffer of `DecodeBuffer` of the frame length, and returns
   * what was decoded: always `data` itself.
   */
  method EncodeThenDecode(data: seq<u8>) returns (out: seq<u8>)
    ensures out == data
  {
    EncodedLength(data);
    var encodeBuf := new u8[EncodeBuffer(|data|)];
    var len := Encoder.Encode(data, encodeBuf);
    var frame := encodeBuf[..len];
    RoundTrip(data);
    var decodeBuf := new u8[DecodeBuffer(len)];
    var r := Decoder.Decode(frame, decodeBuf);
    out := decodeBuf[..r.value];
  }

  /**
   * Encodes `data` into a buffer of `EncodeBuffer(|data|)` bytes, as the unit
   * tests do, and decodes the frame into a buffer of exactly `|data|` bytes,
   * which can be less than `DecodeBuffer` of the frame length; the payload
   * still comes back whole.
   */
  method DecodeIntoPayloadRoom(data: seq<u8>) returns (out: seq<u8>)
    ensures out == data
  {
    EncodedLength(data);
    var encodeBuf := new u8[EncodeBuffer(|data|)];
    var len := Encoder.Encode(data, encodeBuf);
    var frame := encodeBuf[..len];
    RoundTrip(data);
    var decodeBuf := new u8[|data|];
    var r := Decoder.Decode(frame, decodeBuf);
    out := decodeBuf[..r.value];
  }

  /** A zero-free payload shorter than a full chunk is one chunk: its length plus one, then the payload. */
  lemma ShortZeroFree(d: seq<u8>)
    requires |d| < 254 && ZeroFree(d)
    ensures Encoded(d) == [|d| + 1] + d
  {
    ChunkLengthIs(d, |d|);
    EncodedLayout(d, Encoded(d));
    assert Encoded(d) == [Encoded(d)[0]] + Encoded(d)[1..];
  }

  /** 254 non-zero bytes make one full chunk and nothing after it. */
  lemma FullZeroFree(d: seq<u8>)
    requires |d| == 254 && ZeroFree(d)
    ensures Encoded(d) == [255] + d
  {
    ChunkLengthIs(d, 254);
    EncodedLayout(d, Encoded(d));
    assert Encoded(d) == [Encoded(d)[0]] + Encoded(d)[1..];
  }

  /** 255 non-zero bytes make a full chunk followed by a one-byte chunk. */
  lemma OverFullZeroFree(d: seq<u8>)
    requires |d| == 255 && ZeroFree(d)
    ensures Encoded(d) == [255] + d[..254] + [2, d[254]]
  {
    var e := Encoded(d);
    ChunkLengthIs(d, 254);
    EncodedLayout(d, e);
    ShortZeroFree(d[254..]);
    assert e == [e[0]] + e[1..255] + e[255..];
  }

  /** A zero after fewer than 254 non-zero bytes `b` ends a chunk and is not copied. */
  lemma ZeroAfter(d: seq<u8>, b: seq<u8>, rest: seq<u8>)
    requires d == b + [0] + rest && |b| < 254 && ZeroFree(b)
    ensures Encoded(d) == [|b| + 1] + b + Encoded(rest)
  {
    var e := Encoded(d);
    assert d[..|b|] == b && d[|b| + 1..] == rest;
    ChunkLengthIs(d, |b|);
    EncodedLayout(d, e);
    assert e == [e[0]] + e[1 .. |b| + 1] + e[|b| + 1..];
  }

  /** The empty payload is the one-byte frame `[1]`, and decoding it gives nothing back. */
  lemma EmptyExample()
    ensures Encoded([]) == [1]
    ensures Decoded([1]) == Ok([])
  {
    ShortZeroFree([]);
  }

  /** Malformed frames and the outcome decoding them ends in. */
  lemma MalformedExamples()
    ensures Decoded([]) == Err(EmptyInput)
    ensures Decoded([0]) == Panic
    ensures Decoded([2, 1, 0]) == Err(ZeroMarker(1))
    ensures Decoded([5, 1, 2]) == Err(ChunkOverflow(0, 5, 3))
    ensures Decoded([3, 1, 0]) == Err(ZeroBinary(2))
  {
    assert FirstZero([3, 1, 0], 1, 3) == 2;
  }
}
