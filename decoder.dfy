/**
 * The single-pass COBS decoder over a caller-supplied output buffer.
 */
module Decoder {
  import opened Types
  import opened Sizing
  import opened Frame

  /** The outcome `o` with its payload replaced by the payload's length. */
  function Measured(o: Outcome<seq<u8>>): Outcome<nat> {
    match o
    case Ok(v) => Ok(|v|)
    case Err(e) => Err(e)
    case Panic => Panic
  }

  /**
   * A buffer of `size` bytes has room for what decoding `data` writes: the
   * bound `DecodeBuffer` gives, or the whole payload of a frame that decodes.
   */
  ghost predicate Room(data: seq<u8>, size: nat) {
    || data == []
    || DecodeBuffer(|data|) <= size
    || (DecodeChunks(data, 0).Ok? && |DecodeChunks(data, 0).value| <= size)
  }

  /**
   * The decoder's state at the marker at `i`: the first `outputPos` bytes of
   * `buf` (initially `before`) are what the chunks before `i` decode to, the
   * rest of the buffer is untouched, and the output does not overtake the input.
   */
  ghost predicate AtMarker(data: seq<u8>, buf: seq<u8>, before: seq<u8>, i: nat, outputPos: nat)
  {
    && MarkerBounds(data, buf, before, i, outputPos)
    && DecodeChunks(data, 0) == Prepend(buf[..outputPos], DecodeChunks(data, i))
    && buf[outputPos..] == before[outputPos..]
  }

  /** The positions at a marker: `outputPos` is at most `i`, and strictly less once the input is consumed. */
  ghost predicate MarkerBounds(data: seq<u8>, buf: seq<u8>, before: seq<u8>, i: nat, outputPos: nat)
  {
    && i <= |data| && |buf| == |before| && outputPos <= |buf|
    && outputPos <= i && (outputPos == i ==> i < |data|)
  }

  /**
   * The decoder's state inside the chunk whose marker `marker` is at `start`:
   * the data bytes from `start + 1` up to `i` are non-zero and have been
   * copied behind `out`, the output of the chunks before.
   */
  ghost predicate InChunk(data: seq<u8>, buf: seq<u8>, before: seq<u8>, start: nat, marker: u8,
                          i: nat, outputPos: nat, out: seq<u8>)
  {
    && ChunkBounds(data, buf, before, start, marker, i, outputPos, out)
    && FirstZero(data, start + 1, i) == i
    && buf[..outputPos] == out + data[start + 1 .. i]
    && DecodeChunks(data, 0) == Prepend(out, DecodeChunks(data, start))
    && buf[outputPos..] == before[outputPos..]
  }

  /** The positions inside a chunk: one output byte per data byte read so far, behind the input. */
  ghost predicate ChunkBounds(data: seq<u8>, buf: seq<u8>, before: seq<u8>, start: nat, marker: u8,
                              i: nat, outputPos: nat, out: seq<u8>)
  {
    && start < i <= start + marker <= |data| && data[start] == marker
    && |buf| == |before| && outputPos <= |buf|
    && outputPos == |out| + (i - start - 1) && outputPos < i
  }

  /**
   * A well-formed chunk at `start` adds its `marker - 1` data bytes, and a
   * zero unless it is full or last, to what is decoded before it.
   */
  lemma ChunkRoom(data: seq<u8>, start: nat, marker: u8, out: seq<u8>)
    requires marker != 0 && start + marker <= |data| && data[start] == marker
    requires DecodeChunks(data, 0) == Prepend(out, DecodeChunks(data, start))
    requires DecodeChunks(data, 0).Ok?
    ensures |DecodeChunks(data, 0).value| >= |out| + marker - 1
    ensures start + marker < |data| && marker != 255 ==> |DecodeChunks(data, 0).value| >= |out| + marker
  {
  }

  /** Before the first marker nothing has been decoded. */
  lemma Begin(data: seq<u8>, buf: seq<u8>)
    requires data != []
    ensures AtMarker(data, buf, buf, 0, 0)
  {
    assert buf[..0] == [];
    match DecodeChunks(data, 0)
    case Ok(v) => assert [] + v == v;
    case _ =>
  }

  /** A zero where a marker is expected: a panic at the first marker, otherwise an error naming the byte before it. */
  lemma AtZeroMarker(data: seq<u8>, buf: seq<u8>, before: seq<u8>, i: nat, outputPos: nat)
    requires AtMarker(data, buf, before, i, outputPos) && i < |data| && data[i] == 0
    ensures Decoded(data) == if i == 0 then Panic else Err(ZeroMarker(i - 1))
  {
  }

  /** A marker that announces more bytes than the frame holds. */
  lemma AtOverflow(data: seq<u8>, buf: seq<u8>, before: seq<u8>, i: nat, outputPos: nat)
    requires AtMarker(data, buf, before, i, outputPos) && i < |data|
    requires data[i] != 0 && i + data[i] > |data|
    ensures Decoded(data) == Err(ChunkOverflow(i, data[i], |data|))
  {
  }

  /** A well-placed marker opens a chunk with nothing of it copied yet. */
  lemma OpenChunk(data: seq<u8>, buf: seq<u8>, before: seq<u8>, i: nat, outputPos: nat)
    requires AtMarker(data, buf, before, i, outputPos) && i < |data|
    requires data[i] != 0 && i + data[i] <= |data|
    ensures InChunk(data, buf, before, i, data[i], i + 1, outputPos, buf[..outputPos])
  {
    assert buf[..outputPos] + data[i + 1 .. i + 1] == buf[..outputPos];
    assert FirstZero(data, i + 1, i + 1) == i + 1;
  }

  /** A zero inside a chunk is the error, named by its position. */
  lemma AtZeroByte(data: seq<u8>, buf: seq<u8>, before: seq<u8>, start: nat, marker: u8,
                   i: nat, outputPos: nat, out: seq<u8>)
    requires InChunk(data, buf, before, start, marker, i, outputPos, out)
    requires i < start + marker && data[i] == 0
    ensures Decoded(data) == Err(ZeroBinary(i))
  {
    FirstZeroIsFirst(data, start + 1, i);
    FirstZeroAt(data, start + 1, start + marker, i);
  }

  /** A non-zero byte inside a chunk is copied to `outputPos`, which the buffer has room for. */
  lemma CopyByte(data: seq<u8>, buf: seq<u8>, before: seq<u8>, start: nat, marker: u8,
                 i: nat, outputPos: nat, out: seq<u8>)
    requires InChunk(data, buf, before, start, marker, i, outputPos, out)
    requires i < start + marker && data[i] != 0 && Room(data, |buf|)
    ensures outputPos < |buf|
    ensures InChunk(data, buf[outputPos := data[i]], before, start, marker, i + 1, outputPos + 1, out)
  {
    FirstZeroIsFirst(data, start + 1, i);
    FirstZeroAt(data, start + 1, i + 1, i + 1);
    if !(DecodeBuffer(|data|) <= |buf|) {
      ChunkRoom(data, start, marker, out);
    }
    var buf' := buf[outputPos := data[i]];
    assert data[start + 1 .. i + 1] == data[start + 1 .. i] + [data[i]];
    assert buf'[..outputPos + 1] == buf[..outputPos] + [data[i]];
    assert buf'[outputPos + 1..] == buf[outputPos + 1..];
  }

  /**
   * At the end of a chunk that is neither full nor the last one, the decoder
   * writes a zero and is at the next marker.
   */
  lemma CloseChunk(data: seq<u8>, buf: seq<u8>, before: seq<u8>, start: nat, marker: u8,
                   i: nat, outputPos: nat, out: seq<u8>)
    requires InChunk(data, buf, before, start, marker, i, outputPos, out)
    requires i == start + marker && i < |data| && marker != 255 && Room(data, |buf|)
    ensures outputPos < |buf| && AtMarker(data, buf[outputPos := 0], before, i, outputPos + 1)
  {
    var body := data[start + 1 .. i];
    assert DecodeChunks(data, start) == Prepend(body + [0], DecodeChunks(data, i));
    PrependTwice(out, body + [0], DecodeChunks(data, i));
    var buf' := buf[outputPos := 0];
    assert buf'[..outputPos + 1] == out + (body + [0]);
    assert buf'[outputPos + 1..] == buf[outputPos + 1..];
  }

  /** At the end of a full chunk or of the last chunk, the decoder is at the next marker without writing. */
  lemma EndChunk(data: seq<u8>, buf: seq<u8>, before: seq<u8>, start: nat, marker: u8,
                 i: nat, outputPos: nat, out: seq<u8>)
    requires InChunk(data, buf, before, start, marker, i, outputPos, out)
    requires i == start + marker && (i == |data| || marker == 255)
    ensures AtMarker(data, buf, before, i, outputPos)
  {
    var body := data[start + 1 .. i];
    assert body + [] == body;
    assert DecodeChunks(data, start) == Prepend(body, DecodeChunks(data, i));
    PrependTwice(out, body, DecodeChunks(data, i));
  }

  /** Past the last chunk, the buffer holds the whole decoding. */
  lemma Finish(data: seq<u8>, buf: seq<u8>, before: seq<u8>, outputPos: nat)
    requires AtMarker(data, buf, before, |data|, outputPos)
    ensures DecodeChunks(data, 0) == Ok(buf[..outputPos])
  {
    assert buf[..outputPos] + [] == buf[..outputPos];
  }

  /**
   * Copies the data bytes of the chunk whose marker `marker` is at `start`,
   * stopping at the first zero byte.
   */
  method CopyChunk(data: seq<u8>, decoded: array<u8>, marker: u8, start: nat, outputPos0: nat,
                   ghost before: seq<u8>, ghost contents0: seq<u8>, ghost out: seq<u8>)
    returns (i: nat, outputPos: nat, ghost contents: seq<u8>)
    requires decoded[..] == contents0 && Room(data, decoded.Length)
    requires InChunk(data, contents0, before, start, marker, start + 1, outputPos0, out)
    modifies decoded
    ensures decoded[..] == contents
    ensures start < i <= start + marker
    ensures i < start + marker ==> Decoded(data) == Err(ZeroBinary(i))
    ensures i == start + marker ==> InChunk(data, contents, before, start, marker, i, outputPos, out)
  {
    contents := contents0;
    i := start + 1;
    outputPos := outputPos0;
    for j := 1 to marker
      invariant i == start + j
      invariant decoded[..] == contents
      invariant InChunk(data, contents, before, start, marker, i, outputPos, out)
    {
      if data[i] == 0 {
        AtZeroByte(data, contents, before, start, marker, i, outputPos, out);
        return;
      }
      CopyByte(data, contents, before, start, marker, i, outputPos, out);
      decoded[outputPos] := data[i];
      contents := contents[outputPos := data[i]];
      outputPos := outputPos + 1;
      i := i + 1;
    }
  }

  /**
   * Ends the chunk whose marker `marker` is at `start` once its data bytes are
   * copied: a zero follows unless the chunk is full or the last one.
   */
  method FinishChunk(data: seq<u8>, decoded: array<u8>, start: nat, marker: u8, i: nat, outputPos0: nat,
                     ghost before: seq<u8>, ghost contents0: seq<u8>, ghost out: seq<u8>)
    returns (outputPos: nat, ghost contents: seq<u8>)
    requires decoded[..] == contents0 && Room(data, decoded.Length) && i == start + marker
    requires InChunk(data, contents0, before, start, marker, i, outputPos0, out)
    modifies decoded
    ensures decoded[..] == contents
    ensures AtMarker(data, contents, before, i, outputPos)
  {
    contents := contents0;
    outputPos := outputPos0;
    if i < |data| && marker != 0xFF {
      CloseChunk(data, contents, before, start, marker, i, outputPos, out);
      decoded[outputPos] := 0;
      contents := contents[outputPos := 0];
      outputPos := outputPos + 1;
    } else {
      EndChunk(data, contents, before, start, marker, i, outputPos, out);
    }
  }

  /**
   * Decodes the chunk whose marker is at `i0`: either it is malformed and
   * `done` is set with the outcome of the whole decoding, or its bytes are
   * written and the decoder is at the next marker `i`.
   */
  method DecodeChunk(data: seq<u8>, decoded: array<u8>, i0: nat, outputPos0: nat,
                     ghost before: seq<u8>, ghost contents0: seq<u8>)
    returns (i: nat, outputPos: nat, done: bool, r: Outcome<nat>, ghost contents: seq<u8>)
    requires i0 < |data| && decoded[..] == contents0 && Room(data, decoded.Length)
    requires AtMarker(data, contents0, before, i0, outputPos0)
    modifies decoded
    ensures decoded[..] == contents
    ensures done ==> !r.Ok? && r == Measured(Decoded(data))
    ensures !done ==> i0 < i && AtMarker(data, contents, before, i, outputPos)
  {
    contents := contents0;
    i := i0;
    outputPos := outputPos0;
    done := false;
    r := Ok(0);
    var marker := data[i];
    if marker == 0 {
      AtZeroMarker(data, contents, before, i, outputPos);
      done := true;
      if i == 0 {
        r := Panic;
        return;
      }
      r := Err(ZeroMarker(i - 1));
      return;
    }
    i := i + 1;

    if i + marker as int - 1 > |data| {
      AtOverflow(data, contents, before, i - 1, outputPos);
      done, r := true, Err(ChunkOverflow(i - 1, marker, |data|));
      return;
    }
    var start := i - 1;
    ghost var out := contents[..outputPos];
    OpenChunk(data, contents, before, start, outputPos);
    i, outputPos, contents := CopyChunk(data, decoded, marker, start, outputPos, before, contents, out);
    if i < start + marker {
      done, r := true, Err(ZeroBinary(i));
      return;
    }
    outputPos, contents := FinishChunk(data, decoded, start, marker, i, outputPos, before, contents, out);
  }

  /**
   * Decodes the frame `data` into `decoded` and returns the payload length,
   * or the error that the first malformed chunk causes.
   */
  method Decode(data: seq<u8>, decoded: array<u8>) returns (r: Outcome<nat>)
    requires data == [] || DecodeBuffer(|data|) <= decoded.Length ||
             (Decoded(data).Ok? && |Decoded(data).value| <= decoded.Length)
    modifies decoded
    ensures r == Measured(Decoded(data))
    ensures r.Ok? ==> r.value <= decoded.Length && decoded[..r.value] == Decoded(data).value
    ensures r.Ok? ==> decoded[r.value..] == old(decoded[r.value..])
  {
    if |data| == 0 {
      return Err(EmptyInput);
    }
    if |data| == 1 && data[0] == 0x01 {
      return Ok(0);
    }
    ghost var before := decoded[..];
    ghost var contents := before;
    var outputPos: nat := 0;
    var i: nat := 0;
    Begin(data, before);
    assert Room(data, decoded.Length);

    while i < |data|
      invariant decoded[..] == contents
      invariant AtMarker(data, contents, before, i, outputPos)
      decreases |data| - i
    {
      var done: bool;
      i, outputPos, done, r, contents := DecodeChunk(data, decoded, i, outputPos, before, contents);
      if done {
        return;
      }
    }
    Finish(data, contents, before, outputPos);
    return Ok(outputPos);
  }
}
