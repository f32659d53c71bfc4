/**
 * The single-pass COBS encoder over a caller-supplied output buffer.
 */
module Encoder {
  import opened Types
  import opened Sizing
  import opened Frame

  /**
   * What is still to be emitted once the chunk opened at `start` is reached:
   * nothing when a full chunk has just ended the payload, otherwise the
   * encoding of the payload from `start` on.
   */
  ghost function Pending(data: seq<u8>, start: nat): seq<u8>
    requires start <= |data|
  {
    if 0 < start == |data| && data[start - 1] != 0 then [] else Encoded(data[start..])
  }

  /** A zero of the payload closes the open chunk: its marker counts the bytes before the zero. */
  lemma PendingAtZero(data: seq<u8>, start: nat, idx: nat)
    requires start <= idx < |data| && idx - start < 254 && data[idx] == 0
    requires forall k | start <= k < idx :: data[k] != 0
    ensures idx - start + 1 <= |Pending(data, start)|
    ensures Pending(data, start)[0] == idx - start + 1
    ensures Pending(data, start)[idx - start + 1..] == Pending(data, idx + 1)
  {
    var d := data[start..];
    var k := idx - start;
    assert forall j | 0 <= j <= k :: d[j] == data[start + j];
    ChunkLengthIs(d, k);
    EncodedLayout(d, Encoded(d));
    assert d[k + 1..] == data[idx + 1..];
  }

  /** The 254th non-zero byte of a chunk closes it as a full chunk. */
  lemma PendingAtFull(data: seq<u8>, start: nat, idx: nat)
    requires start <= idx < |data| && idx - start == 253
    requires forall k | start <= k <= idx :: data[k] != 0
    ensures 255 <= |Pending(data, start)|
    ensures Pending(data, start)[0] == 255
    ensures Pending(data, start)[255..] == Pending(data, idx + 1)
  {
    var d := data[start..];
    assert forall j | 0 <= j < 254 :: d[j] == data[start + j];
    ChunkLengthIs(d, 254);
    EncodedLayout(d, Encoded(d));
    if idx + 1 < |data| {
      assert d[254..] == data[idx + 1..];
    }
  }

  /** The byte at `idx`, inside the open chunk, has its place in the frame after the chunk's marker. */
  lemma PendingHolds(data: seq<u8>, start: nat, idx: nat)
    requires start <= idx < |data| && idx - start < 254
    requires forall k | start <= k <= idx :: data[k] != 0
    ensures idx - start + 1 < |Pending(data, start)|
    ensures Pending(data, start)[idx - start + 1] == data[idx]
  {
    var d := data[start..];
    var e := Encoded(d);
    var j := idx - start;
    var c := ChunkLength(d);
    assert forall k | 0 <= k <= j :: d[k] == data[start + k];
    ChunkLengthFacts(d);
    assert j < c;
    EncodedLayout(d, e);
    assert e[j + 1] == e[1 .. c + 1][j];
  }

  /** At the end of the payload the open chunk, if any, is the last chunk. */
  lemma PendingAtEnd(data: seq<u8>, start: nat)
    requires start <= |data| && |data| - start < 254
    requires forall k | start <= k < |data| :: data[k] != 0
    requires start == |data| ==> start == 0 || data[start - 1] == 0
    ensures |Pending(data, start)| == |data| - start + 1
    ensures Pending(data, start)[0] == |data| - start + 1
  {
    var d := data[start..];
    assert forall j | 0 <= j < |d| :: d[j] == data[start + j];
    ChunkLengthIs(d, |d|);
    EncodedLayout(d, Encoded(d));
  }

  /** Whatever the frame holds from `m` on, its first byte sits at `m` and its suffix from `n` sits at `m + n`. */
  lemma SuffixAt(frame: seq<u8>, m: nat, n: nat)
    requires m + n <= |frame|
    ensures m < |frame| ==> frame[m..][0] == frame[m]
    ensures frame[m..][n..] == frame[m + n..]
  {
  }

  /**
   * The encoder's state after the first `idx` payload bytes, over the buffer
   * contents `buf` (initially `before`): the chunk opened at payload index
   * `start` has its marker slot at `markerPos` and its next data byte goes to
   * `outputPos`; every byte written so far agrees with `frame`, and no other
   * byte of the buffer has changed.
   */
  ghost predicate Progress(data: seq<u8>, frame: seq<u8>, buf: seq<u8>, before: seq<u8>,
                           idx: nat, start: nat, markerPos: nat, outputPos: nat, runLength: u8)
  {
    && Position(data, frame, buf, before, idx, start, markerPos, outputPos, runLength)
    && frame[markerPos..] == Pending(data, start)
    && Written(frame, buf, before, markerPos, outputPos)
  }

  /** The counters agree: the open chunk holds the `runLength - 1` non-zero bytes from `start` on. */
  ghost predicate Position(data: seq<u8>, frame: seq<u8>, buf: seq<u8>, before: seq<u8>,
                           idx: nat, start: nat, markerPos: nat, outputPos: nat, runLength: u8)
  {
    && idx <= |data| && |before| == |buf| && |frame| <= |buf|
    && start <= idx && runLength as int - 1 == idx - start && 1 <= runLength <= 254
    && outputPos == markerPos + runLength as int
    && FirstZero(data, start, idx) == idx
    && markerPos <= |frame|
    && (runLength > 1 ==> outputPos <= |frame|)
  }

  /** Every byte written so far agrees with `frame`; the marker slot and the bytes from `outputPos` on are untouched. */
  ghost predicate Written(frame: seq<u8>, buf: seq<u8>, before: seq<u8>, markerPos: nat, outputPos: nat)
    requires |before| == |buf| && markerPos <= |frame| <= |buf|
  {
    && (forall k | 0 <= k < markerPos :: buf[k] == frame[k])
    && (forall k | markerPos < k < outputPos && k < |frame| :: buf[k] == frame[k])
    && (forall k | 0 <= k < |buf| && (k == markerPos || outputPos <= k) :: buf[k] == before[k])
  }

  /** A non-zero byte that leaves the open chunk short of full is copied to `outputPos`. */
  lemma CopyStep(data: seq<u8>, frame: seq<u8>, buf: seq<u8>, before: seq<u8>,
                 idx: nat, start: nat, markerPos: nat, outputPos: nat, runLength: u8)
    requires Progress(data, frame, buf, before, idx, start, markerPos, outputPos, runLength)
    requires idx < |data| && data[idx] != 0 && runLength < 254
    ensures outputPos < |buf|
    ensures Progress(data, frame, buf[outputPos := data[idx]], before, idx + 1, start, markerPos, outputPos + 1, runLength + 1)
  {
    FirstZeroIsFirst(data, start, idx);
    FirstZeroAt(data, start, idx + 1, idx + 1);
    PendingHolds(data, start, idx);
    assert frame[markerPos..][runLength] == frame[outputPos];
  }

  /** The 254th non-zero byte of a chunk is copied and the chunk is closed with marker 255. */
  lemma FullStep(data: seq<u8>, frame: seq<u8>, buf: seq<u8>, before: seq<u8>,
                 idx: nat, start: nat, markerPos: nat, outputPos: nat, runLength: u8)
    requires Progress(data, frame, buf, before, idx, start, markerPos, outputPos, runLength)
    requires idx < |data| && data[idx] != 0 && runLength == 254
    ensures outputPos < |buf|
    ensures Progress(data, frame, buf[outputPos := data[idx]][markerPos := 255], before, idx + 1, idx + 1, outputPos + 1, outputPos + 2, 1)
  {
    FirstZeroIsFirst(data, start, idx);
    PendingHolds(data, start, idx);
    assert frame[markerPos..][runLength] == frame[outputPos];
    PendingAtFull(data, start, idx);
    SuffixAt(frame, markerPos, 255);
  }

  /** A zero of the payload closes the open chunk, whose marker is its length plus one. */
  lemma ZeroStep(data: seq<u8>, frame: seq<u8>, buf: seq<u8>, before: seq<u8>,
                 idx: nat, start: nat, markerPos: nat, outputPos: nat, runLength: u8)
    requires Progress(data, frame, buf, before, idx, start, markerPos, outputPos, runLength)
    requires idx < |data| && data[idx] == 0
    ensures markerPos < |buf|
    ensures Progress(data, frame, buf[markerPos := runLength], before, idx + 1, idx + 1, outputPos, outputPos + 1, 1)
  {
    FirstZeroIsFirst(data, start, idx);
    PendingAtZero(data, start, idx);
    SuffixAt(frame, markerPos, runLength as nat);
  }

  /** Once the payload is consumed, writing the open chunk's marker completes the frame. */
  lemma CloseStep(data: seq<u8>, frame: seq<u8>, buf: seq<u8>, before: seq<u8>,
                  start: nat, markerPos: nat, outputPos: nat, runLength: u8)
    requires Progress(data, frame, buf, before, |data|, start, markerPos, outputPos, runLength)
    requires |data| > 0 && (runLength > 1 || data[|data| - 1] == 0)
    ensures outputPos == |frame| && markerPos < |buf|
    ensures buf[markerPos := runLength][..outputPos] == frame
    ensures buf[markerPos := runLength][outputPos..] == before[outputPos..]
  {
    FirstZeroIsFirst(data, start, |data|);
    PendingAtEnd(data, start);
    SuffixAt(frame, markerPos, 0);
  }

  /** When the payload ends exactly with a full chunk, the open marker slot is given back. */
  lemma RetractStep(data: seq<u8>, frame: seq<u8>, buf: seq<u8>, before: seq<u8>,
                    start: nat, markerPos: nat, outputPos: nat, runLength: u8)
    requires Progress(data, frame, buf, before, |data|, start, markerPos, outputPos, runLength)
    requires |data| > 0 && runLength == 1 && data[|data| - 1] != 0
    ensures outputPos - 1 == markerPos == |frame|
    ensures buf[..markerPos] == frame && buf[markerPos..] == before[markerPos..]
  {
  }

  /**
   * One step of the encoder: the payload byte at `idx` joins the open chunk,
   * which is closed by a zero of the payload or once it holds 254 bytes.
   */
  method EncodeByte(data: seq<u8>, encoded: array<u8>, idx: nat, markerPos0: nat, outputPos0: nat, runLength0: u8,
                    ghost frame: seq<u8>, ghost before: seq<u8>, ghost contents0: seq<u8>, ghost start0: nat)
    returns (markerPos: nat, outputPos: nat, runLength: u8, ghost contents: seq<u8>, ghost start: nat)
    requires idx < |data| && encoded[..] == contents0
    requires Progress(data, frame, contents0, before, idx, start0, markerPos0, outputPos0, runLength0)
    modifies encoded
    ensures encoded[..] == contents
    ensures Progress(data, frame, contents, before, idx + 1, start, markerPos, outputPos, runLength)
  {
    markerPos, outputPos, runLength, contents, start := markerPos0, outputPos0, runLength0, contents0, start0;
    var b := data[idx];
    if b > 0 {
      if runLength < 254 {
        CopyStep(data, frame, contents, before, idx, start, markerPos, outputPos, runLength);
      } else {
        FullStep(data, frame, contents, before, idx, start, markerPos, outputPos, runLength);
      }
      encoded[outputPos] := b;
      contents := contents[outputPos := b];
      outputPos := outputPos + 1;
      runLength := runLength + 1;
      if runLength == 0xFF {
        encoded[markerPos] := runLength;
        contents := contents[markerPos := runLength];
        markerPos := outputPos;
        outputPos := outputPos + 1;
        runLength := 1;
        start := idx + 1;
      }
    } else {
      ZeroStep(data, frame, contents, before, idx, start, markerPos, outputPos, runLength);
      encoded[markerPos] := runLength;
      contents := contents[markerPos := runLength];
      markerPos := outputPos;
      outputPos := outputPos + 1;
      runLength := 1;
      start := idx + 1;
    }
  }

  /**
   * Encodes `data` into `encoded` and returns the frame length. Each marker
   * slot is skipped and written back once its chunk is closed, by a zero of
   * the payload or after 254 non-zero bytes.
   */
  method Encode(data: seq<u8>, encoded: array<u8>) returns (len: nat)
    requires |Encoded(data)| <= encoded.Length
    modifies encoded
    ensures len <= encoded.Length && encoded[..len] == Encoded(data)
    ensures len <= EncodeBuffer(|data|)
    ensures encoded[len..] == old(encoded[len..])
  {
    if |data| == 0 {
      encoded[0] := 0x01;
      return 1;
    }
    ghost var frame := Encoded(data);
    ghost var before := encoded[..];
    ghost var contents := before;
    var markerPos: nat := 0;
    var outputPos: nat := 1;
    var runLength: u8 := 1;
    ghost var start: nat := 0;
    assert frame[0..] == Pending(data, 0);

    for idx := 0 to |data|
      invariant encoded[..] == contents
      invariant Progress(data, frame, contents, before, idx, start, markerPos, outputPos, runLength)
    {
      markerPos, outputPos, runLength, contents, start :=
        EncodeByte(data, encoded, idx, markerPos, outputPos, runLength, frame, before, contents, start);
    }
    if runLength > 1 || data[|data| - 1] == 0 {
      CloseStep(data, frame, contents, before, start, markerPos, outputPos, runLength);
      encoded[markerPos] := runLength;
      contents := contents[markerPos := runLength];
    } else {
      RetractStep(data, frame, contents, before, start, markerPos, outputPos, runLength);
      outputPos := outputPos - 1;
    }
    len := outputPos;
    assert len <= EncodeBuffer(|data|) by {
      EncodedLength(data);
    }
  }
}
