/**
 * The COBS frame format with 0 as the sentinel, stated chunk by chunk.
 *
 * A frame is a sequence of chunks. A chunk is a marker byte `m` (1..255)
 * followed by `m - 1` non-zero data bytes. A chunk with marker 255 is "full"
 * (254 data bytes) and stands for no zero of the payload; any other chunk
 * that is not the last one stands for its data bytes followed by one zero.
 *
 * `Encoded` and `Decoded` are the reference definitions the array-based
 * `Encoder.Encode` and `Decoder.Decode` are proved against.
 */
module Frame {
  import opened Types
  import opened Sizing

  /** Position of the first zero byte of `s` in the window `[lo, hi)`, or `hi` when there is none. */
  function FirstZero(s: seq<u8>, lo: nat, hi: nat): (r: nat)
    requires lo <= hi <= |s|
    ensures lo <= r <= hi
    decreases hi - lo
  {
    if lo == hi || s[lo] == 0 then lo else FirstZero(s, lo + 1, hi)
  }

  /** The bytes before `FirstZero` are non-zero, and the byte it stops at inside the window is zero. */
  lemma {:induction false} FirstZeroIsFirst(s: seq<u8>, lo: nat, hi: nat)
    requires lo <= hi <= |s|
    ensures forall k | lo <= k < FirstZero(s, lo, hi) :: s[k] != 0
    ensures FirstZero(s, lo, hi) < hi ==> s[FirstZero(s, lo, hi)] == 0
    decreases hi - lo
  {
    if lo < hi && s[lo] != 0 {
      FirstZeroIsFirst(s, lo + 1, hi);
    }
  }

  /** A position with only non-zero bytes before it in the window, and a zero at it (or the window's end), is `FirstZero`. */
  lemma FirstZeroAt(s: seq<u8>, lo: nat, hi: nat, r: nat)
    requires lo <= r <= hi <= |s|
    requires forall k | lo <= k < r :: s[k] != 0
    requires r < hi ==> s[r] == 0
    ensures FirstZero(s, lo, hi) == r
  {
    FirstZeroIsFirst(s, lo, hi);
  }

  /** True when no byte of `s` is the sentinel. */
  predicate ZeroFree(s: seq<u8>) {
    forall k | 0 <= k < |s| :: s[k] != 0
  }

  /** Number of data bytes of the chunk that opens the encoding of `d`: its non-zero run, capped at 254. */
  function ChunkLength(d: seq<u8>): (k: nat)
    ensures k <= 254 && k <= |d|
  {
    FirstZero(d, 0, if |d| < 254 then |d| else 254)
  }

  /** The chunk's data bytes are non-zero, and a chunk shorter than 254 bytes inside `d` stops at a zero. */
  lemma ChunkLengthFacts(d: seq<u8>)
    ensures forall j | 0 <= j < ChunkLength(d) :: d[j] != 0
    ensures ChunkLength(d) < 254 && ChunkLength(d) < |d| ==> d[ChunkLength(d)] == 0
  {
    FirstZeroIsFirst(d, 0, if |d| < 254 then |d| else 254);
  }

  /**
   * The encoding of payload `d`: its first chunk, then the encoding of the
   * rest. A chunk is the last one exactly when it takes the rest of the
   * payload, so a full chunk that ends the payload is not followed by an
   * empty one; a full chunk consumes no zero of the payload.
   */
  function Encoded(d: seq<u8>): seq<u8>
    decreases |d|
  {
    var k := ChunkLength(d);
    var chunk := [k + 1] + d[..k];
    if k == |d| then chunk
    else chunk + Encoded(d[if k == 254 then k else k + 1 ..])
  }

  /** `o` with `out` put in front of its payload; errors and panics pass through. */
  function Prepend(out: seq<u8>, o: Outcome<seq<u8>>): Outcome<seq<u8>> {
    match o
    case Ok(v) => Ok(out + v)
    case _ => o
  }

  /** Prepending twice is prepending the concatenation. */
  lemma PrependTwice(a: seq<u8>, b: seq<u8>, o: Outcome<seq<u8>>)
    ensures Prepend(a, Prepend(b, o)) == Prepend(a + b, o)
  {
    if o.Ok? {
      assert a + (b + o.value) == a + b + o.value;
    }
  }

  /**
   * Decodes the chunks of `frame` whose first marker is at `i`. The first
   * malformed chunk decides the error.
   */
  function DecodeChunks(frame: seq<u8>, i: nat): (r: Outcome<seq<u8>>)
    requires i <= |frame|
    ensures r.Panic? ==> i == 0 < |frame| && frame[0] == 0
    ensures r != Err(EmptyInput)
    decreases |frame| - i
  {
    if i == |frame| then Ok([])
    else
      var marker := frame[i];
      if marker == 0 then
        if i == 0 then Panic else Err(ZeroMarker(i - 1))
      else if i + marker > |frame| then Err(ChunkOverflow(i, marker, |frame|))
      else
        var next := i + marker;
        var z := FirstZero(frame, i + 1, next);
        if z < next then Err(ZeroBinary(z))
        else
          var body := frame[i + 1 .. next];
          var zero: seq<u8> := if next < |frame| && marker != 255 then [0] else [];
          Prepend(body + zero, DecodeChunks(frame, next))
  }

  /** The decoding of a whole frame; only the empty frame is `EmptyInput`. */
  function Decoded(frame: seq<u8>): (r: Outcome<seq<u8>>)
    ensures r == Err(EmptyInput) <==> frame == []
    ensures r.Panic? ==> frame != [] && frame[0] == 0
  {
    if frame == [] then Err(EmptyInput)
    else if frame == [1] then Ok([])
    else DecodeChunks(frame, 0)
  }

  // ----- The chunk layout of an encoding -----

  /** A run of `k` non-zero bytes, ended by a zero, by the payload's end or by the 254-byte cap, is the first chunk. */
  lemma ChunkLengthIs(d: seq<u8>, k: nat)
    requires k <= 254 && k <= |d|
    requires forall j | 0 <= j < k :: d[j] != 0
    requires k < 254 && k < |d| ==> d[k] == 0
    ensures ChunkLength(d) == k
  {
    FirstZeroAt(d, 0, if |d| < 254 then |d| else 254, k);
  }

  /** Where the parts of `[m] + body + rest` sit. */
  lemma ChunkParts(e: seq<u8>, m: u8, body: seq<u8>, rest: seq<u8>)
    requires e == [m] + body + rest
    ensures |e| == 1 + |body| + |rest| && e[0] == m
    ensures e[1 .. |body| + 1] == body && e[|body| + 1..] == rest
  {
    assert e[1..] == body + rest;
  }

  /**
   * The layout of an encoding `e` of `d`: the first chunk's marker, its data
   * bytes, and then either nothing (the chunk took the rest of the payload)
   * or the encoding of what follows the chunk and, unless it is full, its zero.
   */
  lemma EncodedLayout(d: seq<u8>, e: seq<u8>)
    requires e == Encoded(d)
    ensures ChunkLength(d) + 1 <= |e| && e[0] == ChunkLength(d) + 1
    ensures e[1 .. ChunkLength(d) + 1] == d[..ChunkLength(d)]
    ensures ChunkLength(d) == |d| ==> |e| == |d| + 1
    ensures ChunkLength(d) < |d| ==>
      e[ChunkLength(d) + 1..] == Encoded(d[if ChunkLength(d) == 254 then 254 else ChunkLength(d) + 1..])
  {
    var k := ChunkLength(d);
    var rest := if k < |d| then Encoded(d[if k == 254 then 254 else k + 1..]) else [];
    assert e == [k + 1] + d[..k] + rest;
    ChunkParts(e, k + 1, d[..k], rest);
  }

  // ----- Properties of the encoding -----

  /** A non-zero marker, zero-free data and a zero-free rest make a zero-free chunk sequence. */
  lemma ZeroFreeJoin(e: seq<u8>, k: nat)
    requires k + 1 <= |e| && e[0] != 0 && ZeroFree(e[1 .. k + 1]) && ZeroFree(e[k + 1..])
    ensures ZeroFree(e)
  {
    assert forall j | 1 <= j <= k :: e[j] == e[1 .. k + 1][j - 1];
    assert forall j | k + 1 <= j < |e| :: e[j] == e[k + 1..][j - k - 1];
  }

  /** An encoding `e` never contains the sentinel. */
  lemma {:induction false} EncodedIsZeroFree(d: seq<u8>, e: seq<u8>)
    requires e == Encoded(d)
    ensures ZeroFree(e)
    decreases |d|
  {
    var k := ChunkLength(d);
    EncodedLayout(d, e);
    ChunkLengthFacts(d);
    assert ZeroFree(d[..k]);
    if k < |d| {
      EncodedIsZeroFree(d[if k == 254 then 254 else k + 1..], e[k + 1..]);
    }
    ZeroFreeJoin(e, k);
  }

  /** The encoding costs at least one byte and at most `EncodeBuffer` bytes. */
  lemma {:induction false} EncodedLength(d: seq<u8>)
    ensures |d| + 1 <= |Encoded(d)| <= EncodeBuffer(|d|)
    decreases |d|
  {
    var k := ChunkLength(d);
    var n := |d|;
    EncodedLayout(d, Encoded(d));
    if k < n {
      var next := if k == 254 then k else k + 1;
      EncodedLength(d[next..]);
      assert |Encoded(d)| == k + 1 + |Encoded(d[next..])|;
      if k == 254 {
        assert (n - 254 + 253) / 254 == (n + 253) / 254 - 1;
      } else {
        assert (n - k - 1 + 253) / 254 <= (n + 253) / 254;
      }
    }
  }

  // ----- Round trip -----

  /**
   * One well-formed chunk at `i`: its data bytes and, unless it is full or
   * the last one, a zero go in front of what the chunks after it decode to.
   */
  lemma DecodeChunkThen(frame: seq<u8>, i: nat, body: seq<u8>)
    requires i + 1 + |body| <= |frame| && frame[i] == |body| + 1
    requires frame[i + 1 .. i + 1 + |body|] == body && ZeroFree(body)
    ensures DecodeChunks(frame, i) ==
      Prepend(body + (if i + 1 + |body| < |frame| && |body| < 254 then [0] else []), DecodeChunks(frame, i + 1 + |body|))
  {
    var next := i + 1 + |body|;
    assert forall k | i + 1 <= k < next :: frame[k] == body[k - i - 1];
    FirstZeroAt(frame, i + 1, next, next);
  }

  /** A payload is its first chunk's data, the zero that ends a short chunk, and the rest. */
  lemma Rejoin(d: seq<u8>, k: nat)
    requires k == ChunkLength(d) && k < |d|
    ensures d == d[..k] + (if k == 254 then [] else [0]) + d[if k == 254 then 254 else k + 1..]
  {
    ChunkLengthFacts(d);
    assert d == d[..k] + d[k..];
    if k < 254 {
      assert d[k..] == [0] + d[k + 1..];
    }
  }

  /** A slice of the suffix of `s` from `i` is a slice of `s` shifted by `i`. */
  lemma SliceOfSuffix(s: seq<u8>, i: nat, a: nat, b: nat)
    requires a <= b && i + b <= |s|
    ensures s[i..][a..b] == s[i + a .. i + b]
  {
    assert forall j | 0 <= j < b - a :: s[i..][a..b][j] == s[i + a + j];
  }

  /** The first chunk of an encoding of `d` found at position `i` of `frame`. */
  lemma HeadAt(frame: seq<u8>, i: nat, d: seq<u8>, k: nat)
    requires i <= |frame| && frame[i..] == Encoded(d) && k == ChunkLength(d)
    ensures i + 1 + k <= |frame| && frame[i] == k + 1 && frame[i + 1 .. i + 1 + k] == d[..k]
    ensures ZeroFree(d[..k])
  {
    var e := frame[i..];
    ChunkLengthFacts(d);
    EncodedLayout(d, e);
    assert frame[i] == e[0];
    SliceOfSuffix(frame, i, 1, k + 1);
  }

  /**
   * After the first chunk of an encoding of `d` found at `i`, `frame` ends
   * exactly when the chunk took all of `d`, and otherwise goes on with the
   * encoding of the rest of `d`.
   */
  lemma RestAt(frame: seq<u8>, i: nat, d: seq<u8>, k: nat)
    requires i <= |frame| && frame[i..] == Encoded(d) && k == ChunkLength(d)
    ensures i + 1 + k <= |frame|
    ensures k == |d| <==> i + 1 + k == |frame|
    ensures k < |d| ==> frame[i + 1 + k..] == Encoded(d[if k == 254 then 254 else k + 1..])
  {
    var e := frame[i..];
    EncodedLayout(d, e);
    if k < |d| {
      assert frame[i + 1 + k..] == e[k + 1..];
      EncodedLength(d[if k == 254 then 254 else k + 1..]);
    }
  }

  /**
   * A chunk at `i` that holds the first chunk of `d`, followed either by the
   * frame's end (when that chunk is all of `d`) or by chunks that decode to
   * the rest of `d`, decodes to `d`.
   */
  lemma ChunkThenRest(frame: seq<u8>, i: nat, d: seq<u8>, k: nat)
    requires k == ChunkLength(d) && i + 1 + k <= |frame|
    requires frame[i] == k + 1 && frame[i + 1 .. i + 1 + k] == d[..k] && ZeroFree(d[..k])
    requires k == |d| <==> i + 1 + k == |frame|
    requires k < |d| ==> DecodeChunks(frame, i + 1 + k) == Ok(d[if k == 254 then 254 else k + 1..])
    ensures DecodeChunks(frame, i) == Ok(d)
  {
    DecodeChunkThen(frame, i, d[..k]);
    if k == |d| {
      assert DecodeChunks(frame, |frame|) == Ok([]);
      assert d[..k] + [] + [] == d;
    } else {
      Rejoin(d, k);
    }
  }

  /** Chunks that spell the encoding of `d` from position `i` on decode to `d`. */
  lemma {:induction false} DecodeChunksOfEncoded(frame: seq<u8>, i: nat, d: seq<u8>)
    requires i <= |frame| && frame[i..] == Encoded(d)
    ensures DecodeChunks(frame, i) == Ok(d)
    decreases |d|
  {
    var k := ChunkLength(d);
    HeadAt(frame, i, d, k);
    RestAt(frame, i, d, k);
    if k < |d| {
      DecodeChunksOfEncoded(frame, i + 1 + k, d[if k == 254 then 254 else k + 1..]);
    }
    ChunkThenRest(frame, i, d, k);
  }

  /**
   * Every payload survives an encode/decode round trip, and `DecodeBuffer`
   * of the frame length leaves room for it.
   */
  lemma RoundTrip(d: seq<u8>)
    ensures Decoded(Encoded(d)) == Ok(d)
    ensures |d| <= DecodeBuffer(|Encoded(d)|)
  {
    var e := Encoded(d);
    assert e[0..] == e;
    DecodeChunksOfEncoded(e, 0, d);
    EncodedLength(d);
  }

  // ----- Properties of the decoding -----

  /** What decoding from marker position `i` can produce. */
  lemma {:induction false} DecodeChunksFacts(frame: seq<u8>, i: nat)
    requires i <= |frame|
    ensures DecodeChunks(frame, i).Ok? ==>
      ZeroFree(frame[i..]) &&
      |DecodeChunks(frame, i).value| + 1 <= |frame| - i + (if i == |frame| then 1 else 0)
    ensures DecodeChunks(frame, i).Panic? <==> i == 0 < |frame| && frame[0] == 0
    ensures DecodeChunks(frame, i).Err? ==> DecodeChunks(frame, i).error != EmptyInput
    decreases |frame| - i
  {
    if i < |frame| && frame[i] != 0 && i + frame[i] <= |frame| {
      DecodeChunksFacts(frame, i + frame[i]);
      if DecodeChunks(frame, i).Ok? {
        OkChunk(frame, i);
      }
    }
  }

  /** A chunk at `i` that decodes adds no zero to the input and no more output bytes than input bytes. */
  lemma OkChunk(frame: seq<u8>, i: nat)
    requires i < |frame| && frame[i] != 0 && i + frame[i] <= |frame| && DecodeChunks(frame, i).Ok?
    requires ZeroFree(frame[i + frame[i]..])
    requires |DecodeChunks(frame, i + frame[i]).value| + 1 <=
      |frame| - (i + frame[i]) + (if i + frame[i] == |frame| then 1 else 0)
    ensures ZeroFree(frame[i..]) && |DecodeChunks(frame, i).value| + 1 <= |frame| - i
  {
    var marker := frame[i];
    var next := i + marker;
    var body := frame[i + 1 .. next];
    FirstZeroIsFirst(frame, i + 1, next);
    assert frame[i..] == [marker] + body + frame[next..];
  }

  /** A frame that decodes is free of the sentinel, and its payload fits `DecodeBuffer`. */
  lemma DecodedFits(frame: seq<u8>)
    requires Decoded(frame).Ok?
    ensures frame != [] && ZeroFree(frame)
    ensures |Decoded(frame).value| <= DecodeBuffer(|frame|)
  {
    DecodeChunksFacts(frame, 0);
  }

  /**
   * The error reported for a malformed frame points at the offending byte:
   * the marker before a zero marker, the overflowing marker, the zero data byte.
   * Decoding panics exactly when the frame starts with a zero.
   */
  lemma {:induction false} DecodeChunksErrors(frame: seq<u8>, i: nat)
    requires i <= |frame|
    ensures DecodeChunks(frame, i).Err? ==> match DecodeChunks(frame, i).error
      case ZeroMarker(at) => i <= at + 1 < |frame| && frame[at + 1] == 0
      case ChunkOverflow(at, marker, len) =>
        i <= at < |frame| && frame[at] == marker && len == |frame| && at + marker > len
      case ZeroBinary(at) => i < at < |frame| && frame[at] == 0
      case EmptyInput => false
    decreases |frame| - i
  {
    if i < |frame| && frame[i] != 0 && i + frame[i] <= |frame| {
      DecodeChunksErrors(frame, i + frame[i]);
      FirstZeroIsFirst(frame, i + 1, i + frame[i]);
    }
  }

  /** The error and panic outcomes of decoding a whole frame. */
  lemma DecodedErrors(frame: seq<u8>)
    ensures Decoded(frame) == Err(EmptyInput) <==> frame == []
    ensures Decoded(frame).Panic? <==> frame != [] && frame[0] == 0
    ensures Decoded(frame).Err? ==> match Decoded(frame).error
      case ZeroMarker(at) => at + 1 < |frame| && frame[at + 1] == 0
      case ChunkOverflow(at, marker, len) =>
        at < |frame| && frame[at] == marker && len == |frame| && at + marker > len
      case ZeroBinary(at) => 0 < at < |frame| && frame[at] == 0
      case EmptyInput => frame == []
  {
    if frame != [] {
      DecodeChunksFacts(frame, 0);
      DecodeChunksErrors(frame, 0);
    }
  }
}
