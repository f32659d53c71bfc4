# cobs-rs in Dafny

A model of `darkbio_cobs`, a Rust implementation of Consistent Overhead Byte
Stuffing (COBS) with 0 as the sentinel. The library has four entry points:

- `encode_buffer(size)`: the room needed to encode `size` bytes;
- `decode_buffer(size)`: the room needed to decode a frame of `size` bytes;
- `encode(data, encoded)`: writes the frame of `data` into a caller-supplied buffer and returns its length;
- `decode(data, decoded)`: writes the payload of frame `data` into a caller-supplied buffer and returns its length, or a `DecodeError`.

The model has six modules:

- `Types` holds the byte type `u8`, the `DecodeError` enum and `Outcome`, which
  is what a call of the decoder ends in: a value, a returned error, or a panic.
  `Types.DecodeError` has the four variants of the source's enum
  (`src/lib.rs` lines 4-10), with the same fields.
- `Sizing` holds `EncodeBuffer` and `DecodeBuffer`.
- `Frame` is the reference definition of the format, chunk by chunk.
  - A chunk is a marker byte `m` (1..255) followed by `m - 1` non-zero data bytes.
  - A chunk with marker 255 is full and stands for no zero of the payload.
  - Any other chunk that is not the last one stands for its data bytes followed by one zero.
  - `Encoded(d)` cuts the payload into chunks. A full chunk that ends the payload is not followed by an empty chunk.
  - `Decoded(frame)` reads chunks from the first marker on and reports the first malformed chunk the way the source does.
  - The round trip `Decoded(Encoded(d)) == Ok(d)` and the error and size properties are proved about these two functions.
- `Encoder.Encode` and `Decoder.Decode` are the source's single-pass loops over
  a mutable `array<u8>`. They are proved to write exactly `Encoded(data)`
  (resp. `Decoded(data)`) and to leave the rest of the buffer untouched; for
  the decoder that last promise is made on success only.
  - Each loop body is a helper method (`Encoder.EncodeByte`, `Decoder.DecodeChunk`).
  - The decoder's inner `for` loop is `Decoder.CopyChunk`, and the zero written after a chunk is `Decoder.FinishChunk`.
  - Each step is justified by a lemma over a ghost copy of the buffer contents.
- `Harness` restates the repository's round-trip tests and its round-trip fuzz
  target over the model: both buffer sizes they use are proved sufficient and
  the payload comes back, and the frames of the tests' payloads are stated.

The decoder's `i - 1` in the `ZeroMarker` error underflows when the very first
marker is zero. The model makes this an explicit `Panic` outcome: it is the
panic a debug build raises. The error positions are the ones the code
reports, so a zero marker at `i` is reported `at: i - 1`. This is the byte
before the zero marker, not the zero marker itself.

## Model

| member | source | states |
|---|---|---|
| Sizing.EncodeBuffer | src/lib.rs:14-16 | the room is the payload plus one marker per started 254-byte chunk plus one: `r - size - 1` is the ceiling of `size / 254` |
| Sizing.DecodeBuffer | src/lib.rs:18-27 | the room for a frame of `size` bytes is less than `size` (every frame spends a byte on a marker), yet `EncodeBuffer` of it reaches `size`; a zero size is refused |
| Frame.Encoded | src/lib.rs:32-75 | the reference frame of a payload: its chunks in order, each cut at the first zero, the payload's end or the 254th byte; its properties are stated by `Frame.EncodedLayout`, `Frame.EncodedIsZeroFree`, `Frame.EncodedLength` and `Frame.RoundTrip` |
| Frame.DecodeChunks | src/lib.rs:93-122 | decoding from the marker at `i`: panics only at a zero first marker of the frame and never reports `EmptyInput` |
| Frame.Decoded | src/lib.rs:80-124 | the reference outcome of `decode`: `EmptyInput` exactly for the empty frame, a panic only when the frame starts with a zero |
| Frame.EncodedLength | src/lib.rs:12-16 | every frame is longer than its payload and no longer than `EncodeBuffer` of the payload length |
| Frame.DecodedFits | src/lib.rs:18-27 | a frame that decodes is non-empty and free of zeros, and its payload fits in `DecodeBuffer` of the frame length |
| Frame.ChunkLengthIs | src/lib.rs:44-64 | a chunk takes the non-zero bytes up to the first zero, the payload's end or the 254th byte, whichever comes first |
| Frame.EncodedLayout | src/lib.rs:32-75 | a frame is the first chunk's marker (its data length plus one) and data bytes, then nothing when the chunk took the whole payload, else the frame of what follows the chunk (and its zero, unless the chunk is full) |
| Frame.EncodedIsZeroFree | src/lib.rs:29-75 | no frame contains the sentinel 0 |
| Frame.DecodeChunkThen | src/lib.rs:109-121 | a well-formed chunk decodes to its data bytes, plus a zero unless it is full or last, in front of what the chunks after it decode to |
| Frame.DecodeChunksOfEncoded | src/lib.rs:93-122 | the chunks of the frame of `d`, wherever they start in the input, decode to `d` |
| Frame.RoundTrip | src/lib.rs:126-185 | decoding the frame of any payload gives the payload back, and `DecodeBuffer` of the frame length has room for it |
| Frame.DecodeChunksFacts | src/lib.rs:93-123 | decoding from a marker succeeds only on zero-free input, never writes more bytes than it reads, panics only on a leading zero, and never reports `EmptyInput` |
| Frame.DecodeChunksErrors | src/lib.rs:94-113 | each error names the offending byte: the byte before a zero marker, an overflowing marker with the frame length, a zero data byte |
| Frame.DecodedErrors | src/lib.rs:80-113 | `EmptyInput` exactly for the empty frame, a panic exactly for a leading zero, and every other error points at the byte that caused it |
| Encoder.PendingHolds | src/lib.rs:46-48 | a non-zero byte of the open chunk sits in the frame right after the bytes before it in the chunk |
| Encoder.PendingAtZero | src/lib.rs:58-64 | a zero in the payload closes the chunk with marker "bytes since the last marker plus one", and the frame goes on with the rest of the payload |
| Encoder.PendingAtFull | src/lib.rs:51-57 | the 254th non-zero byte closes a full chunk with marker 255, which swallows no zero |
| Encoder.PendingAtEnd | src/lib.rs:66-68 | at the end of the payload the open chunk is the last one and its marker is its length plus one |
| Encoder.CopyStep | src/lib.rs:46-50 | copying a non-zero byte keeps every written byte equal to the frame's byte and the rest of the buffer untouched |
| Encoder.FullStep | src/lib.rs:51-57 | writing marker 255 after the 254th byte and skipping a new marker slot keeps that agreement |
| Encoder.ZeroStep | src/lib.rs:58-64 | writing the run length as the marker at a zero and skipping a new marker slot keeps that agreement |
| Encoder.CloseStep | src/lib.rs:66-68 | writing the last marker completes exactly the frame, with nothing written past it |
| Encoder.RetractStep | src/lib.rs:69-72 | when the payload ends with a full chunk, giving back the marker slot leaves exactly the frame |
| Encoder.EncodeByte | src/lib.rs:44-65 | one payload byte moves the encoder's written prefix, marker slot and counters forward consistently with the frame |
| Encoder.Encode | src/lib.rs:32-75 | writes exactly the frame of `data` to the start of the buffer, returns its length, which is at most `EncodeBuffer`, and leaves every later byte untouched |
| Decoder.Begin | src/lib.rs:89-91 | before the first marker nothing has been decoded |
| Decoder.AtZeroMarker | src/lib.rs:94-98 | a zero marker at `i` ends decoding with `ZeroMarker(i - 1)`, or a panic at the first marker |
| Decoder.AtOverflow | src/lib.rs:99-108 | a marker that announces more bytes than remain ends decoding with `ChunkOverflow` naming the marker, its position and the frame length |
| Decoder.OpenChunk | src/lib.rs:99-109 | a marker that fits opens a chunk with nothing of it copied yet |
| Decoder.AtZeroByte | src/lib.rs:110-113 | a zero among a chunk's data bytes ends decoding with `ZeroBinary` at its position |
| Decoder.CopyByte | src/lib.rs:114-116 | a non-zero data byte fits in the buffer and extends the decoded prefix by itself |
| Decoder.CloseChunk | src/lib.rs:118-121 | after a chunk that is neither full nor last the buffer has room for the zero, and writing it keeps the decoded prefix exact |
| Decoder.EndChunk | src/lib.rs:118-121 | after a full or last chunk nothing is written and the decoded prefix is exact |
| Decoder.Finish | src/lib.rs:122-123 | once the input is consumed the buffer's prefix is the whole payload |
| Decoder.CopyChunk | src/lib.rs:109-117 | copies the chunk's data bytes behind the decoded prefix, or stops at the first zero with the `ZeroBinary` outcome |
| Decoder.FinishChunk | src/lib.rs:118-121 | ends a copied chunk with a zero unless it is full or last, leaving the decoder at the next marker |
| Decoder.DecodeChunk | src/lib.rs:93-121 | decodes one chunk: either the outcome of the whole decoding is an error or a panic, or the decoder is at a later marker with an exact prefix |
| Decoder.Decode | src/lib.rs:80-124 | returns the length of `Decoded(data)` or its error, on success writes exactly the payload to the start of the buffer and leaves the rest untouched; the buffer only needs `DecodeBuffer` bytes |
| Harness.EncodeThenDecode | fuzz/fuzz_targets/roundtrip.rs:6-14 | encoding into `encode_buffer` bytes and decoding into `decode_buffer` of the frame length returns the payload |
| Harness.DecodeIntoPayloadRoom | src/lib.rs:143-185 | encoding into `encode_buffer` bytes and decoding into a buffer of exactly the payload length, as the unit tests do, returns the payload |
| Harness.EmptyExample | src/lib.rs:130-141 | the empty payload encodes to the single byte 1, which decodes to nothing |
| Harness.ShortZeroFree | src/lib.rs:143-152 | a zero-free payload shorter than 254 bytes is one chunk: its length plus one, then the payload |
| Harness.ZeroAfter | src/lib.rs:154-163 | a zero after fewer than 254 non-zero bytes closes their chunk and is itself not copied |
| Harness.FullZeroFree | src/lib.rs:165-174 | 254 non-zero bytes are one full chunk with no empty chunk after it |
| Harness.OverFullZeroFree | src/lib.rs:176-185 | 255 non-zero bytes are a full chunk followed by a one-byte chunk |
| Harness.MalformedExamples | src/lib.rs:80-113 | concrete outcomes: the empty frame, a leading zero (panic), a later zero marker, an overflowing marker, a zero data byte |

## Left out

- Integer widths: `usize` arithmetic is unbounded in the model. `encode_buffer` of a size near `usize::MAX` would overflow in the source; no real buffer reaches that size.
- The `i - 1` in the source wraps in a release build instead of panicking, which would report `ZeroMarker { at: usize::MAX }`. The model follows the debug build's panic.
- Encoder.Encode: requires a buffer at least as long as the frame. The source documents this as the caller's duty and panics on an index out of bounds otherwise; that panic is not modelled. `Frame.EncodedLength` shows that `EncodeBuffer` bytes always suffice.
- Decoder.Decode: requires a buffer of at least `DecodeBuffer` bytes, or room for the payload of a frame that decodes. This also excludes undersized buffers for malformed frames that fail before any write past the buffer, such as `[5, 1, 2]` or `[2, 0]` into an empty buffer, for which the source returns the error. Where an undersized buffer is written past, the source panics on an index out of bounds; that panic is not modelled. After an error the contract does not say which bytes of the buffer were already written.
- Sizing.DecodeBuffer: the panic on a zero size is a precondition.
- The benchmarks (`benches/main.rs`) and the build script (`build.rs`) are not part of this model.
- The differential fuzz targets compare against another COBS crate, which is not part of this model.
- The fuzz target `fuzz/fuzz_targets/decode.rs` decodes arbitrary input into `decode_buffer` bytes. `Decoder.Decode` covers this: it never writes out of bounds, and its only panic is the leading zero described above.
- The exact frame of the test payload `[0, 1, 0, 2, 0, 0, 3]` is not stated as a concrete example. The test checks only its round trip, which `Frame.RoundTrip` covers, and `Harness.ZeroAfter` states the rule that closes each of its chunks.
