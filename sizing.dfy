/** Worst-case output sizes, so that callers can allocate before encoding or decoding. */
module Sizing {

  /**
   * Room needed to encode `size` bytes: the bytes themselves, one marker per
   * started 254-byte chunk, and one more marker.
   */
  function EncodeBuffer(size: nat): (r: nat)
    ensures r >= size + 1
    ensures 254 * (r - size - 1) >= size > 254 * (r - size - 2)
  {
    size + (size + 253) / 254 + 1
  }

  /**
   * Room needed to decode a frame of `size` bytes; a zero size is refused.
   * Every frame spends at least one byte on a marker, so the room is less
   * than the frame, and a payload of that length fits the encoder's bound.
   */
  function DecodeBuffer(size: nat): (r: nat)
    requires size != 0
    ensures r < size <= EncodeBuffer(r)
  {
    size - 1
  }
}
