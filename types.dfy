/** Byte type, decode errors and call outcomes shared by the encoder and the decoder. */
module Types {

  /** An unsigned byte. */
  type u8 = x: int | 0 <= x < 256

  /** The ways a frame can be malformed; positions are offsets into the frame. */
  datatype DecodeError =
    | EmptyInput
    | ZeroMarker(at: nat)
    | ZeroBinary(at: nat)
    | ChunkOverflow(at: nat, marker: u8, len: nat)

  /**
   * What a call of the decoder ends in: a value, a returned error, or a panic
   * (the subtraction `i - 1` underflowing when the very first marker is zero).
   */
  datatype Outcome<T> = Ok(value: T) | Err(error: DecodeError) | Panic
}
