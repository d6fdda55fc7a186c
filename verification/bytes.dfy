/** Fixed-width unsigned integers of the Rust source as bounded integers,
    `Option` and `Result` types, and the little-endian byte order of
    `u16::from_le_bytes` and `u16::to_le_bytes`. */
module Bytes {

  type u8 = x: int | 0 <= x < 0x100
  type u16 = x: int | 0 <= x < 0x1_0000

  datatype Option<+T> = None | Some(value: T)

  /** An `anyhow::Result`: a value, or an error carrying its message. */
  datatype Result<+T> = Ok(value: T) | Err(message: string)

  /** `u16::from_le_bytes([lo, hi])`: the first byte is the low-order one. */
  function FromLe(lo: u8, hi: u8): (w: u16)
    ensures w % 0x100 == lo && w / 0x100 == hi
  {
    lo + 0x100 * hi
  }

  /** `u16::to_le_bytes`: the low-order byte comes first. */
  function ToLe(w: u16): (r: seq<u8>)
    ensures |r| == 2 && FromLe(r[0], r[1]) == w
  {
    [w % 0x100, w / 0x100]
  }

  /** Splitting a word into bytes and joining them again is the identity. */
  lemma ToLeFromLe(lo: u8, hi: u8)
    ensures ToLe(FromLe(lo, hi)) == [lo, hi]
  {
  }
}
