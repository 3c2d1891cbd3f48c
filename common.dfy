/** Types shared by the bracket resolver and both engines: bytes, the eight
    opcodes of the language, and the error values the engines report. */
module Common {

  /** An unsigned 8-bit value, as Rust's `u8`. */
  newtype u8 = x: int | 0 <= x < 256

  const OPEN: u8 := 0x5B   // '['
  const CLOSE: u8 := 0x5D  // ']'
  const RIGHT: u8 := 0x3E  // '>'
  const LEFT: u8 := 0x3C   // '<'
  const PLUS: u8 := 0x2B   // '+'
  const MINUS: u8 := 0x2D  // '-'
  const DOT: u8 := 0x2E    // '.'
  const COMMA: u8 := 0x2C  // ','

  /** The return byte used to pad the executable buffer (`ret` on x86). */
  const RET: u8 := 0xC3

  const MISMATCHED_BRACKET: string := "Mismatched bracket ]"
  const NO_INPUT: string := "No input available"

  /** The error kinds of `std::io::Error` the core produces, plus a panic
      (an `unwrap` on a missing value or an out-of-range slice), which the
      source does not return but aborts with. */
  datatype Error =
    | InvalidData(message: string)
    | UnexpectedEof(message: string)
    | Panic(message: string)

  datatype Result<T> = Ok(value: T) | Err(error: Error)

  datatype Option<T> = None | Some(value: T)
}
