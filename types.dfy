/** Shared vocabulary of the model: bytes, the newline delimiter and an
    optional value (Go's nil-able results). */
module Types {

  /** One byte of file data. */
  newtype Byte = x: int | 0 <= x < 256

  /** The record delimiter, charNewline (0x0A). */
  const Newline: Byte := 10

  datatype Option<+T> = None | Some(value: T)

  function Min(a: int, b: int): int
  {
    if a < b then a else b
  }
}
