/** Shared result types and constants. */
module Prelude {
  datatype Option<+T> = None | Some(value: T)

  datatype Result<+T, +E> = Ok(value: T) | Err(error: E)

  const TWO_63: nat := 0x8000_0000_0000_0000
  const TWO_64: nat := 0x1_0000_0000_0000_0000
  const U64_MAX: nat := TWO_64 - 1

  type U64 = n: nat | n <= U64_MAX

  type Byte = b: nat | b < 256
  type Bytes = seq<Byte>
}
