/** Shared vocabulary: optional values, results, and the fixed-width integer
    types the Rust code works with (u8, i8, i32, u64). The integer types are
    subset types of `int`; every narrowing the source performs is written out
    where it happens. */
module Base {

  datatype Option<+T> = None | Some(value: T)

  datatype Result<+T, +E> = Ok(value: T) | Err(error: E)

  const U8_BOUND: int := 0x100
  const U32_BOUND: int := 0x1_0000_0000
  const U48_BOUND: int := 0x1_0000_0000_0000
  const U64_BOUND: int := 0x1_0000_0000_0000_0000

  type u8 = x: int | 0 <= x < U8_BOUND
  type i8 = x: int | -0x80 <= x < 0x80
  type i32 = x: int | -0x8000_0000 <= x < 0x8000_0000
  type u64 = x: int | 0 <= x < U64_BOUND

  /** A 128-bit service or characteristic identifier, as its integer value. */
  type Guid = x: int | 0 <= x < 0x1_0000_0000_0000_0000_0000_0000_0000_0000
}
