/** Machine-level types and the failure-carrying wrappers shared by every module. */
module Basics {

  /** One unsigned byte (Rust `u8`). */
  newtype byte = x: int | 0 <= x < 0x100

  /** A signed 32-bit integer (Rust `i32`). */
  newtype i32 = x: int | -0x8000_0000 <= x < 0x8000_0000

  /** A byte string whose length fits the `u64` length prefix bincode writes. */
  type Bytes = b: seq<byte> | |b| < 0x1_0000_0000_0000_0000

  datatype Option<+T> = None | Some(value: T)

  /** Rust's `Result`: the model keeps the error kinds the source distinguishes by message. */
  datatype Result<+T, +E> = Ok(value: T) | Err(error: E)
}
