/** Rust's unsigned 64-bit integers and the two ways a build profile treats
    an arithmetic overflow: a checked (debug) build panics, an optimised
    (release) build wraps around modulo 2^64. */
module Machine {
  const Modulus: int := 0x1_0000_0000_0000_0000

  newtype u64 = x: int | 0 <= x < 0x1_0000_0000_0000_0000

  /** The build profile the crate is compiled with. */
  datatype Build = Debug | Release

  /** The value of an expression, or the panic that aborts its evaluation. */
  datatype Outcome<T> = Value(value: T) | Panic
}
