/** The few Rust types the benchmark loop relies on: `Option`, 64-bit
    unsigned and signed integers, bytes, and the `as i64` cast. */
module RustTypes {

  datatype Option<T> = None | Some(value: T)

  const TWO_TO_THE_63: int := 0x8000_0000_0000_0000
  const TWO_TO_THE_64: int := 0x1_0000_0000_0000_0000

  /** `u64`, and `usize` on the 64-bit targets the runner is built for. */
  type U64 = x: int | 0 <= x < TWO_TO_THE_64

  /** `i64`, the integer type of the store's columns. */
  type I64 = x: int | -TWO_TO_THE_63 <= x < TWO_TO_THE_63

  /** One byte of captured process output. */
  newtype Byte = b: int | 0 <= b < 256

  /** `x as i64` for an unsigned 64-bit `x`: the bits are reinterpreted, so
      the result is the one `i64` congruent to `x` modulo 2^64. */
  function AsI64(x: U64): (r: I64)
    ensures x < TWO_TO_THE_63 <==> r == x
    ensures x >= TWO_TO_THE_63 <==> r < 0
  {
    if x < TWO_TO_THE_63 then x else x - TWO_TO_THE_64
  }

  /** The cast keeps the value modulo 2^64, so it loses nothing: distinct
      unsigned values give distinct signed ones. */
  lemma AsI64Congruent(x: U64, y: U64)
    ensures AsI64(x) % TWO_TO_THE_64 == x
    ensures AsI64(x) == AsI64(y) ==> x == y
  {
  }
}
