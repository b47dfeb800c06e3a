/**
  Rust's fixed-width integers as the demo uses them.

  Values that the code compares or adds are modelled by the numbers they
  denote (`Int32`). Values that the code reinterprets with `as` casts are
  modelled by their bit patterns (`bv32`, `bv64`) in module `Packing`.
 */
module Machine {

  /** One byte of linear memory or of a serialized buffer (Rust `u8`). */
  newtype byte = b: int | 0 <= b < 0x100

  /** `x` is representable as a Rust `i32`. */
  predicate InInt32Range(x: int) {
    -0x8000_0000 <= x < 0x8000_0000
  }

  /** The values of a Rust `i32`. */
  newtype Int32 = x: int | InInt32Range(x)

  /** Reduces an unbounded integer into `i32` the way two's-complement
      hardware does: the result is the one `i32` congruent to `x` modulo 2^32. */
  function Wrap32(x: int): (r: Int32)
    ensures (r as int - x) % 0x1_0000_0000 == 0
    ensures InInt32Range(x) ==> r as int == x
  {
    var m := x % 0x1_0000_0000;
    if m < 0x8000_0000 then m as Int32 else (m - 0x1_0000_0000) as Int32
  }
}
