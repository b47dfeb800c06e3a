/**
  Address packing: a (pointer, length) pair of `i32`s travels across the
  scalar-only wasm call boundary as one `i64` (examples/wasm.rs,
  `join_i32_to_i64` and `split_i64_to_i32`).

  Every Rust integer here is modelled by its bit pattern, so an `i32` is a
  `bv32` and an `i64` or `u64` is a `bv64`, negative values included. The
  `as` casts the code performs become bit operations:
    - `i32 as u64` sign-extends (`SignExtend`);
    - `u64 as i32` keeps the low 32 bits (`Truncate`);
    - `u64 as i64` and `i64 as u64` leave the bits unchanged.

  Masks are written as literals rather than named constants: the solver
  reasons about literal bit-vector constants directly.
 */
module Packing {

  /** `x as i32` for a `u64` value `x`: the low 32 bits. */
  function Truncate(x: bv64): (w: bv32)
    ensures w as bv64 == x & 0x0000_0000_FFFF_FFFF
  {
    (x & 0x0000_0000_FFFF_FFFF) as bv32
  }

  /** `w as u64` for an `i32` value `w`: sign extension, which copies bit 31
      into bits 32..63. Written branch-free: flipping the sign bit and then
      subtracting 2^31 borrows through the upper word exactly when bit 31
      was set. The high word is therefore all zeros for a non-negative `i32`
      and all ones for a negative one; `SignExtendKeepsLowWord` states the
      low word. */
  function SignExtend(w: bv32): (r: bv64)
    ensures w < 0x8000_0000 ==> r >> 32 == 0
    ensures w >= 0x8000_0000 ==> r >> 32 == 0xFFFF_FFFF
  {
    ((w as bv64) ^ 0x8000_0000) - 0x8000_0000
  }

  /** `i32 as u64` followed by `u64 as i32` gives the `i32` back: sign
      extension keeps the low word. */
  lemma SignExtendKeepsLowWord(w: bv32)
    ensures Truncate(SignExtend(w)) == w
  {
  }

  /** `join_i32_to_i64(a, b)`. In Rust `&` binds tighter than `|`, so the
      mask applies to `b` alone: the source expression groups as
      `((a as u64) << 32) | ((b as u64) & 0xffffffff)`. The high word of the
      result is `a` and the low word is `b`, whatever the sign of either. */
  function Join(a: bv32, b: bv32): (r: bv64)
    ensures r >> 32 == a as bv64
    ensures r & 0x0000_0000_FFFF_FFFF == b as bv64
  {
    (SignExtend(a) << 32) | (SignExtend(b) & 0x0000_0000_FFFF_FFFF)
  }

  /** `split_i64_to_i32(r)`: the high word, then the low word. */
  function Split(r: bv64): (p: (bv32, bv32))
    ensures p.0 as bv64 == r >> 32
    ensures p.1 as bv64 == r & 0x0000_0000_FFFF_FFFF
  {
    (Truncate((r & 0xFFFF_FFFF_0000_0000) >> 32), Truncate(r & 0x0000_0000_FFFF_FFFF))
  }

  /** Unpacking a packed pair gives the pair back, for every pair of `i32`
      bit patterns, negative ones included. */
  lemma SplitJoin(a: bv32, b: bv32)
    ensures Split(Join(a, b)) == (a, b)
  {
  }

  /** Packing the two halves of any `i64` rebuilds it, so `Join` and `Split`
      are mutually inverse bijections. */
  lemma JoinSplit(r: bv64)
    ensures Join(Split(r).0, Split(r).1) == r
  {
  }

  /** Packing is injective: distinct pairs never collide in one `i64`. */
  lemma JoinInjective(a: bv32, b: bv32, c: bv32, d: bv32)
    requires Join(a, b) == Join(c, d)
    ensures a == c && b == d
  {
    SplitJoin(a, b);
    SplitJoin(c, d);
  }

  /** The variant in the comment above `join_i32_to_i64`,
      `((a as i64) << 32) | (b as i64)`, which leaves `b` unmasked. */
  function JoinUnmasked(a: bv32, b: bv32): (r: bv64)
    ensures r & 0x0000_0000_FFFF_FFFF == b as bv64
    ensures b < 0x8000_0000 ==> r >> 32 == a as bv64
    ensures b >= 0x8000_0000 ==> r >> 32 == 0xFFFF_FFFF
  {
    (SignExtend(a) << 32) | SignExtend(b)
  }

  /** Without the mask, a negative low word sign-extends over the high word:
      whatever `a` was, the pointer read back is all ones (-1). This is what
      the mask in `join_i32_to_i64` prevents. */
  lemma UnmaskedLosesPointer(a: bv32, b: bv32)
    requires b >= 0x8000_0000
    ensures Split(JoinUnmasked(a, b)).0 == 0xFFFF_FFFF
  {
  }

  /** The same expression read with `|` binding tighter than `&`, that is
      `(((a as u64) << 32) | (b as u64)) & 0xffffffff`. */
  function JoinOrFirst(a: bv32, b: bv32): bv64 {
    ((SignExtend(a) << 32) | SignExtend(b)) & 0x0000_0000_FFFF_FFFF
  }

  /** Under that other grouping the pointer would always read back as 0,
      which is why the grouping Rust actually uses matters. */
  lemma OrFirstLosesPointer(a: bv32, b: bv32)
    ensures Split(JoinOrFirst(a, b)).0 == 0
  {
  }
}
