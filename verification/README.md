# wasm-demo-32 marshaling core in Dafny

The demo passes structured values between a host program and a WebAssembly
guest module. The call boundary carries only `i32`/`i64` scalars, so the
host serializes a value into the guest's linear memory and the two sides
exchange `(pointer, length)` pairs, packed into a single `i64` where a
function can return only one scalar. This project models the parts of that
protocol whose behaviour the demo's own code determines:

- **Address packing** (`Packing`): `join_i32_to_i64` and `split_i64_to_i32`
  over the bit patterns of the Rust integers. Rust's `as` casts are spelled
  out: `i32 as u64` sign-extends, `u64 as i32` keeps the low word, and
  `u64`/`i64` reinterpretation leaves the bits alone. The mask in `join`
  applies to the low word only, because Rust's `&` binds tighter than `|`.
  The model keeps that grouping.
- **Host buffer fill** (`HostBuffer`): the copy loop of `fill_buffer`.
  - `FillBuffer` is an imperative method with loop invariants. Its
    precondition is the set of Rust slice-index checks.
  - `Fill` is a total reference function. It returns either the updated
    memory or the indexing panic the loop would raise, with the panic's
    index and length.
  - Linear memory is a byte sequence of at most 2^32 bytes (the wasm32
    limit). The serialized bytes are a parameter.
- **Guest computation** (`Geometry`, `Guest`): the `Point` and `Rect`
  structs, which are declared identically on both sides
  (examples/wasm.rs:11-22, src/lib.rs:3-14). Also the guest's exported
  `add` and the pure part of `do_compute`, which turns two points into
  their bounding rectangle.
- `Machine` holds the integer types shared by the modules: `byte`, `Int32`,
  and wrap-around into `i32`.

Decisions taken from the code:

- `add` wraps on overflow. The host loads the guest from the `release`
  build (examples/wasm.rs:28-31), where Rust does not check overflow, and
  wasm's `i32.add` wraps.
- `fill_buffer` indexes with `ptr as usize + i as usize` on a 64-bit host.
  A negative `ptr` therefore becomes `ptr + 2^64`. Such an index is out of
  bounds at the very first iteration, so the model treats the usize
  addition as exact. Its overflow can never be reached before that panic.
- In Rust, `mem[..] = serialized[..]` evaluates the right-hand side first.
  So when both indices of one iteration are out of bounds, the panic
  reported is the one for the serialized buffer.

Facts about the code the model keeps:

- The code packs signed `i32` values.
- The host never compares the reserved length with the requested size.
- Out-of-range indices in `fill_buffer`'s copy loop (examples/wasm.rs:105) are Rust panics.

## Model

| member | source | states |
|---|---|---|
| Packing.Truncate | examples/wasm.rs:135-136 | `u64 as i32` keeps exactly the low word: widened back, the result is the input with its high word cleared |
| Packing.SignExtend | examples/wasm.rs:130 | `i32 as u64` fills the high word with copies of the sign bit: all zeros for a non-negative value, all ones for a negative one |
| Packing.SignExtendKeepsLowWord | examples/wasm.rs:130-136 | truncating a sign-extended `i32` back to `i32` returns it unchanged |
| Packing.Join | examples/wasm.rs:128-131 | the packed `i64` has `a` as its high word and `b` as its low word, for every pair of `i32` values; a negative `b` does not leak into the high word |
| Packing.Split | examples/wasm.rs:132-138 | the first result is the high word of the `i64`, the second its low word |
| Packing.SplitJoin | examples/wasm.rs:128-138 | unpacking a packed pair returns the pair, negative values included |
| Packing.JoinSplit | examples/wasm.rs:128-138 | packing the two halves of any `i64` rebuilds it, so packing is a bijection |
| Packing.JoinInjective | examples/wasm.rs:128-131 | two different pairs never pack to the same `i64` |
| Packing.JoinUnmasked | examples/wasm.rs:129 | the commented-out unmasked packing keeps `b` as the low word, but its high word is `a` only when `b` is non-negative and all ones when `b` is negative |
| Packing.UnmaskedLosesPointer | examples/wasm.rs:129 | the unmasked variant kept in the comment would read the pointer back as -1 whenever the length is negative as an `i32` |
| Packing.OrFirstLosesPointer | examples/wasm.rs:130 | if `\|` bound tighter than `&`, the pointer would always read back as 0, so the actual grouping is essential |
| HostBuffer.AsUsize | examples/wasm.rs:105 | `ptr as usize` is the pointer itself when it is non-negative and `ptr + 2^64` when it is negative, which lies beyond any wasm32 memory |
| HostBuffer.FillFrom | examples/wasm.rs:104-106 | the loop from iteration `i` on completes exactly when no later iteration has an out-of-bounds index, and a completed loop keeps the memory's length |
| HostBuffer.Fill | examples/wasm.rs:104-106 | the whole loop completes exactly when `len <= 0`, or `0 <= ptr`, `ptr + len <= \|mem\|` and `len <= \|serialized\|`; otherwise it reports a panic; a completed loop keeps the memory's length |
| HostBuffer.FillBuffer | examples/wasm.rs:104-106 | when every index is in bounds, memory keeps its length, `mem[ptr + i] == serialized[i]` for `0 <= i < len`, every byte outside `[ptr, ptr + len)` is unchanged, `len <= 0` leaves memory untouched, and the result agrees with `Fill` |
| HostBuffer.FillSplices | examples/wasm.rs:104-106 | an in-bounds fill with `len > 0` yields `mem[..ptr] + serialized[..len] + mem[ptr + len..]`, and reading `[ptr, ptr + len)` back returns exactly the bytes written |
| HostBuffer.FillPanicsAtFirstFailure | examples/wasm.rs:104-106 | the panic comes from the first iteration with an out-of-bounds index; the serialized-buffer check comes before the memory check |
| Machine.Wrap32 | src/lib.rs:17-19 | the wrapped value is the one `i32` congruent to its input modulo 2^32, and equals the input when that fits in `i32` |
| Guest.Add | src/lib.rs:16-19 | the result is `a + b` whenever the sum fits in `i32`, and is congruent to `a + b` modulo 2^32 otherwise |
| Guest.Order | src/lib.rs:59-73 | each `if` block returns its two coordinates as an ascending permutation of them |
| Guest.ComputeRect | src/lib.rs:58-79 | the rectangle covers both points, and each edge passes through one of them |
| Guest.BoundingBoxUnique | src/lib.rs:59-79 | two points have exactly one bounding box, so `ComputeRect`'s contract determines its result |
| Guest.ComputeRectIsMinMax | src/lib.rs:59-79 | `left <= right`, `top <= bottom`; `left`/`right` are the min/max of the x coordinates and `top`/`bottom` those of the y coordinates |
| Guest.ComputeRectIsSmallest | src/lib.rs:59-79 | any rectangle covering both points contains the result |
| Guest.ComputeRectSymmetric | src/lib.rs:59-73 | swapping the points yields the identical rectangle, ties included |
| Guest.ComputeRectSeparatesAxes | src/lib.rs:59-73 | the x-derived fields depend only on the x coordinates and the y-derived fields only on the y coordinates |
| Guest.ComputeRectOfCorners | src/lib.rs:59-79 | recomputing from a well-formed rectangle's corners returns that rectangle |
| Guest.DemoScenario | src/lib.rs:59-79 | the demo's points (2, 3) and (8, 9) give `Rect{left: 2, right: 8, top: 3, bottom: 9}` in either order |

## Left out

- `main` (examples/wasm.rs:24-87): loading, instantiating and calling the guest module. This is wasm engine API and is not modelled.
- `reserve_wasm_memory_buffer` (examples/wasm.rs:111-126): bincode's size computation plus a guest export call. Its own logic is the `split_i64_to_i32` modelled in `Packing`.
- bincode serialization and deserialization (examples/wasm.rs:82, 101; src/lib.rs:52, 83): an external library. The serialized bytes enter `FillBuffer` as a parameter.
- `prepare_buffer`, `wasm_deserialize` and `wasm_serialize` (src/lib.rs:38-41, 52, 83): they delegate to the `wasi_binio_wasm` crate, whose source is not part of this model.
- The raw-slice read of the result buffer (examples/wasm.rs:76-80): unchecked pointer arithmetic into engine-owned memory.
- The commented-out `BUFFERS` allocator and helpers (src/lib.rs:86-129): not compiled.
- `say_hello_world`, `print_str`, `hello_wasm` and the logging (examples/wasm.rs:140-163; src/lib.rs:21-36, 55-56): console I/O and foreign calls.
- Guest.Add: does not model the overflow panic of a debug build. The model follows the release build that the host loads.
- HostBuffer.FillBuffer: models only the copy loop. Two things are not modelled. The error return of `instance.exports.get_memory("memory")?` (examples/wasm.rs:99) is engine API. `Fill`'s panic outcome does not carry the bytes written before the panicking iteration. A panic aborts the host, so nothing reads that memory afterwards.
