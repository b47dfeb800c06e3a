/**
  The host side of the argument hand-off: `fill_buffer` in examples/wasm.rs
  copies the first `len` bytes of a serialized value into the guest's linear
  memory, starting at byte offset `ptr`.

  The serializer is not part of this model: the serialized bytes are a
  parameter. Linear memory is the byte sequence the host sees through
  `data_unchecked_mut`; the method returns the updated sequence instead of
  writing through a mutable reference.

  Rust checks every slice index and panics when it is out of bounds. The
  method `FillBuffer` takes those checks as its precondition; the function
  `Fill` is total and reports the panic the loop would hit, so the two
  together describe both the copy and the conditions under which it aborts.
 */
module HostBuffer {
  import opened Machine

  /** A wasm32 linear memory holds at most 65536 pages of 64 KiB. */
  type LinearMemory = m: seq<byte> | |m| <= 0x1_0000_0000 witness []

  /** `x as usize` for an `i32` on a 64-bit host: sign extension, so a
      negative `x` becomes `x + 2^64`. */
  function AsUsize(x: Int32): (u: int)
    ensures 0 <= u < 0x1_0000_0000_0000_0000
    ensures x >= 0 ==> u == x as int
    ensures x < 0 ==> u == x as int + 0x1_0000_0000_0000_0000
    ensures x < 0 ==> u >= 0x1_0000_0000
  {
    assert InInt32Range(x as int);
    (x as int) % 0x1_0000_0000_0000_0000
  }

  /** The two indexing panics the copy loop can raise, with the index and
      the length the Rust panic message reports. */
  datatype Panic =
    | SerializedIndexOutOfBounds(index: int, len: int)
    | MemoryIndexOutOfBounds(index: int, len: int)

  datatype FillOutcome = Filled(memory: seq<byte>) | Panicked(panic: Panic)

  /** No index the loop computes is out of bounds. A loop that runs zero
      times (`len <= 0`) indexes nothing. */
  predicate InBounds(mem: LinearMemory, ptr: Int32, len: Int32, serialized: seq<byte>) {
    len <= 0 || (0 <= ptr && ptr as int + len as int <= |mem| && len as int <= |serialized|)
  }

  /** Iteration `i` of the loop indexes out of bounds. The serialized byte is
      read before the memory slot is written, so its check comes first. */
  predicate FailsAt(mem: LinearMemory, ptr: Int32, serialized: seq<byte>, i: nat) {
    i >= |serialized| || AsUsize(ptr) + i >= |mem|
  }

  /** The panic iteration `i` raises when it fails. */
  function PanicAt(mem: LinearMemory, ptr: Int32, serialized: seq<byte>, i: nat): Panic {
    if i >= |serialized| then SerializedIndexOutOfBounds(i, |serialized|)
    else MemoryIndexOutOfBounds(AsUsize(ptr) + i, |mem|)
  }

  /** The loop `for i in 0..len { mem[ptr as usize + i as usize] =
      serialized[i as usize]; }` from iteration `i` on. */
  function FillFrom(mem: LinearMemory, ptr: Int32, len: Int32, serialized: seq<byte>, i: nat): (r: FillOutcome)
    ensures r.Filled? <==> forall j :: i <= j < len as int ==> !FailsAt(mem, ptr, serialized, j)
    ensures r.Filled? ==> |r.memory| == |mem|
    decreases len as int - i
  {
    if i >= len as int then Filled(mem)
    else if FailsAt(mem, ptr, serialized, i) then Panicked(PanicAt(mem, ptr, serialized, i))
    else
      var next := mem[AsUsize(ptr) + i := serialized[i]];
      assert forall j: nat :: FailsAt(next, ptr, serialized, j) == FailsAt(mem, ptr, serialized, j);
      FillFrom(next, ptr, len, serialized, i + 1)
  }

  /** What `fill_buffer` does to linear memory, or the panic it raises. */
  function Fill(mem: LinearMemory, ptr: Int32, len: Int32, serialized: seq<byte>): (r: FillOutcome)
    ensures r.Filled? <==> InBounds(mem, ptr, len, serialized)
    ensures r.Filled? ==> |r.memory| == |mem|
  {
    assert !InBounds(mem, ptr, len, serialized) ==> FailsAt(mem, ptr, serialized, len as int - 1);
    FillFrom(mem, ptr, len, serialized, 0)
  }

  /** `fill_buffer`'s copy loop. */
  method FillBuffer(mem: LinearMemory, ptr: Int32, len: Int32, serialized: seq<byte>)
    returns (out: LinearMemory)
    requires InBounds(mem, ptr, len, serialized)
    ensures |out| == |mem|
    ensures forall i :: 0 <= i < len as int ==> out[ptr as int + i] == serialized[i]
    ensures forall j :: 0 <= j < |mem| && !(ptr as int <= j < ptr as int + len as int) ==> out[j] == mem[j]
    ensures len <= 0 ==> out == mem
    ensures Fill(mem, ptr, len, serialized) == Filled(out)
  {
    out := mem;
    var i: int := 0;
    while i < len as int
      invariant 0 <= i
      invariant i <= len as int || i == 0
      invariant |out| == |mem|
      invariant forall k :: 0 <= k < i ==> out[ptr as int + k] == serialized[k]
      invariant forall j :: 0 <= j < |mem| && !(ptr as int <= j < ptr as int + i) ==> out[j] == mem[j]
      invariant FillFrom(out, ptr, len, serialized, i) == Fill(mem, ptr, len, serialized)
    {
      out := out[AsUsize(ptr) + i := serialized[i]];
      i := i + 1;
    }
  }

  lemma {:induction false} FillFromSplices(mem: LinearMemory, ptr: Int32, len: Int32, serialized: seq<byte>, i: nat)
    requires 0 <= ptr && ptr as int + len as int <= |mem| && len as int <= |serialized|
    requires i <= len as int
    ensures FillFrom(mem, ptr, len, serialized, i)
         == Filled(mem[..ptr as int + i] + serialized[i..len] + mem[ptr as int + len as int..])
    decreases len as int - i
  {
    var p, n := ptr as int, len as int;
    if i < n {
      var next := mem[p + i := serialized[i]];
      FillFromSplices(next, ptr, len, serialized, i + 1);
      assert next[..p + i + 1] == mem[..p + i] + [serialized[i]];
      assert next[p + n..] == mem[p + n..];
      assert [serialized[i]] + serialized[i + 1..n] == serialized[i..n];
    } else {
      assert mem == mem[..p + i] + serialized[i..n] + mem[p + n..];
    }
  }

  /** When every index is in bounds, `fill_buffer` replaces the bytes at
      `[ptr, ptr + len)` by the first `len` serialized bytes and keeps all
      others; reading the range back yields exactly the bytes written. */
  lemma FillSplices(mem: LinearMemory, ptr: Int32, len: Int32, serialized: seq<byte>)
    requires len > 0 && InBounds(mem, ptr, len, serialized)
    ensures Fill(mem, ptr, len, serialized)
         == Filled(mem[..ptr] + serialized[..len] + mem[ptr as int + len as int..])
    ensures Fill(mem, ptr, len, serialized).memory[ptr..ptr as int + len as int] == serialized[..len]
  {
    FillFromSplices(mem, ptr, len, serialized, 0);
    var out := mem[..ptr] + serialized[..len] + mem[ptr as int + len as int..];
    assert out[ptr..ptr as int + len as int] == serialized[..len];
  }

  lemma {:induction false} FillFromPanics(mem: LinearMemory, ptr: Int32, len: Int32, serialized: seq<byte>, i: nat, k: nat)
    requires i <= k < len as int
    requires FailsAt(mem, ptr, serialized, k)
    requires forall j :: i <= j < k ==> !FailsAt(mem, ptr, serialized, j)
    ensures FillFrom(mem, ptr, len, serialized, i) == Panicked(PanicAt(mem, ptr, serialized, k))
    decreases k - i
  {
    if i < k {
      assert !FailsAt(mem, ptr, serialized, i);
      var next := mem[AsUsize(ptr) + i := serialized[i]];
      assert forall j: nat :: FailsAt(next, ptr, serialized, j) == FailsAt(mem, ptr, serialized, j);
      FillFromPanics(next, ptr, len, serialized, i + 1, k);
    }
  }

  /** An out-of-bounds index aborts the copy at the first iteration that
      computes one, with the panic that iteration's check raises. */
  lemma FillPanicsAtFirstFailure(mem: LinearMemory, ptr: Int32, len: Int32, serialized: seq<byte>, k: nat)
    requires k < len as int
    requires FailsAt(mem, ptr, serialized, k)
    requires forall j :: 0 <= j < k ==> !FailsAt(mem, ptr, serialized, j)
    ensures Fill(mem, ptr, len, serialized) == Panicked(PanicAt(mem, ptr, serialized, k))
  {
    FillFromPanics(mem, ptr, len, serialized, 0, k);
  }
}
