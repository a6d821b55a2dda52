/** What several components share: optional values, bytes and memory, and the firmware window. */
module Wrappers {
  datatype Option<+T> = None | Some(value: T)

  type Byte = bv8
  type Memory = int -> Byte

  /** A byte as a number, where its value is computed with. */
  type Octet = n: int | 0 <= n < 256

  /** Bank 1 of the flash, the only part that is ever written. */
  const WINDOW_START: int := 0x0800_0000
  const WINDOW_END: int := 0x0810_0000

  /** The bytes of [addr, addr+len). */
  function Slice(mem: Memory, addr: int, len: nat): (data: seq<Byte>)
    ensures |data| == len
  {
    seq(len, i requires 0 <= i < len => mem(addr + i))
  }

  lemma SliceOfSlice(mem: Memory, addr: int, n: nat, s: nat, e: nat)
    requires s <= e <= n
    ensures Slice(mem, addr, n)[s..e] == Slice(mem, addr + s, e - s)
  {}

  lemma SlicesJoin(mem: Memory, addr: int, m: nat, n: nat)
    ensures Slice(mem, addr, m) + Slice(mem, addr + m, n) == Slice(mem, addr, m + n)
  {}
}
