/** How a memory access is split into transfers, and what the status of the last one says about the whole.
    A failed transfer yields, or leaves behind, arbitrary bytes. */
module Transfers {
  import opened Wrappers

  const MAX_TRANSFER := 1024
  const MAX_BYTES := 64

  /** `n & ~3` in JavaScript: the operand is taken as a signed 32-bit number. */
  function WholeWords(n: nat): int
    requires n < 0x1_0000_0000
  {
    (if n < 0x8000_0000 then n else n - 0x1_0000_0000) / 4 * 4
  }

  /** The whole words of a remainder are what is meant exactly below 2 gigabytes; from there on the
      number is negative, and so would be the size of the next transfer. */
  lemma WholeWordsExactly(n: nat)
    requires n < 0x1_0000_0000
    ensures 0 <= WholeWords(n) <= n < WholeWords(n) + 4 <==> n < 0x8000_0000
    ensures WholeWords(n) < 0 <==> n >= 0x8000_0000
  {}

  function Min(a: int, b: int): int {
    if a < b then a else b
  }

  /** The transfer that comes after `done` bytes: bytes up to a word boundary, words, bytes. */
  function NextSize(addr: int, size: nat, done: nat): (n: nat)
    requires done < size < 0x8000_0000
    ensures 0 < n <= size - done
  {
    if done == 0 && addr % 4 != 0 then Min(4 - addr % 4, size)
    else if WholeWords(size - done) != 0 then Min(WholeWords(size - done), MAX_TRANSFER)
    else size - done
  }

  /** Where the last transfer begins, seen from the one after `done` bytes. */
  function LastStart(addr: int, size: nat, done: nat): (last: nat)
    requires done < size < 0x8000_0000
    ensures done <= last < size
    decreases size - done
  {
    var n := NextSize(addr, size, done);
    if done + n == size then done else LastStart(addr, size, done + n)
  }

  /** The accesses that take a single transfer, or none. */
  predicate OneTransfer(addr: int, size: nat) {
    if addr % 4 != 0 then size <= 4 - addr % 4 else size < 4 || (size % 4 == 0 && size <= 1024)
  }

  lemma OneTransferExactly(addr: int, size: nat)
    requires 0 < size < 0x8000_0000
    ensures LastStart(addr, size, 0) == 0 <==> OneTransfer(addr, size)
  {
    var n := NextSize(addr, size, 0);
    assert n == size <==> OneTransfer(addr, size);
  }

  /** After `done` bytes, the last of which were transferred from `tail` on, the access is on its way. */
  predicate OnTheWay(addr: int, size: nat, done: nat, tail: nat)
    requires 0 < size < 0x8000_0000
  {
    if done < size then LastStart(addr, size, done) == LastStart(addr, size, 0)
    else done == size && tail == LastStart(addr, size, 0)
  }

  // ---------------------------------------------------------------- reading

  /** What one transfer may give. */
  ghost predicate Got(mem: Memory, addr: int, n: nat, data: seq<Byte>, ok: bool) {
    |data| == n && (ok ==> data == Slice(mem, addr, n))
  }

  /** With whatever success. */
  ghost predicate MayGet(mem: Memory, addr: int, n: nat, data: seq<Byte>) {
    exists ok :: Got(mem, addr, n, data, ok)
  }

  /** What a pass over the range from `done` on may give, and the status at its end. */
  ghost predicate Pass(mem: Memory, addr: int, size: nat, done: nat, data: seq<Byte>, status: bool)
    requires done < size < 0x8000_0000
    decreases size - done
  {
    var n := NextSize(addr, size, done);
    && |data| == size - done
    && if done + n == size then Got(mem, addr + done, n, data, status)
       else MayGet(mem, addr + done, n, data[..n]) && Pass(mem, addr, size, done + n, data[n..], status)
  }

  /** The part of the last transfer is right. */
  ghost predicate LastRight(mem: Memory, addr: int, data: seq<Byte>) {
    data != [] && |data| < 0x8000_0000 ==>
      var last := LastStart(addr, |data|, 0); data[last..] == Slice(mem, addr + last, |data| - last)
  }

  lemma AnythingMayBeGot(mem: Memory, addr: int, n: nat, data: seq<Byte>)
    ensures MayGet(mem, addr, n, data) <==> |data| == n
  {
    if |data| == n {
      assert Got(mem, addr, n, data, false);
    }
  }

  /** The end of the data from position `last` of the range on, of which they are what begins at `done`. */
  ghost predicate EndRight(mem: Memory, addr: int, size: nat, done: nat, data: seq<Byte>, last: nat)
    requires done <= last < size && |data| == size - done
  {
    data[last - done..] == Slice(mem, addr + last, size - last)
  }

  /** If the status is good, the part of the last transfer is right. */
  ghost predicate GoodEnd(mem: Memory, addr: int, size: nat, done: nat, data: seq<Byte>, status: bool)
    requires done < size < 0x8000_0000 && |data| == size - done
  {
    status ==> EndRight(mem, addr, size, done, data, LastStart(addr, size, done))
  }

  lemma PassEnds(mem: Memory, addr: int, size: nat, done: nat, data: seq<Byte>, status: bool)
    requires done < size < 0x8000_0000 && |data| == size - done && done + NextSize(addr, size, done) == size
    ensures Pass(mem, addr, size, done, data, status) <==> GoodEnd(mem, addr, size, done, data, status)
  {
    assert data[0..] == data;
  }

  lemma PassGoesOn(mem: Memory, addr: int, size: nat, done: nat, data: seq<Byte>, status: bool, n: nat)
    requires done < size < 0x8000_0000 && |data| == size - done && n == NextSize(addr, size, done) < size - done
    ensures Pass(mem, addr, size, done, data, status) <==> Pass(mem, addr, size, done + n, data[n..], status)
  {
    AnythingMayBeGot(mem, addr + done, n, data[..n]);
  }

  lemma EndShifts(mem: Memory, addr: int, size: nat, done: nat, data: seq<Byte>, n: nat, last: nat)
    requires done + n <= last < size && |data| == size - done
    ensures EndRight(mem, addr, size, done, data, last) <==> EndRight(mem, addr, size, done + n, data[n..], last)
  {
    assert data[n..][last - done - n..] == data[last - done..];
  }

  lemma LastGoesOn(addr: int, size: nat, done: nat)
    requires done < size < 0x8000_0000 && NextSize(addr, size, done) < size - done
    ensures LastStart(addr, size, done) == LastStart(addr, size, done + NextSize(addr, size, done))
  {}

  lemma EndGoesOn(mem: Memory, addr: int, size: nat, done: nat, data: seq<Byte>, status: bool, n: nat)
    requires done < size < 0x8000_0000 && |data| == size - done && n == NextSize(addr, size, done) < size - done
    ensures GoodEnd(mem, addr, size, done, data, status) <==> GoodEnd(mem, addr, size, done + n, data[n..], status)
  {
    LastGoesOn(addr, size, done);
    EndShifts(mem, addr, size, done, data, n, LastStart(addr, size, done + n));
  }

  /** A good status says that the last transfer was right, and nothing else. */
  lemma {:induction false} PassExactly(mem: Memory, addr: int, size: nat, done: nat, data: seq<Byte>, status: bool)
    requires done < size < 0x8000_0000 && |data| == size - done
    ensures Pass(mem, addr, size, done, data, status) <==> GoodEnd(mem, addr, size, done, data, status)
    decreases size - done
  {
    var n := NextSize(addr, size, done);
    if n == size - done {
      PassEnds(mem, addr, size, done, data, status);
    } else {
      var rest := data[n..];
      calc {
        Pass(mem, addr, size, done, data, status);
        { PassGoesOn(mem, addr, size, done, data, status, n); }
        Pass(mem, addr, size, done + n, rest, status);
        { PassExactly(mem, addr, size, done + n, rest, status); }
        GoodEnd(mem, addr, size, done + n, rest, status);
        { EndGoesOn(mem, addr, size, done, data, status, n); }
        GoodEnd(mem, addr, size, done, data, status);
      }
    }
  }

  /** Whatever memory holds, a pass with a good status gives it. */
  ghost predicate SureRead(addr: int, size: nat)
    requires 0 < size < 0x8000_0000
  {
    forall mem: Memory, data: seq<Byte> :: Pass(mem, addr, size, 0, data, true) ==> data == Slice(mem, addr, size)
  }

  /** A pass with a good status gives memory for certain exactly if it takes one transfer; for every other
      range there is a memory and a pass over it that ends with a good status and wrong bytes. */
  lemma CheckedReadExactly(addr: int, size: nat)
    requires 0 < size < 0x8000_0000
    ensures SureRead(addr, size) <==> OneTransfer(addr, size)
  {
    OneTransferExactly(addr, size);
    if OneTransfer(addr, size) {
      forall mem: Memory, data: seq<Byte> | Pass(mem, addr, size, 0, data, true)
        ensures data == Slice(mem, addr, size)
      {
        PassExactly(mem, addr, size, 0, data, true);
      }
    } else {
      var mem, data := WrongRead(addr, size);
      assert !SureRead(addr, size);
    }
  }

  lemma WrongRead(addr: int, size: nat) returns (mem: Memory, data: seq<Byte>)
    requires 0 < size < 0x8000_0000 && !OneTransfer(addr, size)
    ensures Pass(mem, addr, size, 0, data, true) && data != Slice(mem, addr, size)
  {
    OneTransferExactly(addr, size);
    mem := (a: int) => 0;
    var zeros := Slice(mem, addr, size);
    data := zeros[0 := 1];
    PassExactly(mem, addr, size, 0, data, true);
    assert data[0] != zeros[0];
  }

  /** Two kilobytes across the start of the flash take two transfers, the first of which fails on every
      target that has no memory there; the status is that of the second. */
  lemma AcrossFlashStart(mem: Memory, junk: seq<Byte>)
    requires |junk| == 1024
    ensures !OneTransfer(0x07ff_fc00, 2048)
    ensures Pass(mem, 0x07ff_fc00, 2048, 0, junk + Slice(mem, 0x0800_0000, 1024), true)
  {
    var addr, data := 0x07ff_fc00, junk + Slice(mem, 0x0800_0000, 1024);
    TwoKilobytes(addr);
    PassExactly(mem, addr, 2048, 0, data, true);
    assert data[1024..] == Slice(mem, 0x0800_0000, 1024);
  }

  lemma TwoKilobytes(addr: int)
    requires addr % 4 == 0
    ensures LastStart(addr, 2048, 0) == 1024
  {
    assert NextSize(addr, 2048, 0) == 1024 && NextSize(addr, 2048, 1024) == 1024;
  }

  // ---------------------------------------------------------------- writing

  /** What one transfer may leave behind. */
  ghost predicate Put(before: Memory, addr: int, data: seq<Byte>, ok: bool, after: Memory) {
    && (forall a :: !(addr <= a < addr + |data|) ==> after(a) == before(a))
    && (ok ==> forall a :: addr <= a < addr + |data| ==> after(a) == data[a - addr])
  }

  /** A transfer of data[from..to] took before to after, with whatever success. */
  ghost predicate MayPut(before: Memory, addr: int, data: seq<Byte>, from: nat, to: nat, after: Memory)
    requires from <= to <= |data|
  {
    var start, part := addr + from, data[from..to];
    exists ok :: Put(before, start, part, ok, after)
  }

  ghost predicate WritePass(before: Memory, addr: int, data: seq<Byte>, done: nat, after: Memory, status: bool)
    requires done < |data| < 0x8000_0000
    decreases |data| - done
  {
    var next := done + NextSize(addr, |data|, done);
    if next == |data| then Put(before, addr + done, data[done..], status, after)
    else exists mid: Memory ::
      MayPut(before, addr, data, done, next, mid) && WritePass(mid, addr, data, next, after, status)
  }

  ghost predicate Unchanged(before: Memory, after: Memory, from: int, to: int) {
    forall a :: !(from <= a < to) ==> after(a) == before(a)
  }

  ghost predicate Stored(after: Memory, addr: int, data: seq<Byte>, from: nat) {
    forall a :: addr + from <= a < addr + |data| ==> after(a) == data[a - addr]
  }

  lemma MayPutExactly(before: Memory, addr: int, data: seq<Byte>, from: nat, to: nat, after: Memory)
    requires from <= to <= |data|
    ensures MayPut(before, addr, data, from, to, after) <==> Unchanged(before, after, addr + from, addr + to)
  {
    if Unchanged(before, after, addr + from, addr + to) {
      assert Put(before, addr + from, data[from..to], false, after);
    }
  }

  ghost predicate Written(before: Memory, addr: int, data: seq<Byte>, done: nat, after: Memory, status: bool)
    requires done < |data| < 0x8000_0000
  {
    && Unchanged(before, after, addr + done, addr + |data|)
    && (status ==> Stored(after, addr, data, LastStart(addr, |data|, done)))
  }

  /** A good status says that the last transfer was stored; nothing outside the range changes. */
  lemma {:induction false} WritePassExactly(before: Memory, addr: int, data: seq<Byte>, done: nat, after: Memory,
    status: bool)
    requires done < |data| < 0x8000_0000
    ensures WritePass(before, addr, data, done, after, status) <==> Written(before, addr, data, done, after, status)
    decreases |data| - done
  {
    var next := done + NextSize(addr, |data|, done);
    if next == |data| {
      assert data[done..] == data[done..next];
    } else {
      if WritePass(before, addr, data, done, after, status) {
        var mid: Memory :| MayPut(before, addr, data, done, next, mid) &&
          WritePass(mid, addr, data, next, after, status);
        MayPutExactly(before, addr, data, done, next, mid);
        WritePassExactly(mid, addr, data, next, after, status);
      }
      if Written(before, addr, data, done, after, status) {
        var mid := (a: int) => if addr + done <= a < addr + next then after(a) else before(a);
        MayPutExactly(before, addr, data, done, next, mid);
        WritePassExactly(mid, addr, data, next, after, status);
      }
    }
  }

  /** Whatever memory held, a pass with a good status has stored the data. */
  ghost predicate SureWrite(addr: int, data: seq<Byte>)
    requires 0 < |data| < 0x8000_0000
  {
    forall before: Memory, after: Memory :: WritePass(before, addr, data, 0, after, true) ==>
      Stored(after, addr, data, 0)
  }

  /** A write with a good status has stored everything for certain exactly if it takes one transfer. */
  lemma CheckedWriteExactly(addr: int, data: seq<Byte>)
    requires 0 < |data| < 0x8000_0000
    ensures SureWrite(addr, data) <==> OneTransfer(addr, |data|)
  {
    OneTransferExactly(addr, |data|);
    if OneTransfer(addr, |data|) {
      forall before: Memory, after: Memory | WritePass(before, addr, data, 0, after, true)
        ensures Stored(after, addr, data, 0)
      {
        WritePassExactly(before, addr, data, 0, after, true);
      }
    } else {
      var before, after := WrongWrite(addr, data);
      assert !SureWrite(addr, data);
    }
  }

  lemma WrongWrite(addr: int, data: seq<Byte>) returns (before: Memory, after: Memory)
    requires 0 < |data| < 0x8000_0000 && !OneTransfer(addr, |data|)
    ensures WritePass(before, addr, data, 0, after, true) && !Stored(after, addr, data, 0)
  {
    OneTransferExactly(addr, |data|);
    var wrong: Byte := if data[0] == 0 then 1 else 0;
    before := (a: int) => wrong;
    after := (a: int) => if addr < a < addr + |data| then data[a - addr] else wrong;
    WritePassExactly(before, addr, data, 0, after, true);
    assert after(addr) != data[0];
  }
}
