/** Memory access in chunks: single bytes up to the first word boundary, words in transfers of at most
    1024 bytes, and the rest in byte transfers. The probe reports a status for the last transfer only. */
module ChunkedMemory {
  import opened Wrappers
  import opened Transfers

  datatype Outcome = Done | TargetFault

  /** The memory access commands of the probe, with the size and alignment rules they enforce. A failed
      transfer yields arbitrary bytes and is visible only in the status. */
  class Link {
    var mem: Memory
    var lastOk: bool
    /** How many transfers have failed so far. */
    ghost var failed: nat
    const reliable: bool

    constructor (mem: Memory, reliable: bool)
      ensures this.mem == mem && this.reliable == reliable && failed == 0
    {
      this.mem, this.lastOk, this.reliable := mem, true, reliable;
      failed := 0;
    }

    method Get(addr: int, size: nat) returns (data: seq<Byte>)
      modifies this`lastOk, this`failed
      ensures failed == old(failed) + if lastOk then 0 else 1
      ensures Got(mem, addr, size, data, lastOk)
      ensures reliable ==> lastOk
    {
      var good: bool := *;
      lastOk := good || reliable;
      failed := if lastOk then failed else failed + 1;
      data := if lastOk then Slice(mem, addr, size) else seq(size, _ => 0);
    }

    method GetMem8(addr: int, size: nat) returns (data: seq<Byte>)
      requires size <= MAX_BYTES
      modifies this`lastOk, this`failed
      ensures failed == old(failed) + if lastOk then 0 else 1
      ensures Got(mem, addr, size, data, lastOk)
      ensures reliable ==> lastOk
    {
      data := Get(addr, size);
    }

    method GetMem32(addr: int, size: nat) returns (data: seq<Byte>)
      requires addr % 4 == 0 && size % 4 == 0 && size <= MAX_TRANSFER
      modifies this`lastOk, this`failed
      ensures failed == old(failed) + if lastOk then 0 else 1
      ensures Got(mem, addr, size, data, lastOk)
      ensures reliable ==> lastOk
    {
      data := Get(addr, size);
    }

    method Set(addr: int, data: seq<Byte>)
      modifies this
      ensures failed == old(failed) + if lastOk then 0 else 1
      ensures Put(old(mem), addr, data, lastOk, mem)
      ensures reliable ==> lastOk
    {
      var good: bool := *;
      var junk: Byte := *;
      lastOk := good || reliable;
      failed := if lastOk then failed else failed + 1;
      var before, ok := mem, lastOk;
      mem := (a: int) => if addr <= a < addr + |data| then (if ok then data[a - addr] else junk) else before(a);
    }

    method SetMem8(addr: int, data: seq<Byte>)
      requires |data| <= MAX_BYTES
      modifies this
      ensures failed == old(failed) + if lastOk then 0 else 1
      ensures Put(old(mem), addr, data, lastOk, mem)
      ensures reliable ==> lastOk
    {
      Set(addr, data);
    }

    method SetMem32(addr: int, data: seq<Byte>)
      requires addr % 4 == 0 && |data| % 4 == 0 && |data| <= MAX_TRANSFER
      modifies this
      ensures failed == old(failed) + if lastOk then 0 else 1
      ensures Put(old(mem), addr, data, lastOk, mem)
      ensures reliable ==> lastOk
    {
      Set(addr, data);
    }
  }

  /** How a sequence of transfers has gone so far: none has failed, the last began at offset `tail`. */
  datatype Trace = Trace(clean: bool, tail: nat)

  const START := Trace(true, 0)

  /** From t to u the trace stays clean exactly if no transfer was counted as failed in between. */
  ghost predicate Counted(before: nat, after: nat, reliable: bool, t: Trace, u: Trace) {
    before <= after && (u.clean <==> t.clean && after == before) && (reliable ==> after == before)
  }

  function Extend(t: Trace, at: nat, ok: bool): Trace {
    Trace(t.clean && ok, at)
  }

  /** What has been read: all of it is memory if no transfer failed, and the part of the last transfer
      is if that one succeeded. */
  ghost predicate ReadSoFar(mem: Memory, addr: int, data: seq<Byte>, t: Trace, lastOk: bool) {
    && t.tail <= |data| && (data != [] ==> t.tail < |data|)
    && (t.clean ==> data == Slice(mem, addr, |data|) && (data != [] ==> lastOk))
    && (lastOk ==> data[t.tail..] == Slice(mem, addr + t.tail, |data| - t.tail))
  }

  lemma ReadOneMore(mem: Memory, addr: int, data: seq<Byte>, t: Trace, before: bool, chunk: seq<Byte>, ok: bool)
    requires ReadSoFar(mem, addr, data, t, before) && chunk != []
    requires ok ==> chunk == Slice(mem, addr + |data|, |chunk|)
    ensures ReadSoFar(mem, addr, data + chunk, Extend(t, |data|, ok), ok)
  {
    SlicesJoin(mem, addr, |data|, |chunk|);
    assert (data + chunk)[|data|..] == chunk;
  }

  /** What has been written: nothing outside the first n bytes, and those as they should be. */
  ghost predicate WrittenSoFar(before: Memory, after: Memory, addr: int, data: seq<Byte>, n: nat, t: Trace,
    lastOk: bool)
    requires n <= |data|
  {
    && t.tail <= n && (n > 0 ==> t.tail < n)
    && (forall a :: !(addr <= a < addr + n) ==> after(a) == before(a))
    && (t.clean ==> (forall a :: addr <= a < addr + n ==> after(a) == data[a - addr]) && (n > 0 ==> lastOk))
    && (lastOk ==> forall a :: addr + t.tail <= a < addr + n ==> after(a) == data[a - addr])
  }

  /** A transfer of data[n..m] took mid to after. */
  ghost predicate Transferred(mid: Memory, after: Memory, addr: int, data: seq<Byte>, n: nat, m: nat, ok: bool)
    requires n <= m <= |data|
  {
    && (forall a :: !(addr + n <= a < addr + m) ==> after(a) == mid(a))
    && (ok ==> forall a :: addr + n <= a < addr + m ==> after(a) == data[a - addr])
  }

  lemma WriteOneMore(before: Memory, mid: Memory, after: Memory, addr: int, data: seq<Byte>, n: nat, m: nat,
    t: Trace, prev: bool, ok: bool)
    requires n < m <= |data| && WrittenSoFar(before, mid, addr, data, n, t, prev)
    requires Transferred(mid, after, addr, data, n, m, ok)
    ensures WrittenSoFar(before, after, addr, data, m, Extend(t, n, ok), ok)
  {}

  /** Where a pass may stand between two transfers. */
  predicate Standing(addr: int, size: nat, done: nat, tail: nat)
    requires 0 < size < 0x8000_0000
  {
    done <= size && OnTheWay(addr, size, done, tail) && (0 < done < size ==> (addr + done) % 4 == 0)
  }

  /** What is left, if anything, begins at a word boundary. */
  predicate AtWord(addr: int, size: nat, done: nat) {
    done < size ==> (addr + done) % 4 == 0
  }

  /** The bytes up to a word boundary are the first transfer, if there are any. */
  lemma HeadIsNext(addr: int, size: nat)
    requires 0 < size < 0x8000_0000 && addr % 4 != 0
    ensures Standing(addr, size, Min(4 - addr % 4, size), 0)
  {
    assert NextSize(addr, size, 0) == Min(4 - addr % 4, size);
  }

  /** As long as there are whole words, as many as fit are the next transfer. */
  lemma WordsAreNext(addr: int, size: nat, done: nat, tail: nat)
    requires 0 < size < 0x8000_0000 && Standing(addr, size, done, tail) && WholeWords(size - done) != 0
    requires (addr + done) % 4 == 0
    ensures var n := Min(WholeWords(size - done), MAX_TRANSFER);
      0 < n <= size - done && n % 4 == 0 && (addr + done + n) % 4 == 0 && Standing(addr, size, done + n, done)
  {
    assert NextSize(addr, size, done) == Min(WholeWords(size - done), MAX_TRANSFER);
  }

  /** What is left then is one transfer of bytes. */
  lemma TailIsNext(addr: int, size: nat, done: nat, tail: nat)
    requires 0 < size < 0x8000_0000 && Standing(addr, size, done, tail) && done < size
    requires (addr + done) % 4 == 0 && WholeWords(size - done) == 0
    ensures size - done <= MAX_BYTES && Standing(addr, size, size, done)
  {
    assert NextSize(addr, size, done) == size - done;
  }

  /** A pass of reading that stands at a word boundary. */
  ghost predicate Reading(addr: int, size: nat, data: seq<Byte>, t: Trace, mem: Memory, lastOk: bool) {
    && 0 < size < 0x8000_0000 && |data| <= size
    && Standing(addr, size, |data|, t.tail) && AtWord(addr, size, |data|)
    && ReadSoFar(mem, addr, data, t, lastOk)
  }

  /** A pass of writing that stands at a word boundary. */
  ghost predicate Writing(addr: int, data: seq<Byte>, n: nat, t: Trace, before: Memory, mem: Memory, lastOk: bool) {
    && 0 < |data| < 0x8000_0000 && n <= |data|
    && Standing(addr, |data|, n, t.tail) && AtWord(addr, |data|, n)
    && WrittenSoFar(before, mem, addr, data, n, t, lastOk)
  }

  class CortexM {
    const stlink: Link

    constructor (stlink: Link)
      ensures this.stlink == stlink
    {
      this.stlink := stlink;
    }

    /** Read one more chunk, by bytes or by words. */
    method ReadNext(addr: int, data: seq<Byte>, n: nat, words: bool, ghost t: Trace)
      returns (more: seq<Byte>, ghost u: Trace)
      requires n > 0 && if words then (addr + |data|) % 4 == 0 && n % 4 == 0 && n <= MAX_TRANSFER else n <= MAX_BYTES
      requires ReadSoFar(stlink.mem, addr, data, t, stlink.lastOk)
      modifies stlink`lastOk, stlink`failed
      ensures |more| == |data| + n && u.tail == |data| && ReadSoFar(stlink.mem, addr, more, u, stlink.lastOk)
      ensures Counted(old(stlink.failed), stlink.failed, stlink.reliable, t, u)
    {
      ghost var before := stlink.lastOk;
      var chunk;
      if words {
        chunk := stlink.GetMem32(addr + |data|, n);
      } else {
        chunk := stlink.GetMem8(addr + |data|, n);
      }
      ReadOneMore(stlink.mem, addr, data, t, before, chunk, stlink.lastOk);
      more, u := data + chunk, Extend(t, |data|, stlink.lastOk);
    }

    method ReadWordChunk(addr: int, size: nat, head: seq<Byte>, ghost t0: Trace)
      returns (data: seq<Byte>, ghost t: Trace)
      requires Reading(addr, size, head, t0, stlink.mem, stlink.lastOk) && WholeWords(size - |head|) != 0
      modifies stlink`lastOk, stlink`failed
      ensures |head| < |data| && Reading(addr, size, data, t, stlink.mem, stlink.lastOk)
      ensures Counted(old(stlink.failed), stlink.failed, stlink.reliable, t0, t)
    {
      WordsAreNext(addr, size, |head|, t0.tail);
      var n := Min(WholeWords(size - |head|), MAX_TRANSFER);
      data, t := ReadNext(addr, head, n, true, t0);
    }

    /** Words, as long as there are any. */
    method ReadWords(addr: int, size: nat, head: seq<Byte>, ghost t0: Trace) returns (data: seq<Byte>, ghost t: Trace)
      requires Reading(addr, size, head, t0, stlink.mem, stlink.lastOk)
      modifies stlink`lastOk, stlink`failed
      ensures Reading(addr, size, data, t, stlink.mem, stlink.lastOk) && WholeWords(size - |data|) == 0
      ensures Counted(old(stlink.failed), stlink.failed, stlink.reliable, t0, t)
    {
      data, t := head, t0;
      while WholeWords(size - |data|) != 0
        invariant Reading(addr, size, data, t, stlink.mem, stlink.lastOk)
        invariant Counted(old(stlink.failed), stlink.failed, stlink.reliable, t0, t)
        decreases size - |data|
      {
        data, t := ReadWordChunk(addr, size, data, t);
      }
    }

    /** The bytes behind the last whole word. */
    method ReadTail(addr: int, size: nat, head: seq<Byte>, ghost t0: Trace) returns (data: seq<Byte>, ghost t: Trace)
      requires Reading(addr, size, head, t0, stlink.mem, stlink.lastOk) && WholeWords(size - |head|) == 0
      modifies stlink`lastOk, stlink`failed
      ensures |data| == size && Standing(addr, size, size, t.tail)
      ensures ReadSoFar(stlink.mem, addr, data, t, stlink.lastOk)
      ensures Counted(old(stlink.failed), stlink.failed, stlink.reliable, t0, t)
    {
      data, t := head, t0;
      while |data| < size
        invariant |data| <= size && Standing(addr, size, |data|, t.tail)
        invariant |data| < size ==> data == head && t == t0
        invariant ReadSoFar(stlink.mem, addr, data, t, stlink.lastOk)
        invariant Counted(old(stlink.failed), stlink.failed, stlink.reliable, t0, t)
      {
        TailIsNext(addr, size, |data|, t.tail);
        var n := Min(size - |data|, MAX_BYTES);
        data, t := ReadNext(addr, data, n, false, t);
      }
    }

    /** The bytes up to a word boundary, if there are any. */
    method ReadHead(addr: int, size: nat) returns (data: seq<Byte>, ghost t: Trace)
      requires 0 < size < 0x8000_0000
      modifies stlink`lastOk, stlink`failed
      ensures Reading(addr, size, data, t, stlink.mem, stlink.lastOk)
      ensures Counted(old(stlink.failed), stlink.failed, stlink.reliable, START, t)
    {
      data, t := [], START;
      if addr % 4 != 0 {
        HeadIsNext(addr, size);
        var n := Min(4 - addr % 4, size);
        data, t := ReadNext(addr, data, n, false, t);
      }
    }

    /** One pass over the range: bytes up to a word boundary, words, the remaining bytes. */
    method ReadChunks(addr: int, size: nat) returns (data: seq<Byte>, ghost t: Trace)
      requires 0 < size && 0 <= addr && addr + size <= 0x1_0000_0000 && size < 0x8000_0000
      modifies stlink`lastOk, stlink`failed
      ensures |data| == size && ReadSoFar(stlink.mem, addr, data, t, stlink.lastOk)
      ensures Pass(stlink.mem, addr, size, 0, data, stlink.lastOk) && t.tail == LastStart(addr, size, 0)
      ensures Counted(old(stlink.failed), stlink.failed, stlink.reliable, START, t)
    {
      data, t := ReadHead(addr, size);
      data, t := ReadWords(addr, size, data, t);
      data, t := ReadTail(addr, size, data, t);
      PassExactly(stlink.mem, addr, size, 0, data, stlink.lastOk);
    }

    /** Read with up to two retries. If no transfer has failed since the last pass began, when `start`
        had failed, the result is exactly memory. A normal return with status check is a pass with a good
        status, so it is memory for certain if the access takes one transfer. An error takes a failure in
        every pass. */
    method ReadMem(addr: int, size: nat, checkStatus: bool, attempt: nat)
      returns (r: Outcome, data: seq<Byte>, ghost start: nat)
      requires 0 <= addr && addr + size <= 0x1_0000_0000 && size < 0x8000_0000 && attempt <= 2
      modifies stlink`lastOk, stlink`failed
      ensures old(stlink.failed) <= start <= stlink.failed
      ensures r.Done? ==> |data| == size && (stlink.failed == start ==> data == Slice(stlink.mem, addr, size))
      ensures r.Done? && checkStatus && size > 0 ==> Pass(stlink.mem, addr, size, 0, data, true)
      ensures r.Done? && checkStatus && OneTransfer(addr, size) ==> data == Slice(stlink.mem, addr, size)
      ensures r == TargetFault ==> checkStatus && stlink.failed >= old(stlink.failed) + 3 - attempt
      ensures stlink.reliable ==> r.Done? && stlink.failed == old(stlink.failed)
      decreases 2 - attempt
    {
      start := stlink.failed;
      if size == 0 {
        return Done, [], start;
      }
      ghost var t;
      data, t := ReadChunks(addr, size);
      OneTransferExactly(addr, size);
      if checkStatus && !stlink.lastOk {
        if attempt < 2 {
          r, data, start := ReadMem(addr, size, checkStatus, attempt + 1);
          return;
        }
        return TargetFault, data, start;
      }
      r := Done;
    }

    /** Write one more chunk, by bytes or by words. */
    method WriteNext(addr: int, data: seq<Byte>, n: nat, m: nat, words: bool, ghost before: Memory, ghost t: Trace)
      returns (ghost u: Trace)
      requires n < m <= |data|
      requires if words then (addr + n) % 4 == 0 && (m - n) % 4 == 0 && m - n <= MAX_TRANSFER else m - n <= MAX_BYTES
      requires WrittenSoFar(before, stlink.mem, addr, data, n, t, stlink.lastOk)
      modifies stlink
      ensures u.tail == n && WrittenSoFar(before, stlink.mem, addr, data, m, u, stlink.lastOk)
      ensures Counted(old(stlink.failed), stlink.failed, stlink.reliable, t, u)
    {
      ghost var mid, prev := stlink.mem, stlink.lastOk;
      if words {
        stlink.SetMem32(addr + n, data[n..m]);
      } else {
        stlink.SetMem8(addr + n, data[n..m]);
      }
      WriteOneMore(before, mid, stlink.mem, addr, data, n, m, t, prev, stlink.lastOk);
      u := Extend(t, n, stlink.lastOk);
    }

    method WriteWordChunk(addr: int, data: seq<Byte>, start: nat, ghost before: Memory, ghost t0: Trace)
      returns (written: nat, ghost t: Trace)
      requires Writing(addr, data, start, t0, before, stlink.mem, stlink.lastOk) && WholeWords(|data| - start) != 0
      modifies stlink
      ensures start < written && Writing(addr, data, written, t, before, stlink.mem, stlink.lastOk)
      ensures Counted(old(stlink.failed), stlink.failed, stlink.reliable, t0, t)
    {
      WordsAreNext(addr, |data|, start, t0.tail);
      written := start + Min(WholeWords(|data| - start), MAX_TRANSFER);
      t := WriteNext(addr, data, start, written, true, before, t0);
    }

    method WriteWords(addr: int, data: seq<Byte>, start: nat, ghost before: Memory, ghost t0: Trace)
      returns (written: nat, ghost t: Trace)
      requires Writing(addr, data, start, t0, before, stlink.mem, stlink.lastOk)
      modifies stlink
      ensures Writing(addr, data, written, t, before, stlink.mem, stlink.lastOk) && WholeWords(|data| - written) == 0
      ensures Counted(old(stlink.failed), stlink.failed, stlink.reliable, t0, t)
    {
      written, t := start, t0;
      while WholeWords(|data| - written) != 0
        invariant Writing(addr, data, written, t, before, stlink.mem, stlink.lastOk)
        invariant Counted(old(stlink.failed), stlink.failed, stlink.reliable, t0, t)
        decreases |data| - written
      {
        written, t := WriteWordChunk(addr, data, written, before, t);
      }
    }

    /** The bytes behind the last whole word. */
    method WriteTail(addr: int, data: seq<Byte>, start: nat, ghost before: Memory, ghost t0: Trace)
      returns (ghost t: Trace)
      requires Writing(addr, data, start, t0, before, stlink.mem, stlink.lastOk) && WholeWords(|data| - start) == 0
      modifies stlink
      ensures Writing(addr, data, |data|, t, before, stlink.mem, stlink.lastOk)
      ensures Counted(old(stlink.failed), stlink.failed, stlink.reliable, t0, t)
    {
      t := t0;
      var written := start;
      while written < |data|
        invariant Writing(addr, data, written, t, before, stlink.mem, stlink.lastOk)
        invariant written < |data| ==> written == start
        invariant Counted(old(stlink.failed), stlink.failed, stlink.reliable, t0, t)
      {
        TailIsNext(addr, |data|, written, t.tail);
        var n := Min(|data| - written, MAX_BYTES);
        t := WriteNext(addr, data, written, written + n, false, before, t);
        written := written + n;
      }
    }

    /** The bytes up to a word boundary, if there are any. */
    method WriteHead(addr: int, data: seq<Byte>) returns (written: nat, ghost t: Trace)
      requires 0 < |data| < 0x8000_0000
      modifies stlink
      ensures Writing(addr, data, written, t, old(stlink.mem), stlink.mem, stlink.lastOk)
      ensures Counted(old(stlink.failed), stlink.failed, stlink.reliable, START, t)
    {
      written, t := 0, START;
      if addr % 4 != 0 {
        HeadIsNext(addr, |data|);
        written := Min(4 - addr % 4, |data|);
        t := WriteNext(addr, data, 0, written, false, old(stlink.mem), t);
      }
    }

    /** The same split for writing. */
    method WriteChunks(addr: int, data: seq<Byte>) returns (ghost t: Trace)
      requires data != [] && 0 <= addr && addr + |data| <= 0x1_0000_0000 && |data| < 0x8000_0000
      modifies stlink
      ensures WrittenSoFar(old(stlink.mem), stlink.mem, addr, data, |data|, t, stlink.lastOk)
      ensures WritePass(old(stlink.mem), addr, data, 0, stlink.mem, stlink.lastOk)
      ensures Counted(old(stlink.failed), stlink.failed, stlink.reliable, START, t)
    {
      var written;
      written, t := WriteHead(addr, data);
      written, t := WriteWords(addr, data, written, old(stlink.mem), t);
      t := WriteTail(addr, data, written, old(stlink.mem), t);
      WritePassExactly(old(stlink.mem), addr, data, 0, stlink.mem, stlink.lastOk);
    }

    /** Nothing outside the range changes; if no transfer failed, the range holds exactly the data. A
        normal return with status check is a pass with a good status, so everything is stored for certain
        if the access takes one transfer. */
    method WriteMem(addr: int, data: seq<Byte>, checkStatus: bool) returns (r: Outcome)
      requires 0 <= addr && addr + |data| <= 0x1_0000_0000 && |data| < 0x8000_0000
      modifies stlink
      ensures Unchanged(old(stlink.mem), stlink.mem, addr, addr + |data|)
      ensures stlink.failed == old(stlink.failed) ==> r.Done? && Slice(stlink.mem, addr, |data|) == data
      ensures r.Done? && checkStatus && data != [] ==> WritePass(old(stlink.mem), addr, data, 0, stlink.mem, true)
      ensures r.Done? && checkStatus && OneTransfer(addr, |data|) ==> Slice(stlink.mem, addr, |data|) == data
      ensures stlink.reliable ==> r.Done? && stlink.failed == old(stlink.failed)
    {
      if |data| == 0 {
        return Done;
      }
      ghost var t := WriteChunks(addr, data);
      OneTransferExactly(addr, |data|);
      r := if checkStatus && !stlink.lastOk then TargetFault else Done;
    }
  }
}
