/** The GDB server's memory reads on top of the probe: pages through the cache, everything else, and what
    pages cannot answer, as one exact request. */
module PagedReader {
  import opened Wrappers
  import opened Transfers
  import opened PageCache
  import ChunkedMemory

  datatype ReadResult = Ok(data: seq<Byte>) | Failed

  /** The requests that the probe passes on to the target. */
  predicate Reachable(addr: int, len: nat) {
    0 <= addr && addr + len <= 0x1_0000_0000 && len <= 0x10_0000
  }

  /** What the probe answers to a read of [addr, addr+len): a pass over it with a good status. */
  ghost predicate Answers(mem: Memory, addr: int, len: nat, r: ReadResult) {
    r.Ok? && Reachable(addr, len) && len > 0 ==> |r.data| == len && Pass(mem, addr, len, 0, r.data, true)
  }

  /** A page is one transfer, so an answer to it is memory. */
  lemma PageIsSure(mem: Memory, p: int, r: ReadResult)
    requires p % PAGE == 0 && Reachable(p, PAGE) && Answers(mem, p, PAGE, r) && r.Ok?
    ensures r.data == Slice(mem, p, PAGE)
  {
    CheckedReadExactly(p, PAGE);
    assert SureRead(p, PAGE);
  }

  /** Any other request is sure exactly if it takes one transfer. */
  lemma AnswerIsSure(mem: Memory, addr: int, len: nat, r: ReadResult)
    requires Reachable(addr, len) && len > 0 && Answers(mem, addr, len, r) && r.Ok? && OneTransfer(addr, len)
    ensures r.data == Slice(mem, addr, len)
  {
    CheckedReadExactly(addr, len);
    assert SureRead(addr, len);
  }

  /** What a read of memory may come to: the last transfer is right, and everything if there is no other. */
  ghost predicate Fetched(mem: Memory, addr: int, len: nat, out: Option<seq<Byte>>) {
    out.Some? ==>
      && |out.value| == len && (len > 0 ==> len < 0x8000_0000 && Pass(mem, addr, len, 0, out.value, true))
      && (OneTransfer(addr, len) ==> out.value == Slice(mem, addr, len))
  }

  lemma MemoryIsFetched(mem: Memory, addr: int, len: nat)
    requires len < 0x8000_0000
    ensures Fetched(mem, addr, len, Some(Slice(mem, addr, len)))
  {
    if len > 0 {
      PassExactly(mem, addr, len, 0, Slice(mem, addr, len), true);
    }
  }

  lemma PagesOfSpan(addr: int, len: nat, missing: seq<int>)
    requires 0 < len && Paged(addr, len)
    requires forall p <- missing :: IsPageFrom(PageOf(addr), PageOf(addr + len - 1) + 1, p)
    ensures forall p <- missing :: p % PAGE == 0 && Reachable(p, PAGE)
    ensures forall p <- missing :: forall a :: p <= a < p + PAGE ==> IsCacheable(a)
  {
    SpanInOneRegion(addr, len);
    PagesReachable(addr, len);
  }

  lemma PagesReachable(addr: int, len: nat)
    requires 0 < len && Paged(addr, len)
    ensures Reachable(addr, len)
    ensures forall p :: PageOf(addr) <= p <= PageOf(addr + len - 1) ==> Reachable(p, PAGE)
  {
    SpanInOneRegion(addr, len);
    assert IsCacheable(PageOf(addr)) && IsCacheable(PageOf(addr + len - 1) + PAGE - 1);
  }

  class Probe {
    const core: ChunkedMemory.CortexM
    /** How many requests were answered with a failure. */
    ghost var refused: nat

    constructor (core: ChunkedMemory.CortexM)
      ensures this.core == core
    {
      this.core := core;
      refused := 0;
    }

    ghost function Mem(): Memory
      reads core.stlink`mem
    {
      core.stlink.mem
    }

    /** No transfer fails. */
    ghost predicate Reliable() {
      core.stlink.reliable
    }

    /** The readMem operation; it may also fail for reasons of its own. */
    method ReadMem(addr: int, len: nat) returns (r: ReadResult)
      modifies this`refused, core.stlink`lastOk, core.stlink`failed
      ensures Answers(Mem(), addr, len, r) && (r.Ok? ==> Reachable(addr, len) && |r.data| == len)
      ensures refused == old(refused) + if r.Ok? then 0 else 1
      ensures Reliable() && Reachable(addr, len) ==> r == Ok(Slice(Mem(), addr, len))
    {
      var lost: bool := *;
      if (lost && !core.stlink.reliable) || !(0 <= addr && addr + len <= 0x1_0000_0000 && len <= 0x10_0000) {
        refused := refused + 1;
        return Failed;
      }
      var out, data;
      ghost var start;
      out, data, start := core.ReadMem(addr, len, true, 0);
      r := if out.Done? then Ok(data) else Failed;
      refused := refused + if out.Done? then 0 else 1;
    }

    /** Page reads one by one, up to and including the first failure. */
    method ReadPages(pages: seq<int>) returns (results: seq<ReadResult>)
      requires forall p <- pages :: p % PAGE == 0 && Reachable(p, PAGE)
      modifies this`refused, core.stlink`lastOk, core.stlink`failed
      ensures |results| <= |pages|
      ensures forall i :: 0 <= i < |results| && results[i].Ok? ==> results[i].data == Slice(Mem(), pages[i], PAGE)
      ensures (forall i :: 0 <= i < |results| ==> results[i].Ok?) ==> |results| == |pages|
      ensures refused == old(refused) ==> forall i :: 0 <= i < |results| ==> results[i].Ok?
      ensures Reliable() ==> forall i :: 0 <= i < |results| ==> results[i].Ok?
      ensures refused >= old(refused)
    {
      results := [];
      for i := 0 to |pages|
        invariant |results| == i && refused == old(refused)
        invariant forall j :: 0 <= j < i ==> results[j] == Ok(Slice(Mem(), pages[j], PAGE))
      {
        var r := ReadMem(pages[i], PAGE);
        if r.Ok? {
          PageIsSure(Mem(), pages[i], r);
        }
        results := results + [r];
        if r.Failed? {
          return;
        }
      }
    }
  }

  class Reader {
    const probe: Probe
    var memCache: Cache

    constructor (probe: Probe)
      ensures this.probe == probe && memCache == map[]
    {
      this.probe := probe;
      memCache := map[];
    }

    method MissingPages(first: int, last: int) returns (missing: seq<int>)
      requires first <= last && first % PAGE == 0 && last % PAGE == 0
      ensures forall p :: p in missing <==> IsPageFrom(first, last + 1, p) && p !in memCache
    {
      missing := [];
      var p := first;
      while p <= last
        invariant p % PAGE == 0 && first <= p <= last + PAGE
        invariant forall q :: q in missing <==> IsPageFrom(first, p, q) && q !in memCache
        decreases last + PAGE - p
      {
        ghost var before := missing;
        if p !in memCache {
          missing := missing + [p];
        }
        assert forall q :: q in missing <==> q in before || (q == p && p !in memCache);
        NoPageBetween(first, p);
        p := p + PAGE;
      }
      NextPage(p, last);
      NoPageBetween(first, last);
    }

    method FetchExact(addr: int, len: nat) returns (out: Option<seq<Byte>>)
      modifies probe`refused, probe.core.stlink`lastOk, probe.core.stlink`failed
      ensures Fetched(probe.Mem(), addr, len, out)
      ensures probe.Reliable() && Reachable(addr, len) ==> out == Some(Slice(probe.Mem(), addr, len))
      ensures probe.refused == old(probe.refused) + if out.Some? then 0 else 1
    {
      var r := probe.ReadMem(addr, len);
      if r.Ok? && Reachable(addr, len) && len > 0 && OneTransfer(addr, len) {
        AnswerIsSure(probe.Mem(), addr, len, r);
      }
      out := if r.Ok? then Some(r.data) else None;
    }

    /** Fetch the missing pages; stops at the first failure, keeping the pages before it. */
    method Fill(missing: seq<int>) returns (ok: bool)
      requires Coherent(memCache, probe.Mem())
      requires forall p <- missing :: p % PAGE == 0 && Reachable(p, PAGE)
      modifies this, probe`refused, probe.core.stlink`lastOk, probe.core.stlink`failed
      ensures Coherent(memCache, probe.Mem())
      ensures old(memCache.Keys) <= memCache.Keys <= old(memCache.Keys) + set p | p in missing
      ensures ok ==> forall p <- missing :: p in memCache
      ensures probe.refused == old(probe.refused) || probe.Reliable() ==> ok
      ensures probe.refused >= old(probe.refused)
    {
      if |missing| == 0 {
        return true;
      }
      var results := probe.ReadPages(missing);
      ghost var refused := probe.refused;
      for i := 0 to |results|
        invariant probe.refused == refused
        invariant Coherent(memCache, probe.Mem())
        invariant old(memCache.Keys) <= memCache.Keys <= old(memCache.Keys) + set p | p in missing
        invariant forall j :: 0 <= j < i ==> results[j].Ok? && missing[j] in memCache
      {
        if results[i].Failed? {
          return false;
        }
        memCache := memCache[missing[i] := results[i].data];
      }
      ok := true;
    }

    /** The requested bytes of one page continue the bytes of the pages before it. */
    method PagePart(addr: int, len: nat, p: int) returns (part: seq<Byte>)
      requires PageOf(addr) <= p <= addr + len - 1 && p % PAGE == 0
      requires Coherent(memCache, probe.Mem()) && p in memCache
      ensures Slice(probe.Mem(), addr, Before(addr, len, p)) + part == Slice(probe.Mem(), addr, Before(addr, len,
        p + PAGE))
    {
      var page := memCache[p];
      var s := (if addr > p then addr else p) - p;
      var e := (if addr + len < p + PAGE then addr + len else p + PAGE) - p;
      PageJoins(probe.Mem(), addr, len, p, s, e);
      part := page[s..e];
    }

    /** Copy the requested part of every page of the span. */
    method Assemble(addr: int, len: nat, first: int, last: int) returns (out: seq<Byte>)
      requires 0 < len && first == PageOf(addr) && last == PageOf(addr + len - 1)
      requires Coherent(memCache, probe.Mem())
      requires forall p :: first <= p <= last && p % PAGE == 0 ==> p in memCache
      ensures out == Slice(probe.Mem(), addr, len)
    {
      out := [];
      var p := first;
      while p <= last
        invariant p % PAGE == 0 && first <= p <= last + PAGE
        invariant out == Slice(probe.Mem(), addr, Before(addr, len, p))
        decreases last + PAGE - p
      {
        var part := PagePart(addr, len, p);
        out := out + part;
        p := p + PAGE;
      }
    }

    /** Fill the cache with the pages of a request and take it from there. */
    method FetchPaged(addr: int, len: nat) returns (out: Option<seq<Byte>>)
      requires 0 < len && Paged(addr, len)
      requires Coherent(memCache, probe.Mem()) && OnlyCacheable(memCache)
      modifies this, probe`refused, probe.core.stlink`lastOk, probe.core.stlink`failed
      ensures Coherent(memCache, probe.Mem()) && OnlyCacheable(memCache)
      ensures out.Some? ==> out.value == Slice(probe.Mem(), addr, len)
      ensures probe.refused == old(probe.refused) || probe.Reliable() ==> out.Some?
      ensures probe.refused >= old(probe.refused)
    {
      SpanInOneRegion(addr, len);
      PagesReachable(addr, len);
      var first, last := PageOf(addr), PageOf(addr + len - 1);
      var missing := MissingPages(first, last);
      PagesOfSpan(addr, len, missing);
      var ok := Fill(missing);
      if !ok {
        return None;
      }
      assert forall p :: first <= p <= last && p % PAGE == 0 && p !in old(memCache) ==> IsPageFrom(first, last + 1, p);
      var data := Assemble(addr, len, first, last);
      out := Some(data);
    }

    /** A read through pages is exactly target memory. An exact request, the only one for other ranges and
        the fallback if a page cannot be read, is so for certain if it takes one transfer. If no transfer
        fails, every read is answered with memory; and a read through pages only fails if both a page and
        the exact request behind it were refused. */
    method FetchMem(addr: int, len: nat) returns (out: Option<seq<Byte>>)
      requires Coherent(memCache, probe.Mem()) && OnlyCacheable(memCache)
      modifies this, probe`refused, probe.core.stlink`lastOk, probe.core.stlink`failed
      ensures Coherent(memCache, probe.Mem()) && OnlyCacheable(memCache)
      ensures Fetched(probe.Mem(), addr, len, out)
      ensures len == 0 || (Paged(addr, len) && probe.refused == old(probe.refused)) ==>
        out == Some(Slice(probe.Mem(), addr, len))
      ensures out.None? ==> probe.refused >= old(probe.refused) + if Paged(addr, len) then 2 else 1
      ensures probe.Reliable() && Reachable(addr, len) ==> out == Some(Slice(probe.Mem(), addr, len))
    {
      MemoryIsFetched(probe.Mem(), addr, if len < 0x8000_0000 then len else 0);
      if len == 0 {
        return Some([]);
      }
      if IsCacheable(addr) && IsCacheable(addr + len - 1) && len <= PAGE * 4 {
        out := FetchPaged(addr, len);
        if out.Some? {
          return;
        }
      }
      out := FetchExact(addr, len);
    }
  }
}
