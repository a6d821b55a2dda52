/** The GDB server's memory reads: requests inside flash, RAM or CCM are served from 512-byte pages
    that are fetched once and kept until something invalidates them. */
module PageCache {
  import opened Wrappers

  type Cache = map<int, seq<Byte>>

  const PAGE := 512

  predicate IsCacheable(addr: int) {
    (0x0800_0000 <= addr < 0x0820_0000) || (0x2000_0000 <= addr < 0x2004_0000) || (0x1000_0000 <= addr < 0x1001_0000)
  }

  /** Requests that go through the page cache. */
  predicate Paged(addr: int, len: int) {
    IsCacheable(addr) && IsCacheable(addr + len - 1) && len <= PAGE * 4
  }

  function PageOf(addr: int): int {
    addr / PAGE * PAGE
  }

  /** Every cached page equals target memory. */
  ghost predicate Coherent(cache: Cache, mem: Memory) {
    forall p <- cache :: cache[p] == Slice(mem, p, PAGE)
  }

  /** Only whole pages of cacheable memory are ever kept. */
  ghost predicate OnlyCacheable(cache: Cache) {
    forall p <- cache :: p % PAGE == 0 && forall a :: p <= a < p + PAGE ==> IsCacheable(a)
  }

  /** The pages of a paged request lie in one cacheable region, from the first byte of the first page
      to the last byte of the last. */
  lemma SpanInOneRegion(addr: int, len: int)
    requires 0 < len && Paged(addr, len)
    ensures forall a :: PageOf(addr) <= a < PageOf(addr + len - 1) + PAGE ==> IsCacheable(a)
    ensures PageOf(addr) <= addr && addr + len <= PageOf(addr + len - 1) + PAGE
    ensures PageOf(addr + len - 1) - PageOf(addr) <= 4 * PAGE
  {
    var first, last := addr / PAGE, (addr + len - 1) / PAGE;
    assert PAGE * first <= addr < PAGE * first + PAGE;
    assert PAGE * last <= addr + len - 1 < PAGE * last + PAGE;
  }

  /** Pages lie in the first 2 MB of flash, in 256 KB of RAM or in CCM; peripherals, whose registers may
      change by themselves, are never kept. */
  lemma KeptPages(cache: Cache, p: int)
    requires OnlyCacheable(cache) && p in cache
    ensures p % 512 == 0
    ensures 0x0800_0000 <= p <= 0x081f_fe00 || 0x2000_0000 <= p <= 0x2003_fe00 || 0x1000_0000 <= p <= 0x1000_fe00
  {
    assert IsCacheable(p) && IsCacheable(p + PAGE - 1);
  }

  /** Reads of up to 2 KB of this memory go through pages, and no others. */
  lemma PagedExactly(addr: int, len: int)
    requires 0 < len <= 0x1000
    ensures Paged(addr, len) <==>
      (len <= 2048 &&
       ((0x0800_0000 <= addr && addr + len <= 0x0820_0000) || (0x2000_0000 <= addr && addr + len <= 0x2004_0000) ||
        (0x1000_0000 <= addr && addr + len <= 0x1001_0000)))
  {}

  predicate IsPageFrom(first: int, end: int, q: int) {
    first <= q < end && q % PAGE == 0
  }

  lemma NoPageBetween(first: int, p: int)
    requires first <= p && p % PAGE == 0
    ensures forall q :: IsPageFrom(first, p + PAGE, q) <==> IsPageFrom(first, p, q) || q == p
  {
    forall q
      ensures IsPageFrom(first, p + PAGE, q) <==> IsPageFrom(first, p, q) || q == p
    {
      if p < q && q % PAGE == 0 {
        PagesApart(p, q);
      }
    }
  }

  lemma PagesApart(p: int, q: int)
    requires p % PAGE == 0 && q % PAGE == 0 && p < q
    ensures p + PAGE <= q
  {
    var a, b := p / PAGE, q / PAGE;
    assert p == PAGE * a && q == PAGE * b && a < b;
  }

  lemma NextPage(p: int, last: int)
    requires p % PAGE == 0 && last % PAGE == 0 && last < p <= last + PAGE
    ensures p == last + PAGE
  {
    PagesApart(last, p);
  }

  /** How much of the request lies before address p. */
  function Before(addr: int, len: nat, p: int): nat {
    if p <= addr then 0 else if p < addr + len then p - addr else len
  }

  /** The page at p continues what the pages before it gave. */
  lemma PageJoins(mem: Memory, addr: int, len: nat, p: int, s: nat, e: nat)
    requires PageOf(addr) <= p <= addr + len - 1 && p % PAGE == 0
    requires s == (if addr > p then addr else p) - p
    requires e == (if addr + len < p + PAGE then addr + len else p + PAGE) - p
    ensures s <= e <= PAGE
    ensures Slice(mem, addr, Before(addr, len, p)) + Slice(mem, p, PAGE)[s..e] == Slice(mem, addr, Before(addr, len,
      p + PAGE))
  {
    SliceOfSlice(mem, p, PAGE, s, e);
    SlicesJoin(mem, addr, Before(addr, len, p), e - s);
  }
}
