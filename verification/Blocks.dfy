/** Runs of bytes at addresses, and the stable sort by address that JavaScript's `sort` performs. */
module Blocks {
  import opened Wrappers

  datatype Block = Block(addr: int, data: seq<Byte>) {
    function End(): int {
      addr + |data|
    }

    predicate Covers(a: int) {
      addr <= a < End()
    }

    function At(a: int): Byte
      requires Covers(a)
    {
      data[a - addr]
    }
  }

  predicate Sorted(bs: seq<Block>) {
    forall i, j :: 0 <= i < j < |bs| ==> bs[i].addr <= bs[j].addr
  }

  /** Insert b behind everything that is not above it. */
  function Insert(bs: seq<Block>, b: Block): seq<Block> {
    if bs == [] || bs[|bs| - 1].addr <= b.addr then bs + [b]
    else Insert(bs[..|bs| - 1], b) + [bs[|bs| - 1]]
  }

  function SortByAddr(bs: seq<Block>): seq<Block> {
    if bs == [] then [] else Insert(SortByAddr(bs[..|bs| - 1]), bs[|bs| - 1])
  }

  /** The blocks at one address, in their order. */
  function AtAddr(bs: seq<Block>, addr: int): seq<Block> {
    if bs == [] then []
    else AtAddr(bs[..|bs| - 1], addr) + Only(bs[|bs| - 1], addr)
  }

  function Only(b: Block, addr: int): seq<Block> {
    if b.addr == addr then [b] else []
  }

  lemma AtAddrSnoc(bs: seq<Block>, b: Block, addr: int)
    ensures AtAddr(bs + [b], addr) == AtAddr(bs, addr) + Only(b, addr)
  {
    assert (bs + [b])[..|bs|] == bs;
  }

  lemma {:induction false} InsertPermutes(bs: seq<Block>, b: Block)
    ensures multiset(Insert(bs, b)) == multiset(bs) + multiset{b}
  {
    if bs != [] && bs[|bs| - 1].addr > b.addr {
      InsertPermutes(bs[..|bs| - 1], b);
      assert bs == bs[..|bs| - 1] + [bs[|bs| - 1]];
    }
  }

  lemma {:induction false} InsertBelow(bs: seq<Block>, b: Block, bound: int)
    requires b.addr <= bound && forall i :: 0 <= i < |bs| ==> bs[i].addr <= bound
    ensures forall i :: 0 <= i < |Insert(bs, b)| ==> Insert(bs, b)[i].addr <= bound
  {
    if bs != [] && bs[|bs| - 1].addr > b.addr {
      InsertBelow(bs[..|bs| - 1], b, bound);
    }
  }

  lemma {:induction false} InsertSorted(bs: seq<Block>, b: Block)
    requires Sorted(bs)
    ensures Sorted(Insert(bs, b))
  {
    if bs != [] && bs[|bs| - 1].addr > b.addr {
      InsertSorted(bs[..|bs| - 1], b);
      InsertBelow(bs[..|bs| - 1], b, bs[|bs| - 1].addr);
    }
  }

  lemma {:induction false} InsertStable(bs: seq<Block>, b: Block, addr: int)
    ensures AtAddr(Insert(bs, b), addr) == AtAddr(bs, addr) + Only(b, addr)
  {
    if bs == [] || bs[|bs| - 1].addr <= b.addr {
      AtAddrSnoc(bs, b, addr);
    } else {
      var init, last := bs[..|bs| - 1], bs[|bs| - 1];
      InsertStable(init, b, addr);
      AtAddrSnoc(Insert(init, b), last, addr);
      assert Only(b, addr) + Only(last, addr) == Only(last, addr) + Only(b, addr);
    }
  }

  /** The sort orders by address and loses nothing. */
  lemma {:induction false} SortCorrect(bs: seq<Block>)
    ensures Sorted(SortByAddr(bs)) && multiset(SortByAddr(bs)) == multiset(bs)
  {
    if bs != [] {
      var init, last := bs[..|bs| - 1], bs[|bs| - 1];
      SortCorrect(init);
      InsertSorted(SortByAddr(init), last);
      InsertPermutes(SortByAddr(init), last);
      assert bs == init + [last];
    }
  }

  /** Blocks at the same address keep their order. */
  lemma {:induction false} SortStable(bs: seq<Block>, addr: int)
    ensures AtAddr(SortByAddr(bs), addr) == AtAddr(bs, addr)
  {
    if bs != [] {
      var init, last := bs[..|bs| - 1], bs[|bs| - 1];
      SortStable(init, addr);
      InsertStable(SortByAddr(init), last, addr);
    }
  }

  lemma SortKeepsMembers(bs: seq<Block>)
    ensures forall b :: b in SortByAddr(bs) <==> b in bs
    ensures |SortByAddr(bs)| == |bs|
  {
    SortCorrect(bs);
    forall b
      ensures b in SortByAddr(bs) <==> b in bs
    {
      assert b in multiset(bs) <==> b in multiset(SortByAddr(bs));
    }
    assert |multiset(bs)| == |multiset(SortByAddr(bs))|;
  }
}
