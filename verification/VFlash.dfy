/** The vFlash transaction of the GDB server: chunks are collected, sorted, merged into images with
    small gaps filled, and each image is flashed by itself. */
module VFlash {
  import opened Wrappers
  import opened Blocks
  import Stm32Flash
  import opened FlashController

  const THRESHOLD: int := 0x4000

  predicate InWindow(b: Block) {
    WINDOW_START <= b.addr && b.End() <= WINDOW_END
  }

  /** Sorted, non-empty and disjoint: what sorting makes of disjoint non-empty chunks. */
  ghost predicate Ascending(bs: seq<Block>) {
    && (forall i :: 0 <= i < |bs| ==> bs[i].data != [])
    && (forall i, j :: 0 <= i < j < |bs| ==> bs[i].End() <= bs[j].addr)
  }

  ghost predicate Disjoint(bs: seq<Block>) {
    && (forall i :: 0 <= i < |bs| ==> bs[i].data != [])
    && (forall i, j, a :: 0 <= i < j < |bs| ==> !(bs[i].Covers(a) && bs[j].Covers(a)))
  }

  function Blank(n: nat): seq<Byte> {
    seq(n, _ => 0xff)
  }

  /** The next chunk joins the last image if it starts at or shortly after its end. */
  function MergeNext(images: seq<Block>, c: Block): seq<Block> {
    if images != [] && c.addr >= images[|images| - 1].End() && c.addr - images[|images| - 1].End() < THRESHOLD then
      var cur := images[|images| - 1];
      images[|images| - 1 := Block(cur.addr, cur.data + Blank(c.addr - cur.End()) + c.data)]
    else
      images + [c]
  }

  function Merged(chunks: seq<Block>): seq<Block> {
    if chunks == [] then [] else MergeNext(Merged(chunks[..|chunks| - 1]), chunks[|chunks| - 1])
  }

  /** Images lie in ascending order and at least the threshold apart. */
  ghost predicate Separated(images: seq<Block>) {
    && (forall i :: 0 <= i < |images| ==> images[i].data != [])
    && (forall i, j :: 0 <= i < j < |images| ==> images[i].End() + THRESHOLD <= images[j].addr)
  }

  ghost predicate SomeCovers(bs: seq<Block>, a: int, v: Byte) {
    exists i :: 0 <= i < |bs| && bs[i].Covers(a) && bs[i].At(a) == v
  }

  /** a lies in a gap between two consecutive chunks that is shorter than the threshold. */
  ghost predicate InSmallGap(chunks: seq<Block>, a: int) {
    exists i :: 0 < i < |chunks| && chunks[i - 1].End() <= a < chunks[i].addr &&
      chunks[i].addr - chunks[i - 1].End() < THRESHOLD
  }

  /** The images hold v at a exactly if a chunk does, or if a lies in a small gap and v is 0xff. */
  ghost predicate SameBytes(chunks: seq<Block>, images: seq<Block>) {
    forall a: int, v: Byte :: SomeCovers(images, a, v) <==>
      SomeCovers(chunks, a, v) || (InSmallGap(chunks, a) && v == 0xff)
  }

  lemma {:induction false} MergedSeparated(chunks: seq<Block>)
    requires Ascending(chunks)
    ensures Separated(Merged(chunks))
    ensures chunks != [] ==> Merged(chunks) != [] && Merged(chunks)[0].addr == chunks[0].addr
    ensures chunks != [] ==> Merged(chunks)[|Merged(chunks)| - 1].End() == chunks[|chunks| - 1].End()
  {
    if chunks != [] {
      var init := chunks[..|chunks| - 1];
      MergedSeparated(init);
      if init != [] {
        assert init[|init| - 1] == chunks[|chunks| - 2];
        MergeNextSeparated(Merged(init), chunks[|chunks| - 1]);
      }
    }
  }

  lemma MergeNextSeparated(images: seq<Block>, c: Block)
    requires Separated(images) && images != [] && images[|images| - 1].End() <= c.addr && c.data != []
    ensures var after := MergeNext(images, c);
      Separated(after) && after != [] && after[0].addr == images[0].addr && after[|after| - 1].End() == c.End()
  {
    var last := |images| - 1;
    assert forall i :: 0 <= i < last ==> images[i].End() + THRESHOLD <= images[last].addr;
  }

  lemma CoversSnoc(bs: seq<Block>, b: Block, a: int, v: Byte)
    ensures SomeCovers(bs + [b], a, v) <==> SomeCovers(bs, a, v) || (b.Covers(a) && b.At(a) == v)
  {
    var all := bs + [b];
    assert all[|bs|] == b;
    if i :| 0 <= i < |bs| && bs[i].Covers(a) && bs[i].At(a) == v {
      assert all[i] == bs[i];
    }
  }

  /** A joined image holds the old image, the blank gap and the new chunk. */
  lemma JoinCovers(cur: Block, c: Block, a: int, v: Byte)
    requires cur.End() <= c.addr
    ensures var joined := Block(cur.addr, cur.data + Blank(c.addr - cur.End()) + c.data);
      joined.Covers(a) && joined.At(a) == v <==>
        (cur.Covers(a) && cur.At(a) == v) || (cur.End() <= a < c.addr && v == 0xff) || (c.Covers(a) && c.At(a) == v)
  {}

  lemma GapSnoc(init: seq<Block>, c: Block, a: int)
    requires init != []
    ensures InSmallGap(init + [c], a) <==>
      InSmallGap(init, a) || (init[|init| - 1].End() <= a < c.addr && c.addr - init[|init| - 1].End() < THRESHOLD)
  {
    var chunks := init + [c];
    assert forall i :: 0 <= i < |init| ==> chunks[i] == init[i];
    if InSmallGap(init, a) {
      var i :| 0 < i < |init| && init[i - 1].End() <= a < init[i].addr && init[i].addr - init[i - 1].End() < THRESHOLD;
      assert chunks[i - 1] == init[i - 1] && chunks[i] == init[i];
    }
    if init[|init| - 1].End() <= a < c.addr && c.addr - init[|init| - 1].End() < THRESHOLD {
      assert chunks[|init| - 1] == init[|init| - 1] && chunks[|init|] == c;
    }
  }

  /** Merging keeps every byte of every chunk and adds nothing but 0xff in small gaps. */
  lemma {:induction false} MergedSameBytesAt(chunks: seq<Block>, a: int, v: Byte)
    requires Ascending(chunks)
    ensures SomeCovers(Merged(chunks), a, v) <==> SomeCovers(chunks, a, v) || (InSmallGap(chunks, a) && v == 0xff)
  {
    if chunks != [] {
      var init, c := chunks[..|chunks| - 1], chunks[|chunks| - 1];
      assert chunks == init + [c];
      MergedSameBytesAt(init, a, v);
      CoversSnoc(init, c, a, v);
      if init == [] {
        assert Merged(chunks) == [c] == init + [c];
      } else {
        GapSnoc(init, c, a);
        MergedSeparated(init);
        assert init[|init| - 1].End() <= c.addr;
        MergeNextCovers(Merged(init), c, a, v);
      }
    }
  }

  lemma MergeNextCovers(images: seq<Block>, c: Block, a: int, v: Byte)
    requires images != [] && images[|images| - 1].End() <= c.addr
    ensures SomeCovers(MergeNext(images, c), a, v) <==>
      SomeCovers(images, a, v) || (c.Covers(a) && c.At(a) == v) ||
      (images[|images| - 1].End() <= a < c.addr && c.addr - images[|images| - 1].End() < THRESHOLD && v == 0xff)
  {
    var front, cur := images[..|images| - 1], images[|images| - 1];
    CoversSnoc(front, cur, a, v);
    assert images == front + [cur];
    CoversSnoc(images, c, a, v);
    if c.addr - cur.End() < THRESHOLD {
      var joined := Block(cur.addr, cur.data + Blank(c.addr - cur.End()) + c.data);
      CoversSnoc(front, joined, a, v);
      assert MergeNext(images, c) == front + [joined];
      JoinCovers(cur, c, a, v);
    }
  }

  /** The merge of disjoint non-empty chunks from the window: sorted images at least the threshold
      apart, inside the window, holding exactly the chunks and 0xff in the small gaps. */
  lemma MergeCorrect(chunks: seq<Block>)
    requires Ascending(chunks) && forall c <- chunks :: InWindow(c)
    ensures Separated(Merged(chunks)) && SameBytes(chunks, Merged(chunks))
    ensures forall image <- Merged(chunks) :: InWindow(image)
  {
    var images := Merged(chunks);
    MergedSeparated(chunks);
    forall a: int, v: Byte
      ensures SomeCovers(images, a, v) <==> SomeCovers(chunks, a, v) || (InSmallGap(chunks, a) && v == 0xff)
    {
      MergedSameBytesAt(chunks, a, v);
    }
    if chunks != [] {
      assert chunks[0] in chunks && chunks[|chunks| - 1] in chunks;
    }
  }

  /** Two chunks become one image exactly if the second begins less than 16 KB behind the end of the first. */
  lemma ThresholdIsExact(c: Block, d: Block)
    ensures |Merged([c, d])| == (if 0 <= d.addr - c.End() < 0x4000 then 1 else 2)
  {
    assert [c, d][..1] == [c] && [c][..0] == [];
    assert Merged([c]) == [c];
  }

  /** Every image begins where a chunk does and ends where a chunk does, even if chunks overlap. */
  lemma {:induction false} MergedBounds(chunks: seq<Block>)
    ensures forall image <- Merged(chunks) ::
      (exists c :: c in chunks && c.addr == image.addr) && exists c :: c in chunks && c.End() == image.End()
  {
    if chunks != [] {
      var init, c := chunks[..|chunks| - 1], chunks[|chunks| - 1];
      MergedBounds(init);
      assert chunks == init + [c];
      var images := Merged(init);
      assert forall image <- images :: image in Merged(init);
      forall image | image in Merged(chunks)
        ensures (exists c :: c in chunks && c.addr == image.addr) && exists c :: c in chunks && c.End() == image.End()
      {
        if image !in images {
          assert image.End() == c.End();
          if image != c {
            assert image.addr == images[|images| - 1].addr && images[|images| - 1] in images;
          }
        }
      }
    }
  }

  lemma MergedInWindow(chunks: seq<Block>)
    requires forall c <- chunks :: InWindow(c)
    ensures forall image <- Merged(chunks) :: InWindow(image)
  {
    MergedBounds(chunks);
  }

  lemma SortedDisjointAscends(chunks: seq<Block>)
    requires Disjoint(chunks)
    ensures Ascending(SortByAddr(chunks))
  {
    var s := SortByAddr(chunks);
    SortCorrect(chunks);
    SortKeepsMembers(chunks);
    forall i, j | 0 <= i < j < |s|
      ensures s[i].End() <= s[j].addr
    {
      DisjointMembers(chunks, s, i, j);
    }
    forall i | 0 <= i < |s|
      ensures s[i].data != []
    {
      assert s[i] in chunks;
    }
  }

  /** Two places of a permutation hold blocks from two places of the original. */
  lemma DisjointMembers(chunks: seq<Block>, s: seq<Block>, i: nat, j: nat)
    requires Disjoint(chunks) && Sorted(s) && multiset(s) == multiset(chunks) && i < j < |s|
    ensures s[i].End() <= s[j].addr
  {
    var x, y := s[i], s[j];
    assert x in multiset(chunks) && y in multiset(chunks);
    var p :| 0 <= p < |chunks| && chunks[p] == x;
    if x == y {
      TwoOccurrences(s, i, j);
      NoTwice(chunks, p);
      assert false;
    } else {
      var q :| 0 <= q < |chunks| && chunks[q] == y;
      assert p != q;
      assert y.Covers(y.addr);
      assert !x.Covers(y.addr);
    }
  }

  lemma TwoOccurrences(s: seq<Block>, i: nat, j: nat)
    requires i < j < |s| && s[i] == s[j]
    ensures multiset(s)[s[i]] >= 2
  {
    assert s == s[..i] + [s[i]] + s[i + 1..j] + [s[j]] + s[j + 1..];
  }

  lemma NoTwice(chunks: seq<Block>, p: nat)
    requires Disjoint(chunks) && p < |chunks|
    ensures multiset(chunks)[chunks[p]] == 1
  {
    var rest := chunks[..p] + chunks[p + 1..];
    var x := chunks[p];
    assert multiset(chunks) == multiset(rest) + multiset{x} by {
      assert chunks == chunks[..p] + [x] + chunks[p + 1..];
    }
    if x in rest {
      var q :| 0 <= q < |rest| && rest[q] == x;
      var q' := if q < p then q else q + 1;
      assert chunks[q'] == x && x.Covers(x.addr);
      assert false;
    }
  }

  // ---------------------------------------------------------------- flashing the images

  function At(b: Block): int {
    b.addr - WINDOW_START
  }

  ghost predicate FlashedInOrder(images: seq<Block>, states: seq<seq<Byte>>, sizes: seq<nat>) {
    && |states| == |images| + 1
    && forall i :: 0 <= i < |images| ==>
      Stm32Flash.Flashed(states[i], states[i + 1], sizes, At(images[i]), |images[i].data|, images[i].data)
  }

  /** One of the images k+1 .. j-1 touches the sector of offset x. */
  ghost predicate TouchedLater(images: seq<Block>, sizes: seq<nat>, k: int, j: int, x: int) {
    exists i :: k < i < j && 0 <= i < |images| && Stm32Flash.Touched(sizes, At(images[i]), |images[i].data|, x)
  }

  /** What is left of a byte of image k once image j-1 has been flashed. */
  lemma {:induction false} ByteAfter(images: seq<Block>, states: seq<seq<Byte>>, sizes: seq<nat>, k: nat, j: nat,
    a: int)
    requires Separated(images) && FlashedInOrder(images, states, sizes)
    requires k < j <= |images| && images[k].Covers(a) && 0 <= a - WINDOW_START < |states[0]|
    ensures |states[j]| == |states[0]|
    ensures states[j][a - WINDOW_START] == if TouchedLater(images, sizes, k, j,
      a - WINDOW_START) then 0xff else images[k].At(a)
  {
    StatesKeepLength(images, states, sizes, j);
    if j == k + 1 {
      StatesKeepLength(images, states, sizes, k);
      assert !TouchedLater(images, sizes, k, j, a - WINDOW_START);
    } else {
      ByteAfter(images, states, sizes, k, j - 1, a);
      assert images[k].End() + THRESHOLD <= images[j - 1].addr;
      assert TouchedLater(images, sizes, k, j, a - WINDOW_START) <==>
        TouchedLater(images, sizes, k, j - 1, a - WINDOW_START) ||
        Stm32Flash.Touched(sizes, At(images[j - 1]), |images[j - 1].data|, a - WINDOW_START);
    }
  }

  lemma {:induction false} StatesKeepLength(images: seq<Block>, states: seq<seq<Byte>>, sizes: seq<nat>, j: nat)
    requires FlashedInOrder(images, states, sizes) && j <= |images|
    ensures |states[j]| == |states[0]|
  {
    if j > 0 {
      StatesKeepLength(images, states, sizes, j - 1);
    }
  }

  ghost predicate Holds(flash: seq<Byte>, b: Block) {
    forall a :: b.Covers(a) ==> 0 <= a - WINDOW_START < |flash| && flash[a - WINDOW_START] == b.At(a)
  }

  /** After the last image, image k is intact exactly if no later image touched the sector of any of
      its bytes other than 0xff. */
  lemma ImageIntactExactly(images: seq<Block>, states: seq<seq<Byte>>, sizes: seq<nat>, k: nat)
    requires Separated(images) && FlashedInOrder(images, states, sizes) && k < |images|
    requires forall a :: images[k].Covers(a) ==> 0 <= a - WINDOW_START < |states[0]|
    ensures Holds(states[|images|], images[k]) <==>
      forall a :: images[k].Covers(a) ==>
        images[k].At(a) == 0xff || !TouchedLater(images, sizes, k, |images|, a - WINDOW_START)
  {
    forall a | images[k].Covers(a)
      ensures 0 <= a - WINDOW_START < |states[|images|]|
      ensures states[|images|][a - WINDOW_START] == images[k].At(a) <==>
        images[k].At(a) == 0xff || !TouchedLater(images, sizes, k, |images|, a - WINDOW_START)
    {
      ByteAfter(images, states, sizes, k, |images|, a);
    }
  }

  ghost predicate SharedSector(sizes: seq<nat>, x: Block, y: Block) {
    exists s :: 0 <= s < |sizes| && Stm32Flash.Overlaps(sizes, s, At(x), |x.data|) &&
      Stm32Flash.Overlaps(sizes, s, At(y), |y.data|)
  }

  ghost predicate NoSharedSectors(sizes: seq<nat>, images: seq<Block>) {
    forall i, j :: 0 <= i < j < |images| ==> !SharedSector(sizes, images[i], images[j])
  }

  /** If no two images share an erase sector, every chunk is in the flash at the end. */
  lemma ChunksInFlash(chunks: seq<Block>, states: seq<seq<Byte>>, sizes: seq<nat>)
    requires Ascending(chunks) && (forall c <- chunks :: InWindow(c))
    requires FlashedInOrder(Merged(chunks), states, sizes) && NoSharedSectors(sizes, Merged(chunks))
    requires |states[0]| >= WINDOW_END - WINDOW_START
    ensures forall c <- chunks :: Holds(states[|Merged(chunks)|], c)
  {
    var images := Merged(chunks);
    MergeCorrect(chunks);
    forall c, a | c in chunks && c.Covers(a)
      ensures 0 <= a - WINDOW_START < |states[|images|]| && states[|images|][a - WINDOW_START] == c.At(a)
    {
      var m :| 0 <= m < |chunks| && chunks[m] == c;
      assert SomeCovers(chunks, a, c.At(a));
      assert SomeCovers(images, a, c.At(a));
      var k :| 0 <= k < |images| && images[k].Covers(a) && images[k].At(a) == c.At(a);
      ByteAfter(images, states, sizes, k, |images|, a);
      UnsharedIsUntouched(images, sizes, k, a);
    }
  }

  lemma UnsharedIsUntouched(images: seq<Block>, sizes: seq<nat>, k: nat, a: int)
    requires NoSharedSectors(sizes, images) && k < |images| && images[k].Covers(a)
    ensures !TouchedLater(images, sizes, k, |images|, a - WINDOW_START)
  {
    forall i, s | k < i < |images| && 0 <= s < |sizes| && InSector(sizes, s, a - WINDOW_START)
      ensures !Stm32Flash.Overlaps(sizes, s, At(images[i]), |images[i].data|)
    {
      assert Stm32Flash.Overlaps(sizes, s, At(images[k]), |images[k].data|);
      assert !SharedSector(sizes, images[k], images[i]);
    }
  }

  lemma SmallSectorsComeFirst(s: nat)
    requires 4 <= s < |Stm32Flash.F4_SECTORS|
    ensures StartOf(Stm32Flash.F4_SECTORS, s) >= 4 * THRESHOLD
  {
    assert StartOf(Stm32Flash.F4_SECTORS, 2) == 2 * THRESHOLD;
    if s > 4 {
      Stm32Flash.StartsAscend(Stm32Flash.F4_SECTORS, 4, s);
    }
  }

  /** Among the 16 KB sectors the merge threshold alone keeps images in different sectors: an image
      that ends within the first four sectors shares none with any later image. */
  lemma ThresholdSeparatesSmallSectors(images: seq<Block>, i: nat, j: nat)
    requires Separated(images) && i < j < |images| && images[i].End() <= WINDOW_START + 4 * THRESHOLD
    ensures !SharedSector(Stm32Flash.F4_SECTORS, images[i], images[j])
  {
    var sizes := Stm32Flash.F4_SECTORS;
    forall s | 4 <= s < |sizes| {
      SmallSectorsComeFirst(s);
    }
  }

  ghost function FlashImage(before: seq<Byte>, sizes: seq<nat>, b: Block): (after: seq<Byte>)
    ensures Stm32Flash.Flashed(before, after, sizes, At(b), |b.data|, b.data)
  {
    seq(|before|, i requires 0 <= i < |before| => Stm32Flash.FlashedByte(before, sizes, At(b), |b.data|, b.data, i))
  }

  lemma SixthSectorTouched(d: Block)
    requires d == Block(0x0802_5000, [0])
    ensures Stm32Flash.Touched(Stm32Flash.F4_SECTORS, At(d), |d.data|, 0x2_0000)
  {
    var sizes := Stm32Flash.F4_SECTORS;
    assert StartOf(sizes, 5) == 0x2_0000 by {
      assert StartOf(sizes, 3) == 0xc000;
    }
    assert Stm32Flash.Overlaps(sizes, 5, At(d), 1) && InSector(sizes, 5, 0x2_0000);
  }

  /** Flashing d loses c if d is flashed next and erases the sector of a programmed byte of c. */
  lemma NextImageErases(c: Block, d: Block, s0: seq<Byte>, s1: seq<Byte>, s2: seq<Byte>, sizes: seq<nat>, a: int)
    requires Separated([c, d]) && FlashedInOrder([c, d], [s0, s1, s2], sizes)
    requires c.Covers(a) && c.At(a) != 0xff && 0 <= a - WINDOW_START < |s0|
    requires Stm32Flash.Touched(sizes, At(d), |d.data|, a - WINDOW_START)
    ensures !Holds(s2, c)
  {
    var images := [c, d];
    assert images[0] == c && images[1] == d;
    assert TouchedLater(images, sizes, 0, 2, a - WINDOW_START);
    ByteAfter(images, [s0, s1, s2], sizes, 0, 2, a);
  }

  /** Elsewhere it does not: of two chunks in one 128 KB sector, too far apart to be merged, the first
      is lost. */
  lemma LargeSectorLosesChunk(before: seq<Byte>)
    requires |before| >= WINDOW_END - WINDOW_START
    ensures
      var c, d := Block(0x0802_0000, [0]), Block(0x0802_5000, [0]);
      var sizes := Stm32Flash.F4_SECTORS;
      Merged([c, d]) == [c, d] && !Holds(FlashImage(FlashImage(before, sizes, c), sizes, d), c)
  {
    var c, d := Block(0x0802_0000, [0]), Block(0x0802_5000, [0]);
    assert [c, d][..1] == [c] && [c][..0] == [];
    assert Merged([c]) == [c];
    LargeSectorErases(before, c, d);
  }

  lemma LargeSectorErases(before: seq<Byte>, c: Block, d: Block)
    requires |before| >= WINDOW_END - WINDOW_START
    requires c == Block(0x0802_0000, [0]) && d == Block(0x0802_5000, [0])
    ensures var sizes := Stm32Flash.F4_SECTORS;
      !Holds(FlashImage(FlashImage(before, sizes, c), sizes, d), c)
  {
    var sizes := Stm32Flash.F4_SECTORS;
    var next := FlashImage(before, sizes, c);
    SixthSectorTouched(d);
    NextImageErases(c, d, before, next, FlashImage(next, sizes, d), sizes, c.addr);
  }

  // ---------------------------------------------------------------- the transaction

  datatype Reply = Ok | E01

  /** What the client asks for before vFlashDone. */
  datatype Demand = EraseRange(addr: int, len: int) | WriteChunk(chunk: Block)

  /** Both are refused outside the window. */
  predicate Refused(d: Demand) {
    match d
    case EraseRange(addr, len) => addr < WINDOW_START || addr + len > WINDOW_END
    case WriteChunk(c) => !InWindow(c)
  }

  /** The chunks to be flashed after these demands. */
  function ChunksOf(ds: seq<Demand>): seq<Block> {
    if ds == [] then []
    else
      var last := ds[|ds| - 1];
      ChunksOf(ds[..|ds| - 1]) + if last.WriteChunk? && !Refused(last) then [last.chunk] else []
  }

  function WithoutErases(ds: seq<Demand>): seq<Demand> {
    if ds == [] then []
    else WithoutErases(ds[..|ds| - 1]) + if ds[|ds| - 1].WriteChunk? then [ds[|ds| - 1]] else []
  }

  lemma ChunksSnoc(ds: seq<Demand>, d: Demand)
    ensures ChunksOf(ds + [d]) == ChunksOf(ds) + if d.WriteChunk? && !Refused(d) then [d.chunk] else []
  {
    assert (ds + [d])[..|ds|] == ds;
  }

  /** What is flashed depends on the accepted chunks alone, not on the ranges that were announced for
      erasing, whether they were accepted or not. */
  lemma {:induction false} ErasesDoNotMatter(ds: seq<Demand>)
    ensures ChunksOf(ds) == ChunksOf(WithoutErases(ds))
    ensures forall c <- ChunksOf(ds) :: InWindow(c) && WriteChunk(c) in ds
  {
    if ds != [] {
      var init, last := ds[..|ds| - 1], ds[|ds| - 1];
      ErasesDoNotMatter(init);
      assert ds == init + [last];
      if last.WriteChunk? {
        ChunksSnoc(WithoutErases(init), last);
      } else {
        assert WithoutErases(ds) == WithoutErases(init);
      }
    }
  }

  /** So an announced range is erased only as far as an image touches its sectors: every other byte keeps
      its value through the whole transaction. */
  lemma {:induction false} UntouchedStays(images: seq<Block>, states: seq<seq<Byte>>, sizes: seq<nat>, j: nat, x: nat)
    requires FlashedInOrder(images, states, sizes) && j <= |images| && x < |states[0]|
    requires forall i :: 0 <= i < j ==>
      !Stm32Flash.Touched(sizes, At(images[i]), |images[i].data|, x) && !images[i].Covers(x + WINDOW_START)
    ensures |states[j]| == |states[0]| && states[j][x] == states[0][x]
  {
    if j > 0 {
      UntouchedStays(images, states, sizes, j - 1, x);
      assert !(At(images[j - 1]) <= x < At(images[j - 1]) + |images[j - 1].data|);
    }
  }

  class Transaction {
    const driver: Stm32Flash.Stm32FlashFS
    var flashChunks: seq<Block>
    var flashErased: seq<(int, int)>
    /** What was asked for since the last vFlashDone. */
    ghost var demands: seq<Demand>

    constructor (driver: Stm32Flash.Stm32FlashFS)
      ensures this.driver == driver && Valid() && demands == []
    {
      this.driver := driver;
      flashChunks, flashErased := [], [];
      demands := [];
    }

    ghost predicate Valid()
      reads this
    {
      flashChunks == ChunksOf(demands)
    }

    /** Erase requests are checked and remembered, but nothing is erased yet. */
    method VFlashErase(addr: int, len: int) returns (reply: Reply)
      requires Valid()
      modifies this`flashErased, this`demands
      ensures Valid() && demands == old(demands) + [EraseRange(addr, len)]
      ensures reply == E01 <==> addr < 0x0800_0000 || addr + len > 0x0810_0000
      ensures flashErased == if reply == Ok then old(flashErased) + [(addr, len)] else old(flashErased)
    {
      ChunksSnoc(demands, EraseRange(addr, len));
      demands := demands + [EraseRange(addr, len)];
      if addr < WINDOW_START || addr + len > WINDOW_END {
        return E01;
      }
      flashErased := flashErased + [(addr, len)];
      reply := Ok;
    }

    method VFlashWrite(addr: int, data: seq<Byte>) returns (reply: Reply)
      requires Valid()
      modifies this`flashChunks, this`demands
      ensures Valid() && demands == old(demands) + [WriteChunk(Block(addr, data))]
      ensures reply == E01 <==> addr < 0x0800_0000 || addr + |data| > 0x0810_0000
      ensures flashChunks == if reply == Ok then old(flashChunks) + [Block(addr, data)] else old(flashChunks)
    {
      ChunksSnoc(demands, WriteChunk(Block(addr, data)));
      demands := demands + [WriteChunk(Block(addr, data))];
      if addr < WINDOW_START || addr + |data| > WINDOW_END {
        return E01;
      }
      flashChunks := flashChunks + [Block(addr, data)];
      reply := Ok;
    }

    static method Merge(chunks: seq<Block>) returns (images: seq<Block>)
      ensures images == Merged(chunks)
    {
      images := [];
      for j := 0 to |chunks|
        invariant images == Merged(chunks[..j])
      {
        var c := chunks[j];
        if |images| > 0 && c.addr >= images[|images| - 1].End() && c.addr - images[|images| - 1].End() < THRESHOLD {
          var cur := images[|images| - 1];
          var parts := cur.data;
          if c.addr > cur.End() {
            parts := parts + Blank(c.addr - cur.End());
          }
          assert parts == cur.data + Blank(c.addr - cur.End());
          images := images[|images| - 1 := Block(cur.addr, parts + c.data)];
        } else {
          images := images + [c];
        }
        assert chunks[..j + 1][..j] == chunks[..j];
      }
      assert chunks[..|chunks|] == chunks;
    }

    /** Flash one image and read it back. */
    method FlashVerified(image: Block, voltage: Stm32Flash.Voltage) returns (ok: bool)
      requires FlashReady(driver.core.sizes, driver.core.State())
      modifies driver.core
      ensures FlashReady(driver.core.sizes, driver.core.State())
      ensures Stm32Flash.Confined(old(driver.core.flash), driver.core.flash, driver.core.sizes, At(image), |image.data|)
      ensures ok ==> Stm32Flash.Flashable(image.addr, image.data)
      ensures ok ==> Stm32Flash.Flashed(old(driver.core.flash), driver.core.flash, driver.core.sizes, At(image),
                                        |image.data|, image.data)
      ensures voltage.Unknown? || voltage.v <= 2.7 ==> !ok && driver.core.State() == old(driver.core.State())
      ensures driver.core.reliable && old(driver.core.keyStage) == 0 ==> driver.core.keyStage == 0
      ensures driver.core.reliable && old(driver.core.keyStage) == 0 && voltage.Volts? && voltage.v > 2.7 ==>
        (Stm32Flash.Flashable(image.addr, image.data) ==> ok)
    {
      var r;
      ghost var ss, run;
      r, ss, run := driver.Flash(image.addr, image.data, voltage, true);
      ok := r.Done?;
    }

    /** Flash image by image up to the first failure. */
    method FlashImages(images: seq<Block>, voltage: Stm32Flash.Voltage)
      returns (reply: Reply, ghost states: seq<seq<Byte>>)
      requires FlashReady(driver.core.sizes, driver.core.State())
      modifies driver.core
      ensures FlashReady(driver.core.sizes, driver.core.State())
      ensures Stm32Flash.SameBeyondBank(old(driver.core.flash), driver.core.flash, driver.core.sizes)
      ensures reply == Ok ==> FlashedFromTo(images, states, driver.core.sizes, old(driver.core.flash),
        driver.core.flash)
      ensures reply == E01 ==> StoppedAt(images, states, driver.core.sizes, old(driver.core.flash), driver.core.flash)
      ensures images == [] ==> reply == Ok && driver.core.State() == old(driver.core.State())
      ensures images != [] && (voltage.Unknown? || voltage.v <= 2.7) ==>
        reply == E01 && driver.core.State() == old(driver.core.State())
      ensures driver.core.reliable && old(driver.core.keyStage) == 0 && voltage.Volts? && voltage.v > 2.7 ==>
        (reply == Ok <==> AllFlashable(images))
    {
      states := [driver.core.flash];
      for k := 0 to |images|
        invariant FlashReady(driver.core.sizes, driver.core.State())
        invariant k == 0 ==> driver.core.State() == old(driver.core.State())
        invariant driver.core.reliable && old(driver.core.keyStage) == 0 ==> driver.core.keyStage == 0
        invariant k > 0 ==> voltage.Volts? && voltage.v > 2.7
        invariant AllFlashable(images[..k])
        invariant Stm32Flash.SameBeyondBank(old(driver.core.flash), driver.core.flash, driver.core.sizes)
        invariant FlashedFromTo(images[..k], states, driver.core.sizes, old(driver.core.flash), driver.core.flash)
      {
        ghost var before := driver.core.flash;
        var ok := FlashVerified(images[k], voltage);
        Stm32Flash.BankTwoUntouched(before, driver.core.flash, driver.core.sizes, At(images[k]), |images[k].data|);
        if !ok {
          StoppedHere(images, k, states, driver.core.sizes, old(driver.core.flash), before, driver.core.flash);
          return E01, states;
        }
        FlashedOneMore(images, k, states, driver.core.sizes, old(driver.core.flash), before, driver.core.flash);
        states := states + [driver.core.flash];
      }
      assert images[..|images|] == images;
      reply := Ok;
    }

    /** Sort, merge, and flash the images. Bank 2 is never touched. If all chunks are disjoint and
        non-empty, no two images share a sector and the reply is OK, every chunk is in the flash. Without
        an accepted chunk the reply is OK and nothing happens; if nothing else goes wrong, it is OK exactly if
        every image is word-aligned and has contents; and behind an error, the images up to some k are
        flashed in order and nothing else has changed but sectors of image k. */
    method FlashDone(voltage: Stm32Flash.Voltage) returns (reply: Reply, ghost states: seq<seq<Byte>>)
      requires Valid() && FlashReady(driver.core.sizes, driver.core.State())
      modifies this, driver.core
      ensures Valid() && demands == [] && flashErased == []
      ensures Stm32Flash.SameBeyondBank(old(driver.core.flash), driver.core.flash, driver.core.sizes)
      ensures reply == Ok ==> FlashedFromTo(Merged(SortByAddr(ChunksOf(old(demands)))), states, driver.core.sizes,
                                            old(driver.core.flash), driver.core.flash)
      ensures var chunks := ChunksOf(old(demands));
        reply == Ok && Disjoint(chunks) && NoSharedSectors(driver.core.sizes, Merged(SortByAddr(chunks))) ==>
          forall c <- chunks :: Holds(driver.core.flash, c)
      ensures ChunksOf(old(demands)) == [] ==> reply == Ok && driver.core.State() == old(driver.core.State())
      ensures reply == E01 ==> StoppedAt(Merged(SortByAddr(ChunksOf(old(demands)))), states, driver.core.sizes,
                                         old(driver.core.flash), driver.core.flash)
      ensures ChunksOf(old(demands)) != [] && (voltage.Unknown? || voltage.v <= 2.7) ==>
        reply == E01 && driver.core.State() == old(driver.core.State())
      ensures driver.core.reliable && old(driver.core.keyStage) == 0 && voltage.Volts? && voltage.v > 2.7 ==>
        (reply == Ok <==> forall image <- Merged(SortByAddr(ChunksOf(old(demands)))) ::
          image.addr % 4 == 0 && image.data != [])
    {
      var chunks := SortByAddr(flashChunks);
      ghost var accepted := flashChunks;
      ErasesDoNotMatter(demands);
      flashChunks, flashErased := [], [];
      demands := [];
      states := [driver.core.flash];
      SortKeepsMembers(accepted);
      if |chunks| == 0 {
        return Ok, states;
      }
      var images := Merge(chunks);
      MergedInWindow(chunks);
      reply, states := FlashImages(images, voltage);
      if reply == Ok && Disjoint(accepted) && NoSharedSectors(driver.core.sizes, images) {
        AcceptedInFlash(accepted, states, driver.core.sizes);
      }
    }
  }

  /** The chunks, in whatever order they were accepted. */
  lemma AcceptedInFlash(chunks: seq<Block>, states: seq<seq<Byte>>, sizes: seq<nat>)
    requires Disjoint(chunks) && (forall c <- chunks :: InWindow(c))
    requires FlashedInOrder(Merged(SortByAddr(chunks)), states, sizes)
    requires NoSharedSectors(sizes, Merged(SortByAddr(chunks)))
    requires |states[0]| >= WINDOW_END - WINDOW_START
    ensures forall c <- chunks :: Holds(states[|Merged(SortByAddr(chunks))|], c)
  {
    SortKeepsMembers(chunks);
    SortedDisjointAscends(chunks);
    ChunksInFlash(SortByAddr(chunks), states, sizes);
  }

  ghost predicate FlashReady(sizes: seq<nat>, c: Chip) {
    Stm32Flash.Ready(sizes, c) && StartOf(sizes, |sizes|) == WINDOW_END - WINDOW_START
  }

  ghost predicate FlashedFromTo(images: seq<Block>, states: seq<seq<Byte>>, sizes: seq<nat>, before: seq<Byte>,
    after: seq<Byte>) {
    FlashedInOrder(images, states, sizes) && states[0] == before && states[|images|] == after
  }

  /** The flash after the images up to image k, in order, and after an attempt at image k. */
  ghost predicate StoppedAt(images: seq<Block>, states: seq<seq<Byte>>, sizes: seq<nat>, before: seq<Byte>,
    after: seq<Byte>) {
    && 0 < |states| <= |images|
    && var k := |states| - 1;
       && FlashedFromTo(images[..k], states, sizes, before, states[k])
       && Stm32Flash.Confined(states[k], after, sizes, At(images[k]), |images[k].data|)
  }

  lemma StoppedHere(images: seq<Block>, k: nat, states: seq<seq<Byte>>, sizes: seq<nat>, first: seq<Byte>,
    before: seq<Byte>, after: seq<Byte>)
    requires k < |images| && FlashedFromTo(images[..k], states, sizes, first, before)
    requires Stm32Flash.Confined(before, after, sizes, At(images[k]), |images[k].data|)
    ensures StoppedAt(images, states, sizes, first, after)
    ensures AllFlashable(images) ==> Stm32Flash.Flashable(images[k].addr, images[k].data)
  {
    assert images[k] in images;
  }

  predicate AllFlashable(images: seq<Block>) {
    forall image <- images :: Stm32Flash.Flashable(image.addr, image.data)
  }

  lemma FlashedOneMore(images: seq<Block>, k: nat, states: seq<seq<Byte>>, sizes: seq<nat>, first: seq<Byte>,
    before: seq<Byte>, after: seq<Byte>)
    requires k < |images| && FlashedFromTo(images[..k], states, sizes, first, before)
    requires Stm32Flash.Flashed(before, after, sizes, At(images[k]), |images[k].data|, images[k].data)
    ensures FlashedFromTo(images[..k + 1], states + [after], sizes, first, after)
    ensures AllFlashable(images[..k]) && Stm32Flash.Flashable(images[k].addr, images[k].data) ==>
      AllFlashable(images[..k + 1])
  {
    assert forall i :: 0 <= i < k ==> images[..k + 1][i] == images[..k][i];
  }
}
