/** The flash image of an ELF32 file: the file contents of its loadable segments, placed at their
    physical addresses. */
module Elf {
  import opened Wrappers
  import opened Blocks

  datatype Error = NotElf | NotElf32 | OutOfRange | NoSegments
  datatype Result = Ok(image: Block) | Failed(error: Error)

  // ---------------------------------------------------------------- headers

  /** Unsigned integers of two and four bytes in the byte order of the file. */
  function Half(buf: seq<Byte>, at: nat): nat
    requires at + 2 <= |buf|
  {
    if LittleEndian(buf) then buf[at + 1] as int * 256 + buf[at] as int else buf[at] as int * 256 + buf[at + 1] as int
  }

  function Word(buf: seq<Byte>, at: nat): nat
    requires at + 4 <= |buf|
  {
    if LittleEndian(buf) then Half(buf, at + 2) * 65536 + Half(buf, at) else Half(buf, at) * 65536 + Half(buf, at + 2)
  }

  predicate LittleEndian(buf: seq<Byte>) {
    |buf| > 5 && buf[5] == 1
  }

  predicate IsElf(buf: seq<Byte>) {
    |buf| >= 52 && buf[0] == 0x7f && buf[1] == 0x45 && buf[2] == 0x4c && buf[3] == 0x46
  }

  predicate IsElf32(buf: seq<Byte>) {
    IsElf(buf) && buf[4] == 1
  }

  datatype Header = Unreadable | Skipped | Load(segment: Block)

  /** The part of the file from `offset` to `offset + size`, as far as the file goes. */
  function Part(buf: seq<Byte>, offset: nat, size: nat): seq<Byte> {
    var from := if offset < |buf| then offset else |buf|;
    var to := if offset + size < |buf| then offset + size else |buf|;
    buf[from..to]
  }

  /** Only loadable segments with file contents are used. */
  function Meaning(buf: seq<Byte>, kind: nat, offset: nat, paddr: nat, filesz: nat): Header {
    if kind != 1 || filesz == 0 then Skipped else Load(Block(paddr, Part(buf, offset, filesz)))
  }

  /** The program header at o. The fields behind the first are only read if they are needed. */
  function ParseHeader(buf: seq<Byte>, o: nat): Header {
    if o + 4 > |buf| then Unreadable
    else if Word(buf, o) != 1 then Skipped
    else if o + 20 > |buf| then Unreadable
    else Meaning(buf, 1, Word(buf, o + 4), Word(buf, o + 12), Word(buf, o + 16))
  }

  function HeaderOffset(table: nat, entry: nat, i: nat): nat {
    table + i * entry
  }

  function HeaderAt(buf: seq<Byte>, i: nat): Header
    requires IsElf32(buf)
  {
    ParseHeader(buf, HeaderOffset(Word(buf, 28), Half(buf, 42), i))
  }

  function HeaderCount(buf: seq<Byte>): nat
    requires IsElf32(buf)
  {
    Half(buf, 44)
  }

  // ---------------------------------------------------------------- what the headers of a file say

  /** The least significant byte comes first in a little-endian file, and last in any other. */
  predicate WritesHalf(bytes: seq<Byte>, little: bool, n: nat) {
    |bytes| == 2 && n == if little then bytes[0] as int + 256 * bytes[1] as int
                         else 256 * bytes[0] as int + bytes[1] as int
  }

  predicate WritesWord(bytes: seq<Byte>, little: bool, n: nat) {
    |bytes| == 4 && n ==
      if little then
        bytes[0] as int + 256 * bytes[1] as int + 65536 * bytes[2] as int + 16777216 * bytes[3] as int
      else
        16777216 * bytes[0] as int + 65536 * bytes[1] as int + 256 * bytes[2] as int + bytes[3] as int
  }

  lemma HalfReads(buf: seq<Byte>, at: nat, n: nat)
    requires at + 2 <= |buf| && WritesHalf(buf[at..at + 2], LittleEndian(buf), n)
    ensures Half(buf, at) == n
  {}

  lemma WordReads(buf: seq<Byte>, at: nat, n: nat)
    requires at + 4 <= |buf| && WritesWord(buf[at..at + 4], LittleEndian(buf), n)
    ensures Word(buf, at) == n
  {}

  /** The first five fields of a program header. */
  datatype ProgramHeader = ProgramHeader(kind: nat, offset: nat, vaddr: nat, paddr: nat, filesz: nat)

  /** The header lies at o in the file. */
  predicate HasHeader(buf: seq<Byte>, o: nat, h: ProgramHeader)
    requires o + 20 <= |buf|
  {
    var little := LittleEndian(buf);
    && WritesWord(buf[o..o + 4], little, h.kind)
    && WritesWord(buf[o + 4..o + 8], little, h.offset)
    && WritesWord(buf[o + 8..o + 12], little, h.vaddr)
    && WritesWord(buf[o + 12..o + 16], little, h.paddr)
    && WritesWord(buf[o + 16..o + 20], little, h.filesz)
  }

  lemma HeaderReads(buf: seq<Byte>, o: nat, h: ProgramHeader)
    requires o + 20 <= |buf| && HasHeader(buf, o, h)
    ensures Word(buf, o) == h.kind && Word(buf, o + 4) == h.offset && Word(buf, o + 12) == h.paddr
    ensures Word(buf, o + 16) == h.filesz
  {
    WordReads(buf, o, h.kind);
    WordReads(buf, o + 4, h.offset);
    WordReads(buf, o + 12, h.paddr);
    WordReads(buf, o + 16, h.filesz);
  }

  /** What a program header means: a loadable segment with contents lies at its physical address and
      consists of the bytes of the file at its offset. */
  ghost predicate Means(buf: seq<Byte>, h: ProgramHeader, header: Header) {
    && (h.kind != 1 || h.filesz == 0 <==> header == Skipped)
    && (h.kind == 1 && h.filesz > 0 && h.offset + h.filesz <= |buf| ==>
      header == Load(Block(h.paddr, buf[h.offset..h.offset + h.filesz])))
    && (h.kind == 1 && h.filesz > 0 && h.offset <= |buf| <= h.offset + h.filesz ==>
      header == Load(Block(h.paddr, buf[h.offset..])))
  }

  lemma FieldsMean(buf: seq<Byte>, h: ProgramHeader)
    ensures Means(buf, h, Meaning(buf, h.kind, h.offset, h.paddr, h.filesz))
  {}

  lemma HeaderMeans(buf: seq<Byte>, o: nat, h: ProgramHeader)
    requires o + 20 <= |buf| && HasHeader(buf, o, h)
    ensures Means(buf, h, ParseHeader(buf, o))
  {
    HeaderReads(buf, o, h);
    FieldsMean(buf, h);
    assert ParseHeader(buf, o) == Meaning(buf, h.kind, h.offset, h.paddr, h.filesz);
  }

  /** The fields of the file header for the table of program headers. */
  predicate HasTable(buf: seq<Byte>, table: nat, entry: nat, count: nat)
    requires |buf| >= 52
  {
    var little := LittleEndian(buf);
    WritesWord(buf[28..32], little, table) && WritesHalf(buf[42..44], little, entry) &&
    WritesHalf(buf[44..46], little, count)
  }

  /** The program headers lie one behind the other. */
  lemma HeadersFollow(table: nat, entry: nat, i: nat)
    ensures HeaderOffset(table, entry, 0) == table
    ensures HeaderOffset(table, entry, i + 1) == HeaderOffset(table, entry, i) + entry
  {}

  /** They say where the program headers begin, how long each is and how many there are. */
  lemma TableMeans(buf: seq<Byte>, table: nat, entry: nat, count: nat, i: nat)
    requires IsElf32(buf) && HasTable(buf, table, entry, count)
    ensures HeaderCount(buf) == count && HeaderAt(buf, i) == ParseHeader(buf, HeaderOffset(table, entry, i))
  {
    WordReads(buf, 28, table);
    HalfReads(buf, 42, entry);
    HalfReads(buf, 44, count);
  }

  // ---------------------------------------------------------------- all headers

  ghost predicate AllReadable(buf: seq<Byte>, n: nat)
    requires IsElf32(buf)
  {
    forall i :: 0 <= i < n ==> HeaderAt(buf, i) != Unreadable
  }

  function Collect(segments: seq<Block>, header: Header): seq<Block> {
    if header.Load? then segments + [header.segment] else segments
  }

  /** The segments of the first n headers. */
  function Segments(buf: seq<Byte>, n: nat): seq<Block>
    requires IsElf32(buf)
  {
    if n == 0 then [] else Collect(Segments(buf, n - 1), HeaderAt(buf, n - 1))
  }

  // ---------------------------------------------------------------- which segment a byte comes from

  /** The byte at a after copying the blocks one after the other over 0xff. */
  function LastCopied(bs: seq<Block>, a: int): Byte {
    if bs == [] then 0xff
    else if bs[|bs| - 1].Covers(a) then bs[|bs| - 1].At(a)
    else LastCopied(bs[..|bs| - 1], a)
  }

  /** Segment i is the last one over a: it has the greatest address of all segments that cover a, and
      among several at that address it comes last in the file. */
  ghost predicate LastOver(bs: seq<Block>, i: int, a: int) {
    && 0 <= i < |bs|
    && bs[i].Covers(a)
    && (forall j :: 0 <= j < |bs| && bs[j].Covers(a) ==>
      bs[j].addr < bs[i].addr || (bs[j].addr == bs[i].addr && j <= i))
  }

  ghost predicate NoneOver(bs: seq<Block>, a: int) {
    forall j :: 0 <= j < |bs| ==> !bs[j].Covers(a)
  }

  lemma {:induction false} InsertedLast(bs: seq<Block>, b: Block, a: int)
    requires b.Covers(a)
    requires forall j :: 0 <= j < |bs| && bs[j].Covers(a) ==> bs[j].addr <= b.addr
    ensures LastCopied(Insert(bs, b), a) == b.At(a)
  {
    if bs != [] && bs[|bs| - 1].addr > b.addr {
      InsertedLast(bs[..|bs| - 1], b, a);
      assert (Insert(bs[..|bs| - 1], b) + [bs[|bs| - 1]])[..|Insert(bs[..|bs| - 1], b)|] == Insert(bs[..|bs| - 1], b);
    }
  }

  lemma {:induction false} InsertedBelow(bs: seq<Block>, b: Block, a: int)
    requires Sorted(bs)
    requires !b.Covers(a) || exists j :: 0 <= j < |bs| && bs[j].Covers(a) && bs[j].addr > b.addr
    ensures LastCopied(Insert(bs, b), a) == LastCopied(bs, a)
  {
    if bs != [] && bs[|bs| - 1].addr > b.addr {
      var init, last := bs[..|bs| - 1], bs[|bs| - 1];
      assert (Insert(init, b) + [last])[..|Insert(init, b)|] == Insert(init, b);
      if !last.Covers(a) {
        InsertedBelow(init, b, a);
      }
    } else {
      assert (bs + [b])[..|bs|] == bs;
    }
  }

  /** Copying the segments in stable address order leaves at every address the byte of the segment that
      is the last one over it. */
  lemma {:induction false} CopiesInAddressOrder(bs: seq<Block>, i: nat, a: int)
    requires LastOver(bs, i, a)
    ensures LastCopied(SortByAddr(bs), a) == bs[i].At(a)
  {
    var init, last := bs[..|bs| - 1], bs[|bs| - 1];
    if i == |init| {
      LastInFile(init, last, a);
    } else {
      CopiesInAddressOrder(init, i, a);
      SortCorrect(init);
      SortKeepsMembers(init);
      assert init[i] in SortByAddr(init);
      InsertedBelow(SortByAddr(init), last, a);
    }
  }

  lemma LastInFile(init: seq<Block>, last: Block, a: int)
    requires last.Covers(a) && forall j :: 0 <= j < |init| && init[j].Covers(a) ==> init[j].addr <= last.addr
    ensures LastCopied(Insert(SortByAddr(init), last), a) == last.At(a)
  {
    SortKeepsMembers(init);
    assert forall j :: 0 <= j < |SortByAddr(init)| ==> SortByAddr(init)[j] in init;
    InsertedLast(SortByAddr(init), last, a);
  }

  lemma {:induction false} UncoveredStaysErased(bs: seq<Block>, a: int)
    requires NoneOver(bs, a)
    ensures LastCopied(bs, a) == 0xff && LastCopied(SortByAddr(bs), a) == 0xff
  {
    SortKeepsMembers(bs);
    LastCopiedNone(bs, a);
    LastCopiedNone(SortByAddr(bs), a);
  }

  lemma {:induction false} LastCopiedNone(bs: seq<Block>, a: int)
    requires forall b :: b in bs ==> !b.Covers(a)
    ensures LastCopied(bs, a) == 0xff
  {
    if bs != [] {
      LastCopiedNone(bs[..|bs| - 1], a);
    }
  }

  /** Some segment is the last one over every address that is covered at all. */
  lemma {:induction false} LastOverExists(bs: seq<Block>, a: int)
    ensures NoneOver(bs, a) || exists i :: LastOver(bs, i, a)
  {
    if bs != [] {
      var init, last := bs[..|bs| - 1], bs[|bs| - 1];
      LastOverExists(init, a);
      if NoneOver(init, a) {
        assert last.Covers(a) ==> LastOver(bs, |init|, a);
      } else {
        var i :| LastOver(init, i, a);
        if last.Covers(a) && init[i].addr <= last.addr {
          assert LastOver(bs, |init|, a);
        } else {
          assert LastOver(bs, i, a);
        }
      }
    }
  }

  // ---------------------------------------------------------------- the image

  /** The image reaches from the lowest to the highest address of any segment, and every byte is that
      of the last segment over it, or 0xff. */
  ghost predicate IsImageOf(image: Block, segments: seq<Block>) {
    && (forall s :: s in segments ==> image.addr <= s.addr && s.End() <= image.End())
    && (exists s :: s in segments && s.addr == image.addr)
    && (exists s :: s in segments && s.End() == image.End())
    && (forall a :: image.Covers(a) && NoneOver(segments, a) ==> image.At(a) == 0xff)
    && (forall a, i :: image.Covers(a) && LastOver(segments, i, a) ==> image.At(a) == segments[i].At(a))
  }

  lemma SameByte(x: Block, y: Block, segments: seq<Block>, a: int)
    requires IsImageOf(x, segments) && IsImageOf(y, segments) && x.Covers(a) && y.Covers(a)
    ensures x.At(a) == y.At(a)
  {
    LastOverExists(segments, a);
    if !NoneOver(segments, a) {
      var i :| LastOver(segments, i, a);
    }
  }

  /** There is only one such image. */
  lemma ImageIsUnique(x: Block, y: Block, segments: seq<Block>)
    requires IsImageOf(x, segments) && IsImageOf(y, segments)
    ensures x == y
  {
    assert x.addr == y.addr && |x.data| == |y.data|;
    forall k | 0 <= k < |x.data|
      ensures x.data[k] == y.data[k]
    {
      SameByte(x, y, segments, x.addr + k);
    }
  }

  lemma CopiesAreTheImage(image: Block, segments: seq<Block>)
    requires forall s :: s in segments ==> image.addr <= s.addr && s.End() <= image.End()
    requires exists s :: s in segments && s.addr == image.addr
    requires exists s :: s in segments && s.End() == image.End()
    requires forall a :: image.Covers(a) ==> image.At(a) == LastCopied(SortByAddr(segments), a)
    ensures IsImageOf(image, segments)
  {
    forall a | image.Covers(a) && NoneOver(segments, a)
      ensures image.At(a) == 0xff
    {
      UncoveredStaysErased(segments, a);
    }
    forall a, i | image.Covers(a) && LastOver(segments, i, a)
      ensures image.At(a) == segments[i].At(a)
    {
      CopiesInAddressOrder(segments, i, a);
    }
  }

  // ---------------------------------------------------------------- the loops

  lemma OneMoreHeader(buf: seq<Byte>, i: nat)
    requires IsElf32(buf)
    ensures Segments(buf, i + 1) == Collect(Segments(buf, i), HeaderAt(buf, i))
    ensures AllReadable(buf, i + 1) <==> AllReadable(buf, i) && HeaderAt(buf, i) != Unreadable
  {}

  method ReadSegments(buf: seq<Byte>) returns (readable: bool, segments: seq<Block>)
    requires IsElf32(buf)
    ensures readable <==> AllReadable(buf, HeaderCount(buf))
    ensures readable ==> segments == Segments(buf, HeaderCount(buf))
  {
    segments := [];
    var i, count := 0, HeaderCount(buf);
    while i < count
      invariant i <= count && segments == Segments(buf, i)
      invariant AllReadable(buf, i)
    {
      var header := HeaderAt(buf, i);
      if header == Unreadable {
        return false, segments;
      }
      OneMoreHeader(buf, i);
      segments := Collect(segments, header);
      i := i + 1;
    }
    readable := true;
  }

  /** Copies as much as the target has room for. */
  method Copy(data: seq<Byte>, image: array<Byte>, at: nat)
    modifies image
    ensures forall k :: 0 <= k < image.Length ==>
      image[k] == if at <= k < at + |data| then data[k - at] else old(image[k])
  {
    var n := if at + |data| <= image.Length then |data| else if at < image.Length then image.Length - at else 0;
    forall k | 0 <= k < n {
      image[at + k] := data[k];
    }
  }

  /** The end of the last byte of any segment. */
  method GreatestEnd(segments: seq<Block>) returns (end: int)
    requires segments != []
    ensures forall s :: s in segments ==> s.End() <= end
    ensures segments[0].addr == end || exists s :: s in segments && s.End() == end
    ensures segments[0].addr <= end
  {
    end := segments[0].addr;
    for i := 0 to |segments|
      invariant forall k :: 0 <= k < i ==> segments[k].End() <= end
      invariant segments[0].addr == end || exists s :: s in segments && s.End() == end
      invariant segments[0].addr <= end
    {
      if segments[i].End() > end {
        end := segments[i].End();
      }
    }
  }

  /** Every copy fits: the image was made from the lowest address to the highest end. */
  method Place(segments: seq<Block>, start: int, end: int) returns (image: Block)
    requires forall s :: s in segments ==> start <= s.addr && s.End() <= end
    requires start <= end
    ensures image.addr == start && image.End() == end
    ensures forall a :: image.Covers(a) ==> image.At(a) == LastCopied(segments, a)
  {
    var bytes := new Byte[end - start](_ => 0xff);
    for i := 0 to |segments|
      invariant forall k :: 0 <= k < bytes.Length ==> bytes[k] == LastCopied(segments[..i], start + k)
    {
      assert segments[..i + 1][..i] == segments[..i];
      assert segments[i].addr - start + |segments[i].data| <= bytes.Length;
      Copy(segments[i].data, bytes, segments[i].addr - start);
    }
    assert segments[..|segments|] == segments;
    image := Block(start, bytes[..]);
  }

  method ElfToImage(buf: seq<Byte>) returns (r: Result)
    ensures r == Failed(NotElf) <==> |buf| < 52 || buf[..4] != [0x7f, 0x45, 0x4c, 0x46]
    ensures r == Failed(NotElf32) <==> |buf| >= 52 && buf[..4] == [0x7f, 0x45, 0x4c, 0x46] && buf[4] != 1
    ensures r == Failed(OutOfRange) <==> IsElf32(buf) && !AllReadable(buf, HeaderCount(buf))
    ensures r == Failed(NoSegments) <==>
      IsElf32(buf) && AllReadable(buf, HeaderCount(buf)) && Segments(buf, HeaderCount(buf)) == []
    ensures r.Ok? ==> IsElf32(buf) && IsImageOf(r.image, Segments(buf, HeaderCount(buf)))
  {
    if !IsElf(buf) {
      return Failed(NotElf);
    }
    if buf[4] != 1 {
      return Failed(NotElf32);
    }
    var readable, segments := ReadSegments(buf);
    if !readable {
      return Failed(OutOfRange);
    }
    if |segments| == 0 {
      return Failed(NoSegments);
    }
    var sorted := SortByAddr(segments);
    SortCorrect(segments);
    SortKeepsMembers(segments);
    var start := sorted[0].addr;
    var end := GreatestEnd(sorted);
    var image := Place(sorted, start, end);
    assert sorted[0] in segments && forall s :: s in segments ==> start <= s.addr by {
      assert forall s :: s in segments ==> s in sorted;
    }
    assert sorted[0].End() == end || exists s :: s in segments && s.End() == end;
    CopiesAreTheImage(image, segments);
    return Ok(image);
  }
}
