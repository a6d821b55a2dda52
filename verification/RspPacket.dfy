/** Framing of the GDB Remote Serial Protocol: the incremental parser and the encoder. */
module RspPacket {
  import opened Wrappers

  datatype Item = Packet(payload: seq<Octet>, checksumOk: bool) | Ack | Nack | Interrupt

  datatype Mode = Idle | Payload | Csum1 | Csum2

  datatype Parser = Parser(mode: Mode, buf: seq<Octet>, sum: Octet, csum: seq<Octet>)

  const NEW := Parser(Idle, [], 0, [])

  // ---------------------------------------------------------------- checksum text

  function HexDigit(d: int): Octet
    requires 0 <= d < 16
  {
    if d < 10 then 0x30 + d else 0x57 + d
  }

  function HexValue(c: Octet): Option<int> {
    if 0x30 <= c <= 0x39 then Some(c - 0x30)
    else if 0x61 <= c <= 0x66 then Some(c - 0x57)
    else if 0x41 <= c <= 0x46 then Some(c - 0x37)
    else None
  }

  predicate IsSpace(c: Octet) {
    0x09 <= c <= 0x0d || c == 0x20 || c == 0xa0
  }

  /** JavaScript's parseInt of two characters, base 16: it skips a leading space, takes a sign or a 0x
      prefix, and stops at the first character that is no digit. None stands for NaN. */
  function ParseHex2(c1: Octet, c2: Octet): Option<int> {
    if IsSpace(c1) then HexValue(c2)
    else if c1 == 0x2b then HexValue(c2)
    else if c1 == 0x2d then (match HexValue(c2) case None => None case Some(d) => Some(-d))
    else if c1 == 0x30 && (c2 == 0x78 || c2 == 0x58) then None
    else match HexValue(c1)
      case None => None
      case Some(d1) => match HexValue(c2) case None => Some(d1) case Some(d2) => Some(16 * d1 + d2)
  }

  function ChecksumText(sum: Octet): seq<Octet> {
    [HexDigit(sum / 16), HexDigit(sum % 16)]
  }

  // ---------------------------------------------------------------- escaping

  /** b ^ 0x20. */
  function Flip(b: Octet): Octet {
    if b / 32 % 2 == 1 then b - 32 else b + 32
  }

  predicate NeedsEscape(b: Octet) {
    b == 0x23 || b == 0x24 || b == 0x7d || b == 0x2a
  }

  function Escaped(b: Octet): seq<Octet> {
    if NeedsEscape(b) then [0x7d, Flip(b)] else [b]
  }

  function Body(payload: seq<Octet>): seq<Octet> {
    if payload == [] then [] else Body(payload[..|payload| - 1]) + Escaped(payload[|payload| - 1])
  }

  function Sum(bytes: seq<Octet>): Octet {
    if bytes == [] then 0 else (Sum(bytes[..|bytes| - 1]) + bytes[|bytes| - 1]) % 256
  }

  function Encode(payload: seq<Octet>): seq<Octet> {
    [0x24] + Body(payload) + [0x23] + ChecksumText(Sum(Body(payload)))
  }

  function Repeat(b: Octet, n: int): seq<Octet> {
    if n <= 0 then [] else [b] + Repeat(b, n - 1)
  }

  /** Undo escapes and run lengths; `out` is what has been produced so far. */
  function UnescapeFrom(bytes: seq<Octet>, out: seq<Octet>): seq<Octet> {
    if bytes == [] then out
    else if bytes[0] == 0x7d && |bytes| > 1 then UnescapeFrom(bytes[2..], out + [Flip(bytes[1])])
    else if bytes[0] == 0x2a && out != [] && |bytes| > 1 then
      UnescapeFrom(bytes[2..], out + Repeat(out[|out| - 1], bytes[1] as int - 29))
    else UnescapeFrom(bytes[1..], out + [bytes[0]])
  }

  function Unescape(bytes: seq<Octet>): seq<Octet> {
    UnescapeFrom(bytes, [])
  }

  // ---------------------------------------------------------------- parsing

  /** A parser state and the items produced on the way to it. */
  datatype Fed = Fed(parser: Parser, items: seq<Item>)

  function After(items: seq<Item>, f: Fed): Fed {
    Fed(f.parser, items + f.items)
  }

  function StepByte(p: Parser, b: Octet): Fed {
    match p.mode
    case Idle =>
      if b == 0x24 then Fed(p.(mode := Payload, buf := [], sum := 0), [])
      else if b == 0x2b then Fed(p, [Ack])
      else if b == 0x2d then Fed(p, [Nack])
      else if b == 0x03 then Fed(p, [Interrupt])
      else Fed(p, [])
    case Payload =>
      if b == 0x23 then Fed(p.(mode := Csum1, csum := []), [])
      else Fed(p.(buf := p.buf + [b], sum := (p.sum + b) % 256), [])
    case Csum1 => Fed(p.(mode := Csum2, csum := [b]), [])
    case Csum2 =>
      var csum := p.csum + [b];
      Fed(p.(mode := Idle, csum := csum), [Packet(Unescape(p.buf), Matches(csum, p.sum))])
  }

  predicate Matches(csum: seq<Octet>, sum: Octet) {
    |csum| == 2 && ParseHex2(csum[0], csum[1]) == Some(sum)
  }

  function FeedAll(p: Parser, bytes: seq<Octet>): Fed
    decreases |bytes|
  {
    if bytes == [] then Fed(p, [])
    else After(StepByte(p, bytes[0]).items, FeedAll(StepByte(p, bytes[0]).parser, bytes[1..]))
  }

  function Flatten(chunks: seq<seq<Octet>>): seq<Octet> {
    if chunks == [] then [] else chunks[0] + Flatten(chunks[1..])
  }

  function FeedChunks(p: Parser, chunks: seq<seq<Octet>>): Fed
    decreases |chunks|
  {
    if chunks == [] then Fed(p, [])
    else After(FeedAll(p, chunks[0]).items, FeedChunks(FeedAll(p, chunks[0]).parser, chunks[1..]))
  }

  lemma {:induction false} FeedSplit(p: Parser, a: seq<Octet>, b: seq<Octet>)
    ensures FeedAll(p, a + b) == After(FeedAll(p, a).items, FeedAll(FeedAll(p, a).parser, b))
    decreases |a|
  {
    if a == [] {
      assert a + b == b;
    } else {
      assert (a + b)[1..] == a[1..] + b;
      FeedSplit(StepByte(p, a[0]).parser, a[1..], b);
    }
  }

  /** However a byte stream is split into calls of feed, items and final state are the same. */
  lemma {:induction false} AnySplitIsTheSame(p: Parser, chunks: seq<seq<Octet>>)
    ensures FeedChunks(p, chunks) == FeedAll(p, Flatten(chunks))
    decreases |chunks|
  {
    if chunks != [] {
      FeedSplit(p, chunks[0], Flatten(chunks[1..]));
      AnySplitIsTheSame(FeedAll(p, chunks[0]).parser, chunks[1..]);
    }
  }

  // ---------------------------------------------------------------- round trip

  lemma {:induction false} BodyHasNoHash(payload: seq<Octet>)
    ensures forall i :: 0 <= i < |Body(payload)| ==> Body(payload)[i] != 0x23
  {
    if payload != [] {
      BodyHasNoHash(payload[..|payload| - 1]);
    }
  }

  /** The running sum of a parser in payload mode. */
  function SumFrom(sum: Octet, bytes: seq<Octet>): Octet
    decreases |bytes|
  {
    if bytes == [] then sum else SumFrom((sum + bytes[0]) % 256, bytes[1..])
  }

  lemma {:induction false} SumFromIsSum(buf: seq<Octet>, bytes: seq<Octet>)
    ensures SumFrom(Sum(buf), bytes) == Sum(buf + bytes)
    decreases |bytes|
  {
    if bytes == [] {
      assert buf + bytes == buf;
    } else {
      SumSnoc(buf, bytes[0]);
      SumFromIsSum(buf + [bytes[0]], bytes[1..]);
      assert buf + [bytes[0]] + bytes[1..] == buf + bytes;
    }
  }

  function Collected(p: Parser, bytes: seq<Octet>): Parser {
    p.(buf := p.buf + bytes, sum := SumFrom(p.sum, bytes))
  }

  lemma FeedStep(p: Parser, b: Octet, bytes: seq<Octet>, q: Parser)
    requires StepByte(p, b) == Fed(q, [])
    ensures FeedAll(p, [b] + bytes) == FeedAll(q, bytes)
  {
    var all := [b] + bytes;
    assert all[0] == b && all[1..] == bytes;
    assert FeedAll(p, all) == After([], FeedAll(q, bytes));
  }

  lemma PayloadByte(p: Parser, b: Octet)
    requires p.mode == Payload && b != 0x23
    ensures StepByte(p, b) == Fed(p.(buf := p.buf + [b], sum := (p.sum + b) % 256), [])
  {}

  lemma CollectedByte(p: Parser, b: Octet, bytes: seq<Octet>)
    ensures Collected(p, [b] + bytes) == Collected(p.(buf := p.buf + [b], sum := (p.sum + b) % 256), bytes)
  {
    assert ([b] + bytes)[1..] == bytes;
    assert p.buf + [b] + bytes == p.buf + ([b] + bytes);
  }

  /** In payload mode, bytes other than # are collected and summed up. */
  lemma {:induction false} FeedPayload(p: Parser, bytes: seq<Octet>)
    requires p.mode == Payload && 0x23 !in bytes
    ensures FeedAll(p, bytes) == Fed(Collected(p, bytes), [])
    decreases |bytes|
  {
    if bytes == [] {
      assert p.buf + bytes == p.buf;
    } else {
      var b, rest := bytes[0], bytes[1..];
      assert bytes == [b] + rest;
      var q := p.(buf := p.buf + [b], sum := (p.sum + b) % 256);
      PayloadByte(p, b);
      FeedStep(p, b, rest, q);
      CollectedByte(p, b, rest);
      FeedPayload(q, rest);
    }
  }

  lemma {:induction false} UnescapeSplit(payload: seq<Octet>, tail: seq<Octet>, out: seq<Octet>)
    ensures UnescapeFrom(Body(payload) + tail, out) == UnescapeFrom(tail, out + payload)
  {
    if payload == [] {
      assert Body(payload) + tail == tail && out + payload == out;
    } else {
      var init, b := payload[..|payload| - 1], payload[|payload| - 1];
      assert Body(payload) + tail == Body(init) + (Escaped(b) + tail);
      UnescapeSplit(init, Escaped(b) + tail, out);
      var rest := Escaped(b) + tail;
      if NeedsEscape(b) {
        assert rest[2..] == tail && rest[1] == Flip(b) && Flip(rest[1]) == b;
      } else {
        assert rest[1..] == tail;
      }
      assert out + init + [b] == out + payload;
    }
  }

  lemma UnescapeBody(payload: seq<Octet>)
    ensures Unescape(Body(payload)) == payload
  {
    UnescapeSplit(payload, [], []);
    assert Body(payload) + [] == Body(payload) && [] + payload == payload;
  }

  lemma ChecksumRoundTrip(sum: Octet)
    ensures Matches(ChecksumText(sum), sum)
  {}

  /** A frame whose payload is `body`: it is accepted exactly if its two checksum digits say the sum. */
  lemma FrameParses(p: Parser, body: seq<Octet>, c1: Octet, c2: Octet)
    requires p.mode == Idle && forall i :: 0 <= i < |body| ==> body[i] != 0x23
    ensures FeedAll(p, [0x24] + body + [0x23] + [c1, c2]) ==
      Fed(Parser(Idle, body, Sum(body), [c1, c2]), [Packet(Unescape(body), ParseHex2(c1, c2) == Some(Sum(body)))])
  {
    var q := p.(mode := Payload, buf := [], sum := 0);
    var t := Parser(Payload, body, Sum(body), p.csum);
    calc {
      FeedAll(p, [0x24] + body + [0x23] + [c1, c2]);
      { assert [0x24] + body + [0x23] + [c1, c2] == [0x24] + (body + [0x23, c1, c2]); }
      FeedAll(p, [0x24] + (body + [0x23, c1, c2]));
      { FeedStart(p, body + [0x23, c1, c2]); }
      FeedAll(q, body + [0x23, c1, c2]);
      { FeedSplit(q, body, [0x23, c1, c2]); FeedPayload(q, body); SumFromIsSum([], body); assert [] + body == body; }
      FeedAll(t, [0x23, c1, c2]);
      { FeedTrailer(t, c1, c2); }
      Fed(Parser(Idle, body, Sum(body), [c1, c2]), [Packet(Unescape(body), ParseHex2(c1, c2) == Some(Sum(body)))]);
    }
  }

  lemma FeedStart(p: Parser, rest: seq<Octet>)
    requires p.mode == Idle
    ensures FeedAll(p, [0x24] + rest) == FeedAll(p.(mode := Payload, buf := [], sum := 0), rest)
  {
    assert ([0x24] + rest)[1..] == rest;
  }

  lemma FeedTrailer(t: Parser, c1: Octet, c2: Octet)
    requires t.mode == Payload
    ensures FeedAll(t, [0x23, c1, c2]) ==
      Fed(t.(mode := Idle, csum := [c1, c2]), [Packet(Unescape(t.buf), ParseHex2(c1, c2) == Some(t.sum))])
  {
    assert [0x23, c1, c2][1..] == [c1, c2] && [c1, c2][1..] == [c2] && [c2][1..] == [];
    var t1 := t.(mode := Csum1, csum := []);
    var t2 := t.(mode := Csum2, csum := [c1]);
    assert StepByte(t, 0x23) == Fed(t1, []) && StepByte(t1, c1) == Fed(t2, []);
    assert [c1] + [c2] == [c1, c2];
    assert FeedAll(t2, [c2]) == StepByte(t2, c2);
    assert FeedAll(t1, [c1, c2]) == StepByte(t2, c2);
  }

  /** What can be on the wire. */
  datatype Message = MAck | MNack | MInterrupt | MPacket(payload: seq<Octet>)

  function Wire(m: Message): seq<Octet> {
    match m
    case MAck => [0x2b]
    case MNack => [0x2d]
    case MInterrupt => [0x03]
    case MPacket(payload) => Encode(payload)
  }

  function ItemOf(m: Message): Item {
    match m
    case MAck => Ack
    case MNack => Nack
    case MInterrupt => Interrupt
    case MPacket(payload) => Packet(payload, true)
  }

  function Stream(ms: seq<Message>): seq<Octet> {
    if ms == [] then [] else Wire(ms[0]) + Stream(ms[1..])
  }

  function Items(ms: seq<Message>): seq<Item> {
    if ms == [] then [] else [ItemOf(ms[0])] + Items(ms[1..])
  }

  lemma MessageParses(p: Parser, m: Message)
    requires p.mode == Idle
    ensures FeedAll(p, Wire(m)).parser.mode == Idle && FeedAll(p, Wire(m)).items == [ItemOf(m)]
  {
    match m {
      case MPacket(payload) =>
        BodyHasNoHash(payload);
        UnescapeBody(payload);
        var text := ChecksumText(Sum(Body(payload)));
        ChecksumRoundTrip(Sum(Body(payload)));
        FrameParses(p, Body(payload), text[0], text[1]);
        assert text == [text[0], text[1]];
      case _ =>
        assert Wire(m)[1..] == [];
    }
  }

  /** Parsing the concatenation of acks, nacks, Ctrl-C bytes and encoded packets yields exactly these,
      in order, with correct checksums and the original payloads. */
  lemma {:induction false} StreamParses(p: Parser, ms: seq<Message>)
    requires p.mode == Idle
    ensures FeedAll(p, Stream(ms)).parser.mode == Idle && FeedAll(p, Stream(ms)).items == Items(ms)
    decreases |ms|
  {
    if ms != [] {
      MessageParses(p, ms[0]);
      FeedSplit(p, Wire(ms[0]), Stream(ms[1..]));
      StreamParses(FeedAll(p, Wire(ms[0])).parser, ms[1..]);
    }
  }

  // ---------------------------------------------------------------- the same in the words of the protocol

  const DIGITS := "0123456789abcdef"
  const CAPITALS := "0123456789ABCDEF"

  lemma DigitMeans(d: nat)
    requires d < 16
    ensures HexDigit(d) == DIGITS[d] as int
    ensures HexValue(DIGITS[d] as Octet) == Some(d) && HexValue(CAPITALS[d] as Octet) == Some(d)
  {
    assert d < 10 ==> DIGITS[d] == '0' + d as char && CAPITALS[d] == '0' + d as char;
    assert d >= 10 ==> DIGITS[d] == 'a' + (d - 10) as char && CAPITALS[d] == 'A' + (d - 10) as char;
  }

  lemma PairMeans(c1: Octet, c2: Octet, d: nat, e: nat)
    requires d < 16 && e < 16 && HexValue(c1) == Some(d) && HexValue(c2) == Some(e)
    ensures ParseHex2(c1, c2) == Some(16 * d + e)
    ensures ChecksumText(16 * d + e) == [HexDigit(d), HexDigit(e)]
  {}

  /** Checksums are written in small letters and read in either case. */
  lemma ChecksumDigits(d: nat, e: nat)
    requires d < 16 && e < 16
    ensures ChecksumText(16 * d + e) == [DIGITS[d] as Octet, DIGITS[e] as Octet]
    ensures ParseHex2(DIGITS[d] as Octet, DIGITS[e] as Octet) == Some(16 * d + e)
    ensures ParseHex2(CAPITALS[d] as Octet, CAPITALS[e] as Octet) == Some(16 * d + e)
  {
    DigitMeans(d);
    DigitMeans(e);
    PairMeans(DIGITS[d] as Octet, DIGITS[e] as Octet, d, e);
    PairMeans(CAPITALS[d] as Octet, CAPITALS[e] as Octet, d, e);
  }

  /** Escaping toggles bit 5. */
  lemma FlipIsXor(b: bv8)
    ensures Flip(b as int) == (b ^ 0x20) as int
  {}

  function Total(bytes: seq<Octet>): nat {
    if bytes == [] then 0 else bytes[0] + Total(bytes[1..])
  }

  lemma {:induction false} TotalSnoc(bytes: seq<Octet>, b: Octet)
    ensures Total(bytes + [b]) == Total(bytes) + b
  {
    if bytes == [] {
      assert bytes + [b] == [b] && [b][1..] == [];
    } else {
      assert (bytes + [b])[1..] == bytes[1..] + [b];
      TotalSnoc(bytes[1..], b);
    }
  }

  /** The checksum is the sum of the bytes between $ and #, modulo 256. */
  lemma {:induction false} SumIsTotal(bytes: seq<Octet>)
    ensures Sum(bytes) == Total(bytes) % 256
  {
    if bytes != [] {
      var init, b := bytes[..|bytes| - 1], bytes[|bytes| - 1];
      SumIsTotal(init);
      TotalSnoc(init, b);
      assert bytes == init + [b];
    }
  }

  /** Bytes with a meaning of their own in a packet: #, $, * and }. */
  predicate Special(b: Octet) {
    b == 0x23 || b == 0x24 || b == 0x2a || b == 0x7d
  }

  /** Between $ and # there is no other $ or #, and no * that would be taken for a run length. */
  lemma {:induction false} BodyIsPlain(payload: seq<Octet>)
    ensures forall i :: 0 <= i < |Body(payload)| && Special(Body(payload)[i]) ==> Body(payload)[i] == 0x7d
  {
    if payload != [] {
      BodyIsPlain(payload[..|payload| - 1]);
    }
  }

  /** What has no special byte is sent as it is, and only that; every special byte costs one byte more. */
  lemma {:induction false} OnlySpecialIsEscaped(payload: seq<Octet>)
    ensures |Body(payload)| == |payload| + Specials(payload)
    ensures Specials(payload) == 0 ==> Body(payload) == payload
  {
    if payload != [] {
      var init, b := payload[..|payload| - 1], payload[|payload| - 1];
      OnlySpecialIsEscaped(init);
      assert payload == init + [b];
    }
  }

  function Specials(payload: seq<Octet>): nat {
    if payload == [] then 0
    else Specials(payload[..|payload| - 1]) + if Special(payload[|payload| - 1]) then 1 else 0
  }

  lemma {:induction false} RepeatIsRun(b: Octet, n: nat)
    ensures Repeat(b, n) == seq(n, _ => b)
  {
    if n > 0 {
      RepeatIsRun(b, n - 1);
    }
  }

  /** A byte, a * and the character of code 29 + n stand for n + 1 such bytes. */
  lemma RunLengthMeans(b: Octet, n: nat, rest: seq<Octet>)
    requires b != 0x7d && b != 0x2a && n + 29 < 256
    ensures Unescape([b, 0x2a, 29 + n] + rest) == UnescapeFrom(rest, seq(n + 1, _ => b))
  {
    var all := [b, 0x2a, 29 + n] + rest;
    var mark: seq<Octet> := [0x2a, 29 + n] + rest;
    assert all[1..] == mark && mark[2..] == rest;
    RepeatIsRun(b, n);
    assert [] + [b] == [b] && [b] + Repeat(b, n) == seq(n + 1, _ => b);
    assert Unescape(all) == UnescapeFrom(mark, [b]);
    assert UnescapeFrom(mark, [b]) == UnescapeFrom(rest, [b] + Repeat(b, n));
  }

  /** Between messages other bytes are dropped. */
  lemma {:induction false} NoiseIsDropped(p: Parser, bytes: seq<Octet>)
    requires p.mode == Idle && 0x24 !in bytes && 0x2b !in bytes && 0x2d !in bytes && 0x03 !in bytes
    ensures FeedAll(p, bytes) == Fed(p, [])
    decreases |bytes|
  {
    if bytes != [] {
      assert bytes[0] in bytes && StepByte(p, bytes[0]) == Fed(p, []);
      NoiseIsDropped(p, bytes[1..]);
    }
  }

  /** The reply "OK" on the wire. */
  lemma ReplyOk()
    ensures Encode([0x4f, 0x4b]) == [0x24, 0x4f, 0x4b, 0x23, 0x39, 0x61]
  {
    assert [0x4f, 0x4b][..1] == [0x4f] && [0x4f][..0] == [];
    assert Body([0x4f]) == [0x4f];
    assert Body([0x4f, 0x4b]) == [0x4f, 0x4b];
    assert Sum([0x4f]) == 0x4f;
    assert Sum([0x4f, 0x4b]) == 0x9a;
  }

  lemma AddDistinct(x: Octet, y: Octet, z: Octet)
    requires x != y
    ensures (x + z) % 256 != (y + z) % 256
  {}

  lemma {:induction false} SumNotices(bytes: seq<Octet>, i: nat, b: Octet)
    requires i < |bytes| && b != bytes[i]
    ensures Sum(bytes[i := b]) != Sum(bytes)
  {
    var last := |bytes| - 1;
    if i == last {
      assert bytes[i := b][..last] == bytes[..last];
      AddDistinct(bytes[i], b, Sum(bytes[..last]));
    } else {
      assert bytes[i := b][..last] == bytes[..last][i := b];
      SumNotices(bytes[..last], i, b);
      AddDistinct(Sum(bytes[..last][i := b]), Sum(bytes[..last]), bytes[last]);
    }
  }

  /** One byte changed on the way, into anything but the end mark, is always noticed. */
  lemma ChangedByteIsNoticed(p: Parser, payload: seq<Octet>, i: nat, b: Octet)
    requires p.mode == Idle && i < |Body(payload)| && b != Body(payload)[i] && b != 0x23
    ensures var body := Body(payload);
      FeedAll(p, [0x24] + body[i := b] + [0x23] + ChecksumText(Sum(body))).items == [Packet(Unescape(body[i := b]),
        false)]
  {
    var body := Body(payload);
    var text := ChecksumText(Sum(body));
    BodyHasNoHash(payload);
    ChecksumRoundTrip(Sum(body));
    assert text == [text[0], text[1]];
    FrameParses(p, body[i := b], text[0], text[1]);
    SumNotices(body, i, b);
    assert ParseHex2(text[0], text[1]) == Some(Sum(body));
  }

  // ---------------------------------------------------------------- the code

  class PacketParser {
    var state: Mode
    var buf: seq<Octet>
    var sum: Octet
    var csum: seq<Octet>

    ghost function State(): Parser
      reads this
    {
      Parser(state, buf, sum, csum)
    }

    constructor ()
      ensures State() == NEW
    {
      state, buf, sum, csum := Idle, [], 0, [];
    }

    method FeedByte(byte: Octet) returns (items: seq<Item>)
      modifies this
      ensures Fed(State(), items) == StepByte(old(State()), byte)
    {
      items := [];
      match state {
        case Idle =>
          if byte == 0x24 {
            state, buf, sum := Payload, [], 0;
          } else if byte == 0x2b {
            items := [Ack];
          } else if byte == 0x2d {
            items := [Nack];
          } else if byte == 0x03 {
            items := [Interrupt];
          }
        case Payload =>
          if byte == 0x23 {
            state, csum := Csum1, [];
          } else {
            buf, sum := buf + [byte], (sum + byte) % 256;
          }
        case Csum1 =>
          csum, state := [byte], Csum2;
        case Csum2 =>
          csum := csum + [byte];
          var payload := UnescapePayload(buf);
          items := [Packet(payload, Matches(csum, sum))];
          state := Idle;
      }
    }

    method Feed(data: seq<Octet>) returns (out: seq<Item>)
      modifies this
      ensures Fed(State(), out) == FeedAll(old(State()), data)
    {
      out := [];
      for i := 0 to |data|
        invariant FeedAll(old(State()), data) == After(out, FeedAll(State(), data[i..]))
      {
        assert data[i..][0] == data[i] && data[i..][1..] == data[i + 1..];
        var items := FeedByte(data[i]);
        out := out + items;
      }
    }
  }

  method UnescapePayload(bytes: seq<Octet>) returns (out: seq<Octet>)
    ensures out == Unescape(bytes)
  {
    out := [];
    var i := 0;
    while i < |bytes|
      invariant i <= |bytes|
      invariant UnescapeFrom(bytes[i..], out) == Unescape(bytes)
    {
      var b := bytes[i];
      ghost var rest := bytes[i..];
      assert rest[0] == b && rest[1..] == bytes[i + 1..];
      if b == 0x7d && i + 1 < |bytes| {
        assert rest[1] == bytes[i + 1] && rest[2..] == bytes[i + 2..];
        i := i + 1;
        out := out + [Flip(bytes[i])];
      } else if b == 0x2a && |out| > 0 && i + 1 < |bytes| {
        assert rest[1] == bytes[i + 1] && rest[2..] == bytes[i + 2..];
        i := i + 1;
        var n := bytes[i] as int - 29;
        var run := RepeatLast(out, n);
        out := out + run;
      } else {
        out := out + [b];
      }
      i := i + 1;
    }
  }

  method RepeatLast(out: seq<Octet>, n: int) returns (run: seq<Octet>)
    requires out != []
    ensures run == Repeat(out[|out| - 1], n)
  {
    run := [];
    var k := 0;
    while k < n
      invariant k <= n || (k == 0 && n < 0)
      invariant run == Repeat(out[|out| - 1], k)
    {
      run := [out[|out| - 1]] + run;
      k := k + 1;
    }
  }

  method EncodePacket(payload: seq<Octet>) returns (frame: seq<Octet>)
    ensures frame == Encode(payload)
  {
    var body: seq<Octet> := [];
    var sum: Octet := 0;
    for i := 0 to |payload|
      invariant body == Body(payload[..i]) && sum == Sum(body)
    {
      var b := payload[i];
      BodySnoc(payload, i);
      SumEscaped(body, b);
      if b == 0x23 || b == 0x24 || b == 0x7d || b == 0x2a {
        body, sum := body + [0x7d, Flip(b)], (sum + 0x7d + Flip(b)) % 256;
      } else {
        body, sum := body + [b], (sum + b) % 256;
      }
    }
    assert payload[..|payload|] == payload;
    frame := [0x24] + body + [0x23] + ChecksumText(sum);
  }

  lemma SumSnoc(bytes: seq<Octet>, b: Octet)
    ensures Sum(bytes + [b]) == (Sum(bytes) + b) % 256
  {
    assert (bytes + [b])[..|bytes|] == bytes;
  }

  lemma BodySnoc(payload: seq<Octet>, i: nat)
    requires i < |payload|
    ensures Body(payload[..i + 1]) == Body(payload[..i]) + Escaped(payload[i])
  {
    assert payload[..i + 1][..i] == payload[..i];
  }

  lemma SumOfTwo(bytes: seq<Octet>, x: Octet, y: Octet)
    ensures Sum(bytes + [x, y]) == (Sum(bytes) + x + y) % 256
  {
    assert bytes + [x, y] == bytes + [x] + [y];
    SumSnoc(bytes, x);
    SumSnoc(bytes + [x], y);
  }

  lemma SumEscaped(body: seq<Octet>, b: Octet)
    ensures Sum(body + Escaped(b)) ==
      if NeedsEscape(b) then (Sum(body) + 0x7d + Flip(b)) % 256 else (Sum(body) + b) % 256
  {
    if NeedsEscape(b) {
      SumOfTwo(body, 0x7d, Flip(b));
    } else {
      SumSnoc(body, b);
    }
  }
}
