/** Base64 as in section 4 of RFC 4648, the form in which memory contents travel between the probe and
    its clients. */
module Base64 {
  import opened Wrappers

  type Digit = d: int | 0 <= d < 64

  function CharOf(d: Digit): char {
    if d < 26 then 'A' + d as char
    else if d < 52 then 'a' + (d - 26) as char
    else if d < 62 then '0' + (d - 52) as char
    else if d == 62 then '+'
    else '/'
  }

  predicate InAlphabet(c: char) {
    'A' <= c <= 'Z' || 'a' <= c <= 'z' || '0' <= c <= '9' || c == '+' || c == '/'
  }

  function DigitOf(c: char): Digit {
    if 'A' <= c <= 'Z' then (c - 'A') as int
    else if 'a' <= c <= 'z' then (c - 'a') as int + 26
    else if '0' <= c <= '9' then (c - '0') as int + 52
    else if c == '+' then 62
    else if c == '/' then 63
    else 0
  }

  lemma DigitRoundTrip(d: Digit)
    ensures InAlphabet(CharOf(d)) && DigitOf(CharOf(d)) == d
  {}

  function Text(ds: seq<Digit>): string {
    if ds == [] then "" else [CharOf(ds[0])] + Text(ds[1..])
  }

  function Values(s: string): seq<Digit> {
    if s == "" then [] else [DigitOf(s[0])] + Values(s[1..])
  }

  /** Only the characters of the alphabet count. */
  function Clean(text: string): string {
    if text == "" then "" else (if InAlphabet(text[0]) then [text[0]] else "") + Clean(text[1..])
  }

  lemma {:induction false} TextRoundTrip(ds: seq<Digit>, padding: string)
    requires forall i :: 0 <= i < |padding| ==> padding[i] == '='
    ensures Clean(Text(ds) + padding) == Text(ds) && Values(Text(ds)) == ds && |Text(ds)| == |ds|
    decreases |ds|, |padding|
  {
    if ds == [] {
      if padding != "" {
        TextRoundTrip(ds, padding[1..]);
        assert Text(ds) + padding == padding && Text(ds) + padding[1..] == padding[1..];
      }
    } else {
      TextRoundTrip(ds[1..], padding);
      DigitRoundTrip(ds[0]);
      assert (Text(ds) + padding)[1..] == Text(ds[1..]) + padding;
      assert Text(ds)[1..] == Text(ds[1..]);
    }
  }

  lemma {:induction false} TextJoin(a: seq<Digit>, b: seq<Digit>)
    ensures Text(a + b) == Text(a) + Text(b)
  {
    if a == [] {
      assert a + b == b;
    } else {
      assert (a + b)[1..] == a[1..] + b;
      TextJoin(a[1..], b);
    }
  }

  // ---------------------------------------------------------------- groups of three bytes, four digits

  function Join(b0: Octet, b1: Octet, b2: Octet): (n: nat)
    ensures n < 16777216
  {
    b0 * 65536 + b1 * 256 + b2
  }

  function Digits(n: nat): seq<Digit> {
    [n / 262144 % 64, n / 4096 % 64, n / 64 % 64, n % 64]
  }

  function DigitAt(ds: seq<Digit>, k: nat): (d: int)
    ensures 0 <= d < 64
  {
    if k < |ds| then ds[k] else 0
  }

  /** The value of up to four digits; missing ones count as zero. */
  function Value(ds: seq<Digit>): nat {
    DigitAt(ds, 0) * 262144 + DigitAt(ds, 1) * 4096 + DigitAt(ds, 2) * 64 + DigitAt(ds, 3)
  }

  function Bytes(n: nat): seq<Octet> {
    [n / 65536 % 256, n / 256 % 256, n % 256]
  }

  lemma DigitsRoundTrip(n: nat)
    requires n < 16777216
    ensures Value(Digits(n)) == n
    ensures n % 64 == 0 ==> Value(Digits(n)[..3]) == n
    ensures n % 4096 == 0 ==> Value(Digits(n)[..2]) == n
  {
    assert n / 4096 == n / 262144 * 64 + n / 4096 % 64;
    assert n / 64 == n / 4096 * 64 + n / 64 % 64;
  }

  lemma BytesRoundTrip(b0: Octet, b1: Octet, b2: Octet)
    ensures Bytes(Join(b0, b1, b2)) == [b0, b1, b2]
  {
    var n := Join(b0, b1, b2);
    assert n / 256 == b0 * 256 + b1;
    assert n / 65536 == b0;
  }

  // ---------------------------------------------------------------- encoding and decoding

  function DigitsOf(bytes: seq<Octet>): seq<Digit> {
    if |bytes| >= 3 then Digits(Join(bytes[0], bytes[1], bytes[2])) + DigitsOf(bytes[3..])
    else if |bytes| == 2 then Digits(Join(bytes[0], bytes[1], 0))[..3]
    else if |bytes| == 1 then Digits(Join(bytes[0], 0, 0))[..2]
    else []
  }

  function Padding(n: nat): string {
    if n % 3 == 1 then "==" else if n % 3 == 2 then "=" else ""
  }

  function Encode(bytes: seq<Octet>): string {
    Text(DigitsOf(bytes)) + Padding(|bytes|)
  }

  function Group(ds: seq<Digit>): seq<Digit> {
    if |ds| < 4 then ds else ds[..4]
  }

  /** Three bytes for every group of four digits, complete or not. */
  function Groups(ds: seq<Digit>): seq<Octet>
    decreases |ds|
  {
    if ds == [] then [] else Bytes(Value(Group(ds))) + Groups(ds[|Group(ds)|..])
  }

  lemma {:induction false} GroupsLength(ds: seq<Digit>)
    ensures |Groups(ds)| >= |ds| * 3 / 4
    decreases |ds|
  {
    if ds != [] {
      GroupsLength(ds[|Group(ds)|..]);
    }
  }

  function Decode(text: string): seq<Octet> {
    var ds := Values(Clean(text));
    GroupsLength(ds);
    Groups(ds)[..|ds| * 3 / 4]
  }

  /** A long sequence of digits starts with a full group. */
  lemma GroupsStep(n: nat, ds: seq<Digit>)
    requires n < 16777216
    ensures Groups(Digits(n) + ds) == Bytes(n) + Groups(ds)
  {
    DigitsRoundTrip(n);
    var all := Digits(n) + ds;
    assert Group(all) == Digits(n) && all[4..] == ds;
  }

  lemma ThreeMoreBytes(b0: Octet, b1: Octet, b2: Octet, ds: seq<Digit>)
    ensures Groups(Digits(Join(b0, b1, b2)) + ds) == [b0, b1, b2] + Groups(ds)
  {
    BytesRoundTrip(b0, b1, b2);
    GroupsStep(Join(b0, b1, b2), ds);
  }

  /** The groups of an encoding start with the bytes, and the number of digits says how many. */
  lemma {:induction false} GroupsOfEncoding(bytes: seq<Octet>)
    ensures var ds := DigitsOf(bytes);
      |ds| == |bytes| / 3 * 4 + (if |bytes| % 3 == 0 then 0 else |bytes| % 3 + 1) && bytes <= Groups(ds)
  {
    if |bytes| >= 3 {
      GroupsOfEncoding(bytes[3..]);
      ThreeMoreBytes(bytes[0], bytes[1], bytes[2], DigitsOf(bytes[3..]));
      assert bytes == [bytes[0], bytes[1], bytes[2]] + bytes[3..];
    } else if |bytes| == 2 {
      GroupOfTwo(bytes[0], bytes[1]);
    } else if |bytes| == 1 {
      GroupOfOne(bytes[0]);
    }
  }

  lemma GroupOfTwo(b0: Octet, b1: Octet)
    ensures Groups(Digits(Join(b0, b1, 0))[..3]) == [b0, b1, 0]
  {
    var n := Join(b0, b1, 0);
    assert n % 64 == 0 by {
      assert n == (b0 * 1024 + b1 * 4) * 64;
    }
    BytesRoundTrip(b0, b1, 0);
    DigitsRoundTrip(n);
    OneGroup(Digits(n)[..3]);
  }

  lemma GroupOfOne(b0: Octet)
    ensures Groups(Digits(Join(b0, 0, 0))[..2]) == [b0, 0, 0]
  {
    var n := Join(b0, 0, 0);
    assert n % 4096 == 0 by {
      assert n == b0 * 16 * 4096;
    }
    BytesRoundTrip(b0, 0, 0);
    DigitsRoundTrip(n);
    OneGroup(Digits(n)[..2]);
  }

  lemma OneGroup(ds: seq<Digit>)
    requires 0 < |ds| < 4
    ensures Groups(ds) == Bytes(Value(ds))
  {
    assert Group(ds) == ds && ds[|ds|..] == [];
    assert Groups([]) == [];
  }

  /** Decoding an encoding gives back every byte array, and the encoding has four characters for every
      three bytes begun. */
  lemma RoundTrip(bytes: seq<Octet>)
    ensures Decode(Encode(bytes)) == bytes && |Encode(bytes)| == (|bytes| + 2) / 3 * 4
  {
    var ds := DigitsOf(bytes);
    GroupsOfEncoding(bytes);
    TextRoundTrip(ds, Padding(|bytes|));
    DigitsForBytes(|bytes|, |ds|);
  }

  lemma DigitsForBytes(n: nat, digits: nat)
    requires digits == n / 3 * 4 + (if n % 3 == 0 then 0 else n % 3 + 1)
    ensures digits * 3 / 4 == n && digits + |Padding(n)| == (n + 2) / 3 * 4
  {
    var q := n / 3;
    assert n == 3 * q + n % 3;
  }

  // ---------------------------------------------------------------- the bit string of RFC 4648

  /** The bits of `acc` followed by those of ns, read as one number; every element has `base` values. */
  function Number(acc: nat, ns: seq<nat>, base: nat): nat
    decreases |ns|
  {
    if ns == [] then acc else Number(acc * base + ns[0], ns[1..], base)
  }

  lemma OneInRow(acc: nat, x: nat, ns: seq<nat>, base: nat)
    ensures Number(acc, [x] + ns, base) == Number(acc * base + x, ns, base)
  {
    assert ([x] + ns)[1..] == ns;
  }

  lemma FourInRow(acc: nat, a: nat, b: nat, c: nat, d: nat, ns: seq<nat>)
    ensures Number(acc, [a, b, c, d] + ns, 64) == Number((((acc * 64 + a) * 64 + b) * 64 + c) * 64 + d, ns, 64)
  {
    assert [a, b, c, d] + ns == [a] + ([b] + ([c] + ([d] + ns)));
    OneInRow(acc, a, [b] + ([c] + ([d] + ns)), 64);
    OneInRow(acc * 64 + a, b, [c] + ([d] + ns), 64);
    OneInRow((acc * 64 + a) * 64 + b, c, [d] + ns, 64);
    OneInRow(((acc * 64 + a) * 64 + b) * 64 + c, d, ns, 64);
  }

  lemma FourDigits(acc: nat, n: nat, ds: seq<Digit>)
    requires n < 16777216
    ensures Number(acc, Digits(n) + ds, 64) == Number(acc * 16777216 + n, ds, 64)
  {
    DigitsRoundTrip(n);
    var d := Digits(n);
    FourInRow(acc, d[0], d[1], d[2], d[3], ds);
  }

  lemma ThreeBytes(acc: nat, bytes: seq<Octet>)
    requires |bytes| >= 3
    ensures Number(acc, bytes, 256)
      == Number(acc * 16777216 + Join(bytes[0], bytes[1], bytes[2]), bytes[3..], 256)
  {
    var a1, a2 := acc * 256 + bytes[0], (acc * 256 + bytes[0]) * 256 + bytes[1];
    assert bytes[1..][1..] == bytes[2..] && bytes[2..][1..] == bytes[3..];
    assert Number(acc, bytes, 256) == Number(a1, bytes[1..], 256);
    assert Number(a1, bytes[1..], 256) == Number(a2, bytes[2..], 256);
  }

  /** How far the last digit is filled up with zero bits: by none, four or two. */
  function Filling(n: nat): nat {
    if n % 3 == 1 then 16 else if n % 3 == 2 then 4 else 1
  }

  lemma LastDigits(acc: nat, bytes: seq<Octet>)
    requires |bytes| < 3
    ensures Number(acc, DigitsOf(bytes), 64) == Number(acc, bytes, 256) * Filling(|bytes|)
  {
    if |bytes| == 1 {
      LastOne(acc, bytes[0]);
      assert bytes == [bytes[0]];
    } else if |bytes| == 2 {
      LastTwo(acc, bytes[0], bytes[1]);
      assert bytes == [bytes[0], bytes[1]];
    }
  }

  lemma TwoInRow(acc: nat, x: nat, y: nat, base: nat)
    ensures Number(acc, [x, y], base) == (acc * base + x) * base + y
  {
    var ns := [x, y];
    assert ns[1..] == [y] && [y][1..] == [];
    assert Number(acc, ns, base) == Number(acc * base + x, ns[1..], base);
    assert Number((acc * base + x) * base + y, [], base) == (acc * base + x) * base + y;
  }

  lemma DigitsUnique(a: Digit, b: Digit, c: Digit, d: Digit)
    ensures Digits(a * 262144 + b * 4096 + c * 64 + d) == [a, b, c, d]
  {
    var n := a * 262144 + b * 4096 + c * 64 + d;
    assert n / 64 == a * 4096 + b * 64 + c;
    assert n / 4096 == a * 64 + b;
    assert n / 262144 == a;
  }

  lemma OneByteDigits(b: Octet)
    ensures Digits(Join(b, 0, 0))[..2] == [b / 4, b % 4 * 16]
  {
    var x, y := b / 4, b % 4;
    assert b == x * 4 + y;
    DigitsUnique(x, y * 16, 0, 0);
  }

  lemma LastOne(acc: nat, b: Octet)
    ensures Number(acc, Digits(Join(b, 0, 0))[..2], 64) == Number(acc, [b], 256) * 16
  {
    OneByteDigits(b);
    TwoInRow(acc, b / 4, b % 4 * 16, 64);
  }

  lemma TwoByteDigits(x: Digit, y: nat, z: nat, w: nat)
    requires y < 4 && z < 16 && w < 16
    ensures Digits(Join(x * 4 + y, z * 16 + w, 0))[..3] == [x, y * 16 + z, w * 4]
  {
    DigitsUnique(x, y * 16 + z, w * 4, 0);
  }

  lemma ThreeInRow(acc: nat, x: nat, y: nat, z: nat)
    ensures Number(acc, [x, y, z], 64) == ((acc * 64 + x) * 64 + y) * 64 + z
  {
    assert [x, y, z] == [x] + [y, z];
    OneInRow(acc, x, [y, z], 64);
    TwoInRow(acc * 64 + x, y, z, 64);
  }

  lemma LastTwo(acc: nat, b0: Octet, b1: Octet)
    ensures Number(acc, Digits(Join(b0, b1, 0))[..3], 64) == Number(acc, [b0, b1], 256) * 4
  {
    var x, y, z, w := b0 / 4, b0 % 4, b1 / 16, b1 % 16;
    assert b0 == x * 4 + y && b1 == z * 16 + w;
    calc {
      Number(acc, Digits(Join(b0, b1, 0))[..3], 64);
      { TwoByteDigits(x, y, z, w); }
      Number(acc, [x, y * 16 + z, w * 4], 64);
      { ThreeInRow(acc, x, y * 16 + z, w * 4); }
      ((acc * 64 + x) * 64 + y * 16 + z) * 64 + w * 4;
      ((acc * 256 + b0) * 256 + b1) * 4;
      { TwoInRow(acc, b0, b1, 256); }
      Number(acc, [b0, b1], 256) * 4;
    }
  }

  /** The digits of an encoding are the bits of the bytes cut into sixes, the last six filled up with
      zeros: both are the same number. */
  lemma {:induction false} EncodingIsBitString(acc: nat, bytes: seq<Octet>)
    ensures Number(acc, DigitsOf(bytes), 64) == Number(acc, bytes, 256) * Filling(|bytes|)
    decreases |bytes|
  {
    if |bytes| >= 3 {
      var n, rest := Join(bytes[0], bytes[1], bytes[2]), bytes[3..];
      assert Filling(|bytes|) == Filling(|rest|);
      calc {
        Number(acc, DigitsOf(bytes), 64);
        Number(acc, Digits(n) + DigitsOf(rest), 64);
        { FourDigits(acc, n, DigitsOf(rest)); }
        Number(acc * 16777216 + n, DigitsOf(rest), 64);
        { EncodingIsBitString(acc * 16777216 + n, rest); }
        Number(acc * 16777216 + n, rest, 256) * Filling(|rest|);
        { ThreeBytes(acc, bytes); }
        Number(acc, bytes, 256) * Filling(|bytes|);
      }
    } else {
      LastDigits(acc, bytes);
    }
  }

  // ---------------------------------------------------------------- the loops

  /** The digits of a group that is not complete, and what fills it up. */
  method LastGroup(bytes: seq<Octet>) returns (out: string)
    requires |bytes| == 1 || |bytes| == 2
    ensures out == Text(DigitsOf(bytes)) + Padding(|bytes|)
  {
    var b1 := if 1 < |bytes| then bytes[1] else 0;
    var digits := Digits(Join(bytes[0], b1, 0));
    if 1 < |bytes| {
      out := Text(digits[..3]) + "=";
    } else {
      out := Text(digits[..2]) + "==";
    }
  }

  /** The text still to come when the loop is at byte i. */
  function TextFrom(bytes: seq<Octet>, i: nat): string
    requires i <= |bytes|
  {
    Text(DigitsOf(bytes[i..])) + Padding(|bytes| - i)
  }

  function FullGroup(bytes: seq<Octet>, i: nat): string
    requires i + 3 <= |bytes|
  {
    Text(Digits(Join(bytes[i], bytes[i + 1], bytes[i + 2])))
  }

  lemma EncodeStep(bytes: seq<Octet>, i: nat)
    requires i + 3 <= |bytes|
    ensures TextFrom(bytes, i) == FullGroup(bytes, i) + TextFrom(bytes, i + 3)
  {
    var rest := bytes[i..];
    assert rest[3..] == bytes[i + 3..];
    TextJoin(Digits(Join(rest[0], rest[1], rest[2])), DigitsOf(rest[3..]));
  }

  method ToBase64(bytes: seq<Octet>) returns (out: string)
    ensures out == Encode(bytes)
  {
    out := "";
    var i := 0;
    assert bytes[0..] == bytes;
    while i + 2 < |bytes|
      invariant i <= |bytes| && out + TextFrom(bytes, i) == Encode(bytes)
    {
      EncodeStep(bytes, i);
      out := out + FullGroup(bytes, i);
      i := i + 3;
    }
    if i < |bytes| {
      var last := LastGroup(bytes[i..]);
      out := out + last;
    } else {
      assert TextFrom(bytes, i) == "";
    }
  }

  /** What is stored of a group when there is only room for `room` more bytes. */
  function Store(group: seq<Octet>, room: nat): seq<Octet> {
    if room < |group| then group[..room] else group
  }

  /** The output never grows beyond the number of whole bytes in the input. */
  method FromBase64(text: string) returns (out: seq<Octet>)
    ensures out == Decode(text)
  {
    var rest := Values(Clean(text));
    GroupsLength(rest);
    var len := |rest| * 3 / 4;
    ghost var wanted := Groups(rest);
    out := [];
    while rest != []
      invariant |out| <= len <= |wanted|
      invariant |out| < len ==> out + Groups(rest) == wanted
      invariant |out| == len ==> out == wanted[..len]
      decreases |rest|
    {
      var group := Bytes(Value(Group(rest)));
      StoreStep(out, group, Groups(rest[|Group(rest)|..]), wanted, len);
      out := out + Store(group, len - |out|);
      rest := rest[|Group(rest)|..];
    }
  }

  lemma StoreStep(out: seq<Octet>, group: seq<Octet>, rest: seq<Octet>, wanted: seq<Octet>, len: nat)
    requires |out| <= len <= |wanted| && |group| == 3
    requires |out| < len ==> out + (group + rest) == wanted
    requires |out| == len ==> out == wanted[..len]
    ensures var next := out + Store(group, len - |out|);
      |next| <= len && (|next| < len ==> next + rest == wanted) && (|next| == len ==> next == wanted[..len])
  {
    if |out| == len {
      assert Store(group, 0) == [];
    } else {
      assert wanted == out + group + rest;
    }
  }
}
