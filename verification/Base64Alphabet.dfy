/** The alphabet and the test vectors that RFC 4648 gives for its Base64 encoding. */
module Base64Alphabet {
  import opened Wrappers
  import opened Base64

  const CAPITALS := "ABCDEFGHIJKLMNOPQRSTUVWXYZ"
  const SMALL := "abcdefghijklmnopqrstuvwxyz"
  const REST := "0123456789+/"
  const ALPHABET := CAPITALS + SMALL + REST

  lemma CapitalsInOrder(d: nat)
    requires d < 26
    ensures CAPITALS[d] == 'A' + d as char
  {}

  lemma SmallInOrder(d: nat)
    requires d < 26
    ensures SMALL[d] == 'a' + d as char
  {}

  lemma RestInOrder(d: nat)
    requires d < 12
    ensures REST[d] == if d < 10 then '0' + d as char else if d == 10 then '+' else '/'
  {}

  /** The alphabet of table 1 in section 4 of RFC 4648, in its order. */
  lemma AlphabetIsStandard(d: Digit)
    ensures |ALPHABET| == 64 && CharOf(d) == ALPHABET[d]
  {
    if d < 26 {
      CapitalsInOrder(d);
    } else if d < 52 {
      SmallInOrder(d - 26);
    } else {
      RestInOrder(d - 52);
    }
  }

  lemma AlphabetIsAll(c: char)
    ensures InAlphabet(c) <==> c in ALPHABET
  {
    if InAlphabet(c) {
      var d := DigitOf(c);
      AlphabetIsStandard(d);
      assert CharOf(d) == c;
    } else if c in ALPHABET {
      var d :| 0 <= d < |ALPHABET| && ALPHABET[d] == c;
      AlphabetIsStandard(d);
      DigitRoundTrip(d);
    }
  }

  lemma {:induction false} CleanSplit(a: string, b: string)
    ensures Clean(a + b) == Clean(a) + Clean(b)
  {
    if a == "" {
      assert a + b == b && Clean(a) + Clean(b) == Clean(b);
    } else {
      var first := if InAlphabet(a[0]) then [a[0]] else "";
      assert (a + b)[0] == a[0] && (a + b)[1..] == a[1..] + b;
      CleanSplit(a[1..], b);
      assert first + (Clean(a[1..]) + Clean(b)) == first + Clean(a[1..]) + Clean(b);
    }
  }

  /** Characters outside the alphabet make no difference wherever they stand. */
  lemma ForeignIsSkipped(a: string, c: char, b: string)
    requires c !in ALPHABET
    ensures Decode(a + [c] + b) == Decode(a + b)
  {
    AlphabetIsAll(c);
    CleanSplit(a, [c]);
    CleanSplit(a + [c], b);
    CleanSplit(a, b);
    assert [c][1..] == "";
    assert Clean([c]) == "";
    assert Clean(a) + "" == Clean(a);
  }

  /** Test vectors of section 10 of RFC 4648. */
  lemma OneByteVector()
    ensures Encode([]) == "" && Encode([0x66]) == "Zg=="
  {
    assert DigitsOf([0x66]) == [25, 32];
    TwoLetters(25, 32);
  }

  lemma TwoByteVector()
    ensures Encode([0x66, 0x6f]) == "Zm8="
  {
    assert DigitsOf([0x66, 0x6f]) == [25, 38, 60];
    TwoLetters(25, 38);
    TwoLetters(60, 0);
    TextJoin([25, 38], [60]);
    assert [25, 38] + [60] == [25, 38, 60];
  }

  lemma ThreeByteVector()
    ensures Encode([0x66, 0x6f, 0x6f]) == "Zm9v"
  {
    assert Digits(Join(0x66, 0x6f, 0x6f)) == [25, 38] + [61, 47];
    assert DigitsOf([0x66, 0x6f, 0x6f]) == [25, 38] + [61, 47] + [];
    TwoLetters(25, 38);
    TwoLetters(61, 47);
    TextJoin([25, 38], [61, 47]);
  }

  lemma TwoLetters(x: Digit, y: Digit)
    ensures Text([x]) == [CharOf(x)] && Text([x, y]) == [CharOf(x), CharOf(y)]
  {
    assert [x][1..] == [] && [x, y][1..] == [y] && [y][1..] == [];
  }
}
