/**
 Base64 (RFC 4648, section 4). The reference reads three bytes as one 24-bit number and writes it
 in base 64; the two loops work on small buffers with shifts and masks.
 */
module Base64 {
  import opened Bytes

  const PAD: byte := 0x3D

  type sextet = x: int | 0 <= x < 64

  // ---------------------------------------------------------------- the alphabet

  /** `base64_chars[d]` */
  function CharOf(d: sextet): (c: byte)
    ensures InAlphabet(c) && SextetOf(c) == d
  {
    if d < 26 then 0x41 + d
    else if d < 52 then 0x61 + (d - 26)
    else if d < 62 then 0x30 + (d - 52)
    else if d == 62 then 0x2B else 0x2F
  }

  /** `is_base64`, in the C locale. */
  predicate InAlphabet(c: byte) {
    0x41 <= c <= 0x5A || 0x61 <= c <= 0x7A || 0x30 <= c <= 0x39 || c == 0x2B || c == 0x2F
  }

  /** `base64_chars.find(c)` */
  function SextetOf(c: byte): sextet
    requires InAlphabet(c)
  {
    if c >= 0x61 then c - 0x61 + 26
    else if c >= 0x41 then c - 0x41
    else if c >= 0x30 then c - 0x30 + 52
    else if c == 0x2B then 62 else 63
  }

  // ---------------------------------------------------------------- the reference

  /** The digits of a 24-bit number in base 64. */
  function InSextets(n: nat): (ds: seq<sextet>)
    requires n < 0x100_0000
    ensures |ds| == 4
  {
    [n / 64 / 64 / 64, n / 64 / 64 % 64, n / 64 % 64, n % 64]
  }

  /** The bytes of a 24-bit number. */
  function InBytes(n: nat): (bs: bytes)
    requires n < 0x100_0000
    ensures |bs| == 3
  {
    [n / 256 / 256, n / 256 % 256, n % 256]
  }

  function FromBytes(b0: byte, b1: byte, b2: byte): (n: nat)
    ensures n < 0x100_0000
  {
    (b0 * 256 + b1) * 256 + b2
  }

  function FromSextets(d0: sextet, d1: sextet, d2: sextet, d3: sextet): (n: nat)
    ensures n < 0x100_0000
  {
    ((d0 * 64 + d1) * 64 + d2) * 64 + d3
  }

  lemma BytesBack(b0: byte, b1: byte, b2: byte)
    ensures InBytes(FromBytes(b0, b1, b2)) == [b0, b1, b2]
  {
  }

  lemma SextetsBack(d0: sextet, d1: sextet, d2: sextet, d3: sextet)
    ensures InSextets(FromSextets(d0, d1, d2, d3)) == [d0, d1, d2, d3]
  {
    var high := d0 as int * 64 + d1;
    var middle := high * 64 + d2;
    assert high / 64 == d0 && high % 64 == d1 && middle / 64 == high && middle % 64 == d2;
  }

  function Chars(ds: seq<sextet>): (s: bytes)
    ensures |s| == |ds|
  {
    seq(|ds|, i requires 0 <= i < |ds| => CharOf(ds[i]))
  }

  /** A last group of one or two bytes is filled up with zero bits, and the text with padding. */
  function Encoded(b: bytes): (s: bytes)
    decreases |b|
  {
    match |b|
    case 0 => []
    case 1 => Chars(InSextets(FromBytes(b[0], 0, 0))[..2]) + [PAD, PAD]
    case 2 => Chars(InSextets(FromBytes(b[0], b[1], 0))[..3]) + [PAD]
    case _ => Chars(InSextets(FromBytes(b[0], b[1], b[2]))) + Encoded(b[3..])
  }

  /** The bytes that groups of four sextets stand for; a last group of fewer gives one byte less than it has. */
  function Grouped(ds: seq<sextet>): bytes
    decreases |ds|
  {
    match |ds|
    case 0 => []
    case 1 => []
    case 2 => InBytes(FromSextets(ds[0], ds[1], 0, 0))[..1]
    case 3 => InBytes(FromSextets(ds[0], ds[1], ds[2], 0))[..2]
    case _ => InBytes(FromSextets(ds[0], ds[1], ds[2], ds[3])) + Grouped(ds[4..])
  }

  /** The sextets up to the first character that is not in the alphabet. */
  function Sextets(s: bytes): seq<sextet> {
    if s == [] || !InAlphabet(s[0]) then [] else [SextetOf(s[0])] + Sextets(s[1..])
  }

  function Decoded(s: bytes): bytes {
    Grouped(Sextets(s))
  }

  // ---------------------------------------------------------------- decoding undoes encoding

  lemma {:induction false} SextetsOfChars(ds: seq<sextet>, rest: bytes)
    ensures Sextets(Chars(ds) + rest) == ds + Sextets(rest)
    decreases |ds|
  {
    if ds == [] {
      assert Chars(ds) + rest == rest;
    } else {
      hide CharOf, InAlphabet, SextetOf;
      var all := Chars(ds) + rest;
      assert all[1..] == Chars(ds[1..]) + rest;
      assert all[0] == CharOf(ds[0]) && InAlphabet(CharOf(ds[0])) && SextetOf(CharOf(ds[0])) == ds[0];
      SextetsOfChars(ds[1..], rest);
    }
  }

  lemma PaddingEnds(rest: bytes)
    ensures Sextets([PAD] + rest) == []
  {
  }

  /** A group keeps its number on the way there and back; zero bytes leave zero sextets. */
  lemma GroupBack(b0: byte, b1: byte, b2: byte)
    ensures var ds := InSextets(FromBytes(b0, b1, b2));
            FromSextets(ds[0], ds[1], ds[2], ds[3]) == FromBytes(b0, b1, b2)
    ensures b2 == 0 ==> InSextets(FromBytes(b0, b1, b2))[3] == 0
    ensures b1 == b2 == 0 ==> InSextets(FromBytes(b0, b1, b2))[2] == 0
  {
    hide InSextets, FromBytes, FromSextets;
    NumberBack(FromBytes(b0, b1, b2));
    SplitIs(b0, b1, b2);
  }

  lemma NumberBack(n: nat)
    requires n < 0x100_0000
    ensures var ds := InSextets(n); FromSextets(ds[0], ds[1], ds[2], ds[3]) == n
  {
  }

  /** Section 4 of RFC 4648: decoding what was encoded gives back every byte string. */
  lemma {:induction false} DecodesEncoded(b: bytes)
    ensures Decoded(Encoded(b)) == b
    decreases |b|
  {
    hide InSextets, InBytes, FromBytes, FromSextets, Chars, Sextets;
    if |b| == 0 {
      NoSextets();
    } else {
      var b1: byte := if |b| > 1 then b[1] else 0;
      var b2: byte := if |b| > 2 then b[2] else 0;
      var n := FromBytes(b[0], b1, b2);
      var ds := InSextets(n);
      GroupBack(b[0], b1, b2);
      BytesBack(b[0], b1, b2);
      if |b| == 1 {
        SextetsOfChars(ds[..2], [PAD, PAD]);
        PaddingEnds([PAD]);
        assert [PAD] + [PAD] == [PAD, PAD] && ds[..2] + [] == ds[..2];
      } else if |b| == 2 {
        SextetsOfChars(ds[..3], [PAD]);
        PaddingEnds([]);
        assert [PAD] + [] == [PAD] && ds[..3] + [] == ds[..3];
      } else {
        SextetsOfChars(ds, Encoded(b[3..]));
        DecodesEncoded(b[3..]);
        assert (ds + Sextets(Encoded(b[3..])))[4..] == Sextets(Encoded(b[3..]));
        assert b == [b[0], b1, b2] + b[3..];
      }
    }
  }

  lemma NoSextets()
    ensures Sextets([]) == []
  {
  }

  /** Encoded text is ASCII, and four characters long for every three bytes begun. */
  lemma {:induction false} EncodedIsText(b: bytes)
    ensures |Encoded(b)| == 4 * ((|b| + 2) / 3)
    ensures forall i :: 0 <= i < |Encoded(b)| ==> InAlphabet(Encoded(b)[i]) || Encoded(b)[i] == PAD
    decreases |b|
  {
    hide InSextets, FromBytes, InAlphabet;
    if |b| >= 3 {
      EncodedIsText(b[3..]);
    }
  }

  /** Decoding stops at the first character outside of the alphabet; what follows does not matter. */
  lemma {:induction false} DecodingStops(s: bytes, c: byte, rest: bytes)
    requires !InAlphabet(c)
    ensures Decoded(s + [c] + rest) == Decoded(s)
    decreases |s|
  {
    StopsAt(s, c, rest);
  }

  lemma {:induction false} StopsAt(s: bytes, c: byte, rest: bytes)
    requires !InAlphabet(c)
    ensures Sextets(s + [c] + rest) == Sextets(s)
    decreases |s|
  {
    hide InAlphabet, SextetOf;
    if s != [] {
      assert (s + [c] + rest)[1..] == s[1..] + [c] + rest;
      StopsAt(s[1..], c, rest);
    }
  }

  // ---------------------------------------------------------------- the alphabet of RFC 4648, table 1

  const ALPHABET: string := "ABCDEFGHIJKLMNOPQRSTUVWXYZ" + "abcdefghijklmnopqrstuvwxyz" + "0123456789+/"

  lemma UpperCase(d: nat)
    requires d < 26
    ensures "ABCDEFGHIJKLMNOPQRSTUVWXYZ"[d] as int == 0x41 + d
  {
  }

  lemma LowerCase(d: nat)
    requires d < 26
    ensures "abcdefghijklmnopqrstuvwxyz"[d] as int == 0x61 + d
  {
  }

  lemma OtherLetters(d: nat)
    requires d < 12
    ensures "0123456789+/"[d] as int == if d < 10 then 0x30 + d else if d == 10 then 0x2B else 0x2F
  {
  }

  lemma LetterIs(d: sextet)
    ensures |ALPHABET| == 64 && ALPHABET[d] as int == CharOf(d)
  {
    if d < 26 { UpperCase(d); } else if d < 52 { LowerCase(d - 26); } else { OtherLetters(d - 52); }
  }

  /** The alphabet consists of the letters of the table, each standing for its place in it. */
  lemma AlphabetIs(c: byte)
    ensures InAlphabet(c) <==> exists d: sextet :: d < |ALPHABET| && ALPHABET[d] as int == c
    ensures forall d: sextet :: d < |ALPHABET| && ALPHABET[d] as int == c ==> SextetOf(c) == d
  {
    hide CharOf, InAlphabet, SextetOf;
    forall d: sextet ensures |ALPHABET| == 64 && ALPHABET[d] as int == CharOf(d) { LetterIs(d); }
    if InAlphabet(c) {
      CharBack(c);
      assert ALPHABET[SextetOf(c)] as int == c;
    }
  }

  lemma CharBack(c: byte)
    requires InAlphabet(c)
    ensures CharOf(SextetOf(c)) == c
  {
  }

  /** The letter at a place of the table. */
  function Letter(d: sextet): (c: byte)
    ensures c == CharOf(d)
  {
    LetterIs(d);
    ALPHABET[d] as int
  }

  /** A 24-bit number in base 64. */
  function FourLetters(n: nat): (s: bytes)
    requires n < 0x100_0000
    ensures |s| == 4
  {
    [Letter(n / 64 / 64 / 64), Letter(n / 64 / 64 % 64), Letter(n / 64 % 64), Letter(n % 64)]
  }

  /** Three bytes as a number; bytes that are not there count as zero. */
  function NumberAt(b: bytes, i: nat): (n: nat)
    requires i < |b|
    ensures n < 0x100_0000
  {
    0x1_0000 * b[i] as int
    + (if i + 1 < |b| then 0x100 * b[i + 1] as int else 0)
    + (if i + 2 < |b| then b[i + 2] as int else 0)
  }

  lemma GroupLetters(b0: byte, b1: byte, b2: byte)
    ensures Chars(InSextets(FromBytes(b0, b1, b2))) == FourLetters(NumberAt([b0, b1, b2], 0))
  {
    hide CharOf, Letter;
  }

  lemma ShiftedBy(x: bytes, y: bytes, i: nat, j: nat)
    requires |x| == 4 && i <= j <= |y|
    ensures (x + y)[4 + i..4 + j] == y[i..j] && (x + y)[4 + i..] == y[i..]
  {
  }

  /** The letters of every group of three bytes are its number in base 64. */
  lemma {:induction false} EncodedLetters(b: bytes, g: nat)
    requires 3 * g + 3 <= |b|
    ensures 4 * g + 4 <= |Encoded(b)| && Encoded(b)[4 * g..4 * g + 4] == FourLetters(NumberAt(b, 3 * g))
    decreases g
  {
    hide Encoded, InSextets, FromBytes, FourLetters, Chars;
    var rest := b[3..];
    FullGroup(b, b[..3]);
    GroupLetters(b[0], b[1], b[2]);
    if g > 0 {
      EncodedLetters(rest, g - 1);
      ShiftedBy(FourLetters(NumberAt([b[0], b[1], b[2]], 0)), Encoded(rest), 4 * (g - 1), 4 * (g - 1) + 4);
    }
  }

  /** A last group of one or two bytes gives the letters of its bits, zeros behind them, and padding. */
  lemma {:induction false} LastLetters(b: bytes)
    requires |b| % 3 != 0
    ensures var four := FourLetters(NumberAt(b, |b| - |b| % 3));
            && 4 * (|b| / 3) <= |Encoded(b)|
            && Encoded(b)[4 * (|b| / 3)..]
               == if |b| % 3 == 1 then four[..2] + Letters("==") else four[..3] + Letters("=")
    decreases |b|
  {
    hide Encoded, InSextets, FromBytes, FourLetters, Chars;
    if |b| >= 3 {
      var rest := b[3..];
      FullGroup(b, b[..3]);
      GroupLetters(b[0], b[1], b[2]);
      assert |rest| % 3 == |b| % 3 && |rest| / 3 == |b| / 3 - 1;
      assert NumberAt(rest, |rest| - |rest| % 3) == NumberAt(b, |b| - |b| % 3);
      hide NumberAt;
      LastLetters(rest);
      var k := 4 * (|rest| / 3);
      ShiftedBy(FourLetters(NumberAt([b[0], b[1], b[2]], 0)), Encoded(rest), k, k);
    } else {
      ShortLetters(b);
    }
  }

  lemma ShortLetters(b: bytes)
    requires 0 < |b| < 3
    ensures Encoded(b) == if |b| == 1 then FourLetters(NumberAt(b, 0))[..2] + Letters("==")
                          else FourLetters(NumberAt(b, 0))[..3] + Letters("=")
  {
    hide Encoded, InSextets, FromBytes, FourLetters, Chars;
    assert Letters("==") == [PAD, PAD] && Letters("=") == [PAD];
    RestOf(b);
    var b1: byte := if |b| == 1 then 0 else b[1];
    GroupLetters(b[0], b1, 0);
    FirstChars(InSextets(FromBytes(b[0], b1, 0)), |b| + 1);
    assert NumberAt(b, 0) == NumberAt([b[0], b1, 0], 0);
  }

  lemma FirstChars(ds: seq<sextet>, n: nat)
    requires n <= |ds|
    ensures Chars(ds)[..n] == Chars(ds[..n])
  {
    hide CharOf;
  }

  /** These letters stand for these sextets. */
  ghost predicate Spelled(s: bytes, ds: seq<sextet>) {
    |s| == |ds| && forall i :: 0 <= i < |s| ==> s[i] == Letter(ds[i])
  }

  lemma {:induction false} SpelledSextets(s: bytes, ds: seq<sextet>)
    requires Spelled(s, ds)
    ensures Sextets(s) == ds
    decreases |s|
  {
    hide CharOf, InAlphabet, SextetOf;
    if s != [] {
      assert s[0] == Letter(ds[0]);
      SpelledSextets(s[1..], ds[1..]);
    }
  }

  /** Letters as a number of 24 bits; those that are not there count as zero. */
  function SextetsAt(ds: seq<sextet>, i: nat): (n: nat)
    requires i < |ds|
    ensures n < 0x100_0000
  {
    0x4_0000 * ds[i] as int
    + (if i + 1 < |ds| then 0x1000 * ds[i + 1] as int else 0)
    + (if i + 2 < |ds| then 0x40 * ds[i + 2] as int else 0)
    + (if i + 3 < |ds| then ds[i + 3] as int else 0)
  }

  function ThreeBytes(n: nat): (s: bytes)
    requires n < 0x100_0000
    ensures |s| == 3
  {
    [n / 0x1_0000, n / 0x100 % 0x100, n % 0x100]
  }

  /** The bytes of every group of four letters are those of its number. */
  lemma DecodedBytes(s: bytes, ds: seq<sextet>, g: nat)
    requires Spelled(s, ds) && 4 * g + 4 <= |s|
    ensures 3 * g + 3 <= |Decoded(s)| && Decoded(s)[3 * g..3 * g + 3] == ThreeBytes(SextetsAt(ds, 4 * g))
  {
    hide Sextets, Grouped, Letter;
    SpelledSextets(s, ds);
    GroupedBytes(ds, g);
  }

  lemma ThreeBytesAre(n: nat)
    requires n < 0x100_0000
    ensures InBytes(n) == ThreeBytes(n)
  {
  }

  lemma {:induction false} GroupedBytes(ds: seq<sextet>, g: nat)
    requires 4 * g + 4 <= |ds|
    ensures 3 * g + 3 <= |Grouped(ds)| && Grouped(ds)[3 * g..3 * g + 3] == ThreeBytes(SextetsAt(ds, 4 * g))
    decreases g
  {
    hide Grouped, InBytes, ThreeBytes;
    GroupOfFour(ds);
    ThreeBytesAre(FromSextets(ds[0], ds[1], ds[2], ds[3]));
    var first, rest := InBytes(FromSextets(ds[0], ds[1], ds[2], ds[3])), Grouped(ds[4..]);
    if g > 0 {
      GroupedBytes(ds[4..], g - 1);
      assert (first + rest)[3 * g..3 * g + 3] == rest[3 * (g - 1)..3 * (g - 1) + 3];
    }
  }

  /** A last group of fewer gives one byte less than it has letters; bits that are left over do not matter. */
  lemma LastBytes(s: bytes, ds: seq<sextet>)
    requires Spelled(s, ds) && |s| % 4 != 0
    ensures var k := 4 * (|s| / 4);
            && 3 * (|s| / 4) <= |Decoded(s)|
            && Decoded(s)[3 * (|s| / 4)..] == ThreeBytes(SextetsAt(ds, k))[..|s| % 4 - 1]
  {
    hide Sextets, Grouped, Letter;
    SpelledSextets(s, ds);
    GroupedRest(ds);
  }

  lemma {:induction false} GroupedRest(ds: seq<sextet>)
    requires |ds| % 4 != 0
    ensures 3 * (|ds| / 4) <= |Grouped(ds)|
    ensures Grouped(ds)[3 * (|ds| / 4)..] == ThreeBytes(SextetsAt(ds, 4 * (|ds| / 4)))[..|ds| % 4 - 1]
    decreases |ds|
  {
    hide InBytes, ThreeBytes;
    if |ds| >= 4 {
      hide Grouped;
      GroupOfFour(ds);
      var first, rest := InBytes(FromSextets(ds[0], ds[1], ds[2], ds[3])), Grouped(ds[4..]);
      GroupedRest(ds[4..]);
      assert |ds[4..]| / 4 == |ds| / 4 - 1 && |ds[4..]| % 4 == |ds| % 4;
      var k := 3 * (|ds| / 4);
      assert (first + rest)[k..] == rest[k - 3..];
      assert SextetsAt(ds[4..], 4 * (|ds| / 4) - 4) == SextetsAt(ds, 4 * (|ds| / 4));
    } else {
      ThreeBytesAre(SextetsAt(ds, 0));
    }
  }

  // ---------------------------------------------------------------- the loops

  /** The four sextets of three bytes, with the masks and shifts of the code. */
  method Split(three: array<byte>, four: array<byte>)
    requires three.Length == 3 && four.Length == 4
    modifies four
    ensures four[..] == InSextets(FromBytes(three[0], three[1], three[2]))
  {
    var c0, c1, c2 := three[0], three[1], three[2];
    four[0] := c0 / 4;
    four[1] := c0 % 4 * 16 + c1 / 16;
    four[2] := c1 % 16 * 4 + c2 / 64;
    four[3] := c2 % 64;
    SplitIs(c0, c1, c2);
  }

  lemma SplitIs(c0: byte, c1: byte, c2: byte)
    ensures InSextets(FromBytes(c0, c1, c2)) == [c0 / 4, c0 % 4 * 16 + c1 / 16, c1 % 16 * 4 + c2 / 64, c2 % 64]
  {
    hide InSextets, FromSextets, FromBytes;
    SextetsBack(c0 / 4, c0 % 4 * 16 + c1 / 16, c1 % 16 * 4 + c2 / 64, c2 % 64);
    Regroup(c0 / 4, c0 % 4, c1 / 16, c1 % 16, c2 / 64, c2 % 64);
  }

  /** The three bytes of four sextets. */
  method Join(four: array<byte>, three: array<byte>)
    requires three.Length == 3 && four.Length == 4 && three != four
    requires four[0] < 64 && four[1] < 64 && four[2] < 64 && four[3] < 64
    modifies three
    ensures three[..] == InBytes(FromSextets(four[0], four[1], four[2], four[3]))
  {
    hide InBytes, FromSextets, FirstByte, SecondByte, ThirdByte;
    JoinIs(four[0], four[1], four[2], four[3]);
    three[0] := FirstByte(four[0], four[1]);
    three[1] := SecondByte(four[1], four[2]);
    three[2] := ThirdByte(four[2], four[3]);
    assert three[..] == [three[0], three[1], three[2]];
  }

  lemma JoinIs(d0: sextet, d1: sextet, d2: sextet, d3: sextet)
    ensures InBytes(FromSextets(d0, d1, d2, d3)) == [FirstByte(d0, d1), SecondByte(d1, d2), ThirdByte(d2, d3)]
  {
    hide InBytes, FromSextets, FromBytes, FirstByte, SecondByte, ThirdByte;
    BytesBack(FirstByte(d0, d1), SecondByte(d1, d2), ThirdByte(d2, d3));
    AcrossSextets(d0, d1, d2, d3);
    Divided(d1, 16);
    Divided(d2, 4);
    Regroup(d0, d1 / 16, d1 % 16, d2 / 4, d2 % 4, d3);
  }

  lemma AcrossSextets(d0: sextet, d1: sextet, d2: sextet, d3: sextet)
    ensures FirstByte(d0, d1) == d0 * 4 + d1 / 16
    ensures SecondByte(d1, d2) == d1 % 16 * 16 + d2 / 4
    ensures ThirdByte(d2, d3) == d2 % 4 * 64 + d3
  {
    Divided(d1, 16);
    Divided(d2, 4);
    Small(d1, 64);
    Small(d2, 64);
    Small(d0 * 4 + d1 / 16, 256);
    Small(d1 % 16 * 16 + d2 / 4, 256);
    Small(d2 % 4 * 64 + d3, 256);
  }

  lemma Small(x: nat, m: nat)
    requires x < m
    ensures x % m == x
  {
  }

  lemma Divided(d: sextet, n: nat)
    requires n == 4 || n == 16
    ensures d / n * n + d % n == d && 0 <= d / n < 64 / n && 0 <= d % n < n
  {
  }

  /** The same 24 bits, with the middle sextets cut in two. */
  lemma Regroup(d0: sextet, q1: int, r1: int, q2: int, r2: int, d3: sextet)
    requires 0 <= q1 < 4 && 0 <= r1 < 16 && 0 <= q2 < 16 && 0 <= r2 < 4
    ensures FromSextets(d0, q1 * 16 + r1, q2 * 4 + r2, d3) == FromBytes(d0 as int * 4 + q1, r1 * 16 + q2, r2 * 64 + d3)
  {
  }

  /** `base64_encode` */
  method Encode(input: bytes) returns (ret: bytes)
    ensures ret == Encoded(input)
  {
    hide InSextets, FromBytes, CharOf, Encoded, Chars, InAlphabet, SextetOf;
    ret := [];
    var i, pos := 0, 0;
    var three, four := new byte[3], new byte[4];
    assert input[0..] == input;
    while pos < |input|
      invariant 0 <= i < 3 && i <= pos <= |input|
      invariant three[..i] == input[pos - i..pos]
      invariant ret + Encoded(input[pos - i..]) == Encoded(input)
    {
      ghost var was := three[..i];
      OneMoreByte(input, pos - i, pos);
      three[i] := input[pos];
      assert three[..i + 1] == was + [input[pos]];
      pos := pos + 1;
      i := i + 1;
      if i == 3 {
        ghost var group := input[pos - 3..];
        assert three[..] == three[..3] == group[..3] && group[3..] == input[pos..];
        FullGroup(group, three[..]);
        Split(three, four);
        FourChars(four[..]);
        ret := ret + [CharOf(four[0]), CharOf(four[1]), CharOf(four[2]), CharOf(four[3])];
        i := 0;
      }
    }
    assert input[pos - i..] == three[..i];
    ret := EncodeRest(three, four, i, ret);
  }

  lemma OneMoreByte(s: bytes, i: nat, j: nat)
    requires i <= j < |s|
    ensures s[i..j] + [s[j]] == s[i..j + 1]
  {
  }

  /** The one or two bytes that are left over, if any. */
  method EncodeRest(three: array<byte>, four: array<byte>, i: nat, ret: bytes) returns (ret': bytes)
    requires three.Length == 3 && four.Length == 4 && three != four && i < 3
    modifies three, four
    ensures ret' == ret + Encoded(old(three[..i]))
  {
    hide InSextets, FromBytes, CharOf, Encoded, Chars;
    ret' := ret;
    RestOf(three[..i]);
    if i != 0 {
      for j := i to 3
        invariant three[..i] == old(three[..i]) && forall k :: i <= k < j ==> three[k] == 0
      {
        three[j] := 0;
      }
      Split(three, four);
      ghost var ds: seq<sextet> := four[..];
      FourChars(ds);
      for j := 0 to i + 1
        invariant four[..] == ds && ret' == ret + Chars(ds)[..j]
      {
        ret' := ret' + [CharOf(four[j])];
      }
      var k := i;
      while k < 3
        invariant i <= k <= 3 && ret' == ret + Chars(ds)[..i + 1] + seq(k - i, _ => PAD)
      {
        ret' := ret' + [PAD];
        k := k + 1;
      }
    }
  }

  lemma FourChars(ds: seq<sextet>)
    requires |ds| == 4
    ensures Chars(ds) == [CharOf(ds[0]), CharOf(ds[1]), CharOf(ds[2]), CharOf(ds[3])]
  {
  }

  lemma FullGroup(b: bytes, three: bytes)
    requires |b| >= 3 && |three| == 3 && three == b[..3]
    ensures Encoded(b) == Chars(InSextets(FromBytes(three[0], three[1], three[2]))) + Encoded(b[3..])
  {
  }

  lemma RestOf(b: bytes)
    requires |b| < 3
    ensures b == [] ==> Encoded(b) == []
    ensures |b| == 1 ==> Encoded(b) == Chars(InSextets(FromBytes(b[0], 0, 0)))[..2] + [PAD, PAD]
    ensures |b| == 2 ==> Encoded(b) == Chars(InSextets(FromBytes(b[0], b[1], 0)))[..3] + [PAD]
  {
    hide InSextets, FromBytes, CharOf;
  }

  /** `base64_decode` */
  method Decode(input: bytes) returns (ret: bytes)
    ensures ret == Decoded(input)
  {
    hide InBytes, FromSextets, InAlphabet, SextetOf, Grouped, Sextets;
    ret := [];
    var i, pos := 0, 0;
    var four, three := new byte[4], new byte[3];
    ghost var ds := Sextets(input);
    assert input[0..] == input && ds[0..] == ds;
    while pos < |input| && input[pos] != PAD && InAlphabet(input[pos])
      invariant 0 <= i < 4 && i <= pos <= |input| && pos <= |ds| && ds[pos..] == Sextets(input[pos..])
      invariant Reads(four[..i], ds[pos - i..pos])
      invariant ret + Grouped(ds[pos - i..]) == Grouped(ds)
    {
      SextetsStep(input[pos..]);
      assert input[pos..][1..] == input[pos + 1..] && ds[pos..][1..] == ds[pos + 1..];
      ReadsMore(four[..i], ds[pos - i..pos], input[pos]);
      assert ds[pos - i..pos] + [SextetOf(input[pos])] == ds[pos - i..pos + 1];
      four[i] := input[pos];
      assert four[..i + 1] == four[..i] + [input[pos]];
      pos := pos + 1;
      i := i + 1;
      if i == 4 {
        var group := ds[pos - 4..];
        assert ds[pos - 4..pos] == group[..4] && group[4..] == ds[pos..];
        GroupOfFour(group);
        Look(four, 4, ds[pos - 4..pos]);
        Join(four, three);
        ret := ret + three[..];
        i := 0;
      }
    }
    SextetsEnd(input[pos..]);
    assert |ds[pos..]| == |ds| - pos == 0;
    assert ds[pos - i..] == ds[pos - i..pos];
    ret := DecodeRest(four, three, i, ret, ds[pos - i..pos]);
  }

  /** The up to three characters that are left over, if any; one alone gives nothing. */
  method DecodeRest(four: array<byte>, three: array<byte>, i: nat, ret: bytes, ghost ds: seq<sextet>)
      returns (ret': bytes)
    requires three.Length == 3 && four.Length == 4 && three != four && i < 4 && Reads(four[..i], ds)
    modifies three, four
    ensures ret' == ret + Grouped(ds)
  {
    hide Grouped, SextetOf, InAlphabet;
    ret' := ret;
    GroupOfFewer(ds);
    if i != 0 {
      Look(four, i, ds);
      JoinFirst(four, three, i, ds);
      ghost var group := three[..];
      for j := 0 to i - 1
        invariant three[..] == group && ret' == ret + group[..j]
      {
        ret' := ret' + [three[j]];
      }
    }
  }

  /** The first bytes of a group that breaks off after `n` sextets; what is behind them may be anything. */
  method JoinFirst(four: array<byte>, three: array<byte>, n: nat, ghost ds: seq<sextet>)
    requires three.Length == 3 && four.Length == 4 && three != four && 0 < n < 4 && |ds| == n && four[..n] == ds
    modifies three
    ensures n > 1 ==> three[0] == FirstByte(ds[0], ds[1])
    ensures n > 2 ==> three[1] == SecondByte(ds[1], ds[2])
  {
    hide FirstByte, SecondByte;
    assert four[0] == four[..n][0] && (n > 1 ==> four[1] == four[..n][1]) && (n > 2 ==> four[2] == four[..n][2]);
    three[0] := FirstByte(four[0], four[1]);
    three[1] := SecondByte(four[1], four[2]);
  }

  /** These characters are in the alphabet, and stand for these sextets. */
  ghost predicate Reads(cs: bytes, ds: seq<sextet>) {
    |cs| == |ds| && forall k :: 0 <= k < |cs| ==> InAlphabet(cs[k]) && SextetOf(cs[k]) == ds[k]
  }

  lemma ReadsMore(cs: bytes, ds: seq<sextet>, c: byte)
    requires Reads(cs, ds) && InAlphabet(c)
    ensures Reads(cs + [c], ds + [SextetOf(c)])
  {
  }

  /** Replaces the first `n` characters by what they stand for. */
  method Look(four: array<byte>, n: nat, ghost ds: seq<sextet>)
    requires n <= four.Length && Reads(four[..n], ds)
    modifies four
    ensures four[..n] == ds && four[n..] == old(four[n..])
  {
    for i := 0 to n
      invariant four[..i] == ds[..i] && four[i..] == old(four[i..])
    {
      assert four[i..][0] == old(four[i..])[0];
      assert four[i] == old(four[..n])[i];
      four[i] := SextetOf(four[i]);
    }
  }

  lemma SextetsStep(s: bytes)
    requires s != [] && InAlphabet(s[0])
    ensures Sextets(s) != [] && Sextets(s)[0] == SextetOf(s[0]) && Sextets(s)[1..] == Sextets(s[1..])
  {
  }

  lemma SextetsEnd(s: bytes)
    requires s == [] || s[0] == PAD || !InAlphabet(s[0])
    ensures Sextets(s) == []
  {
  }

  lemma GroupOfFour(ds: seq<sextet>)
    requires |ds| >= 4
    ensures Grouped(ds) == InBytes(FromSextets(ds[0], ds[1], ds[2], ds[3])) + Grouped(ds[4..])
  {
  }

  /** The byte across the first two sextets; in the second, only its six bits count. */
  function FirstByte(d0: byte, d1: byte): byte { (d0 * 4 + d1 % 64 / 16) % 256 }

  /** The byte across the next two. */
  function SecondByte(d1: byte, d2: byte): byte { (d1 % 16 * 16 + d2 % 64 / 4) % 256 }

  /** The byte at the end. */
  function ThirdByte(d2: byte, d3: byte): byte { (d2 % 4 * 64 + d3) % 256 }

  lemma GroupOfFewer(ds: seq<sextet>)
    requires |ds| <= 3
    ensures |ds| <= 1 ==> Grouped(ds) == []
    ensures |ds| == 2 ==> Grouped(ds) == [FirstByte(ds[0], ds[1])]
    ensures |ds| == 3 ==> Grouped(ds) == [FirstByte(ds[0], ds[1]), SecondByte(ds[1], ds[2])]
  {
    hide InBytes, FromSextets, FirstByte, SecondByte;
    if |ds| == 2 {
      JoinedBytes(ds[0], ds[1], 0);
    } else if |ds| == 3 {
      JoinedBytes(ds[0], ds[1], ds[2]);
    }
  }

  lemma JoinedBytes(d0: sextet, d1: sextet, d2: sextet)
    ensures InBytes(FromSextets(d0, d1, d2, 0))[..1] == [FirstByte(d0, d1)]
    ensures InBytes(FromSextets(d0, d1, d2, 0))[..2] == [FirstByte(d0, d1), SecondByte(d1, d2)]
  {
    hide InBytes, FromSextets, FirstByte, SecondByte, ThirdByte;
    JoinIs(d0, d1, d2, 0);
  }
}
