/**
 The reader recognises exactly the grammar: what it reads is grammatical and renders to the text
 it consumed, and every grammatical text is read back as the tree it was rendered from. So no
 text has two derivations.
 */
module JsonRecognition {
  import opened Bytes
  import opened JsonGrammar
  import opened JsonReading
  import opened JsonGaps

  // ---------------------------------------------------------------- digits

  lemma {:induction false} DigitsSound(t: bytes, i: nat)
    requires i <= |t|
    ensures forall k :: i <= k < DigitsEnd(t, i) ==> IsDigit(t[k])
    ensures !IsDigit(At(t, DigitsEnd(t, i)))
    decreases |t| - i
  {
    if IsDigit(At(t, i)) { DigitsSound(t, i + 1); }
  }

  lemma {:induction false} DigitsComplete(t: bytes, i: nat, j: nat)
    requires i <= j <= |t| && (forall k :: i <= k < j ==> IsDigit(t[k])) && !IsDigit(At(t, j))
    ensures DigitsEnd(t, i) == j
    decreases j - i
  {
    if i < j { DigitsComplete(t, i + 1, j); }
  }

  lemma DigitsFrom(t: bytes, i: nat)
    requires i <= |t| && IsDigit(At(t, i))
    ensures i < DigitsEnd(t, i) && DigitsEnd(t, i) == DigitsEnd(t, i + 1)
    ensures Digits(t[i..DigitsEnd(t, i)])
  {
    DigitsSound(t, i);
  }

  lemma DigitsThere(t: bytes, i: nat, d: bytes)
    requires Digits(d) && Has(t, i, d) && !IsDigit(At(t, i + |d|))
    ensures IsDigit(At(t, i)) && At(t, i) == d[0] && DigitsEnd(t, i + 1) == i + |d| && t[i..i + |d|] == d
  {
    forall k | i <= k < i + |d| ensures IsDigit(t[k]) {
      HasAt(t, i, d, k - i);
    }
    HasAt(t, i, d, 0);
    DigitsComplete(t, i, i + |d|);
    DigitsFrom(t, i);
  }

  // ---------------------------------------------------------------- numbers

  function MinusPart(n: NumTok): bytes { if n.minus then [0x2D] else [] }

  function FracPart(n: NumTok): bytes { if n.frac == [] then [] else [0x2E] + n.frac }

  function ExpPart(n: NumTok): bytes { if n.e == [] then [] else n.e + n.sign + n.exp }

  lemma NumParts(t: bytes, i: nat, n: NumTok)
    ensures var a := i + |MinusPart(n)|; var b := a + |n.whole|; var c := b + |FracPart(n)|;
            && (Has(t, i, RenderNum(n)) <==>
                  Has(t, i, MinusPart(n)) && Has(t, a, n.whole) && Has(t, b, FracPart(n)) && Has(t, c, ExpPart(n)))
            && i + |RenderNum(n)| == c + |ExpPart(n)|
  {
    HasConcat(t, i, MinusPart(n) + n.whole + FracPart(n), ExpPart(n));
    HasConcat(t, i, MinusPart(n) + n.whole, FracPart(n));
    HasConcat(t, i, MinusPart(n), n.whole);
  }

  lemma WholeSound(t: bytes, a: nat)
    requires a <= |t| && WholeEnd(t, a).Some?
    ensures var b := WholeEnd(t, a).v;
            Digits(t[a..b]) && (t[a] == 0x30 ==> b == a + 1)
  {
    if At(t, a) != 0x30 { DigitsFrom(t, a); }
  }

  lemma FracSound(t: bytes, b: nat)
    requires b <= |t| && FracEnd(t, b).Some?
    ensures var c := FracEnd(t, b).v;
            b < c ==> b + 1 < c && t[b] == 0x2E && Digits(t[b + 1..c]) && t[b..c] == [0x2E] + t[b + 1..c]
  {
    if At(t, b) == 0x2E { DigitsFrom(t, b + 1); }
  }

  lemma ExpSound(t: bytes, c: nat)
    requires c <= |t| && ExpEnd(t, c).Some?
    ensures var d := ExpEnd(t, c).v;
            c < d ==> && IsE(t[c]) && AfterSign(t, c) < d && Digits(t[AfterSign(t, c)..d])
                      && t[c + 1..AfterSign(t, c)] in {[], [0x2B], [0x2D]}
                      && t[c..d] == t[c..c + 1] + t[c + 1..AfterSign(t, c)] + t[AfterSign(t, c)..d]
  {
    if IsE(At(t, c)) {
      var s := AfterSign(t, c);
      DigitsFrom(t, s);
      if s == c + 2 { assert t[c + 1..s] == [t[c + 1]]; } else { assert t[c + 1..s] == []; }
    }
  }

  /** The parts of the token are the pieces of text it was read from. */
  lemma TokenParts(t: bytes, i: nat)
    requires i <= |t| && ReadNumber(t, i).Some?
    ensures var (n, d) := ReadNumber(t, i).v;
            var a := i + |MinusPart(n)|; var b := a + |n.whole|; var c := b + |FracPart(n)|;
            && b <= |t| && c <= d <= |t| && d == c + |ExpPart(n)| && NumOk(n)
            && MinusPart(n) == t[i..a] && n.whole == t[a..b] && FracPart(n) == t[b..c] && ExpPart(n) == t[c..d]
  {
    hide ReadNumber, WholeEnd, FracEnd, ExpEnd, AfterSign, TokenAt, NumOk, Digits, FracPart, ExpPart, IsE, IsDigit;
    var minus, a, b, c, d := NumberPieces(t, i);
    WholeSound(t, a);
    FracSound(t, b);
    ExpSound(t, c);
    TokenAtParts(t, minus, a, b, c, d);
    if minus { assert t[i..a] == [t[i]]; }
  }

  /** Where the parts of a number that was read begin and end. */
  lemma NumberPieces(t: bytes, i: nat) returns (minus: bool, a: nat, b: nat, c: nat, d: nat)
    requires i <= |t| && ReadNumber(t, i).Some?
    ensures a == (if minus then i + 1 else i) && (minus ==> i < |t| && t[i] == 0x2D)
    ensures a < b <= c <= d <= |t| && WholeEnd(t, a) == Some(b) && FracEnd(t, b) == Some(c) && ExpEnd(t, c) == Some(d)
    ensures ReadNumber(t, i) == Some((TokenAt(t, minus, a, b, c, d), d))
  {
    hide WholeEnd, FracEnd, ExpEnd, TokenAt;
    minus := At(t, i) == 0x2D;
    a := if minus then i + 1 else i;
    b := WholeEnd(t, a).v;
    c := FracEnd(t, b).v;
    d := ExpEnd(t, c).v;
  }

  lemma TokenAtParts(t: bytes, minus: bool, a: nat, b: nat, c: nat, d: nat)
    requires a < b <= c <= d <= |t|
    requires Digits(t[a..b]) && (t[a] == 0x30 ==> b == a + 1)
    requires b < c ==> b + 1 < c && Digits(t[b + 1..c]) && t[b..c] == [0x2E] + t[b + 1..c]
    requires c < d ==> && IsE(t[c]) && AfterSign(t, c) < d && Digits(t[AfterSign(t, c)..d])
                       && t[c + 1..AfterSign(t, c)] in {[], [0x2B], [0x2D]}
                       && t[c..d] == t[c..c + 1] + t[c + 1..AfterSign(t, c)] + t[AfterSign(t, c)..d]
    ensures var n := TokenAt(t, minus, a, b, c, d);
            NumOk(n) && n.minus == minus && n.whole == t[a..b] && FracPart(n) == t[b..c] && ExpPart(n) == t[c..d]
  {
    hide Digits, AfterSign;
  }

  lemma NumberSound(t: bytes, i: nat)
    requires i <= |t| && ReadNumber(t, i).Some?
    ensures var (n, d) := ReadNumber(t, i).v;
            NumOk(n) && Has(t, i, RenderNum(n)) && d == i + |RenderNum(n)|
  {
    hide Has, RenderNum, ReadNumber, MinusPart, FracPart, ExpPart, NumOk;
    TokenParts(t, i);
    var (n, d) := ReadNumber(t, i).v;
    var a := i + |MinusPart(n)|;
    var b := a + |n.whole|;
    var c := b + |FracPart(n)|;
    HasSlice(t, i, a);
    HasSlice(t, a, b);
    HasSlice(t, b, c);
    HasSlice(t, c, d);
    NumParts(t, i, n);
  }

  /** Not a byte that would make a number before it longer. */
  predicate EndsNumber(b: byte) {
    !IsDigit(b) && b != 0x2E && !IsE(b)
  }

  lemma WholeComplete(t: bytes, a: nat, whole: bytes)
    requires Digits(whole) && (whole[0] == 0x30 ==> |whole| == 1)
    requires Has(t, a, whole) && !IsDigit(At(t, a + |whole|))
    ensures WholeEnd(t, a) == Some(a + |whole|) && t[a..a + |whole|] == whole
  {
    DigitsThere(t, a, whole);
  }

  lemma FracComplete(t: bytes, b: nat, frac: bytes)
    requires frac == [] || Digits(frac)
    requires Has(t, b, if frac == [] then [] else [0x2E] + frac)
    requires var c := b + (if frac == [] then 0 else 1 + |frac|);
             c <= |t| && !IsDigit(At(t, c)) && At(t, c) != 0x2E
    ensures var c := b + (if frac == [] then 0 else 1 + |frac|);
            FracEnd(t, b) == Some(c) && (frac != [] ==> t[b + 1..c] == frac)
  {
    if frac != [] {
      HasHead(t, b, 0x2E, frac);
      DigitsThere(t, b + 1, frac);
    }
  }

  lemma ExpComplete(t: bytes, c: nat, e: bytes, sign: bytes, exp: bytes)
    requires (e == [0x65] || e == [0x45]) && sign in {[], [0x2B], [0x2D]} && Digits(exp)
    requires Has(t, c, e + sign + exp) && !IsDigit(At(t, c + |e + sign + exp|))
    ensures var s := c + 1 + |sign|;
            && IsE(At(t, c)) && AfterSign(t, c) == s && ExpEnd(t, c) == Some(s + |exp|)
            && t[c..c + 1] == e && t[c + 1..s] == sign && t[s..s + |exp|] == exp
  {
    var s := c + 1 + |sign|;
    HasConcat(t, c, e + sign, exp);
    HasConcat(t, c, e, sign);
    HasOne(t, c, e[0]);
    DigitsThere(t, s, exp);
    if sign != [] { HasOne(t, c + 1, sign[0]); }
  }

  /** Where the reader finds the parts of a number, and that they are the parts rendered. */
  lemma NumberPlaces(t: bytes, i: nat, n: NumTok)
    requires NumOk(n) && Has(t, i, RenderNum(n)) && EndsNumber(At(t, i + |RenderNum(n)|))
    ensures var a := i + |MinusPart(n)|; var b := a + |n.whole|; var c := b + |FracPart(n)|; var d := c + |ExpPart(n)|;
            && d == i + |RenderNum(n)| <= |t|
            && (n.minus <==> At(t, i) == 0x2D)
            && WholeEnd(t, a) == Some(b) && t[a..b] == n.whole
            && FracEnd(t, b) == Some(c) && (n.frac != [] ==> t[b + 1..c] == n.frac)
            && ExpEnd(t, c) == Some(d)
            && (n.e != [] ==> && t[c..c + 1] == n.e && t[c + 1..AfterSign(t, c)] == n.sign
                              && t[AfterSign(t, c)..d] == n.exp)
            && IsDigit(At(t, a))
  {
    hide RenderNum, WholeEnd, FracEnd, ExpEnd, AfterSign, Has, NumOk, Digits, MinusPart, FracPart, ExpPart, EndsNumber;
    var a := i + |MinusPart(n)|;
    var b := a + |n.whole|;
    var c := b + |FracPart(n)|;
    NumParts(t, i, n);
    NumFacts(n);
    ExpPlace(t, c, n);
    FracPlace(t, b, n);
    WholeComplete(t, a, n.whole);
    HasAt(t, a, n.whole, 0);
    MinusPlace(t, i, n);
  }

  lemma ExpPlace(t: bytes, c: nat, n: NumTok)
    requires NumOk(n) && Has(t, c, ExpPart(n)) && EndsNumber(At(t, c + |ExpPart(n)|))
    ensures var d := c + |ExpPart(n)|;
            && d <= |t| && !IsDigit(At(t, c)) && At(t, c) != 0x2E && ExpEnd(t, c) == Some(d)
            && (n.e != [] ==> && t[c..c + 1] == n.e && t[c + 1..AfterSign(t, c)] == n.sign
                              && t[AfterSign(t, c)..d] == n.exp)
  {
    hide Has, NumOk, Digits, AfterSign;
    NumFacts(n);
    HasFits(t, c, ExpPart(n));
    if n.e != [] { ExpComplete(t, c, n.e, n.sign, n.exp); }
  }

  lemma FracPlace(t: bytes, b: nat, n: NumTok)
    requires NumOk(n) && Has(t, b, FracPart(n)) && b + |FracPart(n)| <= |t|
    requires !IsDigit(At(t, b + |FracPart(n)|)) && At(t, b + |FracPart(n)|) != 0x2E
    ensures var c := b + |FracPart(n)|;
            && !IsDigit(At(t, b)) && FracEnd(t, b) == Some(c) && (n.frac != [] ==> t[b + 1..c] == n.frac)
  {
    hide Has, NumOk, Digits, FracEnd;
    NumFacts(n);
    FracComplete(t, b, n.frac);
    if n.frac != [] { HasAt(t, b, FracPart(n), 0); }
  }

  lemma MinusPlace(t: bytes, i: nat, n: NumTok)
    requires Has(t, i, MinusPart(n)) && i + |MinusPart(n)| < |t| && IsDigit(t[i + |MinusPart(n)|])
    ensures n.minus <==> At(t, i) == 0x2D
  {
    if n.minus { HasOne(t, i, 0x2D); }
  }

  lemma NumFacts(n: NumTok)
    requires NumOk(n)
    ensures Digits(n.whole) && IsDigit(n.whole[0]) && (n.whole[0] == 0x30 ==> |n.whole| == 1)
    ensures n.frac == [] || Digits(n.frac)
    ensures if n.e == [] then n.sign == [] && n.exp == []
            else (n.e == [0x65] || n.e == [0x45]) && n.sign in {[], [0x2B], [0x2D]} && Digits(n.exp)
  {
  }

  lemma NumberComplete(t: bytes, i: nat, n: NumTok)
    requires NumOk(n) && Has(t, i, RenderNum(n)) && EndsNumber(At(t, i + |RenderNum(n)|))
    ensures ReadNumber(t, i) == Some((n, i + |RenderNum(n)|))
    ensures At(t, i) == 0x2D || IsDigit(At(t, i))
  {
    hide RenderNum, WholeEnd, FracEnd, ExpEnd, AfterSign, Has, NumOk, TokenAt, ReadNumber, FracPart, ExpPart;
    hide EndsNumber, IsDigit;
    var a := i + |MinusPart(n)|;
    var b := a + |n.whole|;
    var c := b + |FracPart(n)|;
    NumberPlaces(t, i, n);
    TokenIs(t, i, n);
    NumberFrom(t, i, a, b, c, c + |ExpPart(n)|);
  }

  lemma NumberFrom(t: bytes, i: nat, a: nat, b: nat, c: nat, d: nat)
    requires i <= |t| && a == (if At(t, i) == 0x2D then i + 1 else i) && a <= b <= c <= d <= |t|
    requires WholeEnd(t, a) == Some(b) && FracEnd(t, b) == Some(c) && ExpEnd(t, c) == Some(d)
    ensures ReadNumber(t, i) == Some((TokenAt(t, At(t, i) == 0x2D, a, b, c, d), d))
  {
    hide WholeEnd, FracEnd, ExpEnd, TokenAt;
  }

  lemma TokenIs(t: bytes, i: nat, n: NumTok)
    requires NumOk(n) && Has(t, i, RenderNum(n)) && EndsNumber(At(t, i + |RenderNum(n)|))
    ensures var a := i + |MinusPart(n)|; var b := a + |n.whole|; var c := b + |FracPart(n)|; var d := c + |ExpPart(n)|;
            d <= |t| && TokenAt(t, n.minus, a, b, c, d) == n
  {
    hide RenderNum, WholeEnd, FracEnd, ExpEnd, AfterSign, Has, NumOk, EndsNumber, IsDigit, Digits;
    NumberPlaces(t, i, n);
    NumFacts(n);
  }

  // ---------------------------------------------------------------- strings

  lemma ChrSound(t: bytes, i: nat)
    requires i < |t| && t[i] != QUOTE && ReadChr(t, i).Some?
    ensures var (c, j) := ReadChr(t, i).v;
            ChrOk(c) && Has(t, i, RenderChr(c)) && j == i + |RenderChr(c)|
  {
    var (c, j) := ReadChr(t, i).v;
    HasSlice(t, i, j);
    match c
    case Raw(b) => assert t[i..j] == [b];
    case Esc(e) => assert t[i..j] == [BACKSLASH, e];
    case Uni(hex) =>
      assert t[i..j] == [BACKSLASH, 0x75] + hex;
      assert hex == [t[i + 2], t[i + 3], t[i + 4], t[i + 5]];
  }

  lemma ChrComplete(t: bytes, i: nat, c: Chr)
    requires ChrOk(c) && Has(t, i, RenderChr(c))
    ensures i < |t| && t[i] != QUOTE && ReadChr(t, i) == Some((c, i + |RenderChr(c)|))
  {
    var r := RenderChr(c);
    HasAt(t, i, r, 0);
    match c
    case Raw(b) =>
    case Esc(e) => HasAt(t, i, r, 1);
    case Uni(hex) =>
      HasAt(t, i, r, 1);
      HasAt(t, i, r, 2);
      HasAt(t, i, r, 3);
      HasAt(t, i, r, 4);
      HasAt(t, i, r, 5);
      assert t[i + 2..i + 6] == hex;
  }

  lemma {:induction false} StringSound(t: bytes, i: nat)
    requires i <= |t| && ReadString(t, i).Some?
    ensures var (cs, j) := ReadString(t, i).v;
            CharsOk(cs) && Has(t, i, RenderChars(cs) + [QUOTE]) && j == i + |RenderChars(cs)| + 1
    decreases |t| - i
  {
    if t[i] == QUOTE {
      HasOne(t, i, QUOTE);
      assert RenderChars([]) + [QUOTE] == [QUOTE];
    } else {
      var (c, j) := ReadChr(t, i).v;
      ChrSound(t, i);
      StringSound(t, j);
      var (cs, k) := ReadString(t, j).v;
      assert ([c] + cs)[1..] == cs;
      HasConcat(t, i, RenderChr(c), RenderChars(cs) + [QUOTE]);
      assert RenderChr(c) + (RenderChars(cs) + [QUOTE]) == RenderChars([c] + cs) + [QUOTE];
    }
  }

  lemma {:induction false} StringComplete(t: bytes, i: nat, cs: seq<Chr>)
    requires CharsOk(cs) && Has(t, i, RenderChars(cs) + [QUOTE])
    ensures ReadString(t, i) == Some((cs, i + |RenderChars(cs)| + 1))
    decreases |cs|
  {
    hide Has, ReadChr, ChrOk, RenderChr, RenderChars, ReadString;
    CharsText(cs);
    if cs == [] {
      HasOne(t, i, QUOTE);
      StringEnds(t, i);
    } else {
      var c := cs[0];
      HasConcat(t, i, RenderChr(c), RenderChars(cs[1..]) + [QUOTE]);
      ChrComplete(t, i, c);
      StringComplete(t, i + |RenderChr(c)|, cs[1..]);
      StringGoesOn(t, i);
      assert [c] + cs[1..] == cs;
    }
  }

  lemma CharsText(cs: seq<Chr>)
    ensures if cs == [] then RenderChars(cs) + [QUOTE] == [QUOTE] && RenderChars(cs) == []
            else && RenderChars(cs) + [QUOTE] == RenderChr(cs[0]) + (RenderChars(cs[1..]) + [QUOTE])
                 && |RenderChars(cs)| == |RenderChr(cs[0])| + |RenderChars(cs[1..])|
  {
  }

  lemma StringEnds(t: bytes, i: nat)
    requires i < |t| && t[i] == QUOTE
    ensures ReadString(t, i) == Some(([], i + 1))
  {
  }

  lemma StringGoesOn(t: bytes, i: nat)
    requires i < |t| && t[i] != QUOTE && ReadChr(t, i).Some? && ReadString(t, ReadChr(t, i).v.1).Some?
    ensures var (c, j) := ReadChr(t, i).v; var (cs, k) := ReadString(t, j).v;
            ReadString(t, i) == Some(([c] + cs, k))
  {
    hide ReadChr;
  }

  // ---------------------------------------------------------------- what is read is grammatical

  /** `c` starts at `i` and ends at `j`, and may stand `depth` levels deep. */
  ghost predicate ReadsAs(t: bytes, i: nat, c: Cst, j: nat, depth: int, comments: bool) {
    Grammatical(c, comments) && Has(t, i, Render(c)) && j == i + |Render(c)| && depth + Depth(c) <= MAX_DEPTH
  }

  lemma WordSound(t: bytes, i: nat, word: bytes, c: Cst, depth: int, comments: bool)
    requires ReadWord(t, i, word, c).Some? && Render(c) == word && depth <= MAX_DEPTH
    requires c == CNull || c == CTrue || c == CFalse
    ensures var (c', j) := ReadWord(t, i, word, c).v; ReadsAs(t, i, c', j, depth, comments)
  {
  }

  lemma RenderWords()
    ensures Render(CNull) == NULL_TEXT && Render(CTrue) == TRUE_TEXT && Render(CFalse) == FALSE_TEXT
  {
  }

  lemma {:induction false} ValueSound(t: bytes, i: nat, depth: int, comments: bool)
    requires i <= |t| && ReadValue(t, i, depth, comments).Some?
    ensures var (w, c, j) := ReadValue(t, i, depth, comments).v;
            Gap(w, comments) && Has(t, i, w) && ReadsAs(t, i + |w|, c, j, depth, comments)
    decreases MAX_DEPTH + 1 - depth, 2, 0
  {
    hide Gap, GarbageEnd, Has, Grammatical, Render, Depth;
    var g := GarbageEnd(t, i, comments).v;
    GapSound(t, i, comments);
    HasSlice(t, i, g);
    BareSound(t, g, depth, comments);
  }

  lemma {:induction false} BareSound(t: bytes, i: nat, depth: int, comments: bool)
    requires i <= |t| && depth <= MAX_DEPTH && ReadBare(t, i, depth, comments).Some?
    ensures var (c, j) := ReadBare(t, i, depth, comments).v; ReadsAs(t, i, c, j, depth, comments)
    decreases MAX_DEPTH + 1 - depth, 1, 0
  {
    hide Gap, GarbageEnd, Has, Grammatical, Render, Depth, ReadsAs;
    hide ReadNumber, ReadString, ReadWord, ReadItems, ReadMembers;
    if t[i] == 0x2D || IsDigit(t[i]) {
      NumberSound(t, i);
      NumReadsAs(t, i, ReadNumber(t, i).v.0, depth, comments);
    } else if t[i] in {0x74, 0x66, 0x6E} {
      RenderWords();
      var c := if t[i] == 0x74 then CTrue else if t[i] == 0x66 then CFalse else CNull;
      WordSound(t, i, Render(c), c, depth, comments);
    } else if t[i] == QUOTE {
      StringSound(t, i + 1);
      StrReadsAs(t, i, ReadString(t, i + 1).v.0, depth, comments);
    } else {
      BracketSound(t, i, depth, comments);
    }
  }

  lemma {:induction false} BracketSound(t: bytes, i: nat, depth: int, comments: bool)
    requires i < |t| && depth <= MAX_DEPTH && (t[i] == 0x7B || t[i] == 0x5B) && ReadBare(t, i, depth, comments).Some?
    ensures var (c, j) := ReadBare(t, i, depth, comments).v; ReadsAs(t, i, c, j, depth, comments)
    decreases MAX_DEPTH + 1 - depth, 0, |t| - i
  {
    hide Gap, LastGap, GarbageEnd, Has, Grammatical, Render, Depth, ReadBare, ReadItems, ReadMembers, ReadsAs;
    hide ItemsReadAs, MembersReadAs;
    BracketReads(t, i, depth, comments);
    var g := GarbageEnd(t, i + 1, comments).v;
    if At(t, g) == t[i] + 2 {
      GapSound(t, i + 1, comments);
      EmptyReadsAs(t, i, g, depth, comments);
    } else if t[i] == 0x7B {
      MembersSound(t, i + 1, depth, comments);
      var (ms, j) := ReadMembers(t, i + 1, depth, comments).v;
      ObjReadsAs(t, i, ms, j, depth, comments);
    } else {
      ItemsSound(t, i + 1, depth, comments);
      var (es, j) := ReadItems(t, i + 1, depth, comments).v;
      ArrReadsAs(t, i, es, j, depth, comments);
    }
  }

  /** What was read at an opening bracket: `t[i] + 2` is the bracket that closes it. */
  lemma BracketReads(t: bytes, i: nat, depth: int, comments: bool)
    requires i < |t| && depth <= MAX_DEPTH && (t[i] == 0x7B || t[i] == 0x5B) && ReadBare(t, i, depth, comments).Some?
    ensures GarbageEnd(t, i + 1, comments).Some?
    ensures var (c, j) := ReadBare(t, i, depth, comments).v;
            var g := GarbageEnd(t, i + 1, comments).v;
            if At(t, g) == t[i] + 2 then
              j == g + 1 && c == if t[i] == 0x7B then CObj(t[i + 1..g], []) else CArr(t[i + 1..g], [])
            else if t[i] == 0x7B then
              c.CObj? && c.ws == [] && ReadMembers(t, i + 1, depth, comments) == Some((c.members, j))
            else
              c.CArr? && c.ws == [] && ReadItems(t, i + 1, depth, comments) == Some((c.items, j))
  {
    hide GarbageEnd, ReadItems, ReadMembers;
  }

  lemma NumReadsAs(t: bytes, i: nat, n: NumTok, depth: int, comments: bool)
    requires NumOk(n) && Has(t, i, RenderNum(n)) && depth <= MAX_DEPTH
    ensures ReadsAs(t, i, CNum(n), i + |RenderNum(n)|, depth, comments)
  {
  }

  lemma StrReadsAs(t: bytes, i: nat, cs: seq<Chr>, depth: int, comments: bool)
    requires i < |t| && t[i] == QUOTE && CharsOk(cs) && Has(t, i + 1, RenderChars(cs) + [QUOTE]) && depth <= MAX_DEPTH
    ensures ReadsAs(t, i, CStr(cs), i + |RenderChars(cs)| + 2, depth, comments)
  {
    HasHead(t, i, QUOTE, RenderChars(cs) + [QUOTE]);
    assert Render(CStr(cs)) == [QUOTE] + (RenderChars(cs) + [QUOTE]);
  }

  lemma BracketedHas(t: bytes, i: nat, open: byte, x: bytes, close: byte)
    ensures Has(t, i, [open] + x + [close]) <==>
              i < |t| && t[i] == open && Has(t, i + 1, x) && i + 1 + |x| < |t| && t[i + 1 + |x|] == close
  {
    assert [open] + x + [close] == [open] + (x + [close]);
    HasHead(t, i, open, x + [close]);
    HasConcat(t, i + 1, x, [close]);
    HasOne(t, i + 1 + |x|, close);
  }

  lemma NoneInside(ws: bytes, comments: bool)
    requires Gap(ws, comments)
    ensures Grammatical(CObj(ws, []), comments) && Grammatical(CArr(ws, []), comments)
    ensures Render(CObj(ws, [])) == [0x7B] + ws + [0x7D] && Render(CArr(ws, [])) == [0x5B] + ws + [0x5D]
    ensures Depth(CObj(ws, [])) == Depth(CArr(ws, [])) == 0
  {
  }

  lemma EmptyReadsAs(t: bytes, i: nat, g: nat, depth: int, comments: bool)
    requires i < g < |t| && Gap(t[i + 1..g], comments) && depth <= MAX_DEPTH
    ensures t[i] == 0x7B && t[g] == 0x7D ==> ReadsAs(t, i, CObj(t[i + 1..g], []), g + 1, depth, comments)
    ensures t[i] == 0x5B && t[g] == 0x5D ==> ReadsAs(t, i, CArr(t[i + 1..g], []), g + 1, depth, comments)
  {
    hide Gap, Has, Grammatical, Render, Depth;
    var ws := t[i + 1..g];
    HasSlice(t, i + 1, g);
    NoneInside(ws, comments);
    BracketedHas(t, i, 0x7B, ws, 0x7D);
    BracketedHas(t, i, 0x5B, ws, 0x5D);
  }

  /** Elements, one or more, from `i` up to the closing bracket at `j - 1`. */
  ghost predicate ItemsReadAs(t: bytes, i: nat, es: seq<Elem>, j: nat, depth: int, comments: bool) {
    && es != [] && ItemsOk(es, comments) && Has(t, i, RenderItems(es)) && depth + DepthItems(es) <= MAX_DEPTH
    && j == i + |RenderItems(es)| + 1 <= |t| && t[j - 1] == 0x5D
  }

  ghost predicate MembersReadAs(t: bytes, i: nat, ms: seq<Member>, j: nat, depth: int, comments: bool) {
    && ms != [] && MembersOk(ms, comments) && Has(t, i, RenderMembers(ms)) && depth + DepthMembers(ms) <= MAX_DEPTH
    && j == i + |RenderMembers(ms)| + 1 <= |t| && t[j - 1] == 0x7D
  }

  lemma ArrReadsAs(t: bytes, i: nat, es: seq<Elem>, j: nat, depth: int, comments: bool)
    requires i < |t| && t[i] == 0x5B && depth <= MAX_DEPTH && ItemsReadAs(t, i + 1, es, j, depth, comments)
    ensures ReadsAs(t, i, CArr([], es), j, depth, comments)
  {
    hide Has, Grammatical, Render, Depth, ItemsOk, RenderItems, DepthItems;
    BracketedHas(t, i, 0x5B, RenderItems(es), 0x5D);
    ArrOf(es, comments);
  }

  lemma ArrOf(es: seq<Elem>, comments: bool)
    requires es != [] && ItemsOk(es, comments)
    ensures Grammatical(CArr([], es), comments) && Depth(CArr([], es)) == DepthItems(es)
    ensures Render(CArr([], es)) == [0x5B] + RenderItems(es) + [0x5D]
  {
  }

  lemma ObjReadsAs(t: bytes, i: nat, ms: seq<Member>, j: nat, depth: int, comments: bool)
    requires i < |t| && t[i] == 0x7B && depth <= MAX_DEPTH && MembersReadAs(t, i + 1, ms, j, depth, comments)
    ensures ReadsAs(t, i, CObj([], ms), j, depth, comments)
  {
    hide Has, Grammatical, Render, Depth, MembersOk, RenderMembers, DepthMembers;
    BracketedHas(t, i, 0x7B, RenderMembers(ms), 0x7D);
    ObjOf(ms, comments);
  }

  lemma ObjOf(ms: seq<Member>, comments: bool)
    requires ms != [] && MembersOk(ms, comments)
    ensures Grammatical(CObj([], ms), comments) && Depth(CObj([], ms)) == DepthMembers(ms)
    ensures Render(CObj([], ms)) == [0x7B] + RenderMembers(ms) + [0x7D]
  {
  }

  /** A whole element: whitespace, value, whitespace. */
  lemma ElemHas(t: bytes, i: nat, e: Elem)
    ensures Has(t, i, RenderElem(e)) <==>
              Has(t, i, e.before) && Has(t, i + |e.before|, Render(e.value))
              && Has(t, i + |e.before| + |Render(e.value)|, e.after)
    ensures |RenderElem(e)| == |e.before| + |Render(e.value)| + |e.after|
  {
    HasConcat(t, i, e.before + Render(e.value), e.after);
    HasConcat(t, i, e.before, Render(e.value));
  }

  lemma {:induction false} ItemsSound(t: bytes, i: nat, depth: int, comments: bool)
    requires i <= |t| && depth <= MAX_DEPTH && ReadItems(t, i, depth, comments).Some?
    ensures var (es, j) := ReadItems(t, i, depth, comments).v; ItemsReadAs(t, i, es, j, depth, comments)
    decreases MAX_DEPTH + 1 - depth, 0, |t| - i
  {
    hide Gap, GarbageEnd, Has, RenderElem, ElemOk, Depth, ReadValue, ItemsReadAs;
    var (e, g) := ReadElem(t, i, depth + 1, comments).v;
    ElemSound(t, i, depth + 1, comments);
    if At(t, g) == 0x5D {
      LastItem(t, i, e, depth, comments);
    } else {
      ItemsSound(t, g + 1, depth, comments);
      var (es, j) := ReadItems(t, g + 1, depth, comments).v;
      ConsItem(t, i, e, es, j, depth, comments);
    }
  }

  lemma LastItem(t: bytes, i: nat, e: Elem, depth: int, comments: bool)
    requires ElemOk(e, comments) && Has(t, i, RenderElem(e)) && depth + 1 + Depth(e.value) <= MAX_DEPTH
    requires i + |RenderElem(e)| < |t| && t[i + |RenderElem(e)|] == 0x5D
    ensures ItemsReadAs(t, i, [e], i + |RenderElem(e)| + 1, depth, comments)
  {
  }

  lemma ConsItem(t: bytes, i: nat, e: Elem, es: seq<Elem>, j: nat, depth: int, comments: bool)
    requires ElemOk(e, comments) && Has(t, i, RenderElem(e)) && depth + 1 + Depth(e.value) <= MAX_DEPTH
    requires var g := i + |RenderElem(e)|; g < |t| && t[g] == COMMA && ItemsReadAs(t, g + 1, es, j, depth, comments)
    ensures ItemsReadAs(t, i, [e] + es, j, depth, comments)
  {
    hide Has, RenderElem, RenderItems, ElemOk, Depth;
    var all := [e] + es;
    assert all[1..] == es && all[0] == e && |all| > 1;
    ItemsSplit(all);
    HasConcat(t, i, RenderElem(e), [COMMA] + RenderItems(es));
    HasHead(t, i + |RenderElem(e)|, COMMA, RenderItems(es));
    assert DepthItems(all) == Max(1 + Depth(e.value), DepthItems(es));
    assert ItemsOk(all, comments) <==> ElemOk(e, comments) && ItemsOk(es, comments);
  }

  lemma MemberHas(t: bytes, i: nat, m: Member)
    ensures var q := i + |m.before|; var k := q + 1 + |RenderChars(m.key)| + 1; var h := k + |m.afterKey|;
            && (Has(t, i, RenderMember(m)) <==>
                  && Has(t, i, m.before) && q < |t| && t[q] == QUOTE && Has(t, q + 1, RenderChars(m.key) + [QUOTE])
                  && Has(t, k, m.afterKey) && h < |t| && t[h] == COLON && Has(t, h + 1, RenderElem(m.elem)))
            && i + |RenderMember(m)| == h + 1 + |RenderElem(m.elem)|
  {
    hide Has, RenderMember, RenderElem, RenderChars;
    var r, x := RenderChars(m.key), RenderElem(m.elem);
    var tail := [COLON] + x;
    MemberParts(m);
    HasConcat(t, i, m.before, [QUOTE] + ((r + [QUOTE]) + (m.afterKey + tail)));
    HasHead(t, i + |m.before|, QUOTE, (r + [QUOTE]) + (m.afterKey + tail));
    HasConcat(t, i + |m.before| + 1, r + [QUOTE], m.afterKey + tail);
    HasConcat(t, i + |m.before| + 1 + |r| + 1, m.afterKey, tail);
    HasHead(t, i + |m.before| + 1 + |r| + 1 + |m.afterKey|, COLON, x);
  }

  lemma MemberParts(m: Member)
    ensures RenderMember(m)
         == m.before + ([QUOTE] + ((RenderChars(m.key) + [QUOTE]) + (m.afterKey + ([COLON] + RenderElem(m.elem)))))
  {
  }

  /** A member put together from the pieces of text between its gaps. */
  lemma MemberIs(t: bytes, i: nat, m: Member, g: nat, j: nat, h: nat, comments: bool)
    requires i <= g < j <= h < |t| && m.before == t[i..g] && m.afterKey == t[j..h]
    requires Gap(m.before, comments) && CharsOk(m.key) && Gap(m.afterKey, comments) && ElemOk(m.elem, comments)
    requires t[g] == QUOTE && Has(t, g + 1, RenderChars(m.key) + [QUOTE]) && j == g + 1 + |RenderChars(m.key)| + 1
    requires t[h] == COLON && Has(t, h + 1, RenderElem(m.elem))
    ensures MemberOk(m, comments) && Has(t, i, RenderMember(m)) && i + |RenderMember(m)| == h + 1 + |RenderElem(m.elem)|
  {
    hide Has, Gap, CharsOk, ElemOk, RenderElem, RenderMember, RenderChars;
    HasSlice(t, i, g);
    HasSlice(t, j, h);
    MemberHas(t, i, m);
  }

  /** What a member that is read consists of. */
  lemma MemberReads(t: bytes, i: nat, depth: int, comments: bool) returns (g: nat, j: nat, h: nat)
    requires i <= |t| && depth <= MAX_DEPTH && ReadMember(t, i, depth, comments).Some?
    ensures var (m, end) := ReadMember(t, i, depth, comments).v;
            && i <= g < j <= h < |t| && m.before == t[i..g] && m.afterKey == t[j..h]
            && GarbageEnd(t, i, comments) == Some(g) && t[g] == QUOTE && ReadString(t, g + 1) == Some((m.key, j))
            && GarbageEnd(t, j, comments) == Some(h) && t[h] == COLON
            && ReadElem(t, h + 1, depth + 1, comments) == Some((m.elem, end))
  {
    hide GarbageEnd, ReadString, ReadValue;
    g := GarbageEnd(t, i, comments).v;
    j := ReadString(t, g + 1).v.1;
    h := GarbageEnd(t, j, comments).v;
  }

  /** A value and the gap behind it. */
  ghost function ReadElem(t: bytes, i: nat, depth: int, comments: bool): (r: Option<(Elem, nat)>)
    requires i <= |t|
    ensures r.Some? ==> i < r.v.1 <= |t|
  {
    match ReadValue(t, i, depth, comments)
    case None => None
    case Some((before, c, j)) =>
      match GarbageEnd(t, j, comments)
      case None => None
      case Some(g) => Some((Elem(before, c, t[j..g]), g))
  }

  lemma {:induction false} ElemSound(t: bytes, i: nat, depth: int, comments: bool)
    requires i <= |t| && ReadElem(t, i, depth, comments).Some? && ReadElem(t, i, depth, comments).v.1 < |t|
    ensures var (e, g) := ReadElem(t, i, depth, comments).v;
            && ElemOk(e, comments) && Has(t, i, RenderElem(e)) && g == i + |RenderElem(e)|
            && depth + Depth(e.value) <= MAX_DEPTH
    decreases MAX_DEPTH + 1 - depth, 2, 1
  {
    hide Gap, LastGap, GarbageEnd, Has, Render, Grammatical, Depth, ReadValue, RenderElem;
    var (w, c, j) := ReadValue(t, i, depth, comments).v;
    ValueSound(t, i, depth, comments);
    var g := GarbageEnd(t, j, comments).v;
    GapSound(t, j, comments);
    HasSlice(t, j, g);
    ElemHas(t, i, Elem(w, c, t[j..g]));
  }

  lemma {:induction false} MemberSound(t: bytes, i: nat, depth: int, comments: bool)
    requires i <= |t| && depth <= MAX_DEPTH && ReadMember(t, i, depth, comments).Some?
    requires ReadMember(t, i, depth, comments).v.1 < |t|
    ensures var (m, j) := ReadMember(t, i, depth, comments).v;
            && MemberOk(m, comments) && Has(t, i, RenderMember(m)) && j == i + |RenderMember(m)|
            && depth + 1 + Depth(m.elem.value) <= MAX_DEPTH
    decreases MAX_DEPTH + 1 - depth, 0, |t| - i, 0
  {
    hide Gap, LastGap, GarbageEnd, Has, Depth, ReadMember, ReadElem, ReadString, CharsOk, ElemOk, MemberOk,
         RenderMember, RenderElem, RenderChars;
    var (m, end) := ReadMember(t, i, depth, comments).v;
    var g, j, h := MemberReads(t, i, depth, comments);
    GapSound(t, i, comments);
    StringSound(t, g + 1);
    GapSound(t, j, comments);
    ElemSound(t, h + 1, depth + 1, comments);
    MemberIs(t, i, m, g, j, h, comments);
  }

  lemma {:induction false} MembersSound(t: bytes, i: nat, depth: int, comments: bool)
    requires i <= |t| && depth <= MAX_DEPTH && ReadMembers(t, i, depth, comments).Some?
    ensures var (ms, j) := ReadMembers(t, i, depth, comments).v; MembersReadAs(t, i, ms, j, depth, comments)
    decreases MAX_DEPTH + 1 - depth, 0, |t| - i, 1
  {
    hide Has, ReadMember, MemberOk, Depth, RenderMember, MembersReadAs;
    var (m, g) := ReadMember(t, i, depth, comments).v;
    MemberSound(t, i, depth, comments);
    if At(t, g) == 0x7D {
      LastMember(t, i, m, depth, comments);
    } else {
      MembersSound(t, g + 1, depth, comments);
      var (ms, j) := ReadMembers(t, g + 1, depth, comments).v;
      ConsMember(t, i, m, ms, j, depth, comments);
    }
  }

  lemma LastMember(t: bytes, i: nat, m: Member, depth: int, comments: bool)
    requires MemberOk(m, comments) && Has(t, i, RenderMember(m)) && depth + 1 + Depth(m.elem.value) <= MAX_DEPTH
    requires i + |RenderMember(m)| < |t| && t[i + |RenderMember(m)|] == 0x7D
    ensures MembersReadAs(t, i, [m], i + |RenderMember(m)| + 1, depth, comments)
  {
  }

  lemma ConsMember(t: bytes, i: nat, m: Member, ms: seq<Member>, j: nat, depth: int, comments: bool)
    requires MemberOk(m, comments) && Has(t, i, RenderMember(m)) && depth + 1 + Depth(m.elem.value) <= MAX_DEPTH
    requires var g := i + |RenderMember(m)|; g < |t| && t[g] == COMMA && MembersReadAs(t, g + 1, ms, j, depth, comments)
    ensures MembersReadAs(t, i, [m] + ms, j, depth, comments)
  {
    hide Has, RenderMember, RenderMembers, MemberOk, Depth;
    var all := [m] + ms;
    assert all[1..] == ms && all[0] == m && |all| > 1;
    MembersSplit(all);
    HasConcat(t, i, RenderMember(m), [COMMA] + RenderMembers(ms));
    HasHead(t, i + |RenderMember(m)|, COMMA, RenderMembers(ms));
    assert DepthMembers(all) == Max(1 + Depth(m.elem.value), DepthMembers(ms));
    assert MembersOk(all, comments) <==> MemberOk(m, comments) && MembersOk(ms, comments);
  }

  // ---------------------------------------------------------------- what is grammatical is read

  /** What the text of a value can begin with. */
  predicate StartsValue(c: Cst, b: byte) {
    match c
    case CNull => b == 0x6E
    case CTrue => b == 0x74
    case CFalse => b == 0x66
    case CNum(_) => b == 0x2D || IsDigit(b)
    case CStr(_) => b == QUOTE
    case CArr(_, _) => b == 0x5B
    case CObj(_, _) => b == 0x7B
  }

  lemma ValueStart(t: bytes, i: nat, c: Cst, comments: bool)
    requires Grammatical(c, comments) && Has(t, i, Render(c))
    ensures i < |t| && StartsValue(c, t[i])
  {
  }

  lemma {:induction false} ValueComplete(t: bytes, i: nat, depth: int, w: bytes, c: Cst, comments: bool)
    requires Gap(w, comments) && Grammatical(c, comments) && depth + Depth(c) <= MAX_DEPTH
    requires Has(t, i, w) && Has(t, i + |w|, Render(c)) && i + |w| + |Render(c)| <= |t|
    requires c.CNum? ==> EndsNumber(At(t, i + |w| + |Render(c)|))
    ensures ReadValue(t, i, depth, comments) == Some((w, c, i + |w| + |Render(c)|))
    decreases c, 2
  {
    hide Has, Grammatical, Render, Depth, GarbageEnd, ReadBare, Gap;
    ValueStart(t, i + |w|, c, comments);
    GapComplete(t, i, w, comments);
    BareComplete(t, i + |w|, depth, c, comments);
    SliceIs(t, i, w);
  }

  lemma SliceIs(t: bytes, i: nat, x: bytes)
    requires Has(t, i, x)
    ensures i + |x| <= |t| && t[i..i + |x|] == x
  {
  }

  lemma {:induction false} BareComplete(t: bytes, i: nat, depth: int, c: Cst, comments: bool)
    requires Grammatical(c, comments) && depth + Depth(c) <= MAX_DEPTH && i <= |t|
    requires Has(t, i, Render(c)) && i + |Render(c)| <= |t| && (c.CNum? ==> EndsNumber(At(t, i + |Render(c)|)))
    ensures ReadBare(t, i, depth, comments) == Some((c, i + |Render(c)|))
    decreases c, 1
  {
    hide *;
    ValueStart(t, i, c, comments);
    match c
    case CNum(n) => NumComplete(t, i, depth, c, comments);
    case CStr(cs) => StrComplete(t, i, depth, c, comments);
    case CArr(ws, items) => ArrComplete(t, i, depth, c, comments);
    case CObj(ws, members) => ObjComplete(t, i, depth, c, comments);
    case _ => WordComplete(t, i, depth, c, comments);
  }

  lemma NumComplete(t: bytes, i: nat, depth: int, c: Cst, comments: bool)
    requires c.CNum? && Grammatical(c, comments) && depth <= MAX_DEPTH && i <= |t|
    requires Has(t, i, Render(c)) && EndsNumber(At(t, i + |Render(c)|))
    ensures ReadBare(t, i, depth, comments) == Some((c, i + |Render(c)|))
  {
    hide Has, Render, Grammatical, ReadBare, RenderNum, NumOk, EndsNumber;
    Shape(c, comments);
    NumberComplete(t, i, c.num);
    BareNum(t, i, depth, comments);
  }

  lemma StrComplete(t: bytes, i: nat, depth: int, c: Cst, comments: bool)
    requires c.CStr? && Grammatical(c, comments) && depth <= MAX_DEPTH && i <= |t| && Has(t, i, Render(c))
    ensures ReadBare(t, i, depth, comments) == Some((c, i + |Render(c)|))
  {
    hide Has, Render, Grammatical, ReadBare, RenderChars, CharsOk, ReadString;
    Shape(c, comments);
    var rest := RenderChars(c.chars) + [QUOTE];
    assert Render(c) == [QUOTE] + rest;
    HasHead(t, i, QUOTE, rest);
    StringComplete(t, i + 1, c.chars);
    BareStr(t, i, depth, comments);
  }

  /** What a value is made of. */
  lemma Shape(c: Cst, comments: bool)
    requires Grammatical(c, comments)
    ensures c.CNum? ==> NumOk(c.num) && Render(c) == RenderNum(c.num)
    ensures c.CStr? ==> CharsOk(c.chars) && Render(c) == [QUOTE] + RenderChars(c.chars) + [QUOTE]
    ensures c.CArr? ==> && Gap(c.ws, comments) && (c.items != [] ==> c.ws == []) && ItemsOk(c.items, comments)
                        && Render(c) == [0x5B] + (if c.items == [] then c.ws else RenderItems(c.items)) + [0x5D]
                        && Depth(c) == DepthItems(c.items)
    ensures c.CObj? ==> && Gap(c.ws, comments) && (c.members != [] ==> c.ws == []) && MembersOk(c.members, comments)
                        && Render(c) == [0x7B] + (if c.members == [] then c.ws else RenderMembers(c.members)) + [0x7D]
                        && Depth(c) == DepthMembers(c.members)
  {
  }

  lemma BareNum(t: bytes, i: nat, depth: int, comments: bool)
    requires i < |t| && depth <= MAX_DEPTH && (t[i] == 0x2D || IsDigit(t[i])) && ReadNumber(t, i).Some?
    ensures var (n, j) := ReadNumber(t, i).v; ReadBare(t, i, depth, comments) == Some((CNum(n), j))
  {
    hide ReadNumber;
  }

  lemma BareStr(t: bytes, i: nat, depth: int, comments: bool)
    requires i < |t| && depth <= MAX_DEPTH && t[i] == QUOTE && ReadString(t, i + 1).Some?
    ensures var (cs, j) := ReadString(t, i + 1).v; ReadBare(t, i, depth, comments) == Some((CStr(cs), j))
  {
    hide ReadString;
  }

  lemma WordComplete(t: bytes, i: nat, depth: int, c: Cst, comments: bool)
    requires c == CNull || c == CTrue || c == CFalse
    requires i < |t| && depth <= MAX_DEPTH && StartsValue(c, t[i]) && Has(t, i, Render(c)) && i + |Render(c)| <= |t|
    ensures ReadBare(t, i, depth, comments) == Some((c, i + |Render(c)|))
  {
    hide Has;
    RenderWords();
  }

  lemma BareArr(t: bytes, i: nat, depth: int, c: Cst, j: nat, comments: bool)
    requires i < |t| && depth <= MAX_DEPTH && t[i] == 0x5B && c.CArr? && GarbageEnd(t, i + 1, comments).Some?
    requires var g := GarbageEnd(t, i + 1, comments).v;
             if At(t, g) == 0x5D then c == CArr(t[i + 1..g], []) && j == g + 1
             else c.ws == [] && ReadItems(t, i + 1, depth, comments) == Some((c.items, j))
    ensures ReadBare(t, i, depth, comments) == Some((c, j))
  {
    hide GarbageEnd, ReadItems;
  }

  lemma BareObj(t: bytes, i: nat, depth: int, c: Cst, j: nat, comments: bool)
    requires i < |t| && depth <= MAX_DEPTH && t[i] == 0x7B && c.CObj? && GarbageEnd(t, i + 1, comments).Some?
    requires var g := GarbageEnd(t, i + 1, comments).v;
             if At(t, g) == 0x7D then c == CObj(t[i + 1..g], []) && j == g + 1
             else c.ws == [] && ReadMembers(t, i + 1, depth, comments) == Some((c.members, j))
    ensures ReadBare(t, i, depth, comments) == Some((c, j))
  {
    hide GarbageEnd, ReadMembers;
  }

  lemma EmptyComplete(t: bytes, i: nat, ws: bytes, open: byte, close: byte, comments: bool)
    requires Gap(ws, comments) && Has(t, i, [open] + ws + [close]) && !IsWs(close) && close != SLASH
    ensures var g := i + 1 + |ws|;
            g < |t| && GarbageEnd(t, i + 1, comments) == Some(g) && t[g] == close && t[i + 1..g] == ws
  {
    BracketedHas(t, i, open, ws, close);
    GapComplete(t, i + 1, ws, comments);
  }

  lemma {:induction false} ArrComplete(t: bytes, i: nat, depth: int, c: Cst, comments: bool)
    requires c.CArr? && Grammatical(c, comments) && depth + Depth(c) <= MAX_DEPTH && i < |t| && t[i] == 0x5B
    requires Has(t, i, Render(c))
    ensures ReadBare(t, i, depth, comments) == Some((c, i + |Render(c)|))
    decreases c, 0
  {
    hide Gap, Has, GarbageEnd, Render, Grammatical, Depth, ReadBare, ReadItems, RenderItems, ItemsOk, DepthItems;
    Shape(c, comments);
    var items := c.items;
    if items == [] {
      EmptyComplete(t, i, c.ws, 0x5B, 0x5D, comments);
    } else {
      BracketedHas(t, i, 0x5B, RenderItems(items), 0x5D);
      ItemsComplete(t, i + 1, depth, items, comments);
      ItemsBegin(t, i + 1, items, comments);
    }
    BareArr(t, i, depth, c, i + |Render(c)|, comments);
  }

  /** The first element does not begin like the end of an array. */
  lemma ItemsBegin(t: bytes, i: nat, items: seq<Elem>, comments: bool)
    requires items != [] && ItemsOk(items, comments) && Has(t, i, RenderItems(items)) && i <= |t|
    ensures GarbageEnd(t, i, comments).Some? && At(t, GarbageEnd(t, i, comments).v) != 0x5D
  {
    hide Gap, Has, GarbageEnd, Render, Grammatical, RenderItems, ItemsOk;
    var e := items[0];
    ItemsHead(t, i, items);
    ItemsParts(items, comments);
    ElemHas(t, i, e);
    ValueStart(t, i + |e.before|, e.value, comments);
    GapComplete(t, i, e.before, comments);
  }

  lemma ItemsSplit(items: seq<Elem>)
    requires |items| > 1
    ensures RenderItems(items) == RenderElem(items[0]) + ([COMMA] + RenderItems(items[1..]))
  {
  }

  lemma ItemsHead(t: bytes, i: nat, items: seq<Elem>)
    requires items != [] && Has(t, i, RenderItems(items))
    ensures Has(t, i, RenderElem(items[0]))
    ensures var g := i + |RenderElem(items[0])|;
            if |items| == 1 then g == i + |RenderItems(items)|
            else g < |t| && t[g] == COMMA && Has(t, g + 1, RenderItems(items[1..]))
                 && i + |RenderItems(items)| == g + 1 + |RenderItems(items[1..])|
  {
    hide Has, RenderElem;
    if |items| > 1 {
      var rest := [COMMA] + RenderItems(items[1..]);
      ItemsSplit(items);
      HasConcat(t, i, RenderElem(items[0]), rest);
      HasHead(t, i + |RenderElem(items[0])|, COMMA, RenderItems(items[1..]));
    }
  }

  lemma ItemsParts(items: seq<Elem>, comments: bool)
    requires items != [] && ItemsOk(items, comments)
    ensures ElemOk(items[0], comments) && ItemsOk(items[1..], comments)
    ensures 1 + Depth(items[0].value) <= DepthItems(items) && DepthItems(items[1..]) <= DepthItems(items)
  {
  }

  /** A gap does not make the number in front of it longer. */
  lemma GapEndsNumber(t: bytes, j: nat, gap: bytes, comments: bool)
    requires LastGap(gap, comments) && gap != [] && Has(t, j, gap)
    ensures j < |t| && EndsNumber(At(t, j))
  {
  }

  /** After a value comes whitespace, or what follows the element: no part of a number. */
  lemma AfterValue(t: bytes, j: nat, after: bytes, comments: bool)
    requires Gap(after, comments) && Has(t, j, after) && j + |after| < |t|
    requires t[j + |after|] == COMMA || t[j + |after|] == 0x5D || t[j + |after|] == 0x7D
    ensures EndsNumber(At(t, j)) && GarbageEnd(t, j, comments) == Some(j + |after|) && t[j..j + |after|] == after
  {
    GapComplete(t, j, after, comments);
    SliceIs(t, j, after);
    if after != [] { GapEndsNumber(t, j, after, comments); }
  }

  lemma ItemsGoOn(t: bytes, i: nat, depth: int, e: Elem, g: nat, comments: bool)
    requires i <= |t| && depth <= MAX_DEPTH && ReadElem(t, i, depth + 1, comments) == Some((e, g))
    ensures At(t, g) == 0x5D ==> ReadItems(t, i, depth, comments) == Some(([e], g + 1))
    ensures At(t, g) == COMMA && ReadItems(t, g + 1, depth, comments).Some? ==>
              var (es, k) := ReadItems(t, g + 1, depth, comments).v;
              ReadItems(t, i, depth, comments) == Some(([e] + es, k))
  {
    hide GarbageEnd, ReadValue;
  }

  lemma {:induction false} ItemsComplete(t: bytes, i: nat, depth: int, items: seq<Elem>, comments: bool)
    requires items != [] && ItemsOk(items, comments) && depth + DepthItems(items) <= MAX_DEPTH && i <= |t|
    requires Has(t, i, RenderItems(items))
    requires i + |RenderItems(items)| < |t| && t[i + |RenderItems(items)|] == 0x5D
    ensures ReadItems(t, i, depth, comments) == Some((items, i + |RenderItems(items)| + 1))
    decreases items, 3
  {
    hide Has, Depth, ElemOk, RenderElem, DepthItems, ItemsOk, RenderItems, ReadElem, ReadItems;
    var e := items[0];
    ItemsParts(items, comments);
    ItemsHead(t, i, items);
    ElemComplete(t, i, depth + 1, e, comments);
    ItemsGoOn(t, i, depth, e, i + |RenderElem(e)|, comments);
    if |items| > 1 {
      ItemsComplete(t, i + |RenderElem(e)| + 1, depth, items[1..], comments);
      assert items == [e] + items[1..];
    } else {
      assert items == [e];
    }
  }

  lemma {:induction false} ObjComplete(t: bytes, i: nat, depth: int, c: Cst, comments: bool)
    requires c.CObj? && Grammatical(c, comments) && depth + Depth(c) <= MAX_DEPTH && i < |t| && t[i] == 0x7B
    requires Has(t, i, Render(c))
    ensures ReadBare(t, i, depth, comments) == Some((c, i + |Render(c)|))
    decreases c, 0
  {
    hide Gap, Has, GarbageEnd, Render, Grammatical, Depth, ReadBare;
    hide ReadMembers, RenderMembers, MembersOk, DepthMembers;
    Shape(c, comments);
    var members := c.members;
    if members == [] {
      EmptyComplete(t, i, c.ws, 0x7B, 0x7D, comments);
    } else {
      BracketedHas(t, i, 0x7B, RenderMembers(members), 0x7D);
      MembersComplete(t, i + 1, depth, members, comments);
      MembersBegin(t, i + 1, members, comments);
    }
    BareObj(t, i, depth, c, i + |Render(c)|, comments);
  }

  /** The first member does not begin like the end of an object. */
  lemma MembersBegin(t: bytes, i: nat, members: seq<Member>, comments: bool)
    requires members != [] && MembersOk(members, comments) && Has(t, i, RenderMembers(members)) && i <= |t|
    ensures GarbageEnd(t, i, comments).Some? && At(t, GarbageEnd(t, i, comments).v) != 0x7D
  {
    hide Gap, Has, GarbageEnd, RenderMember, RenderMembers, MemberOk, MembersOk;
    var m := members[0];
    MembersHead(t, i, members);
    MembersParts(members, comments);
    MemberParts(m);
    MemberHas(t, i, m);
    MemberWs(m, comments);
    GapComplete(t, i, m.before, comments);
  }

  lemma MemberWs(m: Member, comments: bool)
    requires MemberOk(m, comments)
    ensures Gap(m.before, comments) && CharsOk(m.key) && Gap(m.afterKey, comments) && ElemOk(m.elem, comments)
  {
  }

  lemma MembersSplit(members: seq<Member>)
    requires |members| > 1
    ensures RenderMembers(members) == RenderMember(members[0]) + ([COMMA] + RenderMembers(members[1..]))
  {
  }

  lemma MembersHead(t: bytes, i: nat, members: seq<Member>)
    requires members != [] && Has(t, i, RenderMembers(members))
    ensures Has(t, i, RenderMember(members[0]))
    ensures var g := i + |RenderMember(members[0])|;
            if |members| == 1 then g == i + |RenderMembers(members)|
            else g < |t| && t[g] == COMMA && Has(t, g + 1, RenderMembers(members[1..]))
                 && i + |RenderMembers(members)| == g + 1 + |RenderMembers(members[1..])|
  {
    hide Has, RenderMember;
    if |members| > 1 {
      var rest := [COMMA] + RenderMembers(members[1..]);
      MembersSplit(members);
      HasConcat(t, i, RenderMember(members[0]), rest);
      HasHead(t, i + |RenderMember(members[0])|, COMMA, RenderMembers(members[1..]));
    }
  }

  lemma MembersParts(members: seq<Member>, comments: bool)
    requires members != [] && MembersOk(members, comments)
    ensures MemberOk(members[0], comments) && MembersOk(members[1..], comments)
    ensures 1 + Depth(members[0].elem.value) <= DepthMembers(members)
    ensures DepthMembers(members[1..]) <= DepthMembers(members)
  {
  }

  lemma MemberIsRead(t: bytes, i: nat, depth: int, m: Member, g: nat, j: nat, h: nat, end: nat, comments: bool)
    requires depth <= MAX_DEPTH && i <= g < j <= h < |t| && m.before == t[i..g] && m.afterKey == t[j..h]
    requires GarbageEnd(t, i, comments) == Some(g) && t[g] == QUOTE && ReadString(t, g + 1) == Some((m.key, j))
    requires GarbageEnd(t, j, comments) == Some(h) && t[h] == COLON
    requires ReadElem(t, h + 1, depth + 1, comments) == Some((m.elem, end))
    ensures ReadMember(t, i, depth, comments) == Some((m, end))
  {
    hide GarbageEnd, ReadString, ReadValue;
  }

  /** An element in front of something that ends it is read whole. */
  lemma {:induction false} ElemComplete(t: bytes, i: nat, depth: int, e: Elem, comments: bool)
    requires ElemOk(e, comments) && depth + Depth(e.value) <= MAX_DEPTH && i <= |t|
    requires Has(t, i, RenderElem(e)) && i + |RenderElem(e)| < |t|
    requires t[i + |RenderElem(e)|] in {COMMA, 0x5D, 0x7D}
    ensures ReadElem(t, i, depth, comments) == Some((e, i + |RenderElem(e)|))
    decreases e, 2
  {
    hide Gap, Has, GarbageEnd, Render, Grammatical, Depth, ReadValue, RenderElem;
    ElemHas(t, i, e);
    var j := i + |e.before| + |Render(e.value)|;
    AfterValue(t, j, e.after, comments);
    ValueComplete(t, i, depth, e.before, e.value, comments);
  }

  lemma {:induction false} MemberComplete(t: bytes, i: nat, depth: int, m: Member, comments: bool)
    requires MemberOk(m, comments) && depth + 1 + Depth(m.elem.value) <= MAX_DEPTH && i <= |t|
    requires Has(t, i, RenderMember(m)) && i + |RenderMember(m)| < |t|
    requires t[i + |RenderMember(m)|] == COMMA || t[i + |RenderMember(m)|] == 0x7D
    ensures ReadMember(t, i, depth, comments) == Some((m, i + |RenderMember(m)|))
    decreases m, 2
  {
    hide Gap, Has, GarbageEnd, Depth, ReadElem, ReadMember, ReadString, RenderElem, RenderMember, RenderChars, CharsOk,
         ElemOk, MemberOk;
    var g := i + |m.before|;
    var j := g + 1 + |RenderChars(m.key)| + 1;
    var h := j + |m.afterKey|;
    MemberHas(t, i, m);
    MemberWs(m, comments);
    GapComplete(t, i, m.before, comments);
    SliceIs(t, i, m.before);
    StringComplete(t, g + 1, m.key);
    GapComplete(t, j, m.afterKey, comments);
    SliceIs(t, j, m.afterKey);
    ElemComplete(t, h + 1, depth + 1, m.elem, comments);
    MemberIsRead(t, i, depth, m, g, j, h, i + |RenderMember(m)|, comments);
  }

  lemma {:induction false} MembersComplete(t: bytes, i: nat, depth: int, members: seq<Member>, comments: bool)
    requires members != [] && MembersOk(members, comments) && depth + DepthMembers(members) <= MAX_DEPTH && i <= |t|
    requires Has(t, i, RenderMembers(members))
    requires i + |RenderMembers(members)| < |t| && t[i + |RenderMembers(members)|] == 0x7D
    ensures ReadMembers(t, i, depth, comments) == Some((members, i + |RenderMembers(members)| + 1))
    decreases members, 2
  {
    hide Has, RenderMember, ReadMember, MemberOk, Depth, DepthMembers, MembersOk, RenderMembers;
    var m := members[0];
    MembersParts(members, comments);
    MembersHead(t, i, members);
    MemberComplete(t, i, depth, m, comments);
    if |members| > 1 {
      MembersComplete(t, i + |RenderMember(m)| + 1, depth, members[1..], comments);
      assert members == [m] + members[1..];
    } else {
      assert members == [m];
    }
  }

  // ---------------------------------------------------------------- documents

  /** A document of the grammar, nested no deeper than the parser goes. */
  ghost predicate Derives(e: Elem, t: bytes, comments: bool) {
    DocumentOk(e, comments) && RenderElem(e) == t && Depth(e.value) <= MAX_DEPTH
  }

  /**
   The reader succeeds on exactly the texts of the grammar of RFC 8259 nested at most 200 levels
   below the top value, and finds the one derivation that the text has.
   */
  lemma ReadsExactlyTheGrammar(t: bytes, comments: bool)
    ensures ReadDocument(t, comments).Some? <==> exists e :: Derives(e, t, comments)
    ensures forall e :: Derives(e, t, comments) ==> ReadDocument(t, comments) == Some(e)
  {
    if ReadDocument(t, comments).Some? {
      DocumentSound(t, comments);
      assert Derives(ReadDocument(t, comments).v, t, comments);
    }
    forall e | Derives(e, t, comments) ensures ReadDocument(t, comments) == Some(e) {
      DocumentComplete(t, e, comments);
    }
  }

  lemma DocumentSound(t: bytes, comments: bool)
    requires ReadDocument(t, comments).Some?
    ensures Derives(ReadDocument(t, comments).v, t, comments)
  {
    hide Has, Render, Grammatical, Depth, ReadValue, RenderElem, GarbageEnd;
    var (w, c, j) := ReadValue(t, 0, 0, comments).v;
    ValueSound(t, 0, 0, comments);
    GapSound(t, j, comments);
    var g := GarbageEnd(t, j, comments).v;
    HasSlice(t, j, g);
    var e := Elem(w, c, t[j..g]);
    ElemHas(t, 0, e);
    HasAll(t, RenderElem(e));
  }

  lemma HasAll(t: bytes, x: bytes)
    ensures |x| == |t| ==> (Has(t, 0, x) <==> x == t)
  {
  }

  lemma DocumentComplete(t: bytes, e: Elem, comments: bool)
    requires Derives(e, t, comments)
    ensures ReadDocument(t, comments) == Some(e)
  {
    hide ReadValue;
    CompleteFrom(t, e, 0, comments);
  }

  /** Read from a level at which it is not too deep, a text gives back its derivation. */
  lemma CompleteFrom(t: bytes, e: Elem, depth: int, comments: bool)
    requires DocumentOk(e, comments) && RenderElem(e) == t && depth + Depth(e.value) <= MAX_DEPTH
    ensures var r := ReadValue(t, 0, depth, comments);
            r.Some? && r.v.0 == e.before && r.v.1 == e.value && GarbageEnd(t, r.v.2, comments) == Some(|t|)
            && t[r.v.2..|t|] == e.after
  {
    hide Has, Render, Grammatical, Depth, ReadValue, RenderElem, GarbageEnd;
    HasAll(t, RenderElem(e));
    ElemHas(t, 0, e);
    var j := |e.before| + |Render(e.value)|;
    LastGapComplete(t, j, e.after, comments);
    SliceIs(t, j, e.after);
    if e.after != [] { GapEndsNumber(t, j, e.after, comments); }
    ValueComplete(t, 0, depth, e.before, e.value, comments);
  }

  /** The grammar is unambiguous: a text has one derivation, however deep. */
  lemma Unambiguous(e: Elem, f: Elem, comments: bool)
    requires DocumentOk(e, comments) && DocumentOk(f, comments) && RenderElem(e) == RenderElem(f)
    ensures e == f
  {
    hide Render, Grammatical, Depth, ReadValue, RenderElem, GarbageEnd;
    var depth := MAX_DEPTH as int - Max(Depth(e.value), Depth(f.value));
    CompleteFrom(RenderElem(e), e, depth, comments);
    CompleteFrom(RenderElem(f), f, depth, comments);
  }

  /** A document of the grammar is read exactly if it is not nested too deep. */
  lemma ReadUnlessTooDeep(e: Elem, comments: bool)
    requires DocumentOk(e, comments)
    ensures ReadDocument(RenderElem(e), comments).Some? <==> Depth(e.value) <= MAX_DEPTH
  {
    hide Render, Grammatical, Depth, ReadDocument, RenderElem;
    ReadsExactlyTheGrammar(RenderElem(e), comments);
    if ReadDocument(RenderElem(e), comments).Some? {
      var f :| Derives(f, RenderElem(e), comments);
      Unambiguous(e, f, comments);
    } else {
      assert !Derives(e, RenderElem(e), comments);
    }
  }
}
