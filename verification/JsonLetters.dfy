/**
 The JSON grammar and its meaning in letters: what the escapes, numbers, words, brackets and comments
 of a text are, and what they stand for, with every character written out.
 */
module JsonLetters {
  import opened Bytes
  import opened JsonValue
  import opened JsonGrammar
  import opened JsonReading
  import opened JsonRecognition
  import opened Utf8Validator

  // ---------------------------------------------------------------- escapes

  /** A hexadecimal digit of value `d`, in either case. */
  ghost predicate IsHexDigit(b: byte, d: nat) {
    d < 16 && (b as int == "0123456789abcdef"[d] as int || b as int == "0123456789ABCDEF"[d] as int)
  }

  lemma HexDigitIs(b: byte, d: nat)
    requires IsHexDigit(b, d)
    ensures HexDigit(b) == d && IsHex(b)
  {
  }

  lemma HexDigitsAre(b: byte)
    ensures IsHex(b) <==> exists d :: IsHexDigit(b, d)
  {
    if IsHex(b) {
      var d := HexDigit(b);
      assert IsHexDigit(b, d);
    }
    forall d | IsHexDigit(b, d) ensures IsHex(b) { HexDigitIs(b, d); }
  }

  /** Four hexadecimal digits, the most significant first. */
  ghost predicate Spells(hex: bytes, u: nat) {
    && |hex| == 4 && u < 0x1_0000 && IsHexDigit(hex[0], u / 16 / 16 / 16) && IsHexDigit(hex[1], u / 16 / 16 % 16)
    && IsHexDigit(hex[2], u / 16 % 16) && IsHexDigit(hex[3], u % 16)
  }

  lemma SpelledValue(hex: bytes, u: nat)
    requires Spells(hex, u)
    ensures HexValue(hex) == u && ChrOk(Uni(hex))
  {
    hide IsHexDigit, HexDigit, IsHex;
    HexDigitIs(hex[0], u / 16 / 16 / 16);
    HexDigitIs(hex[1], u / 16 / 16 % 16);
    HexDigitIs(hex[2], u / 16 % 16);
    HexDigitIs(hex[3], u % 16);
    NumberOfDigits(u);
  }

  lemma NumberOfDigits(u: nat)
    ensures u == 4096 * (u / 16 / 16 / 16) + 256 * (u / 16 / 16 % 16) + 16 * (u / 16 % 16) + u % 16
  {
  }

  lemma OneUnit(c: Chr)
    ensures UnitsOf([c]) == [UnitOf(c)]
  {
    assert [c][1..] == [];
  }

  lemma OneMeans(u: Unit)
    ensures Encoded([u]) == match u case Byte(b) => [b] case Code(u) => Encode(u)
  {
    assert [u][1..] == [];
    assert Encoded([]) == [];
    hide Encode;
  }

  /** `\u` and four digits stand for the UTF-8 encoding of their number. */
  lemma EscapeMeans(hex: bytes, u: nat)
    requires Spells(hex, u)
    ensures ChrOk(Uni(hex)) && RenderChr(Uni(hex)) == Letters("\\u") + hex
    ensures StringMeaning([Uni(hex)]) == Encode(u)
  {
    hide Spells, HexValue, Encode, Encoded;
    SpelledValue(hex, u);
    OneUnit(Uni(hex));
    OneMeans(Code(u));
    assert Letters("\\u") == [BACKSLASH, 0x75];
  }

  /** So the text of such a string alone is read as this character. */
  lemma EscapeIsRead(hex: bytes, u: nat, strtod: bytes -> Extended)
    requires Spells(hex, u)
    ensures var e := Elem([], CStr([Uni(hex)]), []);
            && Derives(e, Letters("\"\\u") + hex + Letters("\""), false)
            && Meaning(e.value, strtod) == Str(Encode(u))
  {
    hide Spells, Encode, StringMeaning, RenderChr;
    EscapeMeans(hex, u);
    var c := Uni(hex);
    assert RenderChars([c]) == RenderChr(c) + RenderChars([c][1..]) == RenderChr(c);
    assert Letters("\"\\u") == [QUOTE] + Letters("\\u") && Letters("\"") == [QUOTE];
    hide Letters, RenderChars, UnitsOf;
    assert Render(CStr([c])) == [QUOTE] + RenderChars([c]) + [QUOTE];
    assert RenderElem(Elem([], CStr([c]), [])) == Render(CStr([c]));
    assert CharsOk([c]) && Gap([], false) && Grammatical(CStr([c]), false) && Depth(CStr([c])) == 0;
  }

  /** Two of them that spell the UTF-16 units of a character beyond the basic plane stand for this character. */
  lemma PairMeans(cp: nat, high: bytes, low: bytes)
    requires 0x1_0000 <= cp <= 0x10_FFFF
    requires Spells(high, 0xD800 + (cp - 0x1_0000) / 0x400) && Spells(low, 0xDC00 + (cp - 0x1_0000) % 0x400)
    ensures StringMeaning([Uni(high), Uni(low)]) == Encode(cp)
  {
    hide Spells, HexValue, Encode, Encoded;
    var h, l := 0xD800 + (cp - 0x1_0000) / 0x400, 0xDC00 + (cp - 0x1_0000) % 0x400;
    SpelledValue(high, h);
    SpelledValue(low, l);
    OneUnit(Uni(low));
    assert [Uni(high), Uni(low)][1..] == [Uni(low)];
    assert UnitsOf([Uni(high), Uni(low)]) == [Code(h), Code(l)];
    PairEncoded(h, l);
  }

  lemma PairEncoded(h: code, l: code)
    requires IsHigh(h) && IsLow(l)
    ensures Encoded([Code(h), Code(l)]) == Encode(PairOf(h, l))
  {
    hide Encode;
    assert [Code(h), Code(l)][2..] == [];
    assert Encoded([]) == [];
  }

  /** The characters that may follow a backslash alone. */
  lemma ShortEscapes(c: byte)
    ensures IsEscape(c) <==> c in Letters("\"\\/bfnrt")
    ensures RenderChr(Esc(c)) == Letters("\\") + [c]
  {
    assert Letters("\"\\/bfnrt") == [QUOTE, BACKSLASH, 0x2F, 0x62, 0x66, 0x6E, 0x72, 0x74];
    assert Letters("\\") == [BACKSLASH];
  }

  /** What they stand for: themselves, or backspace, form feed, line feed, carriage return and tab. */
  lemma ShortEscapesMean()
    ensures StringMeaning([Esc(0x22)]) == Letters("\"") && StringMeaning([Esc(0x5C)]) == Letters("\\")
    ensures StringMeaning([Esc(0x2F)]) == Letters("/")
    ensures StringMeaning([Esc('b' as int)]) == [8] && StringMeaning([Esc('f' as int)]) == [12]
    ensures StringMeaning([Esc('n' as int)]) == [10] && StringMeaning([Esc('r' as int)]) == [13]
    ensures StringMeaning([Esc('t' as int)]) == [9]
  {
    hide Encoded;
    ShortMeans(0x22);
    ShortMeans(0x5C);
    ShortMeans(0x2F);
    ShortMeans('b' as int);
    ShortMeans('f' as int);
    ShortMeans('n' as int);
    ShortMeans('r' as int);
    ShortMeans('t' as int);
    assert Letters("\"") == [0x22] && Letters("\\") == [0x5C] && Letters("/") == [0x2F];
  }

  lemma ShortMeans(c: byte)
    ensures StringMeaning([Esc(c)]) == [Unescape(c)]
  {
    hide Encoded, Unescape;
    OneUnit(Esc(c));
    OneMeans(Byte(Unescape(c)));
  }

  /** Any other character stands for itself. */
  lemma RawMeans(b: byte)
    ensures StringMeaning([Raw(b)]) == [b] && RenderChr(Raw(b)) == [b]
    ensures ChrOk(Raw(b)) <==> b >= 32 && b !in Letters("\"\\")
  {
    hide Encoded;
    OneUnit(Raw(b));
    OneMeans(Byte(b));
    assert Letters("\"\\") == [QUOTE, BACKSLASH];
  }

  /** A high surrogate at the end of `us` and a low one at the beginning of `vs`: together they are one character. */
  predicate Straddles(us: seq<Unit>, vs: seq<Unit>) {
    && us != [] && vs != [] && us[|us| - 1].Code? && IsHigh(us[|us| - 1].u) && vs[0].Code? && IsLow(vs[0].u)
  }

  /** Otherwise the meaning of a string is that of its parts, one after the other. */
  lemma {:induction false} MeaningOfParts(a: seq<Chr>, b: seq<Chr>)
    requires !Straddles(UnitsOf(a), UnitsOf(b))
    ensures StringMeaning(a + b) == StringMeaning(a) + StringMeaning(b)
  {
    hide Encoded;
    UnitsOfParts(a, b);
    EncodedParts(UnitsOf(a), UnitsOf(b));
  }

  lemma {:induction false} UnitsOfParts(a: seq<Chr>, b: seq<Chr>)
    ensures UnitsOf(a + b) == UnitsOf(a) + UnitsOf(b)
    decreases |a|
  {
    hide UnitOf;
    if a == [] {
      assert a + b == b;
    } else {
      assert (a + b)[1..] == a[1..] + b;
      UnitsOfParts(a[1..], b);
    }
  }

  lemma {:induction false} EncodedParts(us: seq<Unit>, vs: seq<Unit>)
    requires !Straddles(us, vs)
    ensures Encoded(us + vs) == Encoded(us) + Encoded(vs)
    decreases |us|
  {
    hide Encode, PairOf;
    if us == [] {
      assert us + vs == vs;
    } else {
      var all := us + vs;
      assert all[1..] == us[1..] + vs;
      if us[0].Code? && IsHigh(us[0].u) && |us| > 1 && us[1].Code? && IsLow(us[1].u) {
        assert all[2..] == us[2..] + vs;
        EncodedParts(us[2..], vs);
      } else {
        EncodedParts(us[1..], vs);
      }
    }
  }

  // ---------------------------------------------------------------- numbers

  /** The number that decimal digits stand for. */
  function Decimal(ds: seq<nat>): nat {
    if ds == [] then 0 else 10 * Decimal(ds[..|ds| - 1]) + ds[|ds| - 1]
  }

  /** The digits of `ds` in letters. */
  ghost predicate Spelled(s: bytes, ds: seq<nat>) {
    |s| == |ds| && forall i :: 0 <= i < |s| ==> ds[i] < 10 && s[i] as int == "0123456789"[ds[i]] as int
  }

  lemma {:induction false} DecimalMeans(s: bytes, ds: seq<nat>)
    requires Spelled(s, ds)
    ensures DecimalValue(s) == Decimal(ds) && forall i :: 0 <= i < |s| ==> IsDigit(s[i])
    decreases |s|
  {
    if s != [] {
      var n := |s| - 1;
      DecimalMeans(s[..n], ds[..n]);
      assert s[n] as int == "0123456789"[ds[n]] as int == 0x30 + ds[n];
      assert forall i :: 0 <= i < n ==> s[..n][i] == s[i];
    }
  }

  /** The text of a number, letter by letter. */
  lemma NumberText(n: NumTok)
    ensures RenderNum(n) == (if n.minus then Letters("-") else []) + n.whole
                            + (if n.frac == [] then [] else Letters(".") + n.frac)
                            + (if n.e == [] then [] else n.e + n.sign + n.exp)
  {
    assert Letters("-") == [0x2D] && Letters(".") == [0x2E];
  }

  /** Which numbers there are: no zero before other digits, and digits behind a point or an exponent. */
  lemma NumberRules(n: NumTok)
    ensures NumOk(n) <==>
              && AllDigits(n.whole) && (n.whole[0] == '0' as int ==> |n.whole| == 1)
              && (n.frac != [] ==> AllDigits(n.frac))
              && (if n.e == [] then n.sign == [] && n.exp == []
                  else && (n.e == Letters("e") || n.e == Letters("E"))
                       && (n.sign == [] || n.sign == Letters("+") || n.sign == Letters("-")) && AllDigits(n.exp))
  {
    assert Letters("-") == [0x2D] && Letters("+") == [0x2B] && Letters("e") == [0x65] && Letters("E") == [0x45];
    hide Letters;
    DigitsAre(n.whole);
    DigitsAre(n.frac);
    DigitsAre(n.exp);
    hide Digits, AllDigits;
  }

  ghost predicate AllDigits(s: bytes) {
    s != [] && forall i :: 0 <= i < |s| ==> '0' as int <= s[i] <= '9' as int
  }

  lemma DigitsAre(s: bytes)
    ensures Digits(s) <==> AllDigits(s)
  {
  }

  /** An integer of at most nine characters is an int, anything else what `strtod` makes of the whole text. */
  lemma NumberMeans(n: NumTok, ds: seq<nat>, strtod: bytes -> Extended)
    requires Spelled(n.whole, ds)
    ensures NumMeaning(n, strtod)
         == if n.frac == [] && n.e == [] && |RenderNum(n)| <= 9
            then Int(if n.minus then -(Decimal(ds) as int) else Decimal(ds))
            else Double(strtod(RenderNum(n)))
  {
    hide RenderNum;
    DecimalMeans(n.whole, ds);
  }

  // ---------------------------------------------------------------- words, brackets, blanks and comments

  lemma WordTexts()
    ensures Render(CNull) == Letters("null") && Render(CTrue) == Letters("true") && Render(CFalse) == Letters("false")
  {
    assert Letters("null") == NULL_TEXT && Letters("true") == TRUE_TEXT && Letters("false") == FALSE_TEXT;
  }

  lemma StringText(cs: seq<Chr>)
    ensures Render(CStr(cs)) == Letters("\"") + RenderChars(cs) + Letters("\"")
  {
    assert Letters("\"") == [QUOTE];
  }

  /** Elements between brackets, with a comma between each two. */
  lemma ArrayText(ws: bytes, e: Elem, es: seq<Elem>)
    ensures Render(CArr(ws, [])) == Letters("[") + ws + Letters("]")
    ensures Render(CArr([], [e] + es)) == Letters("[") + RenderItems([e] + es) + Letters("]")
    ensures RenderItems([e]) == RenderElem(e)
    ensures es != [] ==> RenderItems([e] + es) == RenderElem(e) + Letters(",") + RenderItems(es)
  {
    hide RenderElem;
    assert Letters("[") == [0x5B] && Letters("]") == [0x5D] && Letters(",") == [COMMA];
    assert ([e] + es)[1..] == es;
  }

  /** Members between braces: a key, a colon and a value, with a comma between each two. */
  lemma ObjectText(ws: bytes, m: Member, ms: seq<Member>)
    ensures Render(CObj(ws, [])) == Letters("{") + ws + Letters("}")
    ensures Render(CObj([], [m] + ms)) == Letters("{") + RenderMembers([m] + ms) + Letters("}")
    ensures RenderMembers([m]) == RenderMember(m)
    ensures ms != [] ==> RenderMembers([m] + ms) == RenderMember(m) + Letters(",") + RenderMembers(ms)
    ensures RenderMember(m)
         == m.before + Letters("\"") + RenderChars(m.key) + Letters("\"") + m.afterKey + Letters(":")
            + RenderElem(m.elem)
  {
    hide RenderElem, RenderChars;
    assert Letters("{") == [0x7B] && Letters("}") == [0x7D] && Letters(",") == [COMMA] && Letters(":") == [COLON];
    assert Letters("\"") == [QUOTE];
    assert ([m] + ms)[1..] == ms;
  }

  lemma BlanksAre(b: byte)
    ensures IsWs(b) <==> b in Letters(" \t\n\r")
  {
    assert Letters(" \t\n\r") == [0x20, 0x09, 0x0A, 0x0D];
  }

  ghost predicate StarSlash(s: bytes, k: nat) {
    k + 2 <= |s| && s[k..k + 2] == Letters("*/")
  }

  /** Two slashes up to the end of a line, or a slash and a star up to the first star and slash. */
  lemma CommentsAre(s: bytes)
    ensures LineComment(s) <==> |s| >= 2 && s[..2] == Letters("//") && 10 !in s[2..]
    ensures BlockComment(s) <==>
              && |s| >= 4 && s[..2] == Letters("/*") && StarSlash(s, |s| - 2)
              && forall k: nat :: 2 <= k < |s| - 2 ==> !StarSlash(s, k)
  {
    assert Letters("//") == [0x2F, 0x2F] && Letters("/*") == [0x2F, 0x2A];
    forall k: nat ensures StarSlash(s, k) <==> Closes(s, k) {
      StarSlashIs(s, k);
    }
  }

  lemma StarSlashIs(s: bytes, k: nat)
    ensures StarSlash(s, k) <==> Closes(s, k)
  {
    assert Letters("*/") == [0x2A, 0x2F];
    if k + 2 <= |s| { assert s[k..k + 2] == [s[k], s[k + 1]]; }
  }

  // ---------------------------------------------------------------- how deep is too deep

  /** `n` empty arrays, each but the last holding the next. */
  function Nested(n: nat): Cst {
    if n <= 1 then CArr([], []) else CArr([], [Elem([], Nested(n - 1), [])])
  }

  function Times(s: bytes, n: nat): bytes {
    if n == 0 then [] else s + Times(s, n - 1)
  }

  lemma {:induction false} NestedIs(n: nat)
    requires n >= 1
    ensures Render(Nested(n)) == Times(Letters("["), n) + Times(Letters("]"), n)
    ensures Grammatical(Nested(n), false) && Depth(Nested(n)) == n - 1
    decreases n
  {
    var open, close := Letters("["), Letters("]");
    TimesSnoc(close, n - 1);
    if n == 1 {
      assert Times(open, 1) == open + Times(open, 0) == open && Times(close, 1) == close;
      NothingNested();
    } else {
      NestedIs(n - 1);
      OneNested(Nested(n - 1));
      hide Render, Grammatical, Depth, Letters;
      var a, b := Times(open, n - 1), Times(close, n - 1);
      assert open + (a + b) + close == (open + a) + (b + close);
    }
  }

  lemma {:induction false} TimesSnoc(s: bytes, n: nat)
    ensures Times(s, n + 1) == Times(s, n) + s
    decreases n
  {
    if n > 0 { TimesSnoc(s, n - 1); }
  }

  lemma NothingNested()
    ensures Render(CArr([], [])) == Letters("[") + Letters("]")
    ensures Grammatical(CArr([], []), false) && Depth(CArr([], [])) == 0
  {
    ArrayText([], Elem([], CNull, []), []);
  }

  lemma OneNested(c: Cst)
    requires Grammatical(c, false)
    ensures var a := CArr([], [Elem([], c, [])]);
            && Render(a) == Letters("[") + Render(c) + Letters("]")
            && Grammatical(a, false) && Depth(a) == 1 + Depth(c)
  {
    hide Render;
    var e := Elem([], c, []);
    ArrayText([], e, []);
    assert [e] + [] == [e] && [e][1..] == [];
    assert RenderElem(e) == Render(c);
    assert ElemOk(e, false) && ItemsOk([e], false);
    assert DepthItems([e]) == Max(1 + Depth(c), DepthItems([e][1..])) == 1 + Depth(c);
  }

  /** Nested arrays are read exactly if there are at most 201 of them: the innermost is then 200 levels down. */
  lemma HowDeep(n: nat)
    requires n >= 1
    ensures ReadDocument(Times(Letters("["), n) + Times(Letters("]"), n), false).Some? <==> n <= 201
  {
    hide ReadDocument, Nested, Render, Grammatical, Depth, Times;
    NestedIs(n);
    var e := Elem([], Nested(n), []);
    assert RenderElem(e) == Render(Nested(n));
    ReadUnlessTooDeep(e, false);
  }
}
