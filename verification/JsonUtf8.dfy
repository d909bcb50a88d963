/**
 JSON strings and UTF-8. Decoding a string of a UTF-8 text gives UTF-8 exactly when no surrogate
 escape is left without its partner; printing a string gives UTF-8 exactly when the string is.
 */
module JsonUtf8 {
  import opened Bytes
  import opened JsonValue
  import opened JsonGrammar
  import opened JsonPrinter
  import opened JsonGaps
  import opened JsonRecognition
  import opened Utf8Validator

  // ---------------------------------------------------------------- the validator between ASCII bytes

  /** The state a byte string leads to. */
  function After(state: nat, s: bytes): (r: nat)
    requires state < 9
    ensures r < 9
  {
    Run(Dfa(state, 0), s).state
  }

  /** Whether the machine accepts does not depend on the code point it holds. */
  lemma {:induction false} StateAlone(d: Dfa, s: bytes)
    requires d.state < 9
    ensures Run(d, s).state == After(d.state, s)
    decreases |s|
  {
    if s != [] {
      hide Decode;
      var e := Dfa(d.state, 0);
      DecodeIs(d, s[0]);
      DecodeIs(e, s[0]);
      StateAlone(Decode(d, s[0]), s[1..]);
      StateAlone(Decode(e, s[0]), s[1..]);
    }
  }

  lemma AfterConcat(state: nat, a: bytes, b: bytes)
    requires state < 9
    ensures After(state, a + b) == After(After(state, a), b)
  {
    RunConcat(Dfa(state, 0), a, b);
    StateAlone(Run(Dfa(state, 0), a), b);
  }

  lemma AfterByte(state: nat, b: byte, s: bytes)
    requires state < 9
    ensures After(state, [b] + s) == After(NextState(state, ClassOf(b)), s)
  {
    hide Decode;
    var d := Dfa(state, 0);
    assert ([b] + s)[1..] == s;
    DecodeIs(d, b);
    StateAlone(Decode(d, b), s);
  }

  /** An ASCII byte is accepted between characters and nowhere else. */
  lemma AfterAscii(state: nat, b: byte, s: bytes)
    requires state < 9 && b < 0x80
    ensures After(state, [b] + s) == After(if state == ACCEPT then ACCEPT else REJECT, s)
  {
    AfterByte(state, b, s);
  }

  ghost predicate Ascii(s: bytes) {
    forall i :: 0 <= i < |s| ==> s[i] < 0x80
  }

  lemma {:induction false} AfterAsciis(state: nat, a: bytes, s: bytes)
    requires state < 9 && Ascii(a) && a != []
    ensures After(state, a + s) == After(if state == ACCEPT then ACCEPT else REJECT, s)
    decreases |a|
  {
    assert a + s == [a[0]] + (a[1..] + s);
    AfterAscii(state, a[0], a[1..] + s);
    if |a| > 1 {
      AfterAsciis(if state == ACCEPT then ACCEPT else REJECT, a[1..], s);
    } else {
      assert a[1..] + s == s;
    }
  }

  lemma Rejected(s: bytes)
    ensures After(REJECT, s) == REJECT
  {
    RejectStays(Dfa(REJECT, 0), s);
  }

  /** A code point encoded as json11 does: valid exactly if it is a scalar, and only between characters. */
  lemma AfterEncoding(state: nat, cp: nat, s: bytes)
    requires state < 9 && cp <= 0x10FFFF
    ensures After(state, Encode(cp) + s) == After(if state == ACCEPT && IsScalar(cp) then ACCEPT else REJECT, s)
  {
    hide After, NextState;
    AfterConcat(state, Encode(cp), s);
    if state != ACCEPT {
      EncodingNeedsAccept(state, cp);
    } else if IsScalar(cp) {
      EncodingsAreWellFormed(cp);
      WellFormedAccepted(Encode(cp));
    } else {
      SurrogateRejected(cp);
    }
  }

  lemma WellFormedAccepted(s: bytes)
    requires WellFormed(s)
    ensures After(ACCEPT, s) == ACCEPT
  {
    RunWellFormed(START, s);
  }

  lemma EncodingNeedsAccept(state: nat, cp: nat)
    requires state < 9 && state != ACCEPT && cp <= 0x10FFFF
    ensures After(state, Encode(cp)) == REJECT
  {
    hide After;
    var s := Encode(cp);
    assert s == [s[0]] + s[1..];
    AfterByte(state, s[0], s[1..]);
    Rejected(s[1..]);
  }

  lemma SurrogateRejected(cp: nat)
    requires 0xD800 <= cp <= 0xDFFF
    ensures After(ACCEPT, Encode(cp)) == REJECT
  {
    hide After;
    var s := Encode(cp);
    assert cp / 64 / 64 == 13;
    assert s == [s[0]] + ([s[1]] + s[2..]);
    AfterByte(ACCEPT, s[0], [s[1]] + s[2..]);
    AfterByte(5, s[1], s[2..]);
    Rejected(s[2..]);
  }

  // ---------------------------------------------------------------- strings that are read

  /** No surrogate escape is without its partner. */
  predicate Paired(us: seq<Unit>)
    decreases |us|
  {
    us == [] || match us[0]
                case Byte(_) => Paired(us[1..])
                case Code(u) =>
                  if IsHigh(u) && |us| > 1 && us[1].Code? && IsLow(us[1].u) then Paired(us[2..])
                  else IsScalar(u) && Paired(us[1..])
  }

  /** An escape is ASCII text. */
  lemma EscapeIsAscii(c: Chr)
    requires ChrOk(c) && !c.Raw?
    ensures Ascii(RenderChr(c)) && RenderChr(c) != []
    ensures c.Esc? ==> Unescape(c.c) < 0x80
  {
  }

  lemma UnitsSplit(cs: seq<Chr>)
    requires cs != []
    ensures UnitsOf(cs)[0] == UnitOf(cs[0]) && UnitsOf(cs)[1..] == UnitsOf(cs[1..])
  {
  }

  /** Where the text of a string leads the validator, what it means leads it too, unless a surrogate is alone. */
  lemma {:induction false} DecodedRuns(state: nat, cs: seq<Chr>)
    requires state < 9 && CharsOk(cs)
    ensures Paired(UnitsOf(cs)) ==> After(state, StringMeaning(cs)) == After(state, RenderChars(cs))
    ensures !Paired(UnitsOf(cs)) ==> After(state, StringMeaning(cs)) == REJECT
    decreases |cs|
  {
    if cs != [] {
      hide After, ChrOk, RenderChr;
      UnitsSplit(cs);
      var us, rest := UnitsOf(cs), RenderChars(cs[1..]);
      assert RenderChars(cs) == RenderChr(cs[0]) + rest;
      match cs[0]
      case Raw(b) =>
        assert RenderChr(cs[0]) == [b] by { RawText(b); }
        AfterByte(state, b, rest);
        AfterByte(state, b, Encoded(us[1..]));
        DecodedRuns(NextState(state, ClassOf(b)), cs[1..]);
      case Esc(c) =>
        EscapeIsAscii(cs[0]);
        AfterAsciis(state, RenderChr(cs[0]), rest);
        AfterAscii(state, Unescape(c), Encoded(us[1..]));
        DecodedRuns(if state == ACCEPT then ACCEPT else REJECT, cs[1..]);
      case Uni(hex) =>
        EscapeRuns(state, cs);
    }
  }

  lemma RawText(b: byte)
    ensures RenderChr(Raw(b)) == [b]
  {
  }

  lemma {:induction false} EscapeRuns(state: nat, cs: seq<Chr>)
    requires state < 9 && CharsOk(cs) && cs != [] && cs[0].Uni?
    ensures Paired(UnitsOf(cs)) ==> After(state, StringMeaning(cs)) == After(state, RenderChars(cs))
    ensures !Paired(UnitsOf(cs)) ==> After(state, StringMeaning(cs)) == REJECT
    decreases |cs|, 0
  {
    hide After, ChrOk, RenderChr;
    UnitsSplit(cs);
    var us, u, rest := UnitsOf(cs), HexValue(cs[0].hex), RenderChars(cs[1..]);
    var next := if state == ACCEPT then ACCEPT else REJECT;
    assert RenderChars(cs) == RenderChr(cs[0]) + rest;
    EscapeIsAscii(cs[0]);
    AfterAsciis(state, RenderChr(cs[0]), rest);
    if IsHigh(u) && |us| > 1 && us[1].Code? && IsLow(us[1].u) {
      UnitsSplit(cs[1..]);
      assert us[1] == UnitOf(cs[1]) && cs[1].Uni? && us[2..] == UnitsOf(cs[2..]) && cs[1..][1..] == cs[2..];
      assert rest == RenderChr(cs[1]) + RenderChars(cs[2..]);
      EscapeIsAscii(cs[1]);
      AfterAsciis(next, RenderChr(cs[1]), RenderChars(cs[2..]));
      AfterEncoding(state, PairOf(u, us[1].u), Encoded(us[2..]));
      DecodedRuns(next, cs[2..]);
    } else {
      AfterEncoding(state, u, Encoded(us[1..]));
      if IsScalar(u) {
        DecodedRuns(next, cs[1..]);
      } else {
        Rejected(Encoded(us[1..]));
      }
    }
  }

  /**
   A string inside a text that is UTF-8 decodes to UTF-8 exactly if it has no lone surrogate
   escape. The text around the string is arbitrary.
   */
  lemma DecodedIsUtf8(before: bytes, cs: seq<Chr>, behind: bytes)
    requires CharsOk(cs) && IsUtf8(before + [QUOTE] + RenderChars(cs) + [QUOTE] + behind)
    ensures IsUtf8(StringMeaning(cs)) <==> Paired(UnitsOf(cs))
  {
    hide IsUtf8, StringMeaning, UnitsOf;
    AcceptsExactlyUtf8(before + [QUOTE] + RenderChars(cs) + [QUOTE] + behind);
    AcceptsExactlyUtf8(StringMeaning(cs));
    BetweenQuotes(before, RenderChars(cs), behind);
    DecodedRuns(ACCEPT, cs);
  }

  lemma BetweenQuotes(before: bytes, s: bytes, behind: bytes)
    requires After(ACCEPT, before + [QUOTE] + s + [QUOTE] + behind) == ACCEPT
    ensures After(ACCEPT, before) == ACCEPT && After(ACCEPT, s) == ACCEPT && After(ACCEPT, behind) == ACCEPT
  {
    hide After;
    assert before + [QUOTE] + s + [QUOTE] + behind == before + ([QUOTE] + (s + ([QUOTE] + behind)));
    AfterConcat(ACCEPT, before, [QUOTE] + (s + ([QUOTE] + behind)));
    AfterAscii(After(ACCEPT, before), QUOTE, s + ([QUOTE] + behind));
    if After(ACCEPT, before) != ACCEPT { Rejected(s + ([QUOTE] + behind)); }
    AfterConcat(ACCEPT, s, [QUOTE] + behind);
    AfterAscii(After(ACCEPT, s), QUOTE, behind);
    if After(ACCEPT, s) != ACCEPT { Rejected(behind); }
  }

  // ---------------------------------------------------------------- strings that are printed

  lemma PrintedChar(s: bytes, i: nat)
    requires i < |s|
    ensures RenderChars(CharsFrom(s, i)) == RenderChr(ChrAt(s, i)) + RenderChars(CharsFrom(s, NextChar(s, i)))
    ensures ChrAt(s, i).Raw? ==> ChrAt(s, i).b == s[i] && NextChar(s, i) == i + 1
  {
  }

  /** What is escaped is ASCII or a line separator. */
  lemma EscapedRuns(state: nat, s: bytes, i: nat)
    requires state < 9 && i < |s| && !ChrAt(s, i).Raw?
    ensures After(state, s[i..]) == After(if state == ACCEPT then ACCEPT else REJECT, s[NextChar(s, i)..])
  {
    hide After, LowerHex, EscapeOf;
    EscapedIsAscii(s[i]);
    if NextChar(s, i) == i + 3 {
      var cp := if s[i + 2] == 0xA8 then 0x2028 else 0x2029;
      EscapeMeans(s[i]);
      assert s[i..] == Encode(cp) + s[i + 3..];
      AfterEncoding(state, cp, s[i + 3..]);
    } else {
      assert s[i..] == [s[i]] + s[i + 1..];
      AfterAscii(state, s[i], s[i + 1..]);
    }
  }

  /** A printed string leads the validator where the string itself does. */
  lemma {:induction false} PrintedRuns(state: nat, s: bytes, i: nat)
    requires state < 9 && i <= |s|
    ensures After(state, RenderChars(CharsFrom(s, i))) == After(state, s[i..])
    decreases |s| - i
  {
    if i < |s| {
      hide After, RenderChr, RenderChars, CharsFrom, NextChar, ChrAt, ChrOk;
      PrintedChar(s, i);
      var c, next := ChrAt(s, i), NextChar(s, i);
      var tail := RenderChars(CharsFrom(s, next));
      if c.Raw? {
        RawText(s[i]);
        assert s[i..] == [s[i]] + s[i + 1..];
        AfterByte(state, s[i], tail);
        AfterByte(state, s[i], s[i + 1..]);
        PrintedRuns(NextState(state, ClassOf(s[i])), s, next);
      } else {
        EscapeIsAscii(c);
        AfterAsciis(state, RenderChr(c), tail);
        EscapedRuns(state, s, i);
        PrintedRuns(if state == ACCEPT then ACCEPT else REJECT, s, next);
      }
    } else {
      NothingPrinted(s);
    }
  }

  lemma NothingPrinted(s: bytes)
    ensures RenderChars(CharsFrom(s, |s|)) == s[|s|..]
  {
  }

  lemma EscapedIsAscii(b: byte)
    ensures EscapeOf(b).Some? ==> b < 0x80
  {
  }

  /** What is printed for a string is UTF-8 exactly if the string is. */
  lemma PrintedIsUtf8(s: bytes)
    ensures IsUtf8(RenderChars(CharsOf(s))) <==> IsUtf8(s)
  {
    hide IsUtf8;
    AcceptsExactlyUtf8(s);
    AcceptsExactlyUtf8(RenderChars(CharsOf(s)));
    PrintedRuns(ACCEPT, s, 0);
    assert s[0..] == s;
  }

  /** Every string and every key in `v` is UTF-8. */
  ghost predicate StringsAreUtf8(v: Json)
    decreases v
  {
    match v
    case Str(s) => IsUtf8(s)
    case Arr(items) => forall k :: 0 <= k < |items| ==> StringsAreUtf8(items[k])
    case Obj(fields) => forall k :: 0 <= k < |fields| ==> IsUtf8(fields[k].key) && StringsAreUtf8(fields[k].value)
    case _ => true
  }

  /** A piece of text with no character cut in two. */
  ghost predicate Clean(s: bytes) {
    After(ACCEPT, s) == ACCEPT
  }

  lemma CleanAscii(s: bytes)
    requires Ascii(s)
    ensures Clean(s)
  {
    if s != [] {
      assert s + [] == s;
      AfterAsciis(ACCEPT, s, []);
    }
  }

  lemma CleanIn(a: bytes, s: bytes, b: bytes)
    requires Ascii(a) && Ascii(b) && (a != [] || b != [])
    ensures Clean(a + s + b) <==> Clean(s)
  {
    hide After;
    assert a + s + b == a + (s + b);
    if a != [] { AfterAsciis(ACCEPT, a, s + b); } else { assert a + (s + b) == s + b; }
    AfterConcat(ACCEPT, s, b);
    if b != [] {
      assert b + [] == b;
      AfterAsciis(After(ACCEPT, s), b, []);
      Nowhere(ACCEPT);
      Nowhere(REJECT);
    } else {
      assert s + b == s;
    }
  }

  lemma Nowhere(state: nat)
    requires state < 9
    ensures After(state, []) == state
  {
  }

  lemma CleanPair(s: bytes, a: bytes, t: bytes)
    requires Ascii(a) && a != []
    ensures Clean(s + a + t) <==> Clean(s) && Clean(t)
  {
    hide After;
    assert s + a + t == s + (a + t);
    AfterConcat(ACCEPT, s, a + t);
    AfterAsciis(After(ACCEPT, s), a, t);
    Rejected(t);
  }

  lemma CleanIsUtf8(s: bytes)
    ensures Clean(s) <==> IsUtf8(s)
  {
    AcceptsExactlyUtf8(s);
  }

  lemma NumberIsClean(n: NumTok)
    requires NumOk(n)
    ensures Clean(RenderNum(n))
  {
    var whole: bytes := n.whole;
    var frac: bytes := if n.frac == [] then [] else [0x2E] + n.frac;
    var exp: bytes := if n.e == [] then [] else n.e + n.sign + n.exp;
    assert Ascii(whole) && Ascii(frac) && Ascii(exp);
    CleanAscii(RenderNum(n));
  }

  /** The text printed for a value is UTF-8 exactly if every string and key in it is. */
  lemma PrintedValueIsUtf8(v: Json, format: real -> bytes)
    requires FormatsNumbers(format)
    ensures IsUtf8(Render(TreeOf(v, format))) <==> StringsAreUtf8(v)
  {
    hide IsUtf8, Clean, Render, TreeOf, StringsAreUtf8;
    PrintedIsClean(v, format);
    CleanIsUtf8(Render(TreeOf(v, format)));
  }

  lemma {:induction false} PrintedIsClean(v: Json, format: real -> bytes)
    requires FormatsNumbers(format)
    ensures Clean(Render(TreeOf(v, format))) <==> StringsAreUtf8(v)
    decreases v, 0
  {
    hide IsUtf8, Clean, FormatsNumbers, CharsOf, RenderChars, NumOk, RenderNum, TokenOf;
    match v
    case Number(n) => if IsFinite(n) { NumberIsClean(TokenOf(n, format)); } else { CleanAscii(NULL_TEXT); }
    case Str(s) => PrintedStringIsClean(s);
    case Arr(items) =>
      PrintedItemsAreClean(items, [], format);
      CleanIn([0x5B], RenderItems(ItemsOf(items, [], format)), [0x5D]);
    case Obj(fields) =>
      PrintedMembersAreClean(fields, [], format);
      CleanIn([0x7B], RenderMembers(MembersOf(fields, [], format)), [0x7D]);
    case _ => CleanAscii(Render(TreeOf(v, format)));
  }

  lemma PrintedStringIsClean(s: bytes)
    ensures Clean([QUOTE] + RenderChars(CharsOf(s)) + [QUOTE]) <==> IsUtf8(s)
  {
    hide IsUtf8, Clean, CharsOf, RenderChars;
    PrintedIsUtf8(s);
    CleanIsUtf8(RenderChars(CharsOf(s)));
    CleanIn([QUOTE], RenderChars(CharsOf(s)), [QUOTE]);
  }

  lemma {:induction false} PrintedItemsAreClean(items: seq<Json>, before: bytes, format: real -> bytes)
    requires FormatsNumbers(format) && Ascii(before)
    ensures Clean(RenderItems(ItemsOf(items, before, format)))
       <==> forall k :: 0 <= k < |items| ==> StringsAreUtf8(items[k])
    decreases items, 1
  {
    hide IsUtf8, Clean, FormatsNumbers, TreeOf, Render, StringsAreUtf8;
    if items == [] {
      CleanAscii([]);
    } else {
      var es, tree := ItemsOf(items, before, format), TreeOf(items[0], format);
      assert es[1..] == ItemsOf(items[1..], [0x20], format);
      PrintedIsClean(items[0], format);
      ElemIsClean(before, tree);
      if |items| > 1 {
        PrintedItemsAreClean(items[1..], [0x20], format);
        CleanPair(RenderElem(es[0]), [COMMA], RenderItems(es[1..]));
        assert forall k :: 1 <= k < |items| ==> items[k] == items[1..][k - 1];
      }
    }
  }

  lemma ElemIsClean(before: bytes, tree: Cst)
    requires Ascii(before)
    ensures Clean(RenderElem(Elem(before, tree, []))) <==> Clean(Render(tree))
  {
    hide Render, Clean;
    if before != [] {
      CleanIn(before, Render(tree), []);
    } else {
      assert RenderElem(Elem([], tree, [])) == Render(tree);
    }
  }

  lemma {:induction false} PrintedMembersAreClean(fields: seq<Field>, before: bytes, format: real -> bytes)
    requires FormatsNumbers(format) && Ascii(before)
    ensures Clean(RenderMembers(MembersOf(fields, before, format)))
       <==> forall k :: 0 <= k < |fields| ==> IsUtf8(fields[k].key) && StringsAreUtf8(fields[k].value)
    decreases fields, 1
  {
    hide IsUtf8, Clean, FormatsNumbers, TreeOf, Render, StringsAreUtf8, CharsOf, RenderChars, RenderMember;
    if fields == [] {
      CleanAscii([]);
    } else {
      var ms, tree := MembersOf(fields, before, format), TreeOf(fields[0].value, format);
      assert ms[1..] == MembersOf(fields[1..], [0x20], format);
      PrintedIsClean(fields[0].value, format);
      MemberIsClean(before, fields[0], format);
      if |fields| > 1 {
        PrintedMembersAreClean(fields[1..], [0x20], format);
        CleanPair(RenderMember(ms[0]), [COMMA], RenderMembers(ms[1..]));
        assert forall k :: 1 <= k < |fields| ==> fields[k] == fields[1..][k - 1];
      }
    }
  }

  lemma MemberIsClean(before: bytes, f: Field, format: real -> bytes)
    requires FormatsNumbers(format) && Ascii(before)
    ensures Clean(RenderMember(Member(before, CharsOf(f.key), [], Elem([0x20], TreeOf(f.value, format), []))))
       <==> IsUtf8(f.key) && Clean(Render(TreeOf(f.value, format)))
  {
    hide IsUtf8, Clean, FormatsNumbers, TreeOf, Render, CharsOf, RenderChars, FieldText, RenderMember;
    FieldIsMember(f, before, format);
    FieldTextIs(f, format);
    var name, value := [QUOTE] + RenderChars(CharsOf(f.key)) + [QUOTE], Render(TreeOf(f.value, format));
    PrintedStringIsClean(f.key);
    CleanPair(name, [COLON, 0x20], value);
    if before != [] {
      CleanIn(before, FieldText(f, format), []);
      assert before + FieldText(f, format) + [] == before + FieldText(f, format);
    } else {
      assert before + FieldText(f, format) == FieldText(f, format);
    }
  }

  lemma FieldTextIs(f: Field, format: real -> bytes)
    requires FormatsNumbers(format)
    ensures FieldText(f, format)
         == [QUOTE] + RenderChars(CharsOf(f.key)) + [QUOTE] + [COLON, 0x20] + Render(TreeOf(f.value, format))
  {
  }

  // ---------------------------------------------------------------- values that are read

  /** No string and no key of the tree has a surrogate escape without its partner. */
  ghost predicate AllPaired(c: Cst)
    decreases c, 0
  {
    match c
    case CStr(cs) => Paired(UnitsOf(cs))
    case CArr(_, items) => ItemsPaired(items)
    case CObj(_, members) => MembersPaired(members)
    case _ => true
  }

  ghost predicate ItemsPaired(items: seq<Elem>)
    decreases items, 1
  {
    items == [] || (AllPaired(items[0].value) && ItemsPaired(items[1..]))
  }

  ghost predicate MembersPaired(ms: seq<Member>)
    decreases ms, 1
  {
    ms == [] || (Paired(UnitsOf(ms[0].key)) && AllPaired(ms[0].elem.value) && MembersPaired(ms[1..]))
  }

  ghost predicate FieldsAreUtf8(fields: seq<Field>) {
    forall k :: 0 <= k < |fields| ==> IsUtf8(fields[k].key) && StringsAreUtf8(fields[k].value)
  }

  /**
   A UTF-8 document without lone surrogate escapes denotes a value all of whose strings are UTF-8.
   Its comments may hold any characters.
   */
  lemma ParsedIsUtf8(e: Elem, t: bytes, comments: bool, strtod: bytes -> Extended)
    requires Derives(e, t, comments) && IsUtf8(t) && AllPaired(e.value)
    ensures StringsAreUtf8(Meaning(e.value, strtod))
  {
    hide IsUtf8, Clean, AllPaired, StringsAreUtf8, Meaning, Render, Grammatical;
    CleanIsUtf8(t);
    CleanElem(e, comments);
    ReadIsUtf8(e.value, comments, strtod);
  }

  /** Where an ASCII byte comes next, a clean text can be cut. */
  lemma CleanBefore(a: bytes, w: bytes)
    requires Clean(a + w) && (w != [] ==> w[0] < 0x80)
    ensures Clean(a) && Clean(w)
  {
    hide After;
    if w == [] {
      assert a + w == a;
      CleanAscii([]);
    } else {
      var state := After(ACCEPT, a);
      AfterConcat(ACCEPT, a, w);
      assert w == [w[0]] + w[1..];
      AfterAscii(state, w[0], w[1..]);
      AfterAscii(ACCEPT, w[0], w[1..]);
      Rejected(w[1..]);
    }
  }

  /** Behind an ASCII byte, too. */
  lemma CleanBehind(w: bytes, b: bytes)
    requires Clean(w + b) && (w != [] ==> w[|w| - 1] < 0x80)
    ensures Clean(b)
  {
    hide After;
    if w == [] {
      assert w + b == b;
    } else {
      var m, y := w[..|w| - 1], w[|w| - 1];
      assert w + b == m + ([y] + b);
      CleanBefore(m, [y] + b);
      AfterAscii(ACCEPT, y, b);
    }
  }

  /** A comment begins with a slash, and ends with one or with a line feed. */
  lemma {:induction false} GapIsAsciiAround(w: bytes, comments: bool)
    requires Gap(w, comments) && w != []
    ensures w[0] < 0x80 && w[|w| - 1] < 0x80
    decreases |w|
  {
    hide Gap, Comment;
    var k := GapFront(w, comments);
    PieceIsAsciiAround(w, k, comments);
    if k < |w| { GapIsAsciiAround(w[k..], comments); }
  }

  lemma PieceIsAsciiAround(w: bytes, k: nat, comments: bool)
    requires 0 < k <= |w| && ((k == 1 && IsWs(w[0])) || Comment(w[..k]))
    ensures w[0] < 0x80 && w[k - 1] < 0x80
  {
    if Comment(w[..k]) { assert w[..k][0] == w[0] && w[..k][k - 1] == w[k - 1]; }
  }

  lemma LastGapBegins(w: bytes, comments: bool)
    requires LastGap(w, comments) && w != []
    ensures w[0] < 0x80
  {
    hide Gap;
    if Gap(w, comments) {
      GapIsAsciiAround(w, comments);
    } else {
      var k :| 0 <= k <= |w| && Gap(w[..k], comments) && LineComment(w[k..]);
      if k > 0 { GapIsAsciiAround(w[..k], comments); }
    }
  }

  lemma CleanElem(e: Elem, comments: bool)
    requires DocumentOk(e, comments) && Clean(RenderElem(e))
    ensures Clean(Render(e.value))
  {
    hide Clean, Render, Grammatical, Gap, LastGap;
    if e.before != [] { GapIsAsciiAround(e.before, comments); }
    if e.after != [] { LastGapBegins(e.after, comments); }
    CleanBefore(e.before + Render(e.value), e.after);
    CleanBehind(e.before, Render(e.value));
  }

  lemma CleanStringIsUtf8(cs: seq<Chr>)
    requires CharsOk(cs) && Paired(UnitsOf(cs)) && Clean(RenderChars(cs))
    ensures IsUtf8(StringMeaning(cs))
  {
    hide IsUtf8;
    DecodedRuns(ACCEPT, cs);
    CleanIsUtf8(StringMeaning(cs));
  }

  lemma {:induction false} ReadIsUtf8(c: Cst, comments: bool, strtod: bytes -> Extended)
    requires Grammatical(c, comments) && AllPaired(c) && Clean(Render(c))
    ensures StringsAreUtf8(Meaning(c, strtod))
    decreases c, 0
  {
    hide IsUtf8, Clean, NumMeaning, StringMeaning, RenderNum, RenderChars, Paired;
    match c
    case CStr(cs) =>
      CleanIn([QUOTE], RenderChars(cs), [QUOTE]);
      CleanStringIsUtf8(cs);
    case CArr(ws, items) =>
      if items != [] { CleanIn([0x5B], RenderItems(items), [0x5D]); } else { CleanAscii([]); }
      ReadItemsAreUtf8(items, comments, strtod);
    case CObj(ws, members) =>
      if members != [] { CleanIn([0x7B], RenderMembers(members), [0x7D]); } else { CleanAscii([]); }
      ReadMembersAreUtf8([], members, comments, strtod);
    case _ =>
  }

  lemma {:induction false} ReadItemsAreUtf8(items: seq<Elem>, comments: bool, strtod: bytes -> Extended)
    requires ItemsOk(items, comments) && ItemsPaired(items) && Clean(RenderItems(items))
    ensures forall k :: 0 <= k < |MeaningItems(items, strtod)| ==> StringsAreUtf8(MeaningItems(items, strtod)[k])
    decreases items, 1
  {
    hide Clean, Meaning, Render, StringsAreUtf8, AllPaired, Grammatical, RenderElem;
    if items != [] {
      if |items| > 1 {
        CleanPair(RenderElem(items[0]), [COMMA], RenderItems(items[1..]));
      } else {
        CleanAscii([]);
      }
      GapIsLast(items[0].after, comments);
      CleanElem(items[0], comments);
      ReadIsUtf8(items[0].value, comments, strtod);
      ReadItemsAreUtf8(items[1..], comments, strtod);
    }
  }

  lemma CleanMember(m: Member, comments: bool)
    requires MemberOk(m, comments) && Clean(RenderMember(m))
    ensures Clean(RenderChars(m.key)) && Clean(Render(m.elem.value))
  {
    hide Clean, Render, RenderElem, RenderChars, Grammatical, Gap, LastGap;
    var front, link := m.before + [QUOTE], [QUOTE] + m.afterKey + [COLON];
    assert RenderMember(m) == (front + RenderChars(m.key)) + (link + RenderElem(m.elem));
    CleanBefore(front + RenderChars(m.key), link + RenderElem(m.elem));
    CleanBehind(front, RenderChars(m.key));
    CleanBehind(link, RenderElem(m.elem));
    GapIsLast(m.elem.after, comments);
    CleanElem(m.elem, comments);
  }

  lemma {:induction false} ReadMembersAreUtf8(fields: seq<Field>, ms: seq<Member>,
                                              comments: bool, strtod: bytes -> Extended)
    requires FieldsAreUtf8(fields)
    requires MembersOk(ms, comments) && MembersPaired(ms) && Clean(RenderMembers(ms))
    ensures FieldsAreUtf8(MeaningMembers(fields, ms, strtod))
    decreases ms, 1
  {
    hide Clean, Meaning, Render, StringsAreUtf8, AllPaired, Grammatical, FieldsAreUtf8, StringMeaning, Put, Paired,
         RenderMember, IsUtf8;
    if ms != [] {
      if |ms| > 1 {
        CleanPair(RenderMember(ms[0]), [COMMA], RenderMembers(ms[1..]));
      } else {
        CleanAscii([]);
      }
      CleanMember(ms[0], comments);
      CleanStringIsUtf8(ms[0].key);
      ReadIsUtf8(ms[0].elem.value, comments, strtod);
      var key, value := StringMeaning(ms[0].key), Meaning(ms[0].elem.value, strtod);
      PutIsUtf8(fields, key, value);
      ReadMembersAreUtf8(Put(fields, key, value), ms[1..], comments, strtod);
    }
  }

  lemma {:induction false} PutIsUtf8(fields: seq<Field>, key: bytes, value: Json)
    requires FieldsAreUtf8(fields) && IsUtf8(key) && StringsAreUtf8(value)
    ensures FieldsAreUtf8(Put(fields, key, value))
  {
    hide IsUtf8, StringsAreUtf8;
    if fields != [] {
      PutIsUtf8(fields[1..], key, value);
    }
  }
}
