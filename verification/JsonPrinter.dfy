/**
 json11's printer. Whatever it prints for a value is a text of the grammar that denotes this value
 again; with `JsonRecognition`, parsing it gives the value back.
 */
module JsonPrinter {
  import opened Bytes
  import opened JsonValue
  import opened JsonGrammar
  import opened JsonObjects
  import opened JsonReading
  import opened JsonRecognition
  import opened Utf8Validator
  import JsonParser

  // ---------------------------------------------------------------- which text is printed

  /** A digit as `%x` prints it. */
  function LowerHex(d: nat): byte
    requires d < 16
  {
    if d < 10 then 0x30 + d else 0x61 + (d - 10)
  }

  /** U+2028 and U+2029, which JavaScript takes for line ends. */
  predicate IsSeparator(s: bytes, i: nat) {
    i + 2 < |s| && s[i] == 0xE2 && s[i + 1] == 0x80 && (s[i + 2] == 0xA8 || s[i + 2] == 0xA9)
  }

  /** The letter of a two-character escape. */
  function EscapeOf(b: byte): Option<byte> {
    if b == BACKSLASH then Some(BACKSLASH)
    else if b == QUOTE then Some(QUOTE)
    else if b == 0x08 then Some(0x62)
    else if b == 0x0C then Some(0x66)
    else if b == 0x0A then Some(0x6E)
    else if b == 0x0D then Some(0x72)
    else if b == 0x09 then Some(0x74)
    else None
  }

  /** How the character at `i` is printed. */
  function ChrAt(s: bytes, i: nat): (c: Chr)
    requires i < |s|
    ensures ChrOk(c)
  {
    if EscapeOf(s[i]).Some? then Esc(EscapeOf(s[i]).v)
    else if s[i] <= 0x1F then Uni([0x30, 0x30, LowerHex(s[i] / 16), LowerHex(s[i] % 16)])
    else if IsSeparator(s, i) then Uni([0x32, 0x30, 0x32, if s[i + 2] == 0xA8 then 0x38 else 0x39])
    else Raw(s[i])
  }

  /** Where printing goes on behind it. */
  function NextChar(s: bytes, i: nat): (j: nat)
    requires i < |s|
    ensures i < j <= |s|
  {
    if EscapeOf(s[i]).None? && s[i] > 0x1F && IsSeparator(s, i) then i + 3 else i + 1
  }

  /** How a string is printed from position `i` on. */
  function CharsFrom(s: bytes, i: nat): (cs: seq<Chr>)
    requires i <= |s|
    ensures CharsOk(cs)
    decreases |s| - i
  {
    if i == |s| then [] else [ChrAt(s, i)] + CharsFrom(s, NextChar(s, i))
  }

  function CharsOf(s: bytes): seq<Chr> {
    CharsFrom(s, 0)
  }

  /** The decimal digits of `n`, as `%d` prints them. */
  function DigitsOf(n: nat): (s: bytes)
    ensures Digits(s) && DecimalValue(s) == n && (s[0] == 0x30 ==> |s| == 1)
  {
    if n < 10 then [0x30 + n]
    else
      var s := DigitsOf(n / 10) + [0x30 + n % 10];
      assert s[..|s| - 1] == DigitsOf(n / 10);
      assert n / 10 > 0 && DecimalValue([0x30 as byte]) == 0;
      s
  }

  /** A finite double is printed by `format` (`%.17g`), as some number of the grammar. */
  ghost predicate FormatsNumbers(format: real -> bytes) {
    forall x :: IsNumber(format(x))
  }

  ghost predicate IsNumber(s: bytes) {
    exists n :: NumOk(n) && RenderNum(n) == s
  }

  predicate IsFinite(n: Num) {
    n.Int? || n.x.Finite?
  }

  ghost function TokenOf(n: Num, format: real -> bytes): (tok: NumTok)
    requires FormatsNumbers(format) && IsFinite(n)
    ensures NumOk(tok)
  {
    match n
    case Int(i) => NumTok(i < 0, DigitsOf(if i < 0 then -i else i), [], [], [], [])
    case Double(Finite(x)) => assert IsNumber(format(x)); var tok :| NumOk(tok) && RenderNum(tok) == format(x); tok
  }

  /** The syntax tree of the text that is printed: a blank behind every comma and colon, `null` for infinities. */
  ghost function TreeOf(v: Json, format: real -> bytes): Cst
    requires FormatsNumbers(format)
    decreases v, 0
  {
    match v
    case Null => CNull
    case Bool(b) => if b then CTrue else CFalse
    case Number(n) => if IsFinite(n) then CNum(TokenOf(n, format)) else CNull
    case Str(s) => CStr(CharsOf(s))
    case Arr(items) => CArr([], ItemsOf(items, [], format))
    case Obj(fields) => CObj([], MembersOf(fields, [], format))
  }

  ghost function ItemsOf(items: seq<Json>, before: bytes, format: real -> bytes): seq<Elem>
    requires FormatsNumbers(format)
    decreases items, 1
  {
    if items == [] then []
    else [Elem(before, TreeOf(items[0], format), [])] + ItemsOf(items[1..], [0x20], format)
  }

  ghost function MembersOf(fields: seq<Field>, before: bytes, format: real -> bytes): seq<Member>
    requires FormatsNumbers(format)
    decreases fields, 1
  {
    if fields == [] then []
    else [Member(before, CharsOf(fields[0].key), [], Elem([0x20], TreeOf(fields[0].value, format), []))]
         + MembersOf(fields[1..], [0x20], format)
  }

  // ---------------------------------------------------------------- the printer

  /** `dump(const string &, string &)`; looking ahead never reads past the NUL behind the string. */
  method DumpString(value: bytes, out: bytes) returns (out': bytes)
    ensures out' == out + [QUOTE] + RenderChars(CharsOf(value)) + [QUOTE]
  {
    hide Printed, LowerHex, RenderChars, CharsFrom, ChrAt, RenderChr;
    out' := out + [QUOTE];
    var i := 0;
    ghost var whole := Printed(out', value, 0);
    PrintedEnds(out', value);
    while i < |value|
      invariant i <= |value| && whole == Printed(out', value, i)
    {
      PrintedStep(out', value, i);
      ChrText(value, i);
      var ch := value[i];
      if ch == BACKSLASH {
        out' := out' + [BACKSLASH, BACKSLASH];
      } else if ch == QUOTE {
        out' := out' + [BACKSLASH, QUOTE];
      } else if ch == 0x08 {
        out' := out' + [BACKSLASH, 0x62];
      } else if ch == 0x0C {
        out' := out' + [BACKSLASH, 0x66];
      } else if ch == 0x0A {
        out' := out' + [BACKSLASH, 0x6E];
      } else if ch == 0x0D {
        out' := out' + [BACKSLASH, 0x72];
      } else if ch == 0x09 {
        out' := out' + [BACKSLASH, 0x74];
      } else if ch <= 0x1F {
        out' := out' + [BACKSLASH, 0x75, 0x30, 0x30, LowerHex(ch / 16), LowerHex(ch % 16)];
      } else if ch == 0xE2 && At(value, i + 1) == 0x80 && At(value, i + 2) == 0xA8 {
        out' := out' + [BACKSLASH, 0x75, 0x32, 0x30, 0x32, 0x38];
        i := i + 2;
      } else if ch == 0xE2 && At(value, i + 1) == 0x80 && At(value, i + 2) == 0xA9 {
        out' := out' + [BACKSLASH, 0x75, 0x32, 0x30, 0x32, 0x39];
        i := i + 2;
      } else {
        out' := out' + [ch];
      }
      i := i + 1;
    }
    PrintedEnds(out', value);
    out' := out' + [QUOTE];
  }

  /** What will have been printed in the end if `out` is there and `s` is still to come from position `i` on. */
  function Printed(out: bytes, s: bytes, i: nat): bytes
    requires i <= |s|
  {
    out + RenderChars(CharsFrom(s, i))
  }

  lemma PrintedEnds(out: bytes, s: bytes)
    ensures Printed(out, s, |s|) == out
    ensures Printed(out, s, 0) == out + RenderChars(CharsOf(s))
  {
  }

  lemma PrintedStep(out: bytes, s: bytes, i: nat)
    requires i < |s|
    ensures Printed(out, s, i) == Printed(out + RenderChr(ChrAt(s, i)), s, NextChar(s, i))
  {
  }

  /** The text of each kind of character. */
  lemma ChrText(s: bytes, i: nat)
    requires i < |s|
    ensures var b := s[i];
            RenderChr(ChrAt(s, i)) ==
            if EscapeOf(b).Some? then [BACKSLASH, EscapeOf(b).v]
            else if b <= 0x1F then [BACKSLASH, 0x75, 0x30, 0x30, LowerHex(b / 16), LowerHex(b % 16)]
            else if IsSeparator(s, i) then [BACKSLASH, 0x75, 0x32, 0x30, 0x32, if s[i + 2] == 0xA8 then 0x38 else 0x39]
            else [b]
  {
  }

  /** `snprintf("%d")` */
  method DumpInt(value: int, out: bytes) returns (out': bytes)
    ensures out' == out + RenderNum(NumTok(value < 0, DigitsOf(if value < 0 then -value else value), [], [], [], []))
  {
    out' := out + (if value < 0 then [0x2D] else []) + DigitsOf(if value < 0 then -value else value);
  }

  /** `Json::dump` */
  method Dump(v: Json, format: real -> bytes, out: bytes) returns (out': bytes)
    requires FormatsNumbers(format)
    ensures out' == out + Render(TreeOf(v, format))
    decreases v, 0
  {
    hide CharsFrom, RenderNum, RenderChars, DigitsOf;
    match v
    case Null => out' := out + NULL_TEXT;
    case Bool(b) => out' := out + (if b then TRUE_TEXT else FALSE_TEXT);
    case Number(Int(i)) => out' := DumpInt(i, out);
    case Number(Double(x)) => out' := out + (if x.Finite? then format(x.r) else NULL_TEXT);
    case Str(s) => out' := DumpString(s, out);
    case Arr(items) => out' := DumpArray(v, format, out);
    case Obj(fields) => out' := DumpObject(v, format, out);
  }

  method DumpArray(v: Json, format: real -> bytes, out: bytes) returns (out': bytes)
    requires v.Arr? && FormatsNumbers(format)
    ensures out' == out + [0x5B] + RenderItems(ItemsOf(v.items, [], format)) + [0x5D]
    decreases v, -1
  {
    hide Render, TreeOf, RenderItems, ItemsOf, FormatsNumbers, WithItems;
    var first := true;
    out' := out + [0x5B];
    ghost var whole := WithItems(out', v.items, true, format);
    AllItems(out', v.items, format);
    for k := 0 to |v.items|
      invariant first == (k == 0) && whole == WithItems(out', v.items[k..], first, format)
    {
      ItemsStep(out', v.items[k..], first, format);
      if !first { out' := out' + [COMMA, 0x20]; }
      out' := Dump(v.items[k], format, out');
      first := false;
    }
    NoItems(out', first, format);
    out' := out' + [0x5D];
  }

  method DumpObject(v: Json, format: real -> bytes, out: bytes) returns (out': bytes)
    requires v.Obj? && FormatsNumbers(format)
    ensures out' == out + [0x7B] + RenderMembers(MembersOf(v.fields, [], format)) + [0x7D]
    decreases v, -1
  {
    hide Render, TreeOf, RenderMembers, MembersOf, FormatsNumbers, RenderChars, CharsOf, WithFields;
    var first := true;
    out' := out + [0x7B];
    ghost var whole := WithFields(out', v.fields, true, format);
    AllFields(out', v.fields, format);
    for k := 0 to |v.fields|
      invariant first == (k == 0) && whole == WithFields(out', v.fields[k..], first, format)
    {
      FieldsStep(out', v.fields[k..], first, format);
      if !first { out' := out' + [COMMA, 0x20]; }
      out' := DumpString(v.fields[k].key, out');
      out' := out' + [COLON, 0x20];
      out' := Dump(v.fields[k].value, format, out');
      first := false;
    }
    NoFields(out', first, format);
    out' := out' + [0x7D];
  }

  /** What will have been printed before the closing bracket if `out` is there and `items` are still to come. */
  ghost function WithItems(out: bytes, items: seq<Json>, first: bool, format: real -> bytes): bytes
    requires FormatsNumbers(format)
  {
    if items == [] then out
    else if first then out + RenderItems(ItemsOf(items, [], format))
    else out + [COMMA] + RenderItems(ItemsOf(items, [0x20], format))
  }

  lemma AllItems(out: bytes, items: seq<Json>, format: real -> bytes)
    requires FormatsNumbers(format)
    ensures items[0..] == items && WithItems(out, items, true, format) == out + RenderItems(ItemsOf(items, [], format))
  {
  }

  lemma NoItems(out: bytes, first: bool, format: real -> bytes)
    requires FormatsNumbers(format)
    ensures WithItems(out, [], first, format) == out
  {
  }

  lemma ItemsStep(out: bytes, items: seq<Json>, first: bool, format: real -> bytes)
    requires items != [] && FormatsNumbers(format)
    ensures WithItems(out, items, first, format)
         == WithItems((if first then out else out + [COMMA, 0x20]) + Render(TreeOf(items[0], format)),
                      items[1..], false, format)
  {
    hide Render, TreeOf, FormatsNumbers;
    var before: bytes := if first then [] else [0x20];
    var es := ItemsOf(items, before, format);
    assert es[1..] == ItemsOf(items[1..], [0x20], format);
    assert RenderElem(es[0]) == before + Render(TreeOf(items[0], format));
  }

  ghost function WithFields(out: bytes, fields: seq<Field>, first: bool, format: real -> bytes): bytes
    requires FormatsNumbers(format)
  {
    if fields == [] then out
    else if first then out + RenderMembers(MembersOf(fields, [], format))
    else out + [COMMA] + RenderMembers(MembersOf(fields, [0x20], format))
  }

  lemma AllFields(out: bytes, fields: seq<Field>, format: real -> bytes)
    requires FormatsNumbers(format)
    ensures fields[0..] == fields
    ensures WithFields(out, fields, true, format) == out + RenderMembers(MembersOf(fields, [], format))
  {
  }

  lemma NoFields(out: bytes, first: bool, format: real -> bytes)
    requires FormatsNumbers(format)
    ensures WithFields(out, [], first, format) == out
  {
  }

  /** What is printed for one field. */
  ghost function FieldText(f: Field, format: real -> bytes): bytes
    requires FormatsNumbers(format)
  {
    ([QUOTE] + RenderChars(CharsOf(f.key)) + [QUOTE]) + [COLON, 0x20] + Render(TreeOf(f.value, format))
  }

  lemma FieldIsMember(f: Field, before: bytes, format: real -> bytes)
    requires FormatsNumbers(format)
    ensures RenderMember(Member(before, CharsOf(f.key), [], Elem([0x20], TreeOf(f.value, format), [])))
         == before + FieldText(f, format)
  {
  }

  lemma FieldsStep(out: bytes, fields: seq<Field>, first: bool, format: real -> bytes)
    requires fields != [] && FormatsNumbers(format)
    ensures WithFields(out, fields, first, format)
         == WithFields((if first then out else out + [COMMA, 0x20])
                       + [QUOTE] + RenderChars(CharsOf(fields[0].key)) + [QUOTE]
                       + [COLON, 0x20] + Render(TreeOf(fields[0].value, format)), fields[1..], false, format)
  {
    hide RenderMember, TreeOf, FormatsNumbers, CharsOf, RenderChars, Render;
    var before: bytes := if first then [] else [0x20];
    var ms := MembersOf(fields, before, format);
    assert ms[1..] == MembersOf(fields[1..], [0x20], format);
    FieldIsMember(fields[0], before, format);
    var out1 := if first then out else out + [COMMA, 0x20];
    var name, tree := [QUOTE] + RenderChars(CharsOf(fields[0].key)) + [QUOTE], Render(TreeOf(fields[0].value, format));
    assert out1 + name == out1 + [QUOTE] + RenderChars(CharsOf(fields[0].key)) + [QUOTE];
    assert out1 + (name + [COLON, 0x20] + tree) == out1 + name + [COLON, 0x20] + tree;
  }

  // ---------------------------------------------------------------- printed strings

  /** Any byte string at all, with NULs or line separators in it or not UTF-8 at all, reads back as itself. */
  lemma PrintedStringMeans(s: bytes)
    ensures CharsOk(CharsOf(s)) && StringMeaning(CharsOf(s)) == s
  {
    PrintedMeansFrom(s, 0);
    assert s[0..] == s;
  }

  lemma {:induction false} PrintedMeansFrom(s: bytes, i: nat)
    requires i <= |s|
    ensures Encoded(UnitsOf(CharsFrom(s, i))) == s[i..]
    decreases |s| - i
  {
    if i < |s| {
      hide ChrAt, NextChar, Encode;
      PrintedMeansFrom(s, NextChar(s, i));
      var cs := CharsFrom(s, i);
      assert cs[1..] == CharsFrom(s, NextChar(s, i));
      UnitPrinted(s, i);
      UnitMeans(UnitOf(cs[0]), UnitsOf(cs[1..]));
      assert s[i..] == s[i..NextChar(s, i)] + s[NextChar(s, i)..];
    }
  }

  /** What is printed for a character stands for the bytes it was printed for. */
  lemma UnitPrinted(s: bytes, i: nat)
    requires i < |s|
    ensures match UnitOf(ChrAt(s, i))
            case Byte(b) => [b] == s[i..NextChar(s, i)]
            case Code(u) => !IsHigh(u) && IsScalar(u) && Encode(u) == s[i..NextChar(s, i)]
  {
    hide EscapeOf, LowerHex, Unescape, HexValue, Encode;
    EscapeMeans(s[i]);
  }

  lemma EscapeMeans(b: byte)
    ensures EscapeOf(b).Some? ==> Unescape(EscapeOf(b).v) == b
    ensures b <= 0x1F ==> HexValue([0x30, 0x30, LowerHex(b / 16), LowerHex(b % 16)]) == b && Encode(b) == [b]
    ensures HexValue([0x32, 0x30, 0x32, 0x38]) == 0x2028 && Encode(0x2028) == [0xE2, 0x80, 0xA8]
    ensures HexValue([0x32, 0x30, 0x32, 0x39]) == 0x2029 && Encode(0x2029) == [0xE2, 0x80, 0xA9]
  {
  }

  /** A unit that is no high surrogate pairs up with nothing. */
  lemma UnitMeans(u: Unit, us: seq<Unit>)
    ensures u.Byte? ==> Encoded([u] + us) == [u.b] + Encoded(us)
    ensures u.Code? && !IsHigh(u.u) ==> Encoded([u] + us) == Encode(u.u) + Encoded(us)
  {
  }

  // ---------------------------------------------------------------- printed values

  /** How many levels of arrays and objects there are below `v`. */
  function Levels(v: Json): nat
    decreases v, 0
  {
    match v
    case Arr(items) => LevelsOfItems(items)
    case Obj(fields) => LevelsOfFields(fields)
    case _ => 0
  }

  function LevelsOfItems(items: seq<Json>): nat
    decreases items, 1
  {
    if items == [] then 0 else Max(1 + Levels(items[0]), LevelsOfItems(items[1..]))
  }

  function LevelsOfFields(fields: seq<Field>): nat
    decreases fields, 1
  {
    if fields == [] then 0 else Max(1 + Levels(fields[0].value), LevelsOfFields(fields[1..]))
  }

  /** What is printed is grammatical, and as deep as the value. */
  lemma {:induction false} PrintedIsGrammatical(v: Json, format: real -> bytes)
    requires FormatsNumbers(format)
    ensures Grammatical(TreeOf(v, format), false) && Depth(TreeOf(v, format)) == Levels(v)
    decreases v, 0
  {
    hide TokenOf, NumOk, CharsFrom;
    match v
    case Number(n) =>
    case Arr(items) => PrintedItemsOk(items, [], format);
    case Obj(fields) => PrintedMembersOk(fields, [], format);
    case _ =>
  }

  lemma OneBlank()
    ensures Gap([0x20], false) && Gap([], false)
  {
    assert [0x20 as byte][1..] == [];
  }

  lemma {:induction false} PrintedItemsOk(items: seq<Json>, before: bytes, format: real -> bytes)
    requires FormatsNumbers(format) && Gap(before, false)
    ensures ItemsOk(ItemsOf(items, before, format), false)
    ensures DepthItems(ItemsOf(items, before, format)) == LevelsOfItems(items)
    decreases items, 1
  {
    hide TreeOf, Grammatical, Depth, Levels;
    if items != [] {
      OneBlank();
      PrintedIsGrammatical(items[0], format);
      PrintedItemsOk(items[1..], [0x20], format);
      assert ItemsOf(items, before, format)[1..] == ItemsOf(items[1..], [0x20], format);
    }
  }

  lemma {:induction false} PrintedMembersOk(fields: seq<Field>, before: bytes, format: real -> bytes)
    requires FormatsNumbers(format) && Gap(before, false)
    ensures MembersOk(MembersOf(fields, before, format), false)
    ensures DepthMembers(MembersOf(fields, before, format)) == LevelsOfFields(fields)
    decreases fields, 1
  {
    hide TreeOf, Grammatical, Depth, Levels, CharsFrom, CharsOk;
    if fields != [] {
      OneBlank();
      PrintedIsGrammatical(fields[0].value, format);
      PrintedMembersOk(fields[1..], [0x20], format);
      var ms := MembersOf(fields, before, format);
      assert ms[1..] == MembersOf(fields[1..], [0x20], format);
      assert ElemOk(ms[0].elem, false) && MemberOk(ms[0], false);
    }
  }

  // ---------------------------------------------------------------- reading back

  /** `strtod` is exact on integer literals of at most ten digits: they are below 2^53. */
  ghost predicate ExactOnIntegers(strtod: bytes -> Extended) {
    forall n: NumTok :: NumOk(n) && n.frac == [] && n.e == [] && |n.whole| <= 10 ==>
      strtod(RenderNum(n)) == Finite((if n.minus then -DecimalValue(n.whole) else DecimalValue(n.whole)) as real)
  }

  /** The ints of `v` have 32 bits, and its finite doubles survive being printed and read. */
  ghost predicate Representable(v: Json, format: real -> bytes, strtod: bytes -> Extended)
    decreases v
  {
    match v
    case Number(Int(i)) => -0x8000_0000 <= i < 0x8000_0000
    case Number(Double(Finite(x))) => strtod(format(x)) == Finite(x)
    case Arr(items) => forall k :: 0 <= k < |items| ==> Representable(items[k], format, strtod)
    case Obj(fields) => forall k :: 0 <= k < |fields| ==> Representable(fields[k].value, format, strtod)
    case _ => true
  }

  /** No number in `v` is infinite. */
  ghost predicate AllFinite(v: Json)
    decreases v
  {
    match v
    case Number(n) => IsFinite(n)
    case Arr(items) => forall k :: 0 <= k < |items| ==> AllFinite(items[k])
    case Obj(fields) => forall k :: 0 <= k < |fields| ==> AllFinite(fields[k].value)
    case _ => true
  }

  lemma {:induction false} DigitCount(n: nat, k: nat)
    requires n < Power10(k) && k > 0
    ensures |DigitsOf(n)| <= k
    decreases k
  {
    if n >= 10 {
      TenthBelow(n, Power10(k - 1));
      DigitCount(n / 10, k - 1);
    }
  }

  lemma TenthBelow(n: nat, p: nat)
    requires n < 10 * p
    ensures n / 10 < p
  {
  }

  function Power10(k: nat): nat {
    if k == 0 then 1 else 10 * Power10(k - 1)
  }

  /** A number reads back as an equal one, though an int of more than nine characters comes back as a double. */
  lemma PrintedNumberMeans(n: Num, format: real -> bytes, strtod: bytes -> Extended)
    requires FormatsNumbers(format) && ExactOnIntegers(strtod)
    requires IsFinite(n) && Representable(Number(n), format, strtod)
    ensures NumberValue(NumMeaning(TokenOf(n, format), strtod)) == NumberValue(n)
  {
    var tok := TokenOf(n, format);
    match n
    case Int(i) =>
      var size := if i < 0 then -i else i;
      assert Power10(10) == 10 * 10 * 10 * 10 * 10 * 10 * 10 * 10 * 10 * 10;
      DigitCount(size, 10);
      assert strtod(RenderNum(tok)) == Finite(i as real);
    case Double(Finite(x)) =>
      ShortIsExact(tok, strtod);
  }

  /** Where the short form of an integer literal is taken, it agrees with `strtod`. */
  lemma ShortIsExact(tok: NumTok, strtod: bytes -> Extended)
    requires ExactOnIntegers(strtod) && NumOk(tok)
    ensures NumberValue(NumMeaning(tok, strtod)) == strtod(RenderNum(tok))
  {
  }

  /** The value that comes back equals the one that was printed exactly if no number in it is infinite. */
  lemma {:induction false} PrintedMeans(v: Json, format: real -> bytes, strtod: bytes -> Extended)
    requires FormatsNumbers(format) && ExactOnIntegers(strtod)
    requires Proper(v) && Representable(v, format, strtod)
    ensures Equal(Meaning(TreeOf(v, format), strtod), v) <==> AllFinite(v)
    decreases v, 0
  {
    hide TokenOf, StringMeaning, CharsOf, NumMeaning;
    match v
    case Number(n) => if IsFinite(n) { PrintedNumberMeans(n, format, strtod); }
    case Str(s) => PrintedStringMeans(s);
    case Arr(items) => PrintedItemsMean(items, [], format, strtod);
    case Obj(fields) => PrintedMembersMean([], fields, [], format, strtod);
    case _ =>
  }

  lemma {:induction false} PrintedItemsMean(items: seq<Json>, before: bytes,
                                            format: real -> bytes, strtod: bytes -> Extended)
    requires FormatsNumbers(format) && ExactOnIntegers(strtod)
    requires forall k :: 0 <= k < |items| ==> Proper(items[k]) && Representable(items[k], format, strtod)
    ensures EqualItems(MeaningItems(ItemsOf(items, before, format), strtod), items)
       <==> forall k :: 0 <= k < |items| ==> AllFinite(items[k])
    decreases items, 1
  {
    hide TreeOf, Meaning, Equal, Proper, Representable, AllFinite;
    if items != [] {
      PrintedMeans(items[0], format, strtod);
      PrintedItemsMean(items[1..], [0x20], format, strtod);
      assert ItemsOf(items, before, format)[1..] == ItemsOf(items[1..], [0x20], format);
      assert forall k :: 1 <= k < |items| ==> items[k] == items[1..][k - 1];
    }
  }

  /** Storing the fields one after the other, in key order, appends each of them. */
  lemma {:induction false} PrintedMembersMean(done: seq<Field>, fields: seq<Field>, before: bytes,
                                              format: real -> bytes, strtod: bytes -> Extended)
    requires FormatsNumbers(format) && ExactOnIntegers(strtod)
    requires forall k :: 0 <= k < |fields| ==> Proper(fields[k].value) && Representable(fields[k].value, format, strtod)
    requires Increasing(fields) && forall k :: 0 <= k < |fields| ==> AllBefore(done, fields[k].key)
    ensures |MeaningMembers(done, MembersOf(fields, before, format), strtod)| >= |done|
    ensures MeaningMembers(done, MembersOf(fields, before, format), strtod)[..|done|] == done
    ensures EqualFields(MeaningMembers(done, MembersOf(fields, before, format), strtod)[|done|..], fields)
       <==> forall k :: 0 <= k < |fields| ==> AllFinite(fields[k].value)
    decreases fields, 1
  {
    hide TreeOf, Meaning, Equal, Proper, Representable, AllFinite, StringMeaning, CharsOf, Put, StringLess,
         ExactOnIntegers, FormatsNumbers;
    var ms := MembersOf(fields, before, format);
    if fields != [] {
      var key, value := fields[0].key, Meaning(TreeOf(fields[0].value, format), strtod);
      PrintedMeans(fields[0].value, format, strtod);
      PrintedStringMeans(key);
      PutAppends(done, key, value);
      assert ms[1..] == MembersOf(fields[1..], [0x20], format);
      var done' := done + [Field(key, value)];
      PrintedMembersMean(done', fields[1..], [0x20], format, strtod);
      var all := MeaningMembers(done, ms, strtod);
      assert all == MeaningMembers(done', ms[1..], strtod);
      assert all[|done|..][1..] == all[|done'|..];
      assert all[|done|] == all[..|done'|][|done|];
      assert forall k :: 1 <= k < |fields| ==> fields[k] == fields[1..][k - 1];
    }
  }

  // ---------------------------------------------------------------- the round trip

  /** The printed text is a document of the grammar, whose value equals the one printed if that is finite. */
  lemma DumpIsRead(v: Json, format: real -> bytes, strtod: bytes -> Extended)
    requires FormatsNumbers(format) && ExactOnIntegers(strtod)
    requires Proper(v) && Representable(v, format, strtod)
    ensures ReadDocument(Render(TreeOf(v, format)), false)
         == if Levels(v) <= MAX_DEPTH then Some(Elem([], TreeOf(v, format), [])) else None
    ensures Equal(Meaning(TreeOf(v, format), strtod), v) <==> AllFinite(v)
  {
    hide ReadDocument, Render, TreeOf, Equal, Meaning, Grammatical, Depth, Levels, FormatsNumbers, ExactOnIntegers,
         Representable, AllFinite;
    var e := Elem([], TreeOf(v, format), []);
    var t := Render(TreeOf(v, format));
    PrintedIsGrammatical(v, format);
    PrintedMeans(v, format, strtod);
    assert RenderElem(e) == t;
    ReadUnlessTooDeep(e, false);
    ReadsExactlyTheGrammar(t, false);
    assert Levels(v) <= MAX_DEPTH ==> Derives(e, t, false);
  }

  /**
   Parsing what is printed for a value gives no error exactly if the value is at most 200 levels
   deep, and then an equal value exactly if no number in it is infinite: those are printed as null.
   */
  method RoundTrip(v: Json, format: real -> bytes, strtod: bytes -> Extended)
      returns (text: bytes, result: Json, err: JsonParser.Error)
    requires FormatsNumbers(format) && ExactOnIntegers(strtod)
    requires Proper(v) && Representable(v, format, strtod)
    ensures text == Render(TreeOf(v, format))
    ensures err == JsonParser.NoError <==> Levels(v) <= MAX_DEPTH
    ensures err == JsonParser.NoError ==> (Equal(result, v) <==> AllFinite(v))
  {
    hide *;
    DumpIsRead(v, format, strtod);
    text := Dump(v, format, []);
    result, err := JsonParser.Parse(text, false, strtod);
  }
}
