/** The text that is printed for a value, letter by letter. */
module JsonPrinted {
  import opened Bytes
  import opened JsonValue
  import opened JsonGrammar
  import opened JsonPrinter

  // ---------------------------------------------------------------- the text

  function HexLetter(d: nat): (b: byte)
    requires d < 16
  {
    "0123456789abcdef"[d] as int % 256
  }

  function DecimalLetter(d: nat): (b: byte)
    requires d < 10
  {
    "0123456789"[d] as int % 256
  }

  /** The text for the character at the front of `s`, and how many bytes it is made of. */
  function FirstText(s: bytes): (r: (bytes, nat))
    requires s != []
    ensures 0 < r.1 <= |s|
  {
    if s[0] == '"' as int then (Letters("\\\""), 1)
    else if s[0] == '\\' as int then (Letters("\\\\"), 1)
    else if s[0] == 8 then (Letters("\\b"), 1)
    else if s[0] == 9 then (Letters("\\t"), 1)
    else if s[0] == 10 then (Letters("\\n"), 1)
    else if s[0] == 12 then (Letters("\\f"), 1)
    else if s[0] == 13 then (Letters("\\r"), 1)
    else if s[0] < 32 then (Letters("\\u00") + [HexLetter(s[0] / 16), HexLetter(s[0] % 16)], 1)
    else if [0xE2, 0x80, 0xA8] <= s then (Letters("\\u2028"), 3)
    else if [0xE2, 0x80, 0xA9] <= s then (Letters("\\u2029"), 3)
    else ([s[0]], 1)
  }

  function StringText(s: bytes): bytes
    decreases |s|
  {
    if s == [] then [] else FirstText(s).0 + StringText(s[FirstText(s).1..])
  }

  function Quoted(s: bytes): bytes {
    Letters("\"") + StringText(s) + Letters("\"")
  }

  function NatText(n: nat): bytes {
    if n < 10 then [DecimalLetter(n)] else NatText(n / 10) + [DecimalLetter(n % 10)]
  }

  function IntText(i: int): bytes {
    if i < 0 then Letters("-") + NatText(-i) else NatText(i)
  }

  function TextOf(v: Json, format: real -> bytes): bytes
    decreases v, 0
  {
    match v
    case Null => Letters("null")
    case Bool(b) => if b then Letters("true") else Letters("false")
    case Number(Int(i)) => IntText(i)
    case Number(Double(Finite(x))) => format(x)
    case Number(Double(_)) => Letters("null")
    case Str(s) => Quoted(s)
    case Arr(items) => Letters("[") + ItemsText(items, [], format) + Letters("]")
    case Obj(fields) => Letters("{") + FieldsText(fields, [], format) + Letters("}")
  }

  /** Elements with a comma and a blank between each two; `link` is what stands before the first. */
  function ItemsText(items: seq<Json>, link: bytes, format: real -> bytes): bytes
    decreases items, 1
  {
    if items == [] then [] else link + TextOf(items[0], format) + ItemsText(items[1..], Letters(", "), format)
  }

  function FieldsText(fields: seq<Field>, link: bytes, format: real -> bytes): bytes
    decreases fields, 1
  {
    if fields == [] then []
    else link + Quoted(fields[0].key) + Letters(": ") + TextOf(fields[0].value, format)
         + FieldsText(fields[1..], Letters(", "), format)
  }

  // ---------------------------------------------------------------- it is what is printed

  lemma HexLetterIs(d: nat)
    requires d < 16
    ensures HexLetter(d) == LowerHex(d)
  {
  }

  lemma FirstTextIs(s: bytes, i: nat)
    requires i < |s|
    ensures FirstText(s[i..]).0 == RenderChr(ChrAt(s, i)) && i + FirstText(s[i..]).1 == NextChar(s, i)
  {
    hide LowerHex, HexLetter;
    LettersAre();
    var t := s[i..];
    HexLetterIs(s[i] / 16 % 16);
    HexLetterIs(s[i] % 16);
    SeparatorIs(s, i, 0xA8);
    SeparatorIs(s, i, 0xA9);
  }

  lemma SeparatorIs(s: bytes, i: nat, b: byte)
    requires i < |s|
    ensures [0xE2, 0x80, b] <= s[i..] <==> i + 2 < |s| && s[i] == 0xE2 && s[i + 1] == 0x80 && s[i + 2] == b
  {
  }

  lemma LettersAre()
    ensures Letters("\\\"") == [BACKSLASH, QUOTE] && Letters("\\\\") == [BACKSLASH, BACKSLASH]
    ensures Letters("\\b") == [BACKSLASH, 0x62] && Letters("\\t") == [BACKSLASH, 0x74]
    ensures Letters("\\n") == [BACKSLASH, 0x6E] && Letters("\\f") == [BACKSLASH, 0x66]
    ensures Letters("\\r") == [BACKSLASH, 0x72] && Letters("\\u00") == [BACKSLASH, 0x75, 0x30, 0x30]
    ensures Letters("\\u2028") == [BACKSLASH, 0x75, 0x32, 0x30, 0x32, 0x38]
    ensures Letters("\\u2029") == [BACKSLASH, 0x75, 0x32, 0x30, 0x32, 0x39]
  {
  }

  lemma {:induction false} StringTextIs(s: bytes, i: nat)
    requires i <= |s|
    ensures StringText(s[i..]) == RenderChars(CharsFrom(s, i))
    decreases |s| - i
  {
    hide FirstText, ChrAt, NextChar, RenderChr;
    if i < |s| {
      FirstTextIs(s, i);
      StringTextIs(s, NextChar(s, i));
      assert s[i..][FirstText(s[i..]).1..] == s[NextChar(s, i)..];
    }
  }

  lemma QuotedIs(s: bytes)
    ensures Quoted(s) == [QUOTE] + RenderChars(CharsOf(s)) + [QUOTE]
  {
    StringTextIs(s, 0);
    assert s[0..] == s && Letters("\"") == [QUOTE];
  }

  lemma {:induction false} NatTextIs(n: nat)
    ensures NatText(n) == DigitsOf(n)
    decreases n
  {
    hide DecimalLetter;
    DecimalLetterIs(n % 10);
    if n >= 10 { NatTextIs(n / 10); }
  }

  lemma DecimalLetterIs(d: nat)
    requires d < 10
    ensures DecimalLetter(d) == 0x30 + d
  {
  }

  lemma IntTextIs(i: int, format: real -> bytes)
    requires FormatsNumbers(format)
    ensures IntText(i) == RenderNum(TokenOf(Int(i), format))
  {
    hide DigitsOf, NatText;
    NatTextIs(if i < 0 then -i else i);
    assert Letters("-") == [0x2D];
  }

  /** Printing a value gives exactly this text. */
  lemma {:induction false} PrintedInLetters(v: Json, format: real -> bytes)
    requires FormatsNumbers(format)
    ensures Render(TreeOf(v, format)) == TextOf(v, format)
    decreases v, 0
  {
    hide FormatsNumbers, TreeOf, Render, TextOf, ItemsText, FieldsText;
    match v
    case Number(n) => NumberInLetters(n, format);
    case Arr(items) =>
      ItemsInLetters(items, [], [], format);
      ArrayInLetters(items, format);
    case Obj(fields) =>
      FieldsInLetters(fields, [], [], format);
      ObjectInLetters(fields, format);
    case _ => PlainInLetters(v, format);
  }

  lemma PlainInLetters(v: Json, format: real -> bytes)
    requires FormatsNumbers(format) && (v.Null? || v.Bool? || v.Str?)
    ensures Render(TreeOf(v, format)) == TextOf(v, format)
  {
    hide FormatsNumbers, CharsOf, RenderChars, Quoted;
    Words();
    if v.Str? { QuotedIs(v.s); }
  }

  lemma ArrayInLetters(items: seq<Json>, format: real -> bytes)
    requires FormatsNumbers(format) && ItemsText(items, [], format) == RenderItems(ItemsOf(items, [], format))
    ensures Render(TreeOf(Arr(items), format)) == TextOf(Arr(items), format)
  {
    hide FormatsNumbers, RenderItems;
    Words();
    if items == [] { assert RenderItems([]) == [] by { NoItems(); } }
  }

  lemma ObjectInLetters(fields: seq<Field>, format: real -> bytes)
    requires FormatsNumbers(format) && FieldsText(fields, [], format) == RenderMembers(MembersOf(fields, [], format))
    ensures Render(TreeOf(Obj(fields), format)) == TextOf(Obj(fields), format)
  {
    hide FormatsNumbers, RenderMembers;
    Words();
    if fields == [] { assert RenderMembers([]) == [] by { NoItems(); } }
  }

  lemma NoItems()
    ensures RenderItems([]) == [] && RenderMembers([]) == []
  {
  }

  lemma Words()
    ensures Letters("null") == NULL_TEXT && Letters("true") == TRUE_TEXT && Letters("false") == FALSE_TEXT
    ensures Letters("[") == [0x5B] && Letters("]") == [0x5D] && Letters("{") == [0x7B] && Letters("}") == [0x7D]
    ensures Letters(", ") == [COMMA, 0x20] && Letters(": ") == [COLON, 0x20]
  {
  }

  lemma NumberInLetters(n: Num, format: real -> bytes)
    requires FormatsNumbers(format)
    ensures Render(TreeOf(Number(n), format)) == TextOf(Number(n), format)
  {
    hide FormatsNumbers, RenderNum, IntText;
    Words();
    if n.Int? { IntTextIs(n.i, format); }
  }

  /** `link` ends with the blank that the tree has before an element, and begins with the comma before it. */
  lemma {:induction false} ItemsInLetters(items: seq<Json>, link: bytes, before: bytes, format: real -> bytes)
    requires FormatsNumbers(format) && (link == before == [] || (link == [COMMA, 0x20] && before == [0x20]))
    ensures var comma := if link == [] || items == [] then [] else [COMMA];
            ItemsText(items, link, format) == comma + RenderItems(ItemsOf(items, before, format))
    decreases items, 1
  {
    hide FormatsNumbers, TreeOf, Render, TextOf;
    if items != [] {
      var es := ItemsOf(items, before, format);
      assert es[1..] == ItemsOf(items[1..], [0x20], format);
      Words();
      PrintedInLetters(items[0], format);
      ItemsInLetters(items[1..], [COMMA, 0x20], [0x20], format);
      assert RenderElem(es[0]) == before + TextOf(items[0], format);
      var rest := if |items| > 1 then [COMMA] + RenderItems(es[1..]) else [];
      assert ItemsText(items[1..], [COMMA, 0x20], format) == rest;
      assert RenderItems(es) == RenderElem(es[0]) + rest;
    }
  }

  lemma {:induction false} FieldsInLetters(fields: seq<Field>, link: bytes, before: bytes, format: real -> bytes)
    requires FormatsNumbers(format) && (link == before == [] || (link == [COMMA, 0x20] && before == [0x20]))
    ensures var comma := if link == [] || fields == [] then [] else [COMMA];
            FieldsText(fields, link, format) == comma + RenderMembers(MembersOf(fields, before, format))
    decreases fields, 1
  {
    hide *;
    NoFields(link, before, format);
    if fields != [] {
      var rest := fields[1..];
      FieldsSplit(fields, link, before, format);
      Words();
      PrintedInLetters(fields[0].value, format);
      FieldsInLetters(rest, [COMMA, 0x20], [0x20], format);
      NoFields([COMMA, 0x20], [0x20], format);
      MemberInLetters(fields[0], before, format);
      var field := Quoted(fields[0].key) + [COLON, 0x20] + TextOf(fields[0].value, format);
      var tail := if rest == [] then [] else [COMMA] + RenderMembers(MembersOf(rest, [0x20], format));
      assert FieldsText(rest, Letters(", "), format) == tail;
      assert FieldsText(fields, link, format) == link + field + tail;
      assert RenderMembers(MembersOf(fields, before, format)) == before + field + tail;
    }
  }

  lemma NoFields(link: bytes, before: bytes, format: real -> bytes)
    requires FormatsNumbers(format)
    ensures FieldsText([], link, format) == [] && RenderMembers(MembersOf([], before, format)) == []
  {
  }

  lemma FieldsSplit(fields: seq<Field>, link: bytes, before: bytes, format: real -> bytes)
    requires FormatsNumbers(format) && fields != []
    ensures FieldsText(fields, link, format)
         == link + (Quoted(fields[0].key) + Letters(": ") + TextOf(fields[0].value, format))
            + FieldsText(fields[1..], Letters(", "), format)
    ensures RenderMembers(MembersOf(fields, before, format))
         == RenderMember(Member(before, CharsOf(fields[0].key), [], Elem([0x20], TreeOf(fields[0].value, format), [])))
            + if fields[1..] == [] then [] else [COMMA] + RenderMembers(MembersOf(fields[1..], [0x20], format))
  {
    hide FormatsNumbers, TreeOf, TextOf, Quoted, RenderMember, CharsOf, Letters, Render, RenderChars;
    var ms := MembersOf(fields, before, format);
    assert ms[1..] == MembersOf(fields[1..], [0x20], format);
  }

  lemma MemberInLetters(f: Field, before: bytes, format: real -> bytes)
    requires FormatsNumbers(format) && Render(TreeOf(f.value, format)) == TextOf(f.value, format)
    ensures RenderMember(Member(before, CharsOf(f.key), [], Elem([0x20], TreeOf(f.value, format), [])))
         == before + (Quoted(f.key) + [COLON, 0x20] + TextOf(f.value, format))
  {
    hide FormatsNumbers, TreeOf, Render, TextOf, CharsOf, RenderChars, Quoted;
    QuotedIs(f.key);
  }
}
