/**
 The JSON grammar of RFC 8259, sections 2 to 7, as concrete syntax trees: what a tree looks like
 as text (`Render`), when it is grammatical (`Grammatical`) and which value it denotes (`Meaning`).
 Nothing in this module knows how the parser works.
 */
module JsonGrammar {
  import opened Bytes
  import opened JsonValue
  import opened Utf8Validator

  // ---------------------------------------------------------------- syntax trees

  /** Section 7: a character as it is, a two-character escape, or a `\u` escape. */
  datatype Chr = Raw(b: byte) | Esc(c: byte) | Uni(hex: bytes)

  /** Section 6. An absent part is empty; `exp` includes its sign. */
  datatype NumTok = NumTok(minus: bool, whole: bytes, frac: bytes, e: bytes, sign: bytes, exp: bytes)

  datatype Cst =
    | CNull
    | CTrue
    | CFalse
    | CNum(num: NumTok)
    | CStr(chars: seq<Chr>)
    | CArr(ws: bytes, items: seq<Elem>)
    | CObj(ws: bytes, members: seq<Member>)

  /** A value between the whitespace before and after it. */
  datatype Elem = Elem(before: bytes, value: Cst, after: bytes)

  datatype Member = Member(before: bytes, key: seq<Chr>, afterKey: bytes, elem: Elem)

  // ---------------------------------------------------------------- text

  const QUOTE: byte := 0x22
  const BACKSLASH: byte := 0x5C
  const COMMA: byte := 0x2C
  const COLON: byte := 0x3A

  const NULL_TEXT: bytes := [0x6E, 0x75, 0x6C, 0x6C]
  const TRUE_TEXT: bytes := [0x74, 0x72, 0x75, 0x65]
  const FALSE_TEXT: bytes := [0x66, 0x61, 0x6C, 0x73, 0x65]

  function RenderChr(c: Chr): bytes {
    match c
    case Raw(b) => [b]
    case Esc(c) => [BACKSLASH, c]
    case Uni(hex) => [BACKSLASH, 0x75] + hex
  }

  function RenderChars(cs: seq<Chr>): bytes {
    if cs == [] then [] else RenderChr(cs[0]) + RenderChars(cs[1..])
  }

  function RenderNum(n: NumTok): bytes {
    (if n.minus then [0x2D] else []) + n.whole
    + (if n.frac == [] then [] else [0x2E] + n.frac)
    + (if n.e == [] then [] else n.e + n.sign + n.exp)
  }

  function Render(c: Cst): bytes
    decreases c, 0
  {
    match c
    case CNull => NULL_TEXT
    case CTrue => TRUE_TEXT
    case CFalse => FALSE_TEXT
    case CNum(n) => RenderNum(n)
    case CStr(cs) => [QUOTE] + RenderChars(cs) + [QUOTE]
    case CArr(ws, items) => [0x5B] + (if items == [] then ws else RenderItems(items)) + [0x5D]
    case CObj(ws, members) => [0x7B] + (if members == [] then ws else RenderMembers(members)) + [0x7D]
  }

  function RenderElem(e: Elem): bytes
    decreases e, 1
  {
    e.before + Render(e.value) + e.after
  }

  function RenderItems(items: seq<Elem>): bytes
    decreases items, 2
  {
    if items == [] then []
    else if |items| == 1 then RenderElem(items[0])
    else RenderElem(items[0]) + [COMMA] + RenderItems(items[1..])
  }

  function RenderMember(m: Member): bytes
    decreases m, 2
  {
    m.before + [QUOTE] + RenderChars(m.key) + [QUOTE] + m.afterKey + [COLON] + RenderElem(m.elem)
  }

  function RenderMembers(members: seq<Member>): bytes
    decreases members, 3
  {
    if members == [] then []
    else if |members| == 1 then RenderMember(members[0])
    else RenderMember(members[0]) + [COMMA] + RenderMembers(members[1..])
  }

  // ---------------------------------------------------------------- what is grammatical

  /** Section 2: blank, tab, line feed, carriage return. */
  predicate IsWs(b: byte) {
    b == 0x20 || b == 0x09 || b == 0x0A || b == 0x0D
  }

  ghost predicate AllWs(s: bytes) {
    forall i :: 0 <= i < |s| ==> IsWs(s[i])
  }

  /** Two slashes and the rest of a line, without the line feed. */
  ghost predicate LineComment(s: bytes) {
    |s| >= 2 && s[0] == s[1] == 0x2F && 0x0A !in s[2..]
  }

  /** A star and a slash at `k`. */
  predicate Closes(s: bytes, k: nat) {
    k + 2 <= |s| && s[k] == 0x2A && s[k + 1] == 0x2F
  }

  /** A slash and a star, up to the first star and slash behind them. */
  ghost predicate BlockComment(s: bytes) {
    |s| >= 4 && s[0] == 0x2F && s[1] == 0x2A && Closes(s, |s| - 2) && forall k :: 2 <= k < |s| - 2 ==> !Closes(s, k)
  }

  /** A comment that something may follow: a line comment with its line feed, or a block comment. */
  ghost predicate Comment(s: bytes) {
    BlockComment(s) || (s != [] && s[|s| - 1] == 0x0A && LineComment(s[..|s| - 1]))
  }

  /** What may stand between tokens: whitespace and, with `comments`, comments. */
  ghost predicate Gap(s: bytes, comments: bool)
    decreases |s|
  {
    || s == []
    || (IsWs(s[0]) && Gap(s[1..], comments))
    || (comments && exists k :: 0 < k <= |s| && Comment(s[..k]) && Gap(s[k..], comments))
  }

  /** What may stand at the end of a text, where a line comment needs no line feed. */
  ghost predicate LastGap(s: bytes, comments: bool) {
    Gap(s, comments) || (comments && exists k :: 0 <= k <= |s| && Gap(s[..k], comments) && LineComment(s[k..]))
  }

  predicate IsDigit(b: byte) {
    0x30 <= b <= 0x39
  }

  ghost predicate Digits(s: bytes) {
    s != [] && forall i :: 0 <= i < |s| ==> IsDigit(s[i])
  }

  predicate IsHex(b: byte) {
    0x61 <= b <= 0x66 || 0x41 <= b <= 0x46 || 0x30 <= b <= 0x39
  }

  predicate IsEscape(c: byte) {
    c in {0x62, 0x66, 0x6E, 0x72, 0x74, QUOTE, BACKSLASH, 0x2F}
  }

  /** Any raw byte from 0x20 on except quote and backslash: bytes, not characters, are checked. */
  predicate ChrOk(c: Chr) {
    match c
    case Raw(b) => b >= 0x20 && b != QUOTE && b != BACKSLASH
    case Esc(c) => IsEscape(c)
    case Uni(hex) => |hex| == 4 && forall i :: 0 <= i < 4 ==> IsHex(hex[i])
  }

  ghost predicate CharsOk(cs: seq<Chr>) {
    forall i :: 0 <= i < |cs| ==> ChrOk(cs[i])
  }

  ghost predicate NumOk(n: NumTok) {
    && Digits(n.whole) && (n.whole[0] == 0x30 ==> |n.whole| == 1)
    && (n.frac != [] ==> Digits(n.frac))
    && (if n.e == [] then n.sign == [] && n.exp == []
        else (n.e == [0x65] || n.e == [0x45]) && n.sign in {[], [0x2B], [0x2D]} && Digits(n.exp))
  }

  ghost predicate Grammatical(c: Cst, comments: bool)
    decreases c, 0
  {
    match c
    case CNum(n) => NumOk(n)
    case CStr(cs) => CharsOk(cs)
    case CArr(ws, items) => Gap(ws, comments) && (items != [] ==> ws == []) && ItemsOk(items, comments)
    case CObj(ws, members) => Gap(ws, comments) && (members != [] ==> ws == []) && MembersOk(members, comments)
    case _ => true
  }

  ghost predicate ElemOk(e: Elem, comments: bool)
    decreases e, 1
  {
    Gap(e.before, comments) && Gap(e.after, comments) && Grammatical(e.value, comments)
  }

  /** A whole text: behind its value, a line comment may end with the text. */
  ghost predicate DocumentOk(e: Elem, comments: bool) {
    Gap(e.before, comments) && LastGap(e.after, comments) && Grammatical(e.value, comments)
  }

  ghost predicate ItemsOk(items: seq<Elem>, comments: bool)
    decreases items, 2
  {
    items == [] || (ElemOk(items[0], comments) && ItemsOk(items[1..], comments))
  }

  ghost predicate MemberOk(m: Member, comments: bool)
    decreases m, 2
  {
    Gap(m.before, comments) && CharsOk(m.key) && Gap(m.afterKey, comments) && ElemOk(m.elem, comments)
  }

  ghost predicate MembersOk(members: seq<Member>, comments: bool)
    decreases members, 3
  {
    members == [] || (MemberOk(members[0], comments) && MembersOk(members[1..], comments))
  }

  function Max(a: nat, b: nat): nat {
    if a < b then b else a
  }

  /** How many levels of arrays and objects there are below the value itself. */
  function Depth(c: Cst): nat
    decreases c, 0
  {
    match c
    case CArr(_, items) => DepthItems(items)
    case CObj(_, members) => DepthMembers(members)
    case _ => 0
  }

  function DepthItems(items: seq<Elem>): nat
    decreases items, 1
  {
    if items == [] then 0 else Max(1 + Depth(items[0].value), DepthItems(items[1..]))
  }

  function DepthMembers(members: seq<Member>): nat
    decreases members, 1
  {
    if members == [] then 0 else Max(1 + Depth(members[0].elem.value), DepthMembers(members[1..]))
  }

  // ---------------------------------------------------------------- what strings mean

  /** First step of section 7: what each character of the text contributes. */
  datatype Unit = Byte(b: byte) | Code(u: code)

  type code = x: int | 0 <= x < 0x10000

  function HexDigit(b: byte): (d: nat)
    ensures d < 16
  {
    if 0x30 <= b <= 0x39 then b - 0x30
    else if 0x61 <= b <= 0x66 then b - 0x61 + 10
    else if 0x41 <= b <= 0x46 then b - 0x41 + 10
    else 0
  }

  /** The four digits after `\u`, most significant first. */
  function HexValue(hex: bytes): code {
    if |hex| == 4
    then 4096 * HexDigit(hex[0]) + 256 * HexDigit(hex[1]) + 16 * HexDigit(hex[2]) + HexDigit(hex[3])
    else 0
  }

  function Unescape(c: byte): byte {
    match c
    case 0x62 => 0x08
    case 0x66 => 0x0C
    case 0x6E => 0x0A
    case 0x72 => 0x0D
    case 0x74 => 0x09
    case _ => c
  }

  function UnitOf(c: Chr): Unit {
    match c
    case Raw(b) => Byte(b)
    case Esc(c) => Byte(Unescape(c))
    case Uni(hex) => Code(HexValue(hex))
  }

  function UnitsOf(cs: seq<Chr>): (us: seq<Unit>)
    ensures |us| == |cs|
  {
    if cs == [] then [] else [UnitOf(cs[0])] + UnitsOf(cs[1..])
  }

  predicate IsHigh(u: int) { 0xD800 <= u <= 0xDBFF }

  predicate IsLow(u: int) { 0xDC00 <= u <= 0xDFFF }

  /** The character beyond the basic plane that a surrogate pair stands for. */
  function PairOf(high: nat, low: nat): (cp: nat)
    requires IsHigh(high) && IsLow(low)
    ensures 0x10000 <= cp <= 0x10FFFF
  {
    (high - 0xD800) * 0x400 + (low - 0xDC00) + 0x10000
  }

  /** Second step: adjacent surrogate escapes pair up, and every code point is encoded as UTF-8. */
  function Encoded(us: seq<Unit>): bytes
    decreases |us|
  {
    if us == [] then []
    else match us[0]
      case Byte(b) => [b] + Encoded(us[1..])
      case Code(u) =>
        if IsHigh(u) && |us| > 1 && us[1].Code? && IsLow(us[1].u)
        then Encode(PairOf(u, us[1].u)) + Encoded(us[2..])
        else Encode(u) + Encoded(us[1..])
  }

  function StringMeaning(cs: seq<Chr>): bytes {
    Encoded(UnitsOf(cs))
  }

  // ---------------------------------------------------------------- what numbers mean

  function DecimalValue(s: bytes): int {
    if s == [] then 0 else 10 * DecimalValue(s[..|s| - 1]) + (s[|s| - 1] as int - 0x30)
  }

  /** `std::numeric_limits<int>::digits10` */
  const DIGITS10: nat := 9

  /** Short integer literals become ints, everything else goes through `strtod`. */
  function NumMeaning(n: NumTok, strtod: bytes -> Extended): Num {
    if n.frac == [] && n.e == [] && |RenderNum(n)| <= DIGITS10
    then Int(if n.minus then -DecimalValue(n.whole) else DecimalValue(n.whole))
    else Double(strtod(RenderNum(n)))
  }

  // ---------------------------------------------------------------- what values mean

  /** `data[key] = value` on a `std::map`. */
  function Put(fields: seq<Field>, key: bytes, value: Json): seq<Field> {
    if fields == [] then [Field(key, value)]
    else if StringLess(key, fields[0].key) then [Field(key, value)] + fields
    else if key == fields[0].key then [Field(key, value)] + fields[1..]
    else [fields[0]] + Put(fields[1..], key, value)
  }

  function Meaning(c: Cst, strtod: bytes -> Extended): Json
    decreases c, 0
  {
    match c
    case CNull => Null
    case CTrue => Bool(true)
    case CFalse => Bool(false)
    case CNum(n) => Number(NumMeaning(n, strtod))
    case CStr(cs) => Str(StringMeaning(cs))
    case CArr(_, items) => Arr(MeaningItems(items, strtod))
    case CObj(_, members) => Obj(MeaningMembers([], members, strtod))
  }

  function MeaningItems(items: seq<Elem>, strtod: bytes -> Extended): seq<Json>
    decreases items, 1
  {
    if items == [] then [] else [Meaning(items[0].value, strtod)] + MeaningItems(items[1..], strtod)
  }

  function MeaningMembers(fields: seq<Field>, members: seq<Member>, strtod: bytes -> Extended): seq<Field>
    decreases members, 1
  {
    if members == [] then fields
    else
      var m := members[0];
      MeaningMembers(Put(fields, StringMeaning(m.key), Meaning(m.elem.value, strtod)), members[1..], strtod)
  }
}
