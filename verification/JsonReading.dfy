/**
 How json11 reads a text, as functions of the text and a position: the reference for the
 imperative parser, proved here to recognise exactly the grammar of `JsonGrammar`.
 */
module JsonReading {
  import opened Bytes
  import opened JsonGrammar

  const SLASH: byte := 0x2F
  const STAR: byte := 0x2A
  const NEWLINE: byte := 0x0A

  const MAX_DEPTH: nat := 200

  /** `str[i]`, with `str[size()]` reading as NUL. */
  function At(t: bytes, i: nat): byte
    requires i <= |t|
  {
    if i < |t| then t[i] else 0
  }

  // ---------------------------------------------------------------- whitespace and comments

  function WsEnd(t: bytes, i: nat): (j: nat)
    requires i <= |t|
    ensures i <= j <= |t|
    decreases |t| - i
  {
    if IsWs(At(t, i)) then WsEnd(t, i + 1) else i
  }

  function LineEnd(t: bytes, i: nat): (j: nat)
    requires i <= |t|
    ensures i <= j <= |t|
    decreases |t| - i
  {
    if i < |t| && t[i] != NEWLINE then LineEnd(t, i + 1) else i
  }

  function BlockEnd(t: bytes, i: nat): (j: Option<nat>)
    requires i <= |t|
    ensures j.Some? ==> i + 2 <= j.v <= |t|
    decreases |t| - i
  {
    if i + 2 > |t| then None
    else if t[i] == STAR && t[i + 1] == SLASH then Some(i + 2)
    else BlockEnd(t, i + 1)
  }

  /** Behind the comment that starts at the slash at `i`, if it is one and ends. */
  function CommentEnd(t: bytes, i: nat): (j: Option<nat>)
    requires i < |t| && t[i] == SLASH
    ensures j.Some? ==> i + 2 <= j.v <= |t|
  {
    if i + 1 == |t| then None
    else if t[i + 1] == SLASH then Some(LineEnd(t, i + 2))
    else if t[i + 1] == STAR then BlockEnd(t, i + 2)
    else None
  }

  /** `consume_garbage`: whitespace, and in the COMMENTS strategy comments too. */
  function GarbageEnd(t: bytes, i: nat, comments: bool): (j: Option<nat>)
    requires i <= |t|
    ensures j.Some? ==> i <= j.v <= |t|
    ensures !comments ==> j == Some(WsEnd(t, i))
    decreases |t| - i
  {
    var w := WsEnd(t, i);
    if !comments || At(t, w) != SLASH then Some(w)
    else
      match CommentEnd(t, w)
      case None => None
      case Some(e) => GarbageEnd(t, e, comments)
  }

  // ---------------------------------------------------------------- numbers

  function DigitsEnd(t: bytes, i: nat): (j: nat)
    requires i <= |t|
    ensures i <= j <= |t|
    ensures At(t, i) in {0x30, 0x31, 0x32, 0x33, 0x34, 0x35, 0x36, 0x37, 0x38, 0x39} ==> i < j
    decreases |t| - i
  {
    if IsDigit(At(t, i)) then DigitsEnd(t, i + 1) else i
  }

  /** The integer part at `i`: a lone zero, or digits that do not begin with zero. */
  function WholeEnd(t: bytes, i: nat): (j: Option<nat>)
    requires i <= |t|
    ensures j.Some? ==> i < j.v <= |t|
  {
    if At(t, i) == 0x30 then (if IsDigit(At(t, i + 1)) then None else Some(i + 1))
    else if IsDigit(At(t, i)) then Some(DigitsEnd(t, i + 1))
    else None
  }

  function FracEnd(t: bytes, i: nat): (j: Option<nat>)
    requires i <= |t|
    ensures j.Some? ==> i <= j.v <= |t|
  {
    if At(t, i) != 0x2E then Some(i)
    else if IsDigit(At(t, i + 1)) then Some(DigitsEnd(t, i + 1)) else None
  }

  predicate IsE(b: byte) { b == 0x65 || b == 0x45 }

  predicate IsSign(b: byte) { b == 0x2B || b == 0x2D }

  /** Where the digits of an exponent begin, given the `e` at `i`. */
  function AfterSign(t: bytes, i: nat): (j: nat)
    requires i < |t|
    ensures i < j <= |t|
  {
    if IsSign(At(t, i + 1)) then i + 2 else i + 1
  }

  function ExpEnd(t: bytes, i: nat): (j: Option<nat>)
    requires i <= |t|
    ensures j.Some? ==> i <= j.v <= |t|
  {
    if !IsE(At(t, i)) then Some(i)
    else if IsDigit(At(t, AfterSign(t, i))) then Some(DigitsEnd(t, AfterSign(t, i))) else None
  }

  function ReadNumber(t: bytes, i: nat): (r: Option<(NumTok, nat)>)
    requires i <= |t|
    ensures r.Some? ==> i < r.v.1 <= |t|
  {
    var minus := At(t, i) == 0x2D;
    var a := if minus then i + 1 else i;
    match WholeEnd(t, a)
    case None => None
    case Some(b) =>
      match FracEnd(t, b)
      case None => None
      case Some(c) =>
        match ExpEnd(t, c)
        case None => None
        case Some(d) =>
          Some((TokenAt(t, minus, a, b, c, d), d))
  }

  /** The parts of a number, given where they begin and end. */
  function TokenAt(t: bytes, minus: bool, a: nat, b: nat, c: nat, d: nat): NumTok
    requires a <= b <= c <= d <= |t|
  {
    if c == d then NumTok(minus, t[a..b], if b == c then [] else t[b + 1..c], [], [], [])
    else NumTok(minus, t[a..b], if b == c then [] else t[b + 1..c],
                t[c..c + 1], t[c + 1..AfterSign(t, c)], if AfterSign(t, c) <= d then t[AfterSign(t, c)..d] else [])
  }

  // ---------------------------------------------------------------- strings

  /** One character of a string at `i`, not the closing quote. */
  function ReadChr(t: bytes, i: nat): (r: Option<(Chr, nat)>)
    requires i < |t| && t[i] != QUOTE
    ensures r.Some? ==> i < r.v.1 <= |t|
  {
    if t[i] < 0x20 then None
    else if t[i] != BACKSLASH then Some((Raw(t[i]), i + 1))
    else if i + 1 == |t| then None
    else if t[i + 1] == 0x75 then
      if i + 6 <= |t| && IsHex(t[i + 2]) && IsHex(t[i + 3]) && IsHex(t[i + 4]) && IsHex(t[i + 5])
      then Some((Uni(t[i + 2..i + 6]), i + 6)) else None
    else if IsEscape(t[i + 1]) then Some((Esc(t[i + 1]), i + 2))
    else None
  }

  /** The characters of a string whose opening quote has been read, and the end of the string. */
  function ReadString(t: bytes, i: nat): (r: Option<(seq<Chr>, nat)>)
    requires i <= |t|
    ensures r.Some? ==> i < r.v.1 <= |t|
    decreases |t| - i
  {
    if i == |t| then None
    else if t[i] == QUOTE then Some(([], i + 1))
    else
      match ReadChr(t, i)
      case None => None
      case Some((c, j)) =>
        match ReadString(t, j)
        case None => None
        case Some((cs, k)) => Some(([c] + cs, k))
  }

  // ---------------------------------------------------------------- values

  predicate Has(t: bytes, i: nat, x: bytes) {
    i + |x| <= |t| && t[i..i + |x|] == x
  }

  function ReadWord(t: bytes, i: nat, word: bytes, c: Cst): (r: Option<(Cst, nat)>)
    ensures r.Some? ==> r.v.1 == i + |word| <= |t|
  {
    if Has(t, i, word) then Some((c, i + |word|)) else None
  }

  /** A value that starts at or behind `i`, after garbage; the garbage comes back too. */
  function ReadValue(t: bytes, i: nat, depth: int, comments: bool): (r: Option<(bytes, Cst, nat)>)
    requires i <= |t|
    ensures r.Some? ==> i < r.v.2 <= |t|
    decreases MAX_DEPTH + 1 - depth, 2, 0
  {
    if depth > MAX_DEPTH then None
    else
      match GarbageEnd(t, i, comments)
      case None => None
      case Some(g) =>
        match ReadBare(t, g, depth, comments)
        case None => None
        case Some((c, j)) => Some((t[i..g], c, j))
  }

  /** A value whose first character is at `i`. */
  function ReadBare(t: bytes, i: nat, depth: int, comments: bool): (r: Option<(Cst, nat)>)
    requires i <= |t| && depth <= MAX_DEPTH
    ensures r.Some? ==> i < r.v.1 <= |t|
    decreases MAX_DEPTH + 1 - depth, 1, 0
  {
    if i == |t| then None
    else if t[i] == 0x2D || IsDigit(t[i]) then
      match ReadNumber(t, i)
      case None => None
      case Some((n, j)) => Some((CNum(n), j))
    else if t[i] == 0x74 then ReadWord(t, i, TRUE_TEXT, CTrue)
    else if t[i] == 0x66 then ReadWord(t, i, FALSE_TEXT, CFalse)
    else if t[i] == 0x6E then ReadWord(t, i, NULL_TEXT, CNull)
    else if t[i] == QUOTE then
      match ReadString(t, i + 1)
      case None => None
      case Some((cs, j)) => Some((CStr(cs), j))
    else if t[i] == 0x7B then
      match GarbageEnd(t, i + 1, comments)
      case None => None
      case Some(g) =>
        if At(t, g) == 0x7D then Some((CObj(t[i + 1..g], []), g + 1))
        else
          match ReadMembers(t, i + 1, depth, comments)
          case None => None
          case Some((ms, j)) => Some((CObj([], ms), j))
    else if t[i] == 0x5B then
      match GarbageEnd(t, i + 1, comments)
      case None => None
      case Some(g) =>
        if At(t, g) == 0x5D then Some((CArr(t[i + 1..g], []), g + 1))
        else
          match ReadItems(t, i + 1, depth, comments)
          case None => None
          case Some((es, j)) => Some((CArr([], es), j))
    else None
  }

  /** The elements of a non-empty array, up to and including the closing bracket. */
  function ReadItems(t: bytes, i: nat, depth: int, comments: bool): (r: Option<(seq<Elem>, nat)>)
    requires i <= |t| && depth <= MAX_DEPTH
    ensures r.Some? ==> i < r.v.1 <= |t|
    decreases MAX_DEPTH + 1 - depth, 0, |t| - i
  {
    match ReadValue(t, i, depth + 1, comments)
    case None => None
    case Some((before, c, j)) =>
      match GarbageEnd(t, j, comments)
      case None => None
      case Some(g) =>
        var e := Elem(before, c, t[j..g]);
        if At(t, g) == 0x5D then Some(([e], g + 1))
        else if At(t, g) != COMMA then None
        else
          match ReadItems(t, g + 1, depth, comments)
          case None => None
          case Some((es, k)) => Some(([e] + es, k))
  }

  /** A key, its colon and its value. */
  function ReadMember(t: bytes, i: nat, depth: int, comments: bool): (r: Option<(Member, nat)>)
    requires i <= |t| && depth <= MAX_DEPTH
    ensures r.Some? ==> i < r.v.1 <= |t|
    decreases MAX_DEPTH + 1 - depth, 0, |t| - i, 0
  {
    match GarbageEnd(t, i, comments)
    case None => None
    case Some(g) =>
      if At(t, g) != QUOTE then None
      else
        match ReadString(t, g + 1)
        case None => None
        case Some((key, j)) =>
          match GarbageEnd(t, j, comments)
          case None => None
          case Some(h) =>
            if At(t, h) != COLON then None
            else
              match ReadValue(t, h + 1, depth + 1, comments)
              case None => None
              case Some((before, c, k)) =>
                match GarbageEnd(t, k, comments)
                case None => None
                case Some(m) => Some((Member(t[i..g], key, t[j..h], Elem(before, c, t[k..m])), m))
  }

  /** The members of a non-empty object, up to and including the closing brace. */
  function ReadMembers(t: bytes, i: nat, depth: int, comments: bool): (r: Option<(seq<Member>, nat)>)
    requires i <= |t| && depth <= MAX_DEPTH
    ensures r.Some? ==> i < r.v.1 <= |t|
    decreases MAX_DEPTH + 1 - depth, 0, |t| - i, 1
  {
    match ReadMember(t, i, depth, comments)
    case None => None
    case Some((m, g)) =>
      if At(t, g) == 0x7D then Some(([m], g + 1))
      else if At(t, g) != COMMA then None
      else
        match ReadMembers(t, g + 1, depth, comments)
        case None => None
        case Some((ms, k)) => Some(([m] + ms, k))
  }

  /** `Json::parse`: one value, and nothing but garbage after it. */
  function ReadDocument(t: bytes, comments: bool): Option<Elem> {
    match ReadValue(t, 0, 0, comments)
    case None => None
    case Some((before, c, j)) =>
      match GarbageEnd(t, j, comments)
      case None => None
      case Some(g) => if g == |t| then Some(Elem(before, c, t[j..g])) else None
  }

  /**
   `Json::parse_multi` from position `i`: the values that follow, where the last complete one
   (and the garbage behind it) ended, and whether the text ran out without a failure. A value
   that fails leaves an entry behind, as it does in the original.
   */
  function ReadMany(t: bytes, i: nat, stop: nat, comments: bool): (r: (seq<Option<Cst>>, nat, bool))
    requires i <= |t|
    decreases |t| - i
  {
    if i == |t| then ([], stop, true)
    else
      match ReadValue(t, i, 0, comments)
      case None => ([None], stop, false)
      case Some((_, c, j)) =>
        match GarbageEnd(t, j, comments)
        case None => ([Some(c)], stop, false)
        case Some(g) =>
          var (rest, last, ok) := ReadMany(t, g, g, comments);
          ([Some(c)] + rest, last, ok)
  }
}
