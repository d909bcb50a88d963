/**
 json11's recursive-descent parser, over a cursor that moves and a failure flag that sticks.
 Each method is tied to the function of `JsonReading` that says what it should read; with
 `JsonRecognition` this makes `Parse` succeed on exactly the grammar of RFC 8259.
 */
module JsonParser {
  import opened Bytes
  import opened JsonValue
  import opened JsonGrammar
  import opened JsonReading
  import opened JsonGaps
  import opened JsonRecognition
  import opened JsonDocuments
  import opened JsonStrings

  /** Why a parse failed; the wording of the messages is not modelled. */
  datatype Error =
    | NoError | UnexpectedEnd | CommentStart | CommentOpen | CommentMalformed
    | ControlInString | StringEnd | BadUnicodeEscape | InvalidEscape
    | LeadingZero | InvalidNumber | FractionDigits | ExponentDigits
    | WordExpected | TooDeep | KeyExpected | ColonExpected | ObjectCommaExpected | ListCommaExpected
    | ValueExpected | TrailingText

  class Parser {
    const str: bytes
    const comments: bool                // JsonParse::COMMENTS rather than STANDARD
    const strtod: bytes -> Extended
    var i: nat
    var failed: bool
    var err: Error

    constructor (str: bytes, comments: bool, strtod: bytes -> Extended, err: Error)
      ensures this.str == str && this.comments == comments && this.strtod == strtod
      ensures i == 0 && !failed && this.err == err
    {
      this.str, this.comments, this.strtod := str, comments, strtod;
      i, failed, this.err := 0, false, err;
    }

    /** The cursor never leaves the text; reading at its very end gives NUL. */
    ghost predicate Valid()
      reads this
    {
      i <= |str|
    }

    /** A failure is never taken back, and the first error stays the one reported. */
    twostate predicate Sticky()
      reads this
    {
      && (old(failed) ==> failed && err == old(err))
      && (!failed ==> err == old(err))
      && (failed && !old(failed) ==> err != NoError)
    }

    method Fail(e: Error)
      requires e != NoError
      modifies this`failed, this`err
      ensures failed && err == if old(failed) then old(err) else e
    {
      if !failed { err := e; }
      failed := true;
    }

    // -------------------------------------------------------------- whitespace and comments

    method ConsumeWhitespace()
      requires Valid()
      modifies this`i
      ensures Valid() && i == WsEnd(str, old(i))
    {
      while IsWs(At(str, i))
        invariant Valid() && WsEnd(str, i) == WsEnd(str, old(i))
        decreases |str| - i
      {
        i := i + 1;
      }
    }

    method ConsumeComment() returns (found: bool)
      requires Valid()
      modifies this
      ensures Valid() && Sticky() && i >= old(i)
      ensures if At(str, old(i)) != SLASH then !found && i == old(i) && failed == old(failed)
              else match CommentEnd(str, old(i))
                case None => failed && !found
                case Some(e) => found && i == e && failed == old(failed)
    {
      found := false;
      if At(str, i) == SLASH {
        i := i + 1;
        if i == |str| {
          Fail(CommentStart);
          return false;
        }
        if str[i] == SLASH {
          i := i + 1;
          while i < |str| && str[i] != NEWLINE
            invariant Valid() && i >= old(i) + 2 && LineEnd(str, i) == LineEnd(str, old(i) + 2)
            invariant failed == old(failed) && err == old(err)
          {
            i := i + 1;
          }
          found := true;
        } else if str[i] == STAR {
          i := i + 1;
          if i + 2 > |str| {
            Fail(CommentOpen);
            return false;
          }
          while !(str[i] == STAR && str[i + 1] == SLASH)
            invariant i + 2 <= |str| && i >= old(i) + 2 && BlockEnd(str, i) == BlockEnd(str, old(i) + 2)
            invariant failed == old(failed) && err == old(err)
            decreases |str| - i
          {
            i := i + 1;
            if i + 2 > |str| {
              Fail(CommentOpen);
              return false;
            }
          }
          i := i + 2;
          found := true;
        } else {
          Fail(CommentMalformed);
          return false;
        }
      }
    }

    method ConsumeGarbage()
      requires Valid()
      modifies this
      ensures Valid() && Sticky() && i >= old(i)
      ensures !old(failed) ==>
                match GarbageEnd(str, old(i), comments)
                case None => failed
                case Some(g) => !failed && i == g
    {
      ConsumeWhitespace();
      WsAgain(str, old(i));
      GarbageAfterWs(str, old(i));
      if comments {
        var found := true;
        while found
          invariant Valid() && Sticky() && i >= old(i) && failed == old(failed)
          invariant i == WsEnd(str, i)
          invariant found ==> GarbageEnd(str, i, true) == GarbageEnd(str, old(i), true)
          invariant !found ==> GarbageEnd(str, old(i), true) == Some(i)
          decreases |str| - i, found
        {
          found := ConsumeComment();
          if failed { return; }
          ghost var behind := i;
          ConsumeWhitespace();
          WsAgain(str, behind);
          GarbageAfterWs(str, behind);
        }
      }
    }

    /** `get_next_token`: the next character that matters, or NUL and a failure. */
    method GetNextToken() returns (ch: byte)
      requires Valid()
      modifies this
      ensures Valid() && Sticky() && i >= old(i)
      ensures failed ==> ch == 0
      ensures !old(failed) ==>
                match GarbageEnd(str, old(i), comments)
                case None => failed
                case Some(g) => if g == |str| then failed else !failed && i == g + 1 && ch == str[g]
    {
      ConsumeGarbage();
      if failed { return 0; }
      if i == |str| {
        Fail(UnexpectedEnd);
        return 0;
      }
      ch := str[i];
      i := i + 1;
    }

    // -------------------------------------------------------------- strings

    /** The check of what follows `\u`: four hexadecimal digits. */
    static method IsHexEscape(esc: bytes) returns (ok: bool)
      requires |esc| <= 4
      ensures ok <==> |esc| == 4 && forall k :: 0 <= k < 4 ==> IsHex(esc[k])
    {
      if |esc| < 4 { return false; }
      for j := 0 to 4
        invariant forall k :: 0 <= k < j ==> IsHex(esc[k])
      {
        if !IsHex(esc[j]) { return false; }
      }
      ok := true;
    }

    method ParseString() returns (out: bytes)
      requires Valid() && !failed
      modifies this
      ensures Valid() && Sticky() && i >= old(i)
      ensures match ReadString(str, old(i))
              case None => failed
              case Some((cs, j)) => !failed && i == j && out == StringMeaning(cs)
    {
      hide Progress, Prepend, ReadChr, StringMeaning, ReadString, EncodeCodePoint, IsEscape, Unescape, HexValue, IsHex;
      out := [];
      var last: int := -1;
      ghost var done: seq<Chr> := [];
      Nothing();
      PrependNothing(ReadString(str, i));
      while true
        invariant Valid() && !failed && err == old(err) && i >= old(i)
        invariant -1 <= last < 0x10000 && Progress(done, out, last)
        invariant ReadString(str, old(i)) == Prepend(done, ReadString(str, i))
        decreases |str| - i
      {
        OneMore(str, old(i), i, done);
        ghost var start := i;
        if i == |str| {
          Fail(StringEnd);
          return [];
        }
        var ch := str[i];
        i := i + 1;
        if ch == QUOTE {
          ProgressEnds(done, out, last);
          out := out + EncodeCodePoint(last);
          return;
        }
        ReadChrIs(str, start);
        if ch < 0x20 {
          Fail(ControlInString);
          return [];
        }
        if ch != BACKSLASH {
          ByteProgress(done, out, last, Raw(ch));
          out, last, done := out + EncodeCodePoint(last) + [ch], -1, done + [Raw(ch)];
          assert ReadString(str, old(i)) == Prepend(done, ReadString(str, i));
          continue;
        }
        if i == |str| {
          Fail(StringEnd);
          return [];
        }
        ch := str[i];
        i := i + 1;
        if ch == 0x75 {
          var esc := str[i..if i + 4 <= |str| then i + 4 else |str|];
          var ok := IsHexEscape(esc);
          UnicodeIs(str, start, esc, ok);
          if !ok {
            Fail(BadUnicodeEscape);
            return [];
          }
          var codepoint := HexValue(esc);
          CodeProgress(done, out, last, Uni(esc));
          if IsHigh(last) && IsLow(codepoint) {
            out, last := out + EncodeCodePoint(PairOf(last, codepoint)), -1;
          } else {
            out, last := out + EncodeCodePoint(last), codepoint;
          }
          i := i + 4;
          done := done + [Uni(esc)];
          assert ReadString(str, old(i)) == Prepend(done, ReadString(str, i));
          continue;
        }
        var b := Escaped(ch);
        if b == None {
          Fail(InvalidEscape);
          return [];
        }
        assert ReadChr(str, start) == Some((Esc(ch), i));
        ByteProgress(done, out, last, Esc(ch));
        out, last, done := out + EncodeCodePoint(last) + [b.v], -1, done + [Esc(ch)];
        assert ReadString(str, old(i)) == Prepend(done, ReadString(str, i));
      }
    }

    /** What the character behind a backslash stands for, if it may be there. */
    static method Escaped(ch: byte) returns (b: Option<byte>)
      ensures b == if IsEscape(ch) then Some(Unescape(ch)) else None
    {
      b := Some(ch);
      if ch == 0x62 {
        b := Some(0x08);
      } else if ch == 0x66 {
        b := Some(0x0C);
      } else if ch == 0x6E {
        b := Some(0x0A);
      } else if ch == 0x72 {
        b := Some(0x0D);
      } else if ch == 0x74 {
        b := Some(0x09);
      } else if ch != QUOTE && ch != BACKSLASH && ch != SLASH {
        b := None;
      }
    }

    // -------------------------------------------------------------- numbers and words

    method ConsumeDigits()
      requires Valid()
      modifies this`i
      ensures Valid() && i == DigitsEnd(str, old(i))
    {
      while IsDigit(At(str, i))
        invariant Valid() && DigitsEnd(str, i) == DigitsEnd(str, old(i))
        decreases |str| - i
      {
        i := i + 1;
      }
    }

    /** The integer part; what `parse_number` does up to the early return. */
    method ParseWhole()
      requires Valid()
      modifies this
      ensures Valid() && Sticky() && i >= old(i)
      ensures !old(failed) ==>
                match WholeEnd(str, old(i))
                case None => failed
                case Some(b) => !failed && i == b
    {
      if At(str, i) == 0x30 {
        i := i + 1;
        if IsDigit(At(str, i)) { Fail(LeadingZero); }
      } else if 0x31 <= At(str, i) <= 0x39 {
        i := i + 1;
        ConsumeDigits();
      } else {
        Fail(InvalidNumber);
      }
    }

    method ParseFraction()
      requires Valid()
      modifies this
      ensures Valid() && Sticky() && i >= old(i)
      ensures !old(failed) ==>
                match FracEnd(str, old(i))
                case None => failed
                case Some(c) => !failed && i == c
    {
      if At(str, i) == 0x2E {
        i := i + 1;
        if !IsDigit(At(str, i)) {
          Fail(FractionDigits);
          return;
        }
        ConsumeDigits();
        DigitsFrom(str, old(i) + 1);
      }
    }

    method ParseExponent()
      requires Valid()
      modifies this
      ensures Valid() && Sticky() && i >= old(i)
      ensures !old(failed) ==>
                match ExpEnd(str, old(i))
                case None => failed
                case Some(d) => !failed && i == d
    {
      if IsE(At(str, i)) {
        i := i + 1;
        if At(str, i) == 0x2B || At(str, i) == 0x2D { i := i + 1; }
        if !IsDigit(At(str, i)) {
          Fail(ExponentDigits);
          return;
        }
        ConsumeDigits();
      }
    }

    /** `std::atoi`, on the digits it is given. */
    static method Atoi(s: bytes) returns (n: int)
      ensures n == DecimalValue(s)
    {
      n := 0;
      assert s[..0] == [];
      for k := 0 to |s|
        invariant n == DecimalValue(s[..k])
      {
        assert s[..k + 1][..k] == s[..k];
        n := 10 * n + (s[k] as int - 0x30);
      }
      assert s[..|s|] == s;
    }

    method ParseNumber() returns (v: Json)
      requires Valid() && !failed
      modifies this
      ensures Valid() && Sticky() && i >= old(i)
      ensures match ReadNumber(str, old(i))
              case None => failed
              case Some((n, j)) => !failed && i == j && v == Number(NumMeaning(n, strtod))
    {
      hide WholeEnd, FracEnd, ExpEnd, NumMeaning, TokenAt;
      var startPos := i;
      v := Null;
      if At(str, i) == 0x2D { i := i + 1; }
      ghost var a := i;
      ParseWhole();
      if failed { return; }
      var wholeEnd := i;
      if At(str, i) != 0x2E && !IsE(At(str, i)) && i - startPos <= DIGITS10 {
        PlainInteger(str, startPos, a, i, strtod);
        var minus := str[startPos] == 0x2D;
        var n := Atoi(str[if minus then startPos + 1 else startPos..i]);
        return Number(Int(if minus then -n else n));
      }
      ParseFraction();
      if failed { return; }
      ParseExponent();
      if failed { return; }
      OtherNumber(str, startPos, wholeEnd, strtod);
      v := Number(Double(strtod(str[startPos..i])));
    }

    /** `expect`: the rest of a word whose first character has just been read. */
    method Expect(expected: bytes, res: Json, ghost c: Cst) returns (v: Json)
      requires Valid() && !failed && i > 0
      modifies this
      ensures Valid() && Sticky() && i >= old(i) - 1
      ensures match ReadWord(str, old(i) - 1, expected, c)
              case None => failed
              case Some((_, j)) => !failed && i == j && v == res
    {
      i := i - 1;
      if Has(str, i, expected) {
        i := i + |expected|;
        return res;
      } else {
        Fail(WordExpected);
        return Null;
      }
    }

    // -------------------------------------------------------------- values

    /** `parse_json`: one value, at most `MAX_DEPTH - depth` levels deep. */
    method ParseJson(depth: nat) returns (v: Json)
      requires Valid() && depth <= MAX_DEPTH + 1
      modifies this
      ensures Valid() && Sticky() && i >= old(i)
      ensures !old(failed) ==>
                match ReadValue(str, old(i), depth, comments)
                case None => failed
                case Some((_, c, j)) => !failed && i == j && v == Meaning(c, strtod)
      decreases MAX_DEPTH + 1 - depth, 2
    {
      hide ReadBare;
      v := Null;
      if depth > MAX_DEPTH {
        Fail(TooDeep);
        return;
      }
      var ch := GetNextToken();
      if failed {
        EndReadsNothing(str, depth, comments);
        return;
      }
      v := ParseBare(ch, depth);
    }

    /** The rest of `parse_json`, once the first character `ch` has been read. */
    method ParseBare(ch: byte, depth: nat) returns (v: Json)
      requires Valid() && !failed && i > 0 && ch == str[i - 1] && depth <= MAX_DEPTH
      modifies this
      ensures Valid() && Sticky() && i >= old(i) - 1
      ensures match ReadBare(str, old(i) - 1, depth, comments)
              case None => failed
              case Some((c, j)) => !failed && i == j && v == Meaning(c, strtod)
      decreases MAX_DEPTH + 1 - depth, 1
    {
      hide ReadNumber, ReadString, ReadItems, ReadMembers, StringMeaning, NumMeaning;
      if ch == 0x2D || (ch >= 0x30 && ch <= 0x39) {
        i := i - 1;
        v := ParseNumber();
      } else if ch == 0x74 {
        v := Expect(TRUE_TEXT, Bool(true), CTrue);
      } else if ch == 0x66 {
        v := Expect(FALSE_TEXT, Bool(false), CFalse);
      } else if ch == 0x6E {
        v := Expect(NULL_TEXT, Null, CNull);
      } else if ch == QUOTE {
        var s := ParseString();
        v := Str(s);
      } else if ch == 0x7B {
        v := ParseObject(depth);
      } else if ch == 0x5B {
        v := ParseArray(depth);
      } else {
        Fail(ValueExpected);
        v := Null;
      }
    }

    /** The `[` branch of `parse_json`. */
    method ParseArray(depth: nat) returns (v: Json)
      requires Valid() && !failed && i > 0 && str[i - 1] == 0x5B && depth <= MAX_DEPTH
      modifies this
      ensures Valid() && Sticky() && i >= old(i) - 1
      ensures match ReadBare(str, old(i) - 1, depth, comments)
              case None => failed
              case Some((c, j)) => !failed && i == j && v == Meaning(c, strtod)
      decreases MAX_DEPTH + 1 - depth, 0, 2
    {
      hide ReadBare, ReadItems, GarbageEnd, Meaning, MeaningItems;
      ghost var start := i;
      ArrayReads(str, i - 1, depth, comments, strtod);
      ItemsNeedGarbage(str, i, depth, comments);
      var ch := GetNextToken();
      if ch == 0x5D { return Arr([]); }
      var data := ParseItems(depth, start);
      v := if failed then Null else Arr(data);
    }

    /** The loop of that branch; `pos` is where the garbage in front of the next element begins. */
    method ParseItems(depth: nat, ghost pos: nat) returns (data: seq<Json>)
      requires AtItem(depth, pos)
      modifies this
      ensures Valid() && Sticky() && i >= old(i) - 1
      ensures match ReadItems(str, pos, depth, comments)
              case None => failed
              case Some((es, j)) => !failed && i == j && data == MeaningItems(es, strtod)
      decreases MAX_DEPTH + 1 - depth, 0, 1
    {
      hide ReadItems, GarbageEnd, Meaning, MeaningItems;
      ghost var p, done: seq<Elem> := pos, [];
      PrependNothing(ReadItems(str, pos, depth, comments));
      data := [];
      NoItemsMeaning(strtod);
      while true
        invariant p <= |str| && AtItem(depth, p) && Sticky() && i >= old(i)
        invariant data == MeaningItems(done, strtod)
        invariant ReadItems(str, pos, depth, comments) == Prepend(done, ReadItems(str, p, depth, comments))
        decreases |str| - p
      {
        var item, ch;
        ghost var e;
        item, ch, e := ParseItem(depth, p);
        data := data + [item];
        if failed { return; }
        ItemsMeaningSnoc(done, e, strtod);
        PrependMore(done, e, ReadItems(str, i, depth, comments));
        PrependMore(done, e, Some(([], i)));
        PrependEnd([e], i);
        PrependEnd(done + [e], i);
        if ch == 0x5D { return; }
        if ch != COMMA {
          Fail(ListCommaExpected);
          return;
        }
        done, p := done + [e], i;
        NextItem(depth);
      }
    }

    /** The token that begins the next element. */
    method NextItem(depth: nat)
      requires Valid() && !failed && i > 0 && depth <= MAX_DEPTH
      modifies this
      ensures AtItem(depth, old(i)) && Sticky() && i >= old(i)
    {
      hide ReadItems, GarbageEnd;
      ItemsNeedGarbage(str, i, depth, comments);
      ghost var next := GetNextToken();
    }

    /** At the head of the array loop: a token has been read, and will be put back. */
    ghost predicate AtItem(depth: nat, pos: nat)
      reads this
    {
      && Valid() && depth <= MAX_DEPTH && pos <= |str| && 0 < i && pos <= i
      && (!failed ==> GarbageEnd(str, pos, comments) == Some(i - 1))
      && (failed ==> ReadItems(str, pos, depth, comments) == None)
    }

    /** One element, and the token behind it. */
    method ParseItem(depth: nat, ghost pos: nat) returns (item: Json, ch: byte, ghost e: Elem)
      requires AtItem(depth, pos)
      modifies this
      ensures Valid() && Sticky() && i >= old(i) - 1
      ensures failed ==> ReadItems(str, pos, depth, comments) == None
      ensures !failed ==>
                && i >= old(i) && pos < i && ch == str[i - 1] && item == Meaning(e.value, strtod)
                && ReadItems(str, pos, depth, comments)
                   == if ch == 0x5D then Some(([e], i)) else if ch != COMMA then None
                      else Prepend([e], ReadItems(str, i, depth, comments))
      decreases MAX_DEPTH + 1 - depth, 0, 0
    {
      hide ReadValue, ReadItems, GarbageEnd, Meaning;
      ch, e := 0, Elem([], CNull, []);
      ItemsStep(str, pos, depth, comments);
      i := i - 1;
      if !failed { ValueSkipsGarbage(str, pos, i, depth + 1, comments); }
      item := ParseJson(depth + 1);
      if failed { return; }
      ghost var r, after := ReadValue(str, pos, depth + 1, comments).v, i;
      EndOfTextIsNoToken(str);
      ch := GetNextToken();
      if failed { return; }
      e := Elem(r.0, r.1, str[after..i - 1]);
    }

    /** The `{` branch of `parse_json`. */
    method ParseObject(depth: nat) returns (v: Json)
      requires Valid() && !failed && i > 0 && str[i - 1] == 0x7B && depth <= MAX_DEPTH
      modifies this
      ensures Valid() && Sticky() && i >= old(i) - 1
      ensures match ReadBare(str, old(i) - 1, depth, comments)
              case None => failed
              case Some((c, j)) => !failed && i == j && v == Meaning(c, strtod)
      decreases MAX_DEPTH + 1 - depth, 0, 2
    {
      hide ReadBare, ReadMembers, GarbageEnd, Meaning, MeaningMembers;
      ghost var start := i;
      ObjectReads(str, i - 1, depth, comments, strtod);
      MembersNeedGarbage(str, i, depth, comments);
      var ch := GetNextToken();
      if ch == 0x7D { return Obj([]); }
      var data := ParseMembers(depth, ch, start);
      v := if failed then Null else Obj(data);
    }

    /** At the head of the object loop: `ch` has been read, and should open a key. */
    ghost predicate AtMember(depth: nat, pos: nat, ch: byte)
      reads this
    {
      && Valid() && depth <= MAX_DEPTH && pos <= |str| && 0 < i && pos <= i
      && (!failed ==> GarbageEnd(str, pos, comments) == Some(i - 1) && ch == str[i - 1])
      && (failed ==> ReadMembers(str, pos, depth, comments) == None && ch == 0)
    }

    /** The loop of that branch. */
    method ParseMembers(depth: nat, first: byte, ghost pos: nat) returns (data: seq<Field>)
      requires AtMember(depth, pos, first)
      modifies this
      ensures Valid() && Sticky() && i >= old(i)
      ensures match ReadMembers(str, pos, depth, comments)
              case None => failed
              case Some((ms, j)) => !failed && i == j && data == MeaningMembers([], ms, strtod)
      decreases MAX_DEPTH + 1 - depth, 0, 1
    {
      hide ReadMember, ReadMembers, GarbageEnd, Meaning, MeaningMembers, Put, StringMeaning;
      ghost var p, done: seq<Member> := pos, [];
      PrependNothing(ReadMembers(str, pos, depth, comments));
      data := [];
      NoMembersMeaning(strtod);
      var ch := first;
      while true
        invariant p <= |str| && AtMember(depth, p, ch) && Sticky() && i >= old(i)
        invariant data == MeaningMembers([], done, strtod)
        invariant ReadMembers(str, pos, depth, comments) == Prepend(done, ReadMembers(str, p, depth, comments))
        decreases |str| - p
      {
        MembersStep(str, p, depth, comments);
        ghost var m;
        data, ch, m := ParseMember(depth, ch, p, data);
        if failed { return; }
        MembersMeaningSnoc(done, m, strtod);
        PrependMore(done, m, ReadMembers(str, i, depth, comments));
        PrependMore(done, m, Some(([], i)));
        PrependEnd([m], i);
        PrependEnd(done + [m], i);
        if ch == 0x7D { return; }
        if ch != COMMA {
          Fail(ObjectCommaExpected);
          return;
        }
        done, p := done + [m], i;
        ch := NextKey(depth);
      }
    }

    /** The token that should open the next key. */
    method NextKey(depth: nat) returns (ch: byte)
      requires Valid() && !failed && i > 0 && depth <= MAX_DEPTH
      modifies this
      ensures AtMember(depth, old(i), ch) && Sticky() && i >= old(i)
    {
      hide ReadMembers, GarbageEnd;
      MembersNeedGarbage(str, i, depth, comments);
      ch := GetNextToken();
    }

    /** One key, its value stored in `data`, and the token behind them. */
    method ParseMember(depth: nat, first: byte, ghost pos: nat, data: seq<Field>)
        returns (data': seq<Field>, ch: byte, ghost m: Member)
      requires AtMember(depth, pos, first)
      modifies this
      ensures Valid() && Sticky() && i >= old(i)
      ensures failed ==> old(failed) || match ReadMember(str, pos, depth, comments)
                                        case None => true
                                        case Some((_, g)) => g == |str|
      ensures !failed ==>
                && pos < i && ch == str[i - 1] && ReadMember(str, pos, depth, comments) == Some((m, i - 1))
                && data' == Put(data, StringMeaning(m.key), Meaning(m.elem.value, strtod))
      decreases MAX_DEPTH + 1 - depth, 0, 0
    {
      hide ReadMember, ReadValue, ReadString, ReadMembers, GarbageEnd, Meaning, StringMeaning, Put;
      ch, data', m := 0, data, Member([], [], [], Elem([], CNull, []));
      var key;
      ghost var g, k, j;
      key, g, k, j := ParseKey(depth, first, pos);
      if failed { return; }
      ghost var h := i - 1;
      MemberGoesOn(str, pos, depth, g, j, h, comments);
      var value := ParseJson(depth + 1);
      data' := Put(data, key, value);
      if failed { return; }
      ghost var r, after := ReadValue(str, h + 1, depth + 1, comments).v, i;
      ch := GetNextToken();
      if failed { return; }
      m := Member(str[pos..g], k, str[j..h], Elem(r.0, r.1, str[after..i - 1]));
    }

    /** A key and its colon: the key begins at `g`, is made of `k`, and ends at `j`. */
    method ParseKey(depth: nat, first: byte, ghost pos: nat)
        returns (key: bytes, ghost g: nat, ghost k: seq<Chr>, ghost j: nat)
      requires AtMember(depth, pos, first)
      modifies this
      ensures Valid() && Sticky() && i >= old(i)
      ensures failed ==> old(failed) || ReadMember(str, pos, depth, comments) == None
      ensures !failed ==>
                && depth <= MAX_DEPTH && KeyAt(str, pos, g, j, i - 1, comments)
                && ReadString(str, g + 1) == Some((k, j)) && key == StringMeaning(k)
    {
      hide ReadValue, ReadString, ReadMembers, GarbageEnd, StringMeaning;
      key, g, k, j := [], 0, [], 0;
      if first != QUOTE {
        Fail(KeyExpected);
        return;
      }
      g := i - 1;
      key := ParseString();
      if failed { return; }
      k, j := ReadString(str, g + 1).v.0, i;
      EndOfTextIsNoToken(str);
      var colon := GetNextToken();
      if colon != COLON {
        Fail(ColonExpected);
      }
    }
  }

  /** Between garbage, a key from `g` to `j` and the colon at `h`. */
  ghost predicate KeyAt(t: bytes, i: nat, g: nat, j: nat, h: nat, comments: bool) {
    && i <= g < j <= h < |t| && t[g] == QUOTE && t[h] == COLON
    && GarbageEnd(t, i, comments) == Some(g) && GarbageEnd(t, j, comments) == Some(h)
    && ReadString(t, g + 1).Some? && ReadString(t, g + 1).v.1 == j
  }

  lemma MemberGoesOn(t: bytes, i: nat, depth: nat, g: nat, j: nat, h: nat, comments: bool)
    requires KeyAt(t, i, g, j, h, comments) && depth <= MAX_DEPTH
    ensures var value := ReadValue(t, h + 1, depth + 1, comments);
            if value == None then ReadMember(t, i, depth, comments) == None
            else
              var (before, c, k) := value.v;
              var end := GarbageEnd(t, k, comments);
              ReadMember(t, i, depth, comments)
              == if end == None then None
                 else Some((Member(t[i..g], ReadString(t, g + 1).v.0, t[j..h], Elem(before, c, t[k..end.v])), end.v))
  {
    hide ReadValue, ReadString, GarbageEnd;
  }

  lemma ObjectReads(t: bytes, i: nat, depth: nat, comments: bool, strtod: bytes -> Extended)
    requires i < |t| && t[i] == 0x7B && depth <= MAX_DEPTH
    ensures match GarbageEnd(t, i + 1, comments)
            case None => ReadBare(t, i, depth, comments) == None
            case Some(g) =>
              if At(t, g) == 0x7D then
                && ReadBare(t, i, depth, comments) == Some((CObj(t[i + 1..g], []), g + 1))
                && Meaning(CObj(t[i + 1..g], []), strtod) == Obj([])
              else
                match ReadMembers(t, i + 1, depth, comments)
                case None => ReadBare(t, i, depth, comments) == None
                case Some((ms, j)) =>
                  && ReadBare(t, i, depth, comments) == Some((CObj([], ms), j))
                  && Meaning(CObj([], ms), strtod) == Obj(MeaningMembers([], ms, strtod))
  {
    hide ReadMembers, GarbageEnd, MeaningMembers;
    NoMembersMeaning(strtod);
  }

  lemma NoMembersMeaning(strtod: bytes -> Extended)
    ensures MeaningMembers([], [], strtod) == []
  {
  }

  lemma {:induction false} MembersMeaningFrom(fields: seq<Field>, ms: seq<Member>, m: Member, strtod: bytes -> Extended)
    ensures MeaningMembers(fields, ms + [m], strtod)
         == Put(MeaningMembers(fields, ms, strtod), StringMeaning(m.key), Meaning(m.elem.value, strtod))
    decreases |ms|
  {
    hide Meaning, StringMeaning, Put;
    if ms == [] {
      assert ms + [m] == [m] && [m][1..] == [];
      var f := Put(fields, StringMeaning(m.key), Meaning(m.elem.value, strtod));
      assert MeaningMembers(f, [], strtod) == f;
    } else {
      assert (ms + [m])[1..] == ms[1..] + [m];
      MembersMeaningFrom(Put(fields, StringMeaning(ms[0].key), Meaning(ms[0].elem.value, strtod)), ms[1..], m, strtod);
    }
  }

  lemma MembersMeaningSnoc(ms: seq<Member>, m: Member, strtod: bytes -> Extended)
    ensures MeaningMembers([], ms + [m], strtod)
         == Put(MeaningMembers([], ms, strtod), StringMeaning(m.key), Meaning(m.elem.value, strtod))
  {
    MembersMeaningFrom([], ms, m, strtod);
  }

  lemma MembersStep(t: bytes, i: nat, depth: nat, comments: bool)
    requires i <= |t| && depth <= MAX_DEPTH
    ensures match ReadMember(t, i, depth, comments)
            case None => ReadMembers(t, i, depth, comments) == None
            case Some((m, g)) =>
              if At(t, g) == 0x7D then ReadMembers(t, i, depth, comments) == Some(([m], g + 1))
              else if At(t, g) != COMMA then ReadMembers(t, i, depth, comments) == None
              else ReadMembers(t, i, depth, comments) == Prepend([m], ReadMembers(t, g + 1, depth, comments))
  {
    hide ReadMember;
  }

  lemma MembersNeedGarbage(t: bytes, i: nat, depth: nat, comments: bool)
    requires i <= |t| && depth <= MAX_DEPTH
    ensures GarbageEnd(t, i, comments) in {None, Some(|t|)} ==> ReadMembers(t, i, depth, comments) == None
  {
  }

  // ---------------------------------------------------------------- what the array loop relies on

  /** At the end of the text, or where garbage never ends, there is no value. */
  lemma EndReadsNothing(t: bytes, depth: nat, comments: bool)
    ensures forall i :: 0 <= i <= |t| && GarbageEnd(t, i, comments) in {None, Some(|t|)} ==>
              ReadValue(t, i, depth, comments) == None
  {
  }

  lemma ArrayReads(t: bytes, i: nat, depth: nat, comments: bool, strtod: bytes -> Extended)
    requires i < |t| && t[i] == 0x5B && depth <= MAX_DEPTH
    ensures match GarbageEnd(t, i + 1, comments)
            case None => ReadBare(t, i, depth, comments) == None
            case Some(g) =>
              if At(t, g) == 0x5D then
                && ReadBare(t, i, depth, comments) == Some((CArr(t[i + 1..g], []), g + 1))
                && Meaning(CArr(t[i + 1..g], []), strtod) == Arr([])
              else
                match ReadItems(t, i + 1, depth, comments)
                case None => ReadBare(t, i, depth, comments) == None
                case Some((es, j)) =>
                  && ReadBare(t, i, depth, comments) == Some((CArr([], es), j))
                  && Meaning(CArr([], es), strtod) == Arr(MeaningItems(es, strtod))
  {
  }

  lemma EndOfTextIsNoToken(t: bytes)
    ensures At(t, |t|) == 0
  {
  }

  lemma NoItemsMeaning(strtod: bytes -> Extended)
    ensures MeaningItems([], strtod) == []
  {
  }

  lemma {:induction false} ItemsMeaningSnoc(es: seq<Elem>, e: Elem, strtod: bytes -> Extended)
    ensures MeaningItems(es + [e], strtod) == MeaningItems(es, strtod) + [Meaning(e.value, strtod)]
  {
    hide Meaning;
    if es == [] {
      assert es + [e] == [e] && [e][1..] == [];
    } else {
      assert (es + [e])[1..] == es[1..] + [e];
      ItemsMeaningSnoc(es[1..], e, strtod);
    }
  }

  lemma ItemsStep(t: bytes, i: nat, depth: nat, comments: bool)
    requires i <= |t| && depth <= MAX_DEPTH
    ensures match ReadValue(t, i, depth + 1, comments)
            case None => ReadItems(t, i, depth, comments) == None
            case Some((w, c, j)) =>
              match GarbageEnd(t, j, comments)
              case None => ReadItems(t, i, depth, comments) == None
              case Some(g) =>
                var e := Elem(w, c, t[j..g]);
                if At(t, g) == 0x5D then ReadItems(t, i, depth, comments) == Some(([e], g + 1))
                else if At(t, g) != COMMA then ReadItems(t, i, depth, comments) == None
                else ReadItems(t, i, depth, comments) == Prepend([e], ReadItems(t, g + 1, depth, comments))
  {
    hide ReadValue, GarbageEnd;
  }

  lemma ItemsNeedGarbage(t: bytes, i: nat, depth: nat, comments: bool)
    requires i <= |t| && depth <= MAX_DEPTH
    ensures GarbageEnd(t, i, comments) in {None, Some(|t|)} ==> ReadItems(t, i, depth, comments) == None
  {
  }

  /** Reading a value from behind the garbage in front of it reads the same value. */
  lemma ValueSkipsGarbage(t: bytes, i: nat, g: nat, depth: nat, comments: bool)
    requires i <= |t| && GarbageEnd(t, i, comments) == Some(g)
    ensures match ReadValue(t, i, depth, comments)
            case None => ReadValue(t, g, depth, comments) == None
            case Some((_, c, j)) => ReadValue(t, g, depth, comments) == Some(([], c, j))
  {
    hide ReadBare, GarbageEnd;
    GarbageAgain(t, i, comments);
    assert t[g..g] == [];
  }

  /** An integer literal that the parser takes for an int means that int. */
  lemma PlainInteger(t: bytes, i: nat, a: nat, b: nat, strtod: bytes -> Extended)
    requires i <= a <= |t| && a == (if At(t, i) == 0x2D then i + 1 else i) && WholeEnd(t, a) == Some(b)
    requires At(t, b) != 0x2E && !IsE(At(t, b)) && b - i <= DIGITS10
    ensures i < |t| && a <= b <= |t| && ReadNumber(t, i).Some? && ReadNumber(t, i).v.1 == b
    ensures NumMeaning(ReadNumber(t, i).v.0, strtod)
         == Int(if t[i] == 0x2D then -DecimalValue(t[a..b]) else DecimalValue(t[a..b]))
  {
  }

  /** Any other number means what `strtod` makes of exactly its text. */
  lemma OtherNumber(t: bytes, i: nat, b: nat, strtod: bytes -> Extended)
    requires i <= |t| && ReadNumber(t, i).Some?
    requires WholeEnd(t, if At(t, i) == 0x2D then i + 1 else i) == Some(b) && b <= |t|
    requires At(t, b) == 0x2E || IsE(At(t, b)) || b - i > DIGITS10
    ensures var (n, d) := ReadNumber(t, i).v;
            NumMeaning(n, strtod) == Double(strtod(t[i..d]))
  {
    hide WholeEnd, RenderNum, DigitsEnd;
    NumberSound(t, i);
    var (n, d) := ReadNumber(t, i).v;
    SliceIs(t, i, RenderNum(n));
    FractionOrExponent(t, b);
  }

  lemma FractionOrExponent(t: bytes, b: nat)
    requires b <= |t| && FracEnd(t, b).Some? && ExpEnd(t, FracEnd(t, b).v).Some?
    ensures At(t, b) == 0x2E ==> FracEnd(t, b).v >= b + 2
    ensures At(t, b) != 0x2E ==> FracEnd(t, b).v == b
    ensures IsE(At(t, FracEnd(t, b).v)) ==> ExpEnd(t, FracEnd(t, b).v).v > FracEnd(t, b).v
  {
  }

  /** `xs` has been read before what `r` says is read next. */
  ghost function Prepend<T>(xs: seq<T>, r: Option<(seq<T>, nat)>): Option<(seq<T>, nat)> {
    match r
    case None => None
    case Some((ys, j)) => Some((xs + ys, j))
  }

  lemma PrependNothing<T>(r: Option<(seq<T>, nat)>)
    ensures Prepend([], r) == r
  {
    if r.Some? { assert [] + r.v.0 == r.v.0; }
  }

  lemma PrependMore<T>(xs: seq<T>, x: T, r: Option<(seq<T>, nat)>)
    ensures Prepend(xs, Prepend([x], r)) == Prepend(xs + [x], r)
  {
    if r.Some? { assert xs + ([x] + r.v.0) == xs + [x] + r.v.0; }
  }

  lemma PrependEnd<T>(xs: seq<T>, j: nat)
    ensures Prepend(xs, Some(([], j))) == Some((xs, j))
  {
    assert xs + [] == xs;
  }

  /** With the characters before `at` read, what the one at `at` does. */
  lemma OneMore(t: bytes, start: nat, at: nat, done: seq<Chr>)
    requires start <= |t| && at <= |t| && ReadString(t, start) == Prepend(done, ReadString(t, at))
    ensures at == |t| ==> ReadString(t, start) == None
    ensures at < |t| && t[at] == QUOTE ==> ReadString(t, start) == Some((done, at + 1))
    ensures at < |t| && t[at] != QUOTE ==>
              var r := ReadChr(t, at);
              ReadString(t, start) == if r == None then None else Prepend(done + [r.v.0], ReadString(t, r.v.1))
  {
    hide ReadString, ReadChr;
    ReadStringStep(t, at);
    PrependEnd(done, at + 1);
    if at < |t| && t[at] != QUOTE && ReadChr(t, at).Some? {
      PrependMore(done, ReadChr(t, at).v.0, ReadString(t, ReadChr(t, at).v.1));
    }
  }

  lemma ReadStringStep(t: bytes, i: nat)
    requires i <= |t|
    ensures i == |t| ==> ReadString(t, i) == None
    ensures i < |t| && t[i] == QUOTE ==> ReadString(t, i) == Some(([], i + 1))
    ensures i < |t| && t[i] != QUOTE ==>
              ReadString(t, i) == match ReadChr(t, i)
                                  case None => None
                                  case Some((c, j)) => Prepend([c], ReadString(t, j))
  {
  }

  lemma ReadChrIs(t: bytes, i: nat)
    requires i < |t| && t[i] != QUOTE
    ensures t[i] < 0x20 ==> ReadChr(t, i) == None
    ensures t[i] >= 0x20 && t[i] != BACKSLASH ==> ReadChr(t, i) == Some((Raw(t[i]), i + 1))
    ensures t[i] == BACKSLASH && i + 1 == |t| ==> ReadChr(t, i) == None
    ensures t[i] == BACKSLASH && i + 1 < |t| && t[i + 1] != 0x75 ==>
              ReadChr(t, i) == if IsEscape(t[i + 1]) then Some((Esc(t[i + 1]), i + 2)) else None
  {
  }

  lemma UnicodeIs(t: bytes, i: nat, hex: bytes, ok: bool)
    requires i + 1 < |t| && t[i] == BACKSLASH && t[i + 1] == 0x75
    requires hex == t[i + 2..if i + 6 <= |t| then i + 6 else |t|]
    requires ok <==> |hex| == 4 && forall k :: 0 <= k < 4 ==> IsHex(hex[k])
    ensures ReadChr(t, i) == if ok then Some((Uni(hex), i + 6)) else None
  {
  }

  lemma GarbageAfterWs(t: bytes, i: nat)
    requires i <= |t|
    ensures GarbageEnd(t, WsEnd(t, i), true) == GarbageEnd(t, i, true)
  {
    WsAgain(t, i);
  }

  // ---------------------------------------------------------------- Json::parse

  /** `Json::parse`; `err` stays as it was exactly if the parse succeeds. */
  method Parse(input: bytes, comments: bool, strtod: bytes -> Extended) returns (result: Json, err: Error)
    ensures match ReadDocument(input, comments)
            case None => err != NoError && result == Null
            case Some(e) => err == NoError && result == Meaning(e.value, strtod)
    ensures err == NoError <==> exists e :: Derives(e, input, comments)
    ensures forall e :: Derives(e, input, comments) ==> result == Meaning(e.value, strtod)
  {
    hide ReadValue, GarbageEnd, Meaning, Derives;
    ReadsExactlyTheGrammar(input, comments);
    var parser := new Parser(input, comments, strtod, NoError);
    result := parser.ParseJson(0);
    parser.ConsumeGarbage();
    if parser.failed { return Null, parser.err; }
    if parser.i != |input| {
      parser.Fail(TrailingText);
      return Null, parser.err;
    }
    err := parser.err;
  }

  /** `values` are what the complete entries of `cs` mean; an entry that failed may be anything. */
  ghost predicate Mean(values: seq<Json>, cs: seq<Option<Cst>>, strtod: bytes -> Extended) {
    |values| == |cs| && forall k :: 0 <= k < |cs| && cs[k].Some? ==> values[k] == Meaning(cs[k].v, strtod)
  }

  /** `values` are what the documents `es` mean, in order. */
  ghost predicate MeanMany(values: seq<Json>, es: seq<Elem>, strtod: bytes -> Extended) {
    |values| == |es| && forall k :: 0 <= k < |es| ==> values[k] == Meaning(es[k].value, strtod)
  }

  /** What the reader finds in several documents is what they mean. */
  lemma ManyMean(t: bytes, comments: bool, strtod: bytes -> Extended)
    ensures ReadMany(t, 0, 0, comments).2 <==> exists es :: DerivesMany(es, t, comments)
    ensures forall es, values :: DerivesMany(es, t, comments) && Mean(values, ReadMany(t, 0, 0, comments).0, strtod) ==>
              MeanMany(values, es, strtod) && ReadMany(t, 0, 0, comments).1 == |t|
  {
    hide ReadMany, DerivesMany, Meaning;
    ReadsManyDocuments(t, comments);
    forall es, values | DerivesMany(es, t, comments) && Mean(values, ReadMany(t, 0, 0, comments).0, strtod)
      ensures MeanMany(values, es, strtod) && ReadMany(t, 0, 0, comments).1 == |t|
    {
      TreesAt(es);
    }
  }

  /** `Json::parse_multi`: values one after the other until the text or the grammar runs out. */
  method ParseMulti(input: bytes, comments: bool, strtod: bytes -> Extended)
      returns (values: seq<Json>, stopPos: nat, err: Error)
    ensures var (cs, stop, ok) := ReadMany(input, 0, 0, comments);
            Mean(values, cs, strtod) && stopPos == stop && (err == NoError <==> ok)
    ensures err == NoError <==> exists es :: DerivesMany(es, input, comments)
    ensures forall es :: DerivesMany(es, input, comments) ==> MeanMany(values, es, strtod) && stopPos == |input|
  {
    hide ReadValue, GarbageEnd, Meaning, ReadMany, DerivesMany, MeanMany;
    ManyMean(input, comments, strtod);
    var parser := new Parser(input, comments, strtod, NoError);
    stopPos := 0;
    values := [];
    ghost var done: seq<Option<Cst>> := [];
    ManyNothing(ReadMany(input, 0, 0, comments));
    while parser.i != |input| && !parser.failed
      invariant parser.Valid() && parser.str == input && parser.comments == comments && parser.strtod == strtod
      invariant !parser.failed && parser.err == NoError && fresh(parser)
      invariant Mean(values, done, strtod)
      invariant ReadMany(input, 0, 0, comments) == ManyBefore(done, ReadMany(input, parser.i, stopPos, comments))
      decreases |input| - parser.i
    {
      ManyStep(input, parser.i, stopPos, comments, done);
      ghost var at := parser.i;
      var value := parser.ParseJson(0);
      values := values + [value];
      if parser.failed { return values, stopPos, parser.err; }
      done := done + [Some(ReadValue(input, at, 0, comments).v.1)];
      parser.ConsumeGarbage();
      if parser.failed { return values, stopPos, parser.err; }
      stopPos := parser.i;
    }
    ManyEnds(input, stopPos, comments, done);
    err := parser.err;
  }

  ghost function ManyBefore(done: seq<Option<Cst>>, r: (seq<Option<Cst>>, nat, bool)): (seq<Option<Cst>>, nat, bool) {
    (done + r.0, r.1, r.2)
  }

  lemma ManyNothing(r: (seq<Option<Cst>>, nat, bool))
    ensures ManyBefore([], r) == r
  {
    assert [] + r.0 == r.0;
  }

  lemma ManyEnds(t: bytes, stop: nat, comments: bool, done: seq<Option<Cst>>)
    ensures ManyBefore(done, ReadMany(t, |t|, stop, comments)) == (done, stop, true)
  {
    assert done + [] == done;
  }

  lemma ManyStep(t: bytes, i: nat, stop: nat, comments: bool, done: seq<Option<Cst>>)
    requires i < |t|
    ensures ReadValue(t, i, 0, comments) == None ==>
              ManyBefore(done, ReadMany(t, i, stop, comments)) == (done + [None], stop, false)
    ensures ReadValue(t, i, 0, comments).Some? ==>
              var v := ReadValue(t, i, 0, comments).v;
              var g := GarbageEnd(t, v.2, comments);
              var all := done + [Some(v.1)];
              ManyBefore(done, ReadMany(t, i, stop, comments))
              == if g == None then (all, stop, false) else ManyBefore(all, ReadMany(t, g.v, g.v, comments))
  {
    hide ReadValue, GarbageEnd;
    if ReadValue(t, i, 0, comments).Some? {
      var v := ReadValue(t, i, 0, comments).v;
      var g := GarbageEnd(t, v.2, comments);
      if g.Some? {
        var rest := ReadMany(t, g.v, g.v, comments).0;
        assert done + ([Some(v.1)] + rest) == done + [Some(v.1)] + rest;
      }
    }
  }
}
