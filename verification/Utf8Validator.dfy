/**
 The table-driven UTF-8 validator of websocketpp, against RFC 3629: a byte string is accepted
 exactly when it is a concatenation of the encodings of Unicode scalar values, and whenever the
 machine is back in its accepting state, the code point it holds is the scalar just read.
 */
module Utf8Validator {
  import opened Bytes

  // ---------------------------------------------------------------- the table

  const ACCEPT: nat := 0
  const REJECT: nat := 1

  /** The lookup table, in rows of sixteen: byte classes, then one row for each state. */
  function TableRow(row: nat): (r: seq<nat>)
    requires row < 25
    ensures |r| == 16
  {
    match row
    case 0 | 1 | 2 | 3 | 4 | 5 | 6 | 7 => [0,0,0,0,0,0,0,0,0,0,0,0,0,0,0,0]
    case 8 => [1,1,1,1,1,1,1,1,1,1,1,1,1,1,1,1]
    case 9 => [9,9,9,9,9,9,9,9,9,9,9,9,9,9,9,9]
    case 10 | 11 => [7,7,7,7,7,7,7,7,7,7,7,7,7,7,7,7]
    case 12 => [8,8,2,2,2,2,2,2,2,2,2,2,2,2,2,2]
    case 13 => [2,2,2,2,2,2,2,2,2,2,2,2,2,2,2,2]
    case 14 => [0xa,0x3,0x3,0x3,0x3,0x3,0x3,0x3,0x3,0x3,0x3,0x3,0x3,0x4,0x3,0x3]
    case 15 => [0xb,0x6,0x6,0x6,0x5,0x8,0x8,0x8,0x8,0x8,0x8,0x8,0x8,0x8,0x8,0x8]
    case 16 => [0x0,0x1,0x2,0x3,0x5,0x8,0x7,0x1,0x1,0x1,0x4,0x6,0x1,0x1,0x1,0x1]
    case 17 => [1,1,1,1,1,1,1,1,1,1,1,1,1,1,1,1]
    case 18 => [1,0,1,1,1,1,1,0,1,0,1,1,1,1,1,1]
    case 19 => [1,2,1,1,1,1,1,2,1,2,1,1,1,1,1,1]
    case 20 => [1,1,1,1,1,1,1,2,1,1,1,1,1,1,1,1]
    case 21 => [1,2,1,1,1,1,1,1,1,2,1,1,1,1,1,1]
    case 22 => [1,1,1,1,1,1,1,3,1,3,1,1,1,1,1,1]
    case 23 => [1,3,1,1,1,1,1,3,1,3,1,1,1,1,1,1]
    case 24 => [1,3,1,1,1,1,1,1,1,1,1,1,1,1,1,1]
  }

  /** `utf8d[i]` */
  function Utf8d(i: nat): nat
    requires i < 400
  {
    TableRow(i / 16)[i % 16]
  }

  /** What the table says about bytes, range by range. */
  function ClassOf(b: byte): (c: nat)
    ensures c < 12
  {
    if b < 0x80 then 0
    else if b < 0x90 then 1
    else if b < 0xa0 then 9
    else if b < 0xc0 then 7
    else if b < 0xc2 then 8
    else if b < 0xe0 then 2
    else if b == 0xe0 then 10
    else if b == 0xed then 4
    else if b < 0xf0 then 3
    else if b == 0xf0 then 11
    else if b < 0xf4 then 6
    else if b == 0xf4 then 5
    else 8
  }

  lemma ClassTable(b: byte)
    ensures Utf8d(b) == ClassOf(b)
  {
    assert b == b / 16 * 16 + b % 16;
    RowOfClasses(b / 16, b % 16);
  }

  lemma RowOfClasses(row: nat, col: nat)
    requires row < 16 && col < 16
    ensures TableRow(row)[col] == ClassOf(16 * row + col)
  {
    match row
    case 8 => case 9 => case 10 => case 11 => case 12 => case 13 => case 14 => case 15 =>
    case _ => assert TableRow(row) == [0,0,0,0,0,0,0,0,0,0,0,0,0,0,0,0];
  }

  /** The state a byte of class `c` leads to. */
  function NextState(state: nat, c: nat): (r: nat)
    requires state < 9 && c < 12
    ensures r < 9
  {
    var continues := c == 1 || c == 7 || c == 9;
    match state
    case 0 =>
      if c == 0 then 0 else if c == 2 then 2 else if c == 3 then 3 else if c == 4 then 5
      else if c == 5 then 8 else if c == 6 then 7 else if c == 10 then 4 else if c == 11 then 6 else REJECT
    case 2 => if continues then ACCEPT else REJECT
    case 3 => if continues then 2 else REJECT
    case 4 => if c == 7 then 2 else REJECT
    case 5 => if c == 1 || c == 9 then 2 else REJECT
    case 6 => if c == 7 || c == 9 then 3 else REJECT
    case 7 => if continues then 3 else REJECT
    case 8 => if c == 1 then 3 else REJECT
    case _ => REJECT
  }

  lemma StateTable(state: nat, c: nat)
    requires state < 9 && c < 12
    ensures Utf8d(256 + state * 16 + c) == NextState(state, c)
  {
    assert (256 + state * 16 + c) / 16 == 16 + state && (256 + state * 16 + c) % 16 == c;
  }

  // ---------------------------------------------------------------- the machine

  datatype Dfa = Dfa(state: nat, codepoint: nat)

  const START := Dfa(ACCEPT, 0)

  /** `(0xff >> type) & byte` */
  function LeadBits(b: byte, typ: nat): nat {
    match typ
    case 0 => b
    case 1 => b % 128
    case 2 => b % 64
    case 3 => b % 32
    case 4 => b % 16
    case 5 => b % 8
    case 6 => b % 4
    case 7 => b % 2
    case _ => 0
  }

  /** `decode`: one byte, with the code point kept in 32 bits. */
  function Decode(d: Dfa, b: byte): (r: Dfa)
    requires d.state < 9
    ensures r.state < 9
  {
    ClassTable(b);
    StateTable(d.state, ClassOf(b));
    var typ := Utf8d(b);
    var codepoint := if d.state != ACCEPT then b % 64 + d.codepoint * 64 % 0x1_0000_0000 else LeadBits(b, typ);
    Dfa(Utf8d(256 + d.state * 16 + typ), codepoint)
  }

  function Run(d: Dfa, s: bytes): (r: Dfa)
    requires d.state < 9
    ensures r.state < 9
    decreases |s|
  {
    if s == [] then d else Run(Decode(d, s[0]), s[1..])
  }

  lemma DecodeIs(d: Dfa, b: byte)
    requires d.state < 9
    ensures Decode(d, b).state == NextState(d.state, ClassOf(b))
    ensures d.state == ACCEPT ==> Decode(d, b).codepoint == LeadBits(b, ClassOf(b))
    ensures d.state != ACCEPT && d.codepoint < 0x400_0000 ==> Decode(d, b).codepoint == b % 64 + d.codepoint * 64
  {
    hide Utf8d, TableRow;
    ClassTable(b);
    StateTable(d.state, ClassOf(b));
  }

  lemma {:induction false} RunConcat(d: Dfa, a: bytes, b: bytes)
    requires d.state < 9
    ensures Run(d, a + b) == Run(Run(d, a), b)
    decreases |a|
  {
    if a == [] {
      assert a + b == b;
    } else {
      assert (a + b)[1..] == a[1..] + b;
      RunConcat(Decode(d, a[0]), a[1..], b);
    }
  }

  /** Reject is absorbing. */
  lemma {:induction false} RejectStays(d: Dfa, s: bytes)
    requires d.state == REJECT
    ensures Run(d, s).state == REJECT
    decreases |s|
  {
    if s != [] {
      DecodeIs(d, s[0]);
      RejectStays(Decode(d, s[0]), s[1..]);
    }
  }

  // ---------------------------------------------------------------- RFC 3629

  predicate IsScalar(cp: int) {
    0 <= cp <= 0x10FFFF && !(0xD800 <= cp <= 0xDFFF)
  }

  /** Section 3 of RFC 3629: the one to four bytes of a code point below 0x110000. */
  function Encode(cp: nat): (r: bytes)
    requires cp <= 0x10FFFF
    ensures 1 <= |r| <= 4
  {
    if cp < 0x80 then [cp]
    else if cp < 0x800 then [0xC0 + cp / 64, 0x80 + cp % 64]
    else if cp < 0x10000 then [0xE0 + cp / 64 / 64, 0x80 + cp / 64 % 64, 0x80 + cp % 64]
    else [0xF0 + cp / 64 / 64 / 64, 0x80 + cp / 64 / 64 % 64, 0x80 + cp / 64 % 64, 0x80 + cp % 64]
  }

  ghost predicate Scalars(cps: seq<nat>) {
    forall i :: 0 <= i < |cps| ==> IsScalar(cps[i])
  }

  ghost function EncodeAll(cps: seq<nat>): bytes
    requires Scalars(cps)
  {
    if cps == [] then [] else Encode(cps[0]) + EncodeAll(cps[1..])
  }

  /** `s` is UTF-8: the encodings of some scalar values, one after the other. */
  ghost predicate IsUtf8(s: bytes) {
    exists cps: seq<nat> :: Scalars(cps) && EncodeAll(cps) == s
  }

  // ---------------------------------------------------------------- the machine reads UTF-8

  predicate IsContinuation(b: byte) {
    0x80 <= b < 0xC0
  }

  /** The well-formed byte sequences of section 4 of RFC 3629, by their first two bytes. */
  predicate Starts(n: nat, b0: byte, b1: byte) {
    && IsContinuation(b1)
    && match n
       case 2 => 0xC2 <= b0 < 0xE0
       case 3 => 0xE0 <= b0 < 0xF0 && (b0 == 0xE0 ==> b1 >= 0xA0) && (b0 == 0xED ==> b1 < 0xA0)
       case 4 => 0xF0 <= b0 < 0xF5 && (b0 == 0xF0 ==> b1 >= 0x90) && (b0 == 0xF4 ==> b1 < 0x90)
       case _ => false
  }

  lemma RunTwo(d: Dfa, b0: byte, b1: byte)
    requires d.state < 9
    ensures Run(d, [b0, b1]) == Decode(Decode(d, b0), b1)
  {
    var s := [b0, b1];
    assert s[1..] == [b1] && s[1..][1..] == [];
    assert Run(d, s) == Run(Decode(d, b0), s[1..]);
  }

  /** A continuation byte in a state that takes any of them. */
  lemma Continue(d: Dfa, b: byte)
    requires d.state in {2, 3, 7} && IsContinuation(b) && d.codepoint < 0x400_0000
    ensures Decode(d, b) == Dfa(match d.state case 2 => 0 case 3 => 2 case _ => 3, Extend(d.codepoint, b))
  {
    hide Decode;
    DecodeIs(d, b);
  }

  lemma OneByte(d: Dfa, b0: byte)
    requires d.state == ACCEPT && b0 < 0x80
    ensures Decode(d, b0) == Dfa(ACCEPT, b0)
  {
  }

  lemma TwoBytes(d: Dfa, b0: byte, b1: byte)
    requires d.state == ACCEPT && Starts(2, b0, b1)
    ensures Decode(Decode(d, b0), b1) == Dfa(ACCEPT, Extend(b0 as int - 0xC0, b1))
  {
    hide Decode;
    DecodeIs(d, b0);
    Continue(Decode(d, b0), b1);
  }

  lemma ThreeBytes(d: Dfa, b0: byte, b1: byte)
    requires d.state == ACCEPT && Starts(3, b0, b1)
    ensures Decode(Decode(d, b0), b1) == Dfa(2, Extend(b0 as int - 0xE0, b1))
  {
    hide Decode;
    DecodeIs(d, b0);
    DecodeIs(Decode(d, b0), b1);
  }

  lemma FourLead(d: Dfa, b0: byte)
    requires d.state == ACCEPT && 0xF0 <= b0 < 0xF5
    ensures Decode(d, b0) == Dfa(if b0 == 0xF0 then 6 else if b0 == 0xF4 then 8 else 7, b0 as int - 0xF0)
  {
    hide Decode;
    DecodeIs(d, b0);
  }

  lemma FourBytes(d: Dfa, b0: byte, b1: byte)
    requires d.state == ACCEPT && Starts(4, b0, b1)
    ensures Decode(Decode(d, b0), b1) == Dfa(3, Extend(b0 as int - 0xF0, b1))
  {
    hide Decode;
    FourLead(d, b0);
    DecodeIs(Decode(d, b0), b1);
  }

  /** The code point that a well-formed sequence of bytes stands for. */
  function Assemble(s: bytes): int
    requires 1 <= |s| <= 4
  {
    match |s|
    case 1 => s[0]
    case 2 => Extend(s[0] as int - 0xC0, s[1])
    case 3 => Extend(Extend(s[0] as int - 0xE0, s[1]), s[2])
    case _ => Extend(Extend(Extend(s[0] as int - 0xF0, s[1]), s[2]), s[3])
  }

  /** Six more bits from a continuation byte. */
  function Extend(cp: int, b: byte): int {
    cp * 64 + (b as int - 0x80)
  }

  predicate WellFormed(s: bytes) {
    match |s|
    case 1 => s[0] < 0x80
    case 2 => Starts(2, s[0], s[1])
    case 3 => Starts(3, s[0], s[1]) && IsContinuation(s[2])
    case 4 => Starts(4, s[0], s[1]) && IsContinuation(s[2]) && IsContinuation(s[3])
    case _ => false
  }

  lemma ExtendSplits(cp: nat, b: byte)
    requires IsContinuation(b)
    ensures Extend(cp, b) / 64 == cp && 0x80 + Extend(cp, b) % 64 == b
  {
  }

  lemma SplitExtends(cp: nat)
    ensures IsContinuation(0x80 + cp % 64) && Extend(cp / 64, 0x80 + cp % 64) == cp
  {
  }

  /** Sections 3 and 4 of RFC 3629 agree: the well-formed sequences are the encodings of the scalars. */
  lemma EncodingsAreWellFormed(cp: int)
    requires IsScalar(cp)
    ensures WellFormed(Encode(cp)) && Assemble(Encode(cp)) == cp
  {
    SplitExtends(cp);
    SplitExtends(cp / 64);
    SplitExtends(cp / 64 / 64);
    var s := Encode(cp);
    if 0x800 <= cp < 0x10000 {
      assert s[0] as int - 0xE0 == cp / 64 / 64;
    } else if 0x10000 <= cp {
      assert s[0] as int - 0xF0 == cp / 64 / 64 / 64;
    }
  }

  lemma WellFormedIsEncoding(s: bytes)
    requires WellFormed(s)
    ensures IsScalar(Assemble(s)) && Encode(Assemble(s)) == s
  {
    var cp := Assemble(s);
    if |s| == 2 {
      ExtendSplits(s[0] as int - 0xC0, s[1]);
    } else if |s| == 3 {
      var one := Extend(s[0] as int - 0xE0, s[1]);
      ExtendSplits(s[0] as int - 0xE0, s[1]);
      ExtendSplits(one, s[2]);
      assert cp / 64 == one && 0x800 <= cp < 0x10000;
    } else if |s| == 4 {
      var one := Extend(s[0] as int - 0xF0, s[1]);
      var two := Extend(one, s[2]);
      ExtendSplits(s[0] as int - 0xF0, s[1]);
      ExtendSplits(one, s[2]);
      ExtendSplits(two, s[3]);
      assert cp / 64 == two && two / 64 == one && 0x10000 <= cp < 0x110000;
    }
  }

  /** Reading one well-formed sequence from the accepting state ends there again, holding its scalar. */
  lemma RunWellFormed(d: Dfa, s: bytes)
    requires d.state == ACCEPT && WellFormed(s)
    ensures Run(d, s) == Dfa(ACCEPT, Assemble(s))
  {
    hide Decode;
    if |s| == 1 {
      OneByte(d, s[0]);
      assert Run(Decode(d, s[0]), s[1..]) == Decode(d, s[0]);
    } else {
      assert s[..2] == [s[0], s[1]] && s == s[..2] + s[2..];
      RunTwo(d, s[0], s[1]);
      RunConcat(d, s[..2], s[2..]);
      var d2 := Run(d, s[..2]);
      if |s| == 2 {
        TwoBytes(d, s[0], s[1]);
        assert s[2..] == [];
      } else if |s| == 3 {
        ThreeBytes(d, s[0], s[1]);
        Continue(d2, s[2]);
        assert s[2..] == [s[2]] && s[2..][1..] == [];
        assert Run(d2, s[2..]) == Run(Decode(d2, s[2]), []);
      } else {
        FourBytes(d, s[0], s[1]);
        Continue(d2, s[2]);
        Continue(Decode(d2, s[2]), s[3]);
        assert s[2..] == [s[2], s[3]];
        RunTwo(d2, s[2], s[3]);
      }
    }
  }

  // ---------------------------------------------------------------- and nothing else

  /** How many bytes the sequence that begins with `b0` must have; 0 if none begins with it. */
  function Length(b0: byte): nat {
    if b0 < 0x80 then 1
    else if 0xC2 <= b0 < 0xE0 then 2
    else if 0xE0 <= b0 < 0xF0 then 3
    else if 0xF0 <= b0 < 0xF5 then 4
    else 0
  }

  lemma StuckWithout(d: Dfa, s: bytes)
    requires d.state in {2, 3, 4, 5, 6, 7, 8} && Run(d, s).state == ACCEPT
    ensures s != [] && Decode(d, s[0]).state != REJECT && IsContinuation(s[0])
    ensures Decode(d, s[0]).state in {0, 2, 3} && Run(Decode(d, s[0]), s[1..]).state == ACCEPT
  {
    if s != [] {
      DecodeIs(d, s[0]);
      if Decode(d, s[0]).state == REJECT { RejectStays(Decode(d, s[0]), s[1..]); }
    }
  }

  /** If the machine accepts, its input begins with a well-formed sequence. */
  lemma AcceptedHead(d: Dfa, s: bytes)
    requires d.state == ACCEPT && s != [] && Run(d, s).state == ACCEPT
    ensures 1 <= Length(s[0]) <= |s| && WellFormed(s[..Length(s[0])])
  {
    hide Decode;
    DecodeIs(d, s[0]);
    var d1 := Decode(d, s[0]);
    if d1.state == REJECT { RejectStays(d1, s[1..]); }
    var n := Length(s[0]);
    if n >= 2 {
      StuckWithout(d1, s[1..]);
      DecodeIs(d1, s[1]);
      var d2 := Decode(d1, s[1]);
      assert s[1..][1..] == s[2..];
      if n >= 3 {
        StuckWithout(d2, s[2..]);
        DecodeIs(d2, s[2]);
        assert s[2..][1..] == s[3..];
        if n >= 4 {
          StuckWithout(Decode(d2, s[2]), s[3..]);
        }
      }
    }
  }

  lemma {:induction false} RunEncodings(d: Dfa, cps: seq<nat>)
    requires d.state == ACCEPT && Scalars(cps)
    ensures Run(d, EncodeAll(cps)) == if cps == [] then d else Dfa(ACCEPT, cps[|cps| - 1])
    decreases |cps|
  {
    if cps != [] {
      EncodingsAreWellFormed(cps[0]);
      RunWellFormed(d, Encode(cps[0]));
      RunConcat(d, Encode(cps[0]), EncodeAll(cps[1..]));
      RunEncodings(Dfa(ACCEPT, cps[0]), cps[1..]);
    }
  }

  lemma {:induction false} AcceptedIsUtf8(d: Dfa, s: bytes) returns (cps: seq<nat>)
    requires d.state == ACCEPT && Run(d, s).state == ACCEPT
    ensures Scalars(cps) && EncodeAll(cps) == s
    decreases |s|
  {
    hide Decode;
    if s == [] {
      cps := [];
    } else {
      AcceptedHead(d, s);
      var n := Length(s[0]);
      WellFormedIsEncoding(s[..n]);
      RunWellFormed(d, s[..n]);
      assert s == s[..n] + s[n..];
      RunConcat(d, s[..n], s[n..]);
      var rest := AcceptedIsUtf8(Run(d, s[..n]), s[n..]);
      cps := [Assemble(s[..n])] + rest;
      assert cps[1..] == rest;
    }
  }

  /** The machine accepts exactly the UTF-8 strings of RFC 3629. */
  lemma AcceptsExactlyUtf8(s: bytes)
    ensures Run(START, s).state == ACCEPT <==> IsUtf8(s)
  {
    if Run(START, s).state == ACCEPT {
      var cps := AcceptedIsUtf8(START, s);
    }
    if IsUtf8(s) {
      var cps: seq<nat> :| Scalars(cps) && EncodeAll(cps) == s;
      RunEncodings(START, cps);
    }
  }

  /**
   Each time the machine is back in its accepting state, what it has read so far is a sequence
   of encoded scalars, and the code point it holds is the last one of any such reading.
   */
  lemma CodepointIsLastScalar(s: bytes, i: nat, cps: seq<nat>)
    requires 0 < i <= |s| && Run(START, s[..i]).state == ACCEPT
    requires Scalars(cps) && EncodeAll(cps) == s[..i]
    ensures cps != [] && Run(START, s[..i]).codepoint == cps[|cps| - 1]
  {
    RunEncodings(START, cps);
  }

  // ---------------------------------------------------------------- the validator object

  lemma RunStep(d: Dfa, s: bytes, i: nat)
    requires d.state < 9 && i < |s|
    ensures Run(d, s[..i + 1]) == Decode(Run(d, s[..i]), s[i])
  {
    assert s[..i + 1] == s[..i] + [s[i]];
    RunConcat(d, s[..i], [s[i]]);
    RunOne(Run(d, s[..i]), s[i]);
  }

  lemma RejectedPrefix(d: Dfa, s: bytes, i: nat)
    requires d.state < 9 && i <= |s| && Run(d, s[..i]).state == REJECT
    ensures Run(d, s).state == REJECT
  {
    assert s == s[..i] + s[i..];
    RunConcat(d, s[..i], s[i..]);
    RejectStays(Run(d, s[..i]), s[i..]);
  }

  class Validator {
    var state: nat
    var codepoint: nat

    ghost predicate Valid()
      reads this
    {
      state < 9
    }

    ghost function Machine(): Dfa
      reads this
    {
      Dfa(state, codepoint)
    }

    constructor ()
      ensures Valid() && Machine() == START
    {
      state, codepoint := ACCEPT, 0;
    }

    /** `decode(&m_state, &m_codepoint, byte)` and its verdict on the byte. */
    method Consume(b: byte) returns (ok: bool)
      requires Valid()
      modifies this
      ensures Valid() && Machine() == Decode(old(Machine()), b)
      ensures ok <==> state != REJECT
    {
      var d := Decode(Dfa(state, codepoint), b);
      state, codepoint := d.state, d.codepoint;
      ok := state != REJECT;
    }

    /** Feeds a stretch of input, stopping at the first byte that is rejected. */
    method DecodeChunk(s: bytes) returns (ok: bool)
      requires Valid()
      modifies this
      ensures Valid() && (old(state) != REJECT ==> (ok <==> Run(old(Machine()), s).state != REJECT))
      ensures ok ==> Machine() == Run(old(Machine()), s)
      ensures !ok ==> state == REJECT
    {
      hide Decode;
      var i := 0;
      assert s[..0] == [];
      while i < |s|
        invariant i <= |s| && Valid() && Machine() == Run(old(Machine()), s[..i])
        invariant old(state) != REJECT ==> state != REJECT
      {
        RunStep(old(Machine()), s, i);
        ok := Consume(s[i]);
        if !ok {
          RejectedPrefix(old(Machine()), s, i + 1);
          return false;
        }
        i := i + 1;
      }
      assert s[..i] == s;
      ok := true;
    }

    /** Whether all that has been fed since the validator was new, or reset, is UTF-8. */
    method Complete() returns (ok: bool)
      ensures forall s :: Machine() == Run(START, s) ==> (ok <==> IsUtf8(s))
    {
      hide Decode, Run, IsUtf8;
      forall s | Machine() == Run(START, s) ensures state == ACCEPT <==> IsUtf8(s) {
        AcceptsExactlyUtf8(s);
      }
      ok := state == ACCEPT;
    }

    method Reset()
      modifies this
      ensures Valid() && Machine() == START
    {
      state, codepoint := ACCEPT, 0;
    }
  }

  lemma RunOne(d: Dfa, b: byte)
    requires d.state < 9
    ensures Run(d, [b]) == Decode(d, b)
  {
  }

  /** `validate` */
  method Validate(s: bytes) returns (valid: bool)
    ensures valid <==> IsUtf8(s)
  {
    AcceptsExactlyUtf8(s);
    var v := new Validator();
    var ok := v.DecodeChunk(s);
    if !ok { return false; }
    valid := v.Complete();
  }

  /** However a message is cut into pieces, feeding them one by one gives the verdict on the whole. */
  method ValidateInChunks(chunks: seq<bytes>) returns (valid: bool)
    ensures valid <==> IsUtf8(Concat(chunks))
  {
    AcceptsExactlyUtf8(Concat(chunks));
    var v := new Validator();
    hide Decode, Run, Concat, IsUtf8;
    NoChunks(chunks);
    for i := 0 to |chunks|
      invariant v.Valid() && v.state != REJECT && v.Machine() == Run(START, Concat(chunks[..i]))
    {
      ChunkStep(chunks, i);
      var ok := v.DecodeChunk(chunks[i]);
      if !ok { return false; }
    }
    assert chunks[..|chunks|] == chunks;
    valid := v.Complete();
  }

  lemma NoChunks(chunks: seq<bytes>)
    ensures Run(START, Concat(chunks[..0])) == START
  {
  }

  lemma ChunkStep(chunks: seq<bytes>, i: nat)
    requires i < |chunks|
    ensures Run(START, Concat(chunks[..i + 1])) == Run(Run(START, Concat(chunks[..i])), chunks[i])
    ensures Run(START, Concat(chunks[..i + 1])).state == REJECT ==> Run(START, Concat(chunks)).state == REJECT
  {
    hide Run, Decode, Concat;
    assert chunks[..i + 1] == chunks[..i] + [chunks[i]];
    ConcatSnoc(chunks[..i], chunks[i]);
    RunConcat(START, Concat(chunks[..i]), chunks[i]);
    ConcatSplit(chunks, i + 1);
    if Run(START, Concat(chunks[..i + 1])).state == REJECT {
      RunConcat(START, Concat(chunks[..i + 1]), Concat(chunks[i + 1..]));
      RejectStays(Run(START, Concat(chunks[..i + 1])), Concat(chunks[i + 1..]));
    }
  }
}
