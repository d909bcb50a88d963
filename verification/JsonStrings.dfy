/**
 The one-pass string decoder of json11 keeps at most one escaped code point waiting for its
 partner. Here: what it has put out, and what it is waiting with, always add up to the two-step
 meaning of RFC 8259, section 7.
 */
module JsonStrings {
  import opened Bytes
  import opened JsonGrammar
  import opened Utf8Validator

  /** `encode_utf8`: shifts and masks as quotients and remainders; a negative argument means nothing waits. */
  function EncodeCodePoint(pt: int): (r: bytes)
    requires pt <= 0x10FFFF
    ensures r == if pt < 0 then [] else Encode(pt)
  {
    ShiftTwelve(pt);
    if pt < 0 then []
    else if pt < 0x80 then [pt]
    else if pt < 0x800 then [pt / 0x40 + 0xC0, pt % 0x40 + 0x80]
    else if pt < 0x10000 then [pt / 0x1000 + 0xE0, pt / 0x40 % 0x40 + 0x80, pt % 0x40 + 0x80]
    else [pt / 0x40000 + 0xF0, pt / 0x1000 % 0x40 + 0x80, pt / 0x40 % 0x40 + 0x80, pt % 0x40 + 0x80]
  }

  lemma ShiftTwelve(pt: int)
    ensures pt / 0x1000 == pt / 64 / 64 && pt / 0x40000 == pt / 64 / 64 / 64
  {
  }

  /** What comes out when `p` is waiting (negative: nothing is) and the units `us` are still to come. */
  function Waiting(p: int, us: seq<Unit>): bytes
    requires p < 0x10000
  {
    if p < 0 then Encoded(us) else Encoded([Code(p)] + us)
  }

  /** The characters `done` have been dealt with: `out` is out, `p` waits. */
  ghost predicate Progress(done: seq<Chr>, out: bytes, p: int)
    requires p < 0x10000
  {
    forall us: seq<Unit> :: Encoded(UnitsOf(done) + us) == out + Waiting(p, us)
  }

  lemma Nothing()
    ensures Progress([], [], -1)
  {
    forall us: seq<Unit> ensures Encoded(UnitsOf([]) + us) == [] + Waiting(-1, us) {
      assert UnitsOf([]) + us == us;
    }
  }

  lemma {:induction false} UnitsSnoc(done: seq<Chr>, c: Chr)
    ensures UnitsOf(done + [c]) == UnitsOf(done) + [UnitOf(c)]
  {
    if done == [] {
      assert done + [c] == [c] && [c][1..] == [];
    } else {
      assert (done + [c])[1..] == done[1..] + [c];
      UnitsSnoc(done[1..], c);
    }
  }

  /** A unit that is a plain byte flushes what waits. */
  lemma WaitingByte(p: int, b: byte, us: seq<Unit>)
    requires p < 0x10000
    ensures Waiting(p, [Byte(b)] + us) == EncodeCodePoint(p) + [b] + Waiting(-1, us)
  {
    var rest := [Byte(b)] + us;
    assert rest[1..] == us;
    if p >= 0 {
      var all := [Code(p)] + rest;
      assert all[1..] == rest && all[1] == Byte(b);
      assert Encoded(all) == Encode(p) + Encoded(rest);
    }
  }

  /** An escape pairs up with a high surrogate that waits, or takes its place. */
  lemma WaitingCode(p: int, u: code, us: seq<Unit>)
    requires p < 0x10000
    ensures Waiting(p, [Code(u)] + us)
         == if IsHigh(p) && IsLow(u) then Encode(PairOf(p, u)) + Waiting(-1, us)
            else EncodeCodePoint(p) + Waiting(u, us)
  {
    var rest := [Code(u)] + us;
    if p >= 0 {
      var all := [Code(p)] + rest;
      assert all[1..] == rest && all[1] == Code(u) && all[2..] == us;
      if IsHigh(p) && IsLow(u) {
        assert Encoded(all) == Encode(PairOf(p, u)) + Encoded(us);
      } else {
        assert Encoded(all) == Encode(p) + Encoded(rest);
      }
    }
  }

  lemma Instance(done: seq<Chr>, out: bytes, p: int, us: seq<Unit>)
    requires p < 0x10000 && Progress(done, out, p)
    ensures Encoded(UnitsOf(done) + us) == out + Waiting(p, us)
  {
  }

  lemma ByteProgress(done: seq<Chr>, out: bytes, p: int, c: Chr)
    requires p < 0x10000 && Progress(done, out, p) && UnitOf(c).Byte?
    ensures Progress(done + [c], out + EncodeCodePoint(p) + [UnitOf(c).b], -1)
  {
    hide Encoded, Waiting, UnitsOf, EncodeCodePoint, UnitOf;
    UnitsSnoc(done, c);
    var b := UnitOf(c).b;
    var out' := out + EncodeCodePoint(p) + [b];
    forall us: seq<Unit> ensures Encoded(UnitsOf(done + [c]) + us) == out' + Waiting(-1, us) {
      assert UnitsOf(done) + [Byte(b)] + us == UnitsOf(done) + ([Byte(b)] + us);
      Instance(done, out, p, [Byte(b)] + us);
      WaitingByte(p, b, us);
      assert out + (EncodeCodePoint(p) + [b] + Waiting(-1, us)) == out' + Waiting(-1, us);
    }
  }

  lemma CodeProgress(done: seq<Chr>, out: bytes, p: int, c: Chr)
    requires p < 0x10000 && Progress(done, out, p) && UnitOf(c).Code?
    ensures var u := UnitOf(c).u;
            if IsHigh(p) && IsLow(u) then Progress(done + [c], out + EncodeCodePoint(PairOf(p, u)), -1)
            else Progress(done + [c], out + EncodeCodePoint(p), u)
  {
    hide Encoded, Waiting, UnitsOf, UnitOf, EncodeCodePoint;
    UnitsSnoc(done, c);
    var u := UnitOf(c).u;
    var pair := IsHigh(p) && IsLow(u);
    var more := if pair then EncodeCodePoint(PairOf(p, u)) else EncodeCodePoint(p);
    var p' := if pair then -1 else u;
    forall us: seq<Unit> ensures Encoded(UnitsOf(done + [c]) + us) == out + more + Waiting(p', us) {
      assert UnitsOf(done) + [Code(u)] + us == UnitsOf(done) + ([Code(u)] + us);
      Instance(done, out, p, [Code(u)] + us);
      WaitingCode(p, u, us);
      assert out + (more + Waiting(p', us)) == out + more + Waiting(p', us);
    }
  }

  /** At the closing quote, flushing what waits completes the meaning of the string. */
  lemma ProgressEnds(done: seq<Chr>, out: bytes, p: int)
    requires p < 0x10000 && Progress(done, out, p)
    ensures StringMeaning(done) == out + EncodeCodePoint(p)
  {
    assert UnitsOf(done) + [] == UnitsOf(done);
    assert Encoded(UnitsOf(done) + []) == out + Waiting(p, []);
    if p >= 0 {
      assert [Code(p)] + [] == [Code(p)] && [Code(p)][1..] == [];
      assert Encoded([Code(p)]) == Encode(p) + [];
    }
  }
}
