/**
 The Douyu platform's wire format: packets of `key@=value/` pairs with a length in front, how the
 reader cuts the stream into packets, and how the pairs come out of them again.
 */
module Douyu {
  import opened Bytes
  import opened Buffers
  import opened Streams
  import opened Wire32

  const SLASH: byte := 0x2F
  const SIGN: byte := 0x40
  const EQUALS: byte := 0x3D

  type Pair = (bytes, bytes)

  // ---------------------------------------------------------------- packets

  /** One pair as text. */
  function PairText(p: Pair): bytes {
    p.0 + [SIGN, EQUALS] + p.1 + [SLASH]
  }

  function Text(ps: seq<Pair>): bytes {
    if ps == [] then [] else PairText(ps[0]) + Text(ps[1..])
  }

  /** The body behind the header: the text, up to its first NUL, and NULs in the place of the rest. */
  function Body(ps: seq<Pair>): (b: bytes)
    ensures |b| == |Text(ps)| + 1 && b[|b| - 1] == 0
  {
    CString(Text(ps)) + Filled<byte>(0, |Text(ps)| + 1 - |CString(Text(ps))|)
  }

  /** The length, which does not count itself, is there twice; then come the type 689 and two NULs. */
  function Packet(ps: seq<Pair>): bytes {
    Length(ps) + Length(ps) + [177, 2, 0, 0] + Body(ps)
  }

  function Length(ps: seq<Pair>): (s: bytes)
    ensures |s| == 4
  {
    Little((|Text(ps)| + 9) % LIMIT)
  }

  /** `make_stt` */
  method MakeStt(il: seq<Pair>) returns (packet: array<byte>)
    ensures fresh(packet) && packet[..] == Packet(il)
  {
    hide Text, Little, CString, Overwritten;
    var result := Join(il);
    packet := new byte[4 + 4 + 4 + |result| + 1](_ => 0);
    assert packet[..] == Filled<byte>(0, 12 + |result| + 1);
    var size := Little((packet.Length - 4) % LIMIT);
    FillHeader(packet, size);
    assert packet[12..] == Filled<byte>(0, |result| + 1);
    BodyIs(il, packet[..], packet[..12]);
    StrCpy(packet, 12, result);
  }

  /** The loop that appends the pairs to a string. */
  method Join(il: seq<Pair>) returns (result: bytes)
    ensures result == Text(il)
  {
    hide Text;
    result := [];
    assert il[0..] == il;
    for k := 0 to |il|
      invariant result + Text(il[k..]) == Text(il)
    {
      TextStep(result, il[k..]);
      assert il[k..][1..] == il[k + 1..];
      result := result + il[k].0;
      result := result + [SIGN, EQUALS];
      result := result + il[k].1;
      result := result + [SLASH];
    }
    TextEnds(result);
  }

  lemma TextStep(before: bytes, ps: seq<Pair>)
    requires ps != []
    ensures before + Text(ps) == before + ps[0].0 + [SIGN, EQUALS] + ps[0].1 + [SLASH] + Text(ps[1..])
  {
  }

  lemma TextEnds(before: bytes)
    ensures before + Text([]) == before
  {
  }

  method FillHeader(packet: array<byte>, size: bytes)
    requires packet.Length >= 12 && |size| == 4
    modifies packet
    ensures packet[..12] == size + size + [177, 2, 0, 0] && packet[12..] == old(packet[12..])
  {
    packet[0], packet[1], packet[2], packet[3] := size[0], size[1], size[2], size[3];
    packet[4], packet[5], packet[6], packet[7] := size[0], size[1], size[2], size[3];
    packet[8], packet[9], packet[10], packet[11] := 177, 2, 0, 0;
  }

  /** Copying the text over zeros makes the body. */
  lemma BodyIs(ps: seq<Pair>, packet: bytes, header: bytes)
    requires |header| == 12 && header == Length(ps) + Length(ps) + [177, 2, 0, 0]
    requires |packet| == 12 + |Text(ps)| + 1 && packet[..12] == header
    requires packet[12..] == Filled<byte>(0, |Text(ps)| + 1)
    ensures Overwritten(packet, 12, CString(Text(ps)) + [0]) == Packet(ps)
  {
    hide CString, Text, Length;
    var c := CString(Text(ps));
    assert packet[12 + |c| + 1..] == packet[12..][|c| + 1..] == Filled<byte>(0, |Text(ps)| - |c|);
    assert Body(ps) == c + [0] + Filled<byte>(0, |Text(ps)| - |c|);
  }

  /** `std::strcpy` into a buffer that has room for the NUL at the end. */
  method StrCpy(buf: array<byte>, at: nat, s: bytes)
    requires at + |s| < buf.Length
    modifies buf
    ensures buf[..] == Overwritten(old(buf[..]), at, CString(s) + [0])
  {
    hide CString, Overwritten;
    ghost var before := buf[..];
    OverwriteNothing(before, at);
    var k := 0;
    while k < |s| && s[k] != 0
      invariant k <= |CString(s)| && buf[..] == Overwritten(before, at, CString(s)[..k])
    {
      BeforeNul(s, k);
      OverwriteNext(before, at, CString(s)[..k], s[k]);
      ghost var was := buf[..];
      buf[at + k] := s[k];
      assert buf[..] == was[at + k := s[k]];
      k := k + 1;
    }
    AtNul(s, k);
    OverwriteNext(before, at, CString(s), 0);
    ghost var was := buf[..];
    buf[at + k] := 0;
    assert buf[..] == was[at + k := 0];
  }

  lemma BeforeNul(s: bytes, k: nat)
    requires k < |s| && s[k] != 0 && k <= |CString(s)|
    ensures k < |CString(s)| && CString(s)[k] == s[k] && CString(s)[..k + 1] == CString(s)[..k] + [s[k]]
  {
  }

  lemma AtNul(s: bytes, k: nat)
    requires k <= |CString(s)| && (k == |s| || s[k] == 0)
    ensures CString(s)[..k] == CString(s) && k == |CString(s)|
  {
  }

  // ---------------------------------------------------------------- pairs

  type Stt = map<bytes, bytes>

  /** Where the first slash is, or the end. */
  function Slash(s: bytes): (p: nat)
    ensures p <= |s| && SLASH !in s[..p] && (p < |s| ==> s[p] == SLASH)
  {
    if s == [] || s[0] == SLASH then 0 else 1 + Slash(s[1..])
  }

  /** What lies between slashes; empty pieces are dropped. */
  function Tokens(s: bytes): seq<bytes>
    decreases |s|
  {
    if s == [] then []
    else
      var p := Slash(s);
      (if p == 0 then [] else [s[..p]]) + (if p == |s| then [] else Tokens(s[p + 1..]))
  }

  /** `find("@=")` */
  function Sign(s: bytes): (p: Option<nat>)
    ensures p.Some? ==> p.v + 2 <= |s|
  {
    if |s| < 2 then None
    else if s[0] == SIGN && s[1] == EQUALS then Some(0)
    else
      match Sign(s[1..])
      case None => None
      case Some(p) => Some(p + 1)
  }

  /** Binds what a token says, if it says something, and if its key is not bound already. */
  function Insert(stt: Stt, token: bytes): Stt {
    match Sign(token)
    case None => stt
    case Some(p) => if token[..p] in stt then stt else stt[token[..p] := token[p + 2..]]
  }

  function Bindings(stt: Stt, tokens: seq<bytes>): Stt
    decreases |tokens|
  {
    if tokens == [] then stt else Bindings(Insert(stt, tokens[0]), tokens[1..])
  }

  /** `parse_stt`, on a buffer that holds a C string. */
  method ParseStt(msg: bytes) returns (stt: Stt)
    ensures stt == Bindings(map[], Tokens(CString(msg)))
  {
    var view := CString(msg);
    stt := map[];
    while view != []
      invariant Bindings(stt, Tokens(view)) == Bindings(map[], Tokens(CString(msg)))
      decreases |view|
    {
      var p := Slash(view);
      TokensStep(stt, view);
      if p > 0 { stt := Insert(stt, view[..p]); }
      view := if p == |view| then [] else view[p + 1..];
    }
  }

  lemma TokensStep(stt: Stt, s: bytes)
    requires s != []
    ensures var p := Slash(s);
            Bindings(stt, Tokens(s)) == Bindings(if p > 0 then Insert(stt, s[..p]) else stt,
                                                 Tokens(if p == |s| then [] else s[p + 1..]))
  {
    hide Insert, Slash;
    var p := Slash(s);
    var rest := Tokens(if p == |s| then [] else s[p + 1..]);
    TokensAre(s);
    if p > 0 { BindingsHead(stt, s[..p], rest); } else { assert [] + rest == rest; }
  }

  lemma TokensAre(s: bytes)
    requires s != []
    ensures var p := Slash(s);
            Tokens(s) == (if p > 0 then [s[..p]] else []) + Tokens(if p == |s| then [] else s[p + 1..])
  {
  }

  lemma BindingsHead(stt: Stt, token: bytes, rest: seq<bytes>)
    ensures Bindings(stt, [token] + rest) == Bindings(Insert(stt, token), rest)
  {
  }

  /** A text is split at its slashes; nothing between two of them is no token. */
  lemma TokensBetweenSlashes(a: bytes, b: bytes)
    requires '/' as int !in a
    ensures Tokens(a) == if a == [] then [] else [a]
    ensures Tokens(a + Letters("/") + b) == (if a == [] then [] else [a]) + Tokens(b)
  {
    assert Letters("/") == [SLASH];
    NoSlash(a);
    SlashAfter(a, b);
    var s := a + [SLASH] + b;
    assert s[..|a|] == a && s[|a| + 1..] == b && a[..|a|] == a;
    TokensAre(s);
    if a != [] { TokensAre(a); }
  }

  lemma {:induction false} NoSlash(a: bytes)
    requires SLASH !in a
    ensures Slash(a) == |a|
    decreases |a|
  {
    if a != [] { NoSlash(a[1..]); }
  }

  /** "@=" is found where it is first, or nowhere. */
  ghost predicate SignAt(token: bytes, p: nat) {
    p + 2 <= |token| && token[p..p + 2] == Letters("@=")
  }

  lemma {:induction false} FirstSign(token: bytes)
    ensures Sign(token).None? <==> forall p: nat :: !SignAt(token, p)
    ensures Sign(token).Some? ==>
              SignAt(token, Sign(token).v) && forall p: nat :: p < Sign(token).v ==> !SignAt(token, p)
    decreases |token|
  {
    if |token| >= 2 {
      SignInFront(token);
      if !SignAt(token, 0) {
        var rest := token[1..];
        FirstSign(rest);
        forall p: nat ensures SignAt(token, p) <==> p > 0 && SignAt(rest, p - 1) {
          if p > 0 { SignFurther(token, p - 1); }
        }
        if Sign(token).Some? { assert SignAt(token, Sign(rest).v + 1); }
      }
    }
  }

  lemma SignInFront(token: bytes)
    requires |token| >= 2
    ensures SignAt(token, 0) <==> token[0] == SIGN && token[1] == EQUALS
  {
    assert Letters("@=") == [SIGN, EQUALS] && token[0..2] == [token[0], token[1]];
  }

  lemma SignFurther(token: bytes, p: nat)
    requires token != []
    ensures SignAt(token, p + 1) <==> SignAt(token[1..], p)
  {
    if p + 2 <= |token[1..]| { assert token[1..][p..p + 2] == token[p + 1..p + 1 + 2]; }
  }

  /** What a token with a sign at `p` says, if its key is free; a token without one says nothing. */
  lemma WhatTokensSay(stt: Stt, key: bytes, value: bytes, token: bytes)
    requires forall p: nat :: !SignAt(key + Letters("@"), p)
    ensures Insert(stt, key + Letters("@=") + value) == if key in stt then stt else stt[key := value]
    ensures (forall p: nat :: !SignAt(token, p)) ==> Insert(stt, token) == stt
  {
    hide Sign;
    FirstSign(token);
    var t := key + Letters("@=") + value;
    FirstSign(t);
    assert t[|key|..|key| + 2] == Letters("@=");
    assert SignAt(t, |key|);
    forall p: nat | p < |key| ensures !SignAt(t, p) {
      assert Letters("@") == [SIGN] && Letters("@=") == [SIGN, EQUALS];
      assert (key + Letters("@"))[p..p + 2] == t[p..p + 2];
      assert !SignAt(key + Letters("@"), p);
    }
    assert t[..|key|] == key && t[|key| + 2..] == value;
  }

  /** Keys hold no slash, no NUL and no "@="; values hold no slash and no NUL. */
  ghost predicate PairOk(p: Pair) {
    && SLASH !in p.0 && SLASH !in p.1 && 0 !in p.0 && 0 !in p.1 && Sign(p.0) == None
  }

  ghost predicate PairsOk(ps: seq<Pair>) {
    forall k :: 0 <= k < |ps| ==> PairOk(ps[k])
  }

  /** The value of the first pair with this key. */
  function FirstBinding(ps: seq<Pair>, key: bytes): Option<bytes> {
    if ps == [] then None else if ps[0].0 == key then Some(ps[0].1) else FirstBinding(ps[1..], key)
  }

  lemma {:induction false} SignFollows(key: bytes, value: bytes)
    requires Sign(key) == None
    ensures Sign(key + [SIGN, EQUALS] + value) == Some(|key|)
    decreases |key|
  {
    var s := key + [SIGN, EQUALS] + value;
    if key != [] {
      assert s[1..] == key[1..] + [SIGN, EQUALS] + value;
      SignFollows(key[1..], value);
    }
  }

  lemma {:induction false} SlashAfter(s: bytes, rest: bytes)
    requires SLASH !in s
    ensures Slash(s + [SLASH] + rest) == |s|
    decreases |s|
  {
    if s != [] {
      assert (s + [SLASH] + rest)[1..] == s[1..] + [SLASH] + rest;
      SlashAfter(s[1..], rest);
    }
  }

  lemma PairInserted(stt: Stt, p: Pair, rest: bytes)
    requires PairOk(p)
    ensures Bindings(stt, Tokens(PairText(p) + rest))
         == Bindings(if p.0 in stt then stt else stt[p.0 := p.1], Tokens(rest))
  {
    hide Bindings, Tokens, Slash;
    var token := p.0 + [SIGN, EQUALS] + p.1;
    var s := PairText(p) + rest;
    assert s == token + [SLASH] + rest;
    SlashAfter(token, rest);
    SignFollows(p.0, p.1);
    TokensStep(stt, s);
    assert s[..|token|] == token && s[|token| + 1..] == rest;
    assert token[..|p.0|] == p.0 && token[|p.0| + 2..] == p.1;
  }

  function Lookup(stt: Stt, key: bytes): Option<bytes> {
    if key in stt then Some(stt[key]) else None
  }

  /** The pairs come out again, the first binding of each key; nothing else does. */
  lemma {:induction false} PairsComeBack(stt: Stt, ps: seq<Pair>, key: bytes)
    requires PairsOk(ps)
    ensures Lookup(Bindings(stt, Tokens(Text(ps))), key) == if key in stt then Some(stt[key]) else FirstBinding(ps, key)
    decreases |ps|
  {
    if ps != [] {
      var p := ps[0];
      assert PairOk(p);
      PairInserted(stt, p, Text(ps[1..]));
      PairsComeBack(if p.0 in stt then stt else stt[p.0 := p.1], ps[1..], key);
    }
  }

  lemma {:induction false} NoNul(ps: seq<Pair>)
    requires PairsOk(ps)
    ensures 0 !in Text(ps)
  {
    if ps != [] {
      assert PairOk(ps[0]);
      NoNul(ps[1..]);
    }
  }

  lemma {:induction false} NoNulCString(s: bytes, rest: bytes)
    requires 0 !in s
    ensures CString(s + [0] + rest) == s
    decreases |s|
  {
    if s != [] {
      assert (s + [0] + rest)[1..] == s[1..] + [0] + rest;
      NoNulCString(s[1..], rest);
    }
  }

  /** What `parse_stt` finds in the body of a packet. */
  lemma BodyParses(ps: seq<Pair>, key: bytes)
    requires PairsOk(ps)
    ensures Lookup(Bindings(map[], Tokens(CString(Body(ps)))), key) == FirstBinding(ps, key)
  {
    hide Bindings, Tokens, PairsOk, Text;
    NoNul(ps);
    NoNulCString(Text(ps), []);
    assert Text(ps) + [0] + [] == Text(ps) + [0];
    NulOnly(Text(ps));
    assert Body(ps) == Text(ps) + [0];
    PairsComeBack(map[], ps, key);
  }

  lemma {:induction false} NulOnly(s: bytes)
    requires 0 !in s
    ensures CString(s) == s
  {
  }

  /**
   A packet on the wire, if no text in it holds a NUL: twice the length of what follows its first
   four bytes, least significant first, the type 689, two NULs, `key@=value/` for each pair, and a NUL.
   */
  lemma PacketOnTheWire(ps: seq<Pair>)
    requires 0 !in Text(ps) && |Text(ps)| + 9 < 0x1_0000_0000
    ensures var n := |Text(ps)| + 9;
            var size := [n % 256, n / 0x100 % 256, n / 0x1_0000 % 256, n / 0x100_0000];
            Packet(ps) == size + size + [689 % 256, 689 / 256, 0, 0] + Text(ps) + [0]
  {
    hide Text, Little, CString;
    NulOnly(Text(ps));
    BytesOnTheWire(|Text(ps)| + 9);
  }

  lemma TextOnTheWire(ps: seq<Pair>, key: bytes, value: bytes)
    ensures Text([]) == []
    ensures Text([(key, value)] + ps) == key + Letters("@=") + value + Letters("/") + Text(ps)
  {
    assert ([(key, value)] + ps)[1..] == ps;
    assert Letters("@=") == [SIGN, EQUALS] && Letters("/") == [SLASH];
  }

  // ---------------------------------------------------------------- the reader

  /** What the reader is waiting for; it does not survive a packet without a body. */
  datatype State = Header | Data(size: nat) | Threw

  /** The length of the body, computed in 32 bits from the length in the header. */
  function DataSize(header: bytes): nat
    requires |header| == 12
  {
    (FromLittle(header[..4]) + LIMIT - 8) % LIMIT
  }

  /** What the bytes of a header ask for: the first four, least significant first, say how much follows them. */
  lemma HeaderOnTheWire(header: bytes)
    requires |header| == 12
    ensures var length := header[0] as int + 0x100 * header[1] as int + 0x1_0000 * header[2] as int
                          + 0x100_0000 * header[3] as int;
            DataSize(header) == if length >= 8 then length - 8 else 0x1_0000_0000 + length - 8
  {
    hide FromLittle;
    NumberOnTheWire(header[..4]);
  }

  /** A body without a NUL at its end is reported as a bad message; otherwise its pairs are handled. */
  function Handle(data: bytes): Option<Stt>
    requires data != []
  {
    if data[|data| - 1] != 0 then None else Some(Bindings(map[], Tokens(CString(data))))
  }

  /** What happens to a stream: what is handled, what is waited for then, and what is left over. */
  function Cut(st: State, s: bytes): (r: (seq<Option<Stt>>, State, bytes))
    decreases |s|
  {
    match st
    case Threw => ([], Threw, s)
    case Header => if |s| < 12 then ([], st, s) else Cut(Data(DataSize(s[..12])), s[12..])
    case Data(n) =>
      if |s| < n then ([], st, s)
      else if n == 0 then ([], Threw, s)
      else var (hs, st', rest) := Cut(Header, s[n..]); ([Handle(s[..n])] + hs, st', rest)
  }

  lemma {:induction false} CutMore(st: State, s: bytes, t: bytes)
    ensures var (hs, st', rest) := Cut(st, s);
            var (more, st'', rest') := Cut(st', rest + t);
            Cut(st, s + t) == (hs + more, st'', rest')
    decreases |s|
  {
    hide Handle, DataSize;
    var (hs, st', rest) := Cut(st, s);
    var more := Cut(st', rest + t).0;
    assert [] + more == more;
    if st.Header? && |s| >= 12 {
      assert (s + t)[..12] == s[..12] && (s + t)[12..] == s[12..] + t;
      CutMore(Data(DataSize(s[..12])), s[12..], t);
    } else if st.Data? && 0 < st.size <= |s| {
      var n := st.size;
      assert (s + t)[..n] == s[..n] && (s + t)[n..] == s[n..] + t;
      CutMore(Header, s[n..], t);
      BodyFirst(s, n);
      BodyFirst(s + t, n);
      hide Cut;
      var h := Handle(s[..n]);
      assert [h] + Cut(Header, s[n..]).0 + more == [h] + (Cut(Header, s[n..]).0 + more);
    }
  }

  lemma BodyFirst(s: bytes, n: nat)
    requires 0 < n <= |s|
    ensures var (hs, st, rest) := Cut(Header, s[n..]); Cut(Data(n), s) == ([Handle(s[..n])] + hs, st, rest)
  {
    hide Handle;
  }

  class Reader {
    var state: State
    var input: bytes
    var handled: seq<Option<Stt>>

    constructor ()
      ensures state == Header && input == [] && handled == []
    {
      state, input, handled := Header, [], [];
    }

    /** More of the stream arrives; every read that can be completed is, and its handler asks for the next. */
    method Feed(chunk: bytes)
      modifies this
      ensures (handled, state, input) == Behind(old(handled), Cut(old(state), old(input) + chunk))
    {
      hide Handle;
      input := input + chunk;
      while (state.Header? && |input| >= 12) || (state.Data? && |input| >= state.size)
        invariant Behind(handled, Cut(state, input)) == Behind(old(handled), Cut(old(state), old(input) + chunk))
        decreases |input|, if state.Data? then 1 else 0
      {
        if state.Header? {
          HandleHeader();
        } else if state.size == 0 {
          state := Threw;
        } else {
          var data := input[..state.size];
          input := input[state.size..];
          state := Header;
          ghost var before := handled;
          HandleData(data);
          BehindOne(before, Handle(data), Cut(state, input));
        }
      }
      assert handled + [] == handled;
    }

    method HandleHeader()
      requires state.Header? && |input| >= 12
      modifies this`state, this`input
      ensures state == Data(DataSize(old(input)[..12])) && input == old(input)[12..]
    {
      var header := input[..12];
      input := input[12..];
      var dataLen := FromLittle(header[..4]);
      state := Data((dataLen + LIMIT - 8) % LIMIT);
    }

    method HandleData(data: bytes)
      requires data != []
      modifies this`handled
      ensures handled == old(handled) + [Handle(data)]
    {
      if data[|data| - 1] != 0 {
        handled := handled + [None];
        return;
      }
      var stt := ParseStt(data);
      handled := handled + [Some(stt)];
    }
  }

  // ---------------------------------------------------------------- packets through the reader

  ghost function Packets(pss: seq<seq<Pair>>): bytes {
    if pss == [] then [] else Packet(pss[0]) + Packets(pss[1..])
  }

  /** The packet's length fits into its 32 bits. */
  ghost predicate Short(ps: seq<Pair>) {
    |Text(ps)| + 9 < LIMIT
  }

  /** A packet in front of a stream is cut off exactly, and its body is what is handled. */
  lemma PacketIsCut(ps: seq<Pair>, rest: bytes)
    requires Short(ps)
    ensures var (hs, st, left) := Cut(Header, rest);
            Cut(Header, Packet(ps) + rest) == ([Handle(Body(ps))] + hs, st, left)
  {
    hide Handle, Body, Text;
    var s := Packet(ps) + rest;
    PacketParts(ps, rest);
    hide Packet, DataSize;
    BodyIsCut(Body(ps), rest);
  }

  lemma PacketParts(ps: seq<Pair>, rest: bytes)
    requires Short(ps)
    ensures var s := Packet(ps) + rest;
            |s| >= 12 && DataSize(s[..12]) == |Body(ps)| && s[12..] == Body(ps) + rest
  {
    hide Body, Text, Little, FromLittle;
    var s := Packet(ps) + rest;
    LittleBack(|Text(ps)| + 9);
    assert s[..12][..4] == Length(ps);
  }

  lemma BodyIsCut(b: bytes, rest: bytes)
    requires b != []
    ensures var (hs, st, left) := Cut(Header, rest);
            Cut(Data(|b|), b + rest) == ([Handle(b)] + hs, st, left)
  {
    hide Handle;
    assert (b + rest)[..|b|] == b && (b + rest)[|b|..] == rest;
  }

  /**
   Any stream of packets, behind which the next may have begun, is cut at their boundaries: each
   of them is handled with the pairs it was made of, in order, and nothing else is.
   */
  lemma {:induction false} PacketsAreCut(pss: seq<seq<Pair>>, rest: bytes)
    requires forall k :: 0 <= k < |pss| ==> Short(pss[k])
    ensures var (hs, st, left) := Cut(Header, Packets(pss) + rest);
            var (more, st', left') := Cut(Header, rest);
            |hs| == |pss| + |more| && hs[|pss|..] == more && st == st' && left == left'
            && forall k :: 0 <= k < |pss| ==> hs[k] == Handle(Body(pss[k]))
    decreases |pss|
  {
    hide Handle, Body, Packet, Cut, Short;
    if pss == [] {
      assert Packets(pss) + rest == rest;
    } else {
      assert Packets(pss) + rest == Packet(pss[0]) + (Packets(pss[1..]) + rest);
      PacketIsCut(pss[0], Packets(pss[1..]) + rest);
      PacketsAreCut(pss[1..], rest);
    }
  }

  /** The table binds each key to its first value among the pairs, and no other key. */
  ghost predicate Agrees(stt: Stt, ps: seq<Pair>) {
    forall key :: Lookup(stt, key) == FirstBinding(ps, key)
  }

  lemma HandledPairs(ps: seq<Pair>)
    requires PairsOk(ps)
    ensures Handle(Body(ps)).Some? && Agrees(Handle(Body(ps)).v, ps)
  {
    hide Body, Bindings, Tokens, CString;
    forall key ensures Lookup(Handle(Body(ps)).v, key) == FirstBinding(ps, key) {
      BodyParses(ps, key);
    }
  }

  /** However the packets arrive, the reader ends up having handled exactly them. */
  method Receive(pss: seq<seq<Pair>>, chunks: seq<bytes>) returns (reader: Reader)
    requires Concat(chunks) == Packets(pss)
    requires forall k :: 0 <= k < |pss| ==> Short(pss[k]) && PairsOk(pss[k])
    ensures fresh(reader) && reader.state == Header && reader.input == []
    ensures |reader.handled| == |pss|
    ensures forall k :: 0 <= k < |pss| ==> reader.handled[k].Some? && Agrees(reader.handled[k].v, pss[k])
  {
    hide Cut, Handle, Body, Packets, Short, PairsOk, FirstBinding, Concat;
    reader := new Reader();
    NothingCut(chunks);
    for k := 0 to |chunks|
      invariant fresh(reader) && (reader.handled, reader.state, reader.input) == Cut(Header, Concat(chunks[..k]))
    {
      assert chunks[..k + 1] == chunks[..k] + [chunks[k]];
      ConcatSnoc(chunks[..k], chunks[k]);
      CutMore(Header, Concat(chunks[..k]), chunks[k]);
      reader.Feed(chunks[k]);
    }
    assert chunks[..|chunks|] == chunks && Packets(pss) + [] == Packets(pss);
    NothingCut([]);
    PacketsAreCut(pss, []);
    forall k | 0 <= k < |pss| ensures reader.handled[k].Some? && Agrees(reader.handled[k].v, pss[k]) {
      assert reader.handled[k] == Handle(Body(pss[k]));
      HandledPairs(pss[k]);
    }
  }

  lemma NothingCut(chunks: seq<bytes>)
    ensures Cut(Header, Concat(chunks[..0])) == Cut(Header, []) == ([], Header, [])
  {
  }
}
