/**
 The Bilibili platform's packets, and how its reader picks the messages out of the stream: only
 bodies that carry operation 5 are delivered, others are read and thrown away. A delivered body
 that is not JSON is the last one: the reader closes its socket.
 */
module Bilibili {
  import opened Bytes
  import opened Streams
  import opened Wire32
  import opened JsonGrammar
  import opened JsonReading
  import opened JsonRecognition
  import JsonParser
  import JsonValue
  import opened JsonPrinter

  const DELIVER: byte := 5

  /** A packet is an operation and a body. */
  type Message = (nat, bytes)

  /** Length of the whole, length of the header, version, operation, sequence number: sixteen bytes. */
  function Packet(m: Message): bytes
    requires m.0 < LIMIT
  {
    Big((16 + |m.1|) % LIMIT) + [0, 16, 0, 1] + Big(m.0) + [0, 0, 0, 1] + m.1
  }

  /** What both builders write through their moving pointer. */
  method FillHeader(packet: array<byte>, op: nat)
    requires packet.Length >= 16 && op < LIMIT
    modifies packet
    ensures packet[..16] == Big(packet.Length % LIMIT) + [0, 16, 0, 1] + Big(op) + [0, 0, 0, 1]
    ensures packet[16..] == old(packet[16..])
  {
    hide Big;
    var size, operation := Big(packet.Length % LIMIT), Big(op);
    packet[0], packet[1], packet[2], packet[3] := size[0], size[1], size[2], size[3];
    packet[4], packet[5], packet[6], packet[7] := 0, 16, 0, 1;
    packet[8], packet[9], packet[10], packet[11] := operation[0], operation[1], operation[2], operation[3];
    packet[12], packet[13], packet[14], packet[15] := 0, 0, 0, 1;
  }

  /** `new_heartbeat_packet` */
  method NewHeartbeatPacket() returns (packet: array<byte>)
    ensures fresh(packet) && packet[..] == Packet((2, []))
  {
    hide Big;
    packet := new byte[16];
    FillHeader(packet, 2);
    assert packet[..] == packet[..16];
  }

  const ROOM_ID: bytes := [0x72, 0x6F, 0x6F, 0x6D, 0x69, 0x64]
  const UID: bytes := [0x75, 0x69, 0x64]

  /** `"name":` */
  function Named(name: bytes): bytes {
    [QUOTE] + name + [QUOTE, COLON]
  }

  /** The request to enter a room: the id as it was given, and a number as the user. */
  function RequestText(roomId: bytes, uid: nat): bytes {
    [0x7B] + Named(ROOM_ID) + roomId + [COMMA, 0x20] + Named(UID) + DigitsOf(uid) + [0x7D]
  }

  /** `new_request_packet`, given the random number. */
  method NewRequestPacket(roomId: bytes, uid: nat) returns (packet: array<byte>)
    ensures fresh(packet) && packet[..] == Packet((7, RequestText(roomId, uid)))
  {
    hide Big, RequestText, DigitsOf;
    var reqData := [0x7B, QUOTE] + ROOM_ID + [QUOTE, COLON];
    reqData := reqData + roomId;
    reqData := reqData + [COMMA, 0x20, QUOTE] + UID + [QUOTE, COLON];
    reqData := reqData + DigitsOf(uid);
    reqData := reqData + [0x7D];
    RequestTextIs(roomId, uid);
    packet := new byte[4 + 4 + 4 + 4 + |reqData|];
    FillHeader(packet, 7);
    ghost var header := packet[..16];
    forall k | 0 <= k < |reqData| {
      packet[16 + k] := reqData[k];
    }
    assert packet[..16] == header && packet[16..] == reqData;
    assert packet[..] == packet[..16] + packet[16..];
  }

  lemma RequestTextIs(roomId: bytes, uid: nat)
    ensures RequestText(roomId, uid)
         == [0x7B, QUOTE] + ROOM_ID + [QUOTE, COLON] + roomId + [COMMA, 0x20, QUOTE] + UID + [QUOTE, COLON]
            + DigitsOf(uid) + [0x7D]
  {
  }

  /** The request, letter by letter. */
  lemma RequestOnTheWire(roomId: bytes, uid: nat)
    ensures RequestText(roomId, uid)
         == Letters("{\"roomid\":") + roomId + Letters(", \"uid\":") + DigitsOf(uid) + Letters("}")
  {
    hide DigitsOf;
    var open, next, close := Letters("{\"roomid\":"), Letters(", \"uid\":"), Letters("}");
    assert open == [0x7B] + Named(ROOM_ID);
    assert next == [COMMA, 0x20] + Named(UID);
    assert close == [0x7D];
  }

  // ---------------------------------------------------------------- what a request says

  function Plain(s: bytes): (cs: seq<Chr>)
    ensures |cs| == |s|
  {
    seq(|s|, i requires 0 <= i < |s| => Raw(s[i]))
  }

  lemma {:induction false} PlainMeans(s: bytes)
    ensures RenderChars(Plain(s)) == s && StringMeaning(Plain(s)) == s
    decreases |s|
  {
    if s != [] {
      assert Plain(s)[0] == Raw(s[0]) && Plain(s)[1..] == Plain(s[1..]);
      PlainMeans(s[1..]);
    }
  }

  /** The number of the user as a token. */
  function UserToken(uid: nat): NumTok {
    NumTok(false, DigitsOf(uid), [], [], [], [])
  }

  function RequestTree(room: Cst, uid: nat): Cst {
    CObj([], [Member([], Plain(ROOM_ID), [], Elem([], room, [])),
              Member([0x20], Plain(UID), [], Elem([], CNum(UserToken(uid)), []))])
  }

  /** If the id of the room is the text of a JSON value, the request is the text of an object with it and the user. */
  lemma RequestIsJson(room: Cst, uid: nat, strtod: bytes -> JsonValue.Extended)
    requires Grammatical(room, false) && Depth(room) < MAX_DEPTH
    ensures Derives(Elem([], RequestTree(room, uid), []), RequestText(Render(room), uid), false)
    ensures Meaning(RequestTree(room, uid), strtod)
         == JsonValue.Obj([JsonValue.Field(ROOM_ID, Meaning(room, strtod)),
                           JsonValue.Field(UID, JsonValue.Number(NumMeaning(UserToken(uid), strtod)))])
  {
    hide DocumentOk, RequestTree, RequestText, Render, Meaning;
    RequestIsGrammatical(room, uid);
    RequestRendered(room, uid);
    RequestMeans(room, uid, strtod);
  }

  lemma RequestIsGrammatical(room: Cst, uid: nat)
    requires Grammatical(room, false) && Depth(room) < MAX_DEPTH
    ensures DocumentOk(Elem([], RequestTree(room, uid), []), false) && Depth(RequestTree(room, uid)) <= MAX_DEPTH
  {
    hide DigitsOf, Plain;
    var ms := RequestTree(room, uid).members;
    NameIsOk(ROOM_ID);
    NameIsOk(UID);
    GapsAre();
    UserIsNumber(uid);
    assert ms[1..] == [ms[1]] && [ms[1]][1..] == [];
    hide Gap, LastGap, CharsOk;
    assert MemberOk(ms[0], false) && MemberOk(ms[1], false);
    assert MembersOk([ms[1]], false) && DepthMembers([ms[1]]) == 1;
    assert MembersOk(ms, false) && Grammatical(CObj([], ms), false);
  }

  lemma NameIsOk(name: bytes)
    requires forall k :: 0 <= k < |name| ==> 0x20 <= name[k] < 0x80 && name[k] != QUOTE && name[k] != BACKSLASH
    ensures CharsOk(Plain(name))
  {
  }

  lemma GapsAre()
    ensures Gap([], false) && Gap([0x20], false) && LastGap([], false)
  {
    assert [0x20 as byte][1..] == [];
  }

  lemma UserIsNumber(uid: nat)
    ensures Grammatical(CNum(UserToken(uid)), false) && Depth(CNum(UserToken(uid))) == 0
    ensures Render(CNum(UserToken(uid))) == DigitsOf(uid)
  {
    hide DigitsOf;
  }

  lemma NamedRendered(before: bytes, name: bytes, value: Cst)
    ensures RenderMember(Member(before, Plain(name), [], Elem([], value, []))) == before + Named(name) + Render(value)
  {
    hide Plain, RenderChars, Render;
    PlainMeans(name);
  }

  lemma TwoMembers(m: Member, n: Member, strtod: bytes -> JsonValue.Extended)
    ensures RenderMembers([m, n]) == RenderMember(m) + [COMMA] + RenderMember(n)
    ensures MeaningMembers([], [m, n], strtod)
         == Put(Put([], StringMeaning(m.key), Meaning(m.elem.value, strtod)),
                StringMeaning(n.key), Meaning(n.elem.value, strtod))
  {
    hide RenderMember, Meaning, StringMeaning, Put;
    assert [m, n][1..] == [n] && [n][1..] == [];
    var first := Put([], StringMeaning(m.key), Meaning(m.elem.value, strtod));
    var both := Put(first, StringMeaning(n.key), Meaning(n.elem.value, strtod));
    assert MeaningMembers(both, [], strtod) == both;
    assert MeaningMembers(first, [n], strtod) == both;
  }

  lemma RequestRendered(room: Cst, uid: nat)
    ensures RenderElem(Elem([], RequestTree(room, uid), [])) == RequestText(Render(room), uid)
  {
    hide DigitsOf, Plain, RenderMember, RenderMembers, RenderElem, Render, Named;
    var ms := RequestTree(room, uid).members;
    TwoMembers(ms[0], ms[1], _ => JsonValue.PlusInfinity);
    assert ms == [ms[0], ms[1]];
    NamedRendered([], ROOM_ID, room);
    NamedRendered([0x20], UID, CNum(UserToken(uid)));
    UserIsNumber(uid);
    ObjRendered(ms);
    Joined(Named(ROOM_ID), Render(room), Named(UID), DigitsOf(uid));
  }

  lemma Joined(name: bytes, room: bytes, user: bytes, uid: bytes)
    ensures [0x7B] + (([] + name + room) + [COMMA] + ([0x20] + user + uid)) + [0x7D]
         == [0x7B] + name + room + [COMMA, 0x20] + user + uid + [0x7D]
  {
  }

  lemma ObjRendered(ms: seq<Member>)
    requires ms != []
    ensures RenderElem(Elem([], CObj([], ms), [])) == [0x7B] + RenderMembers(ms) + [0x7D]
  {
  }

  lemma RequestMeans(room: Cst, uid: nat, strtod: bytes -> JsonValue.Extended)
    ensures Meaning(RequestTree(room, uid), strtod)
         == JsonValue.Obj([JsonValue.Field(ROOM_ID, Meaning(room, strtod)),
                           JsonValue.Field(UID, JsonValue.Number(NumMeaning(UserToken(uid), strtod)))])
  {
    hide DigitsOf, Plain, StringMeaning, NumMeaning;
    PlainMeans(ROOM_ID);
    PlainMeans(UID);
    var ms := RequestTree(room, uid).members;
    TwoMembers(ms[0], ms[1], strtod);
    assert ms == [ms[0], ms[1]];
    PutTwo(Meaning(room, strtod), Meaning(CNum(UserToken(uid)), strtod));
  }

  lemma PutTwo(v: JsonValue.Json, w: JsonValue.Json)
    ensures Put(Put([], ROOM_ID, v), UID, w) == [JsonValue.Field(ROOM_ID, v), JsonValue.Field(UID, w)]
  {
    assert !JsonValue.StringLess(UID, ROOM_ID) && UID != ROOM_ID;
    assert Put([], ROOM_ID, v)[1..] == [];
  }

  // ---------------------------------------------------------------- the reader

  datatype State = Header | Data(size: nat) | Skip(size: nat) | Closed

  /** What a header makes the reader wait for next. */
  function AfterHeader(header: bytes): State
    requires |header| == 16
  {
    var length := FromBig(header[..4]);
    if length <= 16 then Header
    else if header[11] == DELIVER then Data(length - 16)
    else Skip(length - 16)
  }

  /** The body, up to its first NUL, is a JSON text of the grammar, not nested too deep. */
  ghost predicate IsJson(body: bytes) {
    exists e :: Derives(e, CString(body), false)
  }

  ghost function AfterBody(body: bytes): (st: State)
    ensures st.Header? || st.Closed?
  {
    if IsJson(body) then Header else Closed
  }

  /** What happens to a stream: what is delivered, what is waited for then, and what is left over. */
  ghost function Cut(st: State, s: bytes): (r: (seq<bytes>, State, bytes))
    decreases |s|, if st.Data? || st.Skip? then 1 else 0
  {
    match st
    case Header => if |s| < 16 then ([], st, s) else Cut(AfterHeader(s[..16]), s[16..])
    case Data(n) => if |s| < n then ([], st, s) else Delivering(s[..n], Cut(AfterBody(s[..n]), s[n..]))
    case Skip(n) => if |s| < n then ([], st, s) else Cut(Header, s[n..])
    case Closed => ([], st, s)
  }

  ghost function Delivering(body: bytes, r: (seq<bytes>, State, bytes)): (seq<bytes>, State, bytes) {
    ([body] + r.0, r.1, r.2)
  }

  lemma {:induction false} CutMore(st: State, s: bytes, t: bytes)
    ensures var (ds, st', rest) := Cut(st, s);
            Cut(st, s + t) == Behind(ds, Cut(st', rest + t))
    decreases |s|, if st.Data? || st.Skip? then 1 else 0
  {
    hide AfterHeader, AfterBody;
    var (ds, st', rest) := Cut(st, s);
    BehindNothing(Cut(st', rest + t));
    match st
    case Header =>
      if |s| >= 16 {
        assert (s + t)[..16] == s[..16] && (s + t)[16..] == s[16..] + t;
        CutMore(AfterHeader(s[..16]), s[16..], t);
      }
    case Data(n) =>
      if n <= |s| {
        assert (s + t)[..n] == s[..n] && (s + t)[n..] == s[n..] + t;
        CutMore(AfterBody(s[..n]), s[n..], t);
        BehindMore(s[..n], Cut(AfterBody(s[..n]), s[n..]).0, Cut(st', rest + t));
      }
    case Skip(n) =>
      if n <= |s| {
        assert (s + t)[n..] == s[n..] + t;
        CutMore(Header, s[n..], t);
      }
    case Closed =>
  }

  class Reader {
    const strtod: bytes -> JsonValue.Extended
    var state: State
    var input: bytes
    var delivered: seq<bytes>

    constructor (strtod: bytes -> JsonValue.Extended)
      ensures state == Header && input == [] && delivered == []
    {
      this.strtod := strtod;
      state, input, delivered := Header, [], [];
    }

    predicate Ready()
      reads this
    {
      match state
      case Header => |input| >= 16
      case Data(n) => |input| >= n
      case Skip(n) => |input| >= n
      case Closed => false
    }

    /** More of the stream arrives; every read that can be completed is, and its handler asks for the next. */
    method Feed(chunk: bytes)
      modifies this
      ensures (delivered, state, input) == Behind(old(delivered), Cut(old(state), old(input) + chunk))
    {
      hide AfterHeader, AfterBody;
      input := input + chunk;
      while Ready()
        invariant Behind(delivered, Cut(state, input)) == Behind(old(delivered), Cut(old(state), old(input) + chunk))
        decreases |input|, if state.Data? || state.Skip? then 1 else 0
      {
        match state {
          case Header =>
            HandleHeader();
          case Data(n) =>
            var data := input[..n];
            input := input[n..];
            ghost var before := delivered;
            HandleData(data);
            BehindOne(before, data, Cut(state, input));
          case Skip(n) =>
            state, input := Header, input[n..];
          case Closed =>
        }
      }
      assert delivered + [] == delivered;
    }

    method HandleHeader()
      requires state.Header? && |input| >= 16
      modifies this`state, this`input
      ensures state == AfterHeader(old(input)[..16]) && input == old(input)[16..]
    {
      var header := input[..16];
      input := input[16..];
      var dataLen := FromBig(header[..4]);
      var dataType := header[11];
      if dataLen <= 16 {
        state := Header;
      } else if dataLen > 16 && dataType == 5 {
        state := Data(dataLen - 16);
      } else {
        state := Skip(dataLen - 16);
      }
    }

    /** `handle_data`, up to the point where the message is looked into. */
    method HandleData(data: bytes)
      modifies this`state, this`delivered
      ensures state == AfterBody(data) && delivered == old(delivered) + [data]
    {
      hide Derives;
      delivered := delivered + [data];
      state := Header;
      var msgJson, err := JsonParser.Parse(CString(data), false, strtod);
      if err != JsonParser.NoError {
        state := Closed;
      }
    }
  }

  // ---------------------------------------------------------------- packets through the reader

  ghost predicate Fit(m: Message) {
    m.0 < LIMIT && 16 + |m.1| < LIMIT
  }

  ghost predicate AllFit(ms: seq<Message>) {
    forall k :: 0 <= k < |ms| ==> Fit(ms[k])
  }

  ghost function Packets(ms: seq<Message>): bytes
    requires AllFit(ms)
  {
    if ms == [] then [] else Packet(ms[0]) + Packets(ms[1..])
  }

  /** The reader looks at the last byte of the operation only. */
  predicate Wanted(m: Message) {
    m.0 % 256 == 5 && m.1 != []
  }

  /** The wanted bodies, in order. */
  function Bodies(ms: seq<Message>): seq<bytes> {
    if ms == [] then [] else (if Wanted(ms[0]) then [ms[0].1] else []) + Bodies(ms[1..])
  }

  /** The first of them that is not JSON ends it. */
  ghost function UpToBad(bodies: seq<bytes>): seq<bytes> {
    if bodies == [] then [] else [bodies[0]] + if IsJson(bodies[0]) then UpToBad(bodies[1..]) else []
  }

  ghost predicate AllJson(bodies: seq<bytes>) {
    forall k :: 0 <= k < |bodies| ==> IsJson(bodies[k])
  }

  /** All bodies are delivered exactly if all of them but perhaps the last are JSON. */
  lemma {:induction false} AllDelivered(bodies: seq<bytes>)
    ensures UpToBad(bodies) <= bodies
    ensures UpToBad(bodies) == bodies <==> forall k :: 0 <= k < |bodies| - 1 ==> IsJson(bodies[k])
  {
    hide IsJson;
    if bodies != [] {
      var rest := bodies[1..];
      AllDelivered(rest);
      assert bodies == [bodies[0]] + rest;
      assert forall k :: 1 <= k < |bodies| ==> bodies[k] == rest[k - 1];
      assert IsJson(bodies[0]) ==> UpToBad(bodies)[1..] == UpToBad(rest);
    }
  }

  /** A packet in front of a stream is cut off exactly, and delivered if it is wanted. */
  lemma PacketIsCut(m: Message, rest: bytes)
    requires Fit(m)
    ensures Cut(Header, Packet(m) + rest)
         == if Wanted(m) then Delivering(m.1, Cut(AfterBody(m.1), rest)) else Cut(Header, rest)
  {
    hide Big, FromBig, AfterBody, Delivering;
    var n := |m.1|;
    var s := Packet(m) + rest;
    BigBack(16 + n);
    BytesOnTheWire(m.0);
    assert s[..16][..4] == Big(16 + n) && s[..16][11] == m.0 % 256;
    assert s[16..] == m.1 + rest;
    assert (m.1 + rest)[..n] == m.1 && (m.1 + rest)[n..] == rest;
    assert AfterHeader(s[..16]) == if n == 0 then Header else if m.0 % 256 == 5 then Data(n) else Skip(n);
    assert n == 0 ==> m.1 + rest == rest;
  }

  /**
   A packet on the wire: the length of the whole, most significant byte first, 0 16 0 1, the operation
   likewise, 0 0 0 1, and the body.
   */
  lemma PacketOnTheWire(m: Message)
    requires m.0 < 0x1_0000_0000 && 16 + |m.1| < 0x1_0000_0000
    ensures var n := 16 + |m.1|;
            Packet(m) == [n / 0x100_0000, n / 0x1_0000 % 256, n / 0x100 % 256, n % 256] + [0, 16, 0, 1]
                         + [m.0 / 0x100_0000, m.0 / 0x1_0000 % 256, m.0 / 0x100 % 256, m.0 % 256] + [0, 0, 0, 1]
                         + m.1
  {
    hide Big;
    BytesOnTheWire(16 + |m.1|);
    BytesOnTheWire(m.0);
  }

  /** What the bytes of a header ask for: the first four are its length, and the twelfth is 5 if the body is wanted. */
  lemma HeaderOnTheWire(header: bytes)
    requires |header| == 16
    ensures var length := 0x100_0000 * header[0] as int + 0x1_0000 * header[1] as int + 0x100 * header[2] as int
                          + header[3] as int;
            AfterHeader(header)
            == if length <= 16 then Header else if header[11] == 5 then Data(length - 16) else Skip(length - 16)
  {
    hide FromBig;
    NumberOnTheWire(header[..4]);
  }

  /**
   Of any stream of packets, with anything behind it, the wanted bodies are delivered, up to and
   including the first that is not JSON; if there is none, the reader goes on behind the packets.
   */
  lemma {:induction false} PacketsAreCut(ms: seq<Message>, rest: bytes)
    requires AllFit(ms)
    ensures var r := Cut(Header, Packets(ms) + rest);
            if AllJson(Bodies(ms)) then UpToBad(Bodies(ms)) == Bodies(ms) && r == Behind(Bodies(ms), Cut(Header, rest))
            else r.0 == UpToBad(Bodies(ms)) && r.1 == Closed
    decreases |ms|
  {
    hide Cut, Wanted, Packet, IsJson;
    if ms == [] {
      assert Packets(ms) + rest == rest;
      BehindNothing(Cut(Header, rest));
    } else {
      var m, later := ms[0], Packets(ms[1..]) + rest;
      assert Fit(m);
      assert Packets(ms) + rest == Packet(m) + later;
      PacketIsCut(m, later);
      PacketsAreCut(ms[1..], rest);
      var bodies, rests := Bodies(ms), Bodies(ms[1..]);
      if Wanted(m) {
        assert bodies == [m.1] + rests && bodies[1..] == rests;
        AllJsonHead(m.1, rests);
        BehindMore(m.1, rests, Cut(Header, rest));
        NothingWhenClosed(later);
      } else {
        assert bodies == rests;
      }
    }
  }

  lemma AllJsonHead(body: bytes, bodies: seq<bytes>)
    ensures AllJson([body] + bodies) <==> IsJson(body) && AllJson(bodies)
    ensures UpToBad([body] + bodies) == [body] + if IsJson(body) then UpToBad(bodies) else []
  {
    hide IsJson;
    var all := [body] + bodies;
    assert all[1..] == bodies;
    assert all[0] == body;
    if AllJson(all) {
      forall k | 0 <= k < |bodies| ensures IsJson(bodies[k]) {
        assert IsJson(all[k + 1]);
      }
    }
    if IsJson(body) && AllJson(bodies) {
      forall k | 0 <= k < |all| ensures IsJson(all[k]) {
        assert k > 0 ==> all[k] == bodies[k - 1];
      }
    }
  }

  lemma NothingWhenClosed(s: bytes)
    ensures Cut(Closed, s) == ([], Closed, s)
  {
  }

  /**
   However the packets arrive, the reader ends up having delivered exactly the wanted bodies up to
   and including the first that is not JSON, at which it closes; so all of them exactly if all but
   perhaps the last are JSON.
   */
  method Receive(ms: seq<Message>, chunks: seq<bytes>, strtod: bytes -> JsonValue.Extended) returns (reader: Reader)
    requires AllFit(ms) && Concat(chunks) == Packets(ms)
    ensures fresh(reader) && reader.delivered == UpToBad(Bodies(ms))
    ensures reader.delivered == Bodies(ms) <==> forall k :: 0 <= k < |Bodies(ms)| - 1 ==> IsJson(Bodies(ms)[k])
    ensures if AllJson(Bodies(ms)) then reader.state == Header && reader.input == [] else reader.state == Closed
  {
    hide Cut, Packets, AllFit, Bodies, Concat, UpToBad, IsJson, AllJson;
    reader := new Reader(strtod);
    NothingCut(chunks);
    for k := 0 to |chunks|
      invariant fresh(reader) && (reader.delivered, reader.state, reader.input) == Cut(Header, Concat(chunks[..k]))
    {
      assert chunks[..k + 1] == chunks[..k] + [chunks[k]];
      ConcatSnoc(chunks[..k], chunks[k]);
      CutMore(Header, Concat(chunks[..k]), chunks[k]);
      reader.Feed(chunks[k]);
    }
    assert chunks[..|chunks|] == chunks && Packets(ms) + [] == Packets(ms) && Bodies(ms) + [] == Bodies(ms);
    NothingCut([]);
    PacketsAreCut(ms, []);
    AllDelivered(Bodies(ms));
  }

  lemma NothingCut(chunks: seq<bytes>)
    ensures Cut(Header, Concat(chunks[..0])) == Cut(Header, []) == ([], Header, [])
  {
    assert chunks[..0] == [];
  }
}
