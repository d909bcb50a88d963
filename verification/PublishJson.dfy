/**
 The message that `platform_base::publish_json` builds: nickname and text travel in base64, so
 that whatever bytes they hold, the frame is valid UTF-8 as long as the uid is.
 */
module PublishJson {
  import opened Bytes
  import opened JsonValue
  import opened JsonGrammar
  import opened JsonObjects
  import opened JsonReading
  import opened JsonPrinter
  import opened JsonUtf8
  import opened Utf8Validator
  import opened JsonPrinted
  import Base64

  const UID: bytes := [0x75, 0x69, 0x64]
  const NICKNAME: bytes := [0x6E, 0x69, 0x63, 0x6B, 0x6E, 0x61, 0x6D, 0x65]
  const TEXT: bytes := [0x74, 0x65, 0x78, 0x74]

  /** The object, in key order. */
  function Message(uid: bytes, nickname: bytes, text: bytes): Json {
    Obj([Field(NICKNAME, Str(Base64.Encoded(nickname))), Field(TEXT, Str(Base64.Encoded(text))), Field(UID, Str(uid))])
  }

  lemma KeyOrder()
    ensures StringLess(NICKNAME, TEXT) && StringLess(TEXT, UID) && StringLess(NICKNAME, UID)
  {
  }

  lemma Plain(v: Json)
    requires v.Str?
    ensures Proper(v) && Levels(v) == 0
  {
  }

  lemma EqualHead(xs: seq<Field>, ys: seq<Field>)
    requires EqualFields(xs, ys) && ys != [] && ys[0].value.Str?
    ensures xs != [] && xs[0] == ys[0] && EqualFields(xs[1..], ys[1..])
  {
  }

  lemma MessageIsProper(uid: bytes, nickname: bytes, text: bytes)
    ensures Proper(Message(uid, nickname, text)) && Levels(Message(uid, nickname, text)) == 1
  {
    hide StringLess;
    KeyOrder();
    var fields := Message(uid, nickname, text).fields;
    assert fields[1..] == [fields[1], fields[2]] && fields[1..][1..] == [fields[2]] && fields[1..][1..][1..] == [];
    forall k | 0 <= k < 3 ensures Proper(fields[k].value) && Levels(fields[k].value) == 0 { Plain(fields[k].value); }
    assert LevelsOfFields(fields[1..][1..]) == 1 && LevelsOfFields(fields[1..]) == 1;
  }

  /** `publish_json`, up to handing the text to `publish`. */
  method Build(uid: bytes, nickname: bytes, text: bytes, format: real -> bytes) returns (msg: bytes)
    requires FormatsNumbers(format)
    ensures msg == Render(TreeOf(Message(uid, nickname, text), format))
    ensures IsUtf8(msg) <==> IsUtf8(uid)
  {
    hide Render, TreeOf, IsUtf8, StringsAreUtf8, FormatsNumbers, Put;
    var nickname64 := Base64.Encode(nickname);
    var text64 := Base64.Encode(text);
    var fields := Put(Put(Put([], UID, Str(uid)), NICKNAME, Str(nickname64)), TEXT, Str(text64));
    InKeyOrder(uid, nickname64, text64);
    PrintedValueIsUtf8(Message(uid, nickname, text), format);
    MessageIsUtf8(uid, nickname, text);
    msg := Dump(Obj(fields), format, []);
  }

  lemma InKeyOrder(uid: bytes, nickname64: bytes, text64: bytes)
    ensures Put(Put(Put([], UID, Str(uid)), NICKNAME, Str(nickname64)), TEXT, Str(text64))
         == [Field(NICKNAME, Str(nickname64)), Field(TEXT, Str(text64)), Field(UID, Str(uid))]
  {
  }

  lemma AsciiIsUtf8(s: bytes)
    requires Ascii(s)
    ensures IsUtf8(s)
  {
    CleanAscii(s);
    CleanIsUtf8(s);
  }

  lemma Base64IsUtf8(s: bytes)
    ensures IsUtf8(Base64.Encoded(s))
  {
    hide IsUtf8;
    Base64.EncodedIsText(s);
    AsciiIsUtf8(Base64.Encoded(s));
  }

  lemma MessageIsUtf8(uid: bytes, nickname: bytes, text: bytes)
    ensures StringsAreUtf8(Message(uid, nickname, text)) <==> IsUtf8(uid)
  {
    hide IsUtf8;
    AsciiIsUtf8(UID);
    AsciiIsUtf8(NICKNAME);
    AsciiIsUtf8(TEXT);
    Base64IsUtf8(nickname);
    Base64IsUtf8(text);
    var fields := Message(uid, nickname, text).fields;
    assert StringsAreUtf8(Message(uid, nickname, text)) ==> StringsAreUtf8(fields[2].value);
  }

  /** No character that would be escaped. */
  predicate Unescaped(s: bytes) {
    forall i :: 0 <= i < |s| ==> 32 <= s[i] < 0x80 && s[i] != '"' as int && s[i] != '\\' as int
  }

  lemma {:induction false} PlainText(s: bytes)
    requires Unescaped(s)
    ensures StringText(s) == s
    decreases |s|
  {
    if s != [] {
      assert FirstText(s) == ([s[0]], 1);
      assert forall i :: 0 <= i < |s[1..]| ==> s[1..][i] == s[i + 1];
      PlainText(s[1..]);
    }
  }

  lemma Base64IsPlain(s: bytes)
    ensures StringText(Base64.Encoded(s)) == Base64.Encoded(s)
  {
    Base64.EncodedIsText(s);
    hide Base64.Encoded;
    PlainText(Base64.Encoded(s));
  }

  /** What is published, letter by letter. */
  lemma MessageInLetters(uid: bytes, nickname: bytes, text: bytes, format: real -> bytes)
    requires FormatsNumbers(format)
    ensures Render(TreeOf(Message(uid, nickname, text), format))
         == Letters("{\"nickname\": \"") + Base64.Encoded(nickname) + Letters("\", \"text\": \"") + Base64.Encoded(text)
            + Letters("\", \"uid\": \"") + StringText(uid) + Letters("\"}")
  {
    hide *;
    PrintedInLetters(Message(uid, nickname, text), format);
    var nick64, text64 := Base64.Encoded(nickname), Base64.Encoded(text);
    Base64IsPlain(nickname);
    Base64IsPlain(text);
    KeysInLetters();
    MessageIs(uid, nickname, text);
    ThreeFields(NICKNAME, nick64, TEXT, text64, UID, uid, format);
    LinksInLetters();
    KeyIs(NICKNAME);
    KeyIs(TEXT);
    KeyIs(UID);
    QuotedTwice(NICKNAME, nick64);
    QuotedTwice(TEXT, text64);
    QuotedTwice(UID, uid);
    Regroup(Letters("{"), Key(NICKNAME), nick64, Letters("\""), Letters(", "), Key(TEXT), text64,
            Key(UID), StringText(uid), Letters("}"));
  }

  lemma MessageIs(uid: bytes, nickname: bytes, text: bytes)
    ensures Message(uid, nickname, text)
         == Obj([Field(NICKNAME, Str(Base64.Encoded(nickname))), Field(TEXT, Str(Base64.Encoded(text))),
                 Field(UID, Str(uid))])
  {
  }

  /** `"key": "`, up to where the value begins. */
  function Key(key: bytes): bytes {
    Quoted(key) + (Letters(": ") + Letters("\""))
  }

  lemma KeyIs(key: bytes)
    ensures Key(key) == Quoted(key) + (Letters(": ") + Letters("\""))
  {
  }

  lemma QuotedTwice(key: bytes, value: bytes)
    ensures Quoted(key) + Letters(": ") + Quoted(value) == Key(key) + StringText(value) + Letters("\"")
  {
    hide StringText, Letters;
    var q := Letters("\"");
    assert Quoted(value) == q + StringText(value) + q;
    hide Quoted;
  }

  lemma Regroup(open: bytes, k1: bytes, v1: bytes, q: bytes, link: bytes, k2: bytes, v2: bytes, k3: bytes, v3: bytes,
                close: bytes)
    ensures open + (k1 + v1 + q) + (link + (k2 + v2 + q)) + (link + (k3 + v3 + q)) + close
         == (open + k1) + v1 + (q + link + k2) + v2 + (q + link + k3) + v3 + (q + close)
  {
  }

  lemma KeysInLetters()
    ensures Quoted(NICKNAME) == Letters("\"nickname\"") && Quoted(TEXT) == Letters("\"text\"")
    ensures Quoted(UID) == Letters("\"uid\"")
  {
    hide Quoted, Letters;
    QuotedPlain(NICKNAME);
    QuotedPlain(TEXT);
    QuotedPlain(UID);
    KeyLetters();
  }

  lemma QuotedPlain(key: bytes)
    requires Unescaped(key)
    ensures Quoted(key) == Letters("\"") + key + Letters("\"")
  {
    hide StringText, Letters;
    PlainText(key);
  }

  lemma KeyLetters()
    ensures Letters("\"") + NICKNAME + Letters("\"") == Letters("\"nickname\"")
    ensures Letters("\"") + TEXT + Letters("\"") == Letters("\"text\"")
    ensures Letters("\"") + UID + Letters("\"") == Letters("\"uid\"")
  {
  }

  lemma ThreeFields(k: bytes, s: bytes, l: bytes, t: bytes, m: bytes, u: bytes, format: real -> bytes)
    ensures TextOf(Obj([Field(k, Str(s)), Field(l, Str(t)), Field(m, Str(u))]), format)
         == Letters("{") + (Quoted(k) + Letters(": ") + Quoted(s))
            + (Letters(", ") + (Quoted(l) + Letters(": ") + Quoted(t)))
            + (Letters(", ") + (Quoted(m) + Letters(": ") + Quoted(u))) + Letters("}")
  {
    hide Quoted, Letters, FieldsText;
    FieldsStep(k, s, [Field(l, Str(t)), Field(m, Str(u))], [], format);
    FieldsStep(l, t, [Field(m, Str(u))], Letters(", "), format);
    FieldsStep(m, u, [], Letters(", "), format);
    var a, b, c := Field(k, Str(s)), Field(l, Str(t)), Field(m, Str(u));
    assert [a] + [b, c] == [a, b, c] && [b] + [c] == [b, c] && [c] + [] == [c];
  }

  lemma FieldsStep(key: bytes, value: bytes, rest: seq<Field>, link: bytes, format: real -> bytes)
    ensures FieldsText([Field(key, Str(value))] + rest, link, format)
         == link + (Quoted(key) + Letters(": ") + Quoted(value)) + FieldsText(rest, Letters(", "), format)
    ensures FieldsText([], link, format) == []
  {
    hide Quoted, Letters;
    assert ([Field(key, Str(value))] + rest)[1..] == rest;
  }

  lemma LinksInLetters()
    ensures Letters("{\"nickname\": \"") == Letters("{") + (Letters("\"nickname\"") + (Letters(": ") + Letters("\"")))
    ensures Letters("\", \"text\": \"")
         == Letters("\"") + Letters(", ") + (Letters("\"text\"") + (Letters(": ") + Letters("\"")))
    ensures Letters("\", \"uid\": \"")
         == Letters("\"") + Letters(", ") + (Letters("\"uid\"") + (Letters(": ") + Letters("\"")))
    ensures Letters("\"}") == Letters("\"") + Letters("}")
  {
  }

  /** A value equal to the message is the message. */
  lemma EqualToMessage(v: Json, uid: bytes, nickname: bytes, text: bytes)
    requires Equal(v, Message(uid, nickname, text))
    ensures v == Message(uid, nickname, text)
  {
    var fields := Message(uid, nickname, text).fields;
    assert fields[1..] == [fields[1], fields[2]] && fields[1..][1..] == [fields[2]];
    var got := v.fields;
    EqualHead(got, fields);
    EqualHead(got[1..], fields[1..]);
    EqualHead(got[1..][1..], fields[1..][1..]);
    assert got == [got[0], got[1], got[2]];
  }

  /**
   What is published is parsed back to the very same object, and its fields decode to the nickname
   and the text that went in, whatever bytes these are.
   */
  lemma MessageTravels(uid: bytes, nickname: bytes, text: bytes, format: real -> bytes, strtod: bytes -> Extended)
    requires FormatsNumbers(format) && ExactOnIntegers(strtod)
    ensures var msg := Render(TreeOf(Message(uid, nickname, text), format));
            && ReadDocument(msg, false).Some?
            && Meaning(ReadDocument(msg, false).v.value, strtod) == Message(uid, nickname, text)
    ensures var fields := Message(uid, nickname, text).fields;
            && Lookup(fields, UID) == Some(Str(uid))
            && Lookup(fields, NICKNAME).Some? && Lookup(fields, NICKNAME).v.Str?
            && Base64.Decoded(Lookup(fields, NICKNAME).v.s) == nickname
            && Lookup(fields, TEXT).Some? && Lookup(fields, TEXT).v.Str?
            && Base64.Decoded(Lookup(fields, TEXT).v.s) == text
  {
    hide Render, TreeOf, ReadDocument, Meaning, Equal, FormatsNumbers, ExactOnIntegers, AllFinite,
         Base64.Encoded, Base64.Decoded, StringLess, Proper, Levels;
    var v := Message(uid, nickname, text);
    MessageIsProper(uid, nickname, text);
    MessageIsRepresentable(uid, nickname, text, format, strtod);
    DumpIsRead(v, format, strtod);
    EqualToMessage(Meaning(TreeOf(v, format), strtod), uid, nickname, text);
    Base64.DecodesEncoded(nickname);
    Base64.DecodesEncoded(text);
    LookupMessage(uid, nickname, text);
  }

  lemma MessageIsRepresentable(uid: bytes, nickname: bytes, text: bytes,
                               format: real -> bytes, strtod: bytes -> Extended)
    ensures Representable(Message(uid, nickname, text), format, strtod) && AllFinite(Message(uid, nickname, text))
  {
  }

  lemma LookupMessage(uid: bytes, nickname: bytes, text: bytes)
    ensures var fields := Message(uid, nickname, text).fields;
            && Lookup(fields, UID) == Some(Str(uid))
            && Lookup(fields, NICKNAME) == Some(Str(Base64.Encoded(nickname)))
            && Lookup(fields, TEXT) == Some(Str(Base64.Encoded(text)))
  {
    var fields := Message(uid, nickname, text).fields;
    assert fields[1..] == [fields[1], fields[2]] && fields[1..][1..] == [fields[2]];
    assert Lookup(fields[1..][1..], UID) == Some(Str(uid));
    assert NICKNAME != TEXT && NICKNAME != UID && TEXT != UID by {
      assert |NICKNAME| == 8 && |UID| == 3 && |TEXT| == 4;
    }
  }
}
