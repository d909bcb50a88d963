/**
 Texts with comments in them, and texts of several documents: the first mean what they mean with a
 blank for every comment, the second are read as one document after the other.
 */
module JsonDocuments {
  import opened Bytes
  import opened JsonValue
  import opened JsonGrammar
  import opened JsonReading
  import opened JsonGaps
  import opened JsonRecognition

  // ---------------------------------------------------------------- comments are blanks

  /** A gap with a blank for every comment; a line comment keeps its line feed. */
  function Blanked(s: bytes): bytes
    decreases |s|
  {
    if s == [] then []
    else if s[0] != SLASH then [s[0]] + Blanked(s[1..])
    else
      match CommentEnd(s, 0)
      case None => s
      case Some(e) => [0x20] + Blanked(s[e..])
  }

  function BlankedTree(c: Cst): Cst
    decreases c, 0
  {
    match c
    case CArr(ws, items) => CArr(Blanked(ws), BlankedItems(items))
    case CObj(ws, members) => CObj(Blanked(ws), BlankedMembers(members))
    case _ => c
  }

  function BlankedElem(e: Elem): Elem
    decreases e, 1
  {
    Elem(Blanked(e.before), BlankedTree(e.value), Blanked(e.after))
  }

  function BlankedItems(items: seq<Elem>): seq<Elem>
    decreases items, 2
  {
    if items == [] then [] else [BlankedElem(items[0])] + BlankedItems(items[1..])
  }

  function BlankedMembers(ms: seq<Member>): seq<Member>
    decreases ms, 2
  {
    if ms == [] then []
    else
      var m := ms[0];
      [Member(Blanked(m.before), m.key, Blanked(m.afterKey), BlankedElem(m.elem))] + BlankedMembers(ms[1..])
  }

  lemma BlankedComment(s: bytes, n: nat)
    requires n <= |s| && Comment(s[..n])
    ensures Blanked(s) == [0x20] + Blanked(s[n..]) || Blanked(s) == [0x20] + ([NEWLINE] + Blanked(s[n..]))
  {
    hide Comment, CommentEnd;
    HasSlice(s, 0, n);
    CommentComplete(s, 0, s[..n]);
    if CommentEnd(s, 0) != Some(n) { assert s[n - 1..][1..] == s[n..]; }
  }

  lemma BlankedWs(s: bytes)
    requires s != [] && IsWs(s[0])
    ensures Blanked(s) == [s[0]] + Blanked(s[1..])
  {
  }

  /** A gap, with or without an open line comment behind it, is whitespace once its comments are blanks. */
  lemma {:induction false} BlankedGap(s: bytes, k: nat)
    requires k <= |s| && Gap(s[..k], true) && (k == |s| || LineComment(s[k..]))
    ensures AllWs(Blanked(s))
    decreases |s|
  {
    hide Gap, Comment, Blanked, LineComment;
    if k > 0 {
      var w := s[..k];
      var n := GapFront(w, true);
      assert w[..n] == s[..n] && s[k..] == s[n..][k - n..];
      assert w[n..] == s[n..k] == s[n..][..k - n];
      BlankedGap(s[n..], k - n);
      if n == 1 && IsWs(w[0]) { BlankedWs(s); } else { BlankedComment(s, n); }
    } else if s != [] {
      assert s[0..] == s;
      OpenLineEnds(s);
    } else {
      NothingBlanked();
    }
  }

  lemma NothingBlanked()
    ensures Blanked([]) == []
  {
  }

  lemma OpenLineEnds(s: bytes)
    requires LineComment(s)
    ensures Blanked(s) == [0x20]
  {
    forall k | 2 <= k < |s| ensures s[k] != NEWLINE {
      assert s[k] == s[2..][k - 2];
    }
    LineEndIs(s, 2, |s|);
    assert CommentEnd(s, 0) == Some(|s|) && s[|s|..] == [];
  }

  lemma BlankedGaps(s: bytes)
    requires LastGap(s, true)
    ensures Gap(Blanked(s), false) && (s == [] ==> Blanked(s) == [])
  {
    hide Gap;
    if Gap(s, true) {
      assert s[..|s|] == s;
      BlankedGap(s, |s|);
    } else {
      var k :| 0 <= k <= |s| && Gap(s[..k], true) && LineComment(s[k..]);
      BlankedGap(s, k);
    }
    WsIsGap(Blanked(s), false);
  }

  /** With blanks for comments a tree is one of RFC 8259, just as deep, and means the same. */
  lemma {:induction false} TreeBlanked(c: Cst, strtod: bytes -> Extended)
    requires Grammatical(c, true)
    ensures Grammatical(BlankedTree(c), false) && Depth(BlankedTree(c)) == Depth(c)
    ensures Meaning(BlankedTree(c), strtod) == Meaning(c, strtod)
    decreases c, 0
  {
    hide Gap, NumOk, CharsOk, Blanked;
    match c
    case CArr(ws, items) =>
      BlankedGaps(ws);
      ItemsBlanked(items, strtod);
    case CObj(ws, members) =>
      BlankedGaps(ws);
      MembersBlanked(members, [], strtod);
    case _ =>
  }

  lemma {:induction false} ElemBlanked(e: Elem, strtod: bytes -> Extended)
    requires ElemOk(e, true)
    ensures ElemOk(BlankedElem(e), false) && Depth(BlankedElem(e).value) == Depth(e.value)
    ensures Meaning(BlankedElem(e).value, strtod) == Meaning(e.value, strtod)
    decreases e, 1
  {
    hide Gap, Grammatical, Depth, Meaning, Blanked, BlankedTree;
    BlankedGaps(e.before);
    BlankedGaps(e.after);
    TreeBlanked(e.value, strtod);
  }

  lemma {:induction false} ItemsBlanked(items: seq<Elem>, strtod: bytes -> Extended)
    requires ItemsOk(items, true)
    ensures ItemsOk(BlankedItems(items), false) && DepthItems(BlankedItems(items)) == DepthItems(items)
    ensures MeaningItems(BlankedItems(items), strtod) == MeaningItems(items, strtod)
    ensures BlankedItems(items) == [] <==> items == []
    decreases items, 2
  {
    hide ElemOk, Depth, Meaning, BlankedElem;
    if items != [] {
      ElemBlanked(items[0], strtod);
      ItemsBlanked(items[1..], strtod);
      assert BlankedItems(items)[1..] == BlankedItems(items[1..]);
    }
  }

  lemma {:induction false} MembersBlanked(ms: seq<Member>, fields: seq<Field>, strtod: bytes -> Extended)
    requires MembersOk(ms, true)
    ensures MembersOk(BlankedMembers(ms), false) && DepthMembers(BlankedMembers(ms)) == DepthMembers(ms)
    ensures MeaningMembers(fields, BlankedMembers(ms), strtod) == MeaningMembers(fields, ms, strtod)
    ensures BlankedMembers(ms) == [] <==> ms == []
    decreases ms, 2
  {
    hide ElemOk, Depth, Meaning, BlankedElem, Gap, CharsOk, Put, StringMeaning, Blanked;
    if ms != [] {
      BlankedGaps(ms[0].before);
      BlankedGaps(ms[0].afterKey);
      ElemBlanked(ms[0].elem, strtod);
      MembersBlanked(ms[1..], Put(fields, StringMeaning(ms[0].key), Meaning(ms[0].elem.value, strtod)), strtod);
      assert BlankedMembers(ms)[1..] == BlankedMembers(ms[1..]);
    }
  }

  /** In COMMENTS, a text is read as the text with a blank for every comment is read in STANDARD. */
  lemma CommentsAreBlanks(e: Elem, strtod: bytes -> Extended)
    requires DocumentOk(e, true)
    ensures DocumentOk(BlankedElem(e), false)
    ensures ReadDocument(RenderElem(e), true)
         == if Depth(e.value) <= MAX_DEPTH then Some(e) else None
    ensures ReadDocument(RenderElem(BlankedElem(e)), false)
         == if Depth(e.value) <= MAX_DEPTH then Some(BlankedElem(e)) else None
    ensures Meaning(BlankedElem(e).value, strtod) == Meaning(e.value, strtod)
  {
    hide Gap, LastGap, Grammatical, Depth, Meaning, Blanked, BlankedTree, RenderElem, ReadDocument;
    GapIsLast(e.before, true);
    BlankedGaps(e.before);
    BlankedGaps(e.after);
    TreeBlanked(e.value, strtod);
    var f := BlankedElem(e);
    GapIsLast(f.after, false);
    ReadUnlessTooDeep(e, true);
    ReadUnlessTooDeep(f, false);
    ReadsExactlyTheGrammar(RenderElem(e), true);
    ReadsExactlyTheGrammar(RenderElem(f), false);
    assert Depth(e.value) <= MAX_DEPTH ==> Derives(e, RenderElem(e), true) && Derives(f, RenderElem(f), false);
  }

  // ---------------------------------------------------------------- several documents

  ghost function RenderMany(es: seq<Elem>): bytes {
    if es == [] then [] else RenderElem(es[0]) + RenderMany(es[1..])
  }

  /** A number must not go on into what follows it. */
  ghost predicate EndsBefore(e: Elem, rest: bytes) {
    e.value.CNum? && e.after == [] && rest != [] ==> EndsNumber(rest[0])
  }

  /** Documents each of which ends where the next can begin; gaps between them belong to the first of two. */
  ghost predicate ManyOk(es: seq<Elem>, comments: bool) {
    es != [] ==>
    && DocumentOk(es[0], comments) && Depth(es[0].value) <= MAX_DEPTH
    && (|es| > 1 ==> Gap(es[0].after, comments) && es[1].before == [] && EndsBefore(es[0], RenderMany(es[1..])))
    && ManyOk(es[1..], comments)
  }

  ghost predicate DerivesMany(es: seq<Elem>, t: bytes, comments: bool) {
    ManyOk(es, comments) && RenderMany(es) == t
  }

  ghost function Trees(es: seq<Elem>): (cs: seq<Option<Cst>>)
    ensures |cs| == |es|
  {
    if es == [] then [] else [Some(es[0].value)] + Trees(es[1..])
  }

  lemma {:induction false} TreesAt(es: seq<Elem>)
    ensures forall k :: 0 <= k < |es| ==> Trees(es)[k] == Some(es[k].value)
  {
    if es != [] {
      TreesAt(es[1..]);
      assert forall k :: 1 <= k < |es| ==> es[k] == es[1..][k - 1];
    }
  }

  /** A document, with a number ended by what follows, and where the gap behind it ends. */
  lemma FirstIsRead(t: bytes, i: nat, e: Elem, comments: bool)
    requires DocumentOk(e, comments) && Depth(e.value) <= MAX_DEPTH && i <= |t| && Has(t, i, RenderElem(e))
    requires var g := i + |RenderElem(e)|;
             if g == |t| then true
             else Gap(e.after, comments) && !IsWs(At(t, g)) && At(t, g) != SLASH && EndsBefore(e, [At(t, g)])
    ensures var j := i + |e.before| + |Render(e.value)|;
            ReadValue(t, i, 0, comments) == Some((e.before, e.value, j))
            && j <= |t| && GarbageEnd(t, j, comments) == Some(i + |RenderElem(e)|)
  {
    hide Gap, LastGap, Grammatical, Render, RenderElem, Has, GarbageEnd, ReadValue, Depth;
    ElemHas(t, i, e);
    var j := i + |e.before| + |Render(e.value)|;
    var g := i + |RenderElem(e)|;
    HasFits(t, j, e.after);
    if g == |t| { LastGapComplete(t, j, e.after, comments); } else { GapComplete(t, j, e.after, comments); }
    if e.after != [] { GapEndsNumber(t, j, e.after, comments); }
    ValueComplete(t, i, 0, e.before, e.value, comments);
  }

  lemma {:induction false} ManyComplete(t: bytes, i: nat, stop: nat, es: seq<Elem>, comments: bool)
    requires ManyOk(es, comments) && i <= |t| && Has(t, i, RenderMany(es)) && i + |RenderMany(es)| == |t|
    ensures ReadMany(t, i, stop, comments) == (Trees(es), if es == [] then stop else |t|, true)
    decreases |es|
  {
    hide Gap, Has, DocumentOk, Depth, RenderElem, ReadValue, GarbageEnd;
    if es != [] {
      var e, rest := es[0], RenderMany(es[1..]);
      HasConcat(t, i, RenderElem(e), rest);
      var g := i + |RenderElem(e)|;
      HasFits(t, i, RenderElem(e));
      if |es| > 1 { NextBegins(t, g, es[1..], comments); } else { assert rest == []; }
      FirstIsRead(t, i, e, comments);
      ManyComplete(t, g, g, es[1..], comments);
    }
  }

  lemma TextNotEmpty(c: Cst, comments: bool)
    requires Grammatical(c, comments)
    ensures Render(c) != []
  {
    HasAll(Render(c), Render(c));
    ValueStart(Render(c), 0, c, comments);
  }

  /** The text of a further document begins with its value. */
  lemma NextBegins(t: bytes, i: nat, es: seq<Elem>, comments: bool)
    requires es != [] && ManyOk(es, comments) && es[0].before == [] && Has(t, i, RenderMany(es))
    ensures i < |t| && RenderMany(es) != [] && RenderMany(es)[0] == At(t, i)
    ensures !IsWs(At(t, i)) && At(t, i) != SLASH && StartsValue(es[0].value, At(t, i))
  {
    hide Gap, Render, Grammatical, Has, LastGap, Depth;
    var e := es[0];
    HasConcat(t, i, RenderElem(e), RenderMany(es[1..]));
    ElemHas(t, i, e);
    ValueStart(t, i, e.value, comments);
    TextNotEmpty(e.value, comments);
    HasAt(t, i, RenderMany(es), 0);
  }

  /** A number is read as far as it goes: no digit follows it. */
  lemma NumberEnds(t: bytes, i: nat)
    requires i <= |t| && ReadNumber(t, i).Some?
    ensures !IsDigit(At(t, ReadNumber(t, i).v.1))
  {
    hide TokenAt;
    var b := WholeEnd(t, if At(t, i) == 0x2D then i + 1 else i).v;
    var c := FracEnd(t, b).v;
    if At(t, b) == 0x2E { DigitsSound(t, b + 1); }
    if IsE(At(t, c)) { DigitsSound(t, AfterSign(t, c)); }
    DigitsSound(t, if At(t, i) == 0x2D then i + 2 else i + 1);
  }

  /** A number that has been read ends before anything that begins a value. */
  lemma NumberEndsBefore(t: bytes, i: nat, comments: bool, next: Cst)
    requires i <= |t| && ReadValue(t, i, 0, comments).Some? && ReadValue(t, i, 0, comments).v.1.CNum?
    requires StartsValue(next, At(t, ReadValue(t, i, 0, comments).v.2))
    ensures EndsNumber(At(t, ReadValue(t, i, 0, comments).v.2))
  {
    hide ReadNumber, ReadString, ReadItems, ReadMembers, GarbageEnd, ReadWord;
    var g := GarbageEnd(t, i, comments).v;
    NumberIsRead(t, g, comments);
    NumberEnds(t, g);
  }

  lemma NumberIsRead(t: bytes, i: nat, comments: bool)
    requires i <= |t| && ReadBare(t, i, 0, comments).Some? && ReadBare(t, i, 0, comments).v.0.CNum?
    ensures ReadNumber(t, i).Some? && ReadNumber(t, i).v.1 == ReadBare(t, i, 0, comments).v.1
  {
    hide ReadNumber, ReadString, ReadItems, ReadMembers, GarbageEnd;
  }

  /** What `ReadMany` reads to the end is a text of several documents. */
  lemma {:induction false} ManySound(t: bytes, i: nat, stop: nat, comments: bool) returns (es: seq<Elem>)
    requires i <= |t| && ReadMany(t, i, stop, comments).2
    ensures ManyOk(es, comments) && Has(t, i, RenderMany(es)) && i + |RenderMany(es)| == |t|
    ensures GarbageEnd(t, i, comments) == Some(i) && es != [] ==> es[0].before == []
    decreases |t| - i
  {
    hide Gap, LastGap, Has, ReadValue, GarbageEnd, RenderElem, Grammatical, Depth, ReadsAs;
    if i == |t| {
      es := [];
      HasSlice(t, i, i);
      assert t[i..i] == [];
    } else {
      var (w, c, j) := ReadValue(t, i, 0, comments).v;
      var g := GarbageEnd(t, j, comments).v;
      var e := Elem(w, c, t[j..g]);
      DocumentAt(t, i, e, g, comments);
      var rest := ManySound(t, g, g, comments);
      GarbageAgain(t, j, comments);
      es := [e] + rest;
      assert es[1..] == rest;
      HasConcat(t, i, RenderElem(e), RenderMany(rest));
      HasFits(t, g, RenderMany(rest));
      if rest != [] {
        NextBegins(t, g, rest, comments);
        if c.CNum? && e.after == [] { NumberEndsBefore(t, i, comments, rest[0].value); }
      }
      if GarbageEnd(t, i, comments) == Some(i) { NoGapInFront(t, i, comments); }
    }
  }

  lemma DocumentAt(t: bytes, i: nat, e: Elem, g: nat, comments: bool)
    requires i <= |t| && ReadValue(t, i, 0, comments).Some?
    requires var (w, c, j) := ReadValue(t, i, 0, comments).v;
             GarbageEnd(t, j, comments) == Some(g) && e == Elem(w, c, t[j..g])
    ensures DocumentOk(e, comments) && Depth(e.value) <= MAX_DEPTH && (g < |t| ==> Gap(e.after, comments))
    ensures Has(t, i, RenderElem(e)) && g == i + |RenderElem(e)|
  {
    hide Gap, LastGap, Has, ReadValue, GarbageEnd, RenderElem, Grammatical, Depth, Render;
    var (w, c, j) := ReadValue(t, i, 0, comments).v;
    ValueSound(t, i, 0, comments);
    GapSound(t, j, comments);
    if g < |t| { GapIsLast(e.after, comments); }
    HasSlice(t, j, g);
    ElemHas(t, i, e);
  }

  lemma NoGapInFront(t: bytes, i: nat, comments: bool)
    requires i <= |t| && GarbageEnd(t, i, comments) == Some(i) && ReadValue(t, i, 0, comments).Some?
    ensures ReadValue(t, i, 0, comments).v.0 == []
  {
    hide ReadBare;
  }

  /**
   `parse_multi` reads a text to its end exactly if it is a text of several documents, and then it
   finds their values, in order.
   */
  lemma ReadsManyDocuments(t: bytes, comments: bool)
    ensures ReadMany(t, 0, 0, comments).2 <==> exists es :: DerivesMany(es, t, comments)
    ensures forall es :: DerivesMany(es, t, comments) ==> ReadMany(t, 0, 0, comments) == (Trees(es), |t|, true)
  {
    hide ManyOk, ReadMany, RenderMany;
    if ReadMany(t, 0, 0, comments).2 {
      var es := ManySound(t, 0, 0, comments);
      HasAll(t, RenderMany(es));
      assert DerivesMany(es, t, comments);
    }
    forall es | DerivesMany(es, t, comments) ensures ReadMany(t, 0, 0, comments) == (Trees(es), |t|, true) {
      HasAll(t, RenderMany(es));
      ManyComplete(t, 0, 0, es, comments);
      NoDocuments();
    }
  }

  lemma NoDocuments()
    ensures RenderMany([]) == []
  {
  }
}
