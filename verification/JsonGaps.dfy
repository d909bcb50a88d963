/**
 Pieces of text, and the gaps between tokens: where the reader's whitespace and comments end is
 where those of the grammar do.
 */
module JsonGaps {
  import opened Bytes
  import opened JsonGrammar
  import opened JsonReading

  // ---------------------------------------------------------------- pieces of text

  lemma HasSlice(t: bytes, i: nat, j: nat)
    requires i <= j <= |t|
    ensures Has(t, i, t[i..j])
  {
  }

  lemma HasConcat(t: bytes, i: nat, a: bytes, b: bytes)
    ensures Has(t, i, a + b) <==> Has(t, i, a) && Has(t, i + |a|, b)
  {
    var n := i + |a| + |b|;
    if n <= |t| {
      assert t[i..n] == t[i..i + |a|] + t[i + |a|..n];
      if Has(t, i, a + b) {
        assert t[i..i + |a|] == (t[i..n])[..|a|];
        assert t[i + |a|..n] == (t[i..n])[|a|..];
      }
    }
  }

  lemma HasHead(t: bytes, i: nat, b: byte, rest: bytes)
    ensures Has(t, i, [b] + rest) <==> i < |t| && t[i] == b && Has(t, i + 1, rest)
  {
    HasConcat(t, i, [b], rest);
    if i < |t| { assert t[i..i + 1] == [t[i]]; }
  }

  lemma HasOne(t: bytes, i: nat, b: byte)
    ensures Has(t, i, [b]) <==> i < |t| && t[i] == b
  {
  }

  lemma HasAt(t: bytes, i: nat, x: bytes, k: nat)
    requires Has(t, i, x) && k < |x|
    ensures i + k < |t| && t[i + k] == x[k] && At(t, i + k) == x[k]
  {
  }

  lemma HasFits(t: bytes, i: nat, x: bytes)
    requires Has(t, i, x)
    ensures i + |x| <= |t|
  {
  }

  // ---------------------------------------------------------------- whitespace

  lemma {:induction false} WsSound(t: bytes, i: nat)
    requires i <= |t|
    ensures AllWs(t[i..WsEnd(t, i)]) && !IsWs(At(t, WsEnd(t, i)))
    decreases |t| - i
  {
    if IsWs(At(t, i)) {
      WsSound(t, i + 1);
      var j := WsEnd(t, i + 1);
      assert t[i..j] == [t[i]] + t[i + 1..j];
    }
  }

  lemma {:induction false} WsComplete(t: bytes, i: nat, w: bytes)
    requires AllWs(w) && Has(t, i, w) && !IsWs(At(t, i + |w|))
    ensures WsEnd(t, i) == i + |w|
    decreases |w|
  {
    if w != [] {
      HasAt(t, i, w, 0);
      assert w == [w[0]] + w[1..];
      HasHead(t, i, w[0], w[1..]);
      WsComplete(t, i + 1, w[1..]);
    }
  }

  // ---------------------------------------------------------------- gaps

  lemma {:induction false} WsIsGap(s: bytes, comments: bool)
    ensures AllWs(s) ==> Gap(s, comments)
    ensures !comments && Gap(s, comments) ==> AllWs(s)
  {
    if s != [] {
      WsIsGap(s[1..], comments);
      assert s == [s[0]] + s[1..];
    }
  }

  lemma {:induction false} GapConcat(a: bytes, b: bytes, comments: bool)
    requires Gap(a, comments) && Gap(b, comments)
    ensures Gap(a + b, comments)
    decreases |a|
  {
    hide Comment;
    var s := a + b;
    if a == [] {
      assert s == b;
    } else if IsWs(a[0]) && Gap(a[1..], comments) {
      assert s[1..] == a[1..] + b;
      GapConcat(a[1..], b, comments);
    } else {
      var k :| 0 < k <= |a| && Comment(a[..k]) && Gap(a[k..], comments);
      assert s[..k] == a[..k] && s[k..] == a[k..] + b;
      GapConcat(a[k..], b, comments);
    }
  }

  lemma LastGapConcat(a: bytes, b: bytes, comments: bool)
    requires Gap(a, comments) && LastGap(b, comments)
    ensures LastGap(a + b, comments)
  {
    hide Gap, LineComment;
    if Gap(b, comments) {
      GapConcat(a, b, comments);
    } else {
      var k :| 0 <= k <= |b| && Gap(b[..k], comments) && LineComment(b[k..]);
      GapConcat(a, b[..k], comments);
      assert (a + b)[..|a| + k] == a + b[..k] && (a + b)[|a| + k..] == b[k..];
    }
  }

  lemma CommentIsGap(s: bytes)
    requires Comment(s)
    ensures Gap(s, true) && |s| >= 2
  {
    assert s[..|s|] == s && s[|s|..] == [];
  }

  /** Whitespace at the front does not matter to where garbage ends. */
  lemma GarbageSkipsWs(t: bytes, i: nat, comments: bool)
    requires i < |t| && IsWs(t[i])
    ensures GarbageEnd(t, i, comments) == GarbageEnd(t, i + 1, comments)
  {
  }

  lemma {:induction false} LineEndIs(t: bytes, i: nat, j: nat)
    requires i <= j <= |t| && (forall k :: i <= k < j ==> t[k] != NEWLINE) && (j < |t| ==> t[j] == NEWLINE)
    ensures LineEnd(t, i) == j
    decreases j - i
  {
    if i < j { LineEndIs(t, i + 1, j); }
  }

  lemma {:induction false} LineEndStops(t: bytes, i: nat)
    requires i <= |t|
    ensures forall k :: i <= k < LineEnd(t, i) ==> t[k] != NEWLINE
    ensures LineEnd(t, i) < |t| ==> t[LineEnd(t, i)] == NEWLINE
    decreases |t| - i
  {
    if i < |t| && t[i] != NEWLINE { LineEndStops(t, i + 1); }
  }

  lemma {:induction false} BlockEndIs(t: bytes, i: nat, j: nat)
    requires i <= j && Closes(t, j) && forall k :: i <= k < j ==> !Closes(t, k)
    ensures BlockEnd(t, i) == Some(j + 2)
    decreases j - i
  {
    if i < j {
      assert !Closes(t, i);
      BlockEndIs(t, i + 1, j);
    }
  }

  lemma {:induction false} BlockEndCloses(t: bytes, i: nat)
    requires i <= |t| && BlockEnd(t, i).Some?
    ensures i <= BlockEnd(t, i).v - 2 && Closes(t, BlockEnd(t, i).v - 2)
    ensures forall k :: i <= k < BlockEnd(t, i).v - 2 ==> !Closes(t, k)
    decreases |t| - i
  {
    if !Closes(t, i) { BlockEndCloses(t, i + 1); }
  }

  /** What the reader takes for a comment is one; if it ends with the text, it is a line comment. */
  lemma CommentSound(t: bytes, i: nat)
    requires i < |t| && t[i] == SLASH && CommentEnd(t, i).Some?
    ensures var e := CommentEnd(t, i).v;
            if t[i + 1] == STAR then Comment(t[i..e])
            else t[i + 1] == SLASH && LineComment(t[i..e]) && (e < |t| ==> t[e] == NEWLINE && Comment(t[i..e + 1]))
  {
    var e := CommentEnd(t, i).v;
    var s := t[i..e];
    if t[i + 1] == STAR {
      BlockEndCloses(t, i + 2);
      assert Closes(s, |s| - 2);
      forall k | 2 <= k < |s| - 2 ensures !Closes(s, k) {
        assert !Closes(t, i + k);
      }
    } else {
      LineEndStops(t, i + 2);
      if e < |t| { assert t[i..e + 1][..e - i] == s; }
    }
  }

  /** A comment is taken for one, up to its line feed or its end. */
  lemma CommentComplete(t: bytes, i: nat, s: bytes)
    requires Comment(s) && Has(t, i, s)
    ensures i < |t| && t[i] == SLASH
    ensures CommentEnd(t, i) == Some(i + |s|)
         || (CommentEnd(t, i) == Some(i + |s| - 1) && i + |s| - 1 < |t| && t[i + |s| - 1] == NEWLINE)
  {
    assert s == t[i..i + |s|];
    if BlockComment(s) {
      assert Closes(t, i + |s| - 2);
      forall k | i + 2 <= k < i + |s| - 2 ensures !Closes(t, k) {
        assert !Closes(s, k - i);
      }
      BlockEndIs(t, i + 2, i + |s| - 2);
    } else {
      var line := s[..|s| - 1];
      forall k | i + 2 <= k < i + |s| - 1 ensures t[k] != NEWLINE {
        assert line[2..][k - i - 2] == s[k - i] == t[k];
      }
      LineEndIs(t, i + 2, i + |s| - 1);
    }
  }

  lemma {:induction false} GapSound(t: bytes, i: nat, comments: bool)
    requires i <= |t| && GarbageEnd(t, i, comments).Some?
    ensures var g := GarbageEnd(t, i, comments).v;
            && (if g < |t| then Gap(t[i..g], comments) else LastGap(t[i..g], comments))
            && !IsWs(At(t, g)) && (comments ==> At(t, g) != SLASH)
    decreases |t| - i
  {
    hide Comment, LineComment, Gap, LastGap;
    var w, g := WsEnd(t, i), GarbageEnd(t, i, comments).v;
    WsSound(t, i);
    WsIsGap(t[i..w], comments);
    if g == w {
      GapIsLast(t[i..w], comments);
    }
    if comments && At(t, w) == SLASH {
      CommentSound(t, w);
      var e := CommentEnd(t, w).v;
      if t[w + 1] == SLASH && e < |t| {
        GarbageSkipsWs(t, e, comments);
        GapBehind(t, i, w, e + 1, comments);
      } else if t[w + 1] == SLASH {
        GarbageAtEnd(t, comments);
        LineIsLast(t[w..e]);
        LastGapConcat(t[i..w], t[w..e], comments);
        assert t[i..e] == t[i..w] + t[w..e];
      } else {
        GapBehind(t, i, w, e, comments);
      }
    }
  }

  lemma GapIsLast(s: bytes, comments: bool)
    requires Gap(s, comments)
    ensures LastGap(s, comments)
  {
  }

  lemma LineIsLast(s: bytes)
    requires LineComment(s)
    ensures LastGap(s, true)
  {
    assert s[..0] == [] && s[0..] == s;
  }

  lemma GarbageAtEnd(t: bytes, comments: bool)
    ensures GarbageEnd(t, |t|, comments) == Some(|t|) && At(t, |t|) == 0
  {
  }

  /** Whitespace from `i` to `w`, a comment from `w` to `e`, and what garbage there is behind it. */
  lemma {:induction false} GapBehind(t: bytes, i: nat, w: nat, e: nat, comments: bool)
    requires comments && i <= w < e <= |t| && Gap(t[i..w], comments) && Comment(t[w..e])
    requires GarbageEnd(t, e, comments).Some?
    ensures var g := GarbageEnd(t, e, comments).v;
            && (if g < |t| then Gap(t[i..g], comments) else LastGap(t[i..g], comments))
            && !IsWs(At(t, g)) && At(t, g) != SLASH
    decreases |t| - i, 0
  {
    hide Gap, LastGap, Comment;
    var g := GarbageEnd(t, e, comments).v;
    CommentIsGap(t[w..e]);
    GapConcat(t[i..w], t[w..e], comments);
    assert t[i..e] == t[i..w] + t[w..e] && t[i..g] == t[i..e] + t[e..g];
    GapSound(t, e, comments);
    if g < |t| { GapConcat(t[i..e], t[e..g], comments); } else { LastGapConcat(t[i..e], t[e..g], comments); }
  }

  lemma GarbageSkipsComment(t: bytes, i: nat, s: bytes)
    requires Comment(s) && Has(t, i, s)
    ensures i + |s| <= |t| && GarbageEnd(t, i, true) == GarbageEnd(t, i + |s|, true)
  {
    hide Comment, CommentEnd;
    CommentComplete(t, i, s);
    assert WsEnd(t, i) == i;
    if CommentEnd(t, i) != Some(i + |s|) { GarbageSkipsWs(t, i + |s| - 1, true); }
  }

  /** A gap that is not empty begins with whitespace or with a comment. */
  lemma GapFront(w: bytes, comments: bool) returns (k: nat)
    requires Gap(w, comments) && w != []
    ensures 0 < k <= |w| && Gap(w[k..], comments) && w == w[..k] + w[k..]
    ensures (k == 1 && IsWs(w[0]) && w[..k] == [w[0]]) || (comments && Comment(w[..k]))
  {
    hide Comment;
    if IsWs(w[0]) && Gap(w[1..], comments) {
      k := 1;
    } else {
      k :| 0 < k <= |w| && Comment(w[..k]) && Gap(w[k..], comments);
    }
  }

  /** A gap does not matter to where the garbage behind it ends. */
  lemma {:induction false} GarbageBehindGap(t: bytes, i: nat, w: bytes, comments: bool)
    requires Gap(w, comments) && Has(t, i, w) && i <= |t|
    ensures i + |w| <= |t| && GarbageEnd(t, i, comments) == GarbageEnd(t, i + |w|, comments)
    decreases |w|
  {
    hide Comment, Gap, Has, GarbageEnd;
    if w != [] {
      var k := GapFront(w, comments);
      HasConcat(t, i, w[..k], w[k..]);
      HasFits(t, i, w[..k]);
      if IsWs(w[0]) && k == 1 {
        assert w[..k] == [w[0]];
        HasOne(t, i, w[0]);
        GarbageSkipsWs(t, i, comments);
      } else {
        GarbageSkipsComment(t, i, w[..k]);
      }
      GarbageBehindGap(t, i + k, w[k..], comments);
    }
  }

  lemma GarbageStops(t: bytes, i: nat, comments: bool)
    requires i <= |t| && !IsWs(At(t, i)) && (comments ==> At(t, i) != SLASH)
    ensures GarbageEnd(t, i, comments) == Some(i)
  {
  }

  lemma GapComplete(t: bytes, i: nat, w: bytes, comments: bool)
    requires Gap(w, comments) && Has(t, i, w)
    requires i + |w| <= |t| && !IsWs(At(t, i + |w|)) && (comments ==> At(t, i + |w|) != SLASH)
    ensures GarbageEnd(t, i, comments) == Some(i + |w|)
  {
    hide Gap, Has;
    GarbageBehindGap(t, i, w, comments);
    GarbageStops(t, i + |w|, comments);
  }

  /** At the end of the text, a line comment may stay open. */
  lemma LastGapComplete(t: bytes, i: nat, w: bytes, comments: bool)
    requires LastGap(w, comments) && Has(t, i, w) && i + |w| == |t|
    ensures GarbageEnd(t, i, comments) == Some(|t|)
  {
    hide Gap, Has, GarbageEnd, LineComment;
    GarbageAtEnd(t, comments);
    if Gap(w, comments) {
      GarbageBehindGap(t, i, w, comments);
    } else {
      var k :| 0 <= k <= |w| && Gap(w[..k], comments) && LineComment(w[k..]);
      assert w == w[..k] + w[k..];
      HasConcat(t, i, w[..k], w[k..]);
      OpenLine(t, i + k, w[k..]);
      GarbageBehindGap(t, i, w[..k], comments);
    }
  }

  lemma OpenLine(t: bytes, i: nat, s: bytes)
    requires LineComment(s) && Has(t, i, s) && i + |s| == |t|
    ensures GarbageEnd(t, i, true) == Some(|t|)
  {
    assert s == t[i..];
    forall k | i + 2 <= k < |t| ensures t[k] != NEWLINE {
      assert t[k] == s[2..][k - i - 2];
    }
    LineEndIs(t, i + 2, |t|);
    assert WsEnd(t, i) == i && CommentEnd(t, i) == Some(|t|);
    GarbageAtEnd(t, true);
  }

  lemma {:induction false} WsAgain(t: bytes, i: nat)
    requires i <= |t|
    ensures WsEnd(t, WsEnd(t, i)) == WsEnd(t, i)
  {
    WsSound(t, i);
  }

  /** Skipping garbage twice is skipping it once. */
  lemma {:induction false} GarbageAgain(t: bytes, i: nat, comments: bool)
    requires i <= |t| && GarbageEnd(t, i, comments).Some?
    ensures var g := GarbageEnd(t, i, comments).v; GarbageEnd(t, g, comments) == Some(g)
    decreases |t| - i
  {
    var w := WsEnd(t, i);
    WsAgain(t, i);
    if comments && At(t, w) == SLASH {
      GarbageAgain(t, CommentEnd(t, w).v, comments);
    }
  }
}
