/**
 Masking of WebSocket payloads (RFC 6455, section 5.3): byte by byte, word by word, and in pieces
 with a key that remembers how far the message has got. A word is 64 bits, little-endian.
 */
module Masking {
  import opened Buffers

  type octet = bv8
  type word = bv64

  // ---------------------------------------------------------------- the reference

  /** Octet i of the message is combined with octet i modulo 4 of the key; here from octet `offset` on. */
  function Masked(s: seq<octet>, key: seq<octet>, offset: nat): (m: seq<octet>)
    requires |key| == 4
    ensures |m| == |s|
  {
    seq(|s|, i requires 0 <= i < |s| => s[i] ^ key[(offset + i) % 4])
  }

  /** Masking twice restores the message. */
  lemma MaskingTwice(s: seq<octet>, key: seq<octet>, offset: nat)
    requires |key| == 4
    ensures Masked(Masked(s, key, offset), key, offset) == s
  {
  }

  /** Masking a message is masking its pieces, each from where the one before it ended. */
  lemma MaskedConcat(a: seq<octet>, b: seq<octet>, key: seq<octet>, offset: nat)
    requires |key| == 4
    ensures Masked(a + b, key, offset) == Masked(a, key, offset) + Masked(b, key, offset + |a|)
  {
  }

  // ---------------------------------------------------------------- words

  /** Octet k of a word in memory, lowest first. */
  function OctetOf(w: word, k: nat): octet
    requires k < 8
  {
    match k
    case 0 => (w & 0xFF) as octet
    case 1 => ((w >> 8) & 0xFF) as octet
    case 2 => ((w >> 16) & 0xFF) as octet
    case 3 => ((w >> 24) & 0xFF) as octet
    case 4 => ((w >> 32) & 0xFF) as octet
    case 5 => ((w >> 40) & 0xFF) as octet
    case 6 => ((w >> 48) & 0xFF) as octet
    case 7 => ((w >> 56) & 0xFF) as octet
  }

  function WordOf(s: seq<octet>): word
    requires |s| == 8
  {
    (s[0] as word) | (s[1] as word << 8) | (s[2] as word << 16) | (s[3] as word << 24)
    | (s[4] as word << 32) | (s[5] as word << 40) | (s[6] as word << 48) | (s[7] as word << 56)
  }

  lemma WordOfOctets(s: seq<octet>, k: nat)
    requires |s| == 8 && k < 8
    ensures OctetOf(WordOf(s), k) == s[k]
  {
    match k
    case 0 => case 1 => case 2 => case 3 => case 4 => case 5 => case 6 => case 7 =>
  }

  /** The octets of a word in memory. */
  function Octets(w: word): (s: seq<octet>)
    ensures |s| == 8
  {
    seq(8, k requires 0 <= k < 8 => OctetOf(w, k))
  }

  lemma OctetsBack(w: word)
    ensures WordOf(Octets(w)) == w
  {
  }

  lemma XorOctets(v: word, w: word, k: nat)
    requires k < 8
    ensures OctetOf(v ^ w, k) == OctetOf(v, k) ^ OctetOf(w, k)
  {
    match k
    case 0 => case 1 => case 2 => case 3 => case 4 => case 5 => case 6 => case 7 =>
  }

  /** `circshift_prepared_key` on a little-endian machine; shifting all of a word out leaves nothing. */
  function Circshift(w: word, offset: nat): word
    requires offset < 8
  {
    match offset
    case 0 => (w >> 0) | (w << 64)
    case 1 => (w >> 8) | (w << 56)
    case 2 => (w >> 16) | (w << 48)
    case 3 => (w >> 24) | (w << 40)
    case 4 => (w >> 32) | (w << 32)
    case 5 => (w >> 40) | (w << 24)
    case 6 => (w >> 48) | (w << 16)
    case 7 => (w >> 56) | (w << 8)
  }

  /** Shifting rotates the octets. */
  lemma CircshiftWord(s: seq<octet>, offset: nat)
    requires |s| == 8 && offset < 8
    ensures Circshift(WordOf(s), offset) == WordOf(s[offset..] + s[..offset])
  {
    match offset
    case 0 => case 1 => case 2 => case 3 => case 4 => case 5 => case 6 => case 7 =>
  }

  lemma CircshiftOctets(w: word, offset: nat, k: nat)
    requires offset < 8 && k < 8
    ensures OctetOf(Circshift(w, offset), k) == OctetOf(w, (k + offset) % 8)
  {
    hide OctetOf, Circshift, WordOf;
    var s := Octets(w);
    OctetsBack(w);
    CircshiftWord(s, offset);
    WordOfOctets(s[offset..] + s[..offset], k);
  }

  /** The word holds the key as it is to be used from octet `offset` of the message on. */
  ghost predicate Prepared(w: word, key: seq<octet>, offset: nat)
    requires |key| == 4
  {
    forall k :: 0 <= k < 8 ==> OctetOf(w, k) == key[(offset + k) % 4]
  }

  /** `prepare_masking_key`, from the 32-bit number that the key is stored as. */
  method PrepareMaskingKey(key: seq<octet>) returns (w: word)
    requires |key| == 4
    ensures Prepared(w, key, 0)
  {
    hide OctetOf, WordOf;
    var number := WordOf(key + [0, 0, 0, 0]);
    w := (number << 32) | number;
    TwiceIsPrepared(key, number);
  }

  lemma TwiceIsPrepared(key: seq<octet>, number: word)
    requires |key| == 4 && number == WordOf(key + [0, 0, 0, 0])
    ensures Prepared((number << 32) | number, key, 0)
  {
    hide OctetOf, WordOf;
    var w := (number << 32) | number;
    forall k | 0 <= k < 8 ensures OctetOf(w, k) == key[k % 4] {
      TwiceAt(key, number, k);
    }
  }

  lemma TwiceAt(key: seq<octet>, number: word, k: nat)
    requires |key| == 4 && number == WordOf(key + [0, 0, 0, 0]) && k < 8
    ensures OctetOf((number << 32) | number, k) == key[k % 4]
  {
    hide OctetOf, WordOf;
    var s := key + [0, 0, 0, 0];
    LowHalfTwice(number, k);
    WordOfOctets(s, k);
    if k < 4 {
      assert k % 4 == k;
    } else {
      assert k % 4 == k - 4 && s[k] == 0;
      WordOfOctets(s, k - 4);
      ZeroOr(key[k - 4]);
    }
  }

  lemma ZeroOr(x: octet)
    ensures 0 | x == x
  {
  }

  lemma LowHalfTwice(v: word, k: nat)
    requires k < 8
    ensures OctetOf((v << 32) | v, k) == if k < 4 then OctetOf(v, k) else OctetOf(v, k) | OctetOf(v, k - 4)
  {
    match k
    case 0 => case 1 => case 2 => case 3 => case 4 => case 5 => case 6 => case 7 =>
  }

  lemma ModFour(a: nat, m: nat)
    ensures (a + 4 * m) % 4 == a % 4
  {
  }

  lemma PreparedShift(w: word, key: seq<octet>, offset: nat, step: nat)
    requires |key| == 4 && step < 8 && Prepared(w, key, offset)
    ensures Prepared(Circshift(w, step), key, offset + step)
  {
    hide OctetOf, Circshift;
    forall k | 0 <= k < 8 ensures OctetOf(Circshift(w, step), k) == key[(offset + step + k) % 4] {
      CircshiftOctets(w, step, k);
      if k + step < 8 {
        assert (k + step) % 8 == k + step;
      } else {
        assert (k + step) % 8 == k + step - 8;
        ModFour(offset + (k + step - 8), 2);
      }
    }
  }

  lemma PreparedAlike(w: word, key: seq<octet>, offset: nat, more: nat)
    requires |key| == 4 && Prepared(w, key, offset)
    ensures Prepared(w, key, offset + 4 * more)
  {
    hide OctetOf;
    forall k | 0 <= k < 8 ensures OctetOf(w, k) == key[(offset + 4 * more + k) % 4] {
      ModFour(offset + k, more);
    }
  }

  // ---------------------------------------------------------------- buffers

  /** Where a masker may write: not onto input it has yet to read. */
  ghost predicate Fits(input: array<octet>, src: nat, output: array<octet>, dst: nat, length: nat) {
    src + length <= input.Length && dst + length <= output.Length && (input == output ==> src == dst)
  }

  /** `input_word[i]` */
  method ReadWord(data: array<octet>, at: nat) returns (w: word)
    requires at + 8 <= data.Length
    ensures Octets(w) == data[at..at + 8]
  {
    hide OctetOf, WordOf;
    w := WordOf(data[at..at + 8]);
    forall k | 0 <= k < 8 ensures OctetOf(w, k) == data[at + k] {
      WordOfOctets(data[at..at + 8], k);
    }
  }

  /** `output_word[i] = w` */
  method WriteWord(data: array<octet>, at: nat, w: word)
    requires at + 8 <= data.Length
    modifies data
    ensures data[..] == Overwritten(old(data[..]), at, Octets(w))
  {
    hide OctetOf, Overwritten;
    ghost var before := data[..];
    OverwriteNothing(before, at);
    for k := 0 to 8
      invariant data[..] == Overwritten(before, at, Octets(w)[..k])
    {
      assert Octets(w)[..k + 1] == Octets(w)[..k] + [OctetOf(w, k)];
      OverwriteMore(before, at, Octets(w)[..k], [OctetOf(w, k)]);
      OverwriteOne(data[..], at + k, OctetOf(w, k));
      label L:
      data[at + k] := OctetOf(w, k);
      assert data[..] == old@L(data[..])[at + k := OctetOf(w, k)];
    }
    assert Octets(w)[..8] == Octets(w);
  }

  // ---------------------------------------------------------------- one step of a masker

  /** The first i octets of the message `msg` have been masked, the others are still there to be read. */
  ghost predicate Progressed(input: seq<octet>, src: nat, output: seq<octet>, dst: nat,
                             msg: seq<octet>, before: seq<octet>, key: seq<octet>, offset: nat, i: nat)
  {
    && |key| == 4 && i <= |msg| && src + |msg| <= |input| && dst + |msg| <= |output| == |before|
    && input[src + i..src + |msg|] == msg[i..]
    && output == Overwritten(before, dst, Masked(msg[..i], key, offset))
  }

  ghost predicate Progress(input: array<octet>, src: nat, output: array<octet>, dst: nat,
                           msg: seq<octet>, before: seq<octet>, key: seq<octet>, offset: nat, i: nat)
    reads input, output
  {
    Fits(input, src, output, dst, |msg|) && Progressed(input[..], src, output[..], dst, msg, before, key, offset, i)
  }

  /** Writing what the next octets of the message are masked to goes on with it, also in place. */
  lemma Progresses(input: seq<octet>, src: nat, output: seq<octet>, dst: nat, inPlace: bool, t: seq<octet>,
                   msg: seq<octet>, before: seq<octet>, key: seq<octet>, offset: nat, i: nat)
    requires Progressed(input, src, output, dst, msg, before, key, offset, i) && i + |t| <= |msg|
    requires t == Masked(msg[i..i + |t|], key, offset + i) && (inPlace ==> input == output && src == dst)
    ensures var output' := Overwritten(output, dst + i, t);
            Progressed(if inPlace then output' else input, src, output', dst, msg, before, key, offset, i + |t|)
  {
    hide Masked, Overwritten;
    OutputGoesOn(before, dst, t, msg, key, offset, i);
    InputGoesOn(input, src, dst + i, inPlace, t, msg, i);
  }

  lemma OutputGoesOn(before: seq<octet>, dst: nat, t: seq<octet>, msg: seq<octet>, key: seq<octet>, offset: nat, i: nat)
    requires |key| == 4 && i + |t| <= |msg| && dst + |msg| <= |before|
    requires t == Masked(msg[i..i + |t|], key, offset + i)
    ensures Overwritten(Overwritten(before, dst, Masked(msg[..i], key, offset)), dst + i, t)
         == Overwritten(before, dst, Masked(msg[..i + |t|], key, offset))
  {
    hide Masked, Overwritten;
    var j := i + |t|;
    assert msg[..j] == msg[..i] + msg[i..j];
    MaskedConcat(msg[..i], msg[i..j], key, offset);
    OverwriteMore(before, dst, Masked(msg[..i], key, offset), t);
  }

  lemma InputGoesOn(input: seq<octet>, src: nat, at: nat, inPlace: bool, t: seq<octet>, msg: seq<octet>, i: nat)
    requires i + |t| <= |msg| && src + |msg| <= |input| && input[src + i..src + |msg|] == msg[i..]
    requires inPlace ==> at == src + i
    ensures var input' := if inPlace then Overwritten(input, at, t) else input;
            input'[src + i + |t|..src + |msg|] == msg[i + |t|..]
  {
    var j := i + |t|;
    SameEnd(input, src + i, src + |msg|, msg, i, |t|);
    if inPlace { EndKept(input, at, t, src + |msg|); }
  }

  lemma EndKept(s: seq<octet>, at: nat, t: seq<octet>, end: nat)
    requires at + |t| <= end <= |s|
    ensures Overwritten(s, at, t)[at + |t|..end] == s[at + |t|..end]
  {
    var r := Overwritten(s, at, t);
    KeepsRest(s, at, t, r);
    hide Overwritten;
    Behind(s, r, at + |t|, end);
  }

  /** What is to be read next. */
  lemma ReadsNext(input: seq<octet>, src: nat, output: seq<octet>, dst: nat, n: nat,
                  msg: seq<octet>, before: seq<octet>, key: seq<octet>, offset: nat, i: nat)
    requires Progressed(input, src, output, dst, msg, before, key, offset, i) && i + n <= |msg|
    ensures input[src + i..src + i + n] == msg[i..i + n]
    ensures n > 0 ==> input[src + i] == msg[i]
  {
    hide Overwritten, Masked;
    SameStart(input, src + i, msg, i, n, |msg| - i);
  }

  lemma Begins(input: array<octet>, src: nat, output: array<octet>, dst: nat, length: nat, key: seq<octet>, offset: nat)
    requires |key| == 4 && Fits(input, src, output, dst, length)
    ensures Progress(input, src, output, dst, input[src..src + length], output[..], key, offset, 0)
  {
  }

  lemma Ends(input: array<octet>, src: nat, output: array<octet>, dst: nat,
             msg: seq<octet>, before: seq<octet>, key: seq<octet>, offset: nat)
    requires Progress(input, src, output, dst, msg, before, key, offset, |msg|)
    ensures output[..] == Overwritten(before, dst, Masked(msg, key, offset))
  {
  }

  /** The same for a single octet. */
  lemma ProgressesByOne(input: seq<octet>, src: nat, output: seq<octet>, dst: nat, inPlace: bool, x: octet, k: octet,
                        msg: seq<octet>, before: seq<octet>, key: seq<octet>, offset: nat, i: nat)
    requires Progressed(input, src, output, dst, msg, before, key, offset, i) && i < |msg|
    requires src + i < |input| && x == input[src + i] && k == key[(offset + i) % 4]
    requires inPlace ==> input == output && src == dst
    ensures dst + i < |output|
    ensures var output' := output[dst + i := x ^ k];
            Progressed(if inPlace then output' else input, src, output', dst, msg, before, key, offset, i + 1)
  {
    hide Overwritten, Masked;
    ReadsNext(input, src, output, dst, 1, msg, before, key, offset, i);
    assert msg[i..i + 1] == [x];
    MaskedOne(x, key, offset + i);
    Progresses(input, src, output, dst, inPlace, [x ^ k], msg, before, key, offset, i);
    OverwriteOne(output, dst + i, x ^ k);
  }

  /** `output[i] = input[i] ^ k` */
  method MaskOctet(input: array<octet>, src: nat, output: array<octet>, dst: nat, i: nat, k: octet,
                   ghost msg: seq<octet>, ghost before: seq<octet>, ghost key: seq<octet>, ghost offset: nat)
    requires |key| == 4 && Progress(input, src, output, dst, msg, before, key, offset, i) && i < |msg|
    requires k == key[(offset + i) % 4]
    modifies output
    ensures Progress(input, src, output, dst, msg, before, key, offset, i + 1)
  {
    hide Progressed;
    ghost var was := output[..];
    var x := input[src + i];
    ProgressesByOne(input[..], src, was, dst, input == output, x, k, msg, before, key, offset, i);
    output[dst + i] := x ^ k;
    assert output[..] == was[dst + i := x ^ k];
  }

  /** `output_word[i] = input_word[i] ^ prepared_key` */
  method MaskWord(input: array<octet>, src: nat, output: array<octet>, dst: nat, i: nat, preparedKey: word,
                  ghost msg: seq<octet>, ghost before: seq<octet>, ghost key: seq<octet>, ghost offset: nat)
    requires |key| == 4 && Progress(input, src, output, dst, msg, before, key, offset, i)
    requires i + 8 <= |msg| && i % 8 == 0 && Prepared(preparedKey, key, offset)
    modifies output
    ensures Progress(input, src, output, dst, msg, before, key, offset, i + 8)
  {
    hide Overwritten, Masked, Prepared, Octets, Progressed;
    var v := ReadWord(input, src + i);
    ReadsNext(input[..], src, output[..], dst, 8, msg, before, key, offset, i);
    MaskedWord(v, preparedKey, key, offset, i);
    Progresses(input[..], src, output[..], dst, input == output, Octets(v ^ preparedKey), msg, before, key, offset, i);
    WriteWord(output, dst + i, v ^ preparedKey);
  }

  lemma Start(msg: seq<octet>, key: seq<octet>, offset: nat, s: seq<octet>, at: nat)
    requires |key| == 4 && at <= |s|
    ensures msg[..0] == [] && msg[0..] == msg && Masked([], key, offset) == [] && Overwritten(s, at, []) == s
  {
  }

  lemma MaskedOne(x: octet, key: seq<octet>, offset: nat)
    requires |key| == 4
    ensures Masked([x], key, offset) == [x ^ key[offset % 4]]
  {
  }

  lemma MaskedWord(v: word, w: word, key: seq<octet>, offset: nat, i: nat)
    requires |key| == 4 && Prepared(w, key, offset) && i % 8 == 0
    ensures Octets(v ^ w) == Masked(Octets(v), key, offset + i)
  {
    hide Octets, Masked, OctetOf, Prepared;
    var x, y := Octets(v ^ w), Masked(Octets(v), key, offset + i);
    forall k | 0 <= k < 8 ensures x[k] == y[k] {
      MaskedWordAt(v, w, key, offset, i, k);
    }
  }

  lemma MaskedWordAt(v: word, w: word, key: seq<octet>, offset: nat, i: nat, k: nat)
    requires |key| == 4 && Prepared(w, key, offset) && i % 8 == 0 && k < 8
    ensures Octets(v ^ w)[k] == Masked(Octets(v), key, offset + i)[k]
  {
    hide Octets, Masked, OctetOf, Prepared;
    OctetsAt(v ^ w, k);
    OctetsAt(v, k);
    MaskedAt(Octets(v), key, offset + i, k);
    XorOctets(v, w, k);
    var quads := i / 4;
    Quads(i);
    assert offset + (4 * quads + k) == offset + i + k;
    KeyOctet(w, key, offset, k, quads);
  }

  lemma OctetsAt(w: word, k: nat)
    requires k < 8
    ensures Octets(w)[k] == OctetOf(w, k)
  {
  }

  lemma MaskedAt(s: seq<octet>, key: seq<octet>, offset: nat, k: nat)
    requires |key| == 4 && k < |s|
    ensures Masked(s, key, offset)[k] == s[k] ^ key[(offset + k) % 4]
  {
  }

  lemma Quads(i: nat)
    requires i % 8 == 0
    ensures 4 * (i / 4) == i
  {
  }

  lemma SameStart<T>(s: seq<T>, a: nat, r: seq<T>, b: nat, n: nat, m: nat)
    requires n <= m && a + m <= |s| && b + m <= |r| && s[a..a + m] == r[b..b + m]
    ensures s[a..a + n] == r[b..b + n]
    ensures n > 0 ==> s[a] == r[b]
  {
    Cut(s, a, a + n, a + m);
    Cut(r, b, b + n, b + m);
    if n > 0 { assert s[a..a + n][0] == s[a] && r[b..b + n][0] == r[b]; }
  }

  lemma SameEnd<T>(s: seq<T>, a: nat, end: nat, r: seq<T>, b: nat, n: nat)
    requires a + n <= end <= |s| && b + n <= |r| && s[a..end] == r[b..]
    ensures s[a + n..end] == r[b + n..]
  {
    assert s[a..end][n..] == s[a + n..end];
    assert r[b..][n..] == r[b + n..];
  }

  lemma Cut<T>(s: seq<T>, a: nat, b: nat, c: nat)
    requires a <= b <= c <= |s|
    ensures s[a..c][..b - a] == s[a..b] && s[a..c][b - a..] == s[b..c]
  {
  }

  lemma Behind<T>(s: seq<T>, r: seq<T>, a: nat, b: nat)
    requires |s| == |r| && a <= b <= |s| && r[a..] == s[a..]
    ensures r[a..b] == s[a..b]
  {
  }

  lemma KeepsRest(s: seq<octet>, at: nat, t: seq<octet>, r: seq<octet>)
    requires at + |t| <= |s| && r == Overwritten(s, at, t)
    ensures r[at + |t|..] == s[at + |t|..]
  {
  }

  // ---------------------------------------------------------------- the maskers

  /** `byte_mask`: the slow one. */
  method ByteMask(input: array<octet>, src: nat, output: array<octet>, dst: nat, length: nat,
                  key: seq<octet>, keyOffset: nat)
    requires |key| == 4 && Fits(input, src, output, dst, length)
    modifies output
    ensures output[..] == Overwritten(old(output[..]), dst, Masked(old(input[src..src + length]), key, keyOffset))
  {
    hide Overwritten, Masked, Progress;
    ghost var msg, before := input[src..src + length], output[..];
    Begins(input, src, output, dst, length, key, keyOffset);
    var keyIndex := keyOffset % 4;
    var i := 0;
    while i != length
      invariant i <= length && keyIndex == (keyOffset + i) % 4
      invariant Progress(input, src, output, dst, msg, before, key, keyOffset, i)
    {
      MaskOctet(input, src, output, dst, i, key[keyIndex], msg, before, key, keyOffset);
      keyIndex := (keyIndex + 1) % 4;
      i := i + 1;
    }
    Ends(input, src, output, dst, msg, before, key, keyOffset);
  }

  /** The loop over whole words that `word_mask_exact` and `word_mask_circ` have in common. */
  method MaskWords(input: array<octet>, src: nat, output: array<octet>, dst: nat, n: nat, preparedKey: word,
                   ghost msg: seq<octet>, ghost before: seq<octet>, ghost key: seq<octet>, ghost offset: nat)
    requires Progress(input, src, output, dst, msg, before, key, offset, 0) && 8 * n <= |msg|
    requires |key| == 4 && Prepared(preparedKey, key, offset)
    modifies output
    ensures Progress(input, src, output, dst, msg, before, key, offset, 8 * n)
  {
    hide Prepared, Progress;
    for i := 0 to n
      invariant Progress(input, src, output, dst, msg, before, key, offset, 8 * i)
    {
      MaskWord(input, src, output, dst, 8 * i, preparedKey, msg, before, key, offset);
    }
  }

  /** `word_mask_exact` */
  method WordMaskExact(input: array<octet>, src: nat, output: array<octet>, dst: nat, length: nat, key: seq<octet>)
    requires |key| == 4 && Fits(input, src, output, dst, length)
    modifies output
    ensures output[..] == Overwritten(old(output[..]), dst, Masked(old(input[src..src + length]), key, 0))
  {
    hide Overwritten, Masked, Prepared, Progress;
    ghost var msg, before := input[src..src + length], output[..];
    Begins(input, src, output, dst, length, key, 0);
    var preparedKey := PrepareMaskingKey(key);
    var n := length / 8;
    MaskWords(input, src, output, dst, n, preparedKey, msg, before, key, 0);
    for i := 8 * n to length
      invariant Progress(input, src, output, dst, msg, before, key, 0, i)
    {
      MaskOctet(input, src, output, dst, i, key[i % 4], msg, before, key, 0);
    }
    Ends(input, src, output, dst, msg, before, key, 0);
  }

  /** `word_mask_circ`: returns the key for whatever comes next. */
  method WordMaskCirc(input: array<octet>, src: nat, output: array<octet>, dst: nat, length: nat, preparedKey: word,
                      ghost key: seq<octet>, ghost offset: nat) returns (next: word)
    requires |key| == 4 && Prepared(preparedKey, key, offset) && Fits(input, src, output, dst, length)
    modifies output
    ensures output[..] == Overwritten(old(output[..]), dst, Masked(old(input[src..src + length]), key, offset))
    ensures Prepared(next, key, offset + length)
  {
    hide Overwritten, Masked, Prepared, OctetOf, Circshift, Progress;
    ghost var msg, before := input[src..src + length], output[..];
    Begins(input, src, output, dst, length, key, offset);
    var n := length / 8;
    var l := length - n * 8;
    MaskWords(input, src, output, dst, n, preparedKey, msg, before, key, offset);
    var start := length - l;
    for i := 0 to l
      invariant Progress(input, src, output, dst, msg, before, key, offset, start + i)
    {
      KeyOctet(preparedKey, key, offset, i, 2 * n);
      MaskOctet(input, src, output, dst, start + i, OctetOf(preparedKey, i), msg, before, key, offset);
    }
    Ends(input, src, output, dst, msg, before, key, offset);
    PreparedShift(preparedKey, key, offset, l);
    PreparedAlike(Circshift(preparedKey, l), key, offset + l, 2 * n);
    next := Circshift(preparedKey, l);
  }

  /** `byte_mask_circ`: uses only the low half of the key, which the other half repeats. */
  method ByteMaskCirc(input: array<octet>, src: nat, output: array<octet>, dst: nat, length: nat, preparedKey: word,
                      ghost key: seq<octet>, ghost offset: nat) returns (next: word)
    requires |key| == 4 && Prepared(preparedKey, key, offset) && Fits(input, src, output, dst, length)
    modifies output
    ensures output[..] == Overwritten(old(output[..]), dst, Masked(old(input[src..src + length]), key, offset))
    ensures Prepared(next, key, offset + length)
  {
    hide Overwritten, Masked, Prepared, OctetOf, Circshift, Progress;
    ghost var msg, before := input[src..src + length], output[..];
    Begins(input, src, output, dst, length, key, offset);
    for i := 0 to length
      invariant Progress(input, src, output, dst, msg, before, key, offset, i)
    {
      KeyOctet(preparedKey, key, offset, i % 4, i / 4);
      MaskOctet(input, src, output, dst, i, OctetOf(preparedKey, i % 4), msg, before, key, offset);
    }
    Ends(input, src, output, dst, msg, before, key, offset);
    PreparedShift(preparedKey, key, offset, length % 4);
    PreparedAlike(Circshift(preparedKey, length % 4), key, offset + length % 4, length / 4);
    next := Circshift(preparedKey, length % 4);
  }

  /** Octet k of the prepared key is the one for position i of the message. */
  lemma KeyOctet(w: word, key: seq<octet>, offset: nat, k: nat, quads: nat)
    requires |key| == 4 && Prepared(w, key, offset) && k < 8
    ensures OctetOf(w, k) == key[(offset + (4 * quads + k)) % 4]
  {
  }

  // ---------------------------------------------------------------- streaming

  /** A piece of a message, and which of the two circular maskers it is given to. */
  datatype Piece = Words(length: nat) | Octetwise(length: nat)

  function Total(pieces: seq<Piece>): nat {
    if pieces == [] then 0 else pieces[0].length + Total(pieces[1..])
  }

  /** However a message is cut, and whichever masker each piece is given to, the pieces end up masked as the whole. */
  method MaskStream(data: array<octet>, pieces: seq<Piece>, key: seq<octet>)
    requires |key| == 4 && Total(pieces) == data.Length
    modifies data
    ensures data[..] == Masked(old(data[..]), key, 0)
  {
    hide Overwritten, Masked, Prepared, OctetOf, Circshift;
    ghost var msg := data[..];
    var preparedKey := PrepareMaskingKey(key);
    var at: nat := 0;
    Start(msg, key, 0, msg, 0);
    assert pieces[0..] == pieces;
    for j := 0 to |pieces|
      invariant 0 <= at && at + Total(pieces[j..]) == data.Length && Prepared(preparedKey, key, at)
      invariant data[..] == Overwritten(msg, 0, Masked(msg[..at], key, 0))
    {
      var length := pieces[j].length;
      assert pieces[j..][1..] == pieces[j + 1..];
      PieceStep(msg, at, length, key, data[..]);
      if pieces[j].Words? {
        preparedKey := WordMaskCirc(data, at, data, at, length, preparedKey, key, at);
      } else {
        preparedKey := ByteMaskCirc(data, at, data, at, length, preparedKey, key, at);
      }
      at := at + length;
    }
    AllMasked(msg, key);
  }

  lemma PieceStep(msg: seq<octet>, at: nat, length: nat, key: seq<octet>, s: seq<octet>)
    requires |key| == 4 && at + length <= |msg| && s == Overwritten(msg, 0, Masked(msg[..at], key, 0))
    ensures Overwritten(s, at, Masked(s[at..at + length], key, at))
         == Overwritten(msg, 0, Masked(msg[..at + length], key, 0))
  {
    var a, b := msg[..at], msg[at..at + length];
    hide Masked;
    assert s[at..at + length] == b;
    assert msg[..at + length] == a + b;
    MaskedConcat(a, b, key, 0);
    OverwriteMore(msg, 0, Masked(a, key, 0), Masked(b, key, at));
  }

  lemma AllMasked(msg: seq<octet>, key: seq<octet>)
    requires |key| == 4
    ensures Overwritten(msg, 0, Masked(msg[..|msg|], key, 0)) == Masked(msg, key, 0)
  {
  }
}
