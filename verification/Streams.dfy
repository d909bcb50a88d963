/** What a reader has handled of a stream so far, in front of what the rest of the stream adds. */
module Streams {

  /** `r` is what comes out of the rest of the stream, the state it ends in, and what is left over. */
  ghost function Behind<T, S, B>(before: seq<T>, r: (seq<T>, S, B)): (seq<T>, S, B) {
    (before + r.0, r.1, r.2)
  }

  lemma BehindNothing<T, S, B>(r: (seq<T>, S, B))
    ensures Behind([], r) == r
  {
    assert [] + r.0 == r.0;
  }

  lemma BehindOne<T, S, B>(before: seq<T>, x: T, r: (seq<T>, S, B))
    ensures Behind(before + [x], r) == Behind(before, ([x] + r.0, r.1, r.2))
  {
    assert before + [x] + r.0 == before + ([x] + r.0);
  }

  lemma BehindMore<T, S, B>(x: T, before: seq<T>, r: (seq<T>, S, B))
    ensures Behind([x] + before, r) == ([x] + Behind(before, r).0, r.1, r.2)
  {
    assert [x] + before + r.0 == [x] + (before + r.0);
  }
}
