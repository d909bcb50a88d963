/** What a buffer holds when part of it has been written over. */
module Buffers {

  /** `s` with `t` written over what was there from `at` on. */
  function Overwritten<T>(s: seq<T>, at: nat, t: seq<T>): (r: seq<T>)
    requires at + |t| <= |s|
    ensures |r| == |s|
  {
    s[..at] + t + s[at + |t|..]
  }

  /** `n` times the same. */
  function Filled<T>(x: T, n: nat): (s: seq<T>)
    ensures |s| == n
  {
    seq(n, _ => x)
  }

  lemma OverwriteNothing<T>(s: seq<T>, at: nat)
    requires at <= |s|
    ensures Overwritten(s, at, []) == s
  {
  }

  lemma OverwriteOne<T>(s: seq<T>, at: nat, x: T)
    requires at < |s|
    ensures Overwritten(s, at, [x]) == s[at := x]
  {
  }

  lemma OverwriteMore<T>(s: seq<T>, at: nat, t: seq<T>, u: seq<T>)
    requires at + |t| + |u| <= |s|
    ensures Overwritten(Overwritten(s, at, t), at + |t|, u) == Overwritten(s, at, t + u)
  {
  }

  /** Writing on, behind what has been written, by a single element. */
  lemma OverwriteNext<T>(s: seq<T>, at: nat, t: seq<T>, x: T)
    requires at + |t| < |s|
    ensures Overwritten(s, at, t)[at + |t| := x] == Overwritten(s, at, t + [x])
  {
    OverwriteOne(Overwritten(s, at, t), at + |t|, x);
    OverwriteMore(s, at, t, [x]);
  }
}
