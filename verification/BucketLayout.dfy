/**
 The layout of a protobuf `InnerMap` as a value: which nodes hang off which bucket, in which
 order, and which bucket pairs share a tree. Everything the table must keep true, and what
 each pointer-level operation does to it, is stated and proved here without a heap; the class
 `InnerMap` shows that its pointers realise such a layout.
 */
module BucketLayout {

  /** The key type of the map, together with its hash and its `operator<` (both parameters). */
  type Key(==, !new)

  /** What a node carries; `InnerMap` never looks inside it. */
  type Value(==, !new)

  datatype KeyOps = KeyOps(hash: Key -> nat, less: (Key, Key) -> bool)

  /** A list node; its value and its `next` pointer are kept by the table (see `InnerMap`). */
  class Node {
    const key: Key

    constructor (key: Key)
      ensures this.key == key
    {
      this.key := key;
    }
  }

  /** The identity of a `std::set` of nodes; what it holds is kept by the table. */
  class Tree {
    constructor () { }
  }

  datatype Bucket =
    | Chain(nodes: seq<Node>)
    | Shared(tree: Tree, nodes: seq<Node>)

  type Shape = seq<Bucket>

  const MIN_TABLE_SIZE: nat := 8
  const MAX_CHAIN: nat := 8

  // ---------------------------------------------------------------- orders and powers

  ghost predicate StrictTotalOrder(ops: KeyOps) {
    && (forall a: Key :: !ops.less(a, a))
    && (forall a: Key, b: Key :: a != b ==> ops.less(a, b) || ops.less(b, a))
    && (forall a: Key, b: Key, c: Key :: Transitive(ops, a, b, c))
  }

  ghost predicate Transitive(ops: KeyOps, a: Key, b: Key, c: Key) {
    ops.less(a, b) && ops.less(b, c) ==> ops.less(a, c)
  }

  ghost predicate PowerOfTwo(n: nat) {
    n == 1 || (n % 2 == 0 && n > 0 && PowerOfTwo(n / 2))
  }

  /** `b ^ 1` */
  function Partner(b: nat): nat {
    if b % 2 == 0 then b + 1 else b - 1
  }

  /** `b & ~1` */
  function EvenOf(b: nat): nat {
    b - b % 2
  }

  /** `BucketNumber`: the bucket count is a power of two, so masking is a remainder. */
  function Home(ops: KeyOps, size: nat, k: Key): (b: nat)
    requires size > 0
    ensures b < size
  {
    ops.hash(k) % size
  }

  // ---------------------------------------------------------------- the layout invariant

  ghost function Elems(ns: seq<Node>): set<Node> {
    set n | n in ns
  }

  ghost function Keys(ns: seq<Node>): set<Key> {
    set i | 0 <= i < |ns| :: ns[i].key
  }

  ghost predicate DistinctKeys(ns: seq<Node>) {
    forall i, j :: 0 <= i < j < |ns| ==> ns[i].key != ns[j].key
  }

  ghost predicate Sorted(ops: KeyOps, ns: seq<Node>) {
    forall i, j :: 0 <= i < j < |ns| ==> ops.less(ns[i].key, ns[j].key)
  }

  ghost predicate ChainOk(ops: KeyOps, size: nat, b: nat, ns: seq<Node>)
    requires size > 0
  {
    && |ns| <= MAX_CHAIN
    && DistinctKeys(ns)
    && forall i :: 0 <= i < |ns| ==> Home(ops, size, ns[i].key) == b
  }

  ghost predicate TreeOk(ops: KeyOps, size: nat, b: nat, ns: seq<Node>)
    requires size > 0
  {
    && ns != []
    && Sorted(ops, ns)
    && forall i :: 0 <= i < |ns| ==> EvenOf(Home(ops, size, ns[i].key)) == EvenOf(b)
  }

  ghost predicate BucketOk(ops: KeyOps, s: Shape, b: nat)
    requires b < |s| && |s| % 2 == 0
  {
    match s[b]
    case Chain(ns) => s[Partner(b)].Chain? && ChainOk(ops, |s|, b, ns)
    case Shared(_, ns) => s[Partner(b)] == s[b] && TreeOk(ops, |s|, b, ns)
  }

  ghost predicate SizeOk(size: nat) {
    PowerOfTwo(size) && size >= MIN_TABLE_SIZE && size % 2 == 0
  }

  ghost predicate TreesApart(s: Shape) {
    forall b, c :: 0 <= b < |s| && 0 <= c < |s| ==> Apart(s, b, c)
  }

  ghost predicate Apart(s: Shape, b: nat, c: nat)
    requires b < |s| && c < |s|
  {
    s[b].Shared? && s[c].Shared? && s[b].tree == s[c].tree ==> EvenOf(b) == EvenOf(c)
  }

  /** Invariants 2, 3 and the list-length bound, for one table. */
  ghost predicate ShapeOk(ops: KeyOps, s: Shape) {
    && StrictTotalOrder(ops)
    && SizeOk(|s|)
    && (forall b :: 0 <= b < |s| ==> BucketOk(ops, s, b))
    && TreesApart(s)
  }

  /** `first` is the least bucket that holds something, or the bucket count. */
  ghost predicate FirstExact(s: Shape, first: nat) {
    && first <= |s|
    && (forall b :: 0 <= b < first ==> s[b] == Chain([]))
    && (first < |s| ==> s[first] != Chain([]))
  }

  ghost function Nodes(s: Shape): (all: set<Node>)
    ensures forall b, n :: 0 <= b < |s| && n in s[b].nodes ==> n in all
  {
    set b, n | 0 <= b < |s| && n in s[b].nodes :: n
  }

  ghost function Trees(s: Shape): (all: set<Tree>)
    ensures forall b :: 0 <= b < |s| && s[b].Shared? ==> s[b].tree in all
  {
    set b | 0 <= b < |s| && s[b].Shared? :: s[b].tree
  }

  // ---------------------------------------------------------------- operations on layouts

  /** `std::set::insert`: keeps key order, and leaves a set that already has the key alone. */
  function SortedInsert(ops: KeyOps, ns: seq<Node>, n: Node): seq<Node> {
    if ns == [] then [n]
    else if ops.less(n.key, ns[0].key) then [n] + ns
    else if ops.less(ns[0].key, n.key) then [ns[0]] + SortedInsert(ops, ns[1..], n)
    else ns
  }

  function InsertAll(ops: KeyOps, base: seq<Node>, ns: seq<Node>): seq<Node>
    decreases |ns|
  {
    if ns == [] then base else InsertAll(ops, SortedInsert(ops, base, ns[0]), ns[1..])
  }

  /** Both lists of the pair of `b`, merged into one tree. */
  function PairTree(ops: KeyOps, s: Shape, b: nat): seq<Node>
    requires b < |s| && |s| % 2 == 0
  {
    InsertAll(ops, InsertAll(ops, [], s[b].nodes), s[Partner(b)].nodes)
  }

  function SetPair(s: Shape, b: nat, x: Bucket): (r: Shape)
    requires b < |s| && |s| % 2 == 0
    ensures |r| == |s|
    ensures forall c :: 0 <= c < |s| ==> r[c] == if c == b || c == Partner(b) then x else s[c]
  {
    s[b := x][Partner(b) := x]
  }

  /** `InsertUnique`; `spare` is the tree allocated when the list is full. */
  function Inserted(ops: KeyOps, s: Shape, b: nat, n: Node, spare: Tree?): Shape
    requires b < |s| && |s| % 2 == 0
    requires s[b].Chain? && |s[b].nodes| >= MAX_CHAIN ==> spare != null
  {
    match s[b]
    case Shared(t, ns) => SetPair(s, b, Shared(t, SortedInsert(ops, ns, n)))
    case Chain(ns) =>
      if |ns| < MAX_CHAIN then s[b := Chain([n] + ns)]
      else SetPair(s, b, Shared(spare, SortedInsert(ops, PairTree(ops, s, b), n)))
  }

  function Without(ns: seq<Node>, n: Node): seq<Node> {
    if ns == [] then []
    else if ns[0] == n then ns[1..]
    else [ns[0]] + Without(ns[1..], n)
  }

  /** `erase` of a node in bucket `b`; an emptied tree goes away, taking the pair back to lists. */
  function Removed(s: Shape, b: nat, n: Node): Shape
    requires b < |s| && |s| % 2 == 0
  {
    match s[b]
    case Chain(ns) => s[b := Chain(Without(ns, n))]
    case Shared(t, ns) =>
      var rest := Without(ns, n);
      SetPair(s, b, if rest == [] then Chain([]) else Shared(t, rest))
  }

  function Empty(size: nat): (s: Shape)
    ensures |s| == size && forall b :: 0 <= b < size ==> s[b] == Chain([])
  {
    seq(size, _ => Chain([]))
  }

  // ---------------------------------------------------------------- sorted insertion

  lemma {:induction false} SortedInsertMembers(ops: KeyOps, ns: seq<Node>, n: Node)
    requires StrictTotalOrder(ops) && n.key !in Keys(ns)
    ensures Elems(SortedInsert(ops, ns, n)) == Elems(ns) + {n}
    ensures Keys(SortedInsert(ops, ns, n)) == Keys(ns) + {n.key}
  {
    if ns == [] {
    } else if ops.less(n.key, ns[0].key) {
      KeysConcat([n], ns);
    } else {
      KeysConcat([ns[0]], ns[1..]);
      assert ns == [ns[0]] + ns[1..];
      SortedInsertMembers(ops, ns[1..], n);
      KeysConcat([ns[0]], SortedInsert(ops, ns[1..], n));
    }
  }

  lemma KeysConcat(a: seq<Node>, b: seq<Node>)
    ensures Keys(a + b) == Keys(a) + Keys(b)
    ensures Elems(a + b) == Elems(a) + Elems(b)
    ensures forall n: Node :: Keys([n]) == {n.key} && Elems([n]) == {n}
  {
    var ab := a + b;
    assert forall i :: 0 <= i < |a| ==> ab[i] == a[i];
    assert forall i :: 0 <= i < |b| ==> ab[|a| + i] == b[i];
    forall n: Node ensures Keys([n]) == {n.key} && Elems([n]) == {n} {
      assert [n][0] == n;
    }
  }

  lemma {:induction false} SortedInsertSorted(ops: KeyOps, ns: seq<Node>, n: Node)
    requires StrictTotalOrder(ops) && Sorted(ops, ns) && n.key !in Keys(ns)
    ensures Sorted(ops, SortedInsert(ops, ns, n))
  {
    if ns == [] {
    } else if ops.less(n.key, ns[0].key) {
      var r := [n] + ns;
      forall i, j | 0 <= i < j < |r| ensures ops.less(r[i].key, r[j].key) {
        if i == 0 && j > 1 {
          assert ops.less(ns[0].key, ns[j-1].key) && Transitive(ops, n.key, ns[0].key, ns[j-1].key);
        }
      }
    } else {
      KeysConcat([ns[0]], ns[1..]);
      assert ns == [ns[0]] + ns[1..];
      SortedInsertSorted(ops, ns[1..], n);
      SortedInsertMembers(ops, ns[1..], n);
      var r := SortedInsert(ops, ns[1..], n);
      forall j | 0 <= j < |r| ensures ops.less(ns[0].key, r[j].key) {
        assert r[j].key in Keys(r);
        if r[j].key != n.key { assert r[j].key in Keys(ns[1..]); }
      }
    }
  }

  lemma SortedDistinct(ops: KeyOps, ns: seq<Node>)
    requires StrictTotalOrder(ops) && Sorted(ops, ns)
    ensures DistinctKeys(ns)
  {
  }

  lemma {:induction false} InsertAllOk(ops: KeyOps, base: seq<Node>, ns: seq<Node>)
    requires StrictTotalOrder(ops) && Sorted(ops, base) && DistinctKeys(ns)
    requires Keys(base) !! Keys(ns)
    ensures Sorted(ops, InsertAll(ops, base, ns))
    ensures Elems(InsertAll(ops, base, ns)) == Elems(base) + Elems(ns)
    ensures Keys(InsertAll(ops, base, ns)) == Keys(base) + Keys(ns)
    decreases |ns|
  {
    if ns != [] {
      assert ns == [ns[0]] + ns[1..];
      KeysConcat([ns[0]], ns[1..]);
      assert ns[0].key !in Keys(ns[1..]);
      SortedInsertMembers(ops, base, ns[0]);
      SortedInsertSorted(ops, base, ns[0]);
      InsertAllOk(ops, SortedInsert(ops, base, ns[0]), ns[1..]);
    }
  }

  lemma {:induction false} WithoutMembers(ns: seq<Node>, n: Node)
    requires DistinctKeys(ns)
    ensures Elems(Without(ns, n)) == Elems(ns) - {n}
    ensures Keys(Without(ns, n)) <= Keys(ns)
    ensures DistinctKeys(Without(ns, n)) && |Without(ns, n)| <= |ns|
  {
    if ns != [] {
      hide Elems, Keys, DistinctKeys;
      var head, tail := ns[0], ns[1..];
      assert ns == [head] + tail;
      KeysConcat([head], tail);
      DistinctCons(head, tail);
      if head != n {
        WithoutMembers(tail, n);
        var r := Without(tail, n);
        KeysConcat([head], r);
        DistinctCons(head, r);
      }
    }
  }

  lemma DistinctCons(head: Node, tail: seq<Node>)
    ensures DistinctKeys([head] + tail) <==> DistinctKeys(tail) && head.key !in Keys(tail)
    ensures head.key !in Keys(tail) ==> head !in Elems(tail)
  {
    var ns := [head] + tail;
    assert forall i :: 0 <= i < |tail| ==> tail[i] == ns[i + 1];
    forall i | 0 <= i < |tail| && DistinctKeys(ns) ensures tail[i].key != head.key {
      assert ns[i + 1].key != ns[0].key;
    }
  }

  lemma {:induction false} WithoutSorted(ops: KeyOps, ns: seq<Node>, n: Node)
    requires StrictTotalOrder(ops) && Sorted(ops, ns)
    ensures Sorted(ops, Without(ns, n))
  {
    if ns != [] && ns[0] != n {
      WithoutSorted(ops, ns[1..], n);
      SortedDistinct(ops, ns[1..]);
      WithoutMembers(ns[1..], n);
      var r := Without(ns[1..], n);
      forall j | 0 <= j < |r| ensures ops.less(ns[0].key, r[j].key) {
        assert r[j].key in Keys(r);
      }
    }
  }

  // ---------------------------------------------------------------- finding a key

  ghost function AllKeys(s: Shape): set<Key> {
    set b, i | 0 <= b < |s| && 0 <= i < |s[b].nodes| :: s[b].nodes[i].key
  }

  /** The bucket `FindHelper` hands back for `k`: its home, or the even half of a shared pair. */
  ghost predicate RightBucket(ops: KeyOps, s: Shape, b: nat, k: Key)
    requires |s| > 0
  {
    && b < |s|
    && (b == Home(ops, |s|, k) || (s[b].Shared? && EvenOf(b) == EvenOf(Home(ops, |s|, k))))
  }

  lemma PartnerFacts(b: nat, size: nat)
    requires b < size && size % 2 == 0
    ensures Partner(b) < size && EvenOf(Partner(b)) == EvenOf(b) && Partner(Partner(b)) == b
    ensures forall c: nat :: EvenOf(c) == EvenOf(b) <==> c == b || c == Partner(b)
  {
  }

  /** A key can only be found where its home is, so one bucket answers for the whole table. */
  lemma OnlyAtHome(ops: KeyOps, s: Shape, b: nat, k: Key)
    requires ShapeOk(ops, s) && RightBucket(ops, s, b, k)
    ensures k in AllKeys(s) <==> k in Keys(s[b].nodes)
  {
    if k in AllKeys(s) {
      var c, i :| 0 <= c < |s| && 0 <= i < |s[c].nodes| && s[c].nodes[i].key == k;
      assert BucketOk(ops, s, c) && BucketOk(ops, s, b);
      PartnerFacts(c, |s|);
      PartnerFacts(b, |s|);
    }
  }

  /** No two live nodes hold the same key. */
  lemma NodeOfKeyUnique(ops: KeyOps, s: Shape, b: nat, i: nat, c: nat, j: nat)
    requires ShapeOk(ops, s)
    requires b < |s| && i < |s[b].nodes| && c < |s| && j < |s[c].nodes|
    requires s[b].nodes[i].key == s[c].nodes[j].key
    ensures s[b].nodes[i] == s[c].nodes[j] && EvenOf(b) == EvenOf(c) && i == j
    ensures s[b].Chain? ==> b == c
  {
    assert BucketOk(ops, s, b) && BucketOk(ops, s, c);
    PartnerFacts(b, |s|);
    PartnerFacts(c, |s|);
    if s[b].Shared? {
      SortedDistinct(ops, s[b].nodes);
    }
  }

  // ---------------------------------------------------------------- insertion

  lemma PairTreeOk(ops: KeyOps, s: Shape, b: nat)
    requires ShapeOk(ops, s) && b < |s| && s[b].Chain?
    ensures Partner(b) < |s|
    ensures Sorted(ops, PairTree(ops, s, b))
    ensures Elems(PairTree(ops, s, b)) == Elems(s[b].nodes) + Elems(s[Partner(b)].nodes)
    ensures Keys(PairTree(ops, s, b)) == Keys(s[b].nodes) + Keys(s[Partner(b)].nodes)
  {
    PartnerFacts(b, |s|);
    assert BucketOk(ops, s, b) && BucketOk(ops, s, Partner(b));
    InsertAllOk(ops, [], s[b].nodes);
    InsertAllOk(ops, InsertAll(ops, [], s[b].nodes), s[Partner(b)].nodes);
  }

  /** Replacing a pair by one tree keeps every other bucket as it was. */
  lemma SetPairOk(ops: KeyOps, s: Shape, b: nat, x: Bucket)
    requires ShapeOk(ops, s) && b < |s|
    requires x == Chain([]) || (x.Shared? && TreeOk(ops, |s|, b, x.nodes))
    requires x.Shared? ==> x.tree !in Trees(s) || (s[b].Shared? && s[b].tree == x.tree)
    ensures ShapeOk(ops, SetPair(s, b, x))
  {
    var r := SetPair(s, b, x);
    PartnerFacts(b, |s|);
    forall c | 0 <= c < |s| ensures BucketOk(ops, r, c) {
      PartnerFacts(c, |s|);
      assert BucketOk(ops, s, c);
    }
    forall c, d | 0 <= c < |r| && 0 <= d < |r| ensures Apart(r, c, d) {
      PartnerFacts(c, |s|);
      PartnerFacts(d, |s|);
      assert Apart(s, c, d) && Apart(s, b, c) && Apart(s, b, d);
    }
  }

  lemma SetPairNodes(s: Shape, b: nat, x: Bucket, n: Node)
    requires b < |s| && |s| % 2 == 0 && Partner(b) < |s|
    requires Elems(x.nodes) == Elems(s[b].nodes) + Elems(s[Partner(b)].nodes) + {n}
    ensures Nodes(SetPair(s, b, x)) == Nodes(s) + {n}
  {
    var r := SetPair(s, b, x);
    forall m | m in Nodes(s) + {n} ensures m in Nodes(r) {
      if m in Elems(x.nodes) {
        assert m in r[b].nodes;
      } else {
        var c :| 0 <= c < |s| && m in s[c].nodes;
        assert m in r[c].nodes;
      }
    }
    forall m | m in Nodes(r) ensures m in Nodes(s) + {n} {
      var c :| 0 <= c < |r| && m in r[c].nodes;
      if r[c] == x {
        assert m in Elems(x.nodes);
      }
    }
  }

  lemma SetPairKeys(s: Shape, b: nat, x: Bucket, k: Key)
    requires b < |s| && |s| % 2 == 0 && Partner(b) < |s|
    requires Keys(x.nodes) == Keys(s[b].nodes) + Keys(s[Partner(b)].nodes) + {k}
    ensures AllKeys(SetPair(s, b, x)) == AllKeys(s) + {k}
  {
    var r := SetPair(s, b, x);
    forall m | m in AllKeys(s) + {k} ensures m in AllKeys(r) {
      if m in Keys(x.nodes) {
        assert r[b] == x;
      } else {
        var c, i :| 0 <= c < |s| && 0 <= i < |s[c].nodes| && s[c].nodes[i].key == m;
        assert r[c] == s[c];
      }
    }
    forall m | m in AllKeys(r) ensures m in AllKeys(s) + {k} {
      var c, i :| 0 <= c < |r| && 0 <= i < |r[c].nodes| && r[c].nodes[i].key == m;
      if r[c] == x {
        assert m in Keys(x.nodes);
      }
    }
  }

  lemma SetOneOk(ops: KeyOps, s: Shape, b: nat, ns: seq<Node>)
    requires ShapeOk(ops, s) && b < |s| && s[b].Chain? && ChainOk(ops, |s|, b, ns)
    ensures ShapeOk(ops, s[b := Chain(ns)])
  {
    var r := s[b := Chain(ns)];
    forall c | 0 <= c < |s| ensures BucketOk(ops, r, c) {
      PartnerFacts(c, |s|);
      assert BucketOk(ops, s, c);
    }
    forall c, d | 0 <= c < |r| && 0 <= d < |r| ensures Apart(r, c, d) {
      assert Apart(s, c, d);
    }
  }

  lemma SetOneNodes(s: Shape, b: nat, x: Bucket)
    requires b < |s|
    ensures Nodes(s[b := x]) + Elems(s[b].nodes) == Nodes(s) + Elems(x.nodes)
    ensures AllKeys(s[b := x]) + Keys(s[b].nodes) == AllKeys(s) + Keys(x.nodes)
  {
    var r := s[b := x];
    forall n | n in Nodes(s) + Elems(x.nodes) ensures n in Nodes(r) + Elems(s[b].nodes) {
      if n in Elems(x.nodes) {
        assert n in r[b].nodes;
      } else {
        var c :| 0 <= c < |s| && n in s[c].nodes;
        assert r[c] == if c == b then x else s[c];
      }
    }
    forall k | k in AllKeys(s) + Keys(x.nodes) ensures k in AllKeys(r) + Keys(s[b].nodes) {
      if k in Keys(x.nodes) {
        assert r[b] == x;
      } else {
        var c, i :| 0 <= c < |s| && 0 <= i < |s[c].nodes| && s[c].nodes[i].key == k;
        assert r[c] == if c == b then x else s[c];
      }
    }
  }

  lemma PushKeepsLayout(ops: KeyOps, s: Shape, b: nat, n: Node)
    requires ShapeOk(ops, s) && b == Home(ops, |s|, n.key) && n.key !in AllKeys(s)
    requires s[b].Chain? && |s[b].nodes| < MAX_CHAIN
    ensures ShapeOk(ops, s[b := Chain([n] + s[b].nodes)])
    ensures Nodes(s[b := Chain([n] + s[b].nodes)]) == Nodes(s) + {n}
    ensures AllKeys(s[b := Chain([n] + s[b].nodes)]) == AllKeys(s) + {n.key}
  {
    var ns := s[b].nodes;
    assert BucketOk(ops, s, b);
    assert forall i :: 0 <= i < |ns| ==> ns[i].key in AllKeys(s);
    SetOneOk(ops, s, b, [n] + ns);
    KeysConcat([n], ns);
    SetOneNodes(s, b, Chain([n] + ns));
  }

  /** The node sequence of the tree that `Inserted` leaves at `b`. */
  function TreeAfterInsert(ops: KeyOps, s: Shape, b: nat, n: Node): seq<Node>
    requires b < |s| && |s| % 2 == 0
  {
    SortedInsert(ops, if s[b].Shared? then s[b].nodes else PairTree(ops, s, b), n)
  }

  lemma TreeAfterInsertOk(ops: KeyOps, s: Shape, b: nat, n: Node)
    requires ShapeOk(ops, s) && RightBucket(ops, s, b, n.key) && n.key !in AllKeys(s)
    ensures TreeOk(ops, |s|, b, TreeAfterInsert(ops, s, b, n)) && Partner(b) < |s|
    ensures Elems(TreeAfterInsert(ops, s, b, n)) == Elems(s[b].nodes) + Elems(s[Partner(b)].nodes) + {n}
    ensures Keys(TreeAfterInsert(ops, s, b, n)) == Keys(s[b].nodes) + Keys(s[Partner(b)].nodes) + {n.key}
  {
    hide SortedInsert, PairTree, AllKeys, Sorted, EvenOf;
    PartnerFacts(b, |s|);
    var p := Partner(b);
    var was := if s[b].Shared? then s[b].nodes else PairTree(ops, s, b);
    assert BucketOk(ops, s, b) && BucketOk(ops, s, p);
    if s[b].Chain? { PairTreeOk(ops, s, b); }
    BucketKeysIn(s, b);
    BucketKeysIn(s, p);
    SortedInsertMembers(ops, was, n);
    SortedInsertSorted(ops, was, n);
    var ns := SortedInsert(ops, was, n);
    assert n in Elems(ns);
    forall i | 0 <= i < |ns| ensures EvenOf(Home(ops, |s|, ns[i].key)) == EvenOf(b) {
      assert ns[i].key in Keys(ns);
    }
  }

  lemma BucketKeysIn(s: Shape, b: nat)
    requires b < |s|
    ensures Keys(s[b].nodes) <= AllKeys(s)
  {
  }

  lemma PutTreeKeepsLayout(ops: KeyOps, s: Shape, b: nat, n: Node, t: Tree)
    requires ShapeOk(ops, s) && RightBucket(ops, s, b, n.key) && n.key !in AllKeys(s)
    requires if s[b].Shared? then t == s[b].tree else t !in Trees(s)
    ensures ShapeOk(ops, SetPair(s, b, Shared(t, TreeAfterInsert(ops, s, b, n))))
    ensures Nodes(SetPair(s, b, Shared(t, TreeAfterInsert(ops, s, b, n)))) == Nodes(s) + {n}
    ensures AllKeys(SetPair(s, b, Shared(t, TreeAfterInsert(ops, s, b, n)))) == AllKeys(s) + {n.key}
  {
    TreeAfterInsertOk(ops, s, b, n);
    var x := Shared(t, TreeAfterInsert(ops, s, b, n));
    SetPairOk(ops, s, b, x);
    SetPairNodes(s, b, x, n);
    SetPairKeys(s, b, x, n.key);
  }

  /** `InsertUnique` keeps the layout and adds exactly the one node. */
  lemma InsertKeepsLayout(ops: KeyOps, s: Shape, b: nat, n: Node, spare: Tree?)
    requires ShapeOk(ops, s) && RightBucket(ops, s, b, n.key) && n.key !in AllKeys(s)
    requires spare !in Trees(s) && (s[b].Chain? && |s[b].nodes| >= MAX_CHAIN ==> spare != null)
    ensures ShapeOk(ops, Inserted(ops, s, b, n, spare))
    ensures Nodes(Inserted(ops, s, b, n, spare)) == Nodes(s) + {n}
    ensures AllKeys(Inserted(ops, s, b, n, spare)) == AllKeys(s) + {n.key}
  {
    if s[b].Chain? && |s[b].nodes| < MAX_CHAIN {
      PushKeepsLayout(ops, s, b, n);
    } else {
      PutTreeKeepsLayout(ops, s, b, n, if s[b].Shared? then s[b].tree else spare);
    }
  }

  /** The cached first bucket after an insertion, as `InsertUnique` updates it. */
  function FirstAfterInsert(s: Shape, first: nat, b: nat): nat
    requires b < |s|
  {
    match s[b]
    case Shared(_, _) => first
    case Chain(ns) =>
      if ns == [] then (if b < first then b else first)
      else if |ns| < MAX_CHAIN then first
      else if EvenOf(b) < first then EvenOf(b) else first
  }

  lemma InsertKeepsFirst(ops: KeyOps, s: Shape, first: nat, b: nat, n: Node, spare: Tree?)
    requires ShapeOk(ops, s) && RightBucket(ops, s, b, n.key) && FirstExact(s, first)
    requires s[b].Chain? && |s[b].nodes| >= MAX_CHAIN ==> spare != null
    ensures FirstExact(Inserted(ops, s, b, n, spare), FirstAfterInsert(s, first, b))
  {
    PartnerFacts(b, |s|);
    assert BucketOk(ops, s, b);
    var r := Inserted(ops, s, b, n, spare);
    if s[b] == Chain([]) {
      assert forall c :: 0 <= c < |s| && c != b ==> r[c] == s[c];
    } else {
      assert first <= b;
      if s[b].Chain? && |s[b].nodes| < MAX_CHAIN {
        assert forall c :: 0 <= c < |s| && c != b ==> r[c] == s[c];
      } else if s[b].Shared? {
        assert first <= Partner(b);
      } else {
        assert EvenOf(b) == b || EvenOf(b) == Partner(b);
      }
    }
  }

  // ---------------------------------------------------------------- erasure

  /** `erase` keeps the layout and removes exactly the one node. */
  lemma RemoveKeepsLayout(ops: KeyOps, s: Shape, b: nat, n: Node)
    requires ShapeOk(ops, s) && b < |s| && n in s[b].nodes
    ensures ShapeOk(ops, Removed(s, b, n))
    ensures Nodes(Removed(s, b, n)) == Nodes(s) - {n}
    ensures Trees(Removed(s, b, n)) <= Trees(s)
  {
    var ns := s[b].nodes;
    var rest := Without(ns, n);
    PartnerFacts(b, |s|);
    assert BucketOk(ops, s, b) && BucketOk(ops, s, Partner(b));
    if s[b].Shared? { SortedDistinct(ops, ns); WithoutSorted(ops, ns, n); }
    WithoutMembers(ns, n);
    forall i | 0 <= i < |rest| ensures EvenOf(Home(ops, |s|, rest[i].key)) == EvenOf(b)
                                    && (s[b].Chain? ==> Home(ops, |s|, rest[i].key) == b) {
      assert rest[i].key in Keys(rest);
    }
    if s[b].Shared? {
      SetPairOk(ops, s, b, if rest == [] then Chain([]) else Shared(s[b].tree, rest));
    } else {
      SetOneOk(ops, s, b, rest);
    }
    RemoveNodes(ops, s, b, n);
  }

  lemma RemoveNodes(ops: KeyOps, s: Shape, b: nat, n: Node)
    requires ShapeOk(ops, s) && b < |s| && n in s[b].nodes
    ensures Nodes(Removed(s, b, n)) == Nodes(s) - {n}
  {
    var ns := s[b].nodes;
    var r := Removed(s, b, n);
    PartnerFacts(b, |s|);
    assert BucketOk(ops, s, b);
    if s[b].Shared? { SortedDistinct(ops, ns); }
    WithoutMembers(ns, n);
    assert Elems(r[b].nodes) == Elems(ns) - {n};
    assert s[b].Shared? ==> s[Partner(b)] == s[b] && r[Partner(b)] == r[b];
    forall c | 0 <= c < |s| ensures Elems(r[c].nodes) == Elems(s[c].nodes) - {n} {
      PartnerFacts(c, |s|);
      if r[c] == s[c] && n in s[c].nodes {
        var i :| 0 <= i < |ns| && ns[i] == n;
        var j :| 0 <= j < |s[c].nodes| && s[c].nodes[j] == n;
        NodeOfKeyUnique(ops, s, b, i, c, j);
      }
    }
    NodesByBucket(s, r, n);
  }

  lemma NodesByBucket(s: Shape, r: Shape, n: Node)
    requires |s| == |r| && forall c :: 0 <= c < |s| ==> Elems(r[c].nodes) == Elems(s[c].nodes) - {n}
    ensures Nodes(r) == Nodes(s) - {n}
  {
    forall m | m in Nodes(r) ensures m in Nodes(s) - {n} {
      var c :| 0 <= c < |r| && m in r[c].nodes;
      assert m in Elems(r[c].nodes);
    }
    forall m | m in Nodes(s) - {n} ensures m in Nodes(r) {
      var c :| 0 <= c < |s| && m in s[c].nodes;
      assert m in Elems(r[c].nodes);
    }
  }

  // ---------------------------------------------------------------- iteration order

  /** What an iterator started at bucket `b` goes through: a shared tree once, at its even bucket. */
  ghost function OrderFrom(s: Shape, b: nat): seq<Node>
    decreases |s| - b
  {
    if b >= |s| then [] else s[b].nodes + OrderFrom(s, if s[b].Shared? then b + 2 else b + 1)
  }

  ghost function Order(s: Shape): seq<Node> {
    OrderFrom(s, 0)
  }

  /** Not the odd half of a shared pair. */
  ghost predicate Aligned(s: Shape, b: nat) {
    b < |s| && s[b].Shared? ==> b % 2 == 0
  }

  ghost predicate AtOrAfter(ops: KeyOps, s: Shape, b: nat, k: Key)
    requires |s| > 0
  {
    Home(ops, |s|, k) >= b
  }

  lemma NextAligned(ops: KeyOps, s: Shape, b: nat)
    requires ShapeOk(ops, s) && b < |s| && Aligned(s, b)
    ensures Aligned(s, if s[b].Shared? then b + 2 else b + 1)
  {
    assert BucketOk(ops, s, b);
  }

  /** Keys of bucket `b` live before `next`, everything the iteration visits later does not. */
  lemma BucketKeysBefore(ops: KeyOps, s: Shape, b: nat, i: nat)
    requires ShapeOk(ops, s) && b < |s| && Aligned(s, b) && i < |s[b].nodes|
    ensures b <= Home(ops, |s|, s[b].nodes[i].key) < if s[b].Shared? then b + 2 else b + 1
  {
    assert BucketOk(ops, s, b);
  }

  lemma {:induction false} OrderFromDistinct(ops: KeyOps, s: Shape, b: nat)
    requires ShapeOk(ops, s) && Aligned(s, b)
    ensures forall i :: 0 <= i < |OrderFrom(s, b)| ==> AtOrAfter(ops, s, b, OrderFrom(s, b)[i].key)
    ensures DistinctKeys(OrderFrom(s, b))
    decreases |s| - b
  {
    if b < |s| {
      var next := if s[b].Shared? then b + 2 else b + 1;
      NextAligned(ops, s, b);
      OrderFromDistinct(ops, s, next);
      var o, here, rest := OrderFrom(s, b), s[b].nodes, OrderFrom(s, next);
      assert o == here + rest;
      assert DistinctKeys(here) by {
        assert BucketOk(ops, s, b);
        if s[b].Shared? { SortedDistinct(ops, here); }
      }
      forall i | 0 <= i < |o|
        ensures AtOrAfter(ops, s, b, o[i].key) && (i < |here| <==> Home(ops, |s|, o[i].key) < next)
      {
        if i < |here| {
          BucketKeysBefore(ops, s, b, i);
        } else {
          assert AtOrAfter(ops, s, next, rest[i - |here|].key);
        }
      }
    }
  }

  lemma {:induction false} OrderFromMembers(ops: KeyOps, s: Shape, b: nat)
    requires ShapeOk(ops, s) && Aligned(s, b)
    ensures forall c :: b <= c < |s| ==> Elems(s[c].nodes) <= Elems(OrderFrom(s, b))
    ensures Elems(OrderFrom(s, b)) <= Nodes(s)
    decreases |s| - b
  {
    if b < |s| {
      var next := if s[b].Shared? then b + 2 else b + 1;
      NextAligned(ops, s, b);
      OrderFromMembers(ops, s, next);
      KeysConcat(s[b].nodes, OrderFrom(s, next));
      if s[b].Shared? {
        assert BucketOk(ops, s, b) && s[b + 1] == s[b];
      }
    }
  }

  /** An iteration that nothing disturbs meets every node of the table, and none twice. */
  lemma OrderVisitsEachOnce(ops: KeyOps, s: Shape)
    requires ShapeOk(ops, s)
    ensures Elems(Order(s)) == Nodes(s)
    ensures Keys(Order(s)) == AllKeys(s)
    ensures forall i, j :: 0 <= i < j < |Order(s)| ==> Order(s)[i].key != Order(s)[j].key
    ensures |Order(s)| == |Nodes(s)|
  {
    OrderFromMembers(ops, s, 0);
    OrderFromDistinct(ops, s, 0);
    var o := Order(s);
    forall n | n in Nodes(s) ensures n in Elems(o) {
      var c :| 0 <= c < |s| && n in s[c].nodes;
      assert n in Elems(s[c].nodes);
    }
    forall k | k in AllKeys(s) ensures k in Keys(o) {
      var b, i :| 0 <= b < |s| && 0 <= i < |s[b].nodes| && s[b].nodes[i].key == k;
      assert s[b].nodes[i] in Elems(s[b].nodes);
      var j :| 0 <= j < |o| && o[j] == s[b].nodes[i];
    }
    forall k | k in Keys(o) ensures k in AllKeys(s) {
      var j :| 0 <= j < |o| && o[j].key == k;
      assert o[j] in Elems(o);
      var b :| 0 <= b < |s| && o[j] in s[b].nodes;
      var i :| 0 <= i < |s[b].nodes| && s[b].nodes[i] == o[j];
    }
    ElemsSize(o);
  }

  lemma {:induction false} ElemsSize(ns: seq<Node>)
    requires DistinctKeys(ns)
    ensures |Elems(ns)| == |ns|
  {
    if ns != [] {
      ElemsSize(ns[1..]);
      assert ns == [ns[0]] + ns[1..];
      KeysConcat([ns[0]], ns[1..]);
      assert ns[0] !in Elems(ns[1..]);
    }
  }

  /** Later starts see a suffix of what earlier starts see. */
  lemma {:induction false} OrderSuffix(ops: KeyOps, s: Shape, a: nat, b: nat)
    requires ShapeOk(ops, s) && Aligned(s, a) && Aligned(s, b) && a <= b <= |s|
    ensures |OrderFrom(s, b)| <= |OrderFrom(s, a)|
    ensures OrderFrom(s, a)[|OrderFrom(s, a)| - |OrderFrom(s, b)|..] == OrderFrom(s, b)
    decreases b - a
  {
    if a < b {
      assert BucketOk(ops, s, a);
      NextAligned(ops, s, a);
      OrderSuffix(ops, s, if s[a].Shared? then a + 2 else a + 1, b);
    }
  }

  /** `m` is what the iteration visits right after `n` (null at the end). */
  ghost predicate Follows(s: Shape, n: Node, m: Node?) {
    exists i :: 0 <= i < |Order(s)| && Order(s)[i] == n && m == NodeAt(Order(s), i + 1)
  }

  ghost function NodeAt(ns: seq<Node>, i: nat): Node? {
    if i < |ns| then ns[i] else null
  }

  /** Inside a bucket the successor is the next node of that bucket. */
  lemma FollowsInside(ops: KeyOps, s: Shape, b: nat, i: nat)
    requires ShapeOk(ops, s) && b < |s| && Aligned(s, b) && i < |s[b].nodes|
    ensures Follows(s, s[b].nodes[i],
                    if i + 1 < |s[b].nodes| then s[b].nodes[i + 1]
                    else NodeAt(OrderFrom(s, if s[b].Shared? then b + 2 else b + 1), 0))
  {
    OrderSuffix(ops, s, 0, b);
    var o := Order(s);
    var at := |o| - |OrderFrom(s, b)| + i;
    assert o[at] == OrderFrom(s, b)[i];
    assert at + 1 < |o| ==> o[at + 1] == OrderFrom(s, b)[i + 1];
    assert NodeAt(o, at + 1) == NodeAt(OrderFrom(s, b), i + 1);
  }

  /** Empty buckets do not matter to an iteration. */
  lemma OrderSkipsEmpty(s: Shape, a: nat, b: nat)
    requires a <= b <= |s| && forall c :: a <= c < b ==> s[c] == Chain([])
    ensures OrderFrom(s, a) == OrderFrom(s, b)
    decreases b - a
  {
    if a < b { OrderSkipsEmpty(s, a + 1, b); }
  }

  lemma {:induction false} WithoutConcat(a: seq<Node>, b: seq<Node>, n: Node)
    ensures Without(a + b, n) == if n in a then Without(a, n) + b else a + Without(b, n)
  {
    if a == [] {
      assert a + b == b;
    } else {
      assert a == [a[0]] + a[1..] && (a + b)[1..] == a[1..] + b;
      if a[0] == n {
        assert Without(a, n) == a[1..];
      } else {
        WithoutConcat(a[1..], b, n);
        assert n in a <==> n in a[1..];
        if n in a {
          assert [a[0]] + (Without(a[1..], n) + b) == ([a[0]] + Without(a[1..], n)) + b;
        } else {
          assert [a[0]] + (a[1..] + Without(b, n)) == a + Without(b, n);
        }
      }
    }
  }

  lemma {:induction false} WithoutAbsent(ns: seq<Node>, n: Node)
    requires n !in ns
    ensures Without(ns, n) == ns
  {
    if ns != [] {
      WithoutAbsent(ns[1..], n);
      assert ns == [ns[0]] + ns[1..];
    }
  }

  /** The bucket of `n` is the only one an iteration finds it in. */
  lemma NotElsewhere(ops: KeyOps, s: Shape, b: nat, n: Node, c: nat)
    requires ShapeOk(ops, s) && b < |s| && n in s[b].nodes && c < |s| && c != b
    requires s[b].Shared? ==> c != Partner(b)
    ensures n !in s[c].nodes
  {
    if n in s[c].nodes {
      var i :| 0 <= i < |s[b].nodes| && s[b].nodes[i] == n;
      var j :| 0 <= j < |s[c].nodes| && s[c].nodes[j] == n;
      NodeOfKeyUnique(ops, s, b, i, c, j);
      PartnerFacts(b, |s|);
      assert false;
    }
  }

  /** One step of an iteration over the table that `Removed` leaves. */
  lemma OrderStepAfterRemove(ops: KeyOps, s: Shape, b: nat, n: Node, a: nat)
    requires ShapeOk(ops, s) && b < |s| && n in s[b].nodes && a < |s| && Aligned(s, a)
    ensures OrderFrom(Removed(s, b, n), a)
         == Without(s[a].nodes, n) + OrderFrom(Removed(s, b, n), if s[a].Shared? then a + 2 else a + 1)
  {
    var r := Removed(s, b, n);
    PartnerFacts(b, |s|);
    assert BucketOk(ops, s, a) && BucketOk(ops, s, b);
    if a == b || (s[b].Shared? && a == Partner(b)) {
      if s[b].Shared? && r[a] == Chain([]) {
        assert r[a + 1] == Chain([]);
        assert OrderFrom(r, a + 1) == [] + OrderFrom(r, a + 2);
      }
    } else {
      NotElsewhere(ops, s, b, n, a);
      WithoutAbsent(s[a].nodes, n);
      assert r[a] == s[a];
    }
  }

  /** Erasing an element leaves the iteration order of all the others as it was. */
  lemma {:induction false} OrderAfterRemove(ops: KeyOps, s: Shape, b: nat, n: Node, a: nat)
    requires ShapeOk(ops, s) && b < |s| && n in s[b].nodes && Aligned(s, a)
    ensures OrderFrom(Removed(s, b, n), a) == Without(OrderFrom(s, a), n)
    decreases |s| - a
  {
    if a < |s| {
      NextAligned(ops, s, a);
      var after := if s[a].Shared? then a + 2 else a + 1;
      var here, rest := s[a].nodes, OrderFrom(s, after);
      OrderStepAfterRemove(ops, s, b, n, a);
      OrderAfterRemove(ops, s, b, n, after);
      WithoutConcat(here, rest, n);
      if n in here {
        OrderFromDistinct(ops, s, a);
        LaterNodesDiffer(here, rest, n);
        WithoutAbsent(rest, n);
      } else {
        WithoutAbsent(here, n);
      }
    } else {
      assert |Removed(s, b, n)| == |s|;
    }
  }

  lemma LaterNodesDiffer(a: seq<Node>, b: seq<Node>, n: Node)
    requires DistinctKeys(a + b) && n in a
    ensures n !in b
  {
    var i :| 0 <= i < |a| && a[i] == n;
    assert (a + b)[i] == n;
    forall j | 0 <= j < |b| ensures b[j] != n {
      assert (a + b)[|a| + j] == b[j];
    }
  }

  // ---------------------------------------------------------------- sizes and load

  /** `n << k` */
  function Shl(n: nat, k: nat): (r: nat)
    ensures r >= n
  {
    if k == 0 then n else 2 * Shl(n, k - 1)
  }

  /** `max_size()` on a 64-bit machine */
  const MAX_BUCKETS: nat := Shl(1, 60)

  /** `n >> k` */
  function Shr(n: nat, k: nat): nat
    decreases k
  {
    if k == 0 then n else Shr(n / 2, k - 1)
  }

  /** `num_buckets_ * kMaxMapLoadTimes16 / 16` */
  function HiCutoff(size: nat): nat {
    size * 12 / 16
  }

  /** The size estimate behind a shrink: a quarter more than asked for. */
  function Hypothetical(count: nat): nat {
    count * 5 / 4 + 1
  }

  /** `std::max(kMinTableSize, num_buckets_ >> k)` */
  function ShrunkSize(size: nat, k: nat): nat {
    if Shr(size, k) < MIN_TABLE_SIZE then MIN_TABLE_SIZE else Shr(size, k)
  }

  predicate LoadOk(count: nat, size: nat) {
    5 * count < 6 * size
  }

  /** Fewer than six elements to five buckets, as long as the table may still grow. */
  predicate LoadBound(count: nat, size: nat) {
    size < MAX_BUCKETS ==> LoadOk(count, size)
  }

  // ---------------------------------------------------------------- which size a table gets

  /** The limits in numbers: no list is longer than eight, no table smaller than eight, and three quarters fill it. */
  lemma Limits(ops: KeyOps, s: Shape, b: nat)
    requires ShapeOk(ops, s) && b < |s|
    ensures s[b].Chain? ==> |s[b].nodes| <= 8
    ensures |s| >= 8 && PowerOfTwo(|s|) && 4 * HiCutoff(|s|) == 3 * |s|
    ensures MAX_BUCKETS == 0x1000_0000_0000_0000
  {
    assert BucketOk(ops, s, b);
    FourDivides(|s|);
    CutoffDoubles(|s| / 4);
    MaxBuckets();
  }

  lemma MaxBuckets()
    ensures MAX_BUCKETS == 0x1000_0000_0000_0000
  {
    hide Shl;
    TenMore(0);
    TenMore(10);
    TenMore(20);
    TenMore(30);
    TenMore(40);
    TenMore(50);
  }

  lemma TenMore(k: nat)
    ensures Shl(1, k + 10) == 0x400 * Shl(1, k) && Shl(1, 0) == 1
  {
    FiveMore(k);
    FiveMore(k + 5);
  }

  lemma FiveMore(k: nat)
    ensures Shl(1, k + 5) == 0x20 * Shl(1, k)
  {
    assert Shl(1, k + 1) == 2 * Shl(1, k) && Shl(1, k + 2) == 2 * Shl(1, k + 1);
    assert Shl(1, k + 3) == 2 * Shl(1, k + 2) && Shl(1, k + 4) == 2 * Shl(1, k + 3);
  }

  /** The largest smaller table that fills up no later than at `h` elements, or the smallest of all. */
  ghost predicate ShrinksTo(h: nat, size: nat, p: nat) {
    && SizeOk(p) && p < size && (p == MIN_TABLE_SIZE || HiCutoff(p) <= h)
    && forall q: nat :: SizeOk(q) && p < q < size ==> h < HiCutoff(q)
  }

  /** The size that a table gets to make room for `count` elements. */
  ghost predicate ResizesTo(count: nat, size: nat, p: nat) {
    if count >= HiCutoff(size) then p == if size <= MAX_BUCKETS / 2 then 2 * size else size
    else if count <= HiCutoff(size) / 4 && size > MIN_TABLE_SIZE then ShrinksTo(Hypothetical(count), size, p)
    else p == size
  }

  lemma {:induction false} PowersDouble(a: nat, b: nat)
    requires PowerOfTwo(a) && PowerOfTwo(b) && a < b
    ensures 2 * a <= b
    decreases b
  {
    if a > 1 { PowersDouble(a / 2, b / 2); }
  }

  lemma HalfSize(size: nat)
    requires SizeOk(size) && size > MIN_TABLE_SIZE
    ensures SizeOk(size / 2) && size == 2 * (size / 2) && HiCutoff(size) == 2 * HiCutoff(size / 2)
  {
    SmallSizes();
    PowersDouble(8, size);
    var half := size / 2;
    assert PowerOfTwo(half);
    hide HiCutoff;
    FourDivides(half);
    hide PowerOfTwo;
    CutoffDoubles(half / 4);
  }

  lemma SmallSizes()
    ensures PowerOfTwo(8) && PowerOfTwo(16) && PowerOfTwo(64)
  {
    assert PowerOfTwo(1) && PowerOfTwo(2) && PowerOfTwo(4) && PowerOfTwo(8) && PowerOfTwo(16) && PowerOfTwo(32);
  }

  lemma FourDivides(n: nat)
    requires PowerOfTwo(n) && n >= 4
    ensures n == 4 * (n / 4)
  {
    assert PowerOfTwo(n / 2) && n / 2 % 2 == 0;
  }

  lemma CutoffDoubles(m: nat)
    ensures HiCutoff(4 * m) == 3 * m && HiCutoff(8 * m) == 6 * m
  {
  }

  /** The loop over shift counts finds that size. */
  lemma {:induction false} ShrinkRule(h: nat, size: nat, k: nat)
    requires SizeOk(size) && size > MIN_TABLE_SIZE && k >= 1
    requires (k > 1 ==> Shl(h, k - 1) < HiCutoff(size)) && HiCutoff(size) <= Shl(h, k)
    ensures ShrinksTo(h, size, ShrunkSize(size, k))
    decreases k
  {
    var half := size / 2;
    HalfSize(size);
    assert Shr(size, k) == Shr(half, k - 1);
    if k > 1 && half > MIN_TABLE_SIZE {
      ShrinkRule(h, half, k - 1);
      assert h <= Shl(h, k - 2);
    } else if k > 1 {
      ShrAtMost(half / 2, k - 2);
    }
    forall q: nat | SizeOk(q) && ShrunkSize(size, k) < q < size ensures h < HiCutoff(q) {
      if half < q { PowersDouble(half, q); }
    }
  }

  lemma {:induction false} ShrAtMost(n: nat, k: nat)
    ensures Shr(n, k) <= n
    decreases k
  {
    if k > 0 { ShrAtMost(n / 2, k - 1); }
  }

  lemma {:induction false} ShlAtLeast(h: nat, k: nat)
    ensures Shl(h, k) >= h && (h >= 1 ==> Shl(h, k) > k)
  {
    if k > 0 { ShlAtLeast(h, k - 1); }
  }

  /** The table that the shrink rule picks still has room: the load bound survives it. */
  lemma ShrinkKeepsLoad(count: nat, size: nat, p: nat)
    requires SizeOk(size) && count <= HiCutoff(size) / 4 && ShrinksTo(Hypothetical(count), size, p)
    ensures LoadOk(count, p)
  {
    PowersDouble(p, size);
    if 2 * p < size {
      assert PowerOfTwo(2 * p);
      assert SizeOk(2 * p);
    }
  }

  lemma {:induction false} SizesAre(size: nat) returns (j: nat)
    requires SizeOk(size)
    ensures size == Shl(8, j) && HiCutoff(size) == Shl(6, j)
  {
    j := 0;
    if size > MIN_TABLE_SIZE {
      HalfSize(size);
      j := SizesAre(size / 2);
      j := j + 1;
    }
  }

  lemma {:induction false} SizeAt(j: nat)
    ensures SizeOk(Shl(8, j)) && HiCutoff(Shl(8, j)) == Shl(6, j)
  {
    if j > 0 {
      SizeAt(j - 1);
      HalfSize(Shl(8, j));
    } else {
      SmallSizes();
    }
  }

  /**
   Whether a table shrunk for `count` elements takes `more` further ones before it has to grow: not
   always, but exactly if some cutoff lies above their number and not above the estimate.
   */
  lemma ShrinkLeavesRoom(count: nat, more: nat, size: nat, p: nat)
    requires SizeOk(size) && count <= HiCutoff(size) / 4 && ShrinksTo(Hypothetical(count), size, p)
    ensures count + more < HiCutoff(p)
       <==> count + more < 6 || exists j: nat :: count + more < Shl(6, j) <= Hypothetical(count)
  {
    var i := SizesAre(p);
    forall j: nat | count + more < Shl(6, j) <= Hypothetical(count) ensures count + more < HiCutoff(p) {
      SizeAt(j);
    }
  }

  /** An input for which it takes none: after shrinking for twelve elements, the very next insertion grows the table. */
  lemma ShrinksTooFar()
    ensures HiCutoff(64) / 4 == 12 && Shl(Hypothetical(12), 1) < HiCutoff(64) <= Shl(Hypothetical(12), 2)
    ensures ShrunkSize(64, 2) == 16 && !(12 < HiCutoff(16)) && ResizesTo(12, 64, 16) && ResizesTo(13, 16, 32)
  {
    SmallSizes();
    assert Shl(16, 1) == 32 && Shl(16, 2) == 64;
    assert Shr(64, 2) == Shr(32, 1) == Shr(16, 0) == 16;
    ShrinkRule(16, 64, 2);
  }

  /** When there is room below the cutoff once a table has been resized: if and only if it did not shrink too far. */
  lemma RoomAfterResize(count: nat, size: nat, p: nat)
    requires SizeOk(size) && size < MAX_BUCKETS && count > 0 && LoadOk(count - 1, size) && ResizesTo(count, size, p)
    ensures count < HiCutoff(p)
       <==> || count > HiCutoff(size) / 4 || size == MIN_TABLE_SIZE || count < 6
            || exists j: nat :: count < Shl(6, j) <= Hypothetical(count)
  {
    hide Shl, Hypothetical, LoadOk, ShrinksTo;
    if count >= HiCutoff(size) {
      GrowthLeavesRoom(count, size);
    } else if count <= HiCutoff(size) / 4 && size > MIN_TABLE_SIZE {
      ShrinkLeavesRoom(count, 0, size, p);
    } else if size == MIN_TABLE_SIZE {
      assert HiCutoff(size) == 6;
    }
  }

  lemma GrowthLeavesRoom(count: nat, size: nat)
    requires SizeOk(size) && size < MAX_BUCKETS && count > 0 && LoadOk(count - 1, size)
    ensures size <= MAX_BUCKETS / 2 && count < HiCutoff(2 * size)
  {
    PowersApart(size, 60);
    FourDivides(size);
    hide PowerOfTwo;
    CutoffDoubles(size / 4);
  }

  lemma {:induction false} PowersApart(a: nat, k: nat)
    requires PowerOfTwo(a) && a < Shl(1, k)
    ensures k >= 1 && a <= Shl(1, k - 1)
  {
    if k >= 1 && a > 1 {
      PowersApart(a / 2, k - 1);
    } else if k >= 1 {
      ShlAtLeast(1, k - 1);
    }
  }
}
