/**
 The memory behind an `InnerMap`: table entries, the `next` pointer of every node and the
 contents of every tree, and when these realise a layout. Each pointer update of the class
 is matched here by a lemma saying which layout the updated memory realises.
 */
module TableMemory {
  import opened BucketLayout

  /** A `void*` table entry. */
  datatype Ptr = Null | ListHead(node: Node) | TreeRoot(tree: Tree)

  type Links = map<Node, Node?>
  type Members = map<Tree, seq<Node>>

  function PtrOf(bk: Bucket): Ptr {
    match bk
    case Chain(ns) => if ns == [] then Null else ListHead(ns[0])
    case Shared(t, _) => TreeRoot(t)
  }

  function HeadOf(p: Ptr): Node? {
    if p.ListHead? then p.node else null
  }

  ghost predicate Linked(next: Links, ns: seq<Node>) {
    forall i :: 0 <= i < |ns| ==> ns[i] in next && next[ns[i]] == NodeAt(ns, i + 1)
  }

  ghost predicate Unlinked(next: Links, ns: seq<Node>) {
    forall i :: 0 <= i < |ns| ==> ns[i] in next && next[ns[i]] == null
  }

  ghost predicate BucketIn(next: Links, members: Members, bk: Bucket) {
    match bk
    case Chain(ns) => Linked(next, ns)
    case Shared(t, ns) => t in members && members[t] == ns && Unlinked(next, ns)
  }

  ghost predicate EntryOk(table: seq<Ptr>, next: Links, members: Members, s: Shape, b: nat)
    requires b < |table| == |s|
  {
    table[b] == PtrOf(s[b]) && BucketIn(next, members, s[b])
  }

  ghost predicate Realises(table: seq<Ptr>, next: Links, members: Members, s: Shape) {
    |table| == |s| && forall b :: 0 <= b < |s| ==> EntryOk(table, next, members, s, b)
  }

  predicate EntryIsNonEmptyList(table: seq<Ptr>, b: nat)
    requires b < |table| && |table| % 2 == 0
  {
    table[b] != Null && table[b] != table[Partner(b)]
  }

  predicate EntryIsTree(table: seq<Ptr>, b: nat)
    requires b < |table| && |table| % 2 == 0
  {
    table[b] != Null && !EntryIsNonEmptyList(table, b)
  }

  /** Comparing an entry with its partner tells lists from trees (invariant 3). */
  lemma EntryKinds(ops: KeyOps, table: seq<Ptr>, next: Links, members: Members, s: Shape, b: nat)
    requires ShapeOk(ops, s) && b < |s| && Realises(table, next, members, s)
    ensures Partner(b) < |s| == |table| && |s| % 2 == 0
    ensures EntryIsNonEmptyList(table, b) <==> s[b].Chain? && s[b].nodes != []
    ensures EntryIsTree(table, b) <==> s[b].Shared?
    ensures table[b] == Null <==> s[b] == Chain([])
    ensures table[b] == PtrOf(s[b]) && BucketIn(next, members, s[b])
    ensures s[b].Shared? ==> s[Partner(b)] == s[b]
    ensures s[b].Chain? ==> s[Partner(b)].Chain?
  {
    PartnerFacts(b, |s|);
    assert BucketOk(ops, s, b) && BucketOk(ops, s, Partner(b));
    assert EntryOk(table, next, members, s, b) && EntryOk(table, next, members, s, Partner(b));
    if s[b].Chain? && s[b].nodes != [] && s[Partner(b)].nodes != [] {
      assert Home(ops, |s|, s[b].nodes[0].key) == b;
      assert Home(ops, |s|, s[Partner(b)].nodes[0].key) == Partner(b);
    }
  }

  /** Writes to `next` of nodes outside a bucket leave that bucket's links alone. */
  lemma BucketUntouched(next: Links, next': Links, members: Members, members': Members, bk: Bucket)
    requires BucketIn(next, members, bk)
    requires forall i :: 0 <= i < |bk.nodes| ==>
      bk.nodes[i] in next && bk.nodes[i] in next' && next'[bk.nodes[i]] == next[bk.nodes[i]]
    requires bk.Shared? ==> bk.tree in members' && members'[bk.tree] == members[bk.tree]
    ensures BucketIn(next', members', bk)
  {
  }

  /** A node whose key is new is in no bucket. */
  lemma NewNodeNowhere(s: Shape, n: Node, c: nat)
    requires n.key !in AllKeys(s) && c < |s|
    ensures forall i :: 0 <= i < |s[c].nodes| ==> s[c].nodes[i] != n
  {
  }

  lemma LinkedNodesIn(next: Links, members: Members, bk: Bucket)
    requires BucketIn(next, members, bk)
    ensures forall i :: 0 <= i < |bk.nodes| ==> bk.nodes[i] in next
  {
  }

  // ---------------------------------------------------------------- insertion

  /** Pushing a new node on the list of `b`. */
  lemma PushRealises(ops: KeyOps, table: seq<Ptr>, next: Links, members: Members, s: Shape, b: nat, n: Node)
    requires ShapeOk(ops, s) && Realises(table, next, members, s)
    requires b < |s| && s[b].Chain? && n.key !in AllKeys(s)
    ensures Realises(table[b := ListHead(n)], next[n := HeadOf(table[b])], members, s[b := Chain([n] + s[b].nodes)])
  {
    var next' := next[n := HeadOf(table[b])];
    var r := s[b := Chain([n] + s[b].nodes)];
    var table' := table[b := ListHead(n)];
    forall c | 0 <= c < |r| ensures EntryOk(table', next', members, r, c) {
      assert EntryOk(table, next, members, s, c);
      NewNodeNowhere(s, n, c);
      LinkedNodesIn(next, members, s[c]);
      if c != b {
        BucketUntouched(next, next', members, members, s[c]);
      }
    }
  }

  /** `next` after the nodes `ns` have been unlinked. */
  function UnlinkAll(next: Links, ns: seq<Node>): Links {
    map n | n in next :: if n in ns then null else next[n]
  }

  lemma UnlinkNothing(next: Links)
    ensures UnlinkAll(next, []) == next
  {
  }

  /** Unlinking a list front to back: the next pointer to follow is still the old one. */
  lemma UnlinkStep(next: Links, ns: seq<Node>, i: nat)
    requires i < |ns| && Linked(next, ns) && DistinctKeys(ns)
    ensures var now := UnlinkAll(next, ns[..i]);
            && ns[i] in now && now[ns[i]] == NodeAt(ns, i + 1)
            && now[ns[i] := null] == UnlinkAll(next, ns[..i + 1])
  {
    forall k | 0 <= k < i ensures ns[..i][k] != ns[i] {
      assert ns[k].key != ns[i].key;
    }
  }

  lemma UnlinkTwice(next: Links, a: seq<Node>, b: seq<Node>)
    ensures UnlinkAll(UnlinkAll(next, a), b) == UnlinkAll(next, a + b)
  {
  }

  /** The pair of `b` as one list of nodes, the way `TreeConvert` meets them. */
  ghost function PairNodes(s: Shape, b: nat): seq<Node>
    requires b < |s| && |s| % 2 == 0
  {
    s[b].nodes + s[Partner(b)].nodes
  }

  lemma PairNodesInNext(ops: KeyOps, table: seq<Ptr>, next: Links, members: Members, s: Shape, b: nat)
    requires ShapeOk(ops, s) && Realises(table, next, members, s) && b < |s|
    ensures forall i :: 0 <= i < |PairNodes(s, b)| ==> PairNodes(s, b)[i] in next
  {
    PartnerFacts(b, |s|);
    assert EntryOk(table, next, members, s, b) && EntryOk(table, next, members, s, Partner(b));
  }

  /** Unlinking the two lists of `b` does not disturb a bucket outside the pair. */
  lemma OtherBucketKept(ops: KeyOps, table: seq<Ptr>, next: Links, members: Members, s: Shape, b: nat, c: nat)
    requires ShapeOk(ops, s) && Realises(table, next, members, s)
    requires b < |s| && c < |s| && c != b && c != Partner(b)
    ensures BucketIn(UnlinkAll(next, PairNodes(s, b)), members, s[c])
  {
    PartnerFacts(b, |s|);
    assert EntryOk(table, next, members, s, c);
    LinkedNodesIn(next, members, s[c]);
    forall i | 0 <= i < |s[c].nodes| ensures s[c].nodes[i] !in PairNodes(s, b) {
      NotInPair(ops, s, b, c, i);
    }
    BucketUntouched(next, UnlinkAll(next, PairNodes(s, b)), members, members, s[c]);
  }

  lemma NotInPair(ops: KeyOps, s: Shape, b: nat, c: nat, i: nat)
    requires ShapeOk(ops, s) && b < |s| && c < |s| && c != b && c != Partner(b) && i < |s[c].nodes|
    ensures s[c].nodes[i] !in PairNodes(s, b)
  {
    PartnerFacts(b, |s|);
    assert BucketOk(ops, s, b) && BucketOk(ops, s, Partner(b)) && BucketOk(ops, s, c);
    var ns := PairNodes(s, b);
    forall j | 0 <= j < |ns| ensures ns[j] != s[c].nodes[i] {
      assert EvenOf(Home(ops, |s|, ns[j].key)) == EvenOf(b);
    }
  }

  lemma PairTreeGood(ops: KeyOps, s: Shape, b: nat)
    requires ShapeOk(ops, s) && b < |s| && s[b].Chain? && s[b].nodes != []
    ensures TreeOk(ops, |s|, b, PairTree(ops, s, b)) && Partner(b) < |s|
    ensures forall i :: 0 <= i < |PairTree(ops, s, b)| ==> PairTree(ops, s, b)[i] in PairNodes(s, b)
  {
    PairTreeOk(ops, s, b);
    PartnerFacts(b, |s|);
    assert BucketOk(ops, s, b) && BucketOk(ops, s, Partner(b));
    var ns := PairTree(ops, s, b);
    assert s[b].nodes[0] in Elems(ns);
    forall i | 0 <= i < |ns| ensures EvenOf(Home(ops, |s|, ns[i].key)) == EvenOf(b) {
      assert ns[i].key in Keys(ns);
    }
    forall i | 0 <= i < |ns| ensures ns[i] in PairNodes(s, b) {
      assert ns[i] in Elems(ns);
    }
  }

  /** `TreeConvert`: both lists become one tree, both entries point to it. */
  lemma ConvertRealises(ops: KeyOps, table: seq<Ptr>, next: Links, members: Members, s: Shape, b: nat, t: Tree)
    requires ShapeOk(ops, s) && Realises(table, next, members, s) && t !in members
    requires b < |s| && s[b].Chain? && s[b].nodes != []
    ensures Partner(b) < |s|
    ensures ShapeOk(ops, SetPair(s, b, Shared(t, PairTree(ops, s, b))))
    ensures Realises(table[b := TreeRoot(t)][Partner(b) := TreeRoot(t)], UnlinkAll(next, PairNodes(s, b)),
                     members[t := PairTree(ops, s, b)], SetPair(s, b, Shared(t, PairTree(ops, s, b))))
  {
    PartnerFacts(b, |s|);
    PairTreeGood(ops, s, b);
    PairNodesInNext(ops, table, next, members, s, b);
    var x := Shared(t, PairTree(ops, s, b));
    TreesAreMembers(table, next, members, s);
    SetPairOk(ops, s, b, x);
    var r := SetPair(s, b, x);
    var table' := table[b := TreeRoot(t)][Partner(b) := TreeRoot(t)];
    var next', members' := UnlinkAll(next, PairNodes(s, b)), members[t := PairTree(ops, s, b)];
    assert Unlinked(next', x.nodes);
    forall c | 0 <= c < |r| ensures EntryOk(table', next', members', r, c) {
      assert EntryOk(table, next, members, s, c);
      if c != b && c != Partner(b) {
        OtherBucketKept(ops, table, next, members, s, b, c);
        LinkedNodesIn(next', members, s[c]);
        BucketUntouched(next', next', members, members', s[c]);
      }
    }
  }

  lemma TreesAreMembers(table: seq<Ptr>, next: Links, members: Members, s: Shape)
    requires Realises(table, next, members, s)
    ensures Trees(s) <= members.Keys
  {
    forall c | 0 <= c < |s| && s[c].Shared? ensures s[c].tree in members {
      assert EntryOk(table, next, members, s, c);
    }
  }

  /** Adding a new node to the tree at `b`. */
  lemma GrowRealises(ops: KeyOps, table: seq<Ptr>, next: Links, members: Members, s: Shape, b: nat, n: Node)
    requires ShapeOk(ops, s) && Realises(table, next, members, s)
    requires b < |s| && s[b].Shared? && RightBucket(ops, s, b, n.key) && n.key !in AllKeys(s)
    ensures Partner(b) < |s| && s[b].tree in members && members[s[b].tree] == s[b].nodes
    ensures Realises(table, next[n := null], members[s[b].tree := SortedInsert(ops, s[b].nodes, n)],
                     SetPair(s, b, Shared(s[b].tree, SortedInsert(ops, s[b].nodes, n))))
  {
    PartnerFacts(b, |s|);
    assert EntryOk(table, next, members, s, b) && EntryOk(table, next, members, s, Partner(b));
    assert BucketOk(ops, s, b);
    var x := Shared(s[b].tree, SortedInsert(ops, s[b].nodes, n));
    var r := SetPair(s, b, x);
    var next', members' := next[n := null], members[s[b].tree := x.nodes];
    TreeAfterInsertOk(ops, s, b, n);
    assert Unlinked(next', x.nodes) by {
      forall i | 0 <= i < |x.nodes| ensures x.nodes[i] in next' && next'[x.nodes[i]] == null {
        assert x.nodes[i] in Elems(x.nodes);
      }
    }
    forall c | 0 <= c < |r| ensures EntryOk(table, next', members', r, c) {
      assert EntryOk(table, next, members, s, c);
      if c != b && c != Partner(b) {
        assert Apart(s, b, c);
        NewNodeNowhere(s, n, c);
        LinkedNodesIn(next, members, s[c]);
        BucketUntouched(next, next', members, members', s[c]);
      }
    }
  }

  lemma EmptyRealises(size: nat, next: Links, members: Members)
    ensures Realises(seq(size, _ => Null), next, members, Empty(size))
  {
  }

  lemma PairListsApart(ops: KeyOps, s: Shape, b: nat)
    requires ShapeOk(ops, s) && b < |s| && s[b].Chain?
    ensures Partner(b) < |s|
    ensures DistinctKeys(s[b].nodes) && DistinctKeys(s[Partner(b)].nodes)
    ensures forall i, j :: 0 <= i < |s[b].nodes| && 0 <= j < |s[Partner(b)].nodes|
                           ==> s[b].nodes[i] != s[Partner(b)].nodes[j]
  {
    PartnerFacts(b, |s|);
    assert BucketOk(ops, s, b) && BucketOk(ops, s, Partner(b));
    forall i, j | 0 <= i < |s[b].nodes| && 0 <= j < |s[Partner(b)].nodes|
      ensures s[b].nodes[i] != s[Partner(b)].nodes[j]
    {
      assert Home(ops, |s|, s[b].nodes[i].key) != Home(ops, |s|, s[Partner(b)].nodes[j].key);
    }
  }

  lemma StillLinked(next: Links, gone: seq<Node>, ns: seq<Node>)
    requires Linked(next, ns)
    requires forall i, j :: 0 <= i < |gone| && 0 <= j < |ns| ==> gone[i] != ns[j]
    ensures Linked(UnlinkAll(next, gone), ns)
  {
  }

  lemma ReplacedMember(members: Members, t: Tree, x: seq<Node>, y: seq<Node>, z: seq<Node>)
    ensures members[t := x][t := y][t := z] == members[t := z]
  {
  }

  lemma SetPairTwice(s: Shape, b: nat, x: Bucket, y: Bucket)
    requires b < |s| && |s| % 2 == 0 && Partner(b) < |s|
    ensures SetPair(SetPair(s, b, x), b, y) == SetPair(s, b, y)
    ensures SetPair(s, b, x)[b] == x
  {
  }

  /** Tree conversion adds and loses no key. */
  lemma ConvertKeepsKeys(ops: KeyOps, s: Shape, b: nat, t: Tree)
    requires ShapeOk(ops, s) && b < |s| && s[b].Chain? && s[b].nodes != []
    ensures AllKeys(SetPair(s, b, Shared(t, PairTree(ops, s, b)))) == AllKeys(s)
  {
    PairTreeOk(ops, s, b);
    var k := s[b].nodes[0].key;
    assert k in Keys(s[b].nodes);
    SetPairKeys(s, b, Shared(t, PairTree(ops, s, b)), k);
    assert k in AllKeys(s);
  }

  // ---------------------------------------------------------------- moving to a new table

  /** Only nodes in `touched` may have had their `next` rewritten. */
  ghost predicate NextKept(next: Links, next': Links, touched: set<Node>) {
    forall n :: n in next && n !in touched ==> n in next' && next'[n] == next[n]
  }

  ghost predicate MembersKept(members: Members, members': Members, touched: set<Tree>) {
    forall t :: t in members && t !in touched ==> t in members' && members'[t] == members[t]
  }

  /** The old buckets from `i` on, still linked up as the old layout `os` says. */
  ghost predicate Pending(next: Links, members: Members, os: Shape, i: nat) {
    forall c :: i <= c < |os| ==> BucketIn(next, members, os[c])
  }

  ghost predicate KeysWithin(os: Shape, i: nat, keys: set<Key>) {
    forall c :: i <= c < |os| ==> Keys(os[c].nodes) <= keys
  }

  lemma PendingKept(next: Links, next': Links, members: Members, members': Members, os: Shape, i: nat,
                    touched: set<Node>, trees: set<Tree>, keys: set<Key>)
    requires Pending(next, members, os, i) && KeysWithin(os, i, keys)
    requires NextKept(next, next', touched) && MembersKept(members, members', trees)
    requires forall n :: n in touched ==> n.key !in keys
    requires Trees(os) !! trees
    ensures Pending(next', members', os, i)
  {
  }

  lemma LinkedKept(next: Links, next': Links, ns: seq<Node>, touched: set<Node>, keys: set<Key>)
    requires Linked(next, ns) && NextKept(next, next', touched) && Keys(ns) <= keys
    requires forall n :: n in touched ==> n.key !in keys
    ensures Linked(next', ns)
  {
  }

  lemma NodeKeysIn(s: Shape)
    ensures forall n :: n in Nodes(s) ==> n.key in AllKeys(s)
  {
  }

  lemma PushKept(ops: KeyOps, next: Links, s: Shape, n: Node, m: Node?)
    ensures NextKept(next, next[n := m], Nodes(s) + {n})
  {
  }

  lemma ConvertKept(ops: KeyOps, next: Links, members: Members, s: Shape, b: nat, t: Tree, ns: seq<Node>)
    requires b < |s| && |s| % 2 == 0 && Partner(b) < |s| && t !in members
    ensures NextKept(next, UnlinkAll(next, PairNodes(s, b)), Nodes(s))
    ensures MembersKept(members, members[t := ns], Trees(s))
  {
  }

  // ---------------------------------------------------------------- erasure

  /** Unlinking `n` from the list at `b`. */
  lemma EraseListRealises(ops: KeyOps, table: seq<Ptr>, next: Links, next': Links, members: Members,
                          s: Shape, b: nat, n: Node)
    requires ShapeOk(ops, s) && Realises(table, next, members, s)
    requires b < |s| && s[b].Chain? && n in s[b].nodes
    requires Linked(next', Without(s[b].nodes, n)) && NextKept(next, next', Elems(s[b].nodes))
    ensures Realises(table[b := PtrOf(Chain(Without(s[b].nodes, n)))], next', members, Removed(s, b, n))
  {
    var r := Removed(s, b, n);
    var table' := table[b := PtrOf(Chain(Without(s[b].nodes, n)))];
    forall c | 0 <= c < |r| ensures EntryOk(table', next', members, r, c) {
      assert EntryOk(table, next, members, s, c);
      if c != b {
        LinkedNodesIn(next, members, s[c]);
        forall i | 0 <= i < |s[c].nodes| ensures s[c].nodes[i] !in Elems(s[b].nodes) {
          NotInChain(ops, s, b, c, i);
        }
        BucketUntouched(next, next', members, members, s[c]);
      }
    }
  }

  lemma NotInChain(ops: KeyOps, s: Shape, b: nat, c: nat, i: nat)
    requires ShapeOk(ops, s) && b < |s| && c < |s| && c != b && s[b].Chain? && i < |s[c].nodes|
    ensures s[c].nodes[i] !in Elems(s[b].nodes)
  {
    assert BucketOk(ops, s, b) && BucketOk(ops, s, c);
    PartnerFacts(b, |s|);
    forall j | 0 <= j < |s[b].nodes| ensures s[b].nodes[j] != s[c].nodes[i] {
      assert Home(ops, |s|, s[b].nodes[j].key) == b;
    }
  }

  /** Taking `n` out of the tree at `b`; an emptied tree takes both entries with it. */
  lemma EraseTreeRealises(ops: KeyOps, table: seq<Ptr>, next: Links, members: Members, s: Shape, b: nat, n: Node)
    requires ShapeOk(ops, s) && Realises(table, next, members, s)
    requires b < |s| && s[b].Shared? && n in s[b].nodes
    ensures Partner(b) < |s| && s[b].tree in members && members[s[b].tree] == s[b].nodes
    ensures Without(s[b].nodes, n) != [] ==>
              Realises(table, next, members[s[b].tree := Without(s[b].nodes, n)], Removed(s, b, n))
    ensures Without(s[b].nodes, n) == [] ==>
              Realises(table[b := Null][Partner(b) := Null], next, members[s[b].tree := []], Removed(s, b, n))
  {
    PartnerFacts(b, |s|);
    var t, rest, r := s[b].tree, Without(s[b].nodes, n), Removed(s, b, n);
    assert EntryOk(table, next, members, s, b) && EntryOk(table, next, members, s, Partner(b));
    assert BucketOk(ops, s, b);
    SortedDistinct(ops, s[b].nodes);
    WithoutMembers(s[b].nodes, n);
    assert Unlinked(next, rest) by {
      forall i | 0 <= i < |rest| ensures rest[i] in next && next[rest[i]] == null {
        assert rest[i] in Elems(rest);
      }
    }
    var table' := if rest == [] then table[b := Null][Partner(b) := Null] else table;
    var members' := members[t := rest];
    forall c | 0 <= c < |r| ensures EntryOk(table', next, members', r, c) {
      assert EntryOk(table, next, members, s, c);
      assert Apart(s, b, c);
    }
  }

  lemma FirstKeyApart(ns: seq<Node>)
    requires ns != [] && DistinctKeys(ns)
    ensures Keys(ns) == Keys(ns[1..]) + {ns[0].key} && ns[0].key !in Keys(ns[1..]) && DistinctKeys(ns[1..])
  {
  }

  lemma NextKeptTwice(a: Links, b: Links, c: Links, touched: set<Node>, n: Node)
    requires NextKept(a, b, touched) && NextKept(b, c, {n})
    ensures NextKept(a, c, touched + {n})
  {
  }

  lemma MembersKeptTwice(a: Members, b: Members, c: Members, touched: set<Tree>, t: Tree)
    requires MembersKept(a, b, touched) && MembersKept(b, c, {t}) && t !in a
    ensures MembersKept(a, c, touched)
  {
  }

  lemma TreesAfterInsert(ops: KeyOps, s: Shape, b: nat, n: Node, spare: Tree?)
    requires b < |s| && |s| % 2 == 0 && Partner(b) < |s|
    requires s[b].Chain? && |s[b].nodes| >= MAX_CHAIN ==> spare != null
    ensures Trees(Inserted(ops, s, b, n, spare)) <= Trees(s) + {spare}
  {
  }

  /** Whatever is pending after bucket `b` has a home at or behind `b`'s successor. */
  lemma OrderStep(ops: KeyOps, os: Shape, b: nat)
    requires ShapeOk(ops, os) && b < |os| && Aligned(os, b)
    ensures Aligned(os, if os[b].Shared? then b + 2 else b + 1)
    ensures OrderFrom(os, b) == os[b].nodes + OrderFrom(os, if os[b].Shared? then b + 2 else b + 1)
    ensures DistinctKeys(OrderFrom(os, b))
    ensures KeysWithin(os, if os[b].Shared? then b + 2 else b + 1,
                       Keys(OrderFrom(os, if os[b].Shared? then b + 2 else b + 1)))
    ensures os[b].Shared? ==> b + 2 <= |os|
  {
    assert BucketOk(ops, os, b);
    NextAligned(ops, os, b);
    OrderFromDistinct(ops, os, b);
    OrderCoversKeys(ops, os, if os[b].Shared? then b + 2 else b + 1);
  }

  lemma OrderCoversKeys(ops: KeyOps, os: Shape, b: nat)
    requires ShapeOk(ops, os) && Aligned(os, b)
    ensures KeysWithin(os, b, Keys(OrderFrom(os, b)))
  {
    OrderFromMembers(ops, os, b);
    var o := OrderFrom(os, b);
    forall c | b <= c < |os| ensures Keys(os[c].nodes) <= Keys(o) {
      forall k | k in Keys(os[c].nodes) ensures k in Keys(o) {
        var i :| 0 <= i < |os[c].nodes| && os[c].nodes[i].key == k;
        assert os[c].nodes[i] in Elems(os[c].nodes);
        assert os[c].nodes[i] in Elems(o);
        var j :| 0 <= j < |o| && o[j] == os[c].nodes[i];
      }
    }
  }

  lemma KeysOfTail(ns: seq<Node>, j: nat, rest: seq<Node>)
    requires j < |ns|
    ensures (ns[j..] + rest)[0] == ns[j] && (ns[j..] + rest)[1..] == ns[j + 1..] + rest
    ensures Keys(ns[j + 1..]) <= Keys(ns[j + 1..] + rest) && Keys(rest) <= Keys(ns[j + 1..] + rest)
  {
    assert ns[j..] == [ns[j]] + ns[j + 1..];
    KeysConcat(ns[j + 1..], rest);
  }

  lemma KeysWithinMore(os: Shape, i: nat, keys: set<Key>, more: set<Key>)
    requires KeysWithin(os, i, keys) && keys <= more
    ensures KeysWithin(os, i, more)
  {
  }

  lemma LinkedTail(next: Links, ns: seq<Node>, j: nat)
    requires j < |ns| && Linked(next, ns[j..])
    ensures ns[j] in next && next[ns[j]] == NodeAt(ns, j + 1) && Linked(next, ns[j + 1..])
  {
  }

  lemma PendingLater(next: Links, members: Members, os: Shape, i: nat, j: nat)
    requires Pending(next, members, os, i) && i <= j
    ensures Pending(next, members, os, j)
    ensures i < |os| ==> BucketIn(next, members, os[i])
  {
  }

  /** What telling entries apart by their partners yields, for the whole table at once. */
  lemma EntryKindsAll(ops: KeyOps, table: seq<Ptr>, next: Links, members: Members, s: Shape)
    requires ShapeOk(ops, s) && Realises(table, next, members, s)
    ensures |table| == |s| && |s| % 2 == 0
    ensures forall b :: 0 <= b < |s| ==> Partner(b) < |s| && EntryKindOk(table, s, b)
    ensures Pending(next, members, s, 0) && Trees(s) <= members.Keys
  {
    forall b | 0 <= b < |s| ensures Partner(b) < |s| && EntryKindOk(table, s, b) && BucketIn(next, members, s[b]) {
      EntryKinds(ops, table, next, members, s, b);
    }
    TreesAreMembers(table, next, members, s);
  }

  ghost predicate EntryKindOk(table: seq<Ptr>, s: Shape, b: nat)
    requires b < |s| == |table| && |s| % 2 == 0
  {
    && (EntryIsNonEmptyList(table, b) <==> s[b].Chain? && s[b].nodes != [])
    && (EntryIsTree(table, b) <==> s[b].Shared?)
    && table[b] == PtrOf(s[b])
  }

  /** A bucket, and what comes behind it. */
  lemma OrderParts(ops: KeyOps, os: Shape, b: nat) returns (after: nat)
    requires ShapeOk(ops, os) && b < |os| && Aligned(os, b)
    ensures after == (if os[b].Shared? then b + 2 else b + 1) && after <= |os| && Aligned(os, after)
    ensures OrderFrom(os, b) == os[b].nodes + OrderFrom(os, after)
    ensures Elems(OrderFrom(os, b)) == Elems(os[b].nodes) + Elems(OrderFrom(os, after))
    ensures Keys(OrderFrom(os, b)) == Keys(os[b].nodes) + Keys(OrderFrom(os, after))
    ensures KeysWithin(os, after, Keys(OrderFrom(os, after)))
  {
    hide *;
    OrderStep(ops, os, b);
    after := if os[b].Shared? then b + 2 else b + 1;
    KeysConcat(os[b].nodes, OrderFrom(os, after));
  }

  lemma EntryKind(table: seq<Ptr>, s: Shape, b: nat)
    requires b < |s| == |table| && |s| % 2 == 0 && EntryKindOk(table, s, b)
    ensures EntryIsNonEmptyList(table, b) <==> s[b].Chain? && s[b].nodes != []
    ensures EntryIsTree(table, b) <==> s[b].Shared?
    ensures s[b].Chain? && s[b].nodes != [] ==> table[b] == ListHead(s[b].nodes[0])
    ensures s[b].Shared? ==> table[b] == TreeRoot(s[b].tree)
  {
  }

  /** The first non-empty bucket is a safe place to start iterating, and skips nothing. */
  lemma FirstAligned(ops: KeyOps, s: Shape, first: nat)
    requires ShapeOk(ops, s) && FirstExact(s, first)
    ensures Aligned(s, first) && OrderFrom(s, first) == Order(s)
    ensures Elems(Order(s)) == Nodes(s) && Keys(Order(s)) == AllKeys(s) && DistinctKeys(Order(s))
    ensures KeysWithin(s, first, Keys(Order(s)))
  {
    assert first < |s| ==> BucketOk(ops, s, first);
    assert 0 < first ==> s[first - 1] == Chain([]);
    OrderSkipsEmpty(s, 0, first);
    OrderVisitsEachOnce(ops, s);
    OrderCoversKeys(ops, s, 0);
  }

  // ---------------------------------------------------------------- iteration

  lemma TreesNonEmpty(ops: KeyOps, s: Shape, b: nat)
    requires ShapeOk(ops, s) && b < |s| && s[b].Shared?
    ensures s[b].nodes != []
  {
    assert BucketOk(ops, s, b);
  }

  lemma SortedTree(ops: KeyOps, s: Shape, b: nat)
    requires ShapeOk(ops, s) && b < |s|
    ensures DistinctKeys(s[b].nodes) && (s[b].Shared? ==> |s| >= 2 + EvenOf(b))
  {
    assert BucketOk(ops, s, b);
    if s[b].Shared? { SortedDistinct(ops, s[b].nodes); }
  }

  /** Some bucket that holds `n`, and where in it. */
  lemma Locate(s: Shape, n: Node) returns (b: nat, i: nat)
    requires n in Nodes(s)
    ensures b < |s| && i < |s[b].nodes| && s[b].nodes[i] == n
  {
    b :| 0 <= b < |s| && n in s[b].nodes;
    i :| 0 <= i < |s[b].nodes| && s[b].nodes[i] == n;
  }

  ghost function Position(ns: seq<Node>, n: Node): (i: nat)
    requires n in ns
    ensures i < |ns| && ns[i] == n
  {
    var i :| 0 <= i < |ns| && ns[i] == n; i
  }

  /** A node with a successor pointer is in a list, and not last in it. */
  lemma LiveLink(ops: KeyOps, table: seq<Ptr>, next: Links, members: Members, s: Shape, b: nat, i: nat)
    requires ShapeOk(ops, s) && Realises(table, next, members, s) && b < |s| && i < |s[b].nodes|
    ensures s[b].nodes[i] in next
    ensures next[s[b].nodes[i]] != null ==>
              s[b].Chain? && i + 1 < |s[b].nodes| && next[s[b].nodes[i]] == s[b].nodes[i + 1] && Aligned(s, b)
    ensures next[s[b].nodes[i]] == null && s[b].Chain? ==> i + 1 == |s[b].nodes|
    ensures s[b].Shared? ==> s[b].tree in members && members[s[b].tree] == s[b].nodes
  {
    assert EntryOk(table, next, members, s, b);
  }

  /** In an iteration order without repetitions, the successor is determined by the place. */
  lemma FollowsAt(ops: KeyOps, s: Shape, i: nat, m: Node?)
    requires ShapeOk(ops, s) && i < |Order(s)| && Follows(s, Order(s)[i], m)
    ensures m == NodeAt(Order(s), i + 1)
  {
    OrderVisitsEachOnce(ops, s);
    var o := Order(s);
    var j :| 0 <= j < |o| && o[j] == o[i] && m == NodeAt(o, j + 1);
    assert o[i].key == o[j].key;
  }

  lemma LinkedDrop(next: Links, ns: seq<Node>)
    requires ns != [] && Linked(next, ns)
    ensures ns[0] in next && next[ns[0]] == NodeAt(ns, 1) && Linked(next, ns[1..])
    ensures NodeAt(ns[1..], 0) == NodeAt(ns, 1)
  {
  }

  /** Pointing the head of a list at what the recursive erasure returned. */
  lemma Relinked(next0: Links, next1: Links, ns: seq<Node>, rest: seq<Node>, item: Node)
    requires ns != [] && ns[0] != item && DistinctKeys(ns) && rest == Without(ns[1..], item)
    requires ns[0] in next0 && NextKept(next0, next1, Elems(ns[1..])) && Linked(next1, rest)
    ensures Linked(next1[ns[0] := NodeAt(rest, 0)], Without(ns, item))
    ensures NextKept(next0, next1[ns[0] := NodeAt(rest, 0)], Elems(ns))
    ensures Without(ns, item) == [ns[0]] + rest
  {
    hide Linked, NextKept, DistinctKeys, Elems, Keys, Without, NodeAt;
    var head, tail := ns[0], ns[1..];
    var next2 := next1[head := NodeAt(rest, 0)];
    FirstKeyApart(ns);
    WithoutMembers(tail, item);
    WithoutLater(ns, item);
    KeysConcat([head], tail);
    assert ns == [head] + tail && Elems(ns) == Elems(tail) + {head};
    OneRelinked(next1, head, NodeAt(rest, 0));
    LinkedKept(next1, next2, rest, {head}, Keys(rest));
    LinkedCons(next2, head, rest);
    NextKeptTwice(next0, next1, next2, Elems(tail), head);
  }

  lemma WithoutLater(ns: seq<Node>, item: Node)
    requires ns != [] && ns[0] != item
    ensures Without(ns, item) == [ns[0]] + Without(ns[1..], item)
  {
  }

  lemma OneRelinked(next: Links, head: Node, to: Node?)
    ensures NextKept(next, next[head := to], {head})
  {
  }

  lemma LinkedCons(next: Links, head: Node, rest: seq<Node>)
    requires Linked(next, rest) && head in next && next[head] == NodeAt(rest, 0)
    ensures Linked(next, [head] + rest)
  {
  }

  /** When the erased node was not in the first non-empty bucket, that bucket stays first. */
  lemma RemoveKeepsFirst(ops: KeyOps, s: Shape, first: nat, b: nat, n: Node)
    requires ShapeOk(ops, s) && FirstExact(s, first) && b < |s| && Aligned(s, b) && n in s[b].nodes
    ensures first <= b
    ensures forall c :: 0 <= c < first ==> Removed(s, b, n)[c] == Chain([])
    ensures b != first ==> FirstExact(Removed(s, b, n), first)
  {
  }
}
